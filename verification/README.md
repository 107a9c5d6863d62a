# Music Mood Matcher login form: a Dafny model

This project models the submission logic of the login form in the Music
Mood Matcher web front end (`frontend/src/components/Login.jsx`). The form
collects a display name and an email address and checks them on submit. After a
simulated one-second authentication delay, it builds a user record. It
writes the record to browser storage under the key `musicMoodUser` and
passes it to the parent's `onLoginSuccess` callback.

The model has three modules:

- `Whitespace` (`Whitespace.dfy`) defines the white space of JavaScript:
  the WhiteSpace and LineTerminator productions of ECMA-262, sections 12.2
  and 12.3. Both the regular-expression escape `\s` and `String.prototype.trim`
  use this set. The module also defines `Trim` and proves what it removes.
- `EmailValidator` (`EmailValidator.dfy`) models `validateEmail`, which
  tests the pattern `^[^\s@]+@[^\s@]+\.[^\s@]+$`. It gives three
  definitions and proves them equivalent:
  - `InPatternLanguage` is the pattern's language.
  - `IsStructurallyValid` is the plain shape: one `@`, a non-empty local
    part, no white space, and a `.` strictly inside the domain.
  - `ValidateEmail` is a recursive matcher that backtracks over the one
    choice the pattern leaves: which `.` plays `\.`.
- `LoginForm` (`LoginForm.dfy`) models the component as a class. Its
  fields are `email`, `userName`, `error`, `isLoading` and the storage map,
  plus `pending`: the completion that `setTimeout` scheduled, with the
  field values its closure captured. `Submit` models `handleLogin`.
  `Complete` models the body of the scheduled callback. `FirstFailure` is
  the pure specification of the three ordered checks.

Points worth knowing about the code:

- `a@@b.com` is rejected, because `[^\s@]` excludes `@`
  (`BoundaryExamples`).
- `substr(2, 9)` of a base-36 rendering of a random float can return fewer
  than 9 characters, so `userId` is an opaque parameter of `Complete`.
- The record stores the raw field values, not trimmed ones. For the email
  this changes nothing: a valid address has no white space. For the name,
  surrounding white space is stored as typed.

## Model

| member | source | states |
|---|---|---|
| `Whitespace.IsWs` | frontend/src/components/Login.jsx:13 | definition: the character set of `\s` and of `trim` (ECMA-262 WhiteSpace and LineTerminator); its consequences for the form are proved by the `Trim` and validator lemmas below |
| `Whitespace.TrimStartSpec` | frontend/src/components/Login.jsx:22 | the leading part `trim` drops is all white space, and what remains is a suffix that does not start with white space |
| `Whitespace.TrimEndSpec` | frontend/src/components/Login.jsx:22 | the trailing part `trim` drops is all white space, and what remains is a prefix that does not end with white space |
| `Whitespace.Trim` | frontend/src/components/Login.jsx:22 | `field.trim()` is empty exactly when every character of the field is white space (so `!field.trim()` means "blank"); a non-empty result starts and ends with a non-white-space character |
| `Whitespace.TrimIsSlice` | frontend/src/components/Login.jsx:32 | `trim` returns a contiguous piece of its input, and everything outside that piece is white space |
| `Whitespace.TrimOfNoWs` | frontend/src/components/Login.jsx:22 | trimming a string without white space returns it unchanged |
| `EmailValidator.InPatternLanguage` | frontend/src/components/Login.jsx:13 | definition: the language of `^[^\s@]+@[^\s@]+\.[^\s@]+$`, three non-empty `[^\s@]` runs around an `@` and a `.`; the independent reference that `ValidateEmailIsPattern` and `StructuralIsPattern` relate the other views to |
| `EmailValidator.ValidateEmail` | frontend/src/components/Login.jsx:12-15 | definition: the model of `validateEmail`, a backtracking matcher for the pattern; its meaning is proved by `ValidateEmailSpec`, `ValidateEmailIsPattern` and `ValidEmailShape` |
| `EmailValidator.MatchFinalRunSpec` | frontend/src/components/Login.jsx:13 | the matcher's final `[^\s@]+$` accepts exactly the non-empty strings of class characters |
| `EmailValidator.MatchDomainRestSpec` | frontend/src/components/Login.jsx:13 | after the domain's first character, the matcher accepts exactly the class strings with a `.` before their last character (both backtracking alternatives accounted for) |
| `EmailValidator.MatchDomainSpec` | frontend/src/components/Login.jsx:13 | the matcher accepts a domain exactly when it is a class string with a `.` that is neither its first nor its last character |
| `EmailValidator.MatchLocalRestSound` | frontend/src/components/Login.jsx:13 | what the matcher accepts after the first local character is a class string, then `@`, then an accepted domain |
| `EmailValidator.MatchLocalRestComplete` | frontend/src/components/Login.jsx:13 | every class string followed by `@` and an accepted domain is accepted |
| `EmailValidator.ValidateEmailSound` | frontend/src/components/Login.jsx:12-15 | an accepted address has the structural shape: one `@`, a non-empty local part, no white space, an inner `.` in the domain |
| `EmailValidator.ValidateEmailComplete` | frontend/src/components/Login.jsx:12-15 | every string of the structural shape is accepted |
| `EmailValidator.ValidateEmailSpec` | frontend/src/components/Login.jsx:12-15 | `validateEmail` holds iff the string is `L + "@" + D` with `L` non-empty, neither part holding white space or `@`, and `D[k] == '.'` for some `0 < k < |D| - 1` |
| `EmailValidator.StructuralInPattern` | frontend/src/components/Login.jsx:13 | a string of the structural shape splits into the pattern's three runs around `@` and `.` |
| `EmailValidator.PatternIsStructural` | frontend/src/components/Login.jsx:13 | a string in the pattern's language has the structural shape |
| `EmailValidator.StructuralIsPattern` | frontend/src/components/Login.jsx:13 | the structural shape and the pattern's language are the same set of strings |
| `EmailValidator.ValidateEmailIsPattern` | frontend/src/components/Login.jsx:12-15 | `validateEmail(s)` returns true exactly when `^[^\s@]+@[^\s@]+\.[^\s@]+$` matches `s` |
| `EmailValidator.SegmentCounts` | frontend/src/components/Login.jsx:13 | a run of `[^\s@]` holds no `@` and no white space |
| `EmailValidator.LocalRestCounts` | frontend/src/components/Login.jsx:13 | after the first character, an accepted address holds exactly one `@` and no white space |
| `EmailValidator.ValidEmailShape` | frontend/src/components/Login.jsx:12-15 | an accepted address contains exactly one `@` and no white space, so any string with white space, or with zero or several `@`, is rejected |
| `EmailValidator.BoundaryExamples` | frontend/src/components/Login.jsx:13 | `a@b.c` is accepted, while `a@b` and `a@@b.com` are rejected |
| `LoginForm.FirstFailure` | frontend/src/components/Login.jsx:22-35 | definition: the pure model of the three ordered checks; its result is `None` or one of the three fixed, non-empty messages, and the lemmas below say which message each input gets |
| `LoginForm.ValidEmailIsNotBlank` | frontend/src/components/Login.jsx:22-30 | a valid address is never blank and trimming leaves it unchanged, so the first check never rejects a valid address |
| `LoginForm.BlankEmailReported` | frontend/src/components/Login.jsx:22-25 | an empty or all-white-space email yields exactly "Please enter your email address", whatever the name is |
| `LoginForm.InvalidEmailReported` | frontend/src/components/Login.jsx:27-30 | a non-blank email that the pattern does not match yields "Please enter a valid email address", whatever the name is |
| `LoginForm.BlankNameReported` | frontend/src/components/Login.jsx:32-35 | with an address the pattern matches, a blank name yields "Please enter your name" |
| `LoginForm.PassesExactly` | frontend/src/components/Login.jsx:22-37 | all three checks pass iff the pattern matches the email and the name is not blank |
| `LoginForm.LoginForm.constructor` | frontend/src/components/Login.jsx:7-10 | a mounted form starts with empty fields, no error, not loading and nothing scheduled, over the existing store |
| `LoginForm.LoginForm.SetEmail` | frontend/src/components/Login.jsx:167-168 | the email input sets `email` and nothing else; it is accepted only while not loading |
| `LoginForm.LoginForm.SetUserName` | frontend/src/components/Login.jsx:145-146 | the name input sets `userName` and nothing else; it is accepted only while not loading |
| `LoginForm.LoginForm.Submit` | frontend/src/components/Login.jsx:17-37 | a submit is refused while loading. Otherwise it clears the error and leaves the first failing check's message, or none. It sets `isLoading` and schedules the completion with the current values exactly when all checks pass. Fields and store are untouched, and the invariant (loading iff scheduled; while loading, the fields pass and no error shows) is kept |
| `LoginForm.LoginForm.Complete` | frontend/src/components/Login.jsx:40-53 | builds the record from the captured, untrimmed values and the given time and id. It writes the record to the store under `musicMoodUser`, overwriting any earlier value and leaving every other key unchanged. It clears `isLoading` and returns the record the callback receives; the record holds a valid, already-trimmed email and a non-blank name |
| `LoginForm.LoginTwice` | frontend/src/components/Login.jsx:17-53 | two successful logins with the same inputs give records with the same email and name and their own time and id; the store keeps only the second, and the form ends with the same fields, not loading, nothing scheduled and no error |

## Left out

- The JSX markup, CSS classes, framer-motion animation, the emoji and the
  conditional error banner (lines 56-210) are presentation. Disabling the
  inputs and the button while loading is modelled as the `!isLoading`
  precondition of `SetEmail`, `SetUserName` and `Submit`.
- Browser value sanitization and constraint validation are not modelled.
  The email input has `type="email"` (line 164): the browser strips line
  breaks and surrounding ASCII white space from its value, and, as the
  form has no `noValidate`, it blocks the submit event for a non-empty
  value that is not a valid HTML email address (such as `abc`), so
  `handleLogin` never sees it. The name input has `type="text"`
  (line 142), whose value has line breaks stripped. The model admits any
  field value and any submit, a superset of what the browser lets
  through, so its properties hold for the real inputs as well.
- The 1000 ms delay of `setTimeout` is not modelled as time. `Complete` is
  a separate step that the environment runs while a completion is scheduled.
  Unmounting before it runs is not modelled.
- `new Date().toISOString()` and `Math.random().toString(36).substr(2, 9)`
  are a clock and a floating-point random source. They are the `loginTime`
  and `userId` parameters of `Complete`.
- `LoginForm.LoginForm.Complete`: does not promise that `userId` has 9
  characters or that `loginTime` is an ISO-8601 string, because both come
  from outside and `substr(2, 9)` can return fewer than 9 characters.
- `localStorage.setItem` and `JSON.stringify` are modelled as an update
  of a `map<string, UserRecord>`. Serialisation, quota failures and values
  that other code stores under other keys as plain strings are left out.
  The component does not handle these failures.
- The `onLoginSuccess` callback is external code. The model returns the
  record it would receive and does not model what the callback does.
- React's `useState` batching and re-rendering, and `e.preventDefault()`,
  are left out. Setters are direct field assignments, in the order
  the handler calls them.
- The `propTypes` declaration (lines 213-215) is a framework runtime type
  hint and is not modelled.
- JavaScript strings are UTF-16 code-unit sequences, while Dafny's `string`
  holds Unicode scalar values. No white-space character lies outside the
  Basic Multilingual Plane, so `\s`, `[^\s@]` and `trim` treat a
  surrogate pair exactly as the single character it encodes.
