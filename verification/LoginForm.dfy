/**
  The login form's submission logic: the four pieces of form state, the
  ordered checks of `handleLogin`, and the delayed completion that builds
  the user record, stores it under `musicMoodUser` and hands it to the
  `onLoginSuccess` callback.

  The completion is a separate step, `Complete`, that the environment runs
  once the scheduled delay has passed; the timestamp and the random id it
  uses are its parameters, and the record it returns is the argument the
  callback receives. Browser storage is a map from keys to records.
 */
module LoginForm {
  import opened Whitespace
  import opened EmailValidator

  datatype Option<T> = None | Some(value: T)

  const EmailRequired: string := "Please enter your email address"
  const EmailInvalid: string := "Please enter a valid email address"
  const NameRequired: string := "Please enter your name"

  /** The storage key the completed login is written under. */
  const StorageKey: string := "musicMoodUser"

  /** What a successful login produces. */
  datatype UserRecord = UserRecord(email: string, userName: string, loginTime: string, userId: string)

  /** The field values a scheduled completion closed over. */
  datatype Credentials = Credentials(email: string, userName: string)

  /** The message of the first of the three checks that fails, in the
      order the submit handler runs them, or `None` when all pass. */
  function FirstFailure(email: string, userName: string): (r: Option<string>)
    ensures r.Some? ==> IsKnownError(r.value) && r.value != ""
  {
    if Trim(email) == [] then Some(EmailRequired)
    else if !ValidateEmail(email) then Some(EmailInvalid)
    else if Trim(userName) == [] then Some(NameRequired)
    else None
  }

  /** The text of the error banner after a submit with that outcome. */
  function ErrorText(failure: Option<string>): (text: string)
  {
    match failure
    case Some(message) => message
    case None => ""
  }

  /** The error slot holds nothing or one of the three fixed messages. */
  predicate IsKnownError(e: string)
  {
    e == "" || e == EmailRequired || e == EmailInvalid || e == NameRequired
  }

  // ---------------------------------------------------------------------
  // What the checks mean
  // ---------------------------------------------------------------------

  /** A valid address is never blank, and trimming leaves it as it is: the
      first check can never be the one that rejects a valid address. */
  lemma ValidEmailIsNotBlank(s: string)
    requires ValidateEmail(s)
    ensures !IsBlank(s) && Trim(s) == s
  {
    ValidEmailShape(s);
    TrimOfNoWs(s);
  }

  /** An empty or all-white-space email is reported as missing, whatever
      the name holds. */
  lemma BlankEmailReported(email: string, userName: string)
    requires IsBlank(email)
    ensures FirstFailure(email, userName) == Some(EmailRequired)
  {
  }

  /** A non-blank email outside the pattern's language is reported as
      invalid, whatever the name holds. */
  lemma InvalidEmailReported(email: string, userName: string)
    requires !IsBlank(email) && !InPatternLanguage(email)
    ensures FirstFailure(email, userName) == Some(EmailInvalid)
  {
    ValidateEmailIsPattern(email);
  }

  /** With an address the pattern accepts, a blank name is the failure. */
  lemma BlankNameReported(email: string, userName: string)
    requires InPatternLanguage(email) && IsBlank(userName)
    ensures FirstFailure(email, userName) == Some(NameRequired)
  {
    ValidateEmailIsPattern(email);
    ValidEmailIsNotBlank(email);
  }

  /** All checks pass exactly when the pattern accepts the email and the
      name is not blank. */
  lemma PassesExactly(email: string, userName: string)
    ensures FirstFailure(email, userName) == None <==>
            InPatternLanguage(email) && !IsBlank(userName)
  {
    ValidateEmailIsPattern(email);
    if ValidateEmail(email) {
      ValidEmailIsNotBlank(email);
    }
  }

  /** The form component: its four state fields, the completion that is
      scheduled while it is busy, and the browser's key-value store. */
  class LoginForm {
    var email: string
    var userName: string
    var error: string
    var isLoading: bool
    /** The scheduled completion, with the field values it closed over. */
    var pending: Option<Credentials>
    var storage: map<string, UserRecord>

    /** Busy exactly while a completion is scheduled; while busy the
        fields are the ones that passed the checks (the inputs are
        disabled) and no error shows. */
    ghost predicate Valid()
      reads this
    {
      && (isLoading <==> pending.Some?)
      && (isLoading ==>
            pending.value == Credentials(email, userName) &&
            FirstFailure(email, userName) == None &&
            error == "")
      && IsKnownError(error)
    }

    /** A freshly mounted form: empty fields, no error, not busy, over the
        store as the browser has it. */
    constructor (store: map<string, UserRecord>)
      ensures Valid()
      ensures email == "" && userName == "" && error == ""
      ensures !isLoading && pending == None && storage == store
    {
      email, userName, error := "", "", "";
      isLoading, pending := false, None;
      storage := store;
    }

    /** Typing in the email input; the input is disabled while busy. */
    method SetEmail(value: string)
      requires Valid() && !isLoading
      modifies this`email
      ensures Valid() && email == value
    {
      email := value;
    }

    /** Typing in the name input; the input is disabled while busy. */
    method SetUserName(value: string)
      requires Valid() && !isLoading
      modifies this`userName
      ensures Valid() && userName == value
    {
      userName := value;
    }

    /** Submitting the form (the button is disabled while busy). The
        error is cleared, then the checks run in order and the first that
        fails sets its message and stops the handler; when all pass the
        form becomes busy and the completion is scheduled with the current
        field values. The fields and the store are not touched. */
    method Submit()
      requires Valid() && !isLoading
      modifies this`error, this`isLoading, this`pending
      ensures Valid()
      ensures error == ErrorText(FirstFailure(email, userName))
      ensures isLoading <==> FirstFailure(email, userName) == None
      ensures pending == if isLoading then Some(Credentials(email, userName)) else None
    {
      error := "";

      if Trim(email) == [] {
        error := EmailRequired;
        return;
      }

      if !ValidateEmail(email) {
        error := EmailInvalid;
        return;
      }

      if Trim(userName) == [] {
        error := NameRequired;
        return;
      }

      isLoading := true;
      pending := Some(Credentials(email, userName));
    }

    /** The scheduled completion, run by the environment after the delay.
        It builds the record from the raw (untrimmed) field values, writes
        it to the store under `musicMoodUser` (replacing any earlier
        value, leaving every other key alone), clears the busy flag and
        returns the record the success callback receives. The fields were
        checked before scheduling, so the stored address is a valid one
        that trimming would leave as it is; the name is stored as typed,
        surrounding white space included. */
    method Complete(loginTime: string, userId: string) returns (record: UserRecord)
      requires Valid() && isLoading
      modifies this`storage, this`isLoading, this`pending
      ensures Valid()
      ensures record == UserRecord(old(pending).value.email, old(pending).value.userName, loginTime, userId)
      ensures record.email == email && record.userName == userName
      ensures ValidateEmail(record.email) && Trim(record.email) == record.email
      ensures !IsBlank(record.userName)
      ensures storage == old(storage)[StorageKey := record]
      ensures forall k :: k != StorageKey ==>
                (k in storage <==> k in old(storage)) &&
                (k in storage ==> storage[k] == old(storage)[k])
      ensures !isLoading && pending == None && error == ""
    {
      var captured := pending.value;
      record := UserRecord(captured.email, captured.userName, loginTime, userId);
      ValidEmailIsNotBlank(record.email);
      storage := storage[StorageKey := record];
      isLoading := false;
      pending := None;
    }
  }

  /** Two successful logins with the same inputs: both records carry the
      same email and name, each has its own time and id, and the store
      keeps only the second. */
  method LoginTwice(form: LoginForm, time1: string, id1: string, time2: string, id2: string)
    returns (first: UserRecord, second: UserRecord)
    requires form.Valid() && !form.isLoading
    requires FirstFailure(form.email, form.userName) == None
    modifies form
    ensures form.Valid() && !form.isLoading
    ensures form.email == old(form.email) && form.userName == old(form.userName)
    ensures form.error == "" && form.pending == None
    ensures first == UserRecord(old(form.email), old(form.userName), time1, id1)
    ensures second == UserRecord(old(form.email), old(form.userName), time2, id2)
    ensures form.storage == old(form.storage)[StorageKey := second]
  {
    form.Submit();
    first := form.Complete(time1, id1);
    form.Submit();
    second := form.Complete(time2, id2);
  }
}
