/**
  The form's email check: `validateEmail` tests the regular expression
  `^[^\s@]+@[^\s@]+\.[^\s@]+$` against the whole field.

  Three views of that one check are given and shown to agree:
  - `InPatternLanguage`, what the pattern means: the string splits into
    three non-empty runs of `[^\s@]` characters separated by an `@` and a
    `.`;
  - `IsStructurallyValid`, the plain shape it amounts to: one `@` with a
    non-empty, white-space-free part on each side and a `.` strictly
    inside the part after it;
  - `ValidateEmail`, a recursive matcher that walks the string the way a
    backtracking regular-expression engine walks this pattern.
 */
module EmailValidator {
  import opened Whitespace

  /** The character class `[^\s@]`. */
  predicate SegmentChar(c: char)
  {
    !IsWs(c) && c != '@'
  }

  /** Every character of `s` is in `[^\s@]` (so `[^\s@]+` matches `s`
      exactly when `s` is also non-empty). */
  predicate IsSegment(s: string)
  {
    forall i :: 0 <= i < |s| ==> SegmentChar(s[i])
  }

  /** The language of the pattern: an `@` at index `a` and a `.` at index
      `d` cut `s` into three non-empty runs of `[^\s@]`. */
  ghost predicate InPatternLanguage(s: string)
  {
    exists a, d ::
      0 < a && a + 1 < d && d + 1 < |s| && s[a] == '@' && s[d] == '.' &&
      IsSegment(s[..a]) && IsSegment(s[a + 1..d]) && IsSegment(s[d + 1..])
  }

  /** Some `.` of `d` is neither its first nor its last character. */
  predicate HasInnerDot(d: string)
  {
    exists k :: 0 < k < |d| - 1 && d[k] == '.'
  }

  /** The shape the pattern amounts to: `s` is `L + "@" + D` with `L`
      non-empty, neither part holding white space or `@`, and an inner
      `.` in `D`. */
  ghost predicate IsStructurallyValid(s: string)
  {
    exists a :: 0 < a < |s| && s[a] == '@' &&
      IsSegment(s[..a]) && IsSegment(s[a + 1..]) && HasInnerDot(s[a + 1..])
  }

  /** How often `c` occurs in `s`. */
  function CountChar(s: string, c: char): (n: nat)
  {
    if s == [] then 0 else (if s[0] == c then 1 else 0) + CountChar(s[1..], c)
  }

  // ---------------------------------------------------------------------
  // The matcher. Each predicate matches the rest of the pattern from the
  // point its name gives; the only choice point is which `.` of the domain
  // plays the pattern's `\.`, and `MatchDomainRest` tries both options
  // there, as backtracking does.
  // ---------------------------------------------------------------------

  /** `validateEmail(email)`: the whole string matches the pattern. */
  predicate ValidateEmail(s: string)
  {
    s != [] && SegmentChar(s[0]) && MatchLocalRest(s[1..])
  }

  /** After at least one local character: more of `[^\s@]*`, then `@` and
      the domain. */
  predicate MatchLocalRest(t: string)
    decreases |t|
  {
    t != [] &&
    if t[0] == '@' then MatchDomain(t[1..])
    else SegmentChar(t[0]) && MatchLocalRest(t[1..])
  }

  /** The domain `[^\s@]+\.[^\s@]+` up to the end of the input. */
  predicate MatchDomain(d: string)
  {
    d != [] && SegmentChar(d[0]) && MatchDomainRest(d[1..])
  }

  /** After at least one domain character: either this `.` is the
      pattern's `\.` and a final `[^\s@]+` matches the rest of the input,
      or this character is one more of the first run. */
  predicate MatchDomainRest(t: string)
    decreases |t|
  {
    t != [] &&
    ((t[0] == '.' && MatchFinalRun(t[1..])) ||
     (SegmentChar(t[0]) && MatchDomainRest(t[1..])))
  }

  /** `[^\s@]+$`: one or more class characters up to the end. */
  predicate MatchFinalRun(t: string)
    decreases |t|
  {
    t != [] && SegmentChar(t[0]) && (|t| == 1 || MatchFinalRun(t[1..]))
  }

  // ---------------------------------------------------------------------
  // Correctness of the matcher
  // ---------------------------------------------------------------------

  /** `MatchFinalRun` accepts exactly the non-empty class strings. */
  lemma {:induction false} MatchFinalRunSpec(t: string)
    ensures MatchFinalRun(t) <==> t != [] && IsSegment(t)
    decreases |t|
  {
    if |t| > 1 {
      MatchFinalRunSpec(t[1..]);
      assert forall i :: 1 <= i < |t| ==> t[i] == t[1..][i - 1];
    }
  }

  /** `MatchDomainRest` accepts exactly the class strings with a `.` that
      is not the last character. */
  lemma {:induction false} MatchDomainRestSpec(t: string)
    ensures MatchDomainRest(t) <==>
            IsSegment(t) && exists k :: 0 <= k < |t| - 1 && t[k] == '.'
    decreases |t|
  {
    if t != [] {
      var tail := t[1..];
      MatchDomainRestSpec(tail);
      MatchFinalRunSpec(tail);
      assert SegmentChar('.');
      if MatchDomainRest(t) {
        if t[0] == '.' && |t| > 1 && IsSegment(tail) {
          assert t[0] == '.';
        } else {
          var k :| 0 <= k < |tail| - 1 && tail[k] == '.';
          assert t[k + 1] == '.';
        }
        assert forall i :: 1 <= i < |t| ==> t[i] == tail[i - 1];
      }
      if IsSegment(t) && exists k :: 0 <= k < |t| - 1 && t[k] == '.' {
        var k :| 0 <= k < |t| - 1 && t[k] == '.';
        assert IsSegment(tail) by {
          forall i | 0 <= i < |tail| ensures SegmentChar(tail[i]) {
            assert tail[i] == t[i + 1];
          }
        }
        if k > 0 {
          assert tail[k - 1] == '.';
        }
      }
    }
  }

  /** `MatchDomain` accepts exactly the class strings with an inner `.`. */
  lemma MatchDomainSpec(d: string)
    ensures MatchDomain(d) <==> IsSegment(d) && HasInnerDot(d)
  {
    if d != [] {
      var tail := d[1..];
      MatchDomainRestSpec(tail);
      assert forall i :: 1 <= i < |d| ==> d[i] == tail[i - 1];
      if IsSegment(d) && HasInnerDot(d) {
        var k :| 0 < k < |d| - 1 && d[k] == '.';
        assert tail[k - 1] == '.';
      }
      if MatchDomain(d) {
        var k :| 0 <= k < |tail| - 1 && tail[k] == '.';
        assert d[k + 1] == '.';
      }
    }
  }

  /** What `MatchLocalRest` accepts is `L' + "@" + D` with `L'` a
      (possibly empty) class string and `D` a domain `MatchDomain`
      accepts. */
  lemma {:induction false} MatchLocalRestSound(t: string)
    requires MatchLocalRest(t)
    ensures exists a :: 0 <= a < |t| && t[a] == '@' &&
              IsSegment(t[..a]) && MatchDomain(t[a + 1..])
    decreases |t|
  {
    var tail := t[1..];
    if t[0] == '@' {
      assert t[..0] == [];
      assert t[0 + 1..] == tail;
    } else {
      MatchLocalRestSound(tail);
      var a :| 0 <= a < |tail| && tail[a] == '@' &&
               IsSegment(tail[..a]) && MatchDomain(tail[a + 1..]);
      assert t[a + 1] == '@';
      assert t[..a + 1] == [t[0]] + tail[..a];
      assert t[a + 1 + 1..] == tail[a + 1..];
    }
  }

  /** Every `L' + "@" + D` of that shape is accepted by `MatchLocalRest`. */
  lemma {:induction false} MatchLocalRestComplete(t: string, a: nat)
    requires a < |t| && t[a] == '@' && IsSegment(t[..a]) && MatchDomain(t[a + 1..])
    ensures MatchLocalRest(t)
    decreases a
  {
    var tail := t[1..];
    if a > 0 {
      assert t[0] == t[..a][0];
      assert tail[a - 1] == '@';
      assert tail[..a - 1] == t[..a][1..];
      assert tail[a - 1 + 1..] == t[a + 1..];
      MatchLocalRestComplete(tail, a - 1);
    }
  }

  /** Soundness of the matcher: what it accepts has the structural shape. */
  lemma ValidateEmailSound(s: string)
    requires ValidateEmail(s)
    ensures IsStructurallyValid(s)
  {
    var tail := s[1..];
    MatchLocalRestSound(tail);
    var a :| 0 <= a < |tail| && tail[a] == '@' &&
             IsSegment(tail[..a]) && MatchDomain(tail[a + 1..]);
    var local, dom := s[..a + 1], tail[a + 1..];
    MatchDomainSpec(dom);
    assert IsSegment(local) by {
      forall i | 0 <= i < |local| ensures SegmentChar(local[i]) {
        if i > 0 {
          assert local[i] == tail[..a][i - 1];
        }
      }
    }
    assert s[a + 1] == '@';
    assert s[a + 1 + 1..] == dom;
  }

  /** Completeness of the matcher: every string of the structural shape is
      accepted. */
  lemma ValidateEmailComplete(s: string)
    requires IsStructurallyValid(s)
    ensures ValidateEmail(s)
  {
    var a :| 0 < a < |s| && s[a] == '@' &&
             IsSegment(s[..a]) && IsSegment(s[a + 1..]) && HasInnerDot(s[a + 1..]);
    var local, dom, tail := s[..a], s[a + 1..], s[1..];
    var rest := tail[..a - 1];
    MatchDomainSpec(dom);
    assert SegmentChar(s[0]) by {
      assert s[0] == local[0];
    }
    assert IsSegment(rest) by {
      forall i | 0 <= i < |rest| ensures SegmentChar(rest[i]) {
        assert rest[i] == local[i + 1];
      }
    }
    assert tail[a - 1] == '@';
    assert tail[a - 1 + 1..] == dom;
    MatchLocalRestComplete(tail, a - 1);
  }

  /** The matcher decides exactly the structural condition. */
  lemma ValidateEmailSpec(s: string)
    ensures ValidateEmail(s) <==> IsStructurallyValid(s)
  {
    if ValidateEmail(s) {
      ValidateEmailSound(s);
    }
    if IsStructurallyValid(s) {
      ValidateEmailComplete(s);
    }
  }

  /** Splitting the domain at its inner `.` gives the pattern's last two
      runs. */
  lemma StructuralInPattern(s: string)
    requires IsStructurallyValid(s)
    ensures InPatternLanguage(s)
  {
    var a :| 0 < a < |s| && s[a] == '@' &&
             IsSegment(s[..a]) && IsSegment(s[a + 1..]) && HasInnerDot(s[a + 1..]);
    var dom := s[a + 1..];
    var k :| 0 < k < |dom| - 1 && dom[k] == '.';
    var d := a + 1 + k;
    var middle, last := s[a + 1..d], s[d + 1..];
    assert s[d] == '.';
    assert IsSegment(middle) by {
      forall i | 0 <= i < |middle| ensures SegmentChar(middle[i]) {
        assert middle[i] == dom[i];
      }
    }
    assert IsSegment(last) by {
      forall i | 0 <= i < |last| ensures SegmentChar(last[i]) {
        assert last[i] == dom[k + 1 + i];
      }
    }
  }

  /** Joining the pattern's last two runs around the `.` gives a domain
      with an inner `.`. */
  lemma PatternIsStructural(s: string)
    requires InPatternLanguage(s)
    ensures IsStructurallyValid(s)
  {
    var a, d :| 0 < a && a + 1 < d && d + 1 < |s| && s[a] == '@' && s[d] == '.' &&
                IsSegment(s[..a]) && IsSegment(s[a + 1..d]) && IsSegment(s[d + 1..]);
    var dom, middle, last := s[a + 1..], s[a + 1..d], s[d + 1..];
    assert IsSegment(dom) by {
      forall i | 0 <= i < |dom| ensures SegmentChar(dom[i]) {
        if i < |middle| {
          assert dom[i] == middle[i];
        } else if i > |middle| {
          assert dom[i] == last[i - |middle| - 1];
        } else {
          assert dom[i] == '.';
        }
      }
    }
    assert dom[d - (a + 1)] == '.';
  }

  /** The structural condition is the pattern's language. */
  lemma StructuralIsPattern(s: string)
    ensures IsStructurallyValid(s) <==> InPatternLanguage(s)
  {
    if IsStructurallyValid(s) {
      StructuralInPattern(s);
    }
    if InPatternLanguage(s) {
      PatternIsStructural(s);
    }
  }

  /** `validateEmail` returns true exactly on the strings the pattern
      matches. */
  lemma ValidateEmailIsPattern(s: string)
    ensures ValidateEmail(s) <==> InPatternLanguage(s)
  {
    ValidateEmailSpec(s);
    StructuralIsPattern(s);
  }

  // ---------------------------------------------------------------------
  // Consequences
  // ---------------------------------------------------------------------

  /** A class string holds no `@` and no white space. */
  lemma {:induction false} SegmentCounts(t: string)
    requires IsSegment(t)
    ensures CountChar(t, '@') == 0 && HasNoWs(t)
    decreases |t|
  {
    if t != [] {
      assert IsSegment(t[1..]) by {
        forall i | 0 <= i < |t[1..]| ensures SegmentChar(t[1..][i]) {
          assert t[1..][i] == t[i + 1];
        }
      }
      SegmentCounts(t[1..]);
    }
  }

  /** What follows the first local character of an accepted string holds
      exactly one `@` and no white space. */
  lemma {:induction false} LocalRestCounts(t: string)
    requires MatchLocalRest(t)
    ensures CountChar(t, '@') == 1 && HasNoWs(t)
    decreases |t|
  {
    var tail := t[1..];
    if t[0] == '@' {
      MatchDomainSpec(tail);
      SegmentCounts(tail);
    } else {
      LocalRestCounts(tail);
    }
    assert forall i :: 1 <= i < |t| ==> t[i] == tail[i - 1];
  }

  /** An accepted address contains exactly one `@` and no white space;
      so a string with white space, or with zero or several `@`, is
      rejected. */
  lemma ValidEmailShape(s: string)
    requires ValidateEmail(s)
    ensures CountChar(s, '@') == 1 && HasNoWs(s)
  {
    LocalRestCounts(s[1..]);
    assert forall i :: 1 <= i < |s| ==> s[i] == s[1..][i - 1];
  }

  /** The boundary cases: `a@b.c` is accepted; `a@b` (no `.`) and
      `a@@b.com` (a second `@`) are rejected. */
  lemma BoundaryExamples()
    ensures ValidateEmail("a@b.c")
    ensures !ValidateEmail("a@b")
    ensures !ValidateEmail("a@@b.com")
  {
    assert "a@@b.com"[1..][1..] == "@b.com";
    assert !SegmentChar('@');
  }
}
