/**
  White space as JavaScript sees it, and `String.prototype.trim`.

  Both the regular-expression escape `\s` and `trim` use the same set of
  characters: the WhiteSpace and LineTerminator productions of ECMA-262
  (sections 12.2 and 12.3 of recent editions). The login form uses `\s`
  inside its email pattern and `trim` for its two "is this field blank"
  checks, so both are built on the one predicate `IsWs` below.
 */
module Whitespace {

  /** ECMA-262 WhiteSpace (TAB, VT, FF, ZWNBSP and every code point of
      Unicode category Zs) plus LineTerminator (LF, CR, LS, PS). */
  predicate IsWs(c: char)
  {
    // WhiteSpace: <TAB> <VT> <FF> <ZWNBSP>
    || c == '\t' || c == '\U{000B}' || c == '\U{000C}' || c == '\U{FEFF}'
    // WhiteSpace: <USP>, the category Zs
    || c == ' ' || c == '\U{00A0}' || c == '\U{1680}'
    || ('\U{2000}' <= c <= '\U{200A}')
    || c == '\U{202F}' || c == '\U{205F}' || c == '\U{3000}'
    // LineTerminator: <LF> <CR> <LS> <PS>
    || c == '\n' || c == '\r' || c == '\U{2028}' || c == '\U{2029}'
  }

  /** Every character of `s` is white space (the empty string included). */
  predicate IsBlank(s: string)
  {
    forall i :: 0 <= i < |s| ==> IsWs(s[i])
  }

  /** No character of `s` is white space. */
  predicate HasNoWs(s: string)
  {
    forall i :: 0 <= i < |s| ==> !IsWs(s[i])
  }

  /** Drops the leading white space. */
  function TrimStart(s: string): (r: string)
  {
    if s != [] && IsWs(s[0]) then TrimStart(s[1..]) else s
  }

  /** Drops the trailing white space. */
  function TrimEnd(s: string): (r: string)
  {
    if s != [] && IsWs(s[|s| - 1]) then TrimEnd(s[..|s| - 1]) else s
  }

  /** `TrimStart` gives the longest suffix of `s` that does not start with
      white space: everything it drops is white space. */
  lemma {:induction false} TrimStartSpec(s: string)
    ensures |TrimStart(s)| <= |s| && TrimStart(s) == s[|s| - |TrimStart(s)|..]
    ensures forall i :: 0 <= i < |s| - |TrimStart(s)| ==> IsWs(s[i])
    ensures TrimStart(s) == [] || !IsWs(TrimStart(s)[0])
    decreases |s|
  {
    if s != [] && IsWs(s[0]) {
      TrimStartSpec(s[1..]);
      assert forall i :: 1 <= i < |s| ==> s[i] == s[1..][i - 1];
    }
  }

  /** `TrimEnd` gives the longest prefix of `s` that does not end with
      white space: everything it drops is white space. */
  lemma {:induction false} TrimEndSpec(s: string)
    ensures |TrimEnd(s)| <= |s| && TrimEnd(s) == s[..|TrimEnd(s)|]
    ensures forall i :: |TrimEnd(s)| <= i < |s| ==> IsWs(s[i])
    ensures TrimEnd(s) == [] || !IsWs(TrimEnd(s)[|TrimEnd(s)| - 1])
    decreases |s|
  {
    if s != [] && IsWs(s[|s| - 1]) {
      TrimEndSpec(s[..|s| - 1]);
    }
  }

  /** `String.prototype.trim`: white space removed from both ends. The
      result is empty exactly when `s` is blank, which is what the form's
      `!field.trim()` tests; otherwise it starts and ends with a
      non-white-space character. */
  function Trim(s: string): (r: string)
    ensures |r| <= |s|
    ensures r == [] <==> IsBlank(s)
    ensures r != [] ==> !IsWs(r[0]) && !IsWs(r[|r| - 1])
  {
    var t := TrimStart(s);
    var r := TrimEnd(t);
    TrimStartSpec(s);
    TrimEndSpec(t);
    assert r != [] ==> r[0] == t[0];
    assert forall i :: |s| - |t| <= i < |s| ==> s[i] == t[i - (|s| - |t|)];
    r
  }

  /** What `trim` removes is white space at the two ends and nothing
      else: the result is the piece of `s` between them. */
  lemma TrimIsSlice(s: string)
    ensures var lo := |s| - |TrimStart(s)|;
            0 <= lo && lo + |Trim(s)| <= |s| &&
            Trim(s) == s[lo..lo + |Trim(s)|] &&
            (forall i :: 0 <= i < lo ==> IsWs(s[i])) &&
            (forall i :: lo + |Trim(s)| <= i < |s| ==> IsWs(s[i]))
  {
    var t := TrimStart(s);
    TrimStartSpec(s);
    TrimEndSpec(t);
    var lo := |s| - |t|;
    var r := Trim(s);
    assert r == s[lo..lo + |r|];
    forall i | lo + |r| <= i < |s| ensures IsWs(s[i]) {
      assert s[i] == t[i - lo];
    }
  }

  /** Trimming a string that holds no white space at all changes nothing. */
  lemma TrimOfNoWs(s: string)
    requires HasNoWs(s)
    ensures Trim(s) == s
  {
    if s != [] {
      assert !IsWs(s[0]) && !IsWs(s[|s| - 1]);
    }
  }
}
