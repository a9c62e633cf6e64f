/** The two JavaScript string built-ins the sign-up form relies on:
    `String.prototype.trim` (for "is this field filled in?") and
    `String.prototype.toLowerCase` (for the case-insensitive uniqueness lookup). */
module Text {

  /** ECMAScript WhiteSpace and LineTerminator code points: exactly what `trim` strips. */
  predicate IsWhitespace(c: char) {
    c == '\t' || c == '\U{B}' || c == '\U{C}' || c == ' ' || c == '\U{A0}' || c == '\U{FEFF}'
    || c == '\n' || c == '\r' || c == '\U{2028}' || c == '\U{2029}'
    // the remaining members of the Unicode category Zs (space separators)
    || c == '\U{1680}' || ('\U{2000}' <= c <= '\U{200A}')
    || c == '\U{202F}' || c == '\U{205F}' || c == '\U{3000}'
  }

  /** A string made of whitespace only (the empty string included). */
  predicate IsBlank(s: string) {
    forall i :: 0 <= i < |s| ==> IsWhitespace(s[i])
  }

  /** Leading whitespace removed: what is dropped is a whitespace prefix,
      and what is kept is a suffix that does not start with whitespace. */
  function TrimStart(s: string): (r: string)
    ensures |r| <= |s| && r == s[|s| - |r|..]
    ensures forall i :: 0 <= i < |s| - |r| ==> IsWhitespace(s[i])
    ensures r != [] ==> !IsWhitespace(r[0])
  {
    if s != [] && IsWhitespace(s[0]) then TrimStart(s[1..]) else s
  }

  /** Trailing whitespace removed: what is dropped is a whitespace suffix,
      and what is kept is a prefix that does not end with whitespace. */
  function TrimEnd(s: string): (r: string)
    ensures |r| <= |s| && r == s[..|r|]
    ensures forall i :: |r| <= i < |s| ==> IsWhitespace(s[i])
    ensures r != [] ==> !IsWhitespace(r[|r| - 1])
  {
    if s != [] && IsWhitespace(s[|s| - 1]) then TrimEnd(s[..|s| - 1]) else s
  }

  /** `s.trim()`: the result is empty exactly when `s` is blank, and otherwise
      neither starts nor ends with whitespace. */
  function Trim(s: string): (r: string)
    ensures |r| <= |s|
    ensures r == [] <==> IsBlank(s)
    ensures r != [] ==> !IsWhitespace(r[0]) && !IsWhitespace(r[|r| - 1])
  {
    TrimEmptyIffBlank(s);
    TrimEnd(TrimStart(s))
  }

  /** Both trimming steps together leave nothing exactly when the string is blank. */
  lemma TrimEmptyIffBlank(s: string)
    ensures TrimEnd(TrimStart(s)) == [] <==> IsBlank(s)
  {
    var t := TrimStart(s);
    var r := TrimEnd(t);
    if r == [] {
      // a non-empty t would start with a non-whitespace character that TrimEnd keeps
      assert t == [];
    } else {
      assert s[|s| - |t|] == t[0] == r[0];
    }
  }

  /** `r` is the slice of `s` starting at offset `k`, with only whitespace
      before it and only whitespace after it. */
  predicate MiddleOf(s: string, r: string, k: int) {
    0 <= k <= |s| - |r| && r == s[k..k + |r|]
    && (forall i :: 0 <= i < k ==> IsWhitespace(s[i]))
    && (forall i :: k + |r| <= i < |s| ==> IsWhitespace(s[i]))
  }

  /** What `trim` keeps is the middle of the input: a contiguous slice with only
      whitespace before it and only whitespace after it. */
  lemma TrimKeepsMiddle(s: string)
    ensures exists k :: MiddleOf(s, Trim(s), k)
  {
    var t := TrimStart(s);
    var r := TrimEnd(t);
    TrimStartAt(s, t);
    TrimEndAt(t, r);
    MiddleAt(s, t, r);
    assert MiddleOf(s, r, |s| - |t|);
    assert Trim(s) == r;
  }

  /** TrimStart's result, character by character: the end of `s`. */
  lemma TrimStartAt(s: string, t: string)
    requires t == TrimStart(s)
    ensures |t| <= |s|
    ensures forall j :: 0 <= j < |t| ==> t[j] == s[|s| - |t| + j]
    ensures forall i :: 0 <= i < |s| - |t| ==> IsWhitespace(s[i])
  {
  }

  /** TrimEnd's result, character by character: the start of `t`, followed in `t`
      by whitespace only. */
  lemma TrimEndAt(t: string, r: string)
    requires r == TrimEnd(t)
    ensures |r| <= |t|
    ensures forall j :: 0 <= j < |r| ==> r[j] == t[j]
    ensures forall i :: |r| <= i < |t| ==> IsWhitespace(t[i])
  {
  }

  /** A prefix `r` of a suffix `t` of `s`, followed in `t` by whitespace only,
      is a slice of `s` followed in `s` by whitespace only. */
  lemma MiddleAt(s: string, t: string, r: string)
    requires |r| <= |t| <= |s|
    requires forall j :: 0 <= j < |r| ==> r[j] == t[j]
    requires forall j :: 0 <= j < |t| ==> t[j] == s[|s| - |t| + j]
    requires forall i :: |r| <= i < |t| ==> IsWhitespace(t[i])
    ensures r == s[|s| - |t|..|s| - |t| + |r|]
    ensures forall i :: |s| - |t| + |r| <= i < |s| ==> IsWhitespace(s[i])
  {
    var k := |s| - |t|;
    forall i | k + |r| <= i < |s| ensures IsWhitespace(s[i]) {
      assert t[i - k] == s[i];
    }
  }

  /** `c.toLowerCase()` on the ASCII range: 'A'..'Z' become 'a'..'z', every other
      character is kept. */
  function LowerChar(c: char): char {
    if 'A' <= c <= 'Z' then (c as int + 32) as char else c
  }

  /** `s.toLowerCase()`: the same length, each character lowered on its own. */
  function ToLower(s: string): (r: string)
    ensures |r| == |s|
    ensures forall i :: 0 <= i < |s| ==> r[i] == LowerChar(s[i])
  {
    if s == [] then [] else [LowerChar(s[0])] + ToLower(s[1..])
  }

  /** Two strings that differ at most in the letter case of their characters. */
  predicate SameUpToCase(a: string, b: string) {
    |a| == |b| && forall i :: 0 <= i < |a| ==> LowerChar(a[i]) == LowerChar(b[i])
  }

  /** A string that lower-casing leaves as it is. */
  predicate IsLowerCase(s: string) {
    forall i :: 0 <= i < |s| ==> LowerChar(s[i]) == s[i]
  }

  /** Lower-cased forms agree exactly when the strings differ only in case. */
  lemma ToLowerEqualIff(a: string, b: string)
    ensures ToLower(a) == ToLower(b) <==> SameUpToCase(a, b)
  {
    if SameUpToCase(a, b) {
      assert forall i :: 0 <= i < |a| ==> ToLower(a)[i] == ToLower(b)[i];
    }
    if ToLower(a) == ToLower(b) {
      assert forall i :: 0 <= i < |a| ==> LowerChar(a[i]) == ToLower(a)[i] == ToLower(b)[i];
    }
  }

  /** Lower-casing a lower-case string changes nothing. */
  lemma ToLowerOfLowerCase(s: string)
    requires IsLowerCase(s)
    ensures ToLower(s) == s
  {
    assert forall i :: 0 <= i < |s| ==> ToLower(s)[i] == s[i];
  }
}
