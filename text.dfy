/**
 * The string operations the program borrows from Python's `str`:
 * `strip()` (whitespace as `str.isspace()` defines it) and `lower()`
 * (restricted to the Latin-1 letters and the capital sharp s, which is
 * every upper-case letter a German spreadsheet header contains).
 */
module Text {

  /** The characters for which Python's `str.isspace()` holds; `strip()` removes them. */
  predicate IsSpace(c: char) {
    || c == ' ' || c == '\t' || c == '\n' || c == '\r' || c == '\U{B}' || c == '\U{C}'
    || ('\U{1C}' <= c <= '\U{1F}') || c == '\U{85}' || c == '\U{A0}' || c == '\U{1680}'
    || ('\U{2000}' <= c <= '\U{200A}') || c == '\U{2028}' || c == '\U{2029}'
    || c == '\U{202F}' || c == '\U{205F}' || c == '\U{3000}'
  }

  /** `s` has no whitespace at either end. */
  predicate IsTrimmed(s: string) {
    s == [] || (!IsSpace(s[0]) && !IsSpace(s[|s| - 1]))
  }

  /** `s.lstrip()`: the longest suffix of `s` that does not start with whitespace. */
  function TrimStart(s: string): (r: string)
    ensures |r| <= |s| && r == s[|s| - |r|..]
    ensures r == [] || !IsSpace(r[0])
    ensures forall i :: 0 <= i < |s| - |r| ==> IsSpace(s[i])
  {
    if s != [] && IsSpace(s[0]) then TrimStart(s[1..]) else s
  }

  /** `s.rstrip()`: the longest prefix of `s` that does not end with whitespace. */
  function TrimEnd(s: string): (r: string)
    ensures |r| <= |s| && r == s[..|r|]
    ensures r == [] || !IsSpace(r[|r| - 1])
    ensures forall i :: |r| <= i < |s| ==> IsSpace(s[i])
  {
    if s != [] && IsSpace(s[|s| - 1]) then TrimEnd(s[..|s| - 1]) else s
  }

  /** `r` is `s[i..j]` and everything of `s` outside that slice is whitespace. */
  predicate StripsTo(s: string, r: string, i: int, j: int) {
    && 0 <= i <= j <= |s| && r == s[i..j]
    && (forall k :: 0 <= k < i ==> IsSpace(s[k]))
    && (forall k :: j <= k < |s| ==> IsSpace(s[k]))
  }

  /** `s.strip()`: the input without the whitespace at its two ends. */
  function Trim(s: string): (r: string)
    ensures IsTrimmed(r)
    ensures |r| <= |s|
  {
    TrimEnd(TrimStart(s))
  }

  /** Stripping cuts whitespace from the two ends and nothing else: the result is a slice with only whitespace around it. */
  lemma TrimStrips(s: string)
    ensures exists i, j :: StripsTo(s, Trim(s), i, j)
  {
    StripBothEnds(s);
    var i, j :| StripsTo(s, TrimEnd(TrimStart(s)), i, j);
    assert StripsTo(s, Trim(s), i, j);
  }

  /** Stripping the start and then the end leaves a slice with only whitespace around it. */
  lemma StripBothEnds(s: string)
    ensures exists i, j :: StripsTo(s, TrimEnd(TrimStart(s)), i, j)
  {
    var a := TrimStart(s);
    var r := TrimEnd(a);
    var i := |s| - |a|;
    assert a == s[i..] && r == a[..|r|];
    assert a[..|r|] == s[i..i + |r|];
    forall k | i + |r| <= k < |s|
      ensures IsSpace(s[k])
    {
      assert a[k - i] == s[k];
    }
    assert forall k :: 0 <= k < i ==> IsSpace(s[k]);
    assert StripsTo(s, r, i, i + |r|);
  }

  /** Trimming only removes characters: every character of the result occurs in the input. */
  lemma TrimChars(s: string)
    ensures forall c :: c in Trim(s) ==> c in s
  {
    TrimStrips(s);
    var t := Trim(s);
    var i, j :| StripsTo(s, t, i, j);
    forall c | c in t
      ensures c in s
    {
      var k :| 0 <= k < |t| && t[k] == c;
      assert s[i + k] == c;
    }
  }

  /** Trimming a string that already has no whitespace at its ends changes nothing. */
  lemma TrimTrimmed(s: string)
    requires IsTrimmed(s)
    ensures Trim(s) == s
  {
  }

  /** The upper-case letters `lower()` changes in this model. */
  predicate IsUpper(c: char) {
    || ('A' <= c <= 'Z')
    || ('\U{C0}' <= c <= '\U{DE}' && c != '\U{D7}')
    || c == '\U{1E9E}'
  }

  /** Python's lower-case mapping for one character. */
  function LowerChar(c: char): (d: char)
    ensures !IsUpper(d)
    ensures !IsUpper(c) ==> d == c
    ensures IsSpace(d) <==> IsSpace(c)
  {
    if ('A' <= c <= 'Z') || ('\U{C0}' <= c <= '\U{DE}' && c != '\U{D7}') then
      (c as int + 32) as char
    else if c == '\U{1E9E}' then
      '\U{DF}'
    else
      c
  }

  /** `s.lower()`: every character mapped on its own. */
  function Lower(s: string): (r: string)
    ensures |r| == |s|
    ensures forall i :: 0 <= i < |s| ==> r[i] == LowerChar(s[i])
  {
    seq(|s|, i requires 0 <= i < |s| => LowerChar(s[i]))
  }

  /** A string without upper-case letters is its own lower-case form. */
  lemma LowerOfLower(s: string)
    requires forall i :: 0 <= i < |s| ==> !IsUpper(s[i])
    ensures Lower(s) == s
  {
  }
}
