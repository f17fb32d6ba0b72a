/**
 * The string operations the roster manager relies on: `str.strip()`,
 * `str.lower()`, `str.upper()` and the substring test `t in s`.
 */
module Text {

  /** Python's `str.isspace` for a single character. */
  predicate IsSpace(c: char) {
    ('\t' <= c <= '\r') || ('\U{1C}' <= c <= ' ') || c == '\U{85}' || c == '\U{A0}'
    || c == '\U{1680}' || ('\U{2000}' <= c <= '\U{200A}') || c == '\U{2028}' || c == '\U{2029}'
    || c == '\U{202F}' || c == '\U{205F}' || c == '\U{3000}'
  }

  /** A string with no character other than white space. */
  predicate Blank(s: string) {
    forall i :: 0 <= i < |s| ==> IsSpace(s[i])
  }

  /** `str.lstrip()`: drops the leading white space, and only that. */
  function TrimLeft(s: string): (r: string)
    ensures |r| <= |s| && r == s[|s| - |r|..]
    ensures r == [] || !IsSpace(r[0])
    ensures forall i :: 0 <= i < |s| - |r| ==> IsSpace(s[i])
  {
    if s != [] && IsSpace(s[0]) then TrimLeft(s[1..]) else s
  }

  /** `str.rstrip()`: drops the trailing white space, and only that. */
  function TrimRight(s: string): (r: string)
    ensures |r| <= |s| && r == s[..|r|]
    ensures r == [] || !IsSpace(r[|r| - 1])
    ensures forall i :: |r| <= i < |s| ==> IsSpace(s[i])
  {
    if s != [] && IsSpace(s[|s| - 1]) then TrimRight(s[..|s| - 1]) else s
  }

  /** A string without white space at either end. */
  predicate Trimmed(s: string) {
    s == [] || (!IsSpace(s[0]) && !IsSpace(s[|s| - 1]))
  }

  /** `r` is `s` with the blank prefix `s[..a]` and a blank suffix cut off. */
  predicate Middle(s: string, r: string, a: int) {
    0 <= a && a + |r| <= |s| && r == s[a..a + |r|] && Blank(s[..a]) && Blank(s[a + |r|..])
  }

  /**
   * `str.strip()`. The result is empty exactly when the input is blank, and
   * has no white space left at either end; `StripCutsBlankEnds` shows it is
   * the input with white space cut off at both ends.
   */
  function Strip(s: string): (r: string)
    ensures |r| <= |s|
    ensures r == [] <==> Blank(s)
    ensures Trimmed(r)
  {
    var t := TrimLeft(s);
    assert Blank(t) ==> t == [] by {
      if t != [] { assert !IsSpace(t[0]); }
    }
    assert TrimRight(t) == [] ==> Blank(t);
    assert t != [] ==> t[0] == s[|s| - |t|];
    TrimRight(t)
  }

  /** `strip()` returns the middle of the line: what is cut off at either end is blank. */
  lemma StripCutsBlankEnds(s: string)
    ensures exists a :: Middle(s, Strip(s), a)
  {
    var t := TrimLeft(s);
    var r := TrimRight(t);
    var a := |s| - |t|;
    assert Strip(s) == r;
    assert t == s[a..] && r == t[..|r|];
    assert s[a + |r|..] == t[|r|..];
    assert Middle(s, r, a);
  }

  /** `strip()` leaves a trimmed string as it is. */
  lemma StripKeepsTrimmed(s: string)
    requires Trimmed(s)
    ensures Strip(s) == s
  {
    if s != [] {
      assert TrimLeft(s) == s;
      assert TrimRight(s) == s;
    }
  }

  /** `str.lower()` on one character: ASCII and Latin-1 capitals. */
  function LowerChar(c: char): char {
    if 'A' <= c <= 'Z' || ('\U{C0}' <= c <= '\U{DE}' && c != '\U{D7}') then (c as int + 32) as char else c
  }

  /** `str.upper()` on one character: ASCII letters. */
  function UpperChar(c: char): char {
    if 'a' <= c <= 'z' then (c as int - 32) as char else c
  }

  function Lower(s: string): (r: string)
    ensures |r| == |s|
  {
    seq(|s|, i requires 0 <= i < |s| => LowerChar(s[i]))
  }

  function Upper(s: string): (r: string)
    ensures |r| == |s|
  {
    seq(|s|, i requires 0 <= i < |s| => UpperChar(s[i]))
  }

  /** Python's `t in s` on strings: `t` occurs in `s` at some offset. */
  predicate IsSubstring(t: string, s: string) {
    exists k :: 0 <= k <= |s| && OccursAt(t, s, k)
  }

  /** `t` is the slice of `s` that starts at offset `k`. */
  predicate OccursAt(t: string, s: string, k: nat) {
    k + |t| <= |s| && s[k..k + |t|] == t
  }
}
