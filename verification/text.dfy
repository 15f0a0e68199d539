/**
 * Whitespace trimming as Python's `str.strip()` with no argument does it:
 * the student name typed by the operator is trimmed before it is checked
 * and stored (t.py:47, t.py:51, t.py:55).
 */
module Text {

  /** The characters for which Python's `str.isspace()` holds; these are the
      characters a bare `strip()` removes from both ends. */
  predicate IsSpace(c: char) {
    var n := c as int;
    (0x09 <= n <= 0x0D) || (0x1C <= n <= 0x20) || n == 0x85 || n == 0xA0 || n == 0x1680
    || (0x2000 <= n <= 0x200A) || n == 0x2028 || n == 0x2029 || n == 0x202F
    || n == 0x205F || n == 0x3000
  }

  /** Every character of `s` is whitespace (this includes the empty string). */
  predicate Blank(s: string) {
    forall i :: 0 <= i < |s| ==> IsSpace(s[i])
  }

  /** The number of whitespace characters `s` starts with. */
  function LeadingSpaces(s: string): (n: nat)
    ensures n <= |s| && Blank(s[..n])
    ensures n == |s| || !IsSpace(s[n])
  {
    if s != [] && IsSpace(s[0]) then
      var m := LeadingSpaces(s[1..]);
      assert forall k :: 0 <= k < m ==> s[1..][..m][k] == s[..m + 1][k + 1];
      m + 1
    else
      0
  }

  /** The length of `s` once its trailing whitespace is removed. */
  function KeptLength(s: string): (n: nat)
    ensures n <= |s| && Blank(s[n..])
    ensures n == 0 || !IsSpace(s[n - 1])
  {
    if s != [] && IsSpace(s[|s| - 1]) then
      var m := KeptLength(s[..|s| - 1]);
      assert forall i :: 0 <= i < |s| - 1 - m ==> s[m..][i] == s[..|s| - 1][m..][i];
      m
    else
      |s|
  }

  /** Python's `s.strip()`: empty exactly when `s` is blank, and otherwise
      starting and ending with a character that is not whitespace. */
  function Strip(s: string): (r: string)
    ensures |r| <= |s|
    ensures r == [] <==> Blank(s)
    ensures r != [] ==> !IsSpace(r[0]) && !IsSpace(r[|r| - 1])
  {
    var i := LeadingSpaces(s);
    var n := KeptLength(s[i..]);
    assert n == 0 ==> Blank(s) by {
      assert forall k :: i <= k < |s| ==> s[k] == s[i..][k - i];
      assert forall k :: 0 <= k < i ==> s[k] == s[..i][k];
    }
    s[i..i + n]
  }

  /** What `Strip` removes is exactly whitespace: it returns the slice of `s`
      between its leading and its trailing whitespace. */
  lemma StripIsSlice(s: string)
    ensures LeadingSpaces(s) + |Strip(s)| <= |s|
    ensures Strip(s) == s[LeadingSpaces(s)..LeadingSpaces(s) + |Strip(s)|]
    ensures Blank(s[..LeadingSpaces(s)]) && Blank(s[LeadingSpaces(s) + |Strip(s)|..])
  {
    var i := LeadingSpaces(s);
    var t := s[i..];
    var n := KeptLength(t);
    assert Strip(s) == s[i..i + n];
    assert s[i + n..] == t[n..];
  }

  /** A string that neither starts nor ends with whitespace is its own strip. */
  lemma StripKeepsTrimmed(s: string)
    requires s != [] ==> !IsSpace(s[0]) && !IsSpace(s[|s| - 1])
    ensures Strip(s) == s
  {
    if s != [] {
      assert LeadingSpaces(s) == 0;
      assert KeptLength(s) == |s|;
      assert s[0..|s|] == s;
    }
  }

  /** Trimming a trimmed name changes nothing, so a name stored by the add
      operation is found again by the duplicate check. */
  lemma StripIdempotent(s: string)
    ensures Strip(Strip(s)) == Strip(s)
  {
    StripKeepsTrimmed(Strip(s));
  }
}
