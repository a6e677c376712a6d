/** Character classes used by the display-name transform. */
module Chars {

  /** The ECMAScript WhiteSpace and LineTerminator code points. The regular
      expression escape `\s` and `String.prototype.trim` both use exactly this
      set; the space separators (category Zs) are those of Unicode 6.3 and
      later, so U+180E is not among them. */
  predicate IsWhitespace(c: char): (b: bool)
    ensures b ==> !IsWordChar(c)
  {
    || c == '\t' || c == '\n' || c == '\U{000B}' || c == '\U{000C}' || c == '\r'
    || c == ' ' || c == '\U{00A0}' || c == '\U{1680}'
    || ('\U{2000}' <= c <= '\U{200A}')
    || c == '\U{2028}' || c == '\U{2029}' || c == '\U{202F}' || c == '\U{205F}'
    || c == '\U{3000}' || c == '\U{FEFF}'
  }

  /** The characters `\b` treats as word characters when the expression has
      neither the `u` nor the `i` flag: `[A-Za-z0-9_]`. */
  predicate IsWordChar(c: char): (b: bool)
    ensures b ==> c as int < 128
  {
    ('A' <= c <= 'Z') || ('a' <= c <= 'z') || ('0' <= c <= '9') || c == '_'
  }

  predicate AllWhitespace(t: string)
  {
    forall k :: 0 <= k < |t| ==> IsWhitespace(t[k])
  }

  /** Neither end of `t` is whitespace (vacuously true of the empty string). */
  predicate NoOuterWhitespace(t: string)
  {
    t == [] || (!IsWhitespace(t[0]) && !IsWhitespace(t[|t| - 1]))
  }

  /** Length of the longest run of whitespace starting at `j`. */
  function WhitespaceRun(s: string, j: int): (n: nat)
    requires 0 <= j <= |s|
    ensures j + n <= |s|
    ensures AllWhitespace(s[j..j + n])
    ensures j + n == |s| || !IsWhitespace(s[j + n])
    decreases |s| - j
  {
    if j < |s| && IsWhitespace(s[j]) then
      var n := 1 + WhitespaceRun(s, j + 1);
      assert s[j..j + n] == [s[j]] + s[j + 1..j + n];
      n
    else
      0
  }

  /** Every character of an all-whitespace slice is whitespace. */
  lemma WhitespaceSlice(s: string, lo: int, hi: int)
    requires 0 <= lo <= hi <= |s| && AllWhitespace(s[lo..hi])
    ensures forall k :: lo <= k < hi ==> IsWhitespace(s[k])
  {
    forall k | lo <= k < hi
      ensures IsWhitespace(s[k])
    {
      assert s[lo..hi][k - lo] == s[k];
    }
  }
}
