/** `String.prototype.trim`: strip whitespace from both ends of a string. */
module Trimming {

  import opened Chars

  /** `r` is what is left of `s` once the whitespace `s[..a]` in front of it
      and the whitespace behind it are taken away, and `r` has no whitespace
      at either end: the only reading of "`s` trimmed" there is (see
      TrimOfUnique). */
  predicate IsTrimOf(s: string, a: int, r: string)
  {
    && 0 <= a && a + |r| <= |s|
    && s[a..a + |r|] == r
    && AllWhitespace(s[..a])
    && AllWhitespace(s[a + |r|..])
    && NoOuterWhitespace(r)
  }

  /** Length of the longest run of whitespace that ends `s`. */
  function TrailingWhitespace(s: string): (n: nat)
    ensures n <= |s|
    ensures AllWhitespace(s[|s| - n..])
    ensures n == |s| || !IsWhitespace(s[|s| - n - 1])
  {
    if |s| > 0 && IsWhitespace(s[|s| - 1]) then
      var n := 1 + TrailingWhitespace(s[..|s| - 1]);
      assert s[|s| - n..] == s[..|s| - 1][|s| - n..] + [s[|s| - 1]];
      n
    else
      0
  }

  /** The leading whitespace is dropped, then the trailing whitespace. */
  function Trim(s: string): (r: string)
    ensures |r| <= |s|
    ensures IsTrimOf(s, WhitespaceRun(s, 0), r)
  {
    var a := WhitespaceRun(s, 0);
    assert s[..a] == s[0..a];
    if a == |s| then
      assert s[a..a] == [];
      []
    else
      var b := |s| - TrailingWhitespace(s);
      assert s[b..|s|] == s[b..];
      WhitespaceSlice(s, b, |s|);
      assert s[a..b][0] == s[a];
      s[a..b]
  }

  /** There is at most one way to trim a string. */
  lemma TrimOfUnique(s: string, a1: int, r1: string, a2: int, r2: string)
    requires IsTrimOf(s, a1, r1) && IsTrimOf(s, a2, r2)
    ensures r1 == r2
  {
    if r1 == [] {
      WhitespaceSplit(s, a1, r1);
    } else if r2 == [] {
      WhitespaceSplit(s, a2, r2);
    } else {
      FirstKept(s, a1, r1, a2);
      FirstKept(s, a2, r2, a1);
      LastKept(s, a1, r1, a2 + |r2|);
      LastKept(s, a2, r2, a1 + |r1|);
    }
  }

  /** The first character kept is not inside any whitespace prefix. */
  lemma FirstKept(s: string, a: int, r: string, b: int)
    requires IsTrimOf(s, a, r) && r != []
    requires 0 <= b <= |s| && AllWhitespace(s[..b])
    ensures b <= a
  {
    assert s[a] == r[0];
    WhitespaceSlice(s, 0, b);
  }

  /** The last character kept is not inside any whitespace suffix. */
  lemma LastKept(s: string, a: int, r: string, b: int)
    requires IsTrimOf(s, a, r) && r != []
    requires 0 <= b <= |s| && AllWhitespace(s[b..])
    ensures a + |r| <= b
  {
    assert s[a + |r| - 1] == r[|r| - 1];
    WhitespaceSlice(s, b, |s|);
  }

  /** A string trimmed to nothing is all whitespace. */
  lemma WhitespaceSplit(s: string, a: int, r: string)
    requires IsTrimOf(s, a, r) && r == []
    ensures AllWhitespace(s)
  {
    WhitespaceSlice(s, 0, a);
    WhitespaceSlice(s, a, |s|);
  }

  /** Trim removes exactly the whitespace padding around a string whose own
      ends are not whitespace: the reference reading of `trim()`. */
  lemma TrimPadded(p: string, m: string, q: string)
    requires AllWhitespace(p) && AllWhitespace(q) && NoOuterWhitespace(m)
    ensures Trim(p + m + q) == m
  {
    var s := p + m + q;
    assert s[..|p|] == p;
    assert s[|p|..|p| + |m|] == m;
    assert s[|p| + |m|..] == q;
    assert IsTrimOf(s, |p|, m);
    TrimOfUnique(s, WhitespaceRun(s, 0), Trim(s), |p|, m);
  }

  /** A string made only of whitespace trims to the empty string. */
  lemma TrimAllWhitespace(s: string)
    requires AllWhitespace(s)
    ensures Trim(s) == []
  {
    assert s + [] + [] == s;
    TrimPadded(s, [], []);
  }

  /** Trimming twice is trimming once. */
  lemma TrimIdempotent(s: string)
    ensures Trim(Trim(s)) == Trim(s)
  {
    var r := Trim(s);
    assert [] + r + [] == r;
    TrimPadded([], r, []);
  }

  /** Every non-whitespace character of `s` survives a trim, at its old
      position shifted left by the amount of whitespace removed in front. */
  lemma TrimKeeps(s: string, a: int, r: string, j: int)
    requires IsTrimOf(s, a, r)
    requires 0 <= j < |s| && !IsWhitespace(s[j])
    ensures a <= j < a + |r| && r[j - a] == s[j]
  {
    WhitespaceSlice(s, 0, a);
    WhitespaceSlice(s, a + |r|, |s|);
    assert s[a..a + |r|][j - a] == s[j];
  }
}
