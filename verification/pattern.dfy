/** The regular expression `\bNo\.\s*`, written without flags, and the single
    replacement of its first match by the empty string. */
module NoPattern {

  import opened Chars
  import opened Optional

  /** `\b` at position `i`: exactly one of the characters on either side of
      `i` is a word character; the outside of the string counts as a
      non-word character. */
  predicate AtWordBoundary(s: string, i: int): (b: bool)
    requires 0 <= i <= |s|
    ensures i == 0 ==> (b <==> |s| > 0 && IsWordChar(s[0]))
    ensures 0 < i < |s| && IsWordChar(s[i]) ==> (b <==> !IsWordChar(s[i - 1]))
  {
    (i > 0 && IsWordChar(s[i - 1])) != (i < |s| && IsWordChar(s[i]))
  }

  /** The three literal characters `No.` start at `i`, case included. */
  predicate LiteralAt(s: string, i: int)
  {
    0 <= i && i + 3 <= |s| && s[i] == 'N' && s[i + 1] == 'o' && s[i + 2] == '.'
  }

  /** The character-by-character test is the same as comparing the three
      characters at `i` with the string `No.`. */
  lemma LiteralAtIsSlice(s: string, i: int)
    ensures LiteralAt(s, i) <==> 0 <= i && i + 3 <= |s| && s[i..i + 3] == "No."
  {
    if 0 <= i && i + 3 <= |s| && s[i..i + 3] == "No." {
      assert s[i..i + 3][1] == s[i + 1];
    }
  }

  /** The expression matches, with some length, starting at `i`. Since `\s*`
      accepts the empty run, this depends only on `\b` and the literal. */
  predicate MatchesAt(s: string, i: int): (b: bool)
    ensures b ==> 0 <= i < |s| && s[i] == 'N' && (i == 0 || !IsWordChar(s[i - 1]))
  {
    LiteralAt(s, i) && AtWordBoundary(s, i)
  }

  /** The expression matches exactly `s[i..i + n]`, for any length `\s*`
      might take; this is the reference reading of the pattern. */
  ghost predicate MatchesSpan(s: string, i: int, n: int)
  {
    && 0 <= i && 3 <= n && i + n <= |s|
    && AtWordBoundary(s, i)
    && s[i..i + 3] == "No."
    && AllWhitespace(s[i + 3..i + n])
  }

  /** Length of the text the expression consumes at a match position: the
      literal plus the whitespace `\s*` takes greedily. */
  function MatchLength(s: string, i: int): (n: nat)
    requires LiteralAt(s, i)
    ensures 3 <= n && i + n <= |s|
    ensures AllWhitespace(s[i + 3..i + n])
    ensures i + n == |s| || !IsWhitespace(s[i + n])
  {
    3 + WhitespaceRun(s, i + 3)
  }

  /** The greedy `\s*` makes the consumed text the longest span the
      expression can match at `i`. */
  lemma MatchLengthIsLongest(s: string, i: int)
    requires MatchesAt(s, i)
    ensures MatchesSpan(s, i, MatchLength(s, i))
    ensures forall n :: MatchesSpan(s, i, n) ==> n <= MatchLength(s, i)
  {
    var m := MatchLength(s, i);
    assert s[i..i + 3] == "No.";
    forall n | MatchesSpan(s, i, n)
      ensures n <= m
    {
      WhitespaceSlice(s, i + 3, i + n);
    }
  }

  /** Some match length exists at `i` exactly when MatchesAt holds there. */
  lemma MatchesAtIffSpan(s: string, i: int)
    ensures MatchesAt(s, i) <==> exists n :: MatchesSpan(s, i, n)
  {
    if MatchesAt(s, i) {
      MatchLengthIsLongest(s, i);
    }
    forall n | MatchesSpan(s, i, n)
      ensures MatchesAt(s, i)
    {
      assert s[i..i + 3][0] == 'N' && s[i..i + 3][1] == 'o' && s[i..i + 3][2] == '.';
    }
  }

  /** The leftmost match position at or after `k`, as a left-to-right
      search tries every start position in turn. */
  function FirstMatchFrom(s: string, k: int): (r: Option<nat>)
    requires 0 <= k <= |s|
    ensures r.Some? ==> k <= r.value < |s| && MatchesAt(s, r.value)
    ensures r.Some? ==> forall j :: k <= j < r.value ==> !MatchesAt(s, j)
    ensures r.None? ==> forall j :: k <= j ==> !MatchesAt(s, j)
    decreases |s| - k
  {
    if k + 3 > |s| then None
    else if MatchesAt(s, k) then Some(k)
    else FirstMatchFrom(s, k + 1)
  }

  /** The leftmost position where the expression matches, if any. */
  function FirstMatch(s: string): (r: Option<nat>)
    ensures r.None? <==> forall j :: !MatchesAt(s, j)
    ensures r.Some? ==> MatchesAt(s, r.value)
    ensures r.Some? ==> forall j :: j < r.value ==> !MatchesAt(s, j)
  {
    FirstMatchFrom(s, 0)
  }

  /** `s.replace` with the expression `\bNo\.\s*` and `''`: without the `g`
      flag only the first match is replaced, here by the empty string. */
  function RemoveFirst(s: string): (r: string)
    ensures |r| <= |s|
    ensures FirstMatch(s).Some? ==> |r| + 3 <= |s|
  {
    match FirstMatch(s)
    case None => s
    case Some(i) => s[..i] + s[i + MatchLength(s, i)..]
  }

  /** Removing the first match keeps the text before it and the text after
      the whitespace that follows it, whichever match position is leftmost. */
  lemma RemoveFirstSplices(s: string, i: int)
    requires MatchesAt(s, i)
    requires forall j :: 0 <= j < i ==> !MatchesAt(s, j)
    ensures RemoveFirst(s) == s[..i] + s[i + MatchLength(s, i)..]
  {
    var f := FirstMatch(s);
    assert f.Some?;
    assert f.value == i;
  }

  /** The replacement leaves the text as it is exactly when the expression
      matches nowhere, and otherwise removes at least the three characters
      of `No.`. */
  lemma RemoveFirstUnchanged(s: string)
    ensures RemoveFirst(s) == s <==> forall j :: !MatchesAt(s, j)
    ensures (exists j :: MatchesAt(s, j)) ==> |RemoveFirst(s)| + 3 <= |s|
  {
  }

  /** Cutting `s[i..i + n]` out moves a `No.` that starts after the cut `n`
      places to the left. */
  lemma SpliceKeepsLiteral(s: string, i: int, n: int, j: int)
    requires 0 <= i && 0 <= n && i + n <= j && LiteralAt(s, j)
    ensures LiteralAt(s[..i] + s[i + n..], j - n)
  {
    var t := s[..i] + s[i + n..];
    assert t[j - n] == s[j] && t[j - n + 1] == s[j + 1] && t[j - n + 2] == s[j + 2];
  }

  /** Without the `g` flag only the leftmost match is replaced: a `No.` that
      starts after the removed text is still there, moved left by the length
      removed. */
  lemma RemoveFirstKeepsLater(s: string, i: int, j: int)
    requires MatchesAt(s, i)
    requires forall k :: 0 <= k < i ==> !MatchesAt(s, k)
    requires i + MatchLength(s, i) <= j && LiteralAt(s, j)
    ensures LiteralAt(RemoveFirst(s), j - MatchLength(s, i))
  {
    RemoveFirstSplices(s, i);
    SpliceKeepsLiteral(s, i, MatchLength(s, i), j);
  }
}
