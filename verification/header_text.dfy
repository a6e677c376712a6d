/** `removeNo`: the transform that turns a raw chat name into the title
    shown in the chat screen's header. */
module HeaderText {

  import opened Chars
  import opened Optional
  import opened Trimming
  import opened NoPattern

  const NameNotFound: string := "name not found"

  /** JavaScript truthiness of a `string | undefined`: only `undefined` and
      the empty string are falsy. */
  predicate IsFalsy(text: Option<string>): (b: bool)
    ensures b <==> text in {None, Some("")}
  {
    text.None? || text.value == ""
  }

  /** A falsy name becomes the fallback title; any other name loses its first
      word-initial `No.` with the whitespace after it, and is then trimmed. */
  function RemoveNo(text: Option<string>): (r: string)
    ensures IsFalsy(text) ==> r == NameNotFound
    ensures !IsFalsy(text) ==> |r| <= |text.value| && NoOuterWhitespace(r)
  {
    if IsFalsy(text) then NameNotFound else Trim(RemoveFirst(text.value))
  }
}

/** What `removeNo` promises, proved about the model above. */
module HeaderTextLemmas {

  import opened Chars
  import opened Optional
  import opened Trimming
  import opened NoPattern
  import opened HeaderText

  /** A name made only of whitespace is truthy, so it gets no fallback: it is
      trimmed down to the empty title. */
  lemma WhitespaceNameIsEmpty(s: string)
    requires s != [] && AllWhitespace(s)
    ensures RemoveNo(Some(s)) == []
  {
    forall j | 0 <= j < |s|
      ensures s[j] != 'N'
    {
      assert IsWhitespace(s[j]);
    }
    RemoveFirstUnchanged(s);
    TrimAllWhitespace(s);
  }

  /** Where the expression matches nowhere, the name is only trimmed. */
  lemma NoMatchIsTrim(s: string)
    requires s != []
    requires forall i :: !MatchesAt(s, i)
    ensures RemoveNo(Some(s)) == Trim(s)
  {
    RemoveFirstUnchanged(s);
  }

  /** A `No.` is only removed at the start of a word with that exact case and
      the dot: when every `No.` in the name directly follows a word character,
      and `no.`, `NO.` or a `No` without a dot are never candidates at all,
      the name is only trimmed. */
  lemma GluedNoIsKept(s: string)
    requires s != []
    requires forall i :: LiteralAt(s, i) ==> i > 0 && IsWordChar(s[i - 1])
    ensures RemoveNo(Some(s)) == Trim(s)
  {
    NoMatchIsTrim(s);
  }

  /** For a truthy name whose leftmost match is at `i`, the title is the text
      before `i` joined to the text after the match, then trimmed. */
  lemma RemoveNoSplices(s: string, i: int)
    requires s != []
    requires MatchesAt(s, i)
    requires forall j :: 0 <= j < i ==> !MatchesAt(s, j)
    ensures RemoveNo(Some(s)) == Trim(s[..i] + s[i + MatchLength(s, i)..])
  {
    RemoveFirstSplices(s, i);
  }

  /** Trimming never removes a `No.`: it contains no whitespace, so it only
      moves left by the leading whitespace. */
  lemma TrimKeepsLiteral(t: string, p: int)
    requires LiteralAt(t, p)
    ensures WhitespaceRun(t, 0) <= p && LiteralAt(Trim(t), p - WhitespaceRun(t, 0))
    ensures exists k :: LiteralAt(Trim(t), k)
  {
    var r, a := Trim(t), WhitespaceRun(t, 0);
    TrimKeeps(t, a, r, p);
    TrimKeeps(t, a, r, p + 1);
    TrimKeeps(t, a, r, p + 2);
    assert LiteralAt(r, p - a);
  }

  /** Only the leftmost match is removed: a later `No.` that starts after the
      removed text is still in the title, moved left by the removed text and
      by the whitespace trimmed from the front. */
  lemma LaterNoSurvives(s: string, i: int, j: int)
    requires s != []
    requires MatchesAt(s, i)
    requires forall k :: 0 <= k < i ==> !MatchesAt(s, k)
    requires i + MatchLength(s, i) <= j && LiteralAt(s, j)
    ensures exists k :: LiteralAt(RemoveNo(Some(s)), k)
    ensures LiteralAt(RemoveNo(Some(s)), j - MatchLength(s, i) - WhitespaceRun(RemoveFirst(s), 0))
  {
    RemoveFirstKeepsLater(s, i, j);
    LaterNoSurvivesTrim(s, i, j);
  }

  /** The second half of `LaterNoSurvives`: a `No.` that the replacement
      leaves in place is still in the title, moved left by the whitespace
      trimmed from the front. */
  lemma LaterNoSurvivesTrim(s: string, i: int, j: int)
    requires s != [] && LiteralAt(s, i)
    requires i + MatchLength(s, i) <= j
    requires LiteralAt(RemoveFirst(s), j - MatchLength(s, i))
    ensures LiteralAt(RemoveNo(Some(s)), j - MatchLength(s, i) - WhitespaceRun(RemoveFirst(s), 0))
  {
    var t := RemoveFirst(s);
    TrimKeepsLiteral(t, j - MatchLength(s, i));
    assert RemoveNo(Some(s)) == Trim(t);
  }

  lemma ExampleFallback()
    ensures RemoveNo(None) == NameNotFound
    ensures RemoveNo(Some("")) == NameNotFound
  {
  }

  lemma ExampleNumberedName()
    ensures RemoveNo(Some("No. 42 Friends")) == "42 Friends"
  {
    var rest := "42 Friends";
    NumberedNameSplice();
    assert rest[0] == '4' && rest[|rest| - 1] == 's';
    assert [] + rest + [] == rest;
    TrimPadded([], rest, []);
  }

  lemma NumberedNameSplice()
    ensures RemoveFirst("No. 42 Friends") == "42 Friends"
  {
    var s, rest := "No. 42 Friends", "42 Friends";
    assert s == "No. " + rest;
    assert s[3] == ' ' && !IsWhitespace(s[4]);
    assert WhitespaceRun(s, 4) == 0;
    assert MatchLength(s, 0) == 4;
    assert MatchesAt(s, 0);
    RemoveFirstSplices(s, 0);
    assert s[4..] == rest;
    assert s[..0] + s[4..] == rest;
  }

  lemma ExamplePlainName()
    ensures RemoveNo(Some("Weekend Trip")) == "Weekend Trip"
  {
    UnchangedName("Weekend Trip");
  }

  /** Lower-case `no.`, upper-case `NO.` and a `No` without its dot are not
      the pattern. */
  lemma ExampleCaseAndDot()
    ensures RemoveNo(Some("no. 7")) == "no. 7"
    ensures RemoveNo(Some("NO. 7")) == "NO. 7"
    ensures RemoveNo(Some("No 7")) == "No 7"
  {
    UnchangedName("no. 7");
    UnchangedName("NO. 7");
    UnchangedName("No 7");
  }

  /** A `No.` glued to the end of a word is not at a word boundary. */
  lemma ExampleGluedNo()
    ensures RemoveNo(Some("CasiNo. x")) == "CasiNo. x"
  {
    UnchangedName("CasiNo. x");
  }

  /** A name in which the expression matches nowhere and which has no outer
      whitespace is its own title. */
  lemma UnchangedName(w: string)
    requires w != [] && NoOuterWhitespace(w)
    requires FirstMatch(w).None?
    ensures RemoveNo(Some(w)) == w
  {
    assert RemoveFirst(w) == w;
    assert [] + w + [] == w;
    TrimPadded([], w, []);
  }

  lemma ExampleOnlyFirst()
    ensures RemoveNo(Some("No. A No. B")) == "A No. B"
  {
    var rest := "A No. B";
    OnlyFirstSplice();
    assert rest[0] == 'A' && rest[|rest| - 1] == 'B';
    assert [] + rest + [] == rest;
    TrimPadded([], rest, []);
  }

  lemma OnlyFirstSplice()
    ensures RemoveFirst("No. A No. B") == "A No. B"
  {
    var s, rest := "No. A No. B", "A No. B";
    assert s == "No. " + rest;
    assert s[3] == ' ' && !IsWhitespace(s[4]);
    assert WhitespaceRun(s, 4) == 0;
    assert MatchLength(s, 0) == 4;
    assert MatchesAt(s, 0);
    RemoveFirstSplices(s, 0);
    assert s[4..] == rest;
    assert s[..0] + s[4..] == rest;
  }

  lemma ExampleBlankName()
    ensures RemoveNo(Some("  ")) == ""
  {
    WhitespaceNameIsEmpty("  ");
  }
}
