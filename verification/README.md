# Chat header title: a Dafny model of `removeNo`

The chat screen of this mobile app shows the chat's name in its header, passed
through `removeNo` (`lib/header-text.ts`). That function is the app's only
piece of self-contained logic:

- an absent (`undefined`) or empty name becomes the literal `name not found`;
- otherwise the first match of the regular expression `\bNo\.\s*` is
  replaced by nothing: a case-sensitive `No.` at the start of a word together
  with all whitespace after it;
- the result is trimmed with `String.prototype.trim`.

The model is written over `string` (`seq<char>`) as pure functions:

- `Chars` (chars.dfy): the whitespace set shared by `\s` and `trim()`, the
  ASCII word characters `[A-Za-z0-9_]` that `\b` uses without the `u` flag,
  and `WhitespaceRun`, the longest whitespace run from a position.
- `Trimming` (trim.dfy): `Trim`, with `IsTrimOf` as an independent
  description of a trimmed string, proved to determine it uniquely.
- `NoPattern` (pattern.dfy): `\b`, the literal `No.`, the greedy `\s*`
  (`MatchLength`), the leftmost match (`FirstMatch`) and the
  single replacement (`RemoveFirst`). `MatchesSpan` is the reference reading
  of "the expression matches exactly this span".
- `HeaderText` (header_text.dfy): `RemoveNo` with JavaScript truthiness of
  `string | undefined`; `HeaderTextLemmas` in the same file proves what it
  promises.
- `ChatScreen` (chat_screen.dfy): the response records of `type.d.ts` and
  the header title `removeNo(chat?.name)` of `app/index.tsx`.
- `Optional` (option.dfy): `Option`, standing for `T | undefined` or `T | null`.

The code removes the first word-initial `No.` wherever it is in the name, not
only at its start (`"Trip No. 4"` becomes `"Trip 4"`, since `\b` also holds
after a space). The model follows the code.

## Model

| member | source | states |
|---|---|---|
| HeaderText.IsFalsy | lib/header-text.ts:2 | `!text` holds for exactly two values of a `string` that may be `undefined`: `undefined` and the empty string |
| HeaderText.RemoveNo | lib/header-text.ts:1-6 | an undefined or empty name gives `name not found`; any other name gives a title no longer than the name with no whitespace at either end |
| HeaderTextLemmas.ExampleFallback | lib/header-text.ts:2-4 | `removeNo(undefined)` and `removeNo("")` are both `name not found` |
| HeaderTextLemmas.WhitespaceNameIsEmpty | lib/header-text.ts:2-5 | a non-empty name made only of whitespace is truthy, skips the fallback and yields the empty title |
| HeaderTextLemmas.ExampleBlankName | lib/header-text.ts:2-5 | `"  "` yields the empty title, not the fallback |
| HeaderTextLemmas.NoMatchIsTrim | lib/header-text.ts:5 | when the expression matches nowhere, the title is the name trimmed and nothing else changes |
| HeaderTextLemmas.GluedNoIsKept | lib/header-text.ts:5 | when every `No.` follows a word character, none is removed: the title is the trimmed name |
| HeaderTextLemmas.RemoveNoSplices | lib/header-text.ts:5 | for the leftmost match position, the title is the text before it joined to the text after the match and its whitespace, trimmed |
| HeaderTextLemmas.TrimKeepsLiteral | lib/header-text.ts:5 | trimming never removes an occurrence of `No.` |
| HeaderTextLemmas.LaterNoSurvives | lib/header-text.ts:5 | without the `g` flag only the leftmost match goes: a later `No.` is still in the title, at its old position less the removed match and the leading whitespace trimmed |
| HeaderTextLemmas.LaterNoSurvivesTrim | lib/header-text.ts:5 | a `No.` the replacement leaves in place survives `trim()`, moved left by the leading whitespace removed |
| HeaderTextLemmas.UnchangedName | lib/header-text.ts:5 | a name in which nothing matches and with no outer whitespace is its own title |
| HeaderTextLemmas.NumberedNameSplice | lib/header-text.ts:5 | the replacement turns `No. 42 Friends` into `42 Friends` |
| HeaderTextLemmas.ExampleNumberedName | lib/header-text.ts:5 | `removeNo("No. 42 Friends")` is `42 Friends` |
| HeaderTextLemmas.ExamplePlainName | lib/header-text.ts:5 | `removeNo("Weekend Trip")` is `Weekend Trip` |
| HeaderTextLemmas.ExampleCaseAndDot | lib/header-text.ts:5 | `no. 7`, `NO. 7` and `No 7` are left unchanged: the match is case-sensitive and needs the dot |
| HeaderTextLemmas.ExampleGluedNo | lib/header-text.ts:5 | `CasiNo. x` is left unchanged because `\b` fails inside a word |
| HeaderTextLemmas.OnlyFirstSplice | lib/header-text.ts:5 | the replacement turns `No. A No. B` into `A No. B` |
| HeaderTextLemmas.ExampleOnlyFirst | lib/header-text.ts:5 | `removeNo("No. A No. B")` is `A No. B`: the second `No.` stays |
| Chars.IsWhitespace | lib/header-text.ts:5 | the code points `\s` and `trim()` both treat as whitespace; none of them is a word character |
| Chars.IsWordChar | lib/header-text.ts:5 | the word characters of `\b` without the `u` or `i` flag, all of them ASCII |
| NoPattern.AtWordBoundary | lib/header-text.ts:5 | `\b`: at the start of the text it holds exactly before a word character; before a word character inside the text it holds exactly when the character before is not one |
| NoPattern.LiteralAtIsSlice | lib/header-text.ts:5 | `No\.` matches at a position exactly when the three characters there are the string `No.` |
| NoPattern.MatchesAt | lib/header-text.ts:5 | a match of `\bNo\.\s*` starts with `N` at the start of the text or after a non-word character |
| NoPattern.MatchLength | lib/header-text.ts:5 | the text a match consumes: `No.` and then whitespace up to the end of the text or to a character that is not whitespace |
| Chars.WhitespaceRun | lib/header-text.ts:5 | `\s*` taken greedily: the run it consumes is all whitespace and stops at the end or at a non-whitespace character |
| NoPattern.MatchLengthIsLongest | lib/header-text.ts:5 | the consumed length is a span the expression matches, and the longest such span at that position |
| NoPattern.MatchesAtIffSpan | lib/header-text.ts:5 | the expression matches at a position exactly when `\b` holds there and `No.` starts there |
| NoPattern.FirstMatchFrom | lib/header-text.ts:5 | the search from a start position finds a match with no match between the start and it, or reports that there is none from the start on |
| NoPattern.FirstMatch | lib/header-text.ts:5 | the leftmost match position: absent exactly when nothing matches, otherwise a match with no match before it |
| NoPattern.RemoveFirst | lib/header-text.ts:5 | the replacement never lengthens the text, and shortens it by at least three characters when there is a match |
| NoPattern.RemoveFirstUnchanged | lib/header-text.ts:5 | the replacement leaves the text unchanged exactly when nothing matches |
| NoPattern.RemoveFirstSplices | lib/header-text.ts:5 | for the leftmost match position, the replacement keeps the text before it and the text after the match |
| NoPattern.SpliceKeepsLiteral | lib/header-text.ts:5 | cutting text out before a `No.` moves that `No.` left by the length cut |
| NoPattern.RemoveFirstKeepsLater | lib/header-text.ts:5 | without the `g` flag a `No.` after the leftmost match is kept, moved left by the length removed |
| Trimming.TrailingWhitespace | lib/header-text.ts:5 | the whitespace `trim()` drops at the back: all of it is whitespace, and the character before it is not |
| Trimming.Trim | lib/header-text.ts:5 | `trim()`: the result is the infix after the leading whitespace, surrounded only by whitespace, with no whitespace at either end |
| Trimming.TrimOfUnique | lib/header-text.ts:5 | a string has only one trimmed form |
| Trimming.TrimPadded | lib/header-text.ts:5 | trimming whitespace-padded text with no outer whitespace gives back exactly that text |
| Trimming.TrimAllWhitespace | lib/header-text.ts:5 | a string of whitespace trims to the empty string |
| Trimming.TrimIdempotent | lib/header-text.ts:5 | trimming twice is trimming once |
| Trimming.TrimKeeps | lib/header-text.ts:5 | every non-whitespace character survives trimming, shifted left by the leading whitespace removed |
| ChatScreen.HeaderTitle | app/index.tsx:63 | before a chat has loaded, or for an empty name, the header reads `name not found`; otherwise a title no longer than the name with no outer whitespace |
| ChatScreen.LoadedTitle | app/index.tsx:63 | a loaded chat named `No. 42 Friends` shows `42 Friends` in the header |

## Left out

- Whitespace is the full ECMAScript WhiteSpace plus LineTerminator set, with the space separators of Unicode 6.3 and later; a runtime built on an older Unicode table (one that still lists U+180E) is not modelled.
- Dafny's `char` is a Unicode scalar value while JavaScript strings are UTF-16 code units. No whitespace or word character is a surrogate, so the title's characters are the same; positions inside names with astral characters differ and are not modelled.
- The regular expression engine in general: only the one expression `\bNo\.\s*` is modelled, by its meaning.
- `app/index.tsx` apart from the header title: the `fetch` of page 0 and `response.json()` (network I/O, lines 30-37), the React state hooks and menu toggles (lines 22-28), and the JSX and styles (lines 48-366). The `sender.self` choices of lines 111-125 only pick styles and are not modelled.
- The paginated fetcher that reverses and appends pages is not part of this model: no source for it is in the files modelled.
- `type.d.ts` has no behaviour; its three interfaces appear as datatypes with nothing proved about them.
