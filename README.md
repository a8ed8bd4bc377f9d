# Cancionero católico: the text logic of the song editor

`app.py` is a Streamlit song-book for a church choir. Most of it is UI and CSV
storage. Three small pieces of it are plain text logic, and this project models
and verifies them:

- **The chord highlighter** (`app.py:93-94`, repeated at `app.py:111-112`).
  It is `re.sub` with the pattern `\b([A-G][#b]?(m|maj|7|9|sus\d|dim|aug|add\d)?)\b`
  and a template that wraps each match in
  `<span style="color:…; font-weight:bold;">…</span>`. The editor's preview uses it,
  and so does the stage view ("En Vivo").
- **The "clean strange characters" button** (`app.py:71`). It is `re.sub` with the
  negated class `[^a-zA-Z0-9#b7m\sáéíóúÁÉÍÓÚñÑ+]` and an empty replacement.
- **The piano guide** (`app.py:77-84`). It is a select box of fourteen chords and a
  table `notas` from each chord to its three notes, written with Latin names.

## How the model is built

- `wrappers.dfy`: the `Option` type.
- `char_classes.dfy` (`CharClasses`): Python's `\w`, `\d` and `\s`.
  - They are kept abstract, as three predicates in a `Classes` value.
  - `AsciiAgrees` states what Python promises about them on ASCII.
  - `PythonClasses` adds that every decimal digit is a word character.
  - `AsciiOnly` is Python's default classes restricted to ASCII. It is a witness that `PythonClasses` can be met.
- `chord_pattern.dfy` (`ChordPattern`): the chord pattern at one position.
  - `IsMatch` says declaratively which substrings the pattern accepts: both `\b` anchors and the shape `ChordShape`.
  - `MatchAt` is what Python's backtracking engine returns there:
    - it takes the accidental greedily;
    - it tries the alternatives of the group in their written order, and the empty group last;
    - it drops the accidental only when no way of finishing the match after it exists.
- `substitution.dfy` (`Substitution`): `re.sub` for a pattern that never matches the empty string.
  - The pass is recorded as a sequence of segments, each either a copied character or a match. `Render` turns the segments into the output string.
  - The pattern is given as a `Matcher`. The pass takes the match found at a position, or copies one character, and resumes after it.
- `highlight.dfy` (`Highlighter`): the highlighter.
  - It instantiates the pass with `MatchAt` and the `<span>` template.
  - `PreviewMarkup` is the preview; `LiveMarkup` is the stage view.
  - The colour from the colour picker is an uninterpreted string.
- `highlight_examples.dfy` (`HighlightExamples`): concrete song-sheet inputs worked through the pass, all under `AsciiAgrees`.
- `whitelist.dfy` (`Whitelist`): the cleaning `re.sub`, as the same pass with a one-character matcher.
  - `Filter` is a reference definition: the allowed characters in order.
  - The cleaning pass is proved equal to it.
- `chord_guide.dfy` (`ChordGuide`): the select box and the table.
  - Ghost pitch functions state what an entry means: the root, the third and the fifth of a major or minor triad.
  - These functions are specification only. The program has no note arithmetic.

### Behaviour of the pattern worth knowing

- `\b` between `#` and a following letter is a word boundary, because `#` is not a word character.
  - So in `C#m7` the engine first tries the alternative `m`. It matches, but the closing `\b` between `m` and `7` fails. The alternatives `maj` to `add\d` then fail on their own characters, and the empty group leaves `C#`, which is followed by `\b`. `m7` stays plain.
  - In `C# ` (a sharp chord before a space, as on a chord line) the `\b` after `#` fails, so only `C` is coloured and the sharp stays outside the span.
  - `C#m` at the end of a line is coloured whole.
  - A match is therefore followed by a non-word character or the end of the text, except when it is a root followed by `#` alone. `Highlighter.WrappedAreAnchored` states exactly that.
- A chord takes at most one quality. So `Am7` and `Cmaj7` are not coloured at all.
- Latin note names are never coloured when they stand as a word: `Do`, `Re`, `Mi`, `Fa`, `Sol`, `La`, `Si`. Neither is a lyric word that only starts with a chord letter, such as `Dios`. Matching is case-sensitive.
- `Fa` followed by `ug` is the chord `Faug`.
- In the cleaning class, `b`, `7` and `m` are listed separately although `a-z` and `0-9` already contain them. `Whitelist.Allowed` lists the members as the class does.

## Model

| member | source | states |
|---|---|---|
| ChordPattern.ChordShape | app.py:93 | the language of `[A-G][#b]?` and the quality group: a capital `A`-`G`, at most one `#` or `b`, at most one quality; its meaning for the engine is stated by `MatchAtSound`, `MatchAtComplete` and `MatchAtLongest` |
| ChordPattern.IsMatch | app.py:93 | a substring the whole pattern accepts: both `\b` anchors around a `ChordShape`; the engine is tied to it by `MatchAtSound`, `MatchAtComplete` and `MatchAtLongest` |
| ChordPattern.AltEnd | app.py:93 | the k-th way of matching the optional quality group ends inside the text, and only the last way (skipping the group) ends where it starts |
| ChordPattern.SuffixFrom | app.py:93 | the end the engine's backtracking over the group settles on is inside the text and followed by `\b` |
| ChordPattern.AltEndQuality | app.py:93 | each of the eight alternatives consumes exactly one quality of the group |
| ChordPattern.SuffixFromQuality | app.py:93 | what the backtracking consumes after the root is a quality of the group or nothing |
| ChordPattern.MatchAt | app.py:93 | a match found at `i` is at least one character long and lies inside the text |
| ChordPattern.MatchAtSound | app.py:93 | whatever the engine matches at `i` is accepted by the pattern: both `\b` anchors and the chord shape |
| ChordPattern.AlternativeOf | app.py:93 | every quality (or the empty group) is the end of one of the nine ways of matching the group |
| ChordPattern.MatchAtComplete | app.py:93 | if any substring at `i` is accepted by the pattern, the engine finds a match at `i` |
| ChordPattern.AlternativesExclusive | app.py:93 | for Python's classes, of two alternatives that both match at a position the earlier one is followed by no `\b` |
| ChordPattern.SuffixFromLongest | app.py:93 | for Python's classes, the backtracking takes the longest alternative followed by `\b` |
| ChordPattern.QualityNotAccidental | app.py:93 | no quality starts with `#` or `b`, so the accidental and the group cannot be confused |
| ChordPattern.MatchAtLongest | app.py:93 | for Python's classes, the engine's match at `i` is at least as long as every substring the pattern accepts there |
| Substitution.ScanFrom | app.py:94 | `re.sub`'s left-to-right scan from a position: the match found there, or one copied character, then the rest; its meaning is stated by `ScanFromTiles` and `ScanFromFaithful` |
| Substitution.Render | app.py:94 | the output of `re.sub`: copied characters as themselves and each match as its replacement; stated by `RenderKeepIsIdentity`, `RenderLength` and `RenderGrows` |
| Substitution.ScanFromTiles | app.py:94 | the matches and copied characters cover the text left to right without gaps or overlaps |
| Substitution.ScanFromFaithful | app.py:94 | each match taken is the text at its position and exactly the match found there; each copied character is one where nothing matches |
| Substitution.RenderKeepIsIdentity | app.py:94 | re-emitting every match unchanged gives back the input exactly |
| Substitution.RenderLength | app.py:94 | a replacement that adds `d` characters to every match adds `d` characters per match to the output |
| Substitution.RenderGrows | app.py:94 | a replacement that lengthens every match lengthens the output by at least one character per match |
| Substitution.NoMatchAllCopied | app.py:94 | where the pattern matches nowhere, `re.sub` returns the input unchanged and wraps nothing |
| Substitution.NoWrappedNoMatch | app.py:94 | a pass that took no match found no match at any position |
| Highlighter.SpanOpen | app.py:94 | the opening marker `<span style="color:…; font-weight:bold;">` with the colour inserted; `HighlightLength` counts it once per chord |
| Highlighter.SpanReplacement | app.py:94 | the template with `\1` as the whole match between the opening marker and `</span>`; `HighlightLength` and `HighlightGrows` use it |
| Highlighter.Highlight | app.py:93-94 | `re.sub(patron, template, text)`; its meaning is stated by `HighlightOnlyAddsMarkup`, `HighlightLength`, `WrappedAreMatches`, `CopiedHaveNoMatch`, `WrappedAreLongest` and `UnchangedIffNoMatch` |
| Highlighter.PreviewMarkup | app.py:89-94 | the preview `preview_coloreada`, present only when text has been typed; stated by `PreviewIsLive` |
| Highlighter.LiveMarkup | app.py:111-112 | the stage view `texto_final` of a stored lyric; stated by `PreviewIsLive` |
| Highlighter.ChordMatcher | app.py:93-94 | the chord pattern never matches the empty string and never reaches past the text |
| Highlighter.PreviewIsLive | app.py:89-94 | the preview exists exactly when text has been typed, and then it equals the stage view of the same text and colour (app.py:111-112) |
| Highlighter.HighlightOnlyAddsMarkup | app.py:94 | the highlighter's matches, put back without their markers, give back the input exactly |
| Highlighter.HighlightLength | app.py:94 | the output is the input plus one opening and one closing marker per wrapped chord |
| Highlighter.HighlightGrows | app.py:94 | every wrapped chord lengthens the output |
| Highlighter.WrappedIsMatch | app.py:93-94 | one wrapped span is the input text at its position, accepted by the pattern, and of chord shape |
| Highlighter.WrappedAreMatches | app.py:93-94 | every wrapped span is the input text at its position and is accepted by the pattern. It has the chord shape: a capital `A`-`G`, at most one `#`/`b`, at most one quality |
| Highlighter.CopiedHaveNoMatch | app.py:93-94 | every character copied through is at a position where the pattern accepts nothing |
| Highlighter.WrappedAreLongest | app.py:93-94 | for Python's classes, every wrapped span is the longest substring the pattern accepts at its position |
| Highlighter.ChordEndsInWordChar | app.py:93 | a chord ends in a word character unless it is a root followed by `#` alone |
| Highlighter.MatchAnchored | app.py:93 | a match starts at the start of the text or after a non-word character. It ends at the end of the text or before a non-word character, or it is a root followed by `#` alone |
| Highlighter.WrappedAreAnchored | app.py:93-94 | every wrapped span is anchored in the sense of `MatchAnchored` |
| Highlighter.NoMatchUnchanged | app.py:93-94 | a text in which the pattern matches nowhere is returned unchanged, with nothing wrapped |
| Highlighter.MatchIsWrapped | app.py:93-94 | a text in which the pattern matches somewhere gets at least one span |
| Highlighter.UnchangedIffNoMatch | app.py:93-94 | the highlighter leaves a text unchanged if and only if the pattern matches nowhere in it |
| Highlighter.NoRootLetterUnchanged | app.py:93-94 | a text without a capital `A`-`G` is returned unchanged |
| Highlighter.NoMatchBeforeOtherLowercase | app.py:93 | no match starts at a chord letter followed by a lower-case letter that is neither an accidental nor the start of a quality (`Do`, `Dios`) |
| Highlighter.FaNoMatch | app.py:93 | no match starts at a word `Fa` |
| Highlighter.LatinNameNoMatch | app.py:93 | no match starts at any of `Do`, `Re`, `Mi`, `Fa`, `Sol`, `La`, `Si` standing as a word |
| HighlightExamples.SharpBeforeQuality | app.py:93-94 | `C#m7` becomes a span around `C#` followed by plain `m7` |
| HighlightExamples.SharpAlone | app.py:93-94 | `C# ` becomes a span around `C` followed by plain `# ` |
| HighlightExamples.SharpMinorWhole | app.py:93-94 | `C#m` becomes one span around `C#m` |
| HighlightExamples.ExtendedChordsUnchanged | app.py:93-94 | `Am7 Cmaj7` comes back unchanged |
| HighlightExamples.FaugButNotFa | app.py:93-94 | `Faug Fa` becomes a span around `Faug` followed by plain ` Fa` |
| HighlightExamples.LatinLineUnchanged | app.py:93-94 | the line `Do Re Mi Fa Sol La Si` comes back unchanged |
| HighlightExamples.WordWithChordLetterUnchanged | app.py:93-94 | `Dios te salve` comes back unchanged |
| HighlightExamples.LowercaseLyricUnchanged | app.py:93-94 | the lyric `a la orilla` comes back unchanged, for any character classes |
| Whitelist.Allowed | app.py:71 | membership in `[a-zA-Z0-9#b7m\sáéíóúÁÉÍÓÚñÑ+]`, member by member; `CleanAllowed` and `FilterCounts` state what cleaning does with it |
| Whitelist.Clean | app.py:71 | the cleaning `re.sub` with the negated class and an empty replacement; stated by `CleanIsFilter`, `CleanAllowed` and `CleanIdempotent` |
| Whitelist.StrangeMatcher | app.py:71 | the negated class matches one character at a time, inside the text |
| Whitelist.Filter | app.py:71 | the reference filter never lengthens the text and keeps only allowed characters |
| Whitelist.CleanIsFilter | app.py:71 | the cleaning `re.sub` returns exactly the allowed characters of the input, in their order |
| Whitelist.CleanAllowed | app.py:71 | every character of the cleaned text is in the class |
| Whitelist.FilterCounts | app.py:71 | each allowed character occurs in the output as often as in the input; every other character does not occur at all |
| Whitelist.FilterIsSubsequence | app.py:71 | the output is the input with characters deleted and the rest in their original order |
| Whitelist.SubsequenceCounts | app.py:71 | deleting characters never increases how often any character occurs |
| Whitelist.FilterCharacterized | app.py:71 | an ordered selection of the input that keeps all of its allowed characters and no others is the filter's output |
| Whitelist.FilterUnchangedIff | app.py:71 | cleaning leaves a text unchanged if and only if every character of it is allowed |
| Whitelist.CleanIdempotent | app.py:71 | cleaning twice is cleaning once |
| Whitelist.FilterAppend | app.py:71 | cleaning a concatenation is concatenating the cleaned parts |
| Whitelist.AllAllowedUnchanged | app.py:71 | a text of allowed characters only comes back as it is |
| Whitelist.NoneAllowedErased | app.py:71 | a text without any allowed character is erased |
| Whitelist.CleanPlaceholder | app.py:67-71 | the editor's placeholder lyric `Tú, has venido a la orilla...` loses its comma and its dots and keeps the accented `ú` |
| ChordGuide.GuideOptions | app.py:77 | the fourteen options of the select box, in its order; `OptionsAreKeys` ties them to the table |
| ChordGuide.GuideNotes | app.py:78-83 | the table `notas`, entry by entry; `GuideEntriesAreTriads` states what each entry means |
| ChordGuide.OptionsAreKeys | app.py:77-83 | a chord is offered by the select box if and only if it is a key of `notas` |
| ChordGuide.GuideEntriesAreTriads | app.py:77-83 | every entry of `notas` names the three notes of the major or minor triad of its key, in Latin names |
| ChordGuide.GuideLookup | app.py:84 | `notas[acorde_guia]` is defined for every choice of the select box and gives the notes of that chord |

## Left out

- The Streamlit UI: page setup, sidebar, menus, colour picker, size slider, text inputs, buttons, `st.info`, `st.success` and `st.markdown`. These are presentation and input, not text logic.
- `st.rerun` right after the cleaning `re.sub` (`app.py:72`). As written, the script starts over before the cleaned text is used, so the cleaned text is discarded. Only the cleaning function is modelled, not that control flow.
- Loading and saving the song book as CSV through pandas, and adding and removing rows of the DataFrame. These are file I/O and library state.
- The CSS and the HTML wrapped around the preview and the stage view. The lyric and the colour go into the HTML without escaping; the model does not escape either.
- Which stored song the stage view shows. The selection by title is a DataFrame lookup; `LiveMarkup` takes the chosen lyric as a parameter.
- The Unicode classes behind `\w`, `\d` and `\s`. They are abstract predicates. Lemmas that depend on them name their hypotheses: `AsciiAgrees` (the ASCII range as Python defines it) or `PythonClasses` (also that every digit is a word character).
- The general regular-expression engine. Only this one chord pattern and this one character class are modelled, each by an explicit matcher.
- `re.sub`'s rules for empty matches. Neither pattern can match the empty string (`Substitution.Advances`).
- Highlighter.SpanOpen: inserts the colour literally. In app.py the template is an f-string that `re.sub` then parses as a replacement template, so a backslash in the colour would be read as an escape or rejected. The colour comes from the colour picker, which returns `#rrggbb`, so no backslash reaches it.
- Highlighter.HighlightOnlyAddsMarkup: the property is stated on the pass. Putting each match back unchanged gives the input. The model does not strip markers out of the output string, because a lyric may itself contain `<span …>` text that stripping could not tell apart.
