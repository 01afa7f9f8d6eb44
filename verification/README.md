# Note-summary sections and search highlighting

A model of the text-processing core of a Streamlit app that summarises
clinical notes. A language model writes the summary as markdown. The app then
does three things with that text:

- **Splitting.** `split_sections` walks the reply line by line. Each `##`/`###`
  heading is resolved to one of five canonical sections (`meds`, `orders`,
  `ptot`, `cm`, `brief`) by `normalize_key`. That function searches the
  stripped, lower-cased heading for the aliases in `SECTION_KEYS`, and the
  first key in declaration order wins. The result maps each section to its
  stripped body.
- **Reassembly.** The summary keeps only the sections whose check box is
  ticked and whose body is non-empty. They appear in a fixed order, each under
  its canonical heading, joined by blank lines. When nothing is left, the raw
  reply is shown instead.
- **Searching.** The note viewer searches for the words of a query.
  `highlight_text` HTML-escapes the note and wraps every case-insensitive match
  of a query word in a `<span class="marked">`. `count_hits` counts the matches
  in the note.

The Dafny modules follow that structure:

- `Strings`: `strip`, ASCII `lower`, `in`, `join` and `splitlines`.
- `Sections`: the alias table, `normalize_key`, the heading pattern
  `^#{2,3}\s+(.*)$`, and the loop of `split_sections` as a fold over lines.
- `Headings`: what the alias table does to concrete headings.
- `SectionsSpec`: a reference definition of the result that does not use the
  loop, the proof that the loop computes it, and consequences of that proof.
- `SectionExamples`: worked inputs, one behaviour each.
- `Reassembly`: the filters, the summary, and the round trip back through the
  splitter.
- `ReassemblyExamples`: a summary that does not split back to the sections
  it was made from.
- `Highlight`: `html.escape`, the query's word tokens, the regex alternation as
  a left-to-right scanner, the highlighter, the counter, and a highlighter that
  matches on the raw text.

One might expect the text before the first heading, and the text under an
unrecognised heading, to be discarded. The code does otherwise: it empties
`buf` only when it records a recognised section (streamlit_app.py:148-150).
Such text is therefore carried into the body of the next recognised section
(a later heading for the same key can still replace that body), and it is
lost only when no recognised heading follows it
(`SectionsSpec.CarryForwardState`, `SectionsSpec.CarryForward`,
`SectionExamples.PreambleCarried`,
`SectionExamples.UnrecognizedHeadingLeaks`,
`SectionsSpec.TrailingUnrecognizedDropped`).

## Model

| member | source | states |
|---|---|---|
| Strings.Strip | streamlit_app.py:149 | neither end of the result is whitespace |
| Strings.StripSlice | streamlit_app.py:149 | the stripped text is a slice of the input with only whitespace cut from each end |
| Strings.StripUnique | streamlit_app.py:149 | stripping whitespace-only margins from a stripped core gives back exactly that core |
| Strings.SplitLines | streamlit_app.py:145 | the lines hold no line break, and joining them with `\n` rebuilds the text, less one final line break |
| Strings.SplitOnJoin | streamlit_app.py:145 | the pieces of a split hold no separator, and joining them with the separator gives back the text |
| Strings.SplitOnAppend | streamlit_app.py:145 | splitting at a separator splits the text on each side of it independently |
| Sections.SearchSpec | streamlit_app.py:135-139 | over any table with non-empty keys, the nested alias loop returns `""` exactly when no entry from the starting one on has an alias in the heading, and otherwise the key of the first entry that has one |
| Sections.KeyFromSpec | streamlit_app.py:135-139 | the alias search returns `""` exactly when no later key has an alias in the heading; otherwise it returns the first such key in declaration order |
| Sections.NormalizeKey | streamlit_app.py:133-139 | the result is `""` or a canonical key |
| Sections.AnyAliasIff | streamlit_app.py:136-138 | trying the aliases of one key in order finds a match exactly when some alias of that key is a substring of the heading |
| Sections.NormalizeKeySpec | streamlit_app.py:133-139 | the result is `""` or a canonical key; it is `""` exactly when no alias occurs in the stripped, lower-cased heading; otherwise it is the first key in declaration order that has an alias there |
| Sections.HeadingText | streamlit_app.py:151-153 | the pattern matches exactly when the line opens with two or three `#` followed by whitespace; the captured group is a suffix of the line that does not start with whitespace, and the text before it is exactly two or three `#` followed by at least one whitespace character and nothing else |
| Sections.HeadingCaptureUnique | streamlit_app.py:151-153 | those facts leave only one possible capture: two suffixes that each follow such a prefix and neither start with whitespace are equal (so `## #x` captures `#x`) |
| Sections.HeadingKey | streamlit_app.py:151-157 | a line opens a section only if it starts with `#`, and only a canonical key is ever opened |
| Sections.ClassifyAllAppend | streamlit_app.py:146-159 | each line is classified on its own, so classifying two parts of a text is classifying the whole |
| Sections.ScanSound | streamlit_app.py:141-162 | every state of the loop records only canonical keys with stripped bodies, opens only canonical keys, and never buffers a `#` line |
| Sections.SplitSectionsShape | streamlit_app.py:141-162 | every key of the result is a canonical key (never `""`) and every body is stripped |
| Sections.ScanAppend | streamlit_app.py:146-159 | running the loop over two parts of the lines resumes the second run from the state the first left |
| Sections.ScanBodyLines | streamlit_app.py:158-159 | lines that do not start with `#` are only appended to the buffer |
| Sections.ScanSection | streamlit_app.py:147-155 | a recognised heading records the open section and opens its own; its buffer is emptied only if a section was open |
| Sections.ScanUnrecognized | streamlit_app.py:147-157 | an unrecognised `#` line records the open section and leaves none open, so the body lines after it are not recorded at the end |
| Headings.CanonicalHeadings | streamlit_app.py:125-139 | each title the summary uses normalises to its own key |
| Headings.CanonicalHeadingLines | streamlit_app.py:151-157 | each heading line the summary emits opens its own section |
| Headings.DischargePlanIsOrders | streamlit_app.py:125-139 | "Discharge plan" holds a case-management alias, but it resolves to `orders`, whose alias "plan" is tried first |
| Headings.NotesIsUnknown | streamlit_app.py:133-139 | example: `Notes`, which holds no alias, normalises to `""` (the general law is `Sections.NormalizeKeySpec`) |
| Headings.HeadingLine | streamlit_app.py:151-157 | for a title that is empty or does not start with whitespace, `## title` captures exactly the title and opens the section it normalises to |
| SectionsSpec.SectionsOfMeetsSpec | streamlit_app.py:141-162 | the loop computes the reference result: for each key, the body collected under the last heading that opens it |
| SectionsSpec.SectionsKeys | streamlit_app.py:141-162 | a key is in the result exactly when some line is a heading that opens it |
| SectionsSpec.NoHeadingNoSections | streamlit_app.py:141-162 | a reply without a recognised heading gives no sections at all |
| SectionsSpec.BodiesFromTextLines | streamlit_app.py:158-161 | every body is the stripped join of lines of the input that do not start with `#` |
| SectionsSpec.OpenAfterHeading | streamlit_app.py:151-155 | after lines whose last `#` line is a recognised heading, a section is open |
| SectionsSpec.PendingWithoutHeading | streamlit_app.py:143-159 | before any recognised heading nothing is recorded or open, and every body line is buffered |
| SectionsSpec.LastOccurrenceWins | streamlit_app.py:147-150 | after an open section (the last `#` line before the heading is a recognised heading), a later heading for a key, followed by body lines with no `#` line after them, replaces its earlier body with those lines and leaves every other key as it was |
| SectionsSpec.CarryForward | streamlit_app.py:143-161 | when no `#` line follows the first recognised heading, the result holds only that section, and its body is the body lines before the heading followed by those under it |
| SectionsSpec.CarryForwardState | streamlit_app.py:143-159 | whatever follows, right after the first recognised heading nothing is recorded, that section is open, and its buffer holds the body lines before it |
| SectionsSpec.TrailingUnrecognizedDropped | streamlit_app.py:147-161 | the body lines after an unrecognised `#` line that no further `#` line follows do not change the result |
| SectionsSpec.EmptySection | streamlit_app.py:147-161 | a recognised heading that ends the reply, after an open section (the last `#` line before it is a recognised heading), is kept with an empty body |
| SectionsSpec.HeadingFirst | streamlit_app.py:141-162 | a reply that is one recognised heading line is kept with an empty body |
| SectionExamples.PreambleCarried | streamlit_app.py:143-161 | `intro` before `## Medications` ends up in the `meds` body |
| SectionExamples.PreambleCarriedText | streamlit_app.py:141-162 | the same, for the text `intro\n## Medications\n- x` after `splitlines` |
| SectionExamples.UnrecognizedHeadingLeaks | streamlit_app.py:147-161 | the text under `## Notes` runs on into the following `## Medications` section |
| SectionExamples.TrailingUnrecognizedLost | streamlit_app.py:147-161 | the text under a final `## Notes` is lost |
| SectionExamples.RepeatedHeadingKeepsLast | streamlit_app.py:147-150 | a repeated `## Medications` keeps the body of its last occurrence |
| SectionExamples.EmptyHeadingKept | streamlit_app.py:160-161 | example: the reply `## Medications` alone stores `meds` as `""` |
| SectionExamples.PreambleFillsEmptyHeading | streamlit_app.py:143-161 | example: in `intro` then `## Medications`, the heading has nothing under it but no section was open, so `meds` is `intro`, not `""` |
| SectionExamples.PlainTextDropped | streamlit_app.py:141-162 | example: the single line `just text` gives an empty mapping (the general law is `SectionsSpec.NoHeadingNoSections`) |
| SectionExamples.EmptyTitle | streamlit_app.py:151-153 | example: the line `## ` matches and captures the empty title |
| SectionExamples.HashInTitle | streamlit_app.py:151-153 | example: the line `## #x` captures `#x` |
| SectionExamples.DischargePlanLine | streamlit_app.py:151-157 | the line `## Discharge plan` opens `orders` |
| Reassembly.ShownFrom | streamlit_app.py:467-471 | the shown indices are exactly the ticked sections with a non-empty body, in display order, each once |
| Reassembly.Reassemble | streamlit_app.py:472 | when no section is shown, the summary is the raw reply |
| Reassembly.PickedKeys | streamlit_app.py:466-471 | the collected sections are exactly the ticked ones with a non-empty body, each once, each with its own body |
| Reassembly.SplitJoined | streamlit_app.py:467-472 | the lines of the joined blocks are each heading, its body's lines, and a blank line before the next heading |
| Reassembly.SummaryLines | streamlit_app.py:465-472 | when some section is shown and every body is stripped (as the splitter leaves them), the summary is the joined blocks (stripping changes nothing) and its lines are their rows |
| Reassembly.JoinedStripped | streamlit_app.py:472 | the joined blocks start with `#` and end with the last body, so `strip()` leaves them as they are |
| Reassembly.RoundTrip | streamlit_app.py:465-472 | splitting the summary again gives back exactly the shown sections with their bodies, when every body is stripped and has no line starting with `#` |
| ReassemblyExamples.ResplitLosesBody | streamlit_app.py:141-162 | the splitter makes the body `# x` of an indented line ` # x`; its summary `## Medications\n# x` splits back to an empty `meds` body, so the round trip needs bodies without `#` lines |
| Highlight.EscapeChar | streamlit_app.py:61 | each special character becomes an entity starting with `&`, and any other character is kept |
| Highlight.Escape | streamlit_app.py:61 | the escaped text holds no `<` or `>` |
| Highlight.EscapeIdentity | streamlit_app.py:61 | escaping never shortens a text, and leaves it unchanged exactly when it holds no special character |
| Highlight.EscapeAppend | streamlit_app.py:61 | escaping a concatenation escapes each part |
| Highlight.UnescapeEscape | streamlit_app.py:61 | escaping can be undone, so no information is lost |
| Highlight.WordEnd | streamlit_app.py:62 | the run of word characters from a position ends at the first character that is not a word character |
| Highlight.TokensFrom | streamlit_app.py:62 | every token is a non-empty run of word characters, and their lengths add up to the number of word characters in the query |
| Highlight.TokensAreRuns | streamlit_app.py:62 | each token is a maximal run of word characters at its own position in the query |
| Highlight.TokensInOrder | streamlit_app.py:62 | the tokens come in query order, and each ends before the next starts |
| Highlight.TokensShape | streamlit_app.py:62-64 | every token is non-empty and made of word characters, and there are none exactly when the query has no word character |
| Highlight.FirstAlt | streamlit_app.py:65-66 | the chosen alternative matches at the position ignoring case, and no earlier alternative does; without one, none matches |
| Highlight.Next | streamlit_app.py:65-66 | one step of the scan consumes the text of the first alternative that matches, or else one character, and marks exactly in the first case |
| Highlight.Pieces | streamlit_app.py:66 | the scanned pieces, unmarked, are the scanned text |
| Highlight.MarksAreTokens | streamlit_app.py:65-66 | every marked piece equals one of the query's tokens, ignoring case |
| Highlight.UnmarkRender | streamlit_app.py:66 | removing the span tags from the rendering gives back the scanned text, and there is one span per match |
| Highlight.HighlightText | streamlit_app.py:58-67 | the output is wrapped in `<pre>`; without a search it is the escaped text; with the span tags removed it is always the escaped text |
| Highlight.CountHits | streamlit_app.py:69-76 | without a search (empty text, blank query or no word in it) the count is 0 |
| Highlight.HitsMatchSpans | streamlit_app.py:58-76 | for a text with no character to escape, the counter equals the number of spans the highlighter inserts |
| Highlight.EntityMatched | streamlit_app.py:61-66 | searching `a & b` for `amp`: the counter finds 0 matches, but the highlighter marks one, inside the `&amp;` it produced |
| Highlight.HighlightedRaw | streamlit_app.py:72-76 | matching on the raw text and escaping each piece: without the span tags it is the escaped text, and it has exactly as many spans as the counter counts |
| Highlight.HighlightTextRaw | streamlit_app.py:58-76 | the corrected highlighter: wrapped in `<pre>`, the escaped text once the tags are removed, with one span per counted hit |

## Left out

- The Streamlit page is not part of this model: layout, CSS, buttons, the copy-to-clipboard component, the example notes, print and PDF export.
- The calls to the language model and the API key are not part of this model. The reply is a parameter: the text given to `split_sections`.
- `st.markdown` rendering of the summary is left out; the model stops at the summary string.
- `markdown_text or ""` and `text or ""`: a missing value (`None`) has no counterpart, because every string here is present; the empty string is modelled.
- Strings.IsSpace, Strings.Lower, Highlight.IsWordChar: Unicode whitespace, case folding and word characters are reduced to ASCII, because the model has no Unicode tables.
- Strings.SplitLines: splits only at `\n`; the other line boundaries of `str.splitlines` (`\r`, `\r\n`, form feed and the rest) are not modelled.
- Highlight.MatchesAt: `re.I` is modelled as ASCII case-insensitive comparison.
- Highlight.Tokens: `re.escape` is taken as the identity on the tokens, which holds because they are made of word characters only.
- Highlight.MarksAreTokens: stated for the scanner's pieces, not for the rendered HTML string.
- Reassembly.RoundTrip: assumes every body is stripped and has no line starting with `#`. The splitter's bodies are always stripped, but one can contain such a line: `strip()` removes the indentation of a buffered ` # x` and exposes its `#`. That body is split differently the second time (`ReassemblyExamples.ResplitLosesBody`). The app never splits its own summary again; it only renders it.

## Findings

| source | as written | input that shows it | evidently intended | confidence | as-written member | corrected member |
|---|---|---|---|---|---|---|
| streamlit_app.py:61-66 | `highlight_text` runs the pattern over the HTML-escaped text, while `count_hits` runs it over the raw text, so query words also match inside the entities escaping produced | note `a & b`, query `amp`: the counter reports 0 hits, the viewer marks the `amp` of `&amp;` (and splits the entity with a tag) | the matches are found in the raw text and each piece is escaped, so the marks agree with the count and entities stay whole | not executed | Highlight.EntityMatched | Highlight.HighlightTextRaw |
