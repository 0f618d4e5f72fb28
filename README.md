# Comment SRL labelling tool: the annotation session

This project models the data side of a single-page tool for labelling
Vietnamese film reviews with semantic roles. An annotator walks through a list
of texts. In each text they click words to select them, pick a role (ASPECT,
OPINION, HOLDER, TARGET, NEGATION, TIME, MODALITY, EMOTION) and save the
selection as a label. A label records:

- the sorted word indices;
- the selected words joined by spaces;
- the role;
- the half-open character range `[start, end)` of the selection.

Labels of one text may not share a word. Texts can be replaced by importing a
comma-separated file with a `text` column. All labels can be exported, one
entry per text.

The model is split into modules that follow the page's parts:

- `Strings` (strings.dfy): the string operations the page relies on. These
  are white space as matched by `\s`, `split` on one character, `join`,
  `trim` and lower-casing.
- `Selection` (selection.dfy): the pending word selection. It is toggled by
  clicks and kept sorted by re-sorting.
- `Tokens` (tokens.dfy): the tokenizer and `getWordCharRange`.
  - `GetWordCharRange` is the loop of the page, with its invariants.
  - `CharRange` is the range it computes, stated as a function.
  - The lemmas give the range's meaning and the round trip from range back
    to label text.
- `Labels` (labels.dfy): the label record, the overlap test, and the
  invariant every text's label list keeps. The invariant requires saved
  labels and pairwise disjoint word indices.
- `CsvImport` (csv_import.dfy): the parsing done on an uploaded file.
  - `ExtractTexts` is the row loop.
  - `ParseTexts` is the whole import as a function.
- `Export` (export.dfy): the export mapping, as a value rather than JSON
  text.
- `Annotation` (session.dfy): the session as a class. It holds the texts,
  the cursor, one label list per text, the selection and the role, and has
  one method per handler. Every method keeps the class invariant `Valid()`:
  - one label list per text;
  - the cursor on a text whenever there is one;
  - the selection strictly ascending;
  - every list well formed.

The behaviour follows the page, including these edges:

- `Next` on an empty text list moves the cursor to -1.
- An import leaves the pending selection as it was.
- A selected index past the last word contributes an empty word to the label
  text, because `join` renders `undefined` as the empty string.
- Saving while the cursor is off the list (possible only on an empty session)
  clears the selection but changes no list.

The character offsets assume exactly one space between words. The span round
trip (`Tokens.SpanRoundTrip`, `Labels.SavedSpanMatchesText`) is proved for
texts that are single-spaced and for consecutive word indices. On other texts
the range recorded by the page need not cut the label's text out of the
sentence. For example, on `a  b` (two spaces) the label on `b` records
`[2, 3)`, which holds the second space (`Labels.DoubleSpaceShiftsRange`). The
model keeps that behaviour.

## Model

| member | source | states |
|---|---|---|
| Strings.Split | app/page.tsx:129 | `split(",")` yields at least one piece and no piece contains the separator |
| Strings.JoinSplit | app/page.tsx:129 | joining the pieces of a split with the same separator restores the input |
| Strings.SplitJoin | app/page.tsx:136 | separator-free parts joined with the separator split back into exactly those parts |
| Strings.TrimStartSpec | app/page.tsx:130 | `trim` removes exactly the leading white space: the rest is a suffix and does not start with white space |
| Strings.TrimEndSpec | app/page.tsx:130 | `trim` removes exactly the trailing white space: the rest is a prefix and does not end with white space |
| Tokens.Words | app/page.tsx:53 | every token of `match(/[^\s]+/g)` is non-empty and free of white space |
| Tokens.WordsSkipSpace | app/page.tsx:53 | white space before the rest of the text produces no word |
| Tokens.WordsWordThenSpace | app/page.tsx:53 | a non-empty run of non-white-space characters followed by a white-space character is the next word, and tokenizing continues after that character |
| Tokens.WordsOfWord | app/page.tsx:53 | a non-empty run of non-white-space characters that ends the text is its last word; with the two lemmas above this fixes the words of every text |
| Tokens.WordsOfJoin | app/page.tsx:53 | non-empty white-space-free words joined by single spaces tokenize back to the same words |
| Tokens.HitsSpec | app/page.tsx:34-35 | the scan meets exactly the selected indices in `[0, words.length)`, in strictly ascending order |
| Tokens.CharRange | app/page.tsx:29-42 | the range is `(-1, -1)` if and only if no index in `[0, words.length)` is selected |
| Tokens.ScanHits | app/page.tsx:34-40 | after `i` steps, `start`/`end` are the offset of the first selected word so far and the end of the last one |
| Tokens.GetWordCharRange | app/page.tsx:29-42 | the loop returns exactly `CharRange(words, wordIndices)` |
| Tokens.CharRangeIgnoresOrder | app/page.tsx:35 | order, duplicates and out-of-range entries of `wordIndices` do not change the range |
| Tokens.CharRangeSpan | app/page.tsx:36-39 | the range is the tightest cover of the selected words: it starts where some selected word starts and at or before every one, and ends where some selected word ends and at or after every one |
| Tokens.CharRangeBounds | app/page.tsx:29-42 | with non-empty words and some word selected, `0 <= start < end <=` the length of the single-space-joined text |
| Tokens.Pick | app/page.tsx:67 | `sorted.map((i) => words[i])` keeps one entry per index; an index past the words gives the empty string |
| Tokens.CharRangeOfContiguous | app/page.tsx:29-42 | for consecutive indices the range runs from the first word's offset to the end of the last word |
| Tokens.JoinSlice | app/page.tsx:39 | the text between two word offsets of a single-space-joined text is those words joined by single spaces |
| Tokens.SpanRoundTrip | app/page.tsx:67-72 | for consecutive indices, cutting the range out of the single-space-joined words gives the label text |
| Selection.InsertSortedElems | app/page.tsx:59 | inserting into the selection adds exactly one copy of the index |
| Selection.InsertSortedMembers | app/page.tsx:59 | after insertion, the members are the old ones plus the index |
| Selection.InsertSortedSorted | app/page.tsx:59 | insertion into an ascending list keeps it ascending |
| Selection.SortAscSpec | app/page.tsx:59 | the numeric sort returns an ascending permutation of its input |
| Selection.SortAscOfSorted | app/page.tsx:66 | sorting an ascending list returns it unchanged |
| Selection.SortedCopy | app/page.tsx:66 | the save handler's sorted copy is an ascending permutation of the selection, and equal to it when the selection is already ascending |
| Selection.InsertSortedStrict | app/page.tsx:59 | inserting a new index into a duplicate-free ascending list keeps it duplicate-free and ascending |
| Selection.Without | app/page.tsx:59 | `filter((i) => i !== idx)` keeps exactly the other members and keeps a strictly ascending list strictly ascending |
| Selection.AddIsInsert | app/page.tsx:59 | appending then re-sorting a strictly ascending selection is insertion at the right place |
| Selection.ToggleSpec | app/page.tsx:57-61 | a click flips exactly the clicked index's membership and keeps the selection strictly ascending |
| Selection.InsertWithout | app/page.tsx:59 | removing a selected index and inserting it again restores the selection |
| Selection.WithoutInsert | app/page.tsx:59 | inserting an unselected index and removing it again restores the selection |
| Selection.ToggleTwice | app/page.tsx:57-61 | clicking the same word twice restores the selection |
| Labels.RemoveAt | app/page.tsx:84 | deletes exactly the k-th label and keeps the rest in order; an out-of-range k changes nothing |
| Labels.AppendKeepsWellFormed | app/page.tsx:69-76 | appending a new label that overlaps no existing label keeps the list saved and pairwise disjoint |
| Labels.RemoveKeepsSaved | app/page.tsx:82-87 | removal keeps every remaining label a saved one |
| Labels.RemoveKeepsDisjoint | app/page.tsx:82-87 | removal keeps the remaining labels pairwise disjoint |
| Labels.RemoveKeepsWellFormed | app/page.tsx:82-87 | removal keeps the list well formed |
| Labels.ReplaceAt | app/page.tsx:74-76 | `labels.map((arr, i) => i === currentIdx ? ... : arr)` replaces the current list only and keeps the number of lists |
| Labels.ReplaceKeepsWellFormed | app/page.tsx:74-76 | replacing one list by a well-formed one keeps every list well formed |
| Labels.SavedSpanMatchesText | app/page.tsx:67-73 | on a single-spaced text, a saved label over consecutive words has `0 <= start < end <= text.length` and `text[start..end)` is the label's text |
| Labels.DoubleSpaceShiftsRange | app/page.tsx:36-39 | with two spaces before the selected word, the recorded range `[2, 3)` of `b` in `a  b` holds a space, not the label text |
| CsvImport.NonEmpty | app/page.tsx:125 | `filter(Boolean)` keeps exactly the non-empty lines, never more lines than given |
| CsvImport.NonEmptyAll | app/page.tsx:125 | a list of non-empty lines is kept whole |
| CsvImport.NonEmptyConcat | app/page.tsx:125 | `filter(Boolean)` keeps order and every copy: filtering two blocks of lines is filtering each and concatenating |
| CsvImport.SplitLines | app/page.tsx:125 | `split(/\r?\n/)` always yields at least one line |
| CsvImport.SplitLinesCrlf | app/page.tsx:125 | lines without line feeds joined by carriage return and line feed split back into exactly those lines, whatever characters they end in |
| CsvImport.CrlfLines | app/page.tsx:125 | non-empty lines joined by carriage return and line feed, with or without a line end after the last line, read back as exactly those lines, in order |
| CsvImport.FindTextColumn | app/page.tsx:130-131 | the header check finds the first cell whose trimmed lower-cased value is `text`, and none exactly when no cell is |
| CsvImport.LayoutOf | app/page.tsx:127-133 | with a `text` header cell, that first column is used and line 0 skipped; otherwise column 0 and no line skipped |
| CsvImport.ExtractTexts | app/page.tsx:134-140 | the row loop collects exactly `ColumnTexts` of the data lines |
| CsvImport.ColumnTextsConcat | app/page.tsx:135-140 | rows are handled one at a time: two blocks of rows give the first block's texts followed by the second's |
| CsvImport.ShortRowDropped | app/page.tsx:137 | a row with at most `textColIdx` cells adds no text |
| CsvImport.ColumnTextsAllRows | app/page.tsx:135-139 | when every row is long enough, there is one text per row, the row's cell with its quotes stripped |
| CsvImport.StripQuote | app/page.tsx:138 | stripping quotes from a quoted cell gives the cell's content back |
| CsvImport.StripQuotesUnquoted | app/page.tsx:138 | a cell that neither starts nor ends with a double quote is kept as it is |
| CsvImport.StripQuotesOnce | app/page.tsx:138 | only one quote goes at each end: a cell in doubled quotes keeps one quote at each end |
| CsvImport.LinesOfQuotedColumn | app/page.tsx:125 | a header and quoted rows without line feeds split into exactly those lines |
| CsvImport.HeaderTextLayout | app/page.tsx:129-133 | the header `text` selects column 0 and skips line 0 |
| CsvImport.ColumnOfQuotedRows | app/page.tsx:134-140 | quoted rows without commas yield their texts, in order |
| CsvImport.ImportQuotedColumn | app/page.tsx:123-143 | a header `text` over quoted rows without commas or line feeds imports as exactly those texts, in order |
| CsvImport.ImportExample | app/page.tsx:123-143 | a file with header `text` and rows `"Phim rất hay"`, `"Tôi không thích"` imports as those two texts |
| Export.ExportLabel | app/page.tsx:152-167 | role and text are copied; a stored range is kept when both ends are present, otherwise the range is recomputed from the re-tokenized text |
| Export.ExportData | app/page.tsx:151-170 | exactly one entry per text, in order, each holding that text and its labels mapped in order |
| Export.FallbackAgrees | app/page.tsx:153-161 | for well-formed lists the recomputed range agrees with the stored one: dropping every stored range exports the same data |
| Export.ExportedSpansMatch | app/page.tsx:151-170 | on a single-spaced text, an exported label over consecutive words cuts its own text out of the entry's text |
| Export.PhimLabel | app/page.tsx:64-76 | word 0 of `Phim rất hay` saved as OPINION is the label `Phim` over `[0, 4)` |
| Export.ExportExample | app/page.tsx:151-170 | those texts with that label export as `{Phim rất hay, [{OPINION, Phim, 0, 4}]}` and `{Tôi không thích, []}` |
| Annotation.Session.constructor | app/page.tsx:45-49 | the session starts on the three sample texts, with empty label lists, cursor 0, no selection and role ASPECT |
| Annotation.Session.ToggleWord | app/page.tsx:57-61 | a click toggles the word in the selection and keeps the selection strictly ascending |
| Annotation.Session.SetRole | app/page.tsx:278 | the role selector sets the pending role |
| Annotation.Session.SaveLabel | app/page.tsx:64-79 | empty selection, or a selected word already in a label of the current text: nothing changes. Otherwise one label is appended to the current list only, built from the sorted selection and the role, with its range; the selection is cleared and the lists stay well formed |
| Annotation.Session.RemoveLabel | app/page.tsx:82-87 | only the current list changes, losing exactly its k-th label; the number of lists is kept |
| Annotation.Session.ResetLabels | app/page.tsx:90-94 | only the current list is emptied and the selection cleared; the new state does not depend on the old list or selection, so a repeat changes nothing |
| Annotation.Session.Separate | app/page.tsx:102-104 | the selection is cleared |
| Annotation.Session.Prev | app/page.tsx:107-110 | the cursor moves back one, stays at 0, and the selection is cleared |
| Annotation.Session.Next | app/page.tsx:111-114 | the cursor moves on one, stays at the last text (-1 on an empty list), and the selection is cleared |
| Annotation.Session.Upload | app/page.tsx:123-143 | with no non-empty line nothing changes. Otherwise the texts become `ParseTexts` of the content, each with an empty label list, and the cursor is 0 |

## Left out

- Rendering is not modelled. This covers the JSX, the role colour map, the disabled states of the navigation buttons and `renderSentenceWithLabels`. They are presentation only, and the handlers clamp the cursor on their own.
- Browser I/O is not modelled. This covers the file picker guard of `handleUpload`, `FileReader`, `Blob`, object URLs, the download link and `JSON.stringify`. The uploaded file enters as a string parameter, and the export is a datatype value rather than JSON text.
- React state and the asynchronous `onload` boundary are not modelled. Each handler is one synchronous method on the session.
- `handleCombine` is left out because it does nothing. The role descriptions are display text, so roles are an enumeration.
- The page stores a role as a string. The model uses the eight-value enumeration, which is all the role selector offers.
- Strings are sequences of Unicode scalar values, not UTF-16 code units. Lengths and offsets differ from the page for characters outside the Basic Multilingual Plane.
- The regular expressions are modelled by their effect. `/[^\s]+/g` becomes maximal runs outside the `\s` set, and `/\r?\n/` becomes a split on a line feed that drops one carriage return before it.
- `toLowerCase` is modelled on ASCII letters only. No other character lower-cases to `t`, `e` or `x`, so the header comparison with `text` has the same result.
- Strings.LowerAscii: its contract only describes the ASCII lowering, the part the header check depends on.
- Annotation.Session.SaveLabel: returns an outcome (saved, rejected as empty, rejected as overlapping) that the page does not return. The state changes are the page's.
- Annotation.Session.Upload: states the new session in terms of `ParseTexts`. The lemmas in `CsvImport` give that function its meaning rather than the method's own contract.
