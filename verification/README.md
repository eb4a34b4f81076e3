# Timesheet: CSV codec and entry-list transitions in Dafny

This project models the core of a single-page timesheet (`app.js`). A
timesheet entry is a date, a project, a number of hours and a note. The
model covers:

- the CSV writer `toCSV`;
- the reader `fromCSV` with its quote-aware line splitter `parseCSVLine`;
- the `parseFloat` reading of the hours, and the acceptance test applied
  to every entry;
- the transitions on the in-memory state: submitting the form, resetting
  it, starting an edit, importing a document, clearing everything and
  deleting one entry;
- `escapeHtml`, used when entries are shown.

Modules:

- `Wrappers`: `Option` and `Somes`, the present values of a list of
  options, with the order-preserving selection it makes.
- `Text`: the string operations the code calls: `trim`, ASCII
  `toLowerCase`, `split` on one character, `join` and `replaceAll`.
- `Numbers`: JavaScript numbers (NaN, exact finite decimals, the two
  infinities), `parseFloat`, `x || 0` and `x > 0`.
- `Entries`: the entry record and the acceptance test.
- `CsvLine`: `parseCSVLine`; an independent token-and-cut reading of a
  line; the quoting `esc` of `toCSV`; the row round trip.
- `Csv`: `toCSV` and `fromCSV`: the line split, the header lookup, the
  entry built from the cells of one data line (`RowItem`, app.js:43-49),
  the acceptance of that entry (`DecodeRow`, app.js:50) and what the reader
  keeps. Line breaks are a parameter: `AsWritten` is what `app.js` does,
  `Newline` is the evident intent.
- `CsvDocument`: whole documents: the export/import round trip with real
  line breaks, and its failure as written.
- `Timesheet`: the session state (entries plus the position being edited)
  and the transitions on it.
- `Html`: `escapeHtml`, a character-by-character reference reading of it,
  and its inverse.

`toCSV` joins its lines with the two characters backslash and `n`
(app.js:27), and `fromCSV` splits where a backslash, an optional `r`, a
backslash and an `n` occur (app.js:31). The evident intent is a line
feed, split at `\r\n` or `\n`. Both readings are modelled; see
Findings.

## Model

| member | source | states |
|---|---|---|
| Text.Trim | app.js:66 | the result has no whitespace at either end, is obtained from the input by removing only leading and trailing whitespace, and text already trimmed is returned unchanged |
| Text.TrimStart | app.js:102 | the result is a suffix of the input, everything dropped is whitespace, and the result does not start with whitespace |
| Text.ToLower | app.js:33 | same length, each character lower-cased on its own (ASCII letters only) |
| Text.Split | app.js:34 | at least one piece, no piece holds the separator, and the pieces joined with the separator give back the input |
| Text.SplitJoin | app.js:22-34 | splitting a join undoes it when no part holds the separator (the header written at line 22 is split again at line 34) |
| Text.ReplaceAllAppend | app.js:24 | replacing every occurrence of a character commutes with concatenation |
| Text.ReplaceAllChars | app.js:221 | every character of the result comes from the replacement or is a character of the input other than the one replaced |
| Numbers.OrZero | app.js:47 | `x \|\| 0` is never NaN, keeps every number other than NaN and zero (negative numbers and the infinities included), gives 0 otherwise, and is positive exactly when `x` is |
| Numbers.ParseFloat | app.js:102 | after leading whitespace, text starting with a digit reads as a finite number, and text starting with none of digit, point, sign or `I` reads as NaN |
| Numbers.ParseFloatDigits | app.js:47 | a string of decimal digits reads as the integer it spells |
| Numbers.ParseFloatDecimal | app.js:47 | `whole.fraction` reads as the digits of both scaled down by the length of the fraction |
| Numbers.ParseFloatZero | app.js:47 | the default cell `'0'` reads as zero |
| Entries.AllAcceptableAppend | app.js:142 | concatenating two lists of acceptable entries gives a list of acceptable entries |
| CsvLine.ParseLine | app.js:54-67 | a line yields at least one cell, every cell trimmed |
| CsvLine.Scan | app.js:55-65 | the loop of parseCSVLine keeps the cells already finished as a prefix and ends with at least one more (its full meaning is `ScanIsCutOfLex`) |
| CsvLine.ScanIsCutOfLex | app.js:56-65 | the character loop of parseCSVLine produces exactly the pieces between the separating commas of the independent token reading of the line |
| CsvLine.ParseLineCount | app.js:61-65 | a line yields one cell more than it has commas outside quoted spans |
| CsvLine.ParseLineUnquoted | app.js:54-67 | a line without quotes is read as a plain comma split, each piece trimmed |
| CsvLine.ParseLineDropsLoneQuotes | app.js:58-60 | in a line with no two adjacent quotes, no cell holds a quote: each quote only opens or closes a span |
| CsvLine.Quote | app.js:24 | the quoted text starts and ends with a quote |
| CsvLine.ScanInsideQuotes | app.js:58-60 | inside a quoted span, a text with its quotes doubled as `esc` (line 24) writes it followed by the closing quote is read as the text itself and the span is closed |
| CsvLine.ScanBare | app.js:63 | a bare cell without quote or comma is read character by character into the current cell |
| CsvLine.RowRoundTrip | app.js:54-67 | parseCSVLine of the comma-join of written cells (quoted, or bare without quote or comma) gives back each cell's text, trimmed |
| Csv.BreakAt | app.js:31 | a length of at most the text's; when it is not zero, the text starts with one of the separators of the pattern, `Separators` (that each separator is matched whole is `CsvDocument.BreakAtSeparator`) |
| Csv.SplitLinesFrom | app.js:31 | the split yields at least one line, the first line continues the line read so far, and with real line breaks no line holds a line feed |
| Csv.SplitLines | app.js:31 | `text.split` with the line-break pattern yields at least one line, and with real line breaks none holds a line feed |
| Csv.HeaderNames | app.js:33-34 | the header yields at least one column name, each trimmed and free of commas |
| Csv.HeaderNamesOfParts | app.js:33-34 | a header of comma-free parts yields one name per part, in order, each the part lower-cased and then trimmed |
| Csv.HeaderMatched | app.js:33-40 | a header whose four parts lower-case and trim to `date`, `project`, `hours`, `note` (whatever their case and surrounding spaces) locates the columns at 0 to 3 |
| Csv.IndexOf | app.js:35-40 | the first position of the name, or -1 exactly when the name is absent |
| Csv.ToCSV | app.js:20-28 | the document starts with the header line |
| Csv.ToCSVPushes | app.js:21-27 | for either kind of line break, no entries give the header alone, and one more entry appends the joining text and that entry's row: the push loop of lines 23-26 followed by the join at line 27 |
| Csv.NonEmpty | app.js:31 | filter(Boolean): a line is kept exactly when it is in the input and not empty, and the result is no longer than the input (order: `NonEmptyAppend`) |
| Csv.DecodeRows | app.js:41-52 | at most one entry per data line, and every entry read passes the acceptance test |
| Csv.FromLines | app.js:31-53 | only acceptable entries; nothing when there is no data line; at most one entry per non-empty data line |
| Csv.FromCSV | app.js:29-53 | every entry read passes the acceptance test (date and project non-empty, hours above zero) |
| Csv.HeaderColumns | app.js:33-40 | the header toCSV writes (line 22) locates date, project, hours and note at columns 0 to 3 |
| Csv.DecodeEncodedRow | app.js:43-50 | the row written (line 25) for an exportable entry is read back, under the written header, as that entry |
| Csv.DecodeEncodedRows | app.js:41-52 | the rows written (lines 23-26) for exportable entries are read back as exactly those entries, in order |
| Csv.DecodeRowsSelects | app.js:41-52 | the entries read are an order-preserving selection of the data lines: each comes from a named line whose decoding it is, the lines are named in increasing order, and every line that decodes to an entry is named |
| Csv.CellAt | app.js:45-48 | `cells[k] \|\| ''`: the cell at a position inside the row, and the empty text for a position outside it (a missing column, -1, or a row too short) |
| Csv.ShortRowDropped | app.js:44-50 | a data line with too few cells to reach the date, project or hours column yields no entry |
| Csv.MissingColumnDropsRow | app.js:44-50 | when the header lacks the date, project or hours column, no data line yields an entry |
| Csv.MissingNoteReadsEmpty | app.js:48 | without a note column every entry read has an empty note |
| Csv.ColumnOrderIrrelevant | app.js:34-49 | reordering the header names and the cells of a row the same way describes the same entry, when no recognised name occurs twice |
| Csv.BlankLineIgnored | app.js:31 | an empty line anywhere in the document changes nothing read |
| Csv.EmptyText | app.js:31-32 | the empty document reads as no entries |
| CsvDocument.RowAvoids | app.js:24-25 | a character other than quote and comma appears in a written row only if it appears in one of the entry's texts |
| CsvDocument.BreakAtSeparator | app.js:31 | each separator of either pattern (as written: backslash, backslash, `n` or backslash, `r`, backslash, `n`) is matched at the start of a text as one whole line break |
| CsvDocument.SplitJoinedLines | app.js:31 | for either pattern and any separator it matches, splitting undoes joining when no line holds a character a line break starts with (a backslash as written; a line feed or carriage return otherwise) |
| CsvDocument.LinesArePlain | app.js:22-25 | the lines written for exportable entries are non-empty and hold no line-break character |
| CsvDocument.ExportImportRoundTrip | app.js:20-53 | with real line breaks, reading what toCSV wrote gives back exactly the entries written, in order |
| CsvDocument.SplitsIntoOneLine | app.js:27-31 | as written, the exported document of backslash-free entries splits into one single line |
| CsvDocument.ExportImportAsWrittenLosesAll | app.js:27-33 | as written, reading what toCSV wrote gives no entry at all, for entries without backslashes |
| Timesheet.FormEntry | app.js:99-104 | the date as typed, the project and the note as typed with surrounding whitespace trimmed, the hours through parseFloat |
| Timesheet.Submit | app.js:97-116 | a rejected entry changes nothing; an accepted one replaces the entry being edited and keeps all others and the length, or is appended when no edit is open (or the edit is one past the end); the edit ends |
| Timesheet.SubmitValid | app.js:105-112 | submitting keeps the edit position in range and every stored entry acceptable |
| Timesheet.ResetForm | app.js:118-122 | the edit ends, the entries are kept |
| Timesheet.BeginEdit | app.js:199-201 | the edit names the chosen stored entry, the entries are kept |
| Timesheet.Import | app.js:140-142 | the stored entries are kept as a prefix, the entries read follow them, the edit position is kept, and a document with nothing acceptable changes nothing |
| Timesheet.ImportValid | app.js:140-142 | importing keeps the state valid |
| Timesheet.ClearAllAsWritten | app.js:154-159 | unconfirmed nothing changes; confirmed the list is empty and the edit position is kept |
| Timesheet.ClearAll | app.js:154-159 | the corrected clear-all (see Findings; app.js:156 keeps the edit position): unconfirmed nothing changes; confirmed the list is empty, the edit ends, and validity is kept |
| Timesheet.RemoveAt | app.js:209 | one entry fewer; entries before the position kept, later ones moved down by one; the same multiset less the removed entry |
| Timesheet.DeleteAsWritten | app.js:207-213 | unconfirmed nothing changes; confirmed the entry is removed and the edit position is kept as it was |
| Timesheet.DeleteAsWrittenValid | app.js:207-213 | as written, deleting keeps the state valid exactly when no edit is open or the edit is not at the last position |
| Timesheet.Follow | app.js:209 | the correction the delete needs (see Findings; app.js:209 leaves the edit position as it was): the edit of the removed entry ends, edits before it stay, edits after it move down by one |
| Timesheet.Delete | app.js:207-213 | the corrected delete (see Findings; app.js:209 only removes the entry): unconfirmed nothing changes; confirmed the entry is removed and the edit follows its entry |
| Timesheet.DeleteValid | app.js:207-213 | the corrected delete keeps the state valid, and a surviving edit still names the entry it named before |
| Timesheet.StaleEditOverwrites | app.js:107-109 | as written, editing the first of two entries (line 201), deleting it (line 209) and submitting leaves only the submitted entry: the second entry is overwritten |
| Timesheet.FollowedEditKeepsOthers | app.js:207-212 | with the corrected delete the same steps keep the second entry and append the submitted one |
| Timesheet.ClearAllAsWrittenBreaksEdit | app.js:156 | as written, clearing during an edit leaves an edit position outside the list; the corrected clear does not |
| Timesheet.ImportOwnExportAsWritten | app.js:124-142 | as written, importing the page's own export changes nothing, when no stored entry and no printed number holds a backslash |
| Timesheet.ImportOwnExport | app.js:124-142 | with real line breaks, importing the page's own export appends a copy of every stored entry, when every stored entry is exportable: acceptable, its texts trimmed and free of line breaks, its hours printed as trimmed text without quote, comma or line break that parseFloat reads back as the same number |
| Html.EscapeHtml | app.js:221 | the result holds no angle bracket, and text with none of the three characters is unchanged |
| Html.EscapeHtmlAppend | app.js:221 | escaping commutes with concatenation |
| Html.EscapeHtmlIsEach | app.js:221 | the three replacements in a row, ampersand first, equal escaping each character on its own |
| Html.UnescapeEscapeHtml | app.js:221 | escaping loses nothing: reading the three entities back gives the original text |

## Left out

- Loading and saving (`localStorage`, JSON): the state is in memory; every change to the entries is followed by a save in the code.
- The export download and the file reading of the import: `toCSV` and `fromCSV` are modelled on the text itself; the empty file selection and the alerts are user interface only.
- `formatDate` (app.js:13): it depends on the date parsing of JavaScript `Date`. It also fills the date input when an edit starts (app.js:202) and when the page loads and the form resets (app.js:76, 120), and a submit stores that text (app.js:100). The `Form` parameter of `Timesheet.Submit` stands for whatever the inputs hold, including this prefilled text, so re-submitting an unchanged edit can store a reformatted date (or an empty one, which is rejected) without the model saying which.
- The date filter and the sort of `render`, the summary total and the charts: they display data and do not change it.
- The DOM, `alert` and `confirm`: the answer to `confirm` is a boolean parameter of the clear and delete transitions.
- The mapping from a displayed row to its stored position (`findIndex` at app.js:199): `BeginEdit` and the delete transitions take the stored position directly.
- Numbers.ParseFloat: values are exact decimals; rounding to double precision, overflow to infinity, underflow to zero and the `-0` sign are not modelled. In particular `parseFloat("1e-400")` is 0 in JavaScript, so such an hours cell drops its row at app.js:50, while the model reads a positive value and keeps the row.
- Text.Trim: whitespace is the ASCII space, tab, line feed, vertical tab, form feed and carriage return; the other Unicode spaces `trim` removes are not modelled.
- Text.TrimStart: the leading skip of parseFloat (app.js:102, 47) drops only the ASCII whitespace of `Text.Trim`; JavaScript also skips the other white-space and line-terminator characters (no-break space, byte order mark, line and paragraph separators, the Unicode space separators).
- Text.ToLower: only ASCII letters are lower-cased.
- Csv.ToCSV: the printing of a number (`String(hours)`) is a parameter `show`; the round-trip lemmas assume it prints trimmed text without quote, comma or line break that `parseFloat` reads back as the same number.
- Timesheet.Submit: requires an edit position at most one past the last entry; an assignment further past the end, which leaves holes in a JavaScript array, is not modelled.
- CsvDocument.ExportImportRoundTrip: holds for exportable entries only: texts already trimmed, with no line break, and a date, a project and hours above zero, because the reader trims every cell and drops unacceptable rows.
- CsvDocument.ExportImportAsWrittenLosesAll: stated for entries without backslashes, since a backslash in a text could form the split pattern.
- Csv.ColumnOrderIrrelevant: requires each recognised column name to occur at most once in the header, since `indexOf` takes the first occurrence.
- Timesheet.BeginEdit: filling the form inputs with the entry's values is user interface only.

## Findings

| source | as written | input that shows it | evidently intended | confidence | as-written member | corrected member |
|---|---|---|---|---|---|---|
| app.js:27,31 | toCSV joins lines with the two characters backslash and `n`; fromCSV splits at a backslash, an optional `r`, a backslash and an `n` | export any list of entries without backslashes, then import the file | lines joined with a line feed and split at `\r\n` or `\n`, so an export imports back as the same entries | high (not executed) | CsvDocument.ExportImportAsWrittenLosesAll | CsvDocument.ExportImportRoundTrip |
| app.js:156,209 | deleting an entry or clearing the list keeps `editingIndex` as it was | entries `[a, b]`; edit `a`; delete `a`; submit the form: `b` is overwritten and the list holds only the submitted entry | the edit follows its entry: it ends when that entry is removed, and later positions move down by one | high (not executed) | Timesheet.StaleEditOverwrites, Timesheet.ClearAllAsWrittenBreaksEdit | Timesheet.Delete, Timesheet.ClearAll, Timesheet.FollowedEditKeepsOthers, Timesheet.DeleteValid |
