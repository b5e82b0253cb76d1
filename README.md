# CSV sample preview of the ASTRAI web site, in Dafny

The home page of the site shows resource cards. A card's "sample" button
fetches a CSV file and previews it as a small table. This project models the
logic of that preview in `assets/js/main.js`:

- `parseCSV` is a one-pass scanner. It guesses the delimiter (`;` or `,`)
  from the first line. It then runs a two-mode state machine over the text,
  inside or outside double quotes, and understands doubled quotes.
- `clampRows` keeps the header and the first data rows.
- `clampCols` keeps the first fields of every row.
- The click handler parses the fetched text and reports "No data in
  sample." for an empty result. Otherwise it clamps to 5 data rows and
  12 columns, and `renderTable` lays the rows out as a header and a body.

Modules:

- `Text` (`text.dfy`): JavaScript's one-character `split`, and counting,
  joining and removing characters, with the facts about them that the
  proofs use.
- `CsvParser` (`csv_parser.dfy`): the scanner.
  - The scanner state is a datatype.
  - `Step`, `Finish` and `Run` give the loop's behaviour as functions, and
    `Parse` is `parseCSV` as a function.
  - `ParseCSV` is the loop itself, a method proved equal to `Parse`.
- `CsvLemmas` (`csv_lemmas.dfy`): what `Parse` does. It covers the delimiter
  choice, the shape of every result, an exact description of quote-free
  input, unterminated quotes, and when the result is empty.
- `CsvQuoting` (`csv_quoting.dfy`): quoted fields. A table written with every
  field quoted and every `"` doubled is parsed back to itself.
- `Clamp` (`clamp.dfy`): the two clamps. They follow `Array.prototype.slice`,
  so negative and too-large bounds behave as in JavaScript.
- `SamplePreview` (`preview.dfy`): the handler's pipeline, from the fetch
  outcome to what the sample box shows.

`parseCSV` drops a carriage return only outside quotes. Inside a quoted
field it is kept (`CsvLemmas.UnterminatedQuote`, `CsvQuoting.EscapedRun`; the
input `"\r` is worked out in `CsvLemmas.QuotedCarriageReturnKept`).

## Model

| member | source | states |
|---|---|---|
| Text.Split | assets/js/main.js:47 | `firstLine.split(c)` for a one-character separator always has at least one piece |
| Text.SplitLength | assets/js/main.js:47 | the number of pieces of `split(c)` is one more than the number of `c` characters, so line 47 compares character counts |
| Text.JoinSplit | assets/js/main.js:47 | joining the pieces of a split with the separator gives back the string, so nothing is lost by splitting |
| Text.SplitJoin | assets/js/main.js:47 | splitting a join of separator-free pieces gives back exactly those pieces |
| Text.SplitSnoc | assets/js/main.js:47 | appending a character either opens a new empty last piece (the separator) or extends the last piece |
| Text.SplitPiecesFree | assets/js/main.js:47 | no piece of a split contains the separator |
| CsvParser.FirstLine | assets/js/main.js:46 | `text.split(/\r?\n/)[0]` is a prefix of the text with no line feed, which ends at the first line feed or at a `\r\n`, and is the whole text when there is no line feed |
| CsvParser.Delimiter | assets/js/main.js:47 | the sniffed delimiter is always `;` or `,` |
| CsvParser.Init | assets/js/main.js:49-50 | the loop starts at position 0, outside quotes, with nothing pending, so an empty text flushes no row |
| CsvParser.Step | assets/js/main.js:52-66 | one loop iteration moves forward by one or two characters and never drops a finished row |
| CsvParser.Finish | assets/js/main.js:68 | the flush keeps the finished rows and adds one more exactly when a field or a row is pending; that row is the pending row followed by the pending field |
| CsvParser.Run | assets/js/main.js:52-68 | the loop from a given state, then the flush: the rows already finished are kept as the start of the result |
| CsvParser.Parse | assets/js/main.js:45-70 | what `parseCSV(text)` returns: the loop run from `Init` with the sniffed delimiter. It has no contract of its own; its properties are the `CsvLemmas` and `CsvQuoting` rows |
| CsvParser.ParseCSV | assets/js/main.js:45-70 | the scanning loop, with its invariant that resuming from the current state yields the parse of the whole text, returns `Parse(text)` and terminates on every input |
| CsvLemmas.DelimiterChoice | assets/js/main.js:46-47 | `;` is chosen exactly when the first line has strictly more `;` than `,`, quoted or not; ties and everything else give `,` |
| CsvLemmas.FirstLineCounts | assets/js/main.js:46 | those counts are the counts in the raw text before the first line feed; the dropped `\r` changes neither |
| CsvLemmas.ParseRowsNonEmpty | assets/js/main.js:52-69 | every parsed row has at least one field, and the empty text parses to the empty table |
| CsvLemmas.RunRowsNonEmpty | assets/js/main.js:62-68 | from any state whose rows are non-empty, every row pushed later is non-empty too |
| CsvLemmas.ParseNonEmpty | assets/js/main.js:60-68 | a text holding any character other than `"` and `\r` parses to at least one row |
| CsvLemmas.RunPending | assets/js/main.js:68 | once anything is pending or finished, the result is not empty |
| CsvLemmas.SplitTable | assets/js/main.js:62-63 | the reference reading of quote-free text (lines split on `\n`, a trailing empty line dropped, each line split on the delimiter) has at least one field per row |
| CsvLemmas.QuoteFreeStep | assets/js/main.js:61-65 | outside quotes, each character keeps the scanner state in step with the lines read so far, carriage returns removed |
| CsvLemmas.MirrorsAppend | assets/js/main.js:62-65 | a delimiter ends the field, a line feed ends the row, and any other character extends the field, exactly as in the split reading |
| CsvLemmas.MirrorsFinish | assets/js/main.js:68 | at the end of quote-free input, the flush gives the split reading, and a last empty line adds no row |
| CsvLemmas.QuoteFreeRun | assets/js/main.js:52-68 | from a state in step with the text read so far, the rest of a quote-free text is read as the split reading |
| CsvLemmas.ParseQuoteFree | assets/js/main.js:45-70 | a text without `"` parses to its lines split on the sniffed delimiter, after every `\r` is removed |
| CsvLemmas.ParsePlain | assets/js/main.js:45-70 | a text without `"` and `\r` parses to its lines, each split on the sniffed delimiter |
| CsvLemmas.QuoteFreeNoCarriageReturn | assets/js/main.js:64 | outside quotes `\r` is discarded, so no field of a quote-free text holds one |
| CsvLemmas.UnterminatedQuote | assets/js/main.js:54-59 | inside quotes with no `"` left, the rest of the text goes into the field verbatim (delimiters, `\n` and `\r` included) and is flushed |
| CsvLemmas.ParseUnterminated | assets/js/main.js:54-68 | a text that starts with a `"` that is never closed, followed by a non-empty rest, parses to one row whose one field is that rest, and nothing fails; a lone `"` gives the empty table |
| CsvLemmas.QuotedCarriageReturnKept | assets/js/main.js:58 | example: the input `"\r` (an unclosed quote, then a carriage return) parses to one row whose one field is `\r` |
| CsvLemmas.ExampleTwoLines | assets/js/main.js:45-70 | `"a,b\n1,2"` parses to `[["a","b"],["1","2"]]` |
| CsvQuoting.ExampleDoubledQuote | assets/js/main.js:54-68 | `a,"b""c"` parses to one row of the fields `a` and `b"c` |
| CsvQuoting.EscapeChar | assets/js/main.js:55-56 | the writer-side encoding that lines 55-56 read back: a written field character starts with that character and is two long exactly for `"` |
| CsvQuoting.EscapedCharStep | assets/js/main.js:55-58 | inside quotes, `""` adds one `"` to the field and any other character adds itself |
| CsvQuoting.EscapedRun | assets/js/main.js:54-58 | inside quotes, an escaped field is read character by character into the field, `""` becoming `"`, up to its closing quote |
| CsvQuoting.QuotedFieldRun | assets/js/main.js:54-61 | a quoted field, opened and closed, adds exactly its contents to the field |
| CsvQuoting.QuotedRowRun | assets/js/main.js:54-62 | a row of quoted fields separated by the delimiter pushes all but its last field in order, and leaves the last as the field in progress |
| CsvQuoting.SerializedRun | assets/js/main.js:52-68 | a text of quoted rows separated by `\n` appends exactly those rows, when its last row is not one empty field |
| CsvQuoting.ParseSerialize | assets/js/main.js:45-70 | round trip: a table written with every field quoted parses back to itself, when sniffing picks its delimiter and its last row is not one empty field |
| Clamp.SliceIndex | assets/js/main.js:74 | a `slice` bound resolves into `0..len`: a non-negative bound is capped at the length, and a negative one counts back from the end |
| Clamp.Slice | assets/js/main.js:74 | `slice` gives the elements from the resolved start to the resolved end, in order, and none when the end is not past the start |
| Clamp.ClampRows | assets/js/main.js:72-75 | the empty table is returned as is; otherwise the result is a prefix keeping the header, of length `1 + min(n, rows - 1)` for `n >= 0` (a negative `n` drops rows from the end, as `slice` does) |
| Clamp.ClampCols | assets/js/main.js:77-80 | an empty table or a non-positive count returns the input; otherwise the row count is kept and each row becomes its prefix of length `min(m, fields)` |
| Clamp.ClampRowsIdempotent | assets/js/main.js:72-75 | clamping the rows twice with the same non-negative count is clamping once (a negative count drops more rows each time) |
| Clamp.ClampColsIdempotent | assets/js/main.js:77-80 | clamping the columns twice with the same count is clamping once |
| Clamp.ClampsCommute | assets/js/main.js:140-141 | the two clamps commute, so the handler's order does not matter |
| SamplePreview.Render | assets/js/main.js:85-87 | `renderTable` makes an empty table exactly for no rows; otherwise the header followed by the body is the input |
| SamplePreview.Clamped | assets/js/main.js:107-108 | with `MAX_ROWS = 5` and `MAX_COLS = 12`, a parsed table keeps at most 6 rows of 1 to 12 fields, each a prefix of its parsed row |
| SamplePreview.Preview | assets/js/main.js:129-147 | no URL shows "Sample not available.", a failed fetch shows "Could not load sample.", and a body shows "No data in sample." exactly when it parses to no rows |
| SamplePreview.PreviewBounds | assets/js/main.js:136-144 | a shown preview has a header and `min(rows - 1, 5)` body rows, each exactly the first `min(fields, 12)` cells of its parsed row (1 to 12 cells) |
| SamplePreview.PreviewShown | assets/js/main.js:136-137 | a body with any character other than `"` and `\r` is shown as a table |
| SamplePreview.PreviewNoData | assets/js/main.js:137 | the empty body and the body `""` both show "No data in sample." |

## Left out

- DOM work is not modelled: element creation in `renderTable` (assets/js/main.js:83-103), the `open`/`aria-expanded` toggling, the overlay classes, and the smooth-scroll handlers (assets/js/main.js:10-30 and asets/js/main.js). Only the header/body split of `renderTable` is modelled.
- The fetch and its promises are not modelled. Their outcome is the parameter `SamplePreview.Fetched`. A non-`ok` response and a network error are both `Failed`, as both end in the `catch`.
- The `dataset.loaded` flag (assets/js/main.js:128, 145) is not modelled. It is set only after a successful render, so a failed load is tried again on the next open. That state lives in the DOM across clicks.
- The e-mail link obfuscation (assets/js/main.js:187-194) is not modelled. It is a constant string assignment.
- JavaScript strings are sequences of UTF-16 code units. Here a string is a sequence of `char`, and the scanner reads one `char` at a time.
- Clamp.ClampRows and Clamp.ClampCols take integer limits. `NaN`, `undefined` and fractional limits are not modelled. For an integer, `!maxCols` is `maxCols == 0`, which `maxCols <= 0` already covers.
- CsvQuoting.ParseSerialize covers only tables written with every field quoted. It needs two conditions:
  - The delimiter sniffing must pick the delimiter the table was written with.
  - The last row must not be a single empty field. `""` alone leaves nothing pending, so the flush adds no row, as `SamplePreview.PreviewNoData` shows.
