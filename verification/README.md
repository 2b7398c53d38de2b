# ChiiCgrep record extraction, modelled in Dafny

ChiiCgrep reads CSV files and writes the requested columns of each row as
HTML. A row can be kept only when one of its cells contains a search text.
This project models the core of that pipeline in `mian.go`:

- **Column specs.** The `-cols` value is split at commas and each piece is
  trimmed. A piece wrapped in asterisks (`*Mail*`) asks for an emphasised
  column (`columnspecs.dfy`).
- **Header resolution.** Each file's header row becomes a name-to-position
  map; a duplicated name keeps its last position. The requested columns are
  bound to positions of that file, and every name the header lacks is
  reported (`headers.dfy`).
- **Row filter.** An empty search text keeps every row. Otherwise a row is
  kept when some cell contains the text as a literal, case-sensitive
  substring (`rowfilter.dfy`).
- **Row loop and line numbers.** The first data row is line 2. Every read
  attempt advances the line number, including one that fails to parse. A
  parse fault is logged and the row skipped; a row failing the filter is
  skipped silently (`process.dfy`).
- **Record rendering.** A kept row becomes a `<div class="record">` block:
  a file-info line with the escaped path and the line number, then one
  `data-item` line per resolved column whose position lies inside the row
  (`render.dfy`). The exact HTML text is modelled. A parser of that text is
  proved to recover the block, so no escaped path, name or cell can be
  mistaken for markup.
- **File outcome.** An unopenable file or an unreadable header is an error
  for that file. An empty file gives nothing. A file where no requested
  column resolves is skipped with a warning (`process.dfy`).
- **Input discovery.** A path is CSV input when its lower-cased form ends
  in `.csv` (`discovery.dfy`).

Supporting modules:

- `textops.dfy`: `strings.Split`, `strings.TrimSpace` with Go's Unicode
  white-space set, and `strings.Contains`.
- `html.dfy`: `html.EscapeString`, with an unescaper as its proved inverse.
- `decimal.dfy`: the `%d` rendering of the line number, with its value proved.
- `seqs.dfy`: a subsequence relation, used to state that resolution keeps
  the requested order.
- `wrappers.dfy`: `Option` and `Result`.

Logging is modelled as a list of `Warning` values in each file's report: a
missing column, no matching column, or a parse fault at a line. The CSV
tokenizer is modelled only by what it yields: a `Source` holds the header
and, for each later read, either a record or a parse fault.

Points where the code differs from what a reader might expect, modelled as
the code does it:

- A missing column is reported once per request, not once per name. A name
  requested twice and absent is reported twice (`Process.ProcessTable`).
- The line number counts read attempts, not physical lines. A quoted cell
  spanning several lines still advances it by one.
- Go's CSV reader rejects a record whose field count differs from the
  header's. So every record that reaches rendering is header-wide, and the
  "index beyond the row" guard never drops a column
  (`Process.HeaderWideRecordShowsEveryColumn`). The guard is modelled anyway.
- The emphasis test in `mian.go` compares `len(trimmed) > 1`, a byte length.
  Here it is a character count. The two agree: a text that starts and ends
  with `*` has byte length above 1 exactly when it has at least two
  characters.
- Conditional highlight rules and file tags are not in `mian.go`, so they
  are not modelled.

## Model

| member | source | states |
|---|---|---|
| ColumnSpecs.ParsePiece | mian.go:282-293 | a piece is emphasised exactly when its trimmed text is longer than one character and starts and ends with `*`; the name is then the trimmed text without the two asterisks, otherwise the whole trimmed text |
| ColumnSpecs.ParseColumns | mian.go:279-294 | one spec per comma-separated piece, in order, each parsed on its own |
| ColumnSpecs.FormatParsePiece | mian.go:282-293 | parsing loses only the white space around a piece: writing the spec back gives the trimmed piece |
| ColumnSpecs.ParseFormatSpec | mian.go:282-293 | every spec a user can write survives a format-then-parse round trip, including emphasised names holding spaces or asterisks |
| ColumnSpecs.ParseFormatColumns | mian.go:279-294 | parsing the comma-joined text of a non-empty list of expressible specs gives the same list back |
| ColumnSpecs.UsageExample | mian.go:257 | the documented `氏名,*メール*` asks for `氏名` plain and `メール` emphasised |
| ColumnSpecs.LoneAsterisk | mian.go:283 | a lone `*` is not emphasis; it names a column called `*` |
| TextOps.TrimSpace | mian.go:282 | the result is a contiguous slice of the input with no Unicode white space at either end, and everything cut off is white space |
| TextOps.TrimSpaceOfTrimmed | mian.go:282 | trimming text without white space at its ends changes nothing |
| TextOps.Split | mian.go:280 | at least one piece, no piece holds the separator, and joining the pieces with it gives the input back |
| TextOps.SplitJoin | mian.go:280 | splitting the join of separator-free pieces gives the pieces back |
| TextOps.Contains | mian.go:98 | true exactly when the text occurs at some position of the cell |
| Headers.HeaderIndex | mian.go:53-56 | the map's keys are exactly the header names, each mapped to the last position holding it |
| Headers.Resolve | mian.go:65-76 | the two lists together are as long as the request list; each target's name is a key of the map and the target carries that key's position; no missing name is a key (the exact split is pinned by the four lemmas below) |
| Headers.ResolveKeepsTargetOrder | mian.go:65-72 | the targets' specs are a subsequence of the requested specs |
| Headers.ResolveKeepsMissingOrder | mian.go:66-75 | the missing names are a subsequence of the requested names |
| Headers.ResolveTargetsComplete | mian.go:66-72 | every requested spec whose name is a key becomes a target |
| Headers.ResolveMissingComplete | mian.go:73-75 | every requested spec whose name is not a key is reported missing |
| Headers.ResolveColumns | mian.go:53-76 | each target is a requested spec bound to the last header position of its name; the targets are exactly the specs whose name is a header, and the missing names are exactly the others, both in request order; there is no target exactly when no requested name is a header |
| RowFilter.RowPasses | mian.go:95-106 | the filter decision holds exactly when the search text is empty or occurs as a substring of some cell |
| RowFilter.RowMatches | mian.go:95-106 | the early-exit scan keeps a row exactly when the search text is empty or a substring of some cell |
| Render.RenderItems | mian.go:112-123 | at most one entry per target column; what the entries are is stated by `Render.RenderItemsContents` and the lemmas below |
| Render.RenderItemsContents | mian.go:112-123 | every entry comes from a target column whose position lies inside the row, with its name, cell and emphasis, and every such column gives its entry |
| Render.RenderRecord | mian.go:108-124 | the record carries the file path and the line number, and holds at most one entry per target column; its entries are pinned by `Render.RenderRecordEntries`, and their order and multiplicity by `Render.RenderEmitsColumn` and `Render.RenderSkipsShortRow` |
| Render.RenderRecordEntries | mian.go:108-124 | every entry of a record comes from a target column inside the row, with its name, cell and emphasis; every such column gives its entry; when the row reaches every target position there is exactly one entry per column, at the column's own position |
| Render.RenderItemsAppend | mian.go:112-123 | the entries for two target lists in a row are those of the first followed by those of the second |
| Render.RenderSkipsShortRow | mian.go:113-114 | a column whose position lies beyond the row contributes nothing and does not disturb the others' order |
| Render.RenderEmitsColumn | mian.go:112-122 | a column inside the row contributes exactly its name, cell and emphasis, between the entries before and after it |
| Render.RenderItemsFullRow | mian.go:112-123 | when the row reaches every position there is one entry per column, in column order |
| Render.ClassName | mian.go:117-120 | the class always starts with `data-item` and holds no quote |
| Html.Escape | mian.go:115-116 | escaped text holds no `<`, `>`, `"` or `'` |
| Html.UnescapeEscape | mian.go:115-116 | escaping loses nothing: unescaping recovers the text |
| Html.EscapeInjective | mian.go:115-116 | distinct texts escape to distinct texts |
| Html.EscapeAppend | mian.go:115-116 | escaping a concatenation escapes each part |
| Decimal.NatToString | mian.go:110 | the line number is written as decimal digits without a leading zero whose value is the number |
| Decimal.NatToStringInjective | mian.go:110 | distinct line numbers are written differently |
| Render.ItemLine | mian.go:115-121 | the HTML line of one entry; `Render.ParseItemRoundTrip` states that it reads back to the entry whatever follows it |
| Render.FileInfoLine | mian.go:110 | the file-info line; `Render.ParseFileInfoRoundTrip` states that it reads back to the path and line number |
| Render.BlockText | mian.go:109-124 | the HTML block of a record; `Render.BlockTextRoundTrip` states that it reads back to the record |
| Render.ParseItemRoundTrip | mian.go:117-121 | reading an entry line back recovers the column name, the cell and the emphasis, whatever follows the line |
| Render.ParseItemsRoundTrip | mian.go:112-124 | reading the entry lines up to `</div>` recovers the entries in order |
| Render.ParseFileInfoRoundTrip | mian.go:110 | reading the file-info line back recovers the path and the line number |
| Render.BlockTextRoundTrip | mian.go:108-124 | reading a record's HTML block back recovers the path, the line number and every entry |
| Process.RowLoop | mian.go:83-106 | record and fault lines lie in the rows' line range, each list in strictly increasing line order, and every loop warning is a parse fault |
| Process.RowLoopSound | mian.go:83-106 | every record renders a kept row at its own line, and every fault names a row that failed to parse |
| Process.RowLoopComplete | mian.go:83-106 | every kept row is rendered at its line and every unparsable row is reported at its line |
| Process.MissingWarnings | mian.go:73-75 | exactly one missing-column warning per missing request, at the same position, so in request order and repeated for a name requested twice |
| Process.ReportFor | mian.go:65-106 | once the columns are resolved: the missing-column warnings come first, in order; with no target the report is exactly those warnings plus the no-match warning and no record; the no-match warning appears exactly when there is no target; every parse fault names a malformed row within the row range and only occurs when some column resolved; when some column resolved, everything after the missing-column warnings is a parse fault, in increasing line order |
| Process.ProcessTable | mian.go:53-106 | the warnings start with exactly one missing-column warning per absent request, in request order; a file with no resolved column gives exactly those plus the no-match warning, reads no row and gives no record; every parse fault names a malformed row and only occurs when some column resolved; when some column resolved, only parse faults follow the missing-column warnings, in increasing line order; records lie on lines 2 to the row count plus 1 |
| Process.ProcessTableWarnings | mian.go:65-81 | in terms of the header: each requested name absent from the header is reported, each missing-column warning names a requested column the header lacks, and the no-match warning appears exactly when no requested name is a header, and then no record is given |
| Process.ReportForRecords | mian.go:83-124 | once the columns are resolved, the records are exactly the renderings of the surviving rows, in line order from line 2, and every malformed row is reported when a column resolved |
| Process.ProcessFile | mian.go:35-51 | a file fails exactly when it cannot be opened or its header cannot be read; an empty file gives nothing |
| Process.ProcessFileRecords | mian.go:83-124 | a file's records are exactly the renderings of its kept rows, in line order, the first data row on line 2 and every read attempt counting one line |
| Process.HeaderWideRecordShowsEveryColumn | mian.go:112-114 | on a record as wide as the header, every resolved column is shown |
| Process.TokyoExample | mian.go:35-124 | header `ID,Name,City`, rows `1,Tom,Tokyo` and `2,Ann,Osaka`, columns `ID,*Name*`, search `Tokyo`: one record, at line 2, `ID` plain and `Name` emphasised |
| Discovery.IsCsvName | mian.go:229 | a name is taken as CSV exactly when its last four characters are `.` then `c`, `s`, `v` in either case |

## Left out

- File I/O: opening files and the CSV tokenizer are replaced by the `Source` value the reader would produce.
- Write failures on the output writer (`mian.go:126-128`), because the output stream is not modelled; a record is produced, not written.
- The log text and timestamps, because logging is modelled as `Warning` values.
- Directory walking in `findCsvFiles`: recursive walk, directory reading and entry errors are file-system I/O. Only the suffix test is modelled.
- `main`: output file creation, the HTML header and footer templates with the font option, and the processing of files in turn. This is orchestration around `processFile`.
- Flag parsing, the usage text and the exit on missing `-in` or `-cols`, because these are command-line handling.
- `openFile`, which launches an external viewer.
- Discovery.IsCsvName: `strings.ToLower` is modelled for ASCII letters only. The test compares the last four characters with `.csv`, and no non-ASCII character lower-cases to `.`, `c`, `s` or `v`, so the result is the same.
- TextOps.Contains: Go compares bytes, here the comparison is on characters. For valid UTF-8 text the two agree.
- Text that is not valid Unicode. Go strings are byte strings, and every text here (paths, flag values, header names, cells) is a sequence of characters. A CSV file in a legacy encoding such as Shift-JIS cannot be represented. Go's `strings.TrimSpace` treats a lone 0x85 or 0xA0 byte differently from the characters U+0085 and U+00A0, and that difference is not modelled either.
- A reader that keeps failing. `Source.rows` is a finite list of read attempts. At `mian.go:90-92` a parse error other than end of file is logged and the loop reads again. A reader that returns the same error forever would loop forever, logging a parse fault at each new line number. A finite list cannot express this.
