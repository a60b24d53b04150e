# snip_tsv in Dafny

A model of `snip_tsv`, a one-file command-line tool that reads a delimited
text table, crops it to the rows between a start marker and an end marker
found in one column, and writes the result back out or plots two columns.

The model follows the code of `src/snip_tsv.py`, stage by stage:

- `Coercion` (coercion.dfy): `coerce`, which turns a cell's text or an
  optional flag into a typed `Value`. Python's `ast.literal_eval` is an
  `Evaluator` parameter. It returns a value, a syntax failure or a value
  failure. Which texts fail in which way is up to that parameter.
- `Table` (table.dfy): the named tuple `Data` and Python's `row[col]`
  indexing, which also takes negative positions.
  `read_file` works on rows that are already split into cells;
  `write_records` is a function that yields the sequence of rows handed to
  the CSV writer, plus its status.
- `Cropper` (cropper.dfy): `crop` is a method whose `for` loop keeps the
  two first-match indices `start_idx` and `end_idx`. It is proved equal to
  `CropSpec`, a declarative definition built from `FirstMatch` and Python's
  slice `records[lo:hi]`. The lemmas about `CropSpec` state the cropping
  rules without mentioning `FirstMatch`.
- `Plotting` (plotting.dfy): the x and y lists that `plot` builds.
- `Dispatch` (dispatch.dfy): `handler`. It coerces both markers, reads the
  table, then crops and writes when the start marker is not None, and plots
  otherwise.
- `Results` (results.dfy): `Option` for Python's `None`; `Result` for a
  value or the exception raised (`SyntaxError`, `ValueError`,
  `StopIteration`, `IndexError`).

An `IndexError` from `record[col]` in `crop`, or from `r[plot_x]` in `plot`,
is modelled as a `Failure` result, not excluded by a precondition. Calling
`next` on an empty reader while a header is expected raises `StopIteration`,
and `ReadFile` models that too.

## Model

| member | source | states |
|---|---|---|
| `Coercion.Coerce` | src/snip_tsv.py:134-144 | None comes back as None. A successful evaluation is returned as is. After a syntax failure the result is the evaluation of the quoted text. It raises exactly when a value failure hits text other than "nan", or when the quoted retry fails too. A value failure always re-raises ValueError. |
| `Coercion.Raised` | src/snip_tsv.py:140 | The exception an evaluation lets escape: none for a value, which comes back unchanged; SyntaxError for a syntax failure, ValueError for a value failure. This is what escapes from the quoted retry, which no handler catches. |
| `Coercion.Quote` | src/snip_tsv.py:140 | The retried text is the original wrapped in one single quote on each side |
| `Coercion.LowerChar` | src/snip_tsv.py:142 | ASCII lowering: an ASCII capital becomes the matching lower-case letter, and this model leaves every other character as it is |
| `Coercion.Lower` | src/snip_tsv.py:142 | ASCII lowering keeps the length and lowers each character in place |
| `Coercion.IsNanText` | src/snip_tsv.py:142 | Text passing `s.lower() == "nan"` has three characters, the first and last being `n` or `N` |
| `Coercion.LowerCharIs` | src/snip_tsv.py:142 | Only `N`/`n` lower-case to `n`, and only `A`/`a` to `a` |
| `Coercion.NanSpellings` | src/snip_tsv.py:142 | `s.lower() == "nan"` holds exactly for the eight letter-case spellings of "nan" |
| `Coercion.NanRescue` | src/snip_tsv.py:141-144 | After a value failure, the result is NaN exactly for the spellings of "nan"; any other text re-raises ValueError |
| `Coercion.BareTextIsString` | src/snip_tsv.py:139-140 | Take an evaluator that reads a quoted plain text as that string. Then any text that fails with a syntax error coerces to the string it spells. |
| `Table.Cell` | src/snip_tsv.py:168 | `row[col]` is position `col` for `col >= 0`, and counts from the end for negative `col` |
| `Table.CoerceCells` | src/snip_tsv.py:160 | The row succeeds exactly when every cell coerces. The result then has the row's width and cell `i` is the coercion of text `i`. Otherwise the error is that of the first cell that fails. |
| `Table.CoerceRows` | src/snip_tsv.py:160 | The rows succeed exactly when every row does. The result then has row `i` equal to coerced row `i`. Otherwise the error is the first failure in row-major order. |
| `Table.ReadFile` | src/snip_tsv.py:153-161 | A header is expected but there are no rows: StopIteration. Otherwise: success exactly when every non-header cell coerces, and a failure raises the error of the first failing cell in row-major order. The header is row 0 only when `has_header` is set, and the filename is unset. The records are the remaining rows in order, with the same widths, each cell coerced. |
| `Table.RecordRows` | src/snip_tsv.py:184 | `writerows` emits one row per record, in order |
| `Table.WriteRecords` | src/snip_tsv.py:176-185 | The header, when present, comes first. Then record `i` is at output position `i` (plus one after a header). The row count is the record count plus the header, and the status is 0. |
| `Table.Render` | src/snip_tsv.py:183-184 | A header row is written as its names. A record is written as its values, each printed by `show`, with the same width. |
| `Table.RenderAll` | src/snip_tsv.py:181-184 | The written text has one line of cells per output row, in order |
| `Table.ReadRenderedRecord` | src/snip_tsv.py:160 | A record's printed cells coerce back to the record, when coercing each of its printed values gives that value |
| `Table.ReadRenderedRecords` | src/snip_tsv.py:160 | The printed rows of the records coerce back to the records, under the same condition on the values in the records |
| `Table.ReadAfterWrite` | src/snip_tsv.py:153-185 | Reading back what `write_records` wrote gives the same header and records. This needs coercion to invert the printing of the values in the table (only those). The filename is not carried. |
| `Cropper.Slice` | src/snip_tsv.py:173 | Python's `s[lo:hi]` with None bounds. Both bounds None give the whole sequence. Element `k` is `s[lo + k]`. The length is `min(hi, len) - lo`, or 0 when that is not positive. |
| `Cropper.FirstMatch` | src/snip_tsv.py:167-171 | A returned index holds a row whose column equals the marker, and no earlier row matches. None means no row matches. |
| `Cropper.FirstMatchUnique` | src/snip_tsv.py:168-169 | Any index with those two properties is `FirstMatch`. So later matches never replace the first one. |
| `Cropper.EndBound` | src/snip_tsv.py:166-171 | With a None end marker there is no end bound. Otherwise the bound is the first row matching the end marker, or None when no row matches. |
| `Cropper.CropSpec` | src/snip_tsv.py:164-173 | IndexError exactly when some row has no position `col`. Otherwise the result is the slice from the first start match to the first end match. The end is searched only when the end marker is not None, and a missing match is a None bound. Header and filename are unchanged. |
| `Cropper.Crop` | src/snip_tsv.py:164-173 | The loop over `enumerate(records)` returns exactly `CropSpec`. Its invariants say that `start_idx` and `end_idx` are the first matches in the rows scanned so far. |
| `Cropper.CropFromStartToLast` | src/snip_tsv.py:170-173 | First start match at `s`, and no end marker or no end match: the result is rows `s..` to the last row |
| `Cropper.CropBetween` | src/snip_tsv.py:167-173 | First start match at `s`, first end match at `e` (searched from row 0): rows `s` to `e`, end excluded. Empty when `e <= s`. |
| `Cropper.CropWithoutStart` | src/snip_tsv.py:165-173 | No start match: all rows when there is no end bound, otherwise the rows before the first end match |
| `Cropper.CropSameMarkers` | src/snip_tsv.py:168-173 | Equal start and end markers that occur in the column give an empty crop |
| `Cropper.CropIsContiguous` | src/snip_tsv.py:173 | The crop is always one contiguous, order-preserving run `records[a..b]` of the input |
| `Cropper.CropExample` | src/snip_tsv.py:164-173 | Rows `[0],[1],[2],[3],[4]` cropped on column 0 from 1 to 3 give `[1],[2]` |
| `Plotting.Column` | src/snip_tsv.py:195-196 | When every record has position `col`, the result is column `col` of every record, in row order. Otherwise IndexError. |
| `Plotting.Plot` | src/snip_tsv.py:188-204 | The x list is column `plot_x` and the y list column `plot_y` of every record, in row order, and the status is 0. IndexError exactly when some record lacks one of the two columns. |
| `Dispatch.Handler` | src/snip_tsv.py:114-131 | A failing start coercion is raised first. Next comes a failing end coercion, then a failing read. A record without the crop column (crop path), or without one of the two plot columns (plot path), makes the run fail with IndexError. Success needs both markers and the table to succeed. A successful run wrote exactly when the coerced start is not None, and returns 0. |
| `Dispatch.NoStartMarkerPlots` | src/snip_tsv.py:121-131 | An absent start flag, or text that evaluates to None, selects plotting |
| `Dispatch.CropPathWritesCrop` | src/snip_tsv.py:127-129 | With a start marker, the run writes `WriteRecords` of the crop of the table that was read |
| `Dispatch.PlotPathPlots` | src/snip_tsv.py:125-131 | Without a start marker, with an end marker that coerces, a table that reads, and both plot columns in every record: the run succeeds and plots exactly `Plot` of that table |
| `Dispatch.PlotPathPlotsColumns` | src/snip_tsv.py:130-131 | Without a start marker, point `i` of the plot is columns `plot_x`/`plot_y` of record `i` |

## Left out

- `main`, `create_parser` and `Defaults` (src/snip_tsv.py:19-111): argument parsing, help text and the version. `Args` stands for the parsed options.
- CSV tokenising and quoting by `csv.reader`/`csv.writer` and the delimiter: rows are already split into cells. How `csv.writer` prints a value is a parameter `show` of `Table.ReadAfterWrite`.
- The internals of `ast.literal_eval`: it is the `Evaluator` parameter, so no claim is made about which texts are syntax or value failures. Its other exceptions are not modelled either. These are TypeError (an unhashable dict key, as in `{[]: 1}`) and RecursionError (very deep nesting). `coerce` does not catch them, so they propagate.
- Drawing with matplotlib: `plt.show`, `savefig` at 200 DPI, and the `<stdout>`/`<stderr>` test on the output file name are display and file I/O. `Plot` keeps only the x/y lists and the status.
- The unused `COL_DTYPE` table (src/snip_tsv.py:16).
- Coercion.LowerChar: lowers ASCII capitals only. Python's `str.lower()` also lowers other letters (`'Ä'` to `'ä'`). No character outside `N`/`n` lowers to `n` and none outside `A`/`a` lowers to `a`, so `IsNanText` still decides `s.lower() == "nan"` exactly.
- Coercion.Lower: keeps the length, which Python's `str.lower()` does not (`'İ'.lower()` has two characters). Such a string still cannot lower to `"nan"`, so the test at src/snip_tsv.py:142 is unaffected.
- Cropper.Crop: markers and cells are compared with exact datatype equality. Floats, booleans and other literals are `Other` values identified by their repr. So Python values that are equal but print differently do not match here. Examples: `1 == 1.0 == True`, `-0.0 == 0.0`, and dicts or sets whose items are written in a different order. A crop marker `0.0` does not match a cell `-0.0`. NaN never equals itself in Python, but here `Nan` is an opaque constructor that equals itself.
