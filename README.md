# Weekly stock dashboard: loader and view rules

This project models the data logic of a single-page weekly stock dashboard
(`weekly_dash.py`). The model has two parts.

- **The loader** runs once at start-up over the rows of the weekly table.
  It drops every row that misses one of the nine required columns (Date,
  Open, High, Low, Close, Volume, Ticker, EMA_High, EMA_Low). It normalises
  each ticker: surrounding whitespace is stripped and the ticker is
  uppercased (ASCII letters only, see "## Left out"). It then sorts the
  table by date. From the sorted table it derives the sorted list of
  distinct tickers and the date labels. There is
  one date label per row, and these labels index the range slider.
- **The view controller** (`update_chart`) runs on every change to the
  widgets. It maps the slider's two positions through the date labels to an
  inclusive date window. It selects the rows with the chosen ticker and a
  date inside that window, keeping table order. It then builds one series
  per selected field, in selection order; series `i` takes colour
  `custom_colors[i % 6]`. It computes the status line from the first row
  that has the latest date. Finally it attaches the CSV export whenever the
  button's click count is positive.

Dates are day numbers, read as timestamps at midnight. Prices and moving
averages are `real` values that are only carried, never computed with. A
missing value is `None` of an `Option`. Everything is a pure function over
sequences, except for two methods. `View.BuildFigure` has the callback's
trace-appending loop and is proved equal to the `View.Series` function.
`View.UpdateChart` is the callback itself, proved equal to the function
`View.Render`; the lemmas are stated about `Render`.

Files and modules:

- `wrappers.dfy`: `Option` and `Result`.
- `records.dfy`: raw and loaded rows, the plottable fields, the column names.
- `masks.dfy`: boolean-mask row selection (`Keep`) and its laws. Both the
  `dropna` step and the view filter use it.
- `tickers.dfy`: ticker normalisation and Python's string order.
- `loader.dfy`: the start-up steps and the dataset invariants.
- `view.dfy`: the callback.
- `scenario.dfy`: a worked example with two tickers and five weeks each.

Behaviour of the code a reader may not expect:

- **Date labels.** The code builds `date_labels` with one entry per row, not
  one per distinct date. With two tickers every week occurs twice, so slider
  positions 0 to 4 reach only the third week
  (`Scenario.PerRowLabelsScenario`).
- **Export with an empty selection.** `to_csv` always writes the header, so
  the truth test at `weekly_dash.py:184` never suppresses the export. An
  empty selection with a positive click count still exports a file that
  holds only the header (`View.Export`).
- **Unknown ticker.** The code raises no error for a ticker that is not in
  the table. The filter is simply empty, and the model does the same.
- **Slider positions out of range.** Python list indexing accepts negative
  positions, counting from the end. So only a position outside
  `[-len, len)` raises `IndexError`, which the model returns as
  `Err(IndexError)`.

## Model

| member | source | states |
|---|---|---|
| `Records.FieldsListed` | weekly_dash.py:13 | the field checklist offers every plottable field, and each names a required column other than the date and the ticker |
| `Masks.Keep` | weekly_dash.py:144 | a boolean mask keeps no more rows than it had, and every kept row is one of the original rows and passes the mask |
| `Masks.KeepCount` | weekly_dash.py:7 | a mask keeps each passing row exactly as often as it occurred and drops every failing row |
| `Masks.KeepComplete` | weekly_dash.py:144 | every row that passes the mask is kept |
| `Masks.KeepAppend` | weekly_dash.py:144 | masking keeps the original order: the mask of a concatenation is the concatenation of the masks |
| `Masks.KeepPairwise` | weekly_dash.py:144 | any order relation between rows in sequence (date order in particular) survives masking |
| `Masks.KeepSource` | weekly_dash.py:144 | each kept row comes from a position of the original rows, and the rows kept before it are exactly the mask of the original rows before that position |
| `Masks.KeepBefore` | weekly_dash.py:144 | an accepted row that comes before a kept row in the original is also kept before it |
| `Tickers.LeadingSpaces` | weekly_dash.py:8 | the count of leading characters to strip covers only whitespace and stops at the first non-whitespace character |
| `Tickers.TrailingSpaces` | weekly_dash.py:8 | the count of trailing characters to strip covers only whitespace and stops at the last non-whitespace character |
| `Tickers.Strip` | weekly_dash.py:8 | `strip()` keeps a contiguous middle slice, removes only whitespace from either end, and leaves no whitespace at either end |
| `Tickers.UpperCharSpace` | weekly_dash.py:8 | uppercasing a character keeps it whitespace exactly when it was whitespace, and never yields a lower-case ASCII letter |
| `Tickers.Upper` | weekly_dash.py:8 | `upper()` keeps the length, moves each lower-case ASCII letter to its capital, keeps every other character, and leaves no lower-case ASCII letter |
| `Tickers.Normalize` | weekly_dash.py:8 | the result is trimmed and has no lower-case ASCII letter; with ASCII-only uppercasing it is never longer than the input |
| `Tickers.NormalizedFixed` | weekly_dash.py:8 | normalisation leaves unchanged a ticker that is trimmed and has no lower-case ASCII letter |
| `Tickers.NormalizeIdempotent` | weekly_dash.py:8 | normalising a ticker twice gives the same result as normalising it once |
| `Tickers.LexLessIrreflexive` | weekly_dash.py:12 | no string sorts before itself |
| `Tickers.LexLessTransitive` | weekly_dash.py:12 | string order is transitive |
| `Tickers.LexLessTotal` | weekly_dash.py:12 | of two different strings, one sorts before the other |
| `Tickers.LexLessAsymmetric` | weekly_dash.py:12 | two strings never sort before each other |
| `Tickers.InsertUniqueSpec` | weekly_dash.py:12 | adding a ticker to the sorted distinct list adds exactly that ticker and keeps the list strictly increasing |
| `Loader.DropIncomplete` | weekly_dash.py:7 | no kept row misses a required column |
| `Loader.ToRecord` | weekly_dash.py:8-9 | a loaded row's ticker is trimmed and has no lower-case ASCII letter |
| `Loader.Prepare` | weekly_dash.py:8-9 | one loaded row per input row, in the same order, with the same date and the normalised ticker; every loaded ticker is trimmed and has no lower-case ASCII letter |
| `Loader.Cleaned` | weekly_dash.py:7-9 | the cleaned rows are the complete input rows, in file order, each made into a loaded row; so every cleaned row comes from a complete input row and has a trimmed ticker without lower-case ASCII letters |
| `Loader.InsertByDateCount` | weekly_dash.py:10 | inserting a row into the table adds exactly that row |
| `Loader.InsertByDateSorted` | weekly_dash.py:10 | inserting a row keeps a date-sorted table date-sorted |
| `Loader.SortByDate` | weekly_dash.py:10 | the sorted table is in ascending date order and is a permutation of its input |
| `Loader.DistinctTickers` | weekly_dash.py:12 | the ticker list is strictly increasing and holds exactly the tickers that occur in the table |
| `Loader.StrictlySortedUnique` | weekly_dash.py:12 | two strictly increasing lists with the same elements are equal, so the ticker list is fully determined by the table |
| `Loader.DateLabels` | weekly_dash.py:14 | one label per table row, in table order, equal to that row's date; for a date-sorted table the labels never decrease |
| `Loader.Load` | weekly_dash.py:6-14 | the table is date-sorted, holds only normalised tickers and is a permutation of the cleaned rows; the ticker list is strictly increasing and equals the table's ticker set; there is one date label per row, equal to that row's date; every complete input row reaches the table, and every table row comes from a complete input row |
| `Loader.CleanedKeepsComplete` | weekly_dash.py:7-9 | every complete input row, once its ticker is normalised, is among the cleaned rows |
| `Loader.SameMembers` | weekly_dash.py:10 | sorting keeps the same rows: two permutations of a table hold the same rows |
| `Loader.LoadKeepsCompleteRows` | weekly_dash.py:7 | loading keeps exactly the rows with all nine columns, each as often as it occurs, and the table has as many rows as there are complete rows |
| `Loader.DateLabelsOrdered` | weekly_dash.py:99-103 | there are as many slider positions as rows, and for valid positions `start <= end` the start label is not after the end label |
| `View.PyIndex` | weekly_dash.py:141-142 | looking up a label succeeds exactly for positions in `[-len, len)`; a non-negative position gives the label there, and a negative position `i` gives the label at `len + i` |
| `View.InView` | weekly_dash.py:144 | a row passes the view's mask only if the window's start is not after its end |
| `View.FilterRows` | weekly_dash.py:144 | every shown row has the selected ticker and a date in the inclusive window |
| `View.FilterComplete` | weekly_dash.py:144 | every table row with the ticker and a date in the window is shown, as often as it occurs in the table; no other row is shown |
| `View.FilterOrder` | weekly_dash.py:144 | the filter keeps table order |
| `View.FilterSorted` | weekly_dash.py:144 | the shown rows of a date-sorted table are date-sorted |
| `View.FullRangeSelectsTicker` | weekly_dash.py:103 | the slider's initial full range, from the first label to the last, selects every row of the ticker |
| `View.Color` | weekly_dash.py:154 | a series colour is always one of the six custom colours |
| `View.ColorCycles` | weekly_dash.py:154 | the colours repeat every six positions of the selection |
| `View.Points` | weekly_dash.py:150-151 | a series has one point per shown row, in row order, whose x is the row's date and whose y is the field's value |
| `View.TracesFrom` | weekly_dash.py:147-157 | the loop from position `i` on emits one trace per field, named after it, coloured `custom_colors[(i + k) % 6]`, with one point per shown row |
| `View.Series` | weekly_dash.py:146-157 | one series per selected field, in selection order; series `k` is coloured `custom_colors[k % 6]` by position, and its points are the shown rows' dates and that field's values |
| `View.BuildFigure` | weekly_dash.py:146-157 | the loop that adds traces to an empty figure produces exactly `Series`, titled with the ticker |
| `View.MaxDate` | weekly_dash.py:175 | the latest date is at least every shown row's date and is the date of some shown row |
| `View.FirstIndexOfDate` | weekly_dash.py:175 | the position found is that of the first row with the given date |
| `View.LatestIndex` | weekly_dash.py:175 | the position found holds the latest date, and every earlier row has a strictly earlier date |
| `View.StatusOf` | weekly_dash.py:174-178 | an empty selection gives exactly "No data in selected range."; otherwise the status reports the date and both moving averages of the first shown row with the latest date |
| `View.ToCsv` | weekly_dash.py:182 | the export always holds the header and the shown rows, so its text has one line more than there are rows and is never empty |
| `View.Export` | weekly_dash.py:180-184 | the export is present exactly when the click count is positive, even for an empty selection; it is named `<ticker>_weekly.csv` and holds the header and one line per shown row |
| `View.Render` | weekly_dash.py:139-184 | the callback succeeds exactly when both slider positions index the labels |
| `View.UpdateChart` | weekly_dash.py:139-184 | the callback's statements, including the trace loop, compute exactly `Render` |
| `View.RenderSeries` | weekly_dash.py:140-157 | for valid positions the figure is titled with the ticker and has one series per field in order, coloured by position; each series has one point per table row of the ticker in the window, and every point's date is inside the window |
| `View.RenderExport` | weekly_dash.py:180-184 | for valid positions the export is present exactly when the click count is positive, named after the ticker, and holds exactly the table rows with that ticker in the window |
| `View.FirstLatestInTable` | weekly_dash.py:175 | the first shown row with the latest date is a table row before which every row in the view has a strictly earlier date |
| `View.StatusInTable` | weekly_dash.py:174-178 | the status of the filtered table is the notice exactly when no table row is in the view, reports the latest week exactly when some row is, and then reports the first table row in the view that has the latest date |
| `View.RenderStatus` | weekly_dash.py:174-178 | for valid positions the status is the notice exactly when no table row is in the view and the latest week exactly when some row is; the latest week reports the first table row, in table order, that is in the view and has the latest date |
| `Scenario.WeeksSorted` | weekly_dash.py:10 | the example table is in date order and holds only the two tickers |
| `Scenario.TwoTickersTickerSet` | weekly_dash.py:12 | both tickers occur in the example table, and no other |
| `Scenario.WellFormedOfTwo` | weekly_dash.py:6-14 | a date-sorted table of exactly two tickers, with the sorted ticker pair and its per-row labels, meets the loader's invariants |
| `Scenario.TwoTickersWellFormed` | weekly_dash.py:6-14 | the example dataset meets the loader's invariants |
| `Scenario.FullRangeScenario` | weekly_dash.py:139-184 | with two tickers and five weeks, the full range for one ticker with one click gives one series of five points, the last week's moving averages, and a five-row export named `AAA_weekly.csv` |
| `Scenario.PerRowLabelsScenario` | weekly_dash.py:14 | because labels are per row, slider positions 0 to 4 reach only the third week: three points, that week's status, and no export without a click |

## Left out

- Reading the Parquet file (`weekly_dash.py:6`) is file I/O. Its rows are an input sequence of `RawRecord`.
- A missing column: `dropna(subset=...)` (`weekly_dash.py:7`) raises `KeyError` at start-up when one of the nine columns is absent from the file. A `RawRecord` always has all nine fields, each possibly `None`, so that failure cannot be expressed.
- Columns beyond the nine required ones are not modelled. The loaded row and the export hold only those nine.
- The export header is the nine required column names in the order the loader lists them. The file's own column order is not modelled.
- Date parsing and `strftime` formatting (`weekly_dash.py:9`, `:14`, `:141-142`) are not modelled. Dates are day numbers, and a label is the day number itself. This assumes timestamps are at midnight, so that a label parsed back equals the row's date.
- The two-decimal formatting of the status text and the hover template (`weekly_dash.py:155`, `:176`) is floating-point text formatting. `Status.LatestWeek` carries the date and the two moving averages, not the formatted string.
- CSV serialisation (`weekly_dash.py:182`) is modelled as a header plus the shown rows. Its truth test uses the line count: the header line is always present.
- Tickers.Upper: uppercases only ASCII letters. Python's `str.upper()` also maps non-ASCII letters (`é` becomes `É`), and some of those change length (`ß` becomes `SS`).
- Tickers.Normalize: inherits the ASCII-only uppercasing. Its bound "never longer than the input" holds only because of it; Python's `"ß".strip().upper()` is longer than `"ß"`. "No lower-case letter" is promised for ASCII letters only.
- Tickers.NormalizedFixed: holds only because uppercasing is ASCII-only. A trimmed ticker such as `é` counts as normalised and is left unchanged here, while Python's `upper()` would change it.
- Tickers.UpperCharSpace: "never yields a lower-case letter" is stated for ASCII letters only; a non-ASCII lower-case letter is left as it is.
- Loader.SortByDate: this is a stable insertion sort. The source's unstable sort may order rows of equal date differently. Only "date-sorted and a permutation" is stated as the loader's promise (`Loader.Load`), and the view lemmas hold for any table.
- A cleared ticker dropdown (`None` as the ticker) is not modelled. The ticker is always a string.
- The Dash layout, Plotly styling, CSS index string and server start-up (`weekly_dash.py:16-127`, `:159-172`, `:187-221`) are presentation, outside the logic.
- The reactive callback wiring (`weekly_dash.py:130-138`) is a framework concern. `View.UpdateChart` is called directly with the widget values.
