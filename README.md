# Startup investments dashboard: cleaning pipeline and chart data

A Dafny model of the data core of a Streamlit dashboard over a CSV of
venture-funded startups. The dashboard loads the table, cleans it with
`pre_process`, and derives the data of its counters and charts from the
cleaned table:
- the number of companies invested in;
- the total of the eight funding rounds;
- the total funding;
- the top markets of the pie chart;
- the status histogram and the rounds histogram;
- the funding-per-year line chart;
- the debt-versus-funding scatter plot.

The model has seven modules:
- `Wrappers`: `Option` and `Result`.
- `Sequences`: boolean-mask selection, first occurrences, sums, group totals and permutations.
- `PyText`: the parts of Python's `str.replace`, `int(str)` and `str(int)` that the coercions use, and the string order `sorted` uses in the line chart.
- `Cells`: a table cell and the helpers `str_to_int`, `float_to_str` and `code_to_country`.
- `Frames`: the pandas operations the source calls.
- `Pipeline` and `Metrics`: `pre_process` and the chart functions.

A cell is `Missing` (pandas' NaN), an integer or a string, so that an
unparsed string and a NaN stay distinct. A frame has a set of column labels,
one index label per row, and rows that map each column to a cell.

`pre_process` is a method that threads the frame through the same ten steps
as the source. Its contract describes the result in terms of the loaded
table:
- The surviving rows are the *first survivors*. A row survives when its
  coerced amount is not 0, its coerced row has no missing cell, and no
  earlier such row is equal to it after coercion.
- They appear in their original order, with their index labels.
- Each row is coerced and given its country.
- The method fails exactly when a surviving row has a country code the
  country table does not know. The source crashes on `None.name` there.

Behaviours of the code that the model makes explicit:
- `dropna` only removes NaN. An amount string that `int` cannot read (for
  example "1.5e6") is neither 0 nor NaN, so it survives both filters
  (`UnparsedAmountSurvives`).
- `drop_duplicates` runs before the country is derived. Two rows that differ
  only in Romania's old and new codes ("ROM", "ROU") both survive, and then
  come out equal (`RomAndRouMerge`).
- The cleaned table no longer has `state_code`. Cleaning it a second time
  would raise `KeyError` in the first `drop`, so the pipeline is not
  idempotent (`CleanColumnsExclude`).
- The line chart sorts its years as strings, with Python's `<` on strings,
  not as numbers: "1000" comes before "999", and a year `int` could not
  read, such as "1990.5", falls between "1990" and "1991" (`LexLess`,
  `FundingLineChart`).

## Model

| member | source | states |
|---|---|---|
| `Cells.StrToInt` | app.py:16-25 | a string holding '-' gives 0; any other string gives the integer `int` reads from it once its commas are removed, or, when `int` rejects it, comes back without its commas; a non-string comes back unchanged |
| `Cells.StrToIntIdempotent` | app.py:16-25 | applying `str_to_int` to its own result changes nothing |
| `Cells.StrToIntReadsAmount` | app.py:18-21 | a comma-grouped amount with white space around it is read as its integer, wherever the commas stand |
| `Cells.FloatToStr` | app.py:28-35 | an integer becomes its canonical decimal string `str(n)`, which `int` reads back as the same integer; a string `int` accepts becomes the canonical string of the value it holds (so `IntVal(1990)` and " 1990" render alike); any other string and NaN come back unchanged; the result is never an integer |
| `Cells.FloatToStrIdempotent` | app.py:28-35 | applying `float_to_str` to its own result changes nothing |
| `Cells.CodeToCountry` | app.py:38-41 | "ROM" is looked up as "ROU", every other code as itself |
| `Cells.RomIsRou` | app.py:39-41 | "ROM" and "ROU" name the same country |
| `PyText.RemoveCommas` | app.py:18 | the result has no comma and every other character of the input |
| `PyText.RemoveCommasConcat` | app.py:18 | removing commas works piecewise over a concatenation; with `RemoveCommasChar` (a character is dropped exactly when it is a comma) this fixes the result: the other characters in their order and number |
| `PyText.RemoveCommasChar` | app.py:18 | a single character is dropped exactly when it is a comma |
| `PyText.ParseInt` | app.py:21 | `int(s)`: a negative result needs a '-' in `s`; an empty or all-white-space string is rejected |
| `PyText.NatDigits` | app.py:31 | the digits of a natural number, the first of them '0' only for 0 |
| `PyText.Decimal` | app.py:31 | `str(n)` is canonical: a '-' exactly for a negative number, then digits only, with no leading '0' except for 0 itself |
| `PyText.DecimalRoundTrip` | app.py:30-31 | `int(str(n)) == n` for every integer |
| `PyText.ParsePaddedDigits` | app.py:21 | `int` accepts white space around the canonical digits of `n` (those `str(n)` writes) and reads `n` |
| `PyText.ParsePaddedValidDigits` | app.py:21 | `int` accepts white space around an optional '+' or '-' and a digit string that may have leading zeros and single underscores between digits, and reads its signed value |
| `PyText.ParseSignedDigits` | app.py:21 | once the white space is stripped, an optional '+' or '-' followed by valid digits reads as the signed value of the digits |
| `PyText.Sorted` | app.py:127 | `sorted` of distinct strings is strictly ascending in string order and has the same elements |
| `Frames.Rename` | app.py:52 | the old label is replaced by the new one in the columns and in every row; other cells and the index are unchanged |
| `Frames.DropColumns` | app.py:53-54 | the named columns are gone from the columns and every row; nothing else changes |
| `Frames.ApplyColumn` | app.py:55-56 | every cell of the column is replaced by `f` of it; other cells are unchanged |
| `Frames.AssignColumn` | app.py:60 | the column is added with the given cells, row by row |
| `Frames.Select` | app.py:57 | a mask selection keeps the columns and exactly the rows where the mask holds, in order, with their index labels |
| `Frames.DropNa` | app.py:58 | exactly the rows without a missing cell survive, in their order, with their index labels |
| `Frames.DropDuplicates` | app.py:59 | the first of every group of equal rows survives, in order, with its index label; the survivors are pairwise distinct and are exactly the distinct rows of the input |
| `Frames.FilterRows` | app.py:57-59 | the three filters keep a well-formed table with the same columns; `FilterRowsSelected` says which rows |
| `Frames.FilterRowsSelected` | app.py:57-59 | the zero filter, `dropna` and `drop_duplicates` together keep exactly the kept rows that no earlier kept row equals, in order, with their index labels |
| `Pipeline.RenamedRow` | app.py:52 | the padded amount and market labels are replaced by the plain ones, with the same cells |
| `Pipeline.DroppedRow` | app.py:52-54 | the row has exactly the cleaned-table columns, with the renamed cells |
| `Pipeline.CoercedRow` | app.py:52-56 | the amount is `str_to_int` of the loaded amount, the year is `float_to_str` of the loaded year, the market is under its plain label, every other kept cell is as loaded |
| `Pipeline.RenameFrame` | app.py:52 | every row is renamed; the index is kept |
| `Pipeline.DropFrame` | app.py:53-54 | the columns are the cleaned-table columns and every row is dropped accordingly |
| `Pipeline.Coerce` | app.py:55-56 | every row is coerced; the index and the number of rows are kept |
| `Pipeline.Survivors` | app.py:57-59 | the survivors are strictly increasing positions of the loaded table |
| `Pipeline.SurvivorsAreFirstSurvivors` | app.py:57-59 | the survivors are exactly the first survivors |
| `Pipeline.FirstSurvivorMeaning` | app.py:57-59 | a first survivor is a row with a non-zero amount and no missing cell that no earlier such row equals after coercion |
| `Pipeline.Filtered` | app.py:57-59 | the filtered table is the coerced table at the survivors' positions |
| `Pipeline.UnknownCodeStage` | app.py:60 | a filtered row has an unknown country code exactly when some first survivor has one |
| `Pipeline.CleanRow` | app.py:60-61 | `country` is `code_to_country` of the code, `country_code` is gone, other cells are unchanged |
| `Pipeline.Localize` | app.py:60-61 | the country step gives the cleaned columns and keeps the filtered rows' number and index labels |
| `Pipeline.LocalizeStage` | app.py:60-61 | the country step yields the cleaned columns and one row per survivor, in order, with its index label, coerced and given its country |
| `Pipeline.PreProcess` | app.py:51-62 | fails exactly on an unknown code of a surviving row; otherwise returns the first survivors, in order, with their index labels, each coerced and given its country |
| `Pipeline.CleanRowsComplete` | app.py:57-61 | a kept row has no missing cell and a non-zero amount after the country step too |
| `Pipeline.CleanRowsNoZero` | app.py:57-61 | no row of the cleaned table has a missing cell or a zero amount |
| `Pipeline.SurvivorKept` | app.py:57-58 | every survivor passes both filters |
| `Pipeline.SurvivorsDistinct` | app.py:59 | no two rows of the filtered table are equal |
| `Pipeline.KeptRowRepresented` | app.py:59 | every kept row is represented by an equal survivor at the same or an earlier position |
| `Pipeline.DashAmountDropped` | app.py:55-57 | an amount holding '-' becomes 0 and its row is dropped |
| `Pipeline.MissingAmountDropped` | app.py:55-58 | a missing amount stays missing and its row is dropped |
| `Pipeline.UnparsedAmountSurvives` | app.py:55-58 | an unparseable amount becomes its comma-free string, and the row survives the filters exactly when it has no missing cell |
| `Pipeline.SurvivorFundingPositive` | app.py:55-57 | a surviving amount read from a string is positive when it is an integer |
| `Pipeline.SurvivorYearIsString` | app.py:56-58 | every surviving founding year is a string |
| `Pipeline.CleanColumnsExclude` | app.py:52-61 | the cleaned table has `country` and none of the dropped columns, so it cannot be cleaned again |
| `Pipeline.RomAndRouMerge` | app.py:59-60 | two rows that differ only in "ROM" and "ROU" come out of the country step equal |
| `Metrics.RoundsHistogram` | app.py:111-116 | one bar per selected column, in selection order, holding that column's sum |
| `Metrics.RoundsHistogramTotal` | app.py:72-78 | with all eight rounds selected, the bars add up to `total_investments` |
| `Metrics.ColumnSumsByRows` | app.py:73 | the sum of the column sums equals the sum of the row sums |
| `Metrics.ColumnSum` | app.py:73 | a column's sum is 0 for an empty table and never negative when no amount is negative |
| `Metrics.TotalInvestments` | app.py:72-78 | `total_investments`, the sum of the eight round-column sums, equals the sum over companies of what each raised in the eight rounds |
| `Metrics.TotalFundings` | app.py:81-84 | `total_fundings` is 0 for an empty table and never negative when no amount is negative; its partner is `FundingLineChart`, whose yearly totals add up to it |
| `Metrics.NUnique` | app.py:89 | `nunique` never exceeds the number of cells |
| `Metrics.TotalCompaniesInvested` | app.py:88-90 | the number of distinct names is at most the number of rows |
| `Metrics.CompaniesAllDistinct` | app.py:89 | with no name missing, the count equals the row count exactly when no name repeats |
| `Metrics.Values` | app.py:89 | the distinct non-missing values, each once; as many as `nunique` counts |
| `Metrics.SortByCount` | app.py:95 | a reordering of the pairs with non-increasing counts |
| `Metrics.ValueCounts` | app.py:95 | one pair per distinct non-missing value, no value twice, with its number of occurrences, in non-increasing count order |
| `Metrics.TopMarkets` | app.py:95 | `min(slider, #distinct markets)` distinct markets with non-increasing counts, each with its row frequency |
| `Metrics.TopMarketsAreTop` | app.py:95 | a market left out is no more frequent than any market shown |
| `Metrics.SelectedStatuses` | app.py:102 | each status in `select` occurs as often as in the table; every other status is absent |
| `Metrics.SelectedStatusesInOrder` | app.py:102 | the selected statuses appear in the order of their rows |
| `Metrics.DebtFundingScatter` | app.py:136 | exactly the rows with debt financing above 0 and an amount below 30 billion, in order, with their index labels |
| `Metrics.YearTotal` | app.py:128 | the year's total is the sum of the amounts of the rows founded that year |
| `Metrics.FundingLineChart` | app.py:124-128 | one entry per distinct year, in strictly ascending string order (Python's `<` on the year strings), each with that year's total; the totals add up to `total_fundings` |

## Left out

- Page configuration, CSS loading, the caching decorators, the `data_table` widget and the `__main__` wiring (app.py:9-13, 44, 65-68, 146-183) are user interface.
- `load_data` (app.py:45-47) reads a CSV file. The loaded table is an input of `PreProcess`.
- The `pycountry` table (app.py:41) is foreign code. It is the parameter `countries`, a map from alpha-3 code to name. An unknown code makes `PreProcess` return `Failure(UnknownCountryCode)` where the source crashes.
- Figure construction, axis order, layout and the OLS trendline (app.py:96, 103-106, 117-119, 129, 137-143) belong to plotly. The model returns the data the figures are built from. For the status histogram that is the selected statuses, whose multiplicities are the bar heights.
- Floating point is not modelled. All amounts are exact integers:
  - the `round` of the two totals (app.py:78, 84) is left out;
  - the line chart totals are not divided by 10**9 (app.py:128);
  - the scatter test `funding_total_usd / 10**9 < 30` becomes `funding_total_usd < 30 * 10**9`, which is exact for integers;
  - `float_to_str` (app.py:30) is modelled on integers and strings only, so a fractional year is never truncated.
- `int(str)` is modelled for ASCII only. The white space it strips is tab, line feed, vertical tab, form feed, carriage return and space (the separators \x1c-\x1f, which `str.isspace` accepts, are not stripped by `int`). Unicode digits and non-ASCII white space are not modelled.
- The limit of 4300 digits that CPython 3.11 and later puts on `int(str)` and `str(int)` (a `ValueError` beyond it) is not modelled: conversions of any length succeed.
- The order of the column labels is not modelled. Columns are a set, and their order only affects display.
- `Pipeline.Loadable`: a loaded table with both spellings of the amount label, or both of the market label, is excluded. The renames would produce duplicate labels, which a frame of this model cannot hold. A table without a required column is excluded too; the source raises `KeyError` for it.
- `Metrics.IntColumn`: the sums, the comparisons and the totals require integer cells. The source raises `TypeError` when a string is summed with or compared to a number, for example an amount that `str_to_int` could not read.
- `Metrics.TopMarkets`: no order among markets with equal counts is promised. pandas' tie order is an implementation detail. The slider is a natural number; the interface restricts it to 2..30.
- `Metrics.SelectedStatuses`: the status list is a sequence of cells and `isin` is membership in it.
- `Metrics.FundingLineChart` returns (year, total) pairs in insertion order, where the source fills a dict.
