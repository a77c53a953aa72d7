# yamanaka spreadsheet utilities, modelled in Dafny

This project models `accounts/utils.py` of the yamanaka Django app. That
module reads a Google Sheet and summarises it:

- it builds the sheet's CSV export URL and turns the parsed CSV into
  trimmed headers plus rows normalised to the header width;
- it reads spreadsheet cells as numbers, tolerating thousands separators and
  a trailing percent sign;
- it groups rows by one column and reduces another with sum, count, avg,
  min or max, and sorts the groups by lower-cased label;
- it guesses which column to group by and which to aggregate, picks a metric
  column, preferring given names;
- it filters rows by the trimmed value of one column.

Files, one Dafny module each:

| file | module | models |
|---|---|---|
| `results.dfy` | `Results` | `Option` and `Result` |
| `text.dfy` | `Text` | Python's `str.strip`, `str.lower` and string `<=` on ASCII |
| `value_parser.dfy` | `ValueParser` | `_parse_float` and the part of `float()` it relies on |
| `percent_encoding.dfy` | `PercentEncoding` | `urllib.parse.quote(_, safe="")`: UTF-8, then RFC 3986 percent-encoding |
| `sheet_fetch.dfy` | `SheetFetch` | the two URL builders and `fetch_sheet_as_rows` (dispatch, normalisation) |
| `columns.dfy` | `Columns` | header lookup, the 1000-row sample, per-column numeric ratios, the two scans |
| `inference.dfy` | `Inference` | `infer_default_columns` |
| `metric_selection.dfy` | `MetricSelection` | `find_best_metric_column` |
| `label_sort.dfy` | `LabelOrder` | the stable in-place sort by lower-cased label |
| `aggregation.dfy` | `Aggregation` | `group_and_aggregate` |
| `row_filter.dfy` | `RowFilter` | `filter_rows_by_value` |

Code that computes a value becomes functions and lemmas. Code that fills a
dict or list step by step, or scans with running variables, becomes methods
with loops, each proved equal to a specification function. The properties
are proved about those functions.

- The grouping loop keeps the dict as a `map` plus the list of its keys in
  insertion order.
- The sort works in place on an `array`.
- Numbers are exact reals. Numeric ratios are exact fractions whose
  denominators are at most 1000, so comparing them to 0.5 or to each other
  agrees with the float comparisons of the source.

## Model

| member | source | states |
|---|---|---|
| PercentEncoding.QuoteRoundTrip | accounts/utils.py:17 | percent-decoding a quoted text gives back exactly its UTF-8 bytes |
| PercentEncoding.QuoteChars | accounts/utils.py:17 | a quoted text holds only unreserved characters and '%', so it cannot end or split the query parameter |
| PercentEncoding.QuoteUnreserved | accounts/utils.py:25 | a text made only of unreserved characters is left unchanged |
| PercentEncoding.QuoteInjective | accounts/utils.py:17 | distinct texts are quoted differently |
| PercentEncoding.Utf8Injective | accounts/utils.py:17 | distinct texts have distinct UTF-8 encodings |
| PercentEncoding.QuoteExamples | accounts/utils.py:17 | a space is quoted as "%20" and '/' as "%2F" |
| SheetFetch.PublishedCsvUrl | accounts/utils.py:9-18 | the URL is the gviz CSV endpoint of the sheet followed by a quoted part that decodes to the worksheet name's bytes and holds only quoted characters |
| SheetFetch.ExportCsvUrlWithGid | accounts/utils.py:21-26 | the URL is the CSV export endpoint followed by a quoted part that decodes to the gid's bytes |
| SheetFetch.PublishedCsvUrlInjective | accounts/utils.py:9-18 | different worksheet names give different URLs |
| SheetFetch.ExportCsvUrlInjective | accounts/utils.py:21-26 | different gids give different URLs |
| SheetFetch.UrlFormsDiffer | accounts/utils.py:9-26 | a gid URL never equals a worksheet-name URL |
| SheetFetch.SheetUrl | accounts/utils.py:40-45 | a non-empty gid chooses the export URL; otherwise a non-empty name chooses the gviz URL; otherwise, and only then, an argument error |
| SheetFetch.KeepNonBlankMembers | accounts/utils.py:59 | a data row is kept exactly when some cell is non-blank after stripping |
| SheetFetch.KeepNonBlankAppend | accounts/utils.py:59 | dropping blank rows keeps the order of the others |
| SheetFetch.Fit | accounts/utils.py:61-63 | a row is padded with empty cells or truncated to exactly the header width |
| SheetFetch.Normalize | accounts/utils.py:56-64 | an empty table gives no headers and no rows; otherwise the headers are the stripped first row and every row has the header width |
| SheetFetch.NormalizeSingleRow | accounts/utils.py:59-63 | a single data row survives exactly when it has a non-blank cell, and then as that row padded or truncated to the header width |
| SheetFetch.NormalizeAppend | accounts/utils.py:59-63 | data rows are normalised one by one: the rows from `a + b` are those from `a` followed by those from `b`, under the same header row |
| SheetFetch.FitAllAppend | accounts/utils.py:61-63 | fitting the rows to the header width works row by row and keeps their order |
| SheetFetch.NoBlankRowsWithinWidth | accounts/utils.py:59-63 | when no data row is wider than the header row, no blank row survives |
| SheetFetch.TruncationCanLeaveBlankRow | accounts/utils.py:59-63 | a row whose only content lies past the header width survives as a blank row |
| SheetFetch.FetchSheetAsRows | accounts/utils.py:29-64 | an argument error exactly when neither gid nor name is given; otherwise the chosen URL is fetched with the caller's timeout, a delivered table is normalised to rows of the header width, and HTTP and connection failures become transport and network errors with their details |
| SheetFetch.ArgumentErrorBeforeFetch | accounts/utils.py:40-45 | without gid and name the result does not depend on the transfer at all |
| SheetFetch.FetchUsesChosenUrl | accounts/utils.py:40-48 | the result depends on the transfer only through the chosen URL and timeout |
| Text.StripIdempotent | accounts/utils.py:120 | stripping twice is stripping once |
| Text.StripOfPadded | accounts/utils.py:120 | stripping a trimmed text surrounded by any whitespace gives the text back |
| Text.StripDecomposition | accounts/utils.py:120 | the stripped text is the slice after the leading whitespace, trimmed at both ends, followed only by whitespace |
| Text.BlankIffAllSpace | accounts/utils.py:121 | a text is blank after stripping exactly when all of it is whitespace |
| Text.LexLeTotal | accounts/utils.py:113 | any two keys are ordered one way or the other |
| Text.LexLeTransitive | accounts/utils.py:113 | the key order is transitive |
| Text.LexLeAntisymmetric | accounts/utils.py:113 | keys ordered both ways are equal |
| ValueParser.ParseValue | accounts/utils.py:117-131 | None and blank cells are not numbers |
| ValueParser.DropTrailingPercent | accounts/utils.py:124-125 | exactly one trailing '%' is removed, and nothing when there is none |
| ValueParser.RemoveCommasRemovesAll | accounts/utils.py:127 | no comma is left |
| ValueParser.RemoveCommasKeeps | accounts/utils.py:127 | every other character is kept |
| ValueParser.LiteralChars | accounts/utils.py:128-129 | the modelled decimal subset of `float()` (`ParseFloatLiteral`) accepts only texts of space, \t \n \v \f \r, ASCII digits, signs and points |
| ValueParser.FloatTrims | accounts/utils.py:129 | `float()` reads a separator-free literal between any amount of its own whitespace (space, \t \n \v \f \r) as that literal |
| ValueParser.PercentIsNotLiteral | accounts/utils.py:124-131 | a '%' that reaches `float()` makes the cell non-numeric |
| ValueParser.DoublePercentIsNotNumeric | accounts/utils.py:124-131 | a cell ending in "%%" is never a number, whatever precedes it |
| ValueParser.PercentSuffixIgnored | accounts/utils.py:120-131 | a trailing '%' does not change the value of a cell without another '%', except that a separator \x1c-\x1f after the leading whitespace then makes the cell non-numeric |
| ValueParser.SeparatorBeforePercent | accounts/utils.py:120-131 | the cell "5\x1f" is 5.0 but "5\x1f%" is not a number, because `strip()` removes the separator only at the end of the text and `float()` never does |
| ValueParser.RenderRoundTrip | accounts/utils.py:117-131 | an integer written with thousands separators, with or without a trailing '%', parses back to itself |
| ValueParser.ParseDigits | accounts/utils.py:129 | a digit string is read as its decimal value |
| ValueParser.ParseNegatedDigits | accounts/utils.py:129 | a minus sign and a digit string are read as minus its value |
| ValueParser.ParseFraction | accounts/utils.py:129 | "whole.frac" is read as the whole part plus the fraction |
| ValueParser.ParseValueOfTrimmed | accounts/utils.py:120-129 | on a trimmed cell without a trailing '%', the value is `float()` of the cell without its commas |
| ValueParser.ParseValueMinusExample | accounts/utils.py:117-131 | "-3" is -3 |
| ValueParser.ParseValueWordExample | accounts/utils.py:128-131 | "abc" is not a number |
| ValueParser.ParseValueBlankExamples | accounts/utils.py:117-131 | "5%%", "" and "  " are not numbers |
| Columns.IndexOf | accounts/utils.py:83-84 | the lookup fails exactly when the name is not a header; otherwise it is the first position of the name |
| Columns.Sample | accounts/utils.py:147 | the sample is the first 1000 rows, or all rows when there are fewer |
| Columns.SampleIgnoresTail | accounts/utils.py:147 | rows after the first 1000 do not matter |
| Columns.ColumnValuesMembers | accounts/utils.py:147-149 | a cell is collected for a column exactly when some sampled row is long enough and holds it there |
| Columns.ColumnValuesAppend | accounts/utils.py:147-149 | cells are collected in row order |
| Columns.NumericCountAppend | accounts/utils.py:154 | the numeric count adds up over concatenation |
| Columns.ColumnRatio | accounts/utils.py:151-155 | a ratio lies between 0 and 1, and a column with no cells has ratio 0 |
| Columns.RatioHalf | accounts/utils.py:161 | a ratio reaches one half exactly when `2 * numeric >= total` with a non-zero total |
| Columns.RatioCompare | accounts/utils.py:161 | two ratios compare as their cross products |
| Columns.LastBestSpec | accounts/utils.py:158-163 | the scan chooses nothing exactly when every ratio is below one half; otherwise its choice reaches one half, is maximal, and every later ratio is smaller |
| Columns.LastBestUnique | accounts/utils.py:158-163 | a column that reaches one half, is maximal and beats every later column is the scan's choice |
| Columns.FirstSetSpec | accounts/utils.py:167-172 | the search finds nothing exactly when no flag is set; otherwise it finds a set flag with none before it |
| Inference.DistinctMembers | accounts/utils.py:169 | a text is a distinct value exactly when it is non-empty and some cell strips to it |
| Inference.GroupByColumnSpec | accounts/utils.py:165-176 | the group-by column is the first column with ratio below one half and 2 to 50 distinct values, else 0 |
| Inference.AggregateColumnSpec | accounts/utils.py:157-178 | the aggregate column is the last one with the highest ratio when that reaches one half, else column 1, or 0 for a single column |
| Inference.CollectColumnValues | accounts/utils.py:145-149 | the nested loop collects, for every column, its cells of the sampled rows |
| Inference.NumericRatios | accounts/utils.py:151-155 | the ratio loop gives every column's ratio, 0 for an empty column |
| Inference.ScanAggregate | accounts/utils.py:157-163 | the `>=` scan ends on the last column with the highest ratio reaching one half |
| Inference.ScanGroupBy | accounts/utils.py:165-172 | the search stops at the first candidate column |
| Inference.InferDefaultColumns | accounts/utils.py:134-180 | nothing exactly when headers or rows are empty; otherwise the header names of the inferred group-by and aggregate columns |
| Inference.TieGoesToLaterColumn | accounts/utils.py:160-163 | with ratios 0.9, 0.9, 0.3 the second column wins |
| MetricSelection.NameToIndexSpec | accounts/utils.py:192 | the name map holds exactly the headers, each at the last position that carries it |
| MetricSelection.DuplicateNameTakesLastIndex | accounts/utils.py:192 | with headers "x", "y", "x", the name "x" maps to position 2 |
| MetricSelection.BestMetric | accounts/utils.py:190-191 | no headers or no rows give no metric column |
| MetricSelection.PreferredNameWins | accounts/utils.py:204-208 | the first preferred name that is a header with ratio at least one half is returned, and it is a header |
| MetricSelection.FallbackFindsNothing | accounts/utils.py:210-218 | when no preferred name passes, there is no metric column exactly when every ratio is below one half |
| MetricSelection.FallbackToMostNumeric | accounts/utils.py:210-218 | when no preferred name passes, the last column with the highest ratio, reaching one half, is returned |
| MetricSelection.NumericRatio | accounts/utils.py:194-202 | the counting loop computes the column's ratio over sampled rows long enough to hold it, 0 when there are none |
| MetricSelection.FirstPreferred | accounts/utils.py:204-208 | the loop finds the first preferred name that passes |
| MetricSelection.MostNumericColumn | accounts/utils.py:211-217 | the fallback scan ends on the last column with the highest ratio reaching one half |
| MetricSelection.FindBestMetricColumn | accounts/utils.py:183-218 | the method returns what the specification function describes |
| LabelOrder.LabelSortSorted | accounts/utils.py:113 | the sorted rows are ordered by lower-cased label |
| LabelOrder.LabelSortPermutes | accounts/utils.py:113 | the sorted rows are a permutation of the rows given |
| LabelOrder.LabelSortStable | accounts/utils.py:113 | rows whose labels lower-case alike keep their relative order |
| LabelOrder.SortExample | accounts/utils.py:113 | "b", "A", "a" sort to "A", "a", "b" |
| LabelOrder.InsertInto | accounts/utils.py:113 | one pass of the in-place sort inserts the next row into the sorted prefix and leaves the rest alone |
| LabelOrder.SortByLabel | accounts/utils.py:113 | the in-place sort leaves the array holding the stable sort of its old contents |
| Aggregation.CellValue | accounts/utils.py:92-93 | a cell that does not parse counts as 0; one that parses counts as its value |
| Aggregation.MinSpec | accounts/utils.py:104-105 | the minimum is one of the values and bounds them all from below |
| Aggregation.MaxSpec | accounts/utils.py:106-107 | the maximum is one of the values and bounds them all from above |
| Aggregation.ReduceSpec | accounts/utils.py:98-109 | an empty bucket gives 0; `count` is the bucket size; `min` and `max` are bounding members; any unknown name sums |
| Aggregation.ReduceAvg | accounts/utils.py:102-103 | `avg` times the bucket size is the sum |
| Aggregation.LabelsMembers | accounts/utils.py:88-94 | the dict keys are exactly the group cells |
| Aggregation.LabelsDistinct | accounts/utils.py:88-94 | each key appears once |
| Aggregation.LabelsPrefix | accounts/utils.py:88-94 | keys are in order of first appearance: the keys of a prefix of the rows start the keys of all rows |
| Aggregation.BucketSize | accounts/utils.py:88-94 | a bucket holds one value per row carrying its key |
| Aggregation.BucketMembers | accounts/utils.py:88-94 | a bucket holds exactly the values of the rows carrying its key |
| Aggregation.Aggregate | accounts/utils.py:80-86 | no headers, or a missing column, give no groups |
| Aggregation.AggregateResult | accounts/utils.py:88-114 | one row per distinct group cell, each label once, each metric the reduction of that label's bucket; sorted by lower-cased label; labels that lower-case alike in order of first appearance |
| Aggregation.Bucketize | accounts/utils.py:88-94 | the row loop leaves the dict holding each key's bucket, keys in order of first appearance |
| Aggregation.AddRow | accounts/utils.py:90-94 | one row's value joins its key's bucket, created and recorded on first sight |
| Aggregation.ReduceGroups | accounts/utils.py:96-110 | the results loop gives one reduced row per key, in key order |
| Aggregation.GroupAndAggregate | accounts/utils.py:67-114 | the method returns what the specification function describes |
| RowFilter.FilterRowsByValue | accounts/utils.py:223-228 | no headers, no rows or a missing column give no rows |
| RowFilter.FilterMembers | accounts/utils.py:230 | a row is kept exactly when it is one of the rows, is long enough and its stripped cell equals the stripped value |
| RowFilter.KeepMatchingAppend | accounts/utils.py:230 | the filter keeps row order: it distributes over concatenation |
| RowFilter.FilterIdempotent | accounts/utils.py:221-230 | filtering the result again with the same arguments changes nothing |
| RowFilter.FilterIgnoresPadding | accounts/utils.py:230 | any whitespace before and any whitespace after the wanted value, independently, does not change the result |

## Left out

- The network transfer, the HTTP and network error translation, UTF-8 decoding of the response and `csv.reader` are not modelled. `FetchSheetAsRows` takes the transfer as a function parameter that yields either an already-parsed table or one of two failure kinds: an HTTP status with its reason, or a URL error with its reason.
- `timeout_sec` is only passed on to that parameter.
- `ValueParser.ParseFloatLiteral` accepts only the decimal subset of Python's `float()`: optional surrounding whitespace, an optional sign, digits with an optional point. Exponents, `inf`, `nan` and underscores are treated as not numeric. Non-ASCII decimal digits and non-ASCII whitespace, which `float()` also accepts, are not modelled either. The ASCII separators \x1c-\x1f are modelled as `float()` treats them: it never trims them, so a text holding one is not numeric.
- No float rounding is modelled. Sums, averages and ratios are exact reals.
- `Text.Strip` and `Text.Lower` follow Python only on ASCII. Non-ASCII whitespace and non-ASCII case folding are not modelled.
- `PercentEncoding.Quote` encodes Unicode scalar values. Lone surrogates, which Python refuses to encode, are not modelled.
- `Aggregation.GroupAndAggregate` requires every row to hold both looked-up columns. The source would raise an IndexError on a short row, and that error path is not modelled.
- `LabelOrder.SortByLabel` is an insertion sort, not Python's Timsort. Both are stable sorts on the same key, so they give the same result.
- The source's sort key puts a None label last. Labels are cells of the table and are never None, so the key is modelled as the lower-cased label alone.
- Several loop bodies are split into helper methods: `CountRow`, `AddRow`, `InsertInto` and `ShiftGreater`. The same computation is done in the same order.
- The cell "1,234.5%" is not proved as a concrete value. Integers with thousands separators and a trailing '%' are covered by `ValueParser.RenderRoundTrip`, and decimals without commas by `ValueParser.ParseFraction`.
- `accounts/views.py` and `yamanaka/settings.py` are not part of this model. They hold request handling and static configuration.

Three behaviours of the source are easy to miss, and the model keeps all three:

- Blank rows are dropped before rows are cut to the header width. A row whose only content lies past the header width therefore survives as a row of empty cells (`SheetFetch.TruncationCanLeaveBlankRow`).
- `find_best_metric_column` looks names up in a dict built from the headers. A duplicated header therefore resolves to its last position (`MetricSelection.DuplicateNameTakesLastIndex`). Everywhere else, column lookup uses the first position.
- `_parse_float` strips the cell with `str.strip()`, which removes the separators \x1c-\x1f, but `float()` does not. A separator just before a trailing '%' therefore survives into `float()`, so "5\x1f" is 5.0 while "5\x1f%" is not a number (`ValueParser.SeparatorBeforePercent`).
