# pharma-sales-insights: a verified model of the cleaning and aggregation core

The repository turns a raw CSV extract of pharmaceutical sales into cleaned records and then
into monthly aggregates and summary tables. This project models that core in Dafny and
proves properties of it.

- **Cleaner** (`src/ingest_clean.py`). Rows missing any of the seven critical fields are
  dropped. Rows whose units, price or sales are out of range are dropped. Then the five text
  columns the table has are stripped of surrounding whitespace. The stripping is a loop over
  the columns, and a null becomes the text `"nan"` as `astype(str)` makes it.
- **Aggregator** (`src/transform_metrics.py`). Every row gets the first day of its month.
  Rows are grouped by (month, product id, product name, ATC code, region), keys ascending and
  rows with a null key left out. Each group yields total units, total sales, mean unit price
  and promotion days.
- **Summary tables**: monthly total sales, the top 20 products by sales, sales per ATC code
  largest first, and mean sales per calendar month number.

A table is a set of present columns plus a sequence of records, with every cell an `Option`.
This keeps an absent column apart from a null cell. An absent critical or aggregated column is
the `KeyError` pandas raises, modelled as a `Failure`. An absent text column is skipped by the
stripping loop.

Files:
- `wrappers.dfy`: `Option` and `Result`.
- `orders.dfy`: strict total orders, integer order, and Python's code-point order on strings.
- `dates.dfy`: calendar dates and truncation to the first of the month.
- `text.dfy`: `str.strip()` over the code points for which `str.isspace()` holds.
- `records.dfy`: columns, records and tables.
- `cleaner.dfy`: the cleaning stage.
- `grouping.dfy`: `groupby(sort=True)`, group sums and the mean.
- `sorting.dfy`: `sort_values(ascending=False)` and `nlargest`.
- `aggregator.dfy`: the five-key aggregation.
- `reports.dfy`: the summary tables.
- `pipeline.dfy`: the two stages run one after the other.

## Model

| member | source | states |
|---|---|---|
| Cleaner.HasCriticalColumns | src/ingest_clean.py:47-56 | a row has every critical field iff it holds a value in every column of the critical-column set the schema is checked against |
| Cleaner.DropMissing | src/ingest_clean.py:47-56 | a row is kept exactly when it is an input row with all seven critical fields present |
| Cleaner.FilterRange | src/ingest_clean.py:59 | a row is kept exactly when it is an input row with units > 0, price >= 0 and sales >= 0; a null fails the comparison |
| Cleaner.KeptIndicesExact | src/ingest_clean.py:56-59 | the surviving positions are in range and strictly ascending; position i survives iff row i has every critical field and passes the range test |
| Cleaner.FilterSurvivors | src/ingest_clean.py:56-59 | the two filters output, in order, exactly the rows at the surviving positions, so the output is an order-preserving subsequence |
| Cleaner.CleanFailure | src/ingest_clean.py:47-56 | cleaning fails iff a critical column is missing from the schema, and the error names exactly the missing ones |
| Cleaner.CleanRows | src/ingest_clean.py:56-64 | with the critical columns present, the schema is kept and the k-th output row is the k-th surviving input row, normalised |
| Cleaner.CleanOutputIsClean | src/ingest_clean.py:47-64 | every output row has all critical fields, is in range, and holds a stripped non-null value in every text column the schema has |
| Cleaner.CleanEmpty | src/ingest_clean.py:56-59 | an empty input gives an empty output with the same schema |
| Cleaner.SurvivorKept | src/ingest_clean.py:56-59 | every surviving input row appears, normalised, in the output |
| Cleaner.FiltersKeepSurvivors | src/ingest_clean.py:56-59 | rows that all survive pass both filters unchanged |
| Cleaner.SurvivalIgnoresOptionalFields | src/ingest_clean.py:47-59 | product name, ATC code and promotion flag, null or not, never decide whether a row survives |
| Cleaner.NormaliseRecordFields | src/ingest_clean.py:62-64 | a text column in the schema becomes the stripped text form of its cell; a text column not in the schema keeps its value; date and the four numeric fields are unchanged |
| Cleaner.NullTextBecomesNan | src/ingest_clean.py:64 | a null product name or ATC code in a present column becomes the text "nan" (that such a row is not dropped is `Cleaner.SurvivalIgnoresOptionalFields`) |
| Cleaner.CleanWellFormed | src/ingest_clean.py:47-64 | when every row is null in the columns the schema lacks, the cleaned table is too: cleaning fills in no cell outside its schema |
| Cleaner.NormaliseIdempotent | src/ingest_clean.py:62-64 | normalising a record twice is normalising it once |
| Cleaner.NormaliseText | src/ingest_clean.py:62-64 | the column loop rewrites, in place and one column at a time, the present text columns of every row; the result is the normalised table |
| Cleaner.CleanTable | src/ingest_clean.py:47-64 | the three steps in sequence compute the cleaning function, including its failure |
| Cleaner.CleanIdempotent | src/ingest_clean.py:47-64 | cleaning an already cleaned table changes nothing |
| Cleaner.CleanTwoRows | src/ingest_clean.py:47-64 | for a table with exactly the seven critical columns, of a surviving row and a rejected row only the first survives; when its region and retailer id are already stripped, the only change is its product id stripped |
| Cleaner.StripTrailingBlank | src/ingest_clean.py:64 | the id "A " strips to "A" |
| Text.StripShape | src/ingest_clean.py:64 | the stripped text is the middle of the input between all-whitespace ends, and has no whitespace at either end |
| Text.StripFixedPoint | src/ingest_clean.py:64 | a text is its own stripped form iff neither end is whitespace |
| Text.StripIdempotent | src/ingest_clean.py:64 | stripping twice equals stripping once |
| Dates.MonthStartShape | src/transform_metrics.py:41 | the month of a date has day 1, the same year and month, and is valid when the date is |
| Dates.MonthStartSameMonth | src/transform_metrics.py:41 | two dates have the same month value iff they fall in the same calendar month |
| Dates.MonthStartIdempotent | src/transform_metrics.py:41 | truncating twice equals truncating once |
| Dates.MonthStartIsEarliest | src/transform_metrics.py:41 | no valid date of the month is earlier than the month value |
| Ordering.StrLessOrder | src/transform_metrics.py:46 | Python's string order is a strict total order |
| Aggregator.KeyLessOrder | src/transform_metrics.py:44-46 | the field-by-field order on key tuples is a strict total order |
| Aggregator.KeyOf | src/transform_metrics.py:41-46 | a row has a key iff its date and four text key cells are non-null; the key's month is the first day of the row's month, and its product id, product name, ATC code and region are the row's own cells |
| Aggregator.SameGroup | src/transform_metrics.py:44-46 | two rows with a key share a group iff they are in the same calendar month and agree on product id, product name, ATC code and region |
| Aggregator.RowsWithKeyCells | src/transform_metrics.py:44-46 | every row of a key's group has that key's month and its product id, product name, ATC code and region |
| Aggregator.AggregateFailure | src/transform_metrics.py:44-52 | aggregation fails iff a grouping or aggregated column is missing, naming exactly the missing ones |
| Aggregator.AggregateRowsCorrect | src/transform_metrics.py:44-54 | one row per distinct key of the input rows; keys strictly ascending; each row aggregates exactly the non-empty set of input rows with its key, and every one of those rows carries the key's month and four key texts in its own cells |
| Aggregator.AggregateEmpty | src/transform_metrics.py:45-54 | an empty input gives an empty aggregate |
| Aggregator.AggregateConservation | src/transform_metrics.py:45-54 | the totals of units, sales and promotion days over all aggregate rows equal the sums over all grouped input rows |
| Aggregator.SummariseMean | src/transform_metrics.py:50 | the mean price is absent iff no row of the group has a price, and otherwise lies within any bounds of the prices |
| Aggregator.SummariseMeanValue | src/transform_metrics.py:50 | for any group, null prices included, the mean price is absent when no row has a price, and otherwise the sum of the prices over the number of priced rows |
| Aggregator.PricesSumCount | src/transform_metrics.py:50 | the prices `mean` averages are exactly as many as the priced rows, and sum to the group's prices with nulls counted as 0 |
| Aggregator.SummarisePricedMean | src/transform_metrics.py:50 | when every row of a group has a price, the mean is the price sum over the row count |
| Aggregator.SummariseSingle | src/transform_metrics.py:48-51 | a one-row group reports that row's units, sales, price and promotion flag |
| Aggregator.SummarisePositiveUnits | src/transform_metrics.py:48 | a group whose rows all sold units has at least one unit per row |
| Aggregator.SummariseTwoRows | src/transform_metrics.py:47-52 | units 10 and 20, prices 5.0 and 7.0, sales 50.0 and 140.0, flags 1 and 0 aggregate to 30, 190.0, 6.0 and 1 |
| Grouping.GroupByCorrect | src/transform_metrics.py:46 | group keys are strictly ascending and are exactly the input keys; each group holds the key's values in input order |
| Grouping.GroupBySize | src/transform_metrics.py:46 | the groups together hold exactly as many values as the input |
| Grouping.GroupByMapValues | src/transform_metrics.py:62-64 | grouping a projected column equals projecting the grouped rows |
| Grouping.GroupSumsCorrect | src/transform_metrics.py:62-64 | group sums have ascending keys, exactly the input keys, and each is the sum of the key's values |
| Grouping.GroupSumsTotal | src/transform_metrics.py:62-64 | the group sums add up to the sum of all values |
| Grouping.MeanBetween | src/transform_metrics.py:102 | a mean lies between any lower and upper bound of its values |
| Grouping.MeanSingle | src/transform_metrics.py:50 | the mean of one value is that value |
| Sorting.SortDesc | src/transform_metrics.py:89 | the sorted table is a permutation of its input with non-increasing values |
| Sorting.NLargestCorrect | src/transform_metrics.py:76 | nlargest(n) keeps min(n, size) entries, a sub-multiset of the input, non-increasing, and no entry left out exceeds one kept |
| Reports.MonthlyTotalsCorrect | src/transform_metrics.py:62-64 | months ascending, exactly the months present; each value is the total sales of the aggregate rows of that month; together they sum to all sales |
| Reports.ProductTotalsCorrect | src/transform_metrics.py:76 | product names ascending and distinct, exactly those present, each with the total sales of that name |
| Reports.TopProductsCorrect | src/transform_metrics.py:75-77 | at most 20 rows (fewer only with fewer products), non-increasing, each a product with its total, and no product left out sells more than one shown |
| Reports.AtcTotalsCorrect | src/transform_metrics.py:88-90 | a permutation of the per-code totals, non-increasing, exactly the codes present, each with its total sales |
| Reports.SeasonalityCorrect | src/transform_metrics.py:101-102 | month numbers ascending, exactly those present; each value is the group's sales sum over its non-zero row count; with valid dates the numbers lie in 1..12 |
| Reports.SeasonalityBetween | src/transform_metrics.py:102 | every seasonal mean lies within any bounds of the aggregate rows' total sales |
| Pipeline.PipelineConservation | src/transform_metrics.py:45-54 | with the full schema and the cleaned table handed to the aggregator directly, every cleaned row has a key, and the aggregate totals add up to the cleaned rows' units, sales and promotion days |
| Pipeline.PipelineRowsInRange | src/transform_metrics.py:48-50 | every aggregate row of cleaned data has at least one unit per row, non-negative sales, and a non-negative mean price equal to the price sum over the row count |
| Pipeline.MissingAtcColumn | src/ingest_clean.py:63 | an extract without an ATC code column is cleaned with its schema kept, but its aggregation fails naming that column |

## Left out

- File-existence checks and the messages printed before an early return (src/ingest_clean.py:36-41, src/transform_metrics.py:31-36) are I/O reporting.
- CSV reading and writing, date parsing and directory creation (src/ingest_clean.py:44, 67-69; src/transform_metrics.py:39, 57-58) are file I/O. The aggregator takes the cleaned records as they are. Re-reading the text `"nan"` or an empty string as a null, and pandas' column type inference, are not modelled.
- Which exception pandas raises is not modelled. A missing column gives `KeyError` in `dropna` and `groupby`/`agg`, and `ValueError` for `parse_dates`. All of these are one `MissingColumns` failure naming the missing columns. The program names only the first column the call fails on: `groupby` raises for the first missing grouping key and `agg` is then never reached. The model names the whole set `(GroupColumns + AggregatedColumns) - t.columns`, and likewise every missing critical column for `dropna`.
- Dates are (year, month, day) triples. Their validity is the parser's concern, and the time of day is not modelled.
- The `month` and `month_num` columns are added to tables in place (src/transform_metrics.py:41, 101). Here each is a value derived per row (`Aggregator.KeyOf`, `Reports.MonthNumOf`), not a stored column.
- Chart drawing and `save_figure` (src/transform_metrics.py:65-72, 78-85, 91-98, 103-110, 115-123; src/utils.py:12-26) belong to a plotting library and write files.
- The random sample for the scatter plot (src/transform_metrics.py:114) uses a seeded library generator.
- Prices, sales and means are exact reals, with no IEEE rounding. Units and promotion flags are unbounded integers. A promotion column with nulls, which pandas would hold as floats, is summed as integers with nulls counted as 0.
- `Sorting.SortDesc`: the order among equal totals is the library's and is not stated. The same holds for `Sorting.NLargestCorrect`, `Reports.TopProductsCorrect` and `Reports.AtcTotalsCorrect`.
- `Pipeline.PipelineConservation`: the conservation holds only when the cleaned table is handed to the aggregator directly. Between the two scripts the table goes through a CSV file (src/ingest_clean.py:68, src/transform_metrics.py:39), and pandas reads the text `"nan"` and empty fields back as nulls. A row whose product name or ATC code was null, which the cleaner writes as `"nan"` (src/ingest_clean.py:64), or whose key text stripped to the empty string, then has a null key and is dropped by the group-by (src/transform_metrics.py:46). The model keeps such rows.
- `Aggregator.SummarisePricedMean`: the mean price is the price sum over the row count only when every row of the group has a price. That holds for every cleaned row. pandas' `mean` averages the non-null prices, and that is what `Aggregator.Summarise` computes: `Aggregator.SummariseMeanValue` gives the mean of any group as the price sum over the number of priced rows, and `Aggregator.SummariseMean` bounds it.
