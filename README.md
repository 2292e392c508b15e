# Mean-rank aggregation of the CPA pathways survey

This project is a Dafny model of the aggregation step of `analyze_ranking()` in
`src/analyze_ranking.py`. The survey asks each respondent to rank seven
disciplines (columns `Q8_1` … `Q8_7`; rank 1 means most beneficial). The routine
runs these steps in order:

1. It checks that all seven ranking columns are in the table. If any are absent,
   it warns with their codes and stops.
2. It selects those columns.
3. It coerces them to numbers one column at a time. A cell that is not a number
   becomes missing (NaN).
4. It drops the rows in which all seven cells are missing.
5. It takes each column's mean over its non-missing cells.
6. It sorts the means in ascending order.
7. It renames each code to its discipline name.

The result is the series that is plotted and printed.

Modules, one per step:

- `Columns`: the fixed code-to-discipline mapping and the missing-column check.
- `Frame`: the loaded table, the column selection and the cell coercion (`pd.to_numeric(errors='coerce')`).
- `Aggregate`: `dropna(how='all')` and the per-column mean.
- `Ordering`: `sort_values()` and the index rename.
- `Analysis`: the routine itself. `AnalyzeRanking` is a method whose `for` loop overwrites the selected frame column by column, as the source's loop does.
- `Sequences` and `Wrappers`: general helpers.

Modelling choices:

- **Cell values.** A cell is `Blank`, `Number(v)` or `Text(s)`, as the file reader hands it over.
- **Missing values.** A missing value is `None` of an `Option<real>`.
- **Empty columns.** A column with no numbers has mean `None` (pandas gives NaN). The sort puts it after every number, matching `na_position='last'`.
- **Ties.** The sort promises ascending order and a permutation, nothing more. `sort_values()` defaults to quicksort, which is not stable, so the model promises no order between equal means. A stable order by original column is not guaranteed by the code, so the model does not claim it.
- **Sort, then rename.** The code sorts the series by mean while its labels are still the column codes, and renames the labels afterwards. The model follows the code's order. It proves that renaming a permutation gives a permutation of the renamed series (`Ordering.RenamePermutation`), and that `Ordering.Rename` keeps the series sorted.

## Model

| member | source | states |
|---|---|---|
| `Columns.RankingColumnsShape` | src/analyze_ranking.py:25-36 | the mapping has seven codes listed once each, the required list is exactly its keys, and no two codes share a discipline name |
| `Columns.MissingFrom` | src/analyze_ranking.py:39 | the result is a subsequence of the required list, holds exactly the required codes absent from the header, and repeats each absent code as often as the required list does |
| `Columns.MissingColumns` | src/analyze_ranking.py:36-40 | the missing list keeps the mapping's order, holds exactly the absent ranking codes, and is empty iff all seven are present |
| `Columns.MissingOnlyQ83` | src/analyze_ranking.py:36-42 | a header lacking only `Q8_3` yields exactly `["Q8_3"]` |
| `Frame.IndexOf` | src/analyze_ranking.py:44 | the position found holds the code and no earlier position does |
| `Frame.Select` | src/analyze_ranking.py:44 | the selection keeps every row, gives each row the seven ranking cells, and cell k is the row's cell under the header entry equal to code k |
| `Frame.AsNumber` | src/analyze_ranking.py:47-48 | a non-text cell reads as missing exactly when it is blank, and as v exactly when it holds the number v |
| `Frame.Coerce` | src/analyze_ranking.py:48 | a cell that is already a number or blank keeps its value; text goes through the stand-in parser, whose accepted shapes `Frame.DigitsText` and `Frame.ParseAcceptsOnlyShape` state; the result is a number or missing, never a failure |
| `Frame.ToCell` | src/analyze_ranking.py:47-48 | a coerced value is stored as a non-text cell, and coercing that cell again gives back the same value (coercion is idempotent) |
| `Frame.CoerceColumn` | src/analyze_ranking.py:47-48 | overwriting one column keeps the row count and the width, makes that column's cells numbers or missing, and leaves the other columns as they were |
| `Frame.NumericView` | src/analyze_ranking.py:47-51 | a block with no text cell left (every column coerced) reads as a numeric matrix of the same shape, and storing that matrix back as cells gives the block again |
| `Frame.ParseNatText` | src/analyze_ranking.py:48 | the stand-in parser reads back the decimal text of any whole number, with or without a minus sign |
| `Frame.DigitsText` | src/analyze_ranking.py:48 | the stand-in parser reads any non-empty digit string `w` as its value, and `w.f` for any non-empty digit strings (leading zeros allowed) as w plus f divided by ten to the number of digits of f |
| `Frame.ParseAcceptsOnlyShape` | src/analyze_ranking.py:48 | conversely, any text the stand-in reads as a number is an optional sign followed by digits, or by digits '.' digits |
| `Frame.NonNumericText` | src/analyze_ranking.py:46-48 | empty or non-numeric text becomes missing rather than a failure, and "3" becomes 3 |
| `Aggregate.DropEmptyRows` | src/analyze_ranking.py:50-51 | the result is a subsequence of the input, every kept row has a number, and each row occurs in the result exactly as often as in the input if it has a number and never otherwise |
| `Aggregate.DropEmptyRowsKeeps` | src/analyze_ranking.py:50-51 | dropping never increases the row count and keeps every input row that has a number |
| `Aggregate.Mean` | src/analyze_ranking.py:55 | a column's mean is NaN exactly when the column has no number, and otherwise the sum of its numbers divided by how many there are |
| `Aggregate.TotalIsSumOfPresent` | src/analyze_ranking.py:55 | the running total is the sum of the non-missing values and the count is their number |
| `Aggregate.MeanOfPresentValues` | src/analyze_ranking.py:53-55 | a column's mean is the sum of its non-missing values divided by their count; NaN exactly when it has none; missing cells are ignored, not counted as zero |
| `Aggregate.MeanWithinBounds` | src/analyze_ranking.py:53-55 | when every ranking lies in an interval, so does the mean |
| `Aggregate.AuditingScenario` | src/analyze_ranking.py:55 | the column [1, 2, missing] has mean 1.5 |
| `Aggregate.DropKeepsTotalAndCount` | src/analyze_ranking.py:50-55 | dropping all-missing rows changes neither the total nor the count of any column |
| `Aggregate.DropKeepsMean` | src/analyze_ranking.py:50-55 | dropping all-missing rows leaves each column's mean unchanged |
| `Aggregate.ColumnMeans` | src/analyze_ranking.py:55 | `mean()` yields seven entries in column order; entry k is keyed by code k and holds the sum of column k's non-missing values divided by their count, or NaN when the column has none |
| `Aggregate.DropKeepsColumnMeans` | src/analyze_ranking.py:50-55 | the series of means is the same with and without the optional row dropping |
| `Ordering.MeanLeqTotalPreorder` | src/analyze_ranking.py:55 | the order used by the sort (numbers ascending, NaN last) is reflexive, total and transitive |
| `Ordering.Insert` | src/analyze_ranking.py:55 | inserting into a sorted series keeps it sorted and adds exactly that entry |
| `Ordering.SortByMean` | src/analyze_ranking.py:55 | the sorted series is a permutation of its input with non-decreasing means, NaN last |
| `Ordering.PermutationKeepsDistinctKeys` | src/analyze_ranking.py:55 | reordering a series whose keys are distinct leaves them distinct |
| `Ordering.Rename` | src/analyze_ranking.py:58 | renaming keeps length, order and values, replaces each code by its discipline name, and preserves sortedness and key distinctness |
| `Ordering.RenamePermutation` | src/analyze_ranking.py:55-58 | renaming two permutations of each other gives two permutations of each other |
| `Analysis.CoercedRankings` | src/analyze_ranking.py:44-48 | coercion keeps the row count and gives every row exactly the seven ranking cells |
| `Analysis.ExpectedRanking` | src/analyze_ranking.py:25-55 | the reference series has one entry per discipline, with distinct names |
| `Analysis.SortedMeansHaveCodes` | src/analyze_ranking.py:55-58 | every index label reaching the rename is a code of the mapping |
| `Analysis.CoercedFrameView` | src/analyze_ranking.py:44-48 | after the column-by-column loop no text cell is left, and the numeric view of the frame is the coerced table |
| `Analysis.RenamedMeansAreReference` | src/analyze_ranking.py:55-58 | renaming the column means in column order gives each discipline paired with the mean of its own column |
| `Analysis.RankMeans` | src/analyze_ranking.py:51-58 | dropping, averaging, sorting and renaming the coerced rows gives seven entries with distinct discipline names, sorted ascending by mean with NaN last |
| `Analysis.RankMeansMeetReference` | src/analyze_ranking.py:50-58 | the result has exactly seven entries with distinct discipline names, is sorted by mean, and is a permutation of the disciplines' means over all rows |
| `Analysis.AnalyzeRanking` | src/analyze_ranking.py:36-58 | the routine warns exactly when a ranking column is absent, naming exactly the missing list and producing no means; otherwise it returns seven distinct disciplines sorted ascending by mean, as a permutation of each discipline's mean over the coerced cells of all rows |

## Left out

- Reading the CSV file (lines 14-22), including the three-row header. The model starts from a `Table` whose header holds the first row's codes and whose rows are data rows. `df_header` and `columns` (lines 17-18) are never used and are not modelled.
- Frame.WellFormed: the model assumes distinct column codes and one cell per column in every row. The pandas reader guarantees both, so these are not demands on the caller. Duplicate headers are renamed by pandas and are not modelled.
- Frame.ParseDecimal: a stand-in for `pd.to_numeric`'s grammar. It accepts an optional sign, digits and an optional `.digits` part. Exponents, surrounding whitespace, `inf`/`nan` spellings, and a missing digit on either side of the point (`3.`, `.5`, which pandas reads as 3.0 and 0.5 and the stand-in treats as missing) are not modelled.
- Floating-point rounding: the means are computed in exact `real` arithmetic.
- Ordering.SortByMean: promises sortedness and a permutation, but no order among equal means. The default quicksort of `sort_values()` is not stable.
- Ordering.Rename: requires every label to be a code of the mapping. Here that always holds, because the labels are the seven codes. An unknown label (pandas would give NaN) is not modelled.
- Plotting, styling, value labels and tick rotation (lines 61-78), and the mean formatting to two decimals.
- Creating the output directory, saving the image and printing to the console (lines 41, 81-89). The warning's content is the `missing` field of `Analysis.Outcome`, and the printed series is the `means` field.
- Filesystem errors are not modelled. In the source they propagate as uncaught exceptions.
