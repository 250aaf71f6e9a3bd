# Peek decision layer in Dafny

Peek is a command-line tool for inspecting CSV files. It has four commands:
`view`, `describe`, `plot` and `sentiment`. Almost everything it does is
delegated to a dataframe engine, a terminal renderer, a terminal plotter and
a lexicon-based sentiment scorer. This project models the small, pure
decision layer that Peek itself owns. It takes the library results (row
counts, per-column null and distinct counts, dtypes, cells, compound
scores) as inputs:

- `get_file_size` (module `FileSize`): picks the first of B, KB, MB, GB at
  which the byte count divided by 1024^k is below 1024, or else TB. It shows
  the count divided by 1024^k. The loop's repeated division is modelled as
  exact division on `real`.
- The health heuristics of `describe` (module `Health`). Each column gets a
  missing-data severity (Critical / Warning / Clean) and a unique-count note
  (Constant / IdLike / Plain). The insights list is built in schema order,
  and that list selects either the warnings panel or the clean-data panel.
  Percentages are compared exactly by integer cross-multiplication
  (`n_missing * 100 > 40 * total_rows`), and a lemma proves this is the
  same as comparing the rational percentage. With zero rows and at least
  one column, the first percentage divides by zero. The error handler then
  ends the command with exit code 1 before any table is printed. With zero
  rows and no columns, the loop never divides, and the command reports an
  empty table and the clean panel. Column names are embedded in Rich markup:
  the table prints every name as a markup cell. A name the markup parser
  refuses, such as `x[/y]` with a closing tag that has no opening tag, ends
  the command in the same handler with exit code 1. The parser's verdict on
  each name is an input (`markupOk`).
- Mode selection of `plot` (modules `Plot`, `ValueCounts`, `Columns`). A Y
  column means a scatter plot. Without one, the four dtypes Int64, Float64,
  Int32 and Float32 give a histogram of the non-null values. Every other
  dtype gives bars for the 15 most frequent values (nulls counted as a
  value), sorted by count, largest first. Dtypes are a closed datatype.
- Bucketing and the average label of `sentiment` (module `Sentiment`). A
  compound score of at least 0.05 is Positive, at most -0.05 is Negative,
  and anything else is Neutral. The mean is 0 for an empty sample. The
  average is labelled with strict thresholds, so an average of exactly 0.05
  is Neutral, while a single score of exactly 0.05 is bucketed Positive.

`Outcomes` holds the `Option` and `Result` types that stand in for Python's
`None` and for exceptions caught at a command boundary.

Two behaviours of the code are modelled as written. First, `if y_col:` is a
truth test, so an empty Y column name counts as no Y column (`Plot.HasY`).
Second, integer dtypes other than Int32 and Int64 (Int8, Int16, the
unsigned ones) are charted as categories. On the 20-row test fixture
(tests/conftest.py), the one blank `category` cell is exactly 5% missing.
The strict `>` therefore leaves that column clean, not flagged
(`Health.FixtureColumns`).

## Model

| member | source | states |
|---|---|---|
| FileSize.Walk | peek/main.py:17-21 | From pass k, the loop stops within the five units. The value it ends on, times 1024 for each further pass, gives back its input. It is below 1024 unless it reaches TB, and it is at least 1 once a division happened. |
| FileSize.FormatSize | peek/main.py:14-21 | The magnitude shown is the byte count divided by 1024^k for the chosen unit k. The scaled value is below 1024 unless the unit is TB. It was at least 1024 at the unit before the chosen one. |
| FileSize.FormatSizeFirstFit | peek/main.py:17-20 | No unit before the chosen one fits, so the unit is the first of B, KB, MB, GB that fits, and TB only when none does. |
| FileSize.FormatSizeMatchesThresholds | peek/main.py:17-21 | The chosen unit equals the one named by the byte thresholds 1024, 1024^2, 1024^3 and 1024^4 (an independent reference definition). |
| FileSize.FormatSizeMonotone | peek/main.py:17-21 | A larger byte count is never shown in a smaller unit. |
| Health.SeverityOf | peek/main.py:117-124 | The missing-data severity, compared by integer cross-multiplication. Its meaning against the rational percentage is stated by Health.SeverityByPercent, and its edges by Health.SeverityBoundaries. |
| Health.NoteOf | peek/main.py:127-135 | The unique-count note: Constant for one unique value, IdLike for as many unique values as rows, else Plain. When IdLike applies and what it adds is stated by Health.IdLikeAddsNoLine. |
| Health.ColumnInsights | peek/main.py:117-128 | The lines one column appends. Their shape and order are stated by Health.ColumnInsightsShape. |
| Health.PercentAbove | peek/main.py:112-124 | The missing percentage n/t*100 exceeds c exactly when n*100 > c*t. |
| Health.SeverityByPercent | peek/main.py:112-124 | Critical iff the missing percentage is above 40. Warning iff it is above 5 and at most 40. Clean iff it is at most 5. |
| Health.SeverityBoundaries | peek/main.py:117-124 | Exactly 40% missing is a Warning, and exactly 5% is Clean. |
| Health.ColumnInsightsShape | peek/main.py:116-135 | A column adds at most two lines, both naming it. The missing line appears iff the severity is not Clean, and it carries that severity. The constant line appears iff there is one unique value, whatever the missing count. When both appear, the missing line comes first. |
| Health.IdLikeAddsNoLine | peek/main.py:126-135 | The ID-like note applies iff unique == rows and unique != 1. Such a column adds no line beyond its missing line. |
| Health.Insights | peek/main.py:106-135 | The insights list has at most two entries per column. |
| Health.InsightsAppend | peek/main.py:106-128 | The insights of two consecutive runs of columns are the concatenation of their insights. |
| Health.InsightsInColumnOrder | peek/main.py:106-135 | Column i's lines come after those of every earlier column and before those of every later column. |
| Health.InsightsEmptyIff | peek/main.py:117-128 | The list is empty iff every column has at most 5% missing and no column has exactly one unique value. |
| Health.FlaggedColumnsReported | peek/main.py:117-128 | Every Critical or Warning column and every constant column has its line in the list. |
| Health.RowOf | peek/main.py:137 | The table row of one column: its name, dtype and counts with their severity and note. Health.Describe states that row i of the report is RowOf of column i. |
| Health.PanelFor | peek/main.py:142-146 | The warnings panel for a non-empty insights list, the clean panel otherwise. Health.Describe and Health.CleanPanelIff state which panel a report gets. |
| Health.NamesRender | peek/main.py:137-139 | Every column name, rendered as a table cell, is accepted by the markup parser. Health.Describe and Health.CleanPanelIff state that this decides success when rows are present. |
| Health.Describe | peek/main.py:93-150 | It fails with the zero-row error iff there are zero rows and at least one column. With rows, it fails with the markup error iff some column name is refused as markup. Otherwise there is one table row per column, in schema order. The clean panel is chosen iff the insights list is empty, and the warnings panel holds that list. |
| Health.RunHeuristics | peek/main.py:102-146 | The loop as written, followed by printing the table, computes exactly the report or error that Health.Describe defines. This includes stopping at the first division by zero before any markup is parsed. |
| Health.CleanPanelIff | peek/main.py:137-146 | With rows present, describe succeeds iff every column name renders as markup. It then shows the clean panel iff no column exceeds 5% missing and none is constant. |
| Health.DescribeExitCode | peek/main.py:137-150 | The exit code is 1 iff there are zero rows and some column, or some column name is refused as markup, and 0 otherwise. |
| Health.ExitCode | peek/main.py:148-150 | 0 after a report, 1 from the error handler. Health.DescribeExitCode states when each happens. |
| Health.UnmatchedTagNameFails | peek/main.py:128-150 | On five rows, a constant column named `x[/y]` that the parser refuses makes describe fail with the markup error and exit code 1, although rows are present. |
| Health.FixtureColumns | peek/main.py:117-135 | On 20 rows, 2 blanks give a Warning and 1 blank stays Clean. 20 unique values are ID-like. |
| Columns.Count | peek/main.py:192-196 | The count is positive iff the value occurs, and it never exceeds the length. |
| Columns.DropNulls | peek/main.py:192 | It keeps exactly the non-null values: length minus the null count, each one a cell value, and none dropped. |
| Columns.DropNullsAppend | peek/main.py:231 | drop_nulls keeps column order: it distributes over concatenation. |
| Columns.CountDropNulls | peek/main.py:192 | drop_nulls keeps each value exactly as often as it occurs among the non-null cells. |
| ValueCounts.Distinct | peek/main.py:196 | It lists no value twice, and lists exactly the values of the column. |
| ValueCounts.Tally | peek/main.py:196 | There is one pair per distinct value, with the value's true count, and every value of the column has its pair. |
| ValueCounts.Insert | peek/main.py:196 | Inserting into a list sorted by count, largest first, keeps it sorted. The result holds the old pairs plus the new one. |
| ValueCounts.SortByCountDesc | peek/main.py:196 | The result is sorted by count, largest first, and is a permutation (same multiset) of its input. |
| ValueCounts.SortSameMembers | peek/main.py:196 | Sorting neither adds nor drops a pair. |
| ValueCounts.SortKeepsUniqueLabels | peek/main.py:196 | Sorting keeps each value on one bar. |
| ValueCounts.TopCounts | peek/main.py:196 | There are min(15, distinct values) bars, sorted by count with largest first. Each value appears once, and each bar is a value of the column with its true count. |
| ValueCounts.TopCountsDominate | peek/main.py:196 | A value without a bar occurs no more often than any value with one. |
| ValueCounts.FewValuesAllShown | peek/main.py:196 | With at most 15 distinct values, every value gets its bar. |
| Plot.HasY | peek/main.py:182 | A Y column is present iff it is given with a non-empty name, as the truth test on the name decides. Plot.SelectChart states that this picks the scatter plot. |
| Plot.IsHistogramType | peek/main.py:191 | Exactly Int64, Float64, Int32 and Float32. Plot.KindFollowsDtype states that these, and only these, give a histogram. |
| Plot.SelectChart | peek/main.py:182-199 | A Y column (non-empty name) gives a scatter of both columns' cells. Without one, the four listed dtypes give a histogram of exactly the non-null values with the bin count passed through. Any other dtype gives the sorted top-15 value counts. |
| Plot.ScatterIgnoresDtype | peek/main.py:182-187 | With a Y column, changing the X dtype does not change the chart. |
| Plot.KindFollowsDtype | peek/main.py:188-199 | Without a Y column, the chart is a histogram iff the dtype is Int64, Float64, Int32 or Float32, and bars iff it is any other. |
| Plot.HistogramKeepsOrder | peek/main.py:190-192 | The histogram input keeps column order: more rows only extend it. |
| Plot.BarsAreMostFrequent | peek/main.py:194-198 | In the categorical chart, any value left off occurs no more often than every value shown. |
| Sentiment.BucketOf | peek/main.py:237-242 | The per-score bucket with inclusive thresholds. Sentiment.BucketsPartition and Sentiment.LabelAgreesOffBoundary state its meaning. |
| Sentiment.AverageLabel | peek/main.py:247-252 | The label of the average, with strict thresholds. Sentiment.LabelAgreesOffBoundary and Sentiment.BoundaryScoreDisagrees relate it to the bucket. |
| Sentiment.CountIn | peek/main.py:237-242 | The number of scores in one bucket never exceeds the number of scores. Sentiment.BucketsPartition states that the three counts add up to it. |
| Sentiment.Mean | peek/main.py:244 | The average, 0 for an empty sample. Sentiment.MeanTimesCount, Sentiment.MeanInRange and Sentiment.NeutralSampleIsNeutral state its meaning. |
| Sentiment.SampleTexts | peek/main.py:223-231 | At most `limit` texts: the non-null cells among the first `limit` rows. Each text comes from there, and each value is sampled exactly as often as it occurs there. |
| Sentiment.SampleTextsExtend | peek/main.py:223-231 | The sample is taken in row order: raising the limit keeps the texts already sampled in place and only appends the non-null cells of the further rows. |
| Sentiment.Summarize | peek/main.py:231-252 | The loop's bucket counts are the counts of scores in each bucket, and they add up to the sample size. The average is the mean, and the verdict is the label of the mean. |
| Sentiment.BucketsPartition | peek/main.py:233-242 | Every score is in exactly one bucket, so the counts add up to the number of texts. |
| Sentiment.LabelAgreesOffBoundary | peek/main.py:237-252 | The average label and the per-score bucket agree except at exactly +0.05 and -0.05, where the label is Neutral and the bucket is not. |
| Sentiment.MeanTimesCount | peek/main.py:244 | For a non-empty sample, the mean times the sample size is the sum. |
| Sentiment.MeanInRange | peek/main.py:244 | The mean of scores in [-1, 1] is in [-1, 1]. |
| Sentiment.NeutralSampleIsNeutral | peek/main.py:244-252 | If every text is bucketed Neutral (including when there are none), the average is strictly within (-0.05, 0.05) and labelled Neutral. |
| Sentiment.StronglyPositiveSampleIsPositive | peek/main.py:244-248 | A non-empty sample of scores all above 0.05 is labelled Positive. |
| Sentiment.BoundaryScoreDisagrees | peek/main.py:237-252 | A single score of exactly 0.05 is bucketed Positive, but the average of that sample is labelled Neutral. |

## Left out

- `view`, the existence check on the file path, and the `typer` argument
  parsing. These are I/O and plumbing, with no decision of Peek's own
  beyond what the dataframe engine does.
- The dataframe calls themselves: `scan_csv`, the combined count, null-count
  and n_unique aggregation, `collect_schema`, `read_csv`, `value_counts`.
  Their results are inputs: counts, dtypes and cells.
- Rich's markup grammar. Whether Rich accepts a column name as markup is
  the input `markupOk` of `Health.Describe`. The tags and escapes it parses
  are not modelled, and neither are names that parse but change styling.
- Rich tables, panels, and the `.0f`/`.1f`/`.2f` formatting of
  sizes, percentages and averages. This is presentation. The model keeps
  severities, notes, units and magnitudes, not strings. Plot titles and the
  bar chart of sentiment buckets are left out for the same reason.
- plotext drawing and histogram binning (foreign calls). The bin count is
  passed through unchanged.
- The plot command's column-not-found branch and its exception handler, and
  the exit codes of `plot` and `sentiment`. That is error plumbing around
  foreign calls.
- The VADER scorer. Compound scores enter as given reals, and the range
  [-1, 1] is a premise of the lemmas that need it.
- Health.SeverityByPercent: the source computes the percentage in binary
  floating point. The model compares exact rationals, so inputs where float
  rounding would cross a threshold are not modelled.
- FileSize.FormatSize: the byte count is converted to a binary float after
  the first division. The model divides exactly. The unit choice is
  unaffected below 2^53 bytes, and above that the unit is TB either way.
- Sentiment.Summarize: the sum and mean are computed in binary floating
  point, where 0.05 is not exact. The model uses exact reals.
- ValueCounts.SortByCountDesc: the dataframe engine leaves the order of
  equal counts unspecified. The model fixes one choice, a stable sort over
  first occurrences, and the proved properties do not depend on it.
