# DataCleanAI: a verified model of the quality analyzer and the cleaning pipeline

This project models in Dafny the rule-based core of DataCleanAI's backend:

- **`DataQualityAnalyzer`** computes a quality report for a table:
  - missing values, their severity and runs of consecutive nulls;
  - exact duplicates;
  - IQR, z-score and modified z-score outliers, the machine-learning detectors' outlier lists, and the union of all of them;
  - suspected mixed types and dtype suggestions;
  - distribution shapes and highly correlated column pairs;
  - a clamped quality score and a list of recommendations.
- **`AutoDataCleaner`** is a stateful six-stage pipeline:
  1. imputation chosen by missing percentage;
  2. outlier-row removal followed by IQR capping;
  3. keep-first deduplication;
  4. dtype standardisation;
  5. string clean-up and case normalisation;
  6. scaling and label encoding.

  It records every step in `cleaning_results`, and keeps the fitted imputers, encoders and scalers.
- **The recommendation rule table** of the analysis endpoint turns a stored report into severity-tagged recommendations.

A table (`Tables`) is a sequence of integer row labels and an ordered sequence of named, typed columns. A cell is `Option<Value>`: `None` is pandas' null, and a value is a number, a string or a timestamp. Arithmetic is exact (`real`). A quantity Python can make NaN (0/0 on an empty table, the skew of a tiny column) is a `Float`, with NaN comparing false as in Python.

The numerical routines the code borrows from pandas, numpy, scipy and scikit-learn are fields of a `Library` value supplied by the caller (`Foreign`):

- quantiles, medians, standard deviation, skew and kurtosis;
- z-scores and correlations;
- the IsolationForest and LocalOutlierFactor flags;
- KNN fills and standard scaling;
- the number parser, the date parser (both for one string and for a whole column, where pandas infers one format from the column), and `str()` of a value.

Every decision the modelled functions take on their results is modelled. The decisions the code takes in functions that are not modelled (the string-length spread of the format check, near-duplicate detection, the normality test) are listed under "## Left out".

The cleaner is modelled twice, and the two are proved to agree:

- Each stage is a function on a `Pipeline`: the table, `cleaning_results` and the fitted objects. A stage that can raise returns a `Result`.
- The class `AutoCleaner.AutoDataCleaner` keeps the source's fields. Its stage methods run the source's loops over those fields, and each is proved to reach the state its stage function describes.

Likewise, the loops of the analyzer are methods (`FindMissingClusters`, `CombineOutlierResults`, `FindHighCorrelations`, `BuildAdvice`, `CalculateQualityScore`). Each is proved equal to a specification function whose properties are proved as lemmas.

A few behaviours of the code are modelled as written, even where they look unintended:

- `drop_column` removes the column, but the empty series it returns is assigned back. The column therefore reappears, all-null, at the end of the table (`MissingStage.DropAndReappend`).
- Type standardisation compares a suggestion such as `"numeric"` with a pandas dtype name such as `"float64"`. Every non-object column is therefore "converted" and logged on every run (`TypeStandardization.NonObjectColumnsConvert`).
- Abbreviations are replaced as case-insensitive substrings, so `"Ukraine"` becomes `"United Kingdomraine"` (`TextNormalization.SubstringQuirk`).
- Exactly 20% missing is `high` for the analyzer but `medium` for the endpoint (`Recommendations.TwentyPercentTiers`).
- `_handle_outliers` returns at once without an analysis, so no capping runs either (`OutlierHandling.OutlierStage`). This follows the code: data_cleaner.py:211-212 returns `df` before any capping when `analysis_results` is falsy or has no `outliers` key.
- An all-null column parses as dates, so it is suggested and converted as datetime (`TypeAnalysis.AllNullSuggestsDatetime`, `TypeStandardization.AllNullBecomesDatetime`).
- `_detect_date_formats` returns at most one format, so `mixed_date_formats` is never reported (`TypeAnalysis.CheckMixedTypes`).
- `pd.to_numeric` reads a datetime64 column as its int64 view, NaT included. The analyzer therefore never reports such a column as mixed and suggests `numeric` for it, while the cleaner keeps it as datetime (`Analyzer.DatetimeColumnsReportedNumeric`, `TypeStandardization.DatetimeSuggestionsDisagree`). Timestamp objects in an object column, on the other hand, never convert to numbers (`TypeAnalysis.StampsDoNotCount`).
- The analysis raises in three cases, checked in this order:
  - on a table with a repeated column name (`missing_series.any()` is then ambiguous);
  - on a table with rows but no columns (the `keep=False` mask cannot be aligned);
  - on a table with an object column whose present values are all numbers or all timestamps, at least one present (the format check calls `series.str.len()`, and the `.str` accessor refuses such a column).
  
  `Analyzer.Analyze` returns the error in each case (`Analyzer.NumericObjectColumnRaises`).

## Model

Source paths are relative to the repository root.

| member | source | states |
|---|---|---|
| Floats.Percent | backend/app/ml/data_analyzer.py:67 | `(part / whole) * 100` is NaN exactly when the whole is 0; otherwise it lies in [0, 100], and times the whole it equals 100 times the part |
| Floats.PyMin | backend/app/ml/data_analyzer.py:562 | Python's `min(100.0, score)` is never above 100, picks the score when it is the smaller number, and gives 100 when the score is NaN |
| Floats.PyMax | backend/app/ml/data_analyzer.py:562 | `max(0.0, x)` is at least both arguments and equal to one of them |
| Floats.Abs | backend/app/ml/data_analyzer.py:469 | `abs` keeps NaN as NaN and otherwise gives the non-negative magnitude |
| Floats.QuotientCompare | backend/app/ml/data_analyzer.py:413 | a ratio over a positive count exceeds (or falls below) a threshold exactly when the numerator exceeds (or falls below) threshold times count |
| Tables.FillNulls | backend/app/ml/data_cleaner.py:200 | `fillna(v)` puts v in every null cell, keeps every present cell, and leaves no null |
| Tables.NullCountZero | backend/app/ml/data_analyzer.py:117 | a column's null count is 0 exactly when every cell is present |
| Tables.NullCountFull | backend/app/ml/data_analyzer.py:93 | a column's null count equals its length exactly when every cell is null |
| Tables.SelectRows | backend/app/ml/data_cleaner.py:228 | selecting row positions keeps every column's name and dtype and takes each column's cell at each selected position, with its label |
| Tables.ReplaceColumn | backend/app/ml/data_cleaner.py:88 | `df[col] = ...` for an existing column replaces that column only, keeping labels, order and distinct names |
| Tables.ColumnNamedUnique | backend/app/ml/data_cleaner.py:82 | with distinct column names, looking a column up by its name finds that very column |
| MissingData.TotalMissingBound | backend/app/ml/data_analyzer.py:65-66 | `total_missing` never exceeds `df.size` |
| MissingData.MissingPercentage | backend/app/ml/data_analyzer.py:65-67 | the percentage is NaN exactly when the table has no row or no column; otherwise it lies in [0, 100] and equals 100 times the null cells over the cells |
| MissingData.ColumnMissingMapEntry | backend/app/ml/data_analyzer.py:70-71 | the entry for a column (the last one of a repeated name) holds its null count and that count as a percentage of the rows |
| MissingData.AssessMissingSeverity | backend/app/ml/data_analyzer.py:138-145 | `low` exactly when the percentage is below 5, `high` exactly when it is at least 20 or NaN, `medium` otherwise |
| MissingData.MissingSeverityMonotone | backend/app/ml/data_analyzer.py:138-145 | a larger missing percentage never gives a lower severity |
| MissingData.CompletelyMissingColumns | backend/app/ml/data_analyzer.py:93 | the listed names are exactly those of the columns whose every cell is null |
| MissingData.NullRowsCountsEveryRow | backend/app/ml/data_analyzer.py:96 | every all-null row is counted as completely missing |
| MissingData.NoColumnsAllRowsMissing | backend/app/ml/data_analyzer.py:96 | on a table without columns every row counts as completely missing, since `all` over no cells is true |
| MissingData.RunStop | backend/app/ml/data_analyzer.py:119-126 | the null run starting at a position covers only nulls and stops at a present cell or at the end |
| MissingData.RunsAreNull | backend/app/ml/data_analyzer.py:122-126 | every cell of every cluster is null |
| MissingData.RunsAreMaximal | backend/app/ml/data_analyzer.py:119-126 | every cluster is non-empty and is bounded on each side by a present cell or by the column's edge |
| MissingData.RunsSeparated | backend/app/ml/data_analyzer.py:119-122 | clusters come in row order, with at least one present cell between neighbours, so they are disjoint |
| MissingData.RunsCoverNulls | backend/app/ml/data_analyzer.py:115-134 | every null lies in some cluster |
| MissingData.NoNullsNoRuns | backend/app/ml/data_analyzer.py:117 | a column without nulls yields no cluster |
| MissingData.ClusterLengthsCountNulls | backend/app/ml/data_analyzer.py:126 | the lengths of a column's clusters add up to its null count |
| MissingData.ClusterSpan | backend/app/ml/data_analyzer.py:124-126 | on a default row index, `end_index - start_index + 1 == length` for every cluster |
| MissingData.ScanNullRun | backend/app/ml/data_analyzer.py:119-126 | the scan over a null run stops exactly where the run ends |
| MissingData.ColumnClustersLoop | backend/app/ml/data_analyzer.py:115-134 | the loop over one column appends exactly that column's clusters, in row order |
| MissingData.FindMissingClusters | backend/app/ml/data_analyzer.py:110-136 | raises exactly when two columns share a name; otherwise the loop over all columns returns every column's clusters, column after column |
| MissingData.SharedNameIffRepeated | backend/app/ml/data_analyzer.py:115-117 | some column shares its name with another exactly when the names are not distinct |
| MissingData.AnalyzeMissing | backend/app/ml/data_analyzer.py:60-86 | raises exactly when two columns share a name; otherwise the report never counts more missing than cells, its severity is `low` exactly below 5% and `high` on NaN, and every column has a per-column entry |
| Duplicates.RepeatsAtMostShared | backend/app/ml/data_analyzer.py:150-154 | `duplicated()` (keep first) never counts more rows than `duplicated(keep=False)` |
| Duplicates.RepeatsZero | backend/app/ml/data_analyzer.py:150 | no row is counted exactly when no row equals an earlier row |
| Duplicates.SharedZero | backend/app/ml/data_analyzer.py:154 | no row is counted by `keep=False` exactly when no row equals another row |
| Duplicates.DuplicatesDetectedAlike | backend/app/ml/data_analyzer.py:150-154 | the two duplicate counts are zero together |
| Duplicates.RepeatsPlusDistinct | backend/app/ml/data_analyzer.py:150 | the repeats plus the number of distinct rows equal the number of rows, so the first occurrence is never counted |
| Duplicates.DuplicatedRows | backend/app/ml/data_analyzer.py:150 | `duplicated()` counts no row on a table without columns, and never more than the rows |
| Duplicates.KeptPositions | backend/app/ml/data_cleaner.py:270 | `drop_duplicates` keeps, in their order, exactly the rows that are not repeats; their number is the rows minus the repeats |
| Duplicates.KeptCoversRow | backend/app/ml/data_cleaner.py:270 | every row's value survives in some kept row |
| Duplicates.KeptRowsDistinct | backend/app/ml/data_cleaner.py:270 | the kept rows are pairwise different |
| Duplicates.DropDuplicates | backend/app/ml/data_cleaner.py:270 | the result keeps the columns and has as many rows as the input minus its repeats; a table without columns is returned unchanged |
| Duplicates.DropDuplicatesLeavesNone | backend/app/ml/data_cleaner.py:270 | the result has no repeated row, including when the table has no columns |
| Duplicates.NoRepeatsKeepsAll | backend/app/ml/data_cleaner.py:270 | without repeats every row position is kept |
| Duplicates.DropDuplicatesIdempotent | backend/app/ml/data_cleaner.py:270 | dropping duplicates twice gives the same table as once, with or without columns |
| Duplicates.AssessDuplicateSeverity | backend/app/ml/data_analyzer.py:195-202 | `low` exactly below 1%, `high` exactly at 10% or more or on NaN, `medium` otherwise |
| Duplicates.AnalyzeDuplicates | backend/app/ml/data_analyzer.py:147-165 | raises exactly for rows without columns; otherwise the exact duplicates are `duplicated()`'s count, at most the duplicate rows, which are at most the rows; both are zero together; the percentage is NaN exactly for an empty table; no duplicates on a non-empty table is `low` |
| Outliers.NumericColumns | backend/app/ml/data_analyzer.py:207 | exactly the columns of a numeric dtype |
| Outliers.Points | backend/app/ml/data_analyzer.py:231 | `dropna()` keeps the present numbers in order, each with its row label |
| Outliers.Flagged | backend/app/ml/data_analyzer.py:242-244 | the labels of exactly the points the test flags |
| Outliers.IqrFences | backend/app/ml/data_analyzer.py:236-240 | the fences lie 4 IQR apart, are symmetric about (Q1 + Q3) / 2, and enclose [Q1, Q3] |
| Outliers.ModifiedZDistance | backend/app/ml/data_analyzer.py:251-254 | with a positive MAD a value is flagged exactly when 0.6745 times its distance from the median exceeds 3.5 MAD |
| Outliers.ColumnStatistics | backend/app/ml/data_analyzer.py:230-266 | each count is its list's length, every listed label is a row label, and every point strictly outside the fences is listed |
| Outliers.IqrListIff | backend/app/ml/data_analyzer.py:242-244 | a label is in the IQR list exactly when a present value with that label lies strictly outside the fences, so values on a fence are never flagged |
| Outliers.StatisticalOutliers | backend/app/ml/data_analyzer.py:225-268 | at most one entry per numeric column, and every label listed is a row label |
| Outliers.FillWithMedian | backend/app/ml/data_analyzer.py:276 | the median fill keeps name, dtype and length, and leaves no null when the column has a number |
| Outliers.DetectorLabels | backend/app/ml/data_analyzer.py:285 | the rows a detector marks -1 are reported by their row labels |
| Outliers.MlOutliers | backend/app/ml/data_analyzer.py:270-307 | "insufficient data" exactly when there are fewer than 10 rows; every label a detector reports is a row label |
| Outliers.Concat | backend/app/ml/data_analyzer.py:321-329 | an index is in the concatenation exactly when it is in one of the lists |
| Outliers.Dedup | backend/app/ml/data_analyzer.py:318-332 | the deduplicated list has the same members |
| Outliers.DedupDistinct | backend/app/ml/data_analyzer.py:331-332 | the deduplicated list has no repeats |
| Outliers.DedupSnoc | backend/app/ml/data_analyzer.py:324 | adding one index appends it exactly when it has not been seen |
| Outliers.AddAll | backend/app/ml/data_analyzer.py:324 | `update` with a list leaves the list of everything seen so far, without repeats, and a set of exactly its elements |
| Outliers.CombineOutlierResults | backend/app/ml/data_analyzer.py:309-334 | the loops over the statistical and ML results compute the combined result of the specification |
| Outliers.CombinedIsUnion | backend/app/ml/data_analyzer.py:309-334 | `total_outliers` is the length of the index list, which has no repeats and holds exactly the indices of some per-column statistical list or ML list |
| Outliers.AnalyzeOutliersSpec | backend/app/ml/data_analyzer.py:204-223 | the "no numeric columns" message is returned exactly when no column is numeric |
| Outliers.IndexListsWithin | backend/app/ml/data_analyzer.py:321-329 | when every detector reports row labels only, so does the union |
| Outliers.CombinedLabelsExist | backend/app/ml/data_analyzer.py:204-223 | every combined outlier index is a row label of the analysed table |
| TypeAnalysis.NumericCount | backend/app/ml/data_analyzer.py:364 | the values `to_numeric` accepts are never more than the cells, and outside a datetime64 column never more than the present cells |
| TypeAnalysis.NumbersCount | backend/app/ml/data_analyzer.py:364 | outside a datetime64 column, when every present cell is a number, exactly the present cells are counted as numeric |
| TypeAnalysis.StampsDoNotCount | backend/app/ml/data_analyzer.py:364 | outside a datetime64 column, nulls and timestamp objects never count as numeric |
| TypeAnalysis.DatetimeCountsAll | backend/app/ml/data_analyzer.py:364 | in a datetime64 column every cell counts as numeric, NaT included |
| TypeAnalysis.DetectDateFormats | backend/app/ml/data_analyzer.py:394-407 | at most one format is returned, exactly when some string parses as a date |
| TypeAnalysis.CheckMixedTypes | backend/app/ml/data_analyzer.py:359-375 | the only issue ever reported is `mixed_numeric_string`, exactly when some but not all cells are numeric for the column's dtype |
| TypeAnalysis.NullsCountAsStrings | backend/app/ml/data_analyzer.py:364-368 | a column of numbers (not datetime64) with some, but not all, cells null is reported as mixed |
| TypeAnalysis.DatetimeNeverMixed | backend/app/ml/data_analyzer.py:364-368 | a datetime64 column is never reported as mixed |
| TypeAnalysis.MostlyNumericRatio | backend/app/ml/data_analyzer.py:413 | "mostly numeric" is the source's ratio test `> 0.8` on the dtype-aware numeric count |
| TypeAnalysis.FewDistinctRatio | backend/app/ml/data_analyzer.py:424-425 | "few distinct" is the source's ratio test `< 0.5` |
| TypeAnalysis.SuggestDtype | backend/app/ml/data_analyzer.py:409-428 | `numeric` exactly when mostly numeric for the column's dtype; else `datetime` exactly when the column parses as dates; else `categorical` exactly when few values are distinct; else `object` |
| TypeAnalysis.AllNullSuggestsDatetime | backend/app/ml/data_analyzer.py:417-419 | an all-null column that is not datetime64 is suggested as datetime |
| TypeAnalysis.DatetimeSuggestsNumeric | backend/app/ml/data_analyzer.py:411-413 | a non-empty datetime64 column is suggested as numeric |
| TypeAnalysis.AnalyzeDataTypes | backend/app/ml/data_analyzer.py:336-357 | raises (the `.str` accessor refusing) exactly when some object column holds only numbers or only timestamps; otherwise one entry per column, in order, with the column's dtype name, `mixed_types` non-empty exactly when some but not all cells are numeric for its dtype, and the column's suggestion |
| TypeAnalysis.ObjectNumbersRaise | backend/app/ml/data_analyzer.py:377-383 | an object column with at least one present value, every present value a number, makes the type analysis raise |
| TypeAnalysis.SomeStringPassesFormatCheck | backend/app/ml/data_analyzer.py:377-383 | an object column holding some string, or no value at all, passes the format check without raising |
| Distributions.Min | backend/app/ml/data_analyzer.py:447 | the minimum is a member, below every member |
| Distributions.Max | backend/app/ml/data_analyzer.py:448 | the maximum is a member, above every member |
| Distributions.SumBounds | backend/app/ml/data_analyzer.py:442 | a sum of values within [lo, hi] lies within n·lo and n·hi |
| Distributions.Mean | backend/app/ml/data_analyzer.py:442 | the mean lies between the minimum and the maximum |
| Distributions.ColumnStatisticsOf | backend/app/ml/data_analyzer.py:441-451 | min ≤ mean ≤ max, and min and max are values of the column |
| Distributions.AssessDistributionType | backend/app/ml/data_analyzer.py:464-476 | `normal` exactly when both |skew| and |kurtosis| are below 0.5; otherwise `right_skewed` exactly when skew > 1, `left_skewed` exactly when skew < -1, else `approximately_normal` |
| Distributions.ShapeMirrors | backend/app/ml/data_analyzer.py:469-476 | negating the skew swaps right- and left-skewed and keeps the other shapes |
| Distributions.NaNSkewIsApproximatelyNormal | backend/app/ml/data_analyzer.py:469-476 | a NaN skew fails every comparison and gives `approximately_normal` |
| Distributions.AnalyzeDistributions | backend/app/ml/data_analyzer.py:430-462 | at most one entry per column, each with min ≤ mean ≤ max |
| Distributions.CorrelationMatrix | backend/app/ml/data_analyzer.py:510-513 | the matrix is square over the numeric columns |
| Distributions.FindHighCorrelations | backend/app/ml/data_analyzer.py:524-540 | the nested loops return exactly the upper-triangle pairs of the specification |
| Distributions.RowPairsMembers | backend/app/ml/data_analyzer.py:530-538 | for row i, exactly the entries of the columns j > i whose |c| ≥ 0.8 are listed, tagged `positive` exactly when c > 0 |
| Distributions.PairsUpToMembers | backend/app/ml/data_analyzer.py:524-540 | the listed pairs are exactly the pairs (i, j) with i < j and |c| ≥ 0.8 |
| Distributions.RowPairsDistinct | backend/app/ml/data_analyzer.py:530-538 | with distinct names, the pairs of one row all start with that row's name and never repeat a second name |
| Distributions.HighPairsDistinct | backend/app/ml/data_analyzer.py:529-538 | with distinct names, no pair pairs a column with itself and no pair appears twice |
| Distributions.AnalyzeCorrelations | backend/app/ml/data_analyzer.py:502-522 | "insufficient columns" exactly when fewer than two columns are numeric |
| Quality.QualityScore | backend/app/ml/data_analyzer.py:542-562 | the score lies in [0, 100], equals the raw score when that lies in range, and is clamped to 0 or 100 otherwise |
| Quality.PerfectScore | backend/app/ml/data_analyzer.py:542-562 | no missing, duplicated or outlying data scores 100 |
| Quality.NaNScoresPerfect | backend/app/ml/data_analyzer.py:548-562 | a NaN missing percentage (an empty table) scores 100, since `min` keeps its first argument on NaN |
| Quality.NoRowsNoOutlierPenalty | backend/app/ml/data_analyzer.py:558 | with no rows the outlier count does not change the score |
| Quality.ScoreMonotone | backend/app/ml/data_analyzer.py:544-562 | more missing, duplicated or outlying data never raises the score |
| Quality.MixedAt | backend/app/ml/data_analyzer.py:596-597 | the positions of the mixed columns, strictly increasing, each naming a column whose `mixed_types` is non-empty |
| Quality.MixedAtCovers | backend/app/ml/data_analyzer.py:596-597 | every column whose `mixed_types` is non-empty has its position among the mixed positions |
| Quality.MixedColumnAdvice | backend/app/ml/data_analyzer.py:595-601 | exactly one mixed-types recommendation per column whose `mixed_types` is non-empty, in column order, and nothing else |
| Quality.GenerateAdvice | backend/app/ml/data_analyzer.py:564-603 | a missing-data line exactly above 5%, a duplicates line exactly above 1%, an outlier line exactly when combined outliers are positive, these at most three first, then exactly one mixed-types line per mixed column in column order |
| Quality.BuildAdvice | backend/app/ml/data_analyzer.py:564-603 | the appending code computes exactly the recommendation list of the specification |
| Analyzer.MixedFlags | backend/app/ml/data_analyzer.py:596-597 | one flag per `data_types` entry, set exactly when its `mixed_types` is non-empty |
| Analyzer.ScoreOf | backend/app/ml/data_analyzer.py:542-562 | a report's score lies in [0, 100] |
| Analyzer.Analyze | backend/app/ml/data_analyzer.py:26-48 | raises exactly on a repeated column name (ambiguous truth value), on rows without columns (unalignable mask) or on an object column the `.str` accessor refuses, with the first of these errors; otherwise the report holds the table's shape, the missing, duplicate, outlier and type analyses of the table, and the score and recommendations computed from the report itself |
| Analyzer.NumericObjectColumnRaises | backend/app/ml/data_analyzer.py:377-383 | a table with distinct column names and an object column of numbers and nulls, with at least one number, is not analysed: the `.str` accessor's error is raised |
| Analyzer.CleanTableScoresPerfect | backend/app/ml/data_analyzer.py:542-562 | a non-empty table with distinct column names and without nulls, duplicates or numeric columns is analysed exactly when no object column holds only numbers or only timestamps, and then scores 100 |
| Analyzer.NoNullsNoMissingPct | backend/app/ml/data_analyzer.py:65-67 | a non-empty table with distinct column names and without nulls is analysed and has 0% missing |
| Analyzer.NoRepeatsNoDuplicatePct | backend/app/ml/data_analyzer.py:150-151 | a non-empty table with columns and without repeats is analysed and has 0% duplicates |
| Analyzer.DatetimeColumnsReportedNumeric | backend/app/ml/data_analyzer.py:336-357 | in a report of a non-empty table, every datetime64 column is not mixed and is suggested as numeric |
| Analyzer.ZeroMissing | backend/app/ml/data_analyzer.py:65 | columns without nulls have no missing cell in total |
| Analyzer.DataQualityAnalyzer.constructor | backend/app/ml/data_analyzer.py:22-24 | a new analyzer has no stored report |
| Analyzer.DataQualityAnalyzer.CalculateQualityScore | backend/app/ml/data_analyzer.py:542-562 | subtracting the penalties in turn from 100 and clamping gives the stored report's score, in [0, 100] |
| Analyzer.DataQualityAnalyzer.GenerateRecommendations | backend/app/ml/data_analyzer.py:564-603 | the recommendations built from the stored report are the specification's |
| Analyzer.DataQualityAnalyzer.AnalyzeDataset | backend/app/ml/data_analyzer.py:26-48 | raises exactly when the specification does, leaving the stored report as it was; otherwise the report returned and stored is the specification's report of the table |
| TextNormalization.ToUpper | backend/app/ml/data_cleaner.py:377-379 | upper-casing keeps letters letters and spaces spaces and leaves no lower-case letter |
| TextNormalization.ToLower | backend/app/ml/data_cleaner.py:377-379 | lower-casing keeps letters letters and spaces spaces and leaves no upper-case letter |
| TextNormalization.LowerAll | backend/app/ml/data_cleaner.py:369 | the lower-cased string has the same length, lower-casing each character |
| TextNormalization.TrimStart | backend/app/ml/data_cleaner.py:355 | the result is a suffix of the input, only whitespace is cut, and it does not start with whitespace |
| TextNormalization.TrimEnd | backend/app/ml/data_cleaner.py:355 | the result is a prefix of the input and does not end with whitespace |
| TextNormalization.Strip | backend/app/ml/data_cleaner.py:355 | `strip()` leaves no whitespace at either end |
| TextNormalization.CollapseSpaces | backend/app/ml/data_cleaner.py:358 | `replace(r'\s+', ' ')` leaves no two adjacent whitespace characters and only plain spaces, and keeps the first character or turns it into a space |
| TextNormalization.CollapseKeepsLast | backend/app/ml/data_cleaner.py:358 | collapsing keeps a non-space last character |
| TextNormalization.StripThenCollapseIsTidy | backend/app/ml/data_cleaner.py:355-358 | stripping then collapsing leaves no outer whitespace and no whitespace run |
| TextNormalization.NoMatchUnchanged | backend/app/ml/data_cleaner.py:369 | replacement without a match leaves the string unchanged |
| TextNormalization.ReplaceKeepsTidy | backend/app/ml/data_cleaner.py:369 | replacing with a tidy text creates no whitespace run and no outer whitespace the input did not have |
| TextNormalization.ReplaceIgnoreCaseTidy | backend/app/ml/data_cleaner.py:369 | case-insensitive replacement keeps a tidy string tidy |
| TextNormalization.ReplacementsAreTidy | backend/app/ml/data_cleaner.py:361-366 | "United States" and "United Kingdom" are tidy replacements |
| TextNormalization.StandardizedIsTidy | backend/app/ml/data_cleaner.py:352-371 | `_standardize_strings` leaves no outer whitespace and no run of whitespace |
| TextNormalization.Capitalize | backend/app/ml/data_cleaner.py:379 | `capitalize()` upper-cases the first character and lower-cases the rest |
| TextNormalization.Title | backend/app/ml/data_cleaner.py:377 | `title()` upper-cases each letter that starts a word and lower-cases every other character |
| TextNormalization.UpperLowerFixpoints | backend/app/ml/data_cleaner.py:377-379 | applying a case twice, or one case after the other, is the same as applying the last one |
| TextNormalization.TitleIdempotent | backend/app/ml/data_cleaner.py:377 | title-casing twice is title-casing once |
| TextNormalization.CapitalizeIdempotent | backend/app/ml/data_cleaner.py:379 | capitalizing twice is capitalizing once |
| TextNormalization.CaseKeepsTidy | backend/app/ml/data_cleaner.py:373-379 | the case step keeps a tidy string tidy |
| TextNormalization.StandardizeCase | backend/app/ml/data_cleaner.py:373-379 | title case exactly when the lower-cased column name contains `name`, `title` or `category`, capitalize otherwise |
| TextNormalization.NormalizeText | backend/app/ml/data_cleaner.py:345-348 | the cleaned string is tidy, and running the case step on it again changes nothing |
| TextNormalization.SubstringQuirk | backend/app/ml/data_cleaner.py:363-369 | replacing `uk` case-insensitively turns "Ukraine" into "United Kingdomraine" |
| Imputation.SelectImputationMethod | backend/app/ml/data_cleaner.py:122-147 | `drop_column` exactly above 50%; for numeric columns `mean` below 5, `median` below 20, `knn` otherwise; for other columns `mode` below 10, `constant` otherwise |
| Imputation.SelectionEscalates | backend/app/ml/data_cleaner.py:128-147 | a larger missing percentage never selects an earlier method in the tier order, and exactly 50% is not dropped |
| Imputation.CountPresent | backend/app/ml/data_cleaner.py:168-169 | a present value occurs at least once |
| Imputation.Better | backend/app/ml/data_cleaner.py:168-169 | of two values, the one kept is not beaten by the other in frequency, then order |
| Imputation.NotBeatenTransitive | backend/app/ml/data_cleaner.py:168-169 | "not beaten" is transitive |
| Imputation.ModeUpTo | backend/app/ml/data_cleaner.py:168-169 | over a prefix, the mode is a present value that no present value beats, and is absent only for an all-null prefix |
| Imputation.Mode | backend/app/ml/data_cleaner.py:168-169 | the most frequent present value, the smallest one on a tie; absent exactly for an all-null column |
| Imputation.SimpleFill | backend/app/ml/data_cleaner.py:155-171 | a fitted imputer fills every null with its statistic and changes nothing else |
| Imputation.MeanImpute | backend/app/ml/data_cleaner.py:155-159 | fails exactly when there is no number; otherwise fills nulls only, with the mean of the present numbers, which lies between their minimum and maximum |
| Imputation.MedianImpute | backend/app/ml/data_cleaner.py:161-165 | fails exactly when there is no number; otherwise fills nulls only |
| Imputation.ModeImpute | backend/app/ml/data_cleaner.py:167-171 | fails exactly on a datetime or all-null column; otherwise fills nulls only, with the mode, as an object column |
| Imputation.ConstantImpute | backend/app/ml/data_cleaner.py:197-201 | fails exactly on a category column; otherwise fills each null with "Unknown" (object) or -999 (other dtypes) and keeps every present value |
| Imputation.OtherColumns | backend/app/ml/data_cleaner.py:178 | exactly the columns not named like the target |
| Imputation.KnnCells | backend/app/ml/data_cleaner.py:180-187 | every null gets a value and every present value is kept |
| Imputation.KnnImpute | backend/app/ml/data_cleaner.py:173-195 | success fills nulls only, as float; failure means there is no number, or a numeric column is all null |
| Imputation.ApplyImputation | backend/app/ml/data_cleaner.py:149-206 | a fill changes only null cells, and the column is dropped exactly for `drop_column` |
| Imputation.SelectedImputationSucceeds | backend/app/ml/data_cleaner.py:84-88 | for a numeric, object or integer column with a null, on a table with no all-null numeric column, the selected method does not raise |
| Imputation.HalfOrLessMissing | backend/app/ml/data_cleaner.py:128 | a column that is not dropped still has a present cell |
| MissingStage.AllNull | backend/app/ml/data_cleaner.py:153 | the re-created column has the given name, one cell per row, all null |
| MissingStage.Without | backend/app/ml/data_cleaner.py:151-152 | dropping a column removes exactly that column |
| MissingStage.DropAndReappend | backend/app/ml/data_cleaner.py:151-153 | `drop_column` keeps the other columns and leaves the dropped name as an all-null column |
| MissingStage.Install | backend/app/ml/data_cleaner.py:88 | assigning the imputed column keeps every other column and installs the fill, or the all-null column for a drop |
| MissingStage.ImputeOne | backend/app/ml/data_cleaner.py:82-95 | one turn keeps the rows and every other column |
| MissingStage.ImputeOneEffect | backend/app/ml/data_cleaner.py:81-95 | a column without a null is left as it was; a column with one gets its method recorded, one log line, and either the all-null column (drop) or a fill of its nulls only |
| MissingStage.ImputeColumns | backend/app/ml/data_cleaner.py:81-95 | the loop keeps the rows and distinct column names |
| MissingStage.ImputeStage | backend/app/ml/data_cleaner.py:66-97 | the stage keeps the rows and distinct column names |
| MissingStage.ImputeFirst | backend/app/ml/data_cleaner.py:81-95 | the first turn of the loop appends that column's log line, name and method, or changes nothing for a column without nulls |
| MissingStage.ImputeColumnsCovered | backend/app/ml/data_cleaner.py:125 | a loop that completes found a percentage for every column with a null (otherwise `KeyError`) |
| MissingStage.ImputeColumnsLogs | backend/app/ml/data_cleaner.py:93-95 | the loop appends exactly one log line per column with a null, in column order |
| MissingStage.ImputeColumnsNames | backend/app/ml/data_cleaner.py:90 | `columns_imputed` grows by exactly the columns with a null, in column order |
| MissingStage.ImputeColumnsMethods | backend/app/ml/data_cleaner.py:91 | `methods_used` maps every column with a null to its selected method |
| MissingStage.ImputeColumnsKeepsMethod | backend/app/ml/data_cleaner.py:91 | a method already recorded for another column is kept |
| MissingStage.ImputeColumnsTreats | backend/app/ml/data_cleaner.py:81-88 | after the loop, every column without a null is unchanged and every column with one was dropped and re-created, or had only its nulls filled |
| MissingStage.ImputeColumnsFrame | backend/app/ml/data_cleaner.py:81-88 | a column the loop does not visit is kept |
| MissingStage.ImputeColumnsShape | backend/app/ml/data_cleaner.py:29-30 | the loop keeps the recorded original shape |
| MissingStage.ImputeOneShape | backend/app/ml/data_cleaner.py:29-30 | one turn keeps the recorded original shape |
| MissingStage.AnalysisPercentagesAgree | backend/app/ml/data_cleaner.py:69-73 | when the analysis succeeds, the analyzer's per-column percentages are the ones the cleaner computes itself |
| MissingStage.OwnPercentagesCover | backend/app/ml/data_cleaner.py:99-120 | the cleaner's own analysis has a percentage for every column |
| CleaningLog.InitialResults | backend/app/ml/data_cleaner.py:29-35 | a run starts with the original shape, an empty log and no outlier treatment or final shape |
| CleaningLog.Log | backend/app/ml/data_cleaner.py:93-95 | logging appends one line and changes nothing else |
| CleaningLog.ContinuesTransitive | backend/app/ml/data_cleaner.py:40-56 | keeping the original shape and only appending to the log carries across stages |
| OutlierHandling.KeptByLabel | backend/app/ml/data_cleaner.py:228 | the kept positions are exactly, in order, those whose label is not dropped |
| OutlierHandling.DropLabels | backend/app/ml/data_cleaner.py:228 | `drop(index=...)` raises exactly when a label is missing; otherwise the labels left are exactly those not listed |
| OutlierHandling.KeptCount | backend/app/ml/data_cleaner.py:228 | the kept rows plus the rows whose label is dropped are all the rows |
| OutlierHandling.CountInDistinct | backend/app/ml/data_cleaner.py:228 | with distinct labels, a set of existing labels matches exactly as many rows as it has members |
| OutlierHandling.DropLabelsRemovesListed | backend/app/ml/data_cleaner.py:228-229 | with distinct labels and a repeat-free list of existing labels, the table loses exactly as many rows as the list is long |
| OutlierHandling.Clip | backend/app/ml/data_cleaner.py:253-255 | `clip` lands within the bounds and keeps a value already within them |
| OutlierHandling.CapCells | backend/app/ml/data_cleaner.py:249-255 | only cells strictly outside the fences change, each to its clipped value |
| OutlierHandling.MaskedCountZero | backend/app/ml/data_cleaner.py:249-252 | no cell is counted exactly when no cell lies outside the fences |
| OutlierHandling.CappedWithin | backend/app/ml/data_cleaner.py:242-255 | after capping every present value lies within the fences computed before, nulls stay null, and every cell not outside the fences is unchanged |
| OutlierHandling.CapAt | backend/app/ml/data_cleaner.py:237-263 | one turn caps only its column, and `outliers_capped` grows by the number of cells outside the fences |
| OutlierHandling.CapFrom | backend/app/ml/data_cleaner.py:237-263 | the capping loop keeps the rows, the removal count and the earlier log, and never lowers `outliers_capped` |
| OutlierHandling.CapFromWithin | backend/app/ml/data_cleaner.py:237-263 | every numeric column the loop reaches ends within its fences |
| OutlierHandling.CapFromUnchangedBefore | backend/app/ml/data_cleaner.py:237-263 | columns before the loop's start are untouched |
| OutlierHandling.RemoveOutlierRows | backend/app/ml/data_cleaner.py:222-232 | fails exactly when a listed label is absent; otherwise removes exactly the listed rows and records the list's length (nothing for an empty list) |
| OutlierHandling.OutlierStage | backend/app/ml/data_cleaner.py:208-265 | without an analysis the state is returned unchanged; otherwise it fails exactly when a combined label is absent, and on success the treatment is recorded, the labels left are exactly those not combined, rows are never added, and the log only grows |
| OutlierHandling.AnalysedOutlierStage | backend/app/ml/data_cleaner.py:222-229 | given the successful analysis of a table with the same row labels, and distinct labels, the stage succeeds and removes exactly `outliers_removed` rows |
| Deduplication.DedupStage | backend/app/ml/data_cleaner.py:267-278 | the stage removes exactly the repeated rows, leaves none, and logs the removed count only when it is positive |
| Deduplication.DedupStageIdempotent | backend/app/ml/data_cleaner.py:267-278 | a second deduplication changes neither the table nor the results |
| TypeStandardization.SuggestOptimalDtype | backend/app/ml/data_cleaner.py:313-336 | a datetime column is suggested `datetime`; any other follows the analyzer's decision chain |
| TypeStandardization.DatetimeSuggestionsDisagree | backend/app/ml/data_cleaner.py:316-322 | on every non-empty datetime64 column the cleaner suggests `datetime` while the analyzer suggests `numeric` |
| TypeStandardization.NamesAgreeOnlyForObjects | backend/app/ml/data_cleaner.py:290 | a suggestion's name equals a dtype's name only for `object` |
| TypeStandardization.ToDatetime | backend/app/ml/data_cleaner.py:293 | `to_datetime(errors='coerce')` keeps timestamps, and keeps exactly the other cells the column's inferred format parses, as timestamps |
| TypeStandardization.ToNumeric | backend/app/ml/data_cleaner.py:295 | `to_numeric(errors='coerce')` keeps exactly the cells that convert for the column's dtype, as numbers |
| TypeStandardization.ConvertColumn | backend/app/ml/data_cleaner.py:292-297 | datetime and numeric conversions act cell by cell; categorical only changes the dtype; object changes nothing |
| TypeStandardization.ConvertsIffNamesDiffer | backend/app/ml/data_cleaner.py:290 | a column is converted exactly when the suggestion's name differs from its dtype's name |
| TypeStandardization.ConvertAt | backend/app/ml/data_cleaner.py:284-306 | one turn standardises only its column and appends its log line, if any |
| TypeStandardization.ConvertAtConversions | backend/app/ml/data_cleaner.py:299-302 | one turn records the column's conversion exactly when it converts |
| TypeStandardization.ConvertAtSummary | backend/app/ml/data_cleaner.py:299-306 | one turn changes nothing in the results but the log and `type_conversions` |
| TypeStandardization.ConvertFrom | backend/app/ml/data_cleaner.py:284-309 | the loop keeps the rows, the fitted objects and the earlier log |
| TypeStandardization.TypeStage | backend/app/ml/data_cleaner.py:280-311 | the stage keeps the rows and column count, and only appends to the log |
| TypeStandardization.ConversionStepsUnfold | backend/app/ml/data_cleaner.py:304-306 | the log lines of a column range are the first column's, then the rest's |
| TypeStandardization.ConvertFromColumns | backend/app/ml/data_cleaner.py:284-297 | the loop standardises every column it reaches and keeps the others |
| TypeStandardization.ConvertFromSteps | backend/app/ml/data_cleaner.py:304-306 | the loop appends one log line per converted column, in column order |
| TypeStandardization.ConvertFromConversions | backend/app/ml/data_cleaner.py:299-302 | the loop records exactly the conversions of the columns it reaches |
| TypeStandardization.ConversionsKeep | backend/app/ml/data_cleaner.py:299-302 | a recorded conversion of a column not visited is kept |
| TypeStandardization.ConversionsRecord | backend/app/ml/data_cleaner.py:299-302 | every converted column is recorded with its old dtype name and its suggestion |
| TypeStandardization.ConversionsOnly | backend/app/ml/data_cleaner.py:299-302 | nothing but converted columns is recorded |
| TypeStandardization.TypeStageEffect | backend/app/ml/data_cleaner.py:280-311 | every column is standardised in place, one log line is appended per converted column, and `type_conversions` holds exactly the converted columns with their old and new types |
| TypeStandardization.NonObjectColumnsConvert | backend/app/ml/data_cleaner.py:285-290 | every non-object column counts as converted |
| TypeStandardization.AllNullBecomesDatetime | backend/app/ml/data_cleaner.py:316-327 | an all-null column becomes a datetime column of nulls |
| TypeStandardization.StampObjectsBecomeDatetime | backend/app/ml/data_cleaner.py:313-327 | an object column holding only timestamps and nulls is suggested as datetime and converted to datetime64 with its cells kept |
| TextCleanup.NormalizeCell | backend/app/ml/data_cleaner.py:345-348 | a string becomes its tidy, case-normalised form; any other value becomes null |
| TextCleanup.Handled | backend/app/ml/data_cleaner.py:342-348 | object columns are cleaned cell by cell; other columns are unchanged |
| TextCleanup.TextAt | backend/app/ml/data_cleaner.py:342-348 | one turn raises exactly on an object column with only numbers or only timestamps, and otherwise handles its column only |
| TextCleanup.TextFrom | backend/app/ml/data_cleaner.py:342-349 | the loop keeps the rows, the column count and all the results |
| TextCleanup.TextStage | backend/app/ml/data_cleaner.py:338-350 | the stage keeps the rows, the column count and all the results |
| TextCleanup.TextFromFails | backend/app/ml/data_cleaner.py:342-348 | the loop raises exactly when some column it reaches is an object column the `.str` accessor refuses |
| TextCleanup.TextFromColumns | backend/app/ml/data_cleaner.py:342-348 | a loop that completes handles every column it reaches and keeps the earlier ones |
| TextCleanup.TextStageEffect | backend/app/ml/data_cleaner.py:338-350 | the stage raises exactly when an object column is refused by `.str`; otherwise every column is handled |
| TextCleanup.StringColumnKeepsNulls | backend/app/ml/data_cleaner.py:355 | a string column is always accepted, and keeps exactly its nulls null |
| Transformations.NumericNames | backend/app/ml/data_cleaner.py:387 | exactly the names of numeric columns |
| Transformations.ScaleColumn | backend/app/ml/data_cleaner.py:389-390 | scaling makes the column float, keeps its nulls and scales each number |
| Transformations.ScaleAll | backend/app/ml/data_cleaner.py:390 | exactly the numeric columns are scaled |
| Transformations.ScaleNumeric | backend/app/ml/data_cleaner.py:386-396 | fails exactly with numeric columns and no rows; otherwise scales them, records their names and the scaler, and logs one line, or changes nothing without numeric columns |
| Transformations.RankBelow | backend/app/ml/data_cleaner.py:403 | a class's code is below the number of classes |
| Transformations.RankOrder | backend/app/ml/data_cleaner.py:403 | codes follow the sorted order of the classes |
| Transformations.RankStrictlyIncreases | backend/app/ml/data_cleaner.py:403 | a smaller class gets a smaller code |
| Transformations.RankInjective | backend/app/ml/data_cleaner.py:403 | different classes get different codes |
| Transformations.EncodeColumn | backend/app/ml/data_cleaner.py:403 | each cell becomes the code of its text, in an integer column |
| Transformations.EncodeColumnCodes | backend/app/ml/data_cleaner.py:403 | codes lie in [0, classes), compare as the texts do, and are equal exactly for equal texts |
| Transformations.EncodeAt | backend/app/ml/data_cleaner.py:400-409 | one turn encodes its column exactly when it is category or object with fewer than 50 distinct values, recording the encoder, the summary entry and one log line |
| Transformations.EncodeFrom | backend/app/ml/data_cleaner.py:400-409 | the loop keeps the rows, the scalers and the earlier log |
| Transformations.TransformStage | backend/app/ml/data_cleaner.py:381-411 | fails exactly with numeric columns and no rows; otherwise keeps the rows and only appends to the log |
| Transformations.EncodeFromColumns | backend/app/ml/data_cleaner.py:400-409 | the loop encodes every qualifying column it reaches and keeps the others |
| Transformations.TransformStageColumns | backend/app/ml/data_cleaner.py:381-411 | numeric columns are scaled, small categoricals encoded, and no category or object column with fewer than 50 distinct values is left |
| Cleaner.Finish | backend/app/ml/data_cleaner.py:58-62 | the final shape is the table's and `rows_removed` is the original minus the final row count |
| Cleaner.Start | backend/app/ml/data_cleaner.py:29-38 | a run starts from fresh results on the given table |
| Cleaner.LaterStages | backend/app/ml/data_cleaner.py:43-56 | stages 2 to 6 never add rows and only append to the log |
| Cleaner.Clean | backend/app/ml/data_cleaner.py:24-64 | a completed run never adds rows, only appends to the log, and records the final shape and rows removed |
| Cleaner.ImputeStageLogs | backend/app/ml/data_cleaner.py:66-97 | the imputation stage appends exactly one log line per column with a null |
| Cleaner.ImputeStageContinues | backend/app/ml/data_cleaner.py:66-97 | the imputation stage keeps the original shape and only appends to the log |
| Cleaner.AnalysedRunOutlierStage | backend/app/services/cleaning_service.py:66-70 | when the run is handed the analysis of its own input, the outlier stage after imputation succeeds and, with distinct labels, removes exactly `outliers_removed` rows |
| Cleaner.RunRecords | backend/app/ml/data_cleaner.py:58-62 | a finished run reports the input's shape as original, the output's as final, and exactly the rows lost, never negative, as removed |
| Cleaner.CleanLogsImputationsFirst | backend/app/ml/data_cleaner.py:40-41 | a run's log opens with the imputation lines in column order |
| Cleaner.CleanEncodesSmallCategoricals | backend/app/ml/data_cleaner.py:398-409 | after a run no category or object column with fewer than 50 distinct values remains |
| AutoCleaner.AutoDataCleaner.constructor | backend/app/ml/data_cleaner.py:17-22 | a new cleaner has no results and no fitted objects |
| AutoCleaner.AutoDataCleaner.HandleMissingData | backend/app/ml/data_cleaner.py:66-97 | the method raises exactly when the stage does, and otherwise leaves the object and the table in the stage's state |
| AutoCleaner.AutoDataCleaner.HandleOutliers | backend/app/ml/data_cleaner.py:208-265 | as above, for the outlier stage |
| AutoCleaner.AutoDataCleaner.RemoveDuplicates | backend/app/ml/data_cleaner.py:267-278 | leaves the object and the table in the deduplication stage's state |
| AutoCleaner.AutoDataCleaner.StandardizeDataTypes | backend/app/ml/data_cleaner.py:280-311 | leaves the object and the table in the type stage's state |
| AutoCleaner.AutoDataCleaner.HandleInconsistencies | backend/app/ml/data_cleaner.py:338-350 | raises exactly when the text stage does, and otherwise reaches its state |
| AutoCleaner.AutoDataCleaner.ApplyTransformations | backend/app/ml/data_cleaner.py:381-411 | raises exactly when the transformation stage does, and otherwise reaches its state |
| AutoCleaner.AutoDataCleaner.CleanDataset | backend/app/ml/data_cleaner.py:24-64 | raises exactly when the specified run does, and otherwise leaves the object and the table in that run's final state |
| Recommendations.MissingRule | backend/app/api/endpoints/analysis.py:200-214 | one entry exactly above 5%, `high` exactly above 20%, `medium` otherwise |
| Recommendations.DuplicateRule | backend/app/api/endpoints/analysis.py:216-230 | one entry exactly above 1%, `high` exactly above 10%, `medium` otherwise |
| Recommendations.OutlierRule | backend/app/api/endpoints/analysis.py:232-246 | one `medium` entry exactly when a `combined` entry has a positive total |
| Recommendations.DataTypeRules | backend/app/api/endpoints/analysis.py:248-261 | exactly one `medium` entry per column whose `mixed_types` is non-empty, in column order, and nothing else |
| Recommendations.Recommend | backend/app/api/endpoints/analysis.py:263-267 | `total_recommendations` is the list's length and the score defaults to 0.0 |
| Recommendations.RecommendLayout | backend/app/api/endpoints/analysis.py:198-261 | the missing, duplicate and outlier entries come first, in that order, each when its rule fires, followed only by data-type entries |
| Recommendations.MissingSeverityRule | backend/app/api/endpoints/analysis.py:201-214 | a missing-data entry exists exactly above 5% (0 when absent), and is `high` exactly above 20% |
| Recommendations.DuplicateSeverityRule | backend/app/api/endpoints/analysis.py:217-230 | a duplicates entry exists exactly above 1%, and is `high` exactly above 10% |
| Recommendations.OutlierSeverityRule | backend/app/api/endpoints/analysis.py:233-246 | an outlier entry exists exactly for a positive combined total, always `medium` |
| Recommendations.MixedTypesRule | backend/app/api/endpoints/analysis.py:249-261 | a data-type entry exists exactly per mixed column, always `medium` |
| Recommendations.DataTypeRulesMatch | backend/app/api/endpoints/analysis.py:249-261 | the endpoint's data-type entries correspond one to one, in order, to the analyzer's mixed-type lines |
| Recommendations.HeadRulesMatch | backend/app/api/endpoints/analysis.py:200-246 | the endpoint's first three rules correspond to the analyzer's first three lines |
| Recommendations.AgreesWithAnalyzer | backend/app/api/endpoints/analysis.py:198-261 | for a stored report, the endpoint's entries correspond one to one, in order, to the analyzer's own recommendations |
| Recommendations.TwentyPercentTiers | backend/app/api/endpoints/analysis.py:204-207 | exactly 20% missing is `medium` for the endpoint but `high` for the analyzer |
| Ordering.StrLessIrreflexive | backend/app/ml/data_cleaner.py:403 | no string is smaller than itself |
| Ordering.ValueLessIrreflexive | backend/app/ml/data_cleaner.py:168-169 | no value is smaller than itself |
| Ordering.StrLessTransitive | backend/app/ml/data_cleaner.py:403 | the string order used for label codes is transitive |
| Ordering.StrLessTotal | backend/app/ml/data_cleaner.py:403 | of two different strings one is smaller |
| Ordering.ValueLessTransitive | backend/app/ml/data_cleaner.py:168-169 | the value order used for mode ties is transitive |
| Ordering.ValueLessTotal | backend/app/ml/data_cleaner.py:168-169 | of two different values one is smaller |

## Left out

- The statistics and parsers come from pandas, numpy, scipy and scikit-learn, and are parameters (`Foreign.Library`): quantile interpolation, the median, standard deviation, skew, kurtosis, z-score, Pearson and Spearman correlation, IsolationForest and LocalOutlierFactor, the KNN imputer's values, StandardScaler, the number parser, and the date parser for one string and for a whole column. pandas infers the column's date format from its first parseable string; that inference is part of the column parser and is not modelled. Only the decisions taken on their results are modelled.
- The near-duplicate search (data_analyzer.py:167-193) uses a floating-point `corrcoef`, so its count is not modelled. The report models only exact duplicates.
- The format-inconsistency findings (data_analyzer.py:384-390) are not modelled: they depend on the floating-point spread of string lengths and on a currency regex. The `AttributeError` that `series.str.len()` raises on an object column the `.str` accessor refuses (data_analyzer.py:381-383) is modelled (`TypeAnalysis.AnalyzeDataTypes`).
- TextNormalization.ToUpper, ToLower, Capitalize, Title: only the ASCII letters A-Z and a-z are letters. Python's `str` methods also case non-ASCII letters and treat them as word characters, so Python gives "José María" for `"josé maría".title()` where the model gives "José MaríA", and upper-cases "é" where the model keeps it.
- TextNormalization.ReplaceIgnoreCase: matching goes through the ASCII `ToLower`. Python's `re.IGNORECASE` on `str` also matches non-ASCII case variants, such as the Kelvin sign U+212A against `k`, which the model does not match.
- TextNormalization.Strip, CollapseSpaces: only the ASCII characters Python counts as whitespace (tab to carriage return, \x1c to \x1f, and the space) are spaces. Python's `strip()` and `\s+` also match Unicode spaces such as '\xa0' and '\x85', which the model keeps.
- The normality tests (data_analyzer.py:478-500) are scipy calls. They are not modelled.
- `basic_info` (data_analyzer.py:50-58) is not modelled beyond the shape: memory usage, dtype counts and sample rows are presentation only. The visualisation payloads (data_analyzer.py:605-634) are not modelled either.
- Python's `list(set)` (data_analyzer.py:332) has no fixed order. The model lists the combined indices in first-seen order.
- `get_cleaning_summary` and saving and loading the pipeline with joblib (data_cleaner.py:413-438) are file I/O and are not modelled.
- Recommendation texts, their formatting (`:.1f`) and the suggestion lists are not modelled. Each entry keeps its type, severity and the figure it quotes.
- Log lines (`cleaning_steps`) are kept as structured records (`CleaningLog.Step`) rather than formatted text.
- The endpoint's job lookup, database access, HTTP errors and the JSON round-trip of stored results are not modelled. The rules take the stored findings directly.
- When a stage raises, the model reports the error and does not describe the fields the stage had already changed.
- The `except` around the type conversions (data_cleaner.py:307-309) is not modelled. Coercing conversions and `astype('category')` do not raise on the values modelled here.
- The fall-back branch of `_apply_imputation` (data_cleaner.py:203-206) is not modelled. The selector never returns a method that reaches it.
- `inconsistencies_fixed` (data_cleaner.py:340) is never filled, so it is not recorded.
- `to_numeric` returning int64 rather than float64 is not tracked. The model only records that the converted column is numeric.
- Dtype upcasting when capping writes floats into an integer column is not modelled.
- The `TypeError` of `SimpleImputer('most_frequent')` on a column mixing numbers and strings is not modelled. The model orders numbers before strings before timestamps.
- The cleaner requires distinct column names (`CleaningLog.Valid`). pandas allows repeated names, but the cleaner's per-column assignments assume them distinct. The analyzer has no such requirement: it raises on a repeated name, and the model returns that error.
- MissingData.ClusterSpan: proved for a default `RangeIndex` only. Under another index the start and end are labels, and their difference need not match the length.
- Distributions.HighPairsDistinct: requires distinct column names. `select_dtypes` over repeated names could pair a name with itself.
- Outliers.StatisticalOutliers: the z-score and modified z-score lists are stated to hold row labels only. Which values they flag is stated only through `ModifiedZDistance`, because the z-score itself is a parameter.
- OutlierHandling.OutlierStage: the case of results without an `outliers` key is modelled as no analysis at all. A stored report always has that key.
