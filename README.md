# edudataanalyzer: loading and metrics, modelled in Dafny

This project models the two parts of `edudataanalyzer` that carry their own logic, and proves what they promise.

- The dataset loader (`data_loader.py`):
  - the schema check against the seven required columns;
  - the row cleaning `load_dataset` performs after reading the CSV file (drop incomplete rows, coerce the five numeric columns, drop rows again, cast the identifiers to text, renumber);
  - the minimum-size guardrail.
- The metrics (`metrics.py`): the summary dictionary and the per-cohort table.

A table is modelled as a `Frame`: a list of column names and a sequence of records. Each record carries its index label and maps column names to cells (`Missing`, `Text` or `Num`). Pandas' behaviour is spelled out where it matters:

- `dropna(subset=...)` keeps the complete records, in order and under their labels.
- `to_numeric(errors="coerce")` turns text it cannot parse into a missing cell.
- `astype(str)` renders a missing cell as the text `nan`.
- Reductions skip missing cells; a comparison with a missing cell is false.
- The mean of nothing, and a division by a zero maximum, give a value that is not finite (`Stat.NotFinite`).
- `groupby` drops rows whose key is missing and sorts its keys.
- `reset_index()` refuses to insert the grouping column when an aggregate already has its name.

Parsing text as a number and rendering a number as text are function parameters. So is the Pearson coefficient; only the condition under which it is reported is modelled.

Modules, one per file:

- `Results` (results.dfy): `Option`, `Result` and `Outcome`.
- `Sorting` (sorting.dfy): insertion sort by a total order, and the fact that a sorted permutation is unique.
- `Strings` (strings.dfy): Python's string order, the `repr` of a list of names, and decimal rendering and reading of integers.
- `Stats` (stats.dfy): sum, mean, min, max, median, boolean-mask mean and population variance over exact reals.
- `Frames` (frames.dfy): cells, records and frames, and the pandas operations the loader uses.
- `DataLoader` (data_loader.dfy): `_validate_columns`, `load_dataset` and `ensure_minimum_rows`.
  - `LoadDataset` is a method that runs the source's steps in order, including the column-by-column coercion loop.
  - Its result is proved equal to the one-pass reference `LoadSpec`; the properties are proved about `LoadSpec`.
- `Metrics` (metrics.dfy): `compute_summary_metrics` and `cohort_metrics`.
- `Pipeline` (pipeline.dfy): the loader feeding the metrics, as the report builder chains them.

## Model

| member | source | states |
|---|---|---|
| DataLoader.RequiredNamesOnce | src/edudataanalyzer/data_loader.py:10-18 | the seven required names are distinct: each required column occurs exactly once in the list |
| DataLoader.Absent | src/edudataanalyzer/data_loader.py:22 | the names not present occur as often as in the input list, and present names not at all (set difference) |
| DataLoader.ValidateColumns | src/edudataanalyzer/data_loader.py:21-24 | passes exactly when every required column is among the given columns (extra columns accepted); otherwise a schema error whose list is sorted and holds each missing required column exactly once |
| DataLoader.MissingColumns | src/edudataanalyzer/data_loader.py:22-24 | `sorted(missing)`: sorted in Python's string order, and holding each required column absent from the given columns exactly once |
| DataLoader.Message | src/edudataanalyzer/data_loader.py:24-79 | the `ValueError` texts: the schema error starts with `Dataset is missing required columns: ` and contains every missing column's name (line 24); the size error contains the decimal row count and the decimal minimum (line 79) |
| DataLoader.MissingColumnsIsSortedDifference | src/edudataanalyzer/data_loader.py:22-24 | any sorted list holding each missing column once equals the reported list, so it is Python's `sorted(missing)` |
| DataLoader.SchemaMessageNamesMissingColumns | src/edudataanalyzer/data_loader.py:24 | when a required column is absent, validation fails and the error text contains that column's name |
| DataLoader.EnsureMinimumRows | src/edudataanalyzer/data_loader.py:74-79 | fails exactly when the table has fewer rows than the minimum, with an error carrying the row count and the minimum |
| Strings.DigitsAreCanonical | src/edudataanalyzer/data_loader.py:79 | the row count in the size message is written in canonical decimal: digits only, no leading zero, and reading the digits back gives the count itself |
| Frames.DropNA | src/edudataanalyzer/data_loader.py:51 | keeps the records complete on the subset, each as many times as the input holds it, drops every other record, and never adds rows (their order is stated by `DataLoader.LoadKeepsSurvivorsInOrder`) |
| Frames.ToNumeric | src/edudataanalyzer/data_loader.py:62 | a coerced cell is never text |
| Frames.CoerceColumn | src/edudataanalyzer/data_loader.py:61-62 | coerces one column in every record, keeping labels and record count |
| Frames.AsStrColumn | src/edudataanalyzer/data_loader.py:68-69 | after the cast every record holds text in that column, labels and count unchanged |
| DataLoader.CleanRow | src/edudataanalyzer/data_loader.py:54-69 | a cleaned row has every required column; `student_id` and `program` are text; numeric cells are the coerced input cells; other columns are unchanged |
| DataLoader.LoadSpec | src/edudataanalyzer/data_loader.py:47-71 | fails exactly when a required column is missing (schema error); on success keeps the column list, never has more rows than the input, and exactly as many without `dropna` |
| DataLoader.LoadDataset | src/edudataanalyzer/data_loader.py:47-71 | the step-by-step loader (two `dropna`, the coercion loop over the numeric columns, two casts, renumbering) returns the same as `LoadSpec` |
| DataLoader.CoerceColumnsAtOnce | src/edudataanalyzer/data_loader.py:61-62 | coercing columns one after another equals coercing all of them at once |
| DataLoader.StepsMatchClean | src/edudataanalyzer/data_loader.py:50-69 | the pandas steps in the source's order yield the survivors, each cleaned, under their original labels |
| DataLoader.SurvivesInSteps | src/edudataanalyzer/data_loader.py:50-65 | a row passes both `dropna` calls exactly when it is complete and each numeric cell coerces to a number |
| Frames.ResetIndex | src/edudataanalyzer/data_loader.py:71 | `reset_index(drop=True)`: the same records in the same order, with labels renumbered 0..n-1 |
| Frames.SelectTracksRows | src/edudataanalyzer/data_loader.py:50-71 | filtering labelled rows keeps exactly the accepted rows, rewritten, in strictly increasing label order |
| DataLoader.CleanTracksOrigin | src/edudataanalyzer/data_loader.py:50-65 | each cleaned record is the cleaning of an input row it came from; origins strictly increase; an input row appears exactly when it is kept |
| DataLoader.LoadKeepsSurvivorsInOrder | src/edudataanalyzer/data_loader.py:50-71 | the loaded rows are the surviving input rows in their original order, each cleaned and renumbered 0..n-1 by position |
| DataLoader.SurvivorCleansToNumbers | src/edudataanalyzer/data_loader.py:61-65 | a surviving row cleans to a complete row whose numeric cells are numbers parsed from the input cells |
| DataLoader.UnparsableCellNeverSurvives | src/edudataanalyzer/data_loader.py:61-65 | with `dropna`, an input row holding unparsable text in a numeric column is not loaded |
| DataLoader.LoadedFrameIsNumeric | src/edudataanalyzer/data_loader.py:50-65 | with `dropna`, every loaded row is complete in all seven columns and every numeric column holds numbers only |
| DataLoader.LoadedNumbersWereParsed | src/edudataanalyzer/data_loader.py:61-65 | with `dropna`, each loaded numeric cell is the number read from the same column of its input row |
| DataLoader.LoadedIdentifiersAreText | src/edudataanalyzer/data_loader.py:68-69 | with or without `dropna`, `student_id` and `program` are text in every loaded row |
| Sorting.SortIsSorted | src/edudataanalyzer/data_loader.py:24 | sorting by a total order gives a sorted list |
| Sorting.SortedUnique | src/edudataanalyzer/data_loader.py:24 | two sorted permutations of the same values are equal |
| Strings.LexLeIsTotalOrder | src/edudataanalyzer/data_loader.py:24 | Python's string comparison is total, transitive and antisymmetric |
| Stats.MeanBetweenMinMax | src/edudataanalyzer/metrics.py:17 | a mean lies between the minimum and the maximum |
| Stats.Median | src/edudataanalyzer/metrics.py:18 | `.median()` is the middle value, or the mean of the two middle values, of any ascending arrangement of the values, so it does not depend on the sorting algorithm |
| Stats.MedianBetweenMinMax | src/edudataanalyzer/metrics.py:18 | a median lies between the minimum and the maximum |
| Stats.IndicatorMeanIsShare | src/edudataanalyzer/metrics.py:19 | the mean of a boolean mask is the share of true entries, within [0, 1] |
| Stats.VariancePositiveIffNotAllEqual | src/edudataanalyzer/metrics.py:30 | the population variance is non-negative, and positive exactly when the values are not all equal |
| Frames.Present | src/edudataanalyzer/metrics.py:17-21 | the values a reduction sees are the numbers of the column, each occurring exactly as often as the column holds it, so a mean or median weighs every row once; all of them when nothing is missing |
| Metrics.MeanOf | src/edudataanalyzer/metrics.py:17 | finite exactly when some value is present, then between their minimum and maximum |
| Metrics.MedianOf | src/edudataanalyzer/metrics.py:18 | finite exactly when some value is present, then between their minimum and maximum |
| Metrics.ShareOf | src/edudataanalyzer/metrics.py:19 | a mask's mean is finite exactly when the mask is non-empty, then the share of true entries in [0, 1] |
| Metrics.Passing | src/edudataanalyzer/metrics.py:9-19 | a row passes exactly when its grade is a number at least 60.0 |
| Metrics.Varies | src/edudataanalyzer/metrics.py:30 | `std(ddof=0) > 0` holds exactly when there is a value and not all values are equal |
| Metrics.CompletionRate | src/edudataanalyzer/metrics.py:22-24 | finite exactly when some value is present and the maximum is not zero |
| Metrics.SummaryProblem | src/edudataanalyzer/metrics.py:17-24 | reports a column exactly when one of those read is absent or holds text; a key error names an absent column, a type error one holding text |
| Metrics.SummaryOf | src/edudataanalyzer/metrics.py:15-31 | the dictionary's values (definition; its properties are the lemmas below): row count, mean and median grade, pass-mask mean, mean attendance and absences, mean of assignments over their maximum, `at_risk_share` when `risk_label` is a column, and the coefficient when both columns vary |
| Metrics.ComputeSummaryMetrics | src/edudataanalyzer/metrics.py:12-33 | succeeds exactly when the four reduced columns exist and hold no text, and `risk_label`, if present, holds no text |
| Metrics.PassRateIsShareOfPassingRows | src/edudataanalyzer/metrics.py:16-19 | `count` is the row count; `pass_rate` is finite exactly on a non-empty table, and then the number of passing rows over the row count, in [0, 1] |
| Metrics.GradeStatisticsWithinRange | src/edudataanalyzer/metrics.py:17-18 | when some grade is present, the average and the median grade are finite and between the smallest and largest grade |
| Metrics.AttendanceWithinRange | src/edudataanalyzer/metrics.py:20 | the average attendance is finite exactly when some value is present; it then lies between their minimum and maximum, and within any bounds all values keep |
| Metrics.MeanOfColumnWithin | src/edudataanalyzer/metrics.py:17-21 | a column's `.mean()` is finite exactly when the column holds a number, and then within any bounds all its numbers keep |
| Metrics.CompletionRateOfColumn | src/edudataanalyzer/metrics.py:22-24 | dividing a non-negative column with a positive entry by its maximum and averaging gives a finite value in [0, 1] |
| Metrics.CompletionRateWithinUnit | src/edudataanalyzer/metrics.py:22-24 | with non-negative assignment counts and a positive maximum, `completion_rate` is finite and in [0, 1] |
| Metrics.AtRiskSharePresentIffRiskColumn | src/edudataanalyzer/metrics.py:27-28 | `at_risk_share` is present exactly when the table has a `risk_label` column, equals the mean label, and is in [0, 1] for 0/1 labels |
| Metrics.CorrelationPresentIffVaried | src/edudataanalyzer/metrics.py:30-31 | `grade_attendance_corr` is present exactly when neither grades nor attendance are all equal (and each has a value) |
| Metrics.KeyLe | src/edudataanalyzer/metrics.py:39 | the order `groupby` sorts keys in (definition): numbers by value, text in Python's string order, and, for keys mixing the two, numbers before text, the order pandas falls back to when keys do not compare |
| Metrics.KeyLeIsTotalOrder | src/edudataanalyzer/metrics.py:39 | the key order `groupby` sorts by is total, transitive and antisymmetric |
| Metrics.Distinct | src/edudataanalyzer/metrics.py:39 | the same values, each once |
| Metrics.GroupKeys | src/edudataanalyzer/metrics.py:39 | the group keys are exactly the non-missing values of the grouping column, sorted, without duplicates |
| Metrics.Members | src/edudataanalyzer/metrics.py:39 | a group holds the records whose key cell equals the group key, each as many times as the table holds it, and no other record, so its size is the number of rows with that key |
| Metrics.IdCount | src/edudataanalyzer/metrics.py:40 | the `count` of a group is at most its number of rows |
| Metrics.Aggregate | src/edudataanalyzer/metrics.py:39-45 | a cohort row carries its key, a count at most its size, and a pass rate equal to its share of passing rows, in [0, 1] |
| Metrics.Cohorts | src/edudataanalyzer/metrics.py:39-45 | one aggregate per key, in key order |
| Metrics.FirstAbsent | src/edudataanalyzer/metrics.py:39-45 | reports a column exactly when an aggregated column is absent, and then an absent one |
| Metrics.FirstWithText | src/edudataanalyzer/metrics.py:41-44 | reports a column exactly when an averaged column holds text, and then one that does |
| Metrics.CohortMetrics | src/edudataanalyzer/metrics.py:36-46 | succeeds exactly when the grouping column and the four aggregated columns exist, no grouped row holds text in an averaged column, and the grouping column is not named like an output column; a missing grouping column is a key error naming it; a grouping column named `count`, `avg_grade`, `pass_rate`, `avg_attendance` or `risk_rate` makes `reset_index()` fail with a value error naming it, exactly when aggregation itself succeeded |
| Metrics.CohortMetricsAreGroupAggregates | src/edudataanalyzer/metrics.py:39-46 | a successful result is one aggregate per group key, each group non-empty |
| Metrics.OneCohortPerDistinctKey | src/edudataanalyzer/metrics.py:39-46 | every cohort key is a non-missing key of some row, every such key has a cohort, no two cohorts share a key, and cohorts are in key order |
| Metrics.CohortPassRatesWithinUnit | src/edudataanalyzer/metrics.py:42 | every cohort's `pass_rate` is its share of passing rows, in [0, 1] |
| Metrics.CohortCountsSumToRows | src/edudataanalyzer/metrics.py:39-46 | the cohort counts add up to the rows with both a key and a student id, which is every row when neither is ever missing |
| Pipeline.SummarySucceedsOnNumbers | src/edudataanalyzer/metrics.py:12-33 | on a table whose five numeric columns hold numbers, the summary succeeds and its pass rate is finite when a row exists |
| Pipeline.CohortsSucceedOnNumbers | src/edudataanalyzer/metrics.py:36-46 | on such a table with `student_id` and `program`, the per-program cohorts succeed |
| Pipeline.LoadedTableHasMetrics | src/edudataanalyzer/report.py:25-29 | a table loaded with `dropna` never makes the summary or the per-program cohorts raise, and once `ensure_minimum_rows(df, minimum=20)` passes the pass rate is finite |

## Left out

- File existence check and `read_csv` (data_loader.py:43-47): I/O. The model starts from the parsed column list and rows.
- Parsing text as a number, and rendering a number as text: parameters `parse` and `format`, left unconstrained.
- Floating point: all arithmetic is on exact reals. NaN and the infinities are collapsed into `Stat.NotFinite`; rounding is not modelled.
- The Pearson coefficient (metrics.py:31): the parameter `corr`. Only the condition for including it is modelled.
- Metrics.CohortMetrics: when several aggregated columns are absent, the model names the first absent one in the order `student_id`, `grade`, `attendance_rate`, `risk_label`. The exact pandas message is not modelled.
- Metrics.ComputeSummaryMetrics: the exact text of pandas' `KeyError` and `TypeError` is not modelled, only which column fails first.
- Metrics.CohortMetrics: the exact text of pandas' `KeyError`, `TypeError` and `ValueError` is not modelled, only the kind of error and the column it names.
- DataLoader.Message: the list is rendered as Python's `repr`, without the escaping `repr` applies to quotes and backslashes inside names.
- DataFrame identity: frames are values. The loader's in-place column assignments are reassignments of the local frame. They cannot be observed, because the frame is not shared before it is returned. Both metric functions leave their input unchanged, since a function cannot modify its arguments.
- Sorting of the values a median is taken of: insertion sort on exact reals. Pandas' algorithm is not modelled, only its result (the middle of the sorted values).
- `model.py`, the rest of `report.py`, `cli.py` and `__init__.py`: scikit-learn calls, formatting, argument parsing and re-exports.
