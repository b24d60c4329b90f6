# HAIID helper functions in Dafny

This project models the helper module of the Human-AI Interactions Dataset
(HAIID). That module selects one task of the dataset, evaluates a per-row
metric on the task's table, and aggregates the metric over the whole table or
per group of rows.

A pandas DataFrame is modelled as a `Frame`. A frame has an ordered list of
distinct column names and a sequence of rows. Every row maps exactly those
column names to cells. A cell is a number (`Num`), a text field (`Text`) or a
boolean that a comparison produced (`Flag`). The code's exceptions become an
`Err` result that names the failure.

Modules:

- `Seqs`: order-preserving selection (`Filter`). The lemmas describe it as "the
  input read at a strictly increasing enumeration of exactly the selected
  positions" (`KeptIndices`).
- `Frames`: cells, rows and frames; the error kinds; the boolean-mask row filter
  `Where`; the column projection `Project`; column access `Column`.
- `Tasks`: `load_task`, with Python's `lower()` and `strip()` on the name.
- `Aggregation`: `aggregate_output` (reduction choice, `'all'` or groupby on a
  column, invalid grouping) and `construct_agg_fn` (partial application with
  defaults). It also holds the mean and the groupby keys.
- `Metrics`: the four per-row metrics and the four public entry points built
  with the defaults `"all"` and `"mean"`.

Inputs and outputs:

- The dataset table is an input. Reading it from a CSV file is not part of
  this model.
- The extra arguments `*fn_args, **fn_kwargs` are one value of the metric's
  own argument type, passed through to the metric unchanged.
- An optional argument the caller may leave at its default is an `Option`;
  `None` stands for the default (`drop_unused=True`, `min_to_activate=0.07`,
  `stage='response_1'`, grouping `all`, method `mean`).

Deviations from the code, by design:

- A group-by result is a `map` from each distinct value to that group's
  reduced output, so groups are not ordered.
- When several groups fail, the reported error is the one from the first group
  in order of first appearance. pandas would report the first failing group in
  sorted order.
- `Reduced` is either the mean (`Scalar`) or the unreduced series (`Series`).

## Model

| member | source | states |
|---|---|---|
| Tasks.LoadTask | haiid.py:24-44 | The call succeeds exactly when the lower-cased, stripped name is one of the five tasks and the table has a `task_name` column. An unknown name fails with an invalid-task error carrying the normalised name. `drop_unused` defaults to true. |
| Tasks.LoadTaskRejectsUnknown | haiid.py:26-31 | The call fails with the invalid-task error exactly when the normalised name is not one of `art`, `cities`, `sarcasm`, `census`, `dermatology`. |
| Tasks.LoadTaskKeepsTaskRows | haiid.py:33-44 | With `drop_unused` set to false: all columns are kept. The rows are exactly those whose `task_name` is the normalised name, each unchanged and in original order (a strictly increasing enumeration of exactly the matching positions). |
| Tasks.LoadTaskDropsByDefault | haiid.py:24 | Leaving `drop_unused` out gives the same result as passing true. |
| Tasks.LoadTaskDropsUnused | haiid.py:24-43 | With `drop_unused` true or left at its default: dermatology loses exactly `gender`, `age`, `programming_experience`, `socioeconomic_status`, and every other task loses exactly `years_of_experience` and `job_title`. The other columns keep their relative order. Each row is the task-subset row without the dropped cells. |
| Tasks.LoadTaskRejectsWeather | haiid.py:28-31 | The unknown task `weather` fails with an invalid-task error. |
| Tasks.NormaliseExample | haiid.py:27 | `" Dermatology\n"` normalises to `"dermatology"`. |
| Tasks.Lower | haiid.py:27 | `lower()` has the same length and leaves no capital. Each capital becomes the small letter at the same place in the alphabet. Every other character is unchanged. |
| Tasks.StripStart | haiid.py:27 | `lstrip()` gives a suffix of the input. Everything before the suffix is white space, and the suffix does not start with white space. |
| Tasks.StripEnd | haiid.py:27 | `rstrip()` gives a prefix of the input. Everything after the prefix is white space, and the prefix does not end with white space. |
| Tasks.StripIsTrimmedSlice | haiid.py:27 | `strip()` gives a slice of the input with only white space before and after it, and the slice neither starts nor ends with white space. |
| Tasks.NormaliseIdempotent | haiid.py:27 | Normalising twice equals normalising once. A normalised name has no upper-case letter and no white space at either end. |
| Frames.Where | haiid.py:33 | The boolean-mask filter keeps the columns and never adds rows. |
| Frames.WhereSelectsInOrder | haiid.py:33 | The mask keeps exactly the rows whose cell equals the value, unchanged, in original order. Every matching row is kept. |
| Frames.Project | haiid.py:43 | The projection keeps the number of rows. |
| Frames.ProjectKeepsOthers | haiid.py:43 | The list comprehension keeps exactly the columns not in the drop list, in their relative order. Each row loses exactly the dropped cells, and its other cells are unchanged. |
| Frames.Column | haiid.py:74-75 | A column lookup succeeds exactly when the column exists and otherwise names the missing column. The resulting series is aligned with the rows. |
| Seqs.FilterSelectsInOrder | haiid.py:33 | Selection is the input read at a strictly increasing enumeration of exactly the positions whose element passes the test. |
| Seqs.FilterMembers | haiid.py:43 | Every kept element comes from the input and passes the test. Every element that passes is kept. |
| Seqs.FilterDistinct | haiid.py:43 | Selecting from distinct column names gives distinct names. |
| Aggregation.ReductionOf | haiid.py:49-52 | The reduction is the mean exactly when the method is `'mean'`, and the identity for every other string. |
| Aggregation.MeanOf | haiid.py:50 | The mean exists exactly for a non-empty series with no text cell; times the length it is the sum. Booleans count as 0 and 1. |
| Aggregation.Reduce | haiid.py:49-52 | The identity gives back the series. The mean succeeds exactly when the series is non-empty and numeric; its value times the length is the sum. Otherwise it fails with the empty-mean or non-numeric error. |
| Aggregation.Apply | haiid.py:49-55 | A failing metric gives its own error. Otherwise the identity gives the metric's series, and the mean gives the series' mean exactly when that mean is defined, or else the mean's error. A success is a scalar exactly when the reduction is the mean. |
| Aggregation.GroupKeys | haiid.py:57 | The groupby keys are distinct and are exactly the values occurring in the column. |
| Aggregation.ApplyGroups | haiid.py:58 | Succeeds exactly when every key's group succeeds. The map has exactly those keys, each bound to the reduction of the metric on that key's rows. A failure is the failure of some group. |
| Aggregation.AggregateOutput | haiid.py:48-63 | `'all'`: the reduction of the metric on the whole table, with the metric's or the mean's failure passed on. An existing column: maps each distinct value to the reduction of the metric on that value's rows, succeeding exactly when every group does. Anything else: an invalid-grouping error, without calling the metric. |
| Aggregation.OutputShape | haiid.py:48-63 | A successful result is one whole-table output exactly for `'all'`. Every output in it is a scalar exactly when the method is `'mean'`. |
| Aggregation.GroupsPartition | haiid.py:56-58 | Each group of an occurring value is non-empty. Each row lies in the group of its own value. The group sizes over the distinct values add up to the number of rows, so no row is in two groups. |
| Aggregation.ConstructAggFn | haiid.py:64-70 | The returned function is `aggregate_output` with the metric bound. Grouping and method take the bound defaults unless given. |
| Aggregation.ConstructAggFnDefaults | haiid.py:65-69 | A call with no overrides is `aggregate_output` with both defaults. An explicit grouping or method replaces only its own default. |
| Aggregation.SumBounds | haiid.py:50 | Bounds on every cell bound the sum by the length times the bounds. |
| Aggregation.MeanWithinBounds | haiid.py:50 | The mean of a non-empty numeric series lies between any bounds of its cells. |
| Aggregation.SumOfFlags | haiid.py:50 | A boolean series sums to its number of true cells. |
| Aggregation.MeanOfFlags | haiid.py:50 | The mean of a non-empty boolean series is its fraction of true cells, between 0 and 1. |
| Aggregation.ApplyMeanOfNumbers | haiid.py:50 | The mean of a metric's non-empty numeric series, times its length, is its sum. |
| Aggregation.ApplyMeanOfFlags | haiid.py:50 | The mean of a metric's non-empty boolean series is its fraction of true cells. |
| Metrics.ActivationRateMetric | haiid.py:72-77 | Succeeds exactly when both response columns are numeric. A missing first, then second, response column is reported. Each row's flag is whether the absolute change between the responses exceeds the threshold, which defaults to 0.07. |
| Metrics.AccuracyMetric | haiid.py:79-82 | Reads the `stage` column, which defaults to `response_1`. Succeeds exactly when the column exists and holds no text. Each number gives whether it is positive, and each boolean compares as itself. |
| Metrics.CorrectConfidenceMetric | haiid.py:84-87 | The `stage` column unchanged, aligned with the rows, or the missing-column error. |
| Metrics.WeightOfAdviceMetric | haiid.py:89-96 | Succeeds exactly when the two responses and the advice are numeric and every guarded denominator is nonzero. Each row is (r2 − r1) / (a − r1 + 0.001). A missing column fails with its own error, checked in the order `response_1`, `response_2`, `advice`. |
| Metrics.ActivationRate | haiid.py:98 | `activation_rate` is `aggregate_output` over the activation metric with defaults `"all"` and `"mean"`. |
| Metrics.Accuracy | haiid.py:99 | `accuracy` is `aggregate_output` over the accuracy metric with defaults `"all"` and `"mean"`. |
| Metrics.CorrectConfidence | haiid.py:100 | `correct_confidence` is `aggregate_output` over the pass-through metric with defaults `"all"` and `"mean"`. |
| Metrics.WeightOfAdvice | haiid.py:101 | `weight_of_advice` is `aggregate_output` over the weight metric with defaults `"all"` and `"mean"`. |
| Metrics.GuardedDenominatorNonZero | haiid.py:93-95 | When the first response and the advice have two decimal places, the guarded denominator is never zero. |
| Metrics.WeightOfAdviceDefined | haiid.py:89-96 | On two-decimal numeric data the weight of advice is defined for every row. |
| Metrics.WeightOfAdviceMeanDefined | haiid.py:101 | With the defaults, on a non-empty two-decimal table, `weight_of_advice` is a scalar that, times the number of rows, is the sum of the per-row weights. |
| Metrics.ActivationRateIsFraction | haiid.py:98 | With the defaults, on a non-empty numeric table, `activation_rate` is the fraction of activated rows, between 0 and 1. |
| Metrics.ActivationRateByGroup | haiid.py:56-58 | Grouped by a column, `activation_rate` has exactly the column's distinct values as keys. Each entry is the fraction of activated rows in that group, between 0 and 1. |
| Metrics.AccuracyIsFraction | haiid.py:99 | With the defaults, on a non-empty table of numeric first responses, `accuracy` is the fraction of positive first responses. |
| Metrics.CorrectConfidenceIsMean | haiid.py:100 | With the defaults, on a non-empty stage column without text, `correct_confidence` is the column's mean, whose product with the row count is the column's sum. |
| Metrics.WhereKeepsNumbers | haiid.py:58 | A column that is numeric in the table is numeric in every group. |
| Metrics.ActivationExample | haiid.py:76 | Responses 0.50 then 0.60 activate, and 0.50 then 0.55 do not. |
| Metrics.WeightOfAdviceExample | haiid.py:96 | With r1 = a = 0.20 and r2 = 0.30, the guard alone is the denominator, and the weight is 100. |
| Metrics.AccuracyExample | haiid.py:82 | Of the first responses 0.1, -0.2 and 0.0, only the first is positive. |

## Left out

- `load_dataset` (haiid.py:14-17) reads a CSV file. That is I/O, so the table is an input instead.
- `load_tasks` (haiid.py:19-22) uses the undefined names `task_names` and `df.concat`, so it cannot run as written. It is not modelled, not even in a corrected form.
- Floating point:
  - Cells hold exact reals, not IEEE doubles, and there is no NaN or infinity.
  - A zero weight-of-advice denominator is an error instead of an infinity or NaN.
  - The mean of an empty series is an error instead of NaN.
  - The NaN-skipping of `mean` is therefore not modelled.
- pandas `groupby`:
  - Its key order is not modelled. It sorts the keys; the model returns a map.
  - When more than one group fails, which group's error is reported is not modelled.
- The Series and DataFrame index is not modelled. A series is a sequence aligned with the rows.
- Either subtraction operand can be the source of a text-cell error; which one is reported is not modelled.
- Booleans in the metrics' subtraction and division count as non-numeric. In pandas, a boolean column mixed with a numeric one would count as 0 and 1, and two boolean columns cannot be subtracted at all. The response and advice columns hold numbers.
- Tasks.Lower: lowers ASCII letters only, because Python's full Unicode case mapping is not modelled. This can change the normalised name carried in an invalid-task error. It does not change whether a name is accepted. The only non-ASCII character that Python lower-cases to an ASCII letter is the KELVIN SIGN, which becomes `k`, and no task name contains `k`.
- The `print` messages (haiid.py:29-30, haiid.py:60) are left out, because they are output. So is the exception type of the bare `raise`; an error result stands in for it.
- A missing `task_name` column is modelled as a missing-column error. pandas raises an attribute error.
- `*fn_args, **fn_kwargs` are modelled as a single argument of the metric's own type.
- Python's positional rule is not modelled. In `calc_fn`, a positional metric argument must come after an explicit grouping and method. The model always lets a metric argument be given with either default left in place, as a keyword argument allows.
