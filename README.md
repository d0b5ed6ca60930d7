# Column-cleaning utilities of OC-Projet4, modelled in Dafny

`MLUtils.py` offers two helpers over a pandas data frame:

- `DataEngineering.remove_columns_by_percentage(df, percent)` rejects a threshold outside
  [0, 1]. It then walks the columns in order. Each column whose fill ratio is below the
  threshold is logged, counted and put on a removal list. The ratio is non-missing cells
  over rows. Finally those columns are dropped by name. The result is the frame, the logs
  and the count.
- `DataEngineering.remove_columns_by_name(df, names)` drops the named columns.
- `DataAnalysis.show_columns_population(df, type)` accepts the modes `'matrix'` and `'bar'`
  and hands the frame to a missing-value charting library.

The model reduces a frame to what these helpers read. That is an ordered sequence of
columns, each a name and a count of non-missing cells (`Frame.Column`), plus a row count
(`Frame.DataFrame`). The threshold is a `real`. The ratio test `count / rows < percent` is
stated without division as `count < percent * rows`. `Frame.BelowThresholdIsRatioTest`
proves the two forms agree when `rows > 0`.

- `frame.dfy` (module `Frame`): the data model, errors, fill ratio and threshold test, and
  a subsequence predicate ("same elements, same relative order, some left out").
- `data_engineering.dfy` (module `DataEngineering`): both removal helpers. The threshold
  filter is a method with the source's loop. Its accumulators are the logs, the names to
  remove and the counter. Its loop invariants tie them to the specification functions
  `Marked` and `Kept` on the processed prefix. The lemmas prove the properties the source
  promises about those functions.
- `data_analysis.dfy` (module `DataAnalysis`): the mode check, with the chart kind as a
  two-value datatype.

Preconditions the source relies on:

- `rows > 0`. Line 29 divides by the row count.
- Distinct column names for the threshold filter. With a repeated name, `df[column].count()`
  is a Series, and the `if` at line 30 raises.

Dropping an unknown column name raises inside pandas. The model makes it the error
`ColumnNotFound` rather than a precondition.

## Model

| member | source | states |
|---|---|---|
| Frame.BelowThresholdIsRatioTest | MLUtils.py:28-30 | the division-free test `count < percent * rows` holds exactly when the fill ratio `count / rows` is below the threshold |
| DataEngineering.Marked | MLUtils.py:27-32 | every marked column is below the threshold, and the marked columns keep their input order (a subsequence of the input) |
| DataEngineering.Kept | MLUtils.py:27-35 | every kept column is at or above the threshold, and the kept columns keep their input order (a subsequence of the input) |
| DataEngineering.ThresholdMembers | MLUtils.py:27-35 | a column is marked iff it is an input column below the threshold, and kept iff it is an input column at or above it |
| DataEngineering.Drop | MLUtils.py:49 | dropping by names keeps a column iff it is an input column whose name is not listed, in input order |
| DataEngineering.DropKeepsUnlistedCopies | MLUtils.py:49 | a column whose name is not listed occurs in the result exactly as many times as in the input, so repeated columns all survive |
| DataEngineering.LogsOf | MLUtils.py:31 | one log entry per removed column, in the same order, each holding that column's name and fill ratio |
| DataEngineering.RemoveColumnsByName | MLUtils.py:38-49 | succeeds iff every listed name is a column, and otherwise fails with ColumnNotFound. On success the row count is unchanged. The result holds exactly the unlisted columns, in input order, each as many times as in the input |
| DataEngineering.RemoveColumnsByPercentage | MLUtils.py:6-35 | fails with InvalidArgument iff the threshold is below 0 or above 1. Otherwise it returns the kept frame, one log per marked column and the marked count. Every kept column has ratio >= threshold. Every log names an input column with its ratio, which is below the threshold. The count equals the log length and the input width minus the output width. The output is a subsequence of the input |
| DataEngineering.KeptMeetThreshold | MLUtils.py:27-35 | every column left in the frame has fill ratio at least the threshold |
| DataEngineering.LogsReportRemoved | MLUtils.py:28-31 | every log entry is below the threshold and names an input column with that column's own fill ratio |
| DataEngineering.ThresholdPartition | MLUtils.py:25-35 | kept and marked columns together have the input's length and, as a multiset, its elements: count removed = input width - output width |
| DataEngineering.MarkedNamesExist | MLUtils.py:32-35 | every name on the removal list is a column of the frame, so the final drop cannot fail |
| DataEngineering.DropBelowThresholdNames | MLUtils.py:32-35 | dropping by a list that names exactly the below-threshold columns leaves exactly the kept columns |
| DataEngineering.DropMarkedIsKept | MLUtils.py:32-35 | with distinct names, dropping the removal list built by the loop leaves exactly the kept columns |
| DataEngineering.ZeroThresholdKeepsAll | MLUtils.py:30 | at threshold 0 no column is marked and every column is kept |
| DataEngineering.DropNothing | MLUtils.py:49 | dropping an empty name list keeps every column |
| DataEngineering.RemoveNoNamesIsIdentity | MLUtils.py:49 | `remove_columns_by_name` with an empty list returns the frame unchanged |
| DataEngineering.ThreeColumnExample | MLUtils.py:27-35 | columns A 5/5, B 2/5, C 0/5 at threshold 0.5: only A is kept, and B and C are logged at ratios 0.4 and 0.0 |
| DataAnalysis.ShowColumnsPopulation | MLUtils.py:62-69 | accepts a mode iff it is "matrix" or "bar". An accepted mode selects the chart of that name. Any other mode fails with InvalidArgument |
| DataAnalysis.ModeNameSelectsKind | MLUtils.py:63-69 | each chart kind's mode name is accepted and selects that kind |

## Left out

- Drawing the charts (`msno.matrix`, `msno.bar`, MLUtils.py:66-69): a foreign visualization library with only side effects. `ShowColumnsPopulation` returns which chart would be drawn, and does not take the frame.
- The pandas calls `df[column].count()`, `len(df)` and `df.drop` are not modelled as library code. Each column carries its non-missing count; the row count is a field; dropping is an order-preserving filter by name.
- A frame with zero rows: line 29 divides by zero, and the result (an error or NaN) depends on pandas and numpy. Every threshold operation requires `rows > 0`.
- Frames with repeated column names for the threshold filter. The source raises at line 30 in that case; the model requires distinct names.
- The French log text and the rounding `round(non_na_percent * 100, 2)` at line 31: a log entry is the removed column's name and its exact fill ratio.
- Floating point: thresholds and ratios are exact reals. A NaN threshold, which passes the range check in Python and then removes nothing, has no counterpart.
- RemoveColumnsByName: the error carries no payload. pandas' `KeyError` lists the missing names; the model only reports that some name was not found.
- The invariant that a column's non-missing count is at most the row count is not assumed. None of the modelled properties depend on it.
