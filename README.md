# Medical dashboard: selection-driven filter and aggregate

The dashboard loads a table of patient visits and shows eight charts for the
patient groups ticked in a checklist. This project models the one piece with
logic, the callback `update_graphs`. It takes the loaded table and the ticked
group labels and produces the data behind the eight figures:

1. a ferritin/hemoglobin scatter,
2. a pie of visits per group,
3. a bar of mean hemoglobin per group,
4. a protein histogram,
5. a ferritin box plot per sex,
6. a heatmap of mean self-rated health over a 6 x 6 grid of hemoglobin and protein bins,
7. a heart-rate line over exam date,
8. an animated ferritin/hemoglobin scatter with one frame per age and fixed axis ranges.

The checklist's options (the sorted distinct group labels, all ticked at
start) are modelled too.

Everything is pure: datatypes, functions and lemmas over `seq<Record>`.

- `stats.dfy` (module `Stats`): sum, mean, minimum and maximum of a column, in exact reals.
- `records.dfy` (module `Records`): the `Record` row, the group filter, the
  checklist options, and the sort by exam date.
- `cut.dfy` (module `Cut`): `pd.cut(column, bins=6)`. It uses seven evenly
  spaced edges from the column's minimum to its maximum. Bins are
  right-closed. The first edge is lowered by 0.1% of the range. When minimum
  and maximum coincide, both are first pushed out by 0.1% of their magnitude,
  or by 0.001 when they are zero.
- `dashboard.dfy` (module `Dashboard`): the chart datatypes, the eight
  derivations, the two guarded derivations that return a `Result`, the
  fallback to the "no data" figure, and `UpdateGraphs` itself.

Modelling choices:

- Group labels are integers. They are the checklist's values and are sorted.
- Exam dates are day numbers supplied by the caller.
- Measurements are exact reals.
- The two `try`/`except` blocks are `Result`-returning functions (`HeatmapOf`,
  `AnimatedOf`). `Fallback` turns an `Err` into the placeholder for that slot only.
- When the filtered table is empty, pd.cut rejects the empty column
  (`CannotCutEmpty`). `UpdateGraphs` never reaches that case, because it
  returns the placeholders first.
- The animated scatter fails when some heart rate, used as marker size, is
  negative (`NegativeMarkerSize`). This models plotly's refusal of negative
  marker sizes. That check lives in plotly, not in this repository.

Two behaviours of the code worth noting:

- A degenerate range (minimum equal to maximum) does not make the heatmap
  fail. pd.cut widens the range, and every value lands in the third bin
  (`Cut.ConstantInMiddleBin`).
- `sort_values` defaults to an unstable sort. The model therefore claims only
  "sorted by date and a permutation" for the line series, not that rows with
  equal dates keep their order.

## Model

| member | source | states |
|---|---|---|
| `Dashboard.UpdateGraphs` | medical_dash.py:65-176 | Always eight figures. An empty selection gives eight placeholders. All eight are placeholders exactly when no row survives the filter. Otherwise no figure except the animated scatter is a placeholder, and that one is a placeholder exactly when some filtered row has a negative heart rate. |
| `Dashboard.NoData` | medical_dash.py:67-74 | Eight figures, each the "no data" placeholder. |
| `Dashboard.AbsentLabelsChangeNothing` | medical_dash.py:69-74 | Ticking labels that no row carries changes no figure. |
| `Records.Filter` | medical_dash.py:72 | The kept rows are exactly the rows whose group is selected, and there are no more of them than rows in the table. |
| `Records.Where` | medical_dash.py:72 | A boolean-mask selection keeps exactly the rows satisfying the mask, and no more rows than the table has. The same selection forms the per-sex, per-cell and per-age row groups. |
| `Records.WhereAppend` | medical_dash.py:72 | Selection keeps table order: selecting from a concatenation concatenates the selections. |
| `Records.WhereMultiplicity` | medical_dash.py:72 | Each row satisfying the mask is kept as often as it occurs, and every other row not at all. |
| `Records.FilterAppend` | medical_dash.py:72 | The filter keeps table order: filtering a concatenation concatenates the filtered parts. |
| `Records.FilterMultiplicity` | medical_dash.py:72 | A selected row is kept as many times as it occurs. An unselected row is never kept. |
| `Records.FilterIgnoresAbsentLabels` | medical_dash.py:72 | Selected labels that occur in no row select nothing. |
| `Records.FilterAll` | medical_dash.py:72 | When every row's group is selected, the filter returns the table unchanged. |
| `Records.FilterNothing` | medical_dash.py:69-72 | An empty selection keeps no row. |
| `Records.FilterCountSplit` | medical_dash.py:72 | Adding one more label to the selection adds exactly that label's rows to the count. |
| `Records.InsertLabel` | medical_dash.py:25 | Adding a label to a sorted list of distinct labels keeps the list sorted and distinct and adds exactly that label. |
| `Records.GroupOptions` | medical_dash.py:25 | The checklist options are strictly ascending and contain exactly the labels present in the table. |
| `Records.DefaultSelection` | medical_dash.py:26 | The initial checklist value is the set of all labels present in the table. |
| `Records.DefaultSelectionKeepsAll` | medical_dash.py:26 | With the initial selection, the filter keeps the whole table. |
| `Records.InsertByDate` | medical_dash.py:141 | Inserting a row into a date-sorted list keeps it sorted and adds exactly that row. |
| `Records.SortByDate` | medical_dash.py:141 | The output is sorted by ascending exam date and is a permutation of the input. |
| `Dashboard.LineIsSortedPermutation` | medical_dash.py:140-141 | The line chart's series is the filtered table, sorted by exam date and permuted. |
| `Dashboard.PieSlices` | medical_dash.py:87-91 | One slice per group present, in ascending label order. Each count is the number of rows of that group and is positive. The counts add up to the number of rows. |
| `Dashboard.TotalOfSlices` | medical_dash.py:87-91 | For distinct labels, the slice counts add up to the number of rows those labels select. |
| `Dashboard.PieCountsFilteredRows` | medical_dash.py:87-91 | The pie figure's counts add up to the size of the filtered table. |
| `Dashboard.BarsFor` | medical_dash.py:94 | One bar per given label. Each label has rows, and each bar is the mean hemoglobin of that label's rows. |
| `Dashboard.BarData` | medical_dash.py:94 | Bars for exactly the observed groups, in ascending label order. Each bar is the group's hemoglobin sum divided by the group's row count. |
| `Dashboard.BarWithinGroupRange` | medical_dash.py:94 | Each bar lies between the group's smallest and largest hemoglobin. |
| `Dashboard.SingleGroupOptions` | medical_dash.py:25 | When all rows share one label, that label is the only option. |
| `Dashboard.SingleGroupPie` | medical_dash.py:87-91 | A single group gives one slice holding every row. |
| `Dashboard.SingleGroupBar` | medical_dash.py:94 | A single group gives one bar, the mean hemoglobin of all rows. |
| `Dashboard.BarOfOneGroup` | medical_dash.py:94 | One group with hemoglobin values 10, 20 and 30 gets a bar of exactly 20. |
| `Dashboard.SelectFirstTwo` | medical_dash.py:72 | Ticking A in rows labelled A, A, B keeps the two A rows in order. |
| `Dashboard.TwoOfThreeSelected` | medical_dash.py:72-94 | For rows A, A, B with only A ticked, the pie is one slice of 2 and the bar is the mean of the two A rows. |
| `Dashboard.BoxData` | medical_dash.py:112-118 | One box per sex present. Each box holds one ferritin value per row of that sex, in table order, so repeated values are kept. Every row's ferritin is in its sex's box, and every value in a box comes from a row of that sex. |
| `Dashboard.BoxOfSex` | medical_dash.py:112-118 | The ferritin values of one sex's rows are exactly the ferritin values that rows of that sex hold. |
| `Dashboard.SpanOf` | medical_dash.py:124-125 | The span pd.cut bins over is valid, encloses every row's value of that column, and both its ends are values some row holds, so it is the column's exact minimum and maximum. |
| `Cut.BinIndex` | medical_dash.py:124-125 | The bin index is below 6. Every value within the span lies in the right-closed interval of the bin it is given. |
| `Cut.EdgesIncrease` | medical_dash.py:124-125 | The seven bin edges strictly increase and enclose the span. |
| `Cut.EdgesBelow` | medical_dash.py:124-125 | Bin edges are monotone in their index. |
| `Cut.BinIsUnique` | medical_dash.py:124-125 | A value within the span lies in exactly one of the six bins: the one `BinIndex` names. |
| `Cut.EndsInOuterBins` | medical_dash.py:124-125 | On a proper span, the minimum falls in the first bin and the maximum in the last. |
| `Cut.ConstantInMiddleBin` | medical_dash.py:124-125 | When minimum and maximum coincide, the value falls in the third bin. |
| `Dashboard.ExtremesInOuterBins` | medical_dash.py:124-125 | When the column is not constant, a row holding its minimum is in that column's first bin and a row holding its maximum is in the last. |
| `Dashboard.CellOf` | medical_dash.py:124-125 | A row's cell has both coordinates below 6. |
| `Dashboard.InsideSpans` | medical_dash.py:124-125 | Every row lies within its table's hemoglobin span and protein span. |
| `Dashboard.CellIsUnique` | medical_dash.py:124-127 | A row inside both spans is in cell (i, j) exactly when it is in hemoglobin bin i and protein bin j. |
| `Dashboard.RowCellPresent` | medical_dash.py:127 | Every row's cell is a key of the heatmap. |
| `Dashboard.RowInExactlyOneCell` | medical_dash.py:124-127 | Every filtered row lies in exactly one hemoglobin bin and one protein bin, and its cell is in the heatmap. |
| `Dashboard.GridRowsSize` | medical_dash.py:127-128 | The first n rows of the 6 x 6 grid hold 6n cells. |
| `Dashboard.AtMost36Cells` | medical_dash.py:127-128 | A set of cells inside the 6 x 6 grid has at most 36 members. |
| `Dashboard.HeatCells` | medical_dash.py:127-128 | The heatmap has exactly the occupied cells, all inside the grid, at most 36 of them. Each value is the mean self-rated health of that cell's rows. Empty cells are absent. |
| `Dashboard.CellWithinRange` | medical_dash.py:127 | Each cell's value lies between the smallest and largest self-rated health of its rows. |
| `Dashboard.HeatmapOf` | medical_dash.py:121-134 | The heatmap fails exactly when there are no rows, with pd.cut's empty-column error. Otherwise it is the heatmap of the occupied cells and their means (`HeatCells`). |
| `Dashboard.AnimatedOf` | medical_dash.py:149-162 | The animated scatter succeeds exactly when there are rows and no heart rate is negative. On success, both ranges enclose every row, and each range end is some row's ferritin or hemoglobin, so the ranges are the exact minimum and maximum over all rows. |
| `Dashboard.RangesCoverEveryFrame` | medical_dash.py:154-161 | The fixed ranges enclose every row of every age frame. |
| `Dashboard.Fallback` | medical_dash.py:135-137 | The fallback yields the placeholder exactly when the derivation failed or produced the placeholder. |
| `Dashboard.Figures` | medical_dash.py:167-176 | Eight figures in the callback's order: the scatter and histogram carry the rows, the pie, bar, box and line carry their derivations, and the heatmap and animated slots hold their derivations' outcomes after the fallback. Slots other than the heatmap and the animated scatter are never placeholders. |
| `Dashboard.FallbackIsIsolated` | medical_dash.py:121-165 | A failure of the heatmap or the animated scatter changes only its own slot. The other slots are the same whatever the two outcomes are. |
| `Dashboard.SlotsOf` | medical_dash.py:167-176 | For a non-empty filtered table, every slot holds its derivation of the filtered rows: scatter and histogram the rows themselves, then pie, bar, box, the heatmap of `HeatCells`, the date-sorted line, and the animated scatter after the fallback. |
| `Stats.Min` | medical_dash.py:160-161 | The minimum is a value of the column and no larger than any value. |
| `Stats.Max` | medical_dash.py:160-161 | The maximum is a value of the column and no smaller than any value. |
| `Stats.SumAtLeast` | medical_dash.py:94 | A sum of n values none below lo is at least n * lo. |
| `Stats.SumAtMost` | medical_dash.py:94 | A sum of n values none above hi is at most n * hi. |
| `Stats.MeanBetween` | medical_dash.py:94 | A mean of values within [lo, hi] lies within [lo, hi]. |
| `Dashboard.RangeEndsAttained` | medical_dash.py:160-161 | The ferritin and hemoglobin spans enclose every row, and each of their ends is a value some row holds. |
| `Stats.MeanWithinRange` | medical_dash.py:94 | A mean lies between the smallest and largest value it averages. |

## Left out

- Loading the Excel file and `pd.to_datetime` (medical_dash.py:7-11): file I/O and a library parser. Dates are day numbers supplied by the caller.
- The Dash app, its Bootstrap layout, the callback decorator and `app.run` (medical_dash.py:14-64, 178-179): UI and server plumbing. The checklist's display text "Группа {g}" is not modelled; only its values and initial selection are.
- Plotly figure construction (`px.scatter`, `px.pie`, `px.bar`, `px.histogram`, `px.box`, `px.imshow`, `px.line`): titles, axis labels, colours, hover names and rendering. Each figure carries only the data handed to plotly. The scatter and histogram figures carry the filtered rows and have no derivation of their own.
- The histogram's `nbins=20` and the box plot's five-number summaries (medical_dash.py:103-118): both are computed inside plotly. The box figure carries the ferritin values grouped by sex.
- Pie percentages: plotly computes them in floating point. The model keeps integer counts and proves they add up to the filtered row count.
- Floating point: means, bin edges and the 0.1% widening are exact reals.
- Missing or non-finite values (NaN, infinity): every measurement is a finite real. pd.cut's error on an infinite value and pandas' skipping of NaN in `min`, `max` and `mean` are therefore not modelled.
- Heatmap axis order and labels: `astype(str)` turns the bins into interval strings. groupby and pivot then order them as strings, which can differ from numeric order. The model keys cells by bin index and does not model label text or display order.
- Dashboard.AnimatedOf: marker-size validation is plotly's. The model takes a negative heart rate as the only failure with rows present; other plotly errors are not modelled.
- Records.SortByDate: does not state the order of rows with equal exam dates, because `sort_values` defaults to an unstable sort.
- Idempotence of the callback: every member is a pure function, so repeated calls with the same table and selection agree by construction. No lemma states it.
- The `print` diagnostics in the two `except` branches (medical_dash.py:136, 164).
