/** The callback `update_graphs`: from the table and the ticked group labels to
    the data behind the eight figures (scatter, pie, bar, histogram, box,
    heatmap, line, animated scatter). Plotly's drawing is not modelled; each
    chart carries the data the source hands to plotly or computes for it. */
module Dashboard {
  import opened Stats
  import opened Records
  import Cut

  /** Why the heatmap or the animated scatter could not be built. */
  datatype Failure =
    | CannotCutEmpty      // pd.cut on an empty column
    | NoRows              // no rows to take axis ranges from
    | NegativeMarkerSize  // plotly refuses a negative marker size (HeartRate)

  datatype Result<T> = Ok(value: T) | Err(error: Failure)

  datatype Slice = Slice(group: Group, count: nat)
  datatype Bar = Bar(group: Group, meanHemoglobin: real)
  /** A heatmap cell: hemoglobin bin by protein bin. */
  datatype Cell = Cell(hb: nat, protein: nat)
  datatype Range = Range(lo: real, hi: real)

  datatype Chart =
    | Placeholder                                        // the "no data" figure
    | ScatterChart(points: seq<Record>)                  // Ferritin vs Hemoglobin, coloured by Group
    | PieChart(slices: seq<Slice>)                       // records per Group
    | BarChart(bars: seq<Bar>)                           // mean Hemoglobin per Group
    | HistogramChart(values: seq<Record>)                // Protein, coloured by Group
    | BoxChart(ferritinBySex: map<string, seq<real>>)    // Ferritin per Sex
    | HeatmapChart(cells: map<Cell, real>)               // mean SelfRatedHealth per cell
    | LineChart(series: seq<Record>)                     // HeartRate over ExamDate
    | AnimatedScatterChart(points: seq<Record>, rangeX: Range, rangeY: Range)

  // ---------------------------------------------------------------------------
  // Pie: records per group

  function SlicesFor(rows: seq<Record>, labels: seq<Group>): (slices: seq<Slice>)
    ensures |slices| == |labels|
    ensures forall i | 0 <= i < |labels| :: slices[i] == Slice(labels[i], |Filter(rows, {labels[i]})|)
  {
    if labels == [] then []
    else [Slice(labels[0], |Filter(rows, {labels[0]})|)] + SlicesFor(rows, labels[1..])
  }

  function Total(slices: seq<Slice>): nat
  {
    if slices == [] then 0 else slices[0].count + Total(slices[1..])
  }

  /** The slice counts over distinct labels add up to the rows those labels select. */
  lemma {:induction false} TotalOfSlices(rows: seq<Record>, labels: seq<Group>)
    requires StrictlyIncreasing(labels)
    ensures Total(SlicesFor(rows, labels)) == |Filter(rows, set g | g in labels)|
  {
    if labels == [] {
      assert (set g | g in labels) == {};
      FilterNothing(rows, {});
    } else {
      var g, rest := labels[0], labels[1..];
      var restSet := set x | x in rest;
      assert g !in restSet by {
        forall j | 0 <= j < |rest| ensures rest[j] != g {
          assert labels[j + 1] == rest[j];
        }
      }
      assert (set x | x in labels) == restSet + {g};
      TotalOfSlices(rows, rest);
      FilterCountSplit(rows, restSet, g);
    }
  }

  /** One slice per group present, in ascending label order, sized by that
      group's row count; the slices together account for every row. */
  function PieSlices(rows: seq<Record>): (slices: seq<Slice>)
    ensures |slices| == |GroupOptions(rows)|
    ensures forall i | 0 <= i < |slices| :: slices[i].group == GroupOptions(rows)[i]
    ensures forall i | 0 <= i < |slices| :: slices[i].count == |Filter(rows, {slices[i].group})| > 0
    ensures Total(slices) == |rows|
  {
    var options := GroupOptions(rows);
    OptionsAreObserved(rows, options);
    TotalOverOptions(rows);
    SlicesFor(rows, options)
  }

  /** Every option labels at least one row. */
  lemma OptionsAreObserved(rows: seq<Record>, options: seq<Group>)
    requires options == GroupOptions(rows)
    ensures forall i | 0 <= i < |options| :: |Filter(rows, {options[i]})| > 0
  {
    forall i | 0 <= i < |options| ensures |Filter(rows, {options[i]})| > 0 {
      assert options[i] in options;
      var r :| r in rows && r.group == options[i];
      assert r in Filter(rows, {options[i]});
    }
  }

  /** The counts over the options add up to the number of rows. */
  lemma TotalOverOptions(rows: seq<Record>)
    ensures Total(SlicesFor(rows, GroupOptions(rows))) == |rows|
  {
    var options := GroupOptions(rows);
    TotalOfSlices(rows, options);
    FilterAll(rows, set g | g in options);
  }

  // ---------------------------------------------------------------------------
  // Bar: `groupby('Group', observed=True)['Hemoglobin'].mean()`

  /** The rows of one group. */
  function GroupRows(rows: seq<Record>, g: Group): seq<Record>
  {
    Filter(rows, {g})
  }

  function BarsFor(rows: seq<Record>, labels: seq<Group>): (bars: seq<Bar>)
    requires forall g | g in labels :: g in GroupsIn(rows)
    ensures |bars| == |labels|
    ensures forall i | 0 <= i < |labels| ::
      bars[i].group == labels[i] && GroupRows(rows, labels[i]) != [] &&
      bars[i].meanHemoglobin == Mean(Column(GroupRows(rows, labels[i]), Hemoglobin))
  {
    if labels == [] then []
    else
      var g := labels[0];
      assert g in labels;
      assert g in GroupsIn(rows);
      var r :| r in rows && r.group == g;
      assert r in GroupRows(rows, g);
      [Bar(g, Mean(Column(GroupRows(rows, g), Hemoglobin)))] + BarsFor(rows, labels[1..])
  }

  /** One bar per group present, in ascending label order; each bar is the sum
      of the group's hemoglobin divided by the group's row count. */
  function BarData(rows: seq<Record>): (bars: seq<Bar>)
    ensures |bars| == |GroupOptions(rows)|
    ensures forall i | 0 <= i < |bars| :: bars[i].group == GroupOptions(rows)[i]
    ensures forall i | 0 <= i < |bars| ::
      var members := GroupRows(rows, bars[i].group);
      members != [] &&
      bars[i].meanHemoglobin == Sum(Column(members, Hemoglobin)) / (|members| as real)
  {
    BarsFor(rows, GroupOptions(rows))
  }

  /** Each bar lies between the group's smallest and largest hemoglobin. */
  lemma BarWithinGroupRange(rows: seq<Record>, i: nat)
    requires i < |BarData(rows)|
    ensures var b := BarData(rows)[i];
      var hb := Column(GroupRows(rows, b.group), Hemoglobin);
      hb != [] && Min(hb) <= b.meanHemoglobin <= Max(hb)
  {
    var b := BarData(rows)[i];
    var hb := Column(GroupRows(rows, b.group), Hemoglobin);
    assert b.meanHemoglobin == Mean(hb);
    MeanWithinRange(hb);
  }

  // ---------------------------------------------------------------------------
  // Box: Ferritin grouped by Sex

  /** The rows of one sex, in table order. */
  function BySex(rows: seq<Record>, sex: string): seq<Record>
  {
    Where(rows, (r: Record) => r.sex == sex)
  }

  /** One box per sex present, holding one ferritin value per row of that sex,
      in table order. */
  function BoxData(rows: seq<Record>): (boxes: map<string, seq<real>>)
    ensures forall s :: s in boxes <==> exists r :: r in rows && r.sex == s
    ensures forall r | r in rows :: r.sex in boxes && r.ferritin in boxes[r.sex]
    ensures forall s, v | s in boxes && v in boxes[s] :: exists r :: r in rows && r.sex == s && r.ferritin == v
    ensures forall s | s in boxes ::
      var members := BySex(rows, s);
      |boxes[s]| == |members| && forall i | 0 <= i < |members| :: boxes[s][i] == members[i].ferritin
  {
    var boxes := map s | s in (set r | r in rows :: r.sex) :: Column(BySex(rows, s), Ferritin);
    forall r | r in rows ensures r.sex in boxes && r.ferritin in boxes[r.sex] {
      BoxOfSex(rows, r.sex);
    }
    forall s | s in boxes ensures forall v | v in boxes[s] :: exists r :: r in rows && r.sex == s && r.ferritin == v {
      BoxOfSex(rows, s);
    }
    forall s | s in boxes
      ensures |boxes[s]| == |BySex(rows, s)|
      ensures forall i | 0 <= i < |BySex(rows, s)| :: boxes[s][i] == BySex(rows, s)[i].ferritin
    {
      var members := BySex(rows, s);
      assert boxes[s] == Column(members, Ferritin);
    }
    boxes
  }

  /** The ferritin column of one sex's rows holds exactly the ferritin values of those rows. */
  lemma BoxOfSex(rows: seq<Record>, sex: string)
    ensures var box := Column(BySex(rows, sex), Ferritin);
      && (forall r | r in rows && r.sex == sex :: r.ferritin in box)
      && (forall v | v in box :: exists r :: r in rows && r.sex == sex && r.ferritin == v)
  {
    var members := BySex(rows, sex);
    var box := Column(members, Ferritin);
    forall r | r in rows && r.sex == sex ensures r.ferritin in box {
      assert r in members;
      assert Get(r, Ferritin) == r.ferritin;
    }
    forall v | v in box ensures exists r :: r in rows && r.sex == sex && r.ferritin == v {
      ColumnValueFromRow(members, Ferritin, v);
    }
  }

  // ---------------------------------------------------------------------------
  // Heatmap: pd.cut of Hemoglobin and Protein into 6 bins, mean SelfRatedHealth per cell

  /** The span pd.cut spaces a column's bins over: its minimum and maximum. */
  function SpanOf(rows: seq<Record>, f: Field): (s: Cut.Span)
    requires rows != []
    ensures Cut.ValidSpan(s)
    ensures forall r | r in rows :: s.lo <= Get(r, f) <= s.hi
    ensures exists r | r in rows :: Get(r, f) == s.lo
    ensures exists r | r in rows :: Get(r, f) == s.hi
  {
    var c := Column(rows, f);
    ColumnValueFromRow(rows, f, Min(c));
    ColumnValueFromRow(rows, f, Max(c));
    Cut.Span(Min(c), Max(c))
  }

  /** The cell a record falls in: its hemoglobin bin and its protein bin. */
  function CellOf(r: Record, hb: Cut.Span, pr: Cut.Span): (c: Cell)
    requires Cut.ValidSpan(hb) && Cut.ValidSpan(pr)
    ensures c.hb < Cut.Bins && c.protein < Cut.Bins
  {
    Cell(Cut.BinIndex(r.hemoglobin, hb), Cut.BinIndex(r.protein, pr))
  }

  /** The rows falling in cell `c`, in table order. */
  function CellRows(rows: seq<Record>, hb: Cut.Span, pr: Cut.Span, c: Cell): seq<Record>
    requires Cut.ValidSpan(hb) && Cut.ValidSpan(pr)
  {
    Where(rows, (r: Record) => CellOf(r, hb, pr) == c)
  }

  /** The cells of the 6 x 6 grid whose hemoglobin bin is below `n`. */
  function GridRows(n: nat): set<Cell>
  {
    set i: nat, j: nat | i < n && j < Cut.Bins :: Cell(i, j)
  }

  lemma {:induction false} GridRowsSize(n: nat)
    ensures |GridRows(n)| == Cut.Bins * n
  {
    if n > 0 {
      var row := {Cell(n - 1, 0), Cell(n - 1, 1), Cell(n - 1, 2), Cell(n - 1, 3), Cell(n - 1, 4), Cell(n - 1, 5)};
      assert GridRows(n) == GridRows(n - 1) + row;
      assert GridRows(n - 1) * row == {};
      GridRowsSize(n - 1);
    }
  }

  /** At most 36 distinct cells fit in the 6 x 6 grid. */
  lemma AtMost36Cells(cells: set<Cell>)
    requires forall c | c in cells :: c.hb < Cut.Bins && c.protein < Cut.Bins
    ensures |cells| <= Cut.Bins * Cut.Bins
  {
    var grid := GridRows(Cut.Bins);
    var rest := grid - cells;
    assert grid == cells + rest && cells * rest == {};
    GridRowsSize(Cut.Bins);
  }

  /** The occupied cells, each with the mean self-rated health of its rows;
      empty cells are absent rather than zero. */
  function HeatCells(rows: seq<Record>): (cells: map<Cell, real>)
    requires rows != []
    ensures var hb, pr := SpanOf(rows, Hemoglobin), SpanOf(rows, Protein);
      forall c :: c in cells <==> exists r :: r in rows && CellOf(r, hb, pr) == c
    ensures forall c | c in cells :: c.hb < Cut.Bins && c.protein < Cut.Bins
    ensures |cells| <= Cut.Bins * Cut.Bins
    ensures var hb, pr := SpanOf(rows, Hemoglobin), SpanOf(rows, Protein);
      forall c | c in cells :: CellRows(rows, hb, pr, c) != [] &&
        cells[c] == Mean(Column(CellRows(rows, hb, pr, c), SelfRatedHealth))
  {
    var hb, pr := SpanOf(rows, Hemoglobin), SpanOf(rows, Protein);
    var occupied := set r | r in rows :: CellOf(r, hb, pr);
    var cells := map c | c in occupied && CellRows(rows, hb, pr, c) != [] ::
      Mean(Column(CellRows(rows, hb, pr, c), SelfRatedHealth));
    assert forall c | c in occupied :: CellRows(rows, hb, pr, c) != [] by {
      forall c | c in occupied ensures CellRows(rows, hb, pr, c) != [] {
        var r :| r in rows && CellOf(r, hb, pr) == c;
        assert r in CellRows(rows, hb, pr, c);
      }
    }
    assert forall c :: c in cells <==> c in occupied;
    AtMost36Cells(cells.Keys);
    cells
  }

  /** Every row lands in exactly one hemoglobin bin and one protein bin, and that
      cell is present in the heatmap. */
  lemma RowInExactlyOneCell(rows: seq<Record>, r: Record, i: nat, j: nat)
    requires r in rows && i < Cut.Bins && j < Cut.Bins
    ensures var hb, pr := SpanOf(rows, Hemoglobin), SpanOf(rows, Protein);
      && CellOf(r, hb, pr) in HeatCells(rows)
      && (Cut.InBin(r.hemoglobin, hb, i) && Cut.InBin(r.protein, pr, j) <==> CellOf(r, hb, pr) == Cell(i, j))
  {
    RowCellPresent(rows, r);
    var hb, pr := SpanOf(rows, Hemoglobin), SpanOf(rows, Protein);
    InsideSpans(rows, r);
    CellIsUnique(r, hb, pr, i, j);
  }

  /** Every row lies within the hemoglobin span and the protein span of its table. */
  lemma InsideSpans(rows: seq<Record>, r: Record)
    requires r in rows
    ensures var hb, pr := SpanOf(rows, Hemoglobin), SpanOf(rows, Protein);
      hb.lo <= r.hemoglobin <= hb.hi && pr.lo <= r.protein <= pr.hi
  {
    assert Get(r, Hemoglobin) == r.hemoglobin && Get(r, Protein) == r.protein;
  }

  /** A row inside both spans is in cell (i, j) exactly when it is in hemoglobin bin i and protein bin j. */
  lemma CellIsUnique(r: Record, hb: Cut.Span, pr: Cut.Span, i: nat, j: nat)
    requires Cut.ValidSpan(hb) && Cut.ValidSpan(pr) && i < Cut.Bins && j < Cut.Bins
    requires hb.lo <= r.hemoglobin <= hb.hi && pr.lo <= r.protein <= pr.hi
    ensures Cut.InBin(r.hemoglobin, hb, i) && Cut.InBin(r.protein, pr, j) <==> CellOf(r, hb, pr) == Cell(i, j)
  {
    Cut.BinIsUnique(r.hemoglobin, hb, i);
    Cut.BinIsUnique(r.protein, pr, j);
  }

  /** The cell of every row is a key of the heatmap. */
  lemma RowCellPresent(rows: seq<Record>, r: Record)
    requires r in rows
    ensures CellOf(r, SpanOf(rows, Hemoglobin), SpanOf(rows, Protein)) in HeatCells(rows)
  {
  }

  /** A row holding a column's strict minimum lands in the first bin of that
      column, and a row holding its maximum in the last. */
  lemma ExtremesInOuterBins(rows: seq<Record>, f: Field, low: Record, high: Record)
    requires low in rows && high in rows
    requires forall r | r in rows :: Get(low, f) <= Get(r, f) <= Get(high, f)
    requires Get(low, f) < Get(high, f)
    ensures Cut.BinIndex(Get(low, f), SpanOf(rows, f)) == 0
    ensures Cut.BinIndex(Get(high, f), SpanOf(rows, f)) == Cut.Bins - 1
  {
    var s := SpanOf(rows, f);
    ColumnValueFromRow(rows, f, s.lo);
    ColumnValueFromRow(rows, f, s.hi);
    assert s.lo == Get(low, f) && s.hi == Get(high, f);
    Cut.EndsInOuterBins(s);
  }

  /** Each cell's value lies between the smallest and largest self-rated health of its rows. */
  lemma CellWithinRange(rows: seq<Record>, c: Cell)
    requires rows != [] && c in HeatCells(rows)
    ensures var members := CellRows(rows, SpanOf(rows, Hemoglobin), SpanOf(rows, Protein), c);
      var scores := Column(members, SelfRatedHealth);
      scores != [] && Min(scores) <= HeatCells(rows)[c] <= Max(scores)
  {
    var members := CellRows(rows, SpanOf(rows, Hemoglobin), SpanOf(rows, Protein), c);
    MeanWithinRange(Column(members, SelfRatedHealth));
  }

  /** The guarded heatmap: pd.cut refuses an empty column, and nothing else fails. */
  function HeatmapOf(rows: seq<Record>): (res: Result<Chart>)
    ensures res.Err? <==> rows == []
    ensures res.Err? ==> res.error == CannotCutEmpty
    ensures rows != [] ==> res == Ok(HeatmapChart(HeatCells(rows)))
  {
    if rows == [] then Err(CannotCutEmpty)
    else Ok(HeatmapChart(HeatCells(rows)))
  }

  // ---------------------------------------------------------------------------
  // Animated scatter: one frame per Age, axis ranges fixed over all frames

  /** The rows of one animation frame. */
  function Frame(rows: seq<Record>, age: int): seq<Record>
  {
    Where(rows, (r: Record) => r.age == age)
  }

  predicate Covers(x: Range, y: Range, r: Record)
  {
    x.lo <= r.ferritin <= x.hi && y.lo <= r.hemoglobin <= y.hi
  }

  /** The guarded animated scatter: ranges are the ferritin and hemoglobin
      minimum and maximum over all rows; it fails only without rows or with a
      negative heart rate as marker size. */
  function AnimatedOf(rows: seq<Record>): (res: Result<Chart>)
    ensures res.Ok? <==> rows != [] && forall r | r in rows :: r.heartRate >= 0.0
    ensures res.Err? ==> res.error == (if rows == [] then NoRows else NegativeMarkerSize)
    ensures res.Ok? ==>
      && res.value.AnimatedScatterChart?
      && res.value.points == rows
      && (forall r | r in rows :: Covers(res.value.rangeX, res.value.rangeY, r))
      && (exists r :: r in rows && r.ferritin == res.value.rangeX.lo)
      && (exists r :: r in rows && r.ferritin == res.value.rangeX.hi)
      && (exists r :: r in rows && r.hemoglobin == res.value.rangeY.lo)
      && (exists r :: r in rows && r.hemoglobin == res.value.rangeY.hi)
  {
    if rows == [] then Err(NoRows)
    else
      RangeEndsAttained(rows);
      var x := SpanOf(rows, Ferritin);
      var y := SpanOf(rows, Hemoglobin);
      if exists r :: r in rows && r.heartRate < 0.0 then Err(NegativeMarkerSize)
      else Ok(AnimatedScatterChart(rows, Range(x.lo, x.hi), Range(y.lo, y.hi)))
  }

  /** The ferritin and hemoglobin spans enclose every row and end on values some row holds. */
  lemma RangeEndsAttained(rows: seq<Record>)
    requires rows != []
    ensures var x, y := SpanOf(rows, Ferritin), SpanOf(rows, Hemoglobin);
      && (forall r | r in rows :: Covers(Range(x.lo, x.hi), Range(y.lo, y.hi), r))
      && (exists r :: r in rows && r.ferritin == x.lo)
      && (exists r :: r in rows && r.ferritin == x.hi)
      && (exists r :: r in rows && r.hemoglobin == y.lo)
      && (exists r :: r in rows && r.hemoglobin == y.hi)
  {
    var x, y := SpanOf(rows, Ferritin), SpanOf(rows, Hemoglobin);
    var a :| a in rows && Get(a, Ferritin) == x.lo;
    var b :| b in rows && Get(b, Ferritin) == x.hi;
    var c :| c in rows && Get(c, Hemoglobin) == y.lo;
    var d :| d in rows && Get(d, Hemoglobin) == y.hi;
    forall r | r in rows ensures Covers(Range(x.lo, x.hi), Range(y.lo, y.hi), r) {
      assert Get(r, Ferritin) == r.ferritin && Get(r, Hemoglobin) == r.hemoglobin;
    }
  }

  /** The ranges do not depend on the frame: every frame's rows lie inside them. */
  lemma RangesCoverEveryFrame(rows: seq<Record>, age: int)
    requires AnimatedOf(rows).Ok?
    ensures var chart := AnimatedOf(rows).value;
      forall r | r in Frame(rows, age) :: Covers(chart.rangeX, chart.rangeY, r)
  {
  }

  // ---------------------------------------------------------------------------
  // update_graphs

  const FigureCount: nat := 8
  const HeatmapSlot: nat := 5
  const AnimatedSlot: nat := 7

  /** Eight copies of the "no data" figure. */
  function NoData(): (figs: seq<Chart>)
    ensures |figs| == FigureCount
    ensures forall i | 0 <= i < FigureCount :: figs[i] == Placeholder
  {
    [Placeholder, Placeholder, Placeholder, Placeholder, Placeholder, Placeholder, Placeholder, Placeholder]
  }

  /** The except branch: a failed figure becomes the "no data" figure. */
  function Fallback(res: Result<Chart>): (c: Chart)
    ensures c == Placeholder <==> res.Err? || res.value == Placeholder
  {
    match res
    case Ok(chart) => chart
    case Err(_) => Placeholder
  }

  /** The eight figures in the callback's output order, given the derived data
      and the outcomes of the two guarded derivations. */
  function Figures(rows: seq<Record>, slices: seq<Slice>, bars: seq<Bar>, boxes: map<string, seq<real>>,
                   heatmap: Result<Chart>, series: seq<Record>, animated: Result<Chart>): (figs: seq<Chart>)
    ensures |figs| == FigureCount
    ensures forall i | 0 <= i < FigureCount && i != HeatmapSlot && i != AnimatedSlot :: figs[i] != Placeholder
    ensures figs[HeatmapSlot] == Fallback(heatmap) && figs[AnimatedSlot] == Fallback(animated)
    ensures figs[0] == ScatterChart(rows) && figs[1] == PieChart(slices) && figs[2] == BarChart(bars)
    ensures figs[3] == HistogramChart(rows) && figs[4] == BoxChart(boxes) && figs[6] == LineChart(series)
  {
    [ ScatterChart(rows),
      PieChart(slices),
      BarChart(bars),
      HistogramChart(rows),
      BoxChart(boxes),
      Fallback(heatmap),
      LineChart(series),
      Fallback(animated) ]
  }

  /** A failing guarded derivation replaces its own figure only. */
  lemma FallbackIsIsolated(rows: seq<Record>, h1: Result<Chart>, h2: Result<Chart>, a1: Result<Chart>, a2: Result<Chart>)
    ensures var slices, bars, boxes, series := PieSlices(rows), BarData(rows), BoxData(rows), SortByDate(rows);
      var figs1 := Figures(rows, slices, bars, boxes, h1, series, a1);
      var figs2 := Figures(rows, slices, bars, boxes, h2, series, a2);
      && (forall i | 0 <= i < FigureCount && i != HeatmapSlot && i != AnimatedSlot :: figs1[i] == figs2[i])
      && (figs1[HeatmapSlot] == if h1.Ok? then h1.value else Placeholder)
      && (figs1[AnimatedSlot] == if a1.Ok? then a1.value else Placeholder)
  {
  }

  /** The callback: filter by the ticked groups, answer "no data" eight times
      when nothing is left, otherwise derive the eight figures. */
  function UpdateGraphs(data: seq<Record>, selected: set<Group>): (figs: seq<Chart>)
    ensures |figs| == FigureCount
    ensures selected == {} ==> figs == NoData()
    ensures figs == NoData() <==> Filter(data, selected) == []
    ensures Filter(data, selected) != [] ==>
      forall i | 0 <= i < FigureCount && i != AnimatedSlot :: figs[i] != Placeholder
    ensures Filter(data, selected) != [] ==>
      (figs[AnimatedSlot] == Placeholder <==> exists r :: r in Filter(data, selected) && r.heartRate < 0.0)
  {
    var rows := Filter(data, selected);
    if selected == {} then
      FilterNothing(data, selected);
      NoData()
    else if rows == [] then NoData()
    else
      Figures(rows, PieSlices(rows), BarData(rows), BoxData(rows), HeatmapOf(rows), SortByDate(rows), AnimatedOf(rows))
  }

  /** Ticking a label that no row carries changes no figure. */
  lemma AbsentLabelsChangeNothing(data: seq<Record>, selected: set<Group>)
    ensures UpdateGraphs(data, selected) == UpdateGraphs(data, selected * GroupsIn(data))
  {
    FilterIgnoresAbsentLabels(data, selected);
    var present := selected * GroupsIn(data);
    if present == {} {
      FilterNothing(data, present);
    }
  }

  /** Which derivation of the filtered rows fills each slot. */
  lemma SlotsOf(data: seq<Record>, selected: set<Group>)
    requires Filter(data, selected) != []
    ensures var rows, figs := Filter(data, selected), UpdateGraphs(data, selected);
      && figs[0] == ScatterChart(rows)
      && figs[1] == PieChart(PieSlices(rows))
      && figs[2] == BarChart(BarData(rows))
      && figs[3] == HistogramChart(rows)
      && figs[4] == BoxChart(BoxData(rows))
      && figs[HeatmapSlot] == HeatmapChart(HeatCells(rows))
      && figs[6] == LineChart(SortByDate(rows))
      && figs[AnimatedSlot] == Fallback(AnimatedOf(rows))
  {
  }

  /** The line chart's series is the filtered table reordered by ascending exam date. */
  lemma LineIsSortedPermutation(data: seq<Record>, selected: set<Group>)
    requires Filter(data, selected) != []
    ensures var series := UpdateGraphs(data, selected)[6];
      && series.LineChart?
      && SortedByDate(series.series)
      && multiset(series.series) == multiset(Filter(data, selected))
  {
  }

  /** The pie covers every filtered row once. */
  lemma PieCountsFilteredRows(data: seq<Record>, selected: set<Group>)
    requires Filter(data, selected) != []
    ensures var pie := UpdateGraphs(data, selected)[1];
      pie.PieChart? && Total(pie.slices) == |Filter(data, selected)|
  {
  }

  // ---------------------------------------------------------------------------
  // Worked scenarios

  /** When every row carries the same label, that label is the only option. */
  lemma {:induction false} SingleGroupOptions(rows: seq<Record>, g: Group)
    requires rows != [] && forall r | r in rows :: r.group == g
    ensures GroupOptions(rows) == [g]
  {
    assert rows[0] in rows;
    if |rows| > 1 {
      assert forall r | r in rows[1..] :: r in rows;
      SingleGroupOptions(rows[1..], g);
    } else {
      assert rows[1..] == [];
    }
  }

  /** A single group gets a single slice holding every row. */
  lemma SingleGroupPie(rows: seq<Record>, g: Group)
    requires rows != [] && forall r | r in rows :: r.group == g
    ensures PieSlices(rows) == [Slice(g, |rows|)]
  {
    SingleGroupOptions(rows, g);
    FilterAll(rows, {g});
    assert [g][1..] == [];
  }

  /** A single group gets a single bar: the mean hemoglobin of all rows. */
  lemma SingleGroupBar(rows: seq<Record>, g: Group)
    requires rows != [] && forall r | r in rows :: r.group == g
    ensures BarData(rows) == [Bar(g, Mean(Column(rows, Hemoglobin)))]
  {
    SingleGroupOptions(rows, g);
    FilterAll(rows, {g});
    assert [g][1..] == [];
  }

  /** One group whose hemoglobin values are 10, 20 and 30 gets a bar of 20. */
  lemma BarOfOneGroup(a: Record, b: Record, c: Record)
    requires a.group == b.group == c.group
    requires a.hemoglobin == 10.0 && b.hemoglobin == 20.0 && c.hemoglobin == 30.0
    ensures BarData([a, b, c]) == [Bar(a.group, 20.0)]
  {
    var rows := [a, b, c];
    SingleGroupBar(rows, a.group);
    var hb := Column(rows, Hemoglobin);
    assert hb == [10.0, 20.0, 30.0];
    MeanOfThree(10.0, 20.0, 30.0);
  }

  lemma MeanOfThree(x: real, y: real, z: real)
    ensures Mean([x, y, z]) == (x + y + z) / 3.0
  {
    assert [x, y, z][1..] == [y, z] && [y, z][1..] == [z] && [z][1..] == [];
    assert Sum([z]) == z;
    assert Sum([y, z]) == y + z;
  }

  /** The rows [A, A] selected out of [A, A, B]. */
  lemma SelectFirstTwo(a1: Record, a2: Record, b: Record)
    requires a1.group == a2.group != b.group
    ensures Filter([a1, a2, b], {a1.group}) == [a1, a2]
  {
    var g := a1.group;
    FilterAppend([a1, a2], [b], {g});
    assert [a1, a2, b] == [a1, a2] + [b];
    assert Filter([b], {g}) == [] by { assert [b][1..] == []; }
    FilterAll([a1, a2], {g});
  }

  /** Three rows labelled A, A, B with only A ticked: two rows survive, the pie has
      one slice of two, and the bar is the mean over the two A rows. */
  lemma TwoOfThreeSelected(a1: Record, a2: Record, b: Record)
    requires a1.group == a2.group != b.group
    ensures var figs := UpdateGraphs([a1, a2, b], {a1.group});
      && Filter([a1, a2, b], {a1.group}) == [a1, a2]
      && figs[1] == PieChart([Slice(a1.group, 2)])
      && figs[2] == BarChart([Bar(a1.group, (a1.hemoglobin + a2.hemoglobin) / 2.0)])
  {
    var g, rows := a1.group, [a1, a2];
    SelectFirstTwo(a1, a2, b);
    SingleGroupPie(rows, g);
    SingleGroupBar(rows, g);
    var hb := Column(rows, Hemoglobin);
    var mean := (a1.hemoglobin + a2.hemoglobin) / 2.0;
    assert hb == [a1.hemoglobin, a2.hemoglobin];
    MeanOfTwo(a1.hemoglobin, a2.hemoglobin);
    assert Mean(hb) == mean;
    assert BarData(rows) == [Bar(g, mean)];
    SlotsOf([a1, a2, b], {g});
  }

  lemma MeanOfTwo(x: real, y: real)
    ensures Mean([x, y]) == (x + y) / 2.0
  {
    assert [x, y][1..] == [y] && [y][1..] == [];
    assert Sum([y]) == y;
  }
}
