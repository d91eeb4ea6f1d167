/**
  The month grid as a fold over rows. The running state is the number of
  months already emitted and the colour of the last row label. Each row
  yields its month cells and, when the stage of its first month has a colour
  other than the tracked one, a label with that stage's name and duration.

  The fold is written over any month-to-stage lookup; the page uses the
  classifier over its stage table (`Grid`, `StageLookup`).
 */
module LifeGrid {
  import opened Wrappers
  import opened LifeStages
  import opened Classifier
  import opened GridSettings

  /** One month cell: its month number and the stage it is coloured by, if any. */
  datatype Cell = Cell(month: int, stage: Option<LifeStage>)

  /** A row label: the stage name, its colour and its duration `to - from`. */
  datatype Label = Label(name: string, color: Color, duration: int)

  datatype Row = Row(info: Option<Label>, cells: seq<Cell>)

  /** The fold's state: months emitted so far and the colour of the last label. */
  datatype GridState = GridState(counter: int, color: Option<Color>)

  const InitialState := GridState(0, None)

  /** The page's lookup: the classifier over a stage table. */
  function StageLookup(t: seq<LifeStage>): int -> Option<LifeStage> {
    m => Classify(t, m)
  }

  /** The month number of the first cell of row `i` in a grid of `cols` columns. */
  function RowStart(cols: nat, i: nat): int
    decreases i
  {
    if i == 0 then 1 else RowStart(cols, i - 1) + cols
  }

  /** Row `i` starts at month `i * cols + 1`. */
  lemma {:induction false} RowStartClosedForm(cols: nat, i: nat)
    ensures RowStart(cols, i) == i * cols + 1
    decreases i
  {
    if i > 0 {
      RowStartClosedForm(cols, i - 1);
      assert i * cols == (i - 1) * cols + cols;
    }
  }

  /** Consecutive rows start `cols` months apart. */
  lemma RowStartStep(cols: nat, i: nat)
    ensures RowStart(cols, i + 1) == RowStart(cols, i) + cols
  {
  }

  /** Later rows never start earlier. */
  lemma {:induction false} RowStartMonotone(cols: nat, i: nat, j: nat)
    requires i <= j
    ensures RowStart(cols, i) <= RowStart(cols, j)
    decreases j - i
  {
    if i < j {
      RowStartMonotone(cols, i, j - 1);
    }
  }

  /** The `n` cells that follow month `counter`, each coloured by its stage. */
  function RowCells(stageOf: int -> Option<LifeStage>, counter: int, n: nat): (r: seq<Cell>)
    ensures |r| == n
    ensures forall j :: 0 <= j < n ==> r[j].month == counter + j + 1 && r[j].stage == stageOf(r[j].month)
    decreases n
  {
    if n == 0 then []
    else [Cell(counter + 1, stageOf(counter + 1))] + RowCells(stageOf, counter + 1, n - 1)
  }

  /** The label shown for stage `s`: its name, its colour and its duration `to - from`. */
  function LabelOf(s: LifeStage): Label {
    Label(s.name, s.color, s.to - s.from)
  }

  /**
    `info` and `color` are a correct label decision for the row after
    state `st`: the stage of the row's first month becomes the tracked
    colour whenever it exists, and the row is labelled with that stage
    exactly when the tracked colour changes.
   */
  ghost predicate IsRowDecision(stageOf: int -> Option<LifeStage>, st: GridState, info: Option<Label>, color: Option<Color>) {
    var next := stageOf(st.counter + 1);
    && (next.None? ==> color == st.color)
    && (next.Some? ==> color == Some(next.value.color))
    && (info.Some? <==> color != st.color)
    && (info.Some? ==> next.Some? && info.value == LabelOf(next.value))
  }

  /** There is only one correct label decision for a row. */
  lemma RowDecisionUnique(stageOf: int -> Option<LifeStage>, st: GridState,
                          info: Option<Label>, color: Option<Color>, info': Option<Label>, color': Option<Color>)
    requires IsRowDecision(stageOf, st, info, color) && IsRowDecision(stageOf, st, info', color')
    ensures info == info' && color == color'
  {
  }

  /** The label decision taken before a row's cells are emitted, and the tracked colour after it. */
  function RowLabel(stageOf: int -> Option<LifeStage>, st: GridState): (r: (Option<Label>, Option<Color>))
    ensures IsRowDecision(stageOf, st, r.0, r.1)
  {
    match stageOf(st.counter + 1)
    case Some(s) =>
      if Some(s.color) != st.color then (Some(LabelOf(s)), Some(s.color))
      else (None, st.color)
    case None => (None, st.color)
  }

  /** One row of `cols` cells and the state after it. */
  function RenderRow(stageOf: int -> Option<LifeStage>, st: GridState, cols: nat): (GridState, Row)
  {
    var (info, color) := RowLabel(stageOf, st);
    (GridState(st.counter + cols, color), Row(info, RowCells(stageOf, st.counter, cols)))
  }

  /** The `rows` rows that follow state `st`: one row per requested row. */
  function GridFrom(stageOf: int -> Option<LifeStage>, st: GridState, rows: nat, cols: nat): (r: seq<Row>)
    ensures |r| == rows
    decreases rows
  {
    if rows == 0 then []
    else
      var (st', row) := RenderRow(stageOf, st, cols);
      [row] + GridFrom(stageOf, st', rows - 1, cols)
  }

  /** The page's grid: the fold over the classifier, starting before month 1 with no tracked colour. */
  function Grid(t: seq<LifeStage>, rows: nat, cols: nat): seq<Row> {
    GridFrom(StageLookup(t), InitialState, rows, cols)
  }

  /**
    The colour tracked before row `i` of a fold that started with colour
    `c0` after month `counter`: the colour of the stage of the first month of
    the latest earlier row whose first month has a stage, or `c0` if none.
   */
  function TrackedBefore(stageOf: int -> Option<LifeStage>, counter: int, c0: Option<Color>, cols: nat, i: nat): Option<Color>
    decreases i
  {
    if i == 0 then c0
    else
      match stageOf(counter + RowStart(cols, i - 1))
      case Some(s) => Some(s.color)
      case None => TrackedBefore(stageOf, counter, c0, cols, i - 1)
  }

  /** `info` is the label a row gets when its first month is `first` and the tracked colour is `c`. */
  ghost predicate LabelFor(stageOf: int -> Option<LifeStage>, first: int, c: Option<Color>, info: Option<Label>) {
    info == RowLabel(stageOf, GridState(first - 1, c)).0
  }

  /** A non-empty fold is its first row followed by the fold from the state after that row. */
  lemma GridFromUnfold(stageOf: int -> Option<LifeStage>, st: GridState, rows: nat, cols: nat)
    requires rows > 0
    ensures GridFrom(stageOf, st, rows, cols)
      == [RenderRow(stageOf, st, cols).1] + GridFrom(stageOf, RenderRow(stageOf, st, cols).0, rows - 1, cols)
  {
  }

  /** A non-empty fold, given its first row's label decision and cells. */
  lemma {:induction false} GridFromStep(stageOf: int -> Option<LifeStage>, st: GridState, rows: nat, cols: nat,
                     info: Option<Label>, color: Option<Color>, cells: seq<Cell>)
    requires rows > 0
    requires IsRowDecision(stageOf, st, info, color)
    requires cells == RowCells(stageOf, st.counter, cols)
    ensures GridFrom(stageOf, st, rows, cols)
      == [Row(info, cells)] + GridFrom(stageOf, GridState(st.counter + cols, color), rows - 1, cols)
  {
    RowDecisionUnique(stageOf, st, info, color, RowLabel(stageOf, st).0, RowLabel(stageOf, st).1);
  }

  /**
    The cells of row `i` of a fold from state `st`: `cols` of them, the one
    in column `j` holding month `st.counter + i * cols + j + 1` and the
    stage the lookup gives for it.
   */
  lemma {:induction false} GridFromCellsAt(stageOf: int -> Option<LifeStage>, st: GridState, rows: nat, cols: nat, i: nat)
    requires i < rows
    ensures |GridFrom(stageOf, st, rows, cols)| == rows
    ensures |GridFrom(stageOf, st, rows, cols)[i].cells| == cols
    ensures forall j :: 0 <= j < cols ==>
      && GridFrom(stageOf, st, rows, cols)[i].cells[j].month == st.counter + RowStart(cols, i) + j
      && GridFrom(stageOf, st, rows, cols)[i].cells[j].stage == stageOf(GridFrom(stageOf, st, rows, cols)[i].cells[j].month)
    decreases i
  {
    var step := RenderRow(stageOf, st, cols);
    var rest := GridFrom(stageOf, step.0, rows - 1, cols);
    assert GridFrom(stageOf, st, rows, cols) == [step.1] + rest;
    if i > 0 {
      GridFromCellsAt(stageOf, step.0, rows - 1, cols, i - 1);
      RowStartStep(cols, i - 1);
      assert GridFrom(stageOf, st, rows, cols)[i] == rest[i - 1];
    }
  }

  /** One row step: the counter advances by `cols`, the colour is tracked, the label follows `LabelFor`. */
  lemma RenderRowStep(stageOf: int -> Option<LifeStage>, st: GridState, cols: nat)
    ensures RenderRow(stageOf, st, cols).0 == GridState(st.counter + cols, TrackedBefore(stageOf, st.counter, st.color, cols, 1))
    ensures LabelFor(stageOf, st.counter + RowStart(cols, 0), st.color, RenderRow(stageOf, st, cols).1.info)
  {
  }

  /** Tracking from the state after the first row agrees with tracking from the start, one row later. */
  lemma {:induction false} TrackedBeforeShift(stageOf: int -> Option<LifeStage>, st: GridState, st': GridState, cols: nat, i: nat)
    requires i >= 1
    requires st'.counter == st.counter + cols
    requires st'.color == TrackedBefore(stageOf, st.counter, st.color, cols, 1)
    ensures TrackedBefore(stageOf, st'.counter, st'.color, cols, i - 1) == TrackedBefore(stageOf, st.counter, st.color, cols, i)
    decreases i
  {
    if i > 1 {
      TrackedBeforeShift(stageOf, st, st', cols, i - 1);
      RowStartStep(cols, i - 2);
    }
  }

  /**
    The label of row `i` of a fold from state `st`: present exactly when the
    stage of the row's first month exists and its colour differs from the
    colour tracked before the row, and then carrying that stage's name,
    colour and duration `to - from`.
   */
  lemma {:induction false} GridFromLabelAt(stageOf: int -> Option<LifeStage>, st: GridState, rows: nat, cols: nat, i: nat)
    requires i < rows
    ensures |GridFrom(stageOf, st, rows, cols)| == rows
    ensures LabelFor(stageOf, st.counter + RowStart(cols, i), TrackedBefore(stageOf, st.counter, st.color, cols, i),
                     GridFrom(stageOf, st, rows, cols)[i].info)
    decreases i
  {
    var step := RenderRow(stageOf, st, cols);
    var rest := GridFrom(stageOf, step.0, rows - 1, cols);
    assert GridFrom(stageOf, st, rows, cols) == [step.1] + rest;
    RenderRowStep(stageOf, st, cols);
    if i > 0 {
      GridFromLabelAt(stageOf, step.0, rows - 1, cols, i - 1);
      RowStartStep(cols, i - 1);
      TrackedBeforeShift(stageOf, st, step.0, cols, i);
      assert GridFrom(stageOf, st, rows, cols)[i] == rest[i - 1];
    }
  }

  /**
    The page's grid has `rows` rows of `cols` cells; the cell at row `i`,
    column `j` holds month `i * cols + j + 1` and the stage the classifier
    gives for that month.
   */
  lemma {:induction false} GridCells(t: seq<LifeStage>, rows: nat, cols: nat)
    ensures |Grid(t, rows, cols)| == rows
    ensures forall i :: 0 <= i < rows ==> |Grid(t, rows, cols)[i].cells| == cols
    ensures forall i, j :: 0 <= i < rows && 0 <= j < cols ==>
      && Grid(t, rows, cols)[i].cells[j].month == i * cols + j + 1
      && Grid(t, rows, cols)[i].cells[j].stage == Classify(t, i * cols + j + 1)
  {
    GridFromCells(StageLookup(t), rows, cols);
  }

  /** The cell rule of `GridFromCellsAt` for every row of a fold from the start, in closed form. */
  lemma {:induction false} GridFromCells(stageOf: int -> Option<LifeStage>, rows: nat, cols: nat)
    ensures forall i :: 0 <= i < rows ==> |GridFrom(stageOf, InitialState, rows, cols)[i].cells| == cols
    ensures forall i, j :: 0 <= i < rows && 0 <= j < cols ==>
      && GridFrom(stageOf, InitialState, rows, cols)[i].cells[j].month == i * cols + j + 1
      && GridFrom(stageOf, InitialState, rows, cols)[i].cells[j].stage == stageOf(i * cols + j + 1)
  {
    var g := GridFrom(stageOf, InitialState, rows, cols);
    forall i | 0 <= i < rows
      ensures |g[i].cells| == cols
      ensures forall j :: 0 <= j < cols ==> g[i].cells[j].month == i * cols + j + 1 && g[i].cells[j].stage == stageOf(i * cols + j + 1)
    {
      GridFromCellsAt(stageOf, InitialState, rows, cols, i);
      RowStartClosedForm(cols, i);
    }
  }

  /**
    The page's row labels: row `i` is labelled exactly when the classifier
    finds a stage for its first month whose colour differs from the colour
    of the latest earlier row whose first month had a stage (none before
    the first row); the label carries that stage's name, colour and
    duration `to - from`.
   */
  lemma {:induction false} GridLabels(t: seq<LifeStage>, rows: nat, cols: nat)
    ensures |Grid(t, rows, cols)| == rows
    ensures forall i {:trigger Grid(t, rows, cols)[i]} :: 0 <= i < rows ==>
      LabelFor(StageLookup(t), RowStart(cols, i), TrackedBefore(StageLookup(t), 0, None, cols, i), Grid(t, rows, cols)[i].info)
  {
    GridFromLabels(StageLookup(t), InitialState, rows, cols);
  }

  /** The label rule of `GridFromLabelAt`, for every row of a fold at once. */
  lemma {:induction false} GridFromLabels(stageOf: int -> Option<LifeStage>, st: GridState, rows: nat, cols: nat)
    ensures forall i {:trigger GridFrom(stageOf, st, rows, cols)[i]} :: 0 <= i < rows ==>
      LabelFor(stageOf, st.counter + RowStart(cols, i), TrackedBefore(stageOf, st.counter, st.color, cols, i),
               GridFrom(stageOf, st, rows, cols)[i].info)
  {
    forall i | 0 <= i < rows
      ensures LabelFor(stageOf, st.counter + RowStart(cols, i), TrackedBefore(stageOf, st.counter, st.color, cols, i),
                       GridFrom(stageOf, st, rows, cols)[i].info)
    {
      GridFromLabelAt(stageOf, st, rows, cols, i);
    }
  }

  /** The month numbers of a row's cells, in order. */
  function CellMonths(cells: seq<Cell>): (r: seq<int>)
    ensures |r| == |cells|
    ensures forall j :: 0 <= j < |cells| ==> r[j] == cells[j].month
  {
    if |cells| == 0 then [] else [cells[0].month] + CellMonths(cells[1..])
  }

  /** The month numbers of all cells of a grid, row after row. */
  function Months(g: seq<Row>): seq<int>
  {
    if |g| == 0 then [] else CellMonths(g[0].cells) + Months(g[1..])
  }

  /** The `n` consecutive integers from `lo`. */
  function Iota(lo: int, n: nat): (r: seq<int>)
    ensures |r| == n
    ensures forall k :: 0 <= k < n ==> r[k] == lo + k
    decreases n
  {
    if n == 0 then [] else [lo] + Iota(lo + 1, n - 1)
  }

  /** The cells of a fold from state `st` number the months `st.counter + 1 .. st.counter + rows * cols` in order. */
  lemma {:induction false} GridFromMonths(stageOf: int -> Option<LifeStage>, st: GridState, rows: nat, cols: nat)
    ensures |Months(GridFrom(stageOf, st, rows, cols))| == rows * cols
    ensures Months(GridFrom(stageOf, st, rows, cols)) == Iota(st.counter + 1, |Months(GridFrom(stageOf, st, rows, cols))|)
    decreases rows
  {
    if rows > 0 {
      var step := RenderRow(stageOf, st, cols);
      var rest := GridFrom(stageOf, step.0, rows - 1, cols);
      RenderRowCells(stageOf, st, cols);
      GridFromUnfold(stageOf, st, rows, cols);
      GridFromMonths(stageOf, step.0, rows - 1, cols);
      RowCellsMonths(stageOf, st.counter, cols);
      MonthsStep(GridFrom(stageOf, st, rows, cols), step.1, rest, st.counter, rows, cols);
    }
  }

  /** A row numbering `c + 1 .. c + cols`, followed by rows numbering `c + cols + 1 .. c + rows * cols`, numbers `c + 1 .. c + rows * cols`. */
  lemma {:induction false} MonthsStep(g: seq<Row>, row: Row, rest: seq<Row>, c: int, rows: nat, cols: nat)
    requires rows > 0 && g == [row] + rest
    requires CellMonths(row.cells) == Iota(c + 1, cols)
    requires Months(rest) == Iota(c + cols + 1, (rows - 1) * cols)
    ensures Months(g) == Iota(c + 1, rows * cols)
  {
    MonthsCons(row, rest);
    assert rows * cols == cols + (rows - 1) * cols;
    IotaAppend(c + 1, cols, (rows - 1) * cols);
  }

  /** A row step emits the cells after the counter and advances the counter past them. */
  lemma RenderRowCells(stageOf: int -> Option<LifeStage>, st: GridState, cols: nat)
    ensures RenderRow(stageOf, st, cols).1.cells == RowCells(stageOf, st.counter, cols)
    ensures RenderRow(stageOf, st, cols).0.counter == st.counter + cols
  {
  }

  /** The months of a grid with one more row in front. */
  lemma {:induction false} MonthsCons(row: Row, rest: seq<Row>)
    ensures Months([row] + rest) == CellMonths(row.cells) + Months(rest)
  {
    assert ([row] + rest)[1..] == rest;
  }

  /** A row of `n` cells after month `c` numbers the months `c + 1 .. c + n`. */
  lemma RowCellsMonths(stageOf: int -> Option<LifeStage>, c: int, n: nat)
    ensures CellMonths(RowCells(stageOf, c, n)) == Iota(c + 1, n)
  {
  }

  /** Two adjacent runs of consecutive integers form one run. */
  lemma IotaAppend(lo: int, n: nat, m: nat)
    ensures Iota(lo, n) + Iota(lo + n, m) == Iota(lo, n + m)
  {
  }

  /**
    The page's grid numbers its cells `1 .. rows * cols`: each month once,
    in increasing order, with no gap.
   */
  lemma {:induction false} GridMonthsConsecutive(t: seq<LifeStage>, rows: nat, cols: nat)
    ensures |Months(Grid(t, rows, cols))| == rows * cols
    ensures Months(Grid(t, rows, cols)) == Iota(1, |Months(Grid(t, rows, cols))|)
    ensures var ms := Months(Grid(t, rows, cols));
      forall p, q :: 0 <= p < q < |ms| ==> ms[p] < ms[q]
    ensures var ms := Months(Grid(t, rows, cols));
      forall m :: 1 <= m <= rows * cols ==> m in ms
  {
    GridFromMonthsRun(StageLookup(t), rows, cols);
  }

  /** The numbering of `GridMonthsConsecutive` for a fold from the start over any lookup. */
  lemma {:induction false} GridFromMonthsRun(stageOf: int -> Option<LifeStage>, rows: nat, cols: nat)
    ensures |Months(GridFrom(stageOf, InitialState, rows, cols))| == rows * cols
    ensures Months(GridFrom(stageOf, InitialState, rows, cols)) == Iota(1, |Months(GridFrom(stageOf, InitialState, rows, cols))|)
    ensures var ms := Months(GridFrom(stageOf, InitialState, rows, cols));
      forall p, q :: 0 <= p < q < |ms| ==> ms[p] < ms[q]
    ensures var ms := Months(GridFrom(stageOf, InitialState, rows, cols));
      forall m :: 1 <= m <= rows * cols ==> m in ms
  {
    GridFromMonths(stageOf, InitialState, rows, cols);
    IotaRun(1, rows * cols);
  }

  /** A run of consecutive integers is strictly increasing and holds every integer in its range. */
  lemma {:induction false} IotaRun(lo: int, n: nat)
    ensures forall p, q :: 0 <= p < q < n ==> Iota(lo, n)[p] < Iota(lo, n)[q]
    ensures forall m :: lo <= m < lo + n ==> m in Iota(lo, n)
  {
    forall m | lo <= m < lo + n
      ensures m in Iota(lo, n)
    {
      assert Iota(lo, n)[m - lo] == m;
    }
  }

  /**
    A stage whose whole range lies strictly between the first months of two
    consecutive rows is never the subject of a row label, provided the
    stage colours are distinct.
   */
  lemma {:induction false} StageInsideRowNeverLabelled(t: seq<LifeStage>, rows: nat, cols: nat, k: nat, r: nat)
    requires k < |t|
    requires forall a, b :: 0 <= a < b < |t| ==> t[a].color != t[b].color
    requires RowStart(cols, r) < t[k].from && t[k].to < RowStart(cols, r + 1)
    ensures |Grid(t, rows, cols)| == rows
    ensures forall i :: 0 <= i < rows && Grid(t, rows, cols)[i].info.Some? ==>
      Grid(t, rows, cols)[i].info.value.color != t[k].color
  {
    var lookup := StageLookup(t);
    forall i | 0 <= i < rows && lookup(RowStart(cols, i)).Some?
      ensures lookup(RowStart(cols, i)).value.color != t[k].color
    {
      var first := RowStart(cols, i);
      if i <= r {
        RowStartMonotone(cols, i, r);
      } else {
        RowStartMonotone(cols, r + 1, i);
      }
      assert !Contains(t[k], first);
      var f: nat :| IsFirstMatchFrom(t, first, 0, f) && Classify(t, first).value == t[f];
    }
    LabelColorsFromFirstMonths(lookup, rows, cols, t[k].color);
  }

  /** A colour that no row's first month has is never the colour of a row label. */
  lemma {:induction false} LabelColorsFromFirstMonths(stageOf: int -> Option<LifeStage>, rows: nat, cols: nat, c: Color)
    requires forall i :: 0 <= i < rows && stageOf(RowStart(cols, i)).Some? ==> stageOf(RowStart(cols, i)).value.color != c
    ensures forall i :: 0 <= i < rows && GridFrom(stageOf, InitialState, rows, cols)[i].info.Some? ==>
      GridFrom(stageOf, InitialState, rows, cols)[i].info.value.color != c
  {
    forall i | 0 <= i < rows && GridFrom(stageOf, InitialState, rows, cols)[i].info.Some?
      ensures GridFrom(stageOf, InitialState, rows, cols)[i].info.value.color != c
    {
      GridFromLabelAt(stageOf, InitialState, rows, cols, i);
    }
  }

  /** The first row is labelled with childhood, whose duration is its last month minus one, whenever childhood is non-empty. */
  lemma {:induction false} FirstRowIsChildhood(ms: Milestones, rows: nat, cols: nat)
    requires rows >= 1 && ms.childhoodMonths >= 1
    ensures |Grid(BuildLifeStages(ms), rows, cols)| == rows
    ensures Grid(BuildLifeStages(ms), rows, cols)[0].info == Some(Label("Childhood", Teal, ms.childhoodMonths - 1))
  {
    MonthOneIsChildhood(ms);
    FirstRowOfTable(BuildLifeStages(ms), rows, cols, BuildLifeStages(ms)[ChildhoodIx]);
  }

  /** The page's first row is labelled with the stage month 1 falls in. */
  lemma {:induction false} FirstRowOfTable(t: seq<LifeStage>, rows: nat, cols: nat, s: LifeStage)
    requires rows >= 1 && Classify(t, 1) == Some(s)
    ensures Grid(t, rows, cols)[0].info == Some(LabelOf(s))
  {
    FirstRowLabel(StageLookup(t), rows, cols);
  }

  /** With no colour tracked yet, the first row is labelled exactly when month 1 has a stage, and then with that stage. */
  lemma {:induction false} FirstRowLabel(stageOf: int -> Option<LifeStage>, rows: nat, cols: nat)
    requires rows >= 1
    ensures |GridFrom(stageOf, InitialState, rows, cols)| == rows
    ensures GridFrom(stageOf, InitialState, rows, cols)[0].info ==
      if stageOf(1).Some? then Some(LabelOf(stageOf(1).value)) else None
  {
    GridFromUnfold(stageOf, InitialState, rows, cols);
  }

  /**
    The page: the grid of the stage table built from the milestones, with
    the settings' rows and columns, or nothing when the row count cannot be
    formed.
   */
  function LifePage(ms: Milestones, s: Settings): (r: Option<seq<Row>>)
    ensures r.None? <==> s.yearColumns == 0
    ensures r.Some? ==> Rows(s).Some? && |r.value| == Rows(s).value
  {
    match Rows(s)
    case None => None
    case Some(rows) =>
      Some(Grid(BuildLifeStages(ms), rows, Columns(s)))
  }

  /**
    The page's cells: every row is `Columns(s)` wide, and cell `j` of row
    `i` holds month `i * Columns(s) + j + 1` with the stage the milestones'
    table gives that month.
   */
  lemma {:induction false} LifePageCells(ms: Milestones, s: Settings)
    ensures LifePage(ms, s).Some? ==>
      forall i :: 0 <= i < |LifePage(ms, s).value| ==> |LifePage(ms, s).value[i].cells| == Columns(s)
    ensures LifePage(ms, s).Some? ==>
      forall i, j :: 0 <= i < |LifePage(ms, s).value| && 0 <= j < Columns(s) ==>
        && LifePage(ms, s).value[i].cells[j].month == i * Columns(s) + j + 1
        && LifePage(ms, s).value[i].cells[j].stage == Classify(BuildLifeStages(ms), i * Columns(s) + j + 1)
  {
    if Rows(s).Some? {
      GridCells(BuildLifeStages(ms), Rows(s).value, Columns(s));
    }
  }

  /**
    The page's labels: row `i` follows the label rule for its first month,
    against the colour tracked over the earlier rows of the milestones'
    table, starting with no colour.
   */
  lemma {:induction false} LifePageLabels(ms: Milestones, s: Settings)
    ensures LifePage(ms, s).Some? ==>
      forall i {:trigger LifePage(ms, s).value[i]} :: 0 <= i < |LifePage(ms, s).value| ==>
        LabelFor(StageLookup(BuildLifeStages(ms)), RowStart(Columns(s), i),
                 TrackedBefore(StageLookup(BuildLifeStages(ms)), 0, None, Columns(s), i),
                 LifePage(ms, s).value[i].info)
  {
    if Rows(s).Some? {
      GridLabels(BuildLifeStages(ms), Rows(s).value, Columns(s));
    }
  }

  /**
    The grid built the way the page builds it: one pass over the rows with
    a mutable month counter and tracked colour, looking stages up with
    `stageOf` (the page passes `StageLookup` of its table). It yields
    exactly the fold.
   */
  method RenderGrid(stageOf: int -> Option<LifeStage>, rows: nat, cols: nat) returns (g: seq<Row>)
    ensures g == GridFrom(stageOf, InitialState, rows, cols)
  {
    var currentMonth := 0;
    var currentColor: Option<Color> := None;
    ghost var whole := GridFrom(stageOf, InitialState, rows, cols);
    g := [];
    var left := rows;
    while left > 0
      invariant whole == g + GridFrom(stageOf, GridState(currentMonth, currentColor), left, cols)
    {
      g, currentMonth, currentColor := AppendRow(stageOf, g, currentMonth, currentColor, left, cols, whole);
      left := left - 1;
    }
    assert g + [] == g;
  }

  /**
    Emitting the next row, with a correct label decision and its cells,
    moves it from the pending part of the fold to the emitted part and
    keeps the whole grid.
   */
  lemma {:induction false} EmitRow(stageOf: int -> Option<LifeStage>, g: seq<Row>, counter: int, tracked: Option<Color>,
                                   rows: nat, cols: nat, row: Row, color: Option<Color>, whole: seq<Row>)
    requires rows > 0
    requires whole == g + GridFrom(stageOf, GridState(counter, tracked), rows, cols)
    requires IsRowDecision(stageOf, GridState(counter, tracked), row.info, color)
    requires row.cells == RowCells(stageOf, counter, cols)
    ensures whole == (g + [row]) + GridFrom(stageOf, GridState(counter + cols, color), rows - 1, cols)
  {
    GridFromStep(stageOf, GridState(counter, tracked), rows, cols, row.info, color, row.cells);
    var rest := GridFrom(stageOf, GridState(counter + cols, color), rows - 1, cols);
    assert g + ([row] + rest) == (g + [row]) + rest;
  }

  /** Appends the next row the way the page renders it, keeping the emitted rows a prefix of the whole grid. */
  method AppendRow(stageOf: int -> Option<LifeStage>, g: seq<Row>, counter: int, tracked: Option<Color>,
                   left: nat, cols: nat, ghost whole: seq<Row>)
    returns (g': seq<Row>, counter': int, tracked': Option<Color>)
    requires left > 0
    requires whole == g + GridFrom(stageOf, GridState(counter, tracked), left, cols)
    ensures whole == g' + GridFrom(stageOf, GridState(counter', tracked'), left - 1, cols)
  {
    var row;
    row, tracked' := NextRow(stageOf, counter, tracked, cols);
    EmitRow(stageOf, g, counter, tracked, left, cols, row, tracked', whole);
    g', counter' := g + [row], counter + cols;
  }

  /** The next row of the page: its label decision, then its cells. */
  method NextRow(stageOf: int -> Option<LifeStage>, counter: int, tracked: Option<Color>, cols: nat)
    returns (row: Row, color: Option<Color>)
    ensures IsRowDecision(stageOf, GridState(counter, tracked), row.info, color)
    ensures row.cells == RowCells(stageOf, counter, cols)
  {
    var info;
    info, color := LabelRow(stageOf, counter, tracked);
    var cells := RenderCells(stageOf, counter, cols);
    row := Row(info, cells);
  }

  /**
    The label decision for the row after month `counter`, made the way the
    page makes it: look up the stage of the next month and, when it exists
    and its colour differs from the tracked one, label the row with it and
    track its colour.
   */
  method LabelRow(stageOf: int -> Option<LifeStage>, counter: int, tracked: Option<Color>)
    returns (info: Option<Label>, color: Option<Color>)
    ensures IsRowDecision(stageOf, GridState(counter, tracked), info, color)
  {
    info, color := None, tracked;
    var next := stageOf(counter + 1);
    if next.Some? && Some(next.value.color) != tracked {
      color := Some(next.value.color);
      info := Some(LabelOf(next.value));
    }
  }

  /** The cells of one row, built the way the page builds them: the counter is bumped before each cell. */
  method RenderCells(stageOf: int -> Option<LifeStage>, start: int, cols: nat) returns (cells: seq<Cell>)
    ensures cells == RowCells(stageOf, start, cols)
  {
    var currentMonth := start;
    cells := [];
    var j := 0;
    while j < cols
      invariant 0 <= j <= cols
      invariant currentMonth == start + j
      invariant cells + RowCells(stageOf, currentMonth, cols - j) == RowCells(stageOf, start, cols)
    {
      currentMonth := currentMonth + 1;
      cells := cells + [Cell(currentMonth, stageOf(currentMonth))];
      j := j + 1;
    }
  }
}
