/** Pure helpers: which grids a user may see, the bounds the cell dialog
    offers, and the arithmetic that turns pixel positions into cell indices. */
module Helpers {
  import opened Basics
  import opened OrderedMaps
  import opened GridTypes

  // ---------------------------------------------------------------------
  // Grid visibility

  /** The ids of the grids a player may not see. */
  function HiddenIds(m: OMap<Grid>): set<string> {
    set k | k in m.vals && !m.vals[k].isShared
  }

  /** `getUserViewableGrids`: a GM sees the grids object itself; anyone else a
      fresh object holding the shared grids, built in key order. */
  function UserViewableGrids(c: Config, isGM: bool): (r: OMap<Grid>)
    ensures isGM ==> r == c.grids
    ensures !isGM ==> forall k :: k in r.vals <==> k in c.grids.vals && c.grids.vals[k].isShared
    ensures forall k :: k in r.vals ==> k in c.grids.vals && r.vals[k] == c.grids.vals[k]
    ensures |r.keys| <= |c.grids.keys|
  {
    if isGM then c.grids else RemoveAll(c.grids, HiddenIds(c.grids))
  }

  /** The set of grid ids a user sees. */
  function VisibleIds(c: Config, isGM: bool): set<string> {
    UserViewableGrids(c, isGM).vals.Keys
  }

  /** Making a grid shared or private changes what players see only by that grid. */
  lemma VisibleIdsOfPlayer(c: Config, k: string)
    requires k in c.grids.vals
    ensures k in VisibleIds(c, false) <==> c.grids.vals[k].isShared
    ensures VisibleIds(c, false) <= VisibleIds(c, true) == c.grids.vals.Keys
  {
  }

  // ---------------------------------------------------------------------
  // The cell configuration dialog

  /** One number input of the dialog: `min`, `max` and the initial value. */
  datatype SpanInput = SpanInput(min: int, max: int, initial: int)

  datatype CellDialog = CellDialog(spanRows: SpanInput, spanCols: SpanInput)

  /** The two inputs `getUserCellConfigurationInput` renders for `cell` in a
      grid of `rows` by `columns`. */
  function CellConfigDialog(cell: Entry, rows: int, columns: int): (d: CellDialog)
    ensures d.spanRows.min == 1 && d.spanCols.min == 1
    // The largest span offered reaches exactly the last row and column.
    ensures cell.y + d.spanRows.max - 1 == rows
    ensures cell.x + d.spanCols.max - 1 == columns
    ensures d.spanRows.initial >= 1 || (cell.spanRows.Some? && cell.spanRows.value < 0)
    ensures d.spanCols.initial >= 1 || (cell.spanCols.Some? && cell.spanCols.value < 0)
  {
    CellDialog(
      SpanInput(1, rows + 1 - cell.y, SpanOr1(cell.spanRows)),
      SpanInput(1, columns + 1 - cell.x, SpanOr1(cell.spanCols)))
  }

  /** The three buttons; `Submit` carries the numbers read from the inputs. */
  datatype DialogChoice = Cancel | Reset | Submit(spanRows: int, spanCols: int)

  datatype Spans = Spans(newSpanRows: int, newSpanCols: int)

  /** What the dialog's promise settles to: `Cancel` rejects (None),
      `Default` resolves to spans (1, 1), `Submit` to the values read. */
  function DialogOutcome(choice: DialogChoice): (r: Option<Spans>)
    ensures r.None? <==> choice.Cancel?
    ensures choice.Reset? ==> r == Some(Spans(1, 1))
    ensures choice.Submit? ==> r == Some(Spans(choice.spanRows, choice.spanCols))
  {
    match choice
    case Cancel => None
    case Reset => Some(Spans(1, 1))
    case Submit(r, c) => Some(Spans(r, c))
  }

  /** Cell (cx, cy) is one of the grid's `rows` by `columns` cells. */
  predicate InGrid(cx: int, cy: int, rows: int, columns: int) {
    1 <= cx <= columns && 1 <= cy <= rows
  }

  predicate WithinInput(v: int, input: SpanInput) {
    input.min <= v <= input.max
  }

  /** A span chosen within the offered bounds never passes the grid edge: for
      an anchor inside the grid, every cell the resized entry covers is a cell
      of the grid, and the offered range is never empty. Both buttons that
      resolve give such spans when the anchor is inside the grid. */
  lemma OfferedSpansStayInGrid(cell: Entry, rows: int, columns: int, choice: DialogChoice)
    requires 1 <= cell.x <= columns && 1 <= cell.y <= rows
    requires choice.Submit? ==>
      WithinInput(choice.spanRows, CellConfigDialog(cell, rows, columns).spanRows) &&
      WithinInput(choice.spanCols, CellConfigDialog(cell, rows, columns).spanCols)
    ensures var d := CellConfigDialog(cell, rows, columns);
      d.spanRows.min <= d.spanRows.max && d.spanCols.min <= d.spanCols.max
    ensures DialogOutcome(choice).Some? ==>
      var s := DialogOutcome(choice).value;
      && 1 <= s.newSpanRows && 1 <= s.newSpanCols
      && forall cx, cy :: cell.x <= cx < cell.x + s.newSpanCols && cell.y <= cy < cell.y + s.newSpanRows ==>
           InGrid(cx, cy, rows, columns)
  {
  }

  // ---------------------------------------------------------------------
  // Pixel position to cell index

  /** `Math.floor(a / b)` over integers; a zero divisor yields a non-finite
      number, modelled as None. */
  function FloorDiv(a: int, b: int): (q: Option<int>)
    ensures q.None? <==> b == 0
    ensures b > 0 ==> q.value * b <= a < q.value * b + b
    ensures b < 0 ==> q.value * b >= a > q.value * b + b
  {
    if b == 0 then None
    else if b > 0 then Some(a / b)
    else Some((-a) / (-b))
  }

  /** `Math.floor((elementStart - (gridStart - gap)) / (track + gap)) + 1`: the
      1-based column (or row) of an element, where `track` is the first
      column width (or row height) and `gap` is the computed `grid-row-gap`,
      used for both directions. */
  function TrackIndex(elementStart: int, gridStart: int, gap: int, track: int): Option<int> {
    var q := FloorDiv(elementStart - (gridStart - gap), track + gap);
    if q.Some? then Some(q.value + 1) else None
  }

  datatype Position = Position(x: Option<int>, y: Option<int>)

  /** The index part of `getGridElementsPosition`, given the left and top of
      the element's and of the grid's bounding rectangles. */
  function GridElementsPosition(
    elementLeft: int, elementTop: int, gridLeft: int, gridTop: int,
    gap: int, colWidth: int, rowHeight: int): Position
  {
    Position(TrackIndex(elementLeft, gridLeft, gap, colWidth), TrackIndex(elementTop, gridTop, gap, rowHeight))
  }

  /** The floor of a quotient by a positive number is unique. */
  lemma FloorUnique(a: int, b: int, q1: int, q2: int)
    requires b > 0
    requires q1 * b <= a < q1 * b + b
    requires q2 * b <= a < q2 * b + b
    ensures q1 == q2
  {
    if q1 < q2 {
      assert (q2 - q1 - 1) * b >= 0 by { MulNonNeg(q2 - q1 - 1, b); }
    } else if q2 < q1 {
      assert (q1 - q2 - 1) * b >= 0 by { MulNonNeg(q1 - q2 - 1, b); }
    }
  }

  lemma MulNonNeg(a: int, b: int)
    requires a >= 0 && b >= 0
    ensures a * b >= 0
  {
  }

  /** With a positive track pitch `track + gap`, the element is placed in
      track `c` exactly when its leading edge lies in
      `[gridStart + (c - 1) * (track + gap) - gap, gridStart + c * (track + gap) - gap)`. */
  lemma TrackIndexExact(elementStart: int, gridStart: int, gap: int, track: int, c: int)
    requires track + gap > 0
    ensures TrackIndex(elementStart, gridStart, gap, track) == Some(c) <==>
      gridStart + (c - 1) * (track + gap) - gap <= elementStart < gridStart + c * (track + gap) - gap
  {
    var p := track + gap;
    var a := elementStart - (gridStart - gap);
    var q := FloorDiv(a, p).value;
    assert (c - 1) * p + p == c * p;
    if gridStart + (c - 1) * p - gap <= elementStart < gridStart + c * p - gap {
      FloorUnique(a, p, q, c - 1);
    }
  }

  /** An element whose leading edge sits where track `c` starts (gap before it
      included or not) is placed in track `c`, for every non-negative gap and
      positive track size. */
  lemma TrackIndexOfTrackStart(gridStart: int, gap: int, track: int, c: int, offset: int)
    requires track > 0 && gap >= 0
    requires -gap <= offset < track
    ensures TrackIndex(gridStart + (c - 1) * (track + gap) + offset, gridStart, gap, track) == Some(c)
  {
    TrackIndexExact(gridStart + (c - 1) * (track + gap) + offset, gridStart, gap, track, c);
    assert (c - 1) * (track + gap) + (track + gap) == c * (track + gap);
  }
}
