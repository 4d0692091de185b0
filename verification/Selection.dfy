/** The rectangles that highlight a selection, in cells. */
module Selections {
  import opened Basics
  import opened Terminal

  datatype Anchor = Anchor(row: nat, col: nat)

  datatype SelectionKind = Linear | Rectangular

  datatype SelectionState = SelectionState(start: Option<Anchor>, end: Option<Anchor>, active: bool, kind: SelectionKind)

  datatype CellMetrics = CellMetrics(width: real, height: real)

  /** `span` cells of row `row` from column `col` on. */
  datatype Rect = Rect(row: nat, col: nat, span: nat)

  predicate Before(a: Anchor, b: Anchor) {
    a.row < b.row || (a.row == b.row && a.col < b.col)
  }

  function Lesser(a: Anchor, b: Anchor): Anchor {
    if Before(b, a) then b else a
  }

  function Greater(a: Anchor, b: Anchor): Anchor {
    if Before(b, a) then a else b
  }

  // ----- what must be highlighted -----

  predicate Drawable(sel: SelectionState, metrics: CellMetrics) {
    sel.active && sel.start.Some? && sel.end.Some? && metrics.width > 0.0 && metrics.height > 0.0
  }

  /** The row-major position of a cell. */
  function Position(cols: nat, row: nat, col: nat): nat {
    row * cols + col
  }

  /** The first selected position; a column past the edge counts on into the following rows. */
  function StartPosition(sel: SelectionState, grid: GridSize): nat
    requires sel.start.Some? && sel.end.Some?
  {
    var first := Lesser(sel.start.value, sel.end.value);
    Position(grid.cols, first.row, first.col)
  }

  /** The position after the last selected one; the anchor is pulled back into the grid. */
  function EndPosition(sel: SelectionState, grid: GridSize): nat
    requires sel.start.Some? && sel.end.Some?
  {
    var last := Greater(sel.start.value, sel.end.value);
    if last.row >= grid.rows then Position(grid.cols, grid.rows, 0)
    else Position(grid.cols, last.row, Min(last.col, grid.cols))
  }

  predicate Selected(sel: SelectionState, grid: GridSize, metrics: CellMetrics, row: nat, col: nat) {
    Drawable(sel, metrics)
    && StartPosition(sel, grid) <= Position(grid.cols, row, col) < EndPosition(sel, grid)
  }

  predicate InRect(r: Rect, row: nat, col: nat) {
    r.row == row && r.col <= col < r.col + r.span
  }

  ghost predicate Covered(rects: seq<Rect>, row: nat, col: nat) {
    exists i :: 0 <= i < |rects| && InRect(rects[i], row, col)
  }

  /** Rectangles from the top down, at most one per row, none empty or outside the grid. */
  ghost predicate Stacked(rects: seq<Rect>, grid: GridSize) {
    && (forall i, j :: 0 <= i < j < |rects| ==> rects[i].row < rects[j].row)
    && (forall i :: 0 <= i < |rects| ==>
          rects[i].span > 0 && rects[i].col + rects[i].span <= grid.cols && rects[i].row < grid.rows)
  }

  function TotalSpan(rects: seq<Rect>): nat {
    if rects == [] then 0 else TotalSpan(rects[..|rects| - 1]) + rects[|rects| - 1].span
  }

  // ----- arithmetic on positions -----

  lemma {:induction false} NextRow(cols: nat, a: nat, b: nat)
    requires b == a + 1
    ensures Position(cols, b, 0) == Position(cols, a, 0) + cols == Position(cols, a, cols)
  {
  }

  lemma {:induction false} RowsRise(cols: nat, a: nat, b: nat)
    requires a < b
    ensures Position(cols, a, 0) + cols <= Position(cols, b, 0)
    decreases b
  {
    NextRow(cols, b - 1, b);
    if a < b - 1 {
      RowsRise(cols, a, b - 1);
    }
  }

  /** Positions inside the grid's columns are ordered as rows first, columns second. */
  lemma {:induction false} PositionsOrder(cols: nat, row: nat, col: nat, row2: nat, col2: nat)
    requires col < cols && col2 <= cols
    ensures Position(cols, row, col) < Position(cols, row2, col2) <==> row < row2 || (row == row2 && col < col2)
  {
    if row < row2 {
      RowsRise(cols, row, row2);
    } else if row2 < row {
      RowsRise(cols, row2, row);
    }
  }

  lemma {:induction false} CarryColumns(cols: nat, row: nat, col: nat, carried: nat)
    requires cols > 0 && carried == row + col / cols
    ensures Position(cols, row, col) == Position(cols, carried, col % cols)
  {
    assert carried * cols == row * cols + col / cols * cols;
  }

  /** A cell lies in the span from a, whose column may lie past the edge and then counts on into the following
      rows, to before b. */
  predicate Between(cols: nat, a: Anchor, b: Anchor, row: nat, col: nat) {
    a.row * cols + a.col <= row * cols + col && Before(Anchor(row, col), b)
  }

  lemma {:induction false} NotBothWays(cols: nat, a: Anchor, b: Anchor, row: nat, col: nat)
    requires col < cols && !Before(b, a)
    ensures !Between(cols, b, a, row, col)
  {
    if row < b.row {
      RowsRise(cols, row, b.row);
    }
  }

  lemma {:induction false} EndIsBefore(sel: SelectionState, grid: GridSize, row: nat, col: nat, last: Anchor)
    requires sel.start.Some? && sel.end.Some? && row < grid.rows && col < grid.cols
    requires last == Greater(sel.start.value, sel.end.value)
    ensures Position(grid.cols, row, col) < EndPosition(sel, grid) <==> Before(Anchor(row, col), last)
  {
    if last.row >= grid.rows {
      PositionsOrder(grid.cols, row, col, grid.rows, 0);
    } else {
      PositionsOrder(grid.cols, row, col, last.row, Min(last.col, grid.cols));
    }
  }

  /** What is selected, in terms of the anchors alone: of an active selection under valid metrics the cells
      from one anchor to before the other, whichever comes first. */
  lemma {:induction false} SelectedIsBetween(sel: SelectionState, grid: GridSize, metrics: CellMetrics, row: nat, col: nat)
    requires row < grid.rows && col < grid.cols
    ensures Selected(sel, grid, metrics, row, col) <==>
            && sel.active && metrics.width > 0.0 && metrics.height > 0.0 && sel.start.Some? && sel.end.Some?
            && (|| Between(grid.cols, sel.start.value, sel.end.value, row, col)
                || Between(grid.cols, sel.end.value, sel.start.value, row, col))
  {
    if Drawable(sel, metrics) {
      var first, last := Lesser(sel.start.value, sel.end.value), Greater(sel.start.value, sel.end.value);
      EndIsBefore(sel, grid, row, col, last);
      NotBothWays(grid.cols, first, last, row, col);
    }
  }

  // ----- the clipping loop -----

  /** The rectangles so far cover exactly the positions from `from` to before `to`. */
  ghost predicate Covers(rects: seq<Rect>, grid: GridSize, from: nat, to: nat) {
    && Stacked(rects, grid)
    && (forall r: nat, c: nat :: r < grid.rows && c < grid.cols ==>
          (Covered(rects, r, c) <==> from <= Position(grid.cols, r, c) < to))
    && TotalSpan(rects) == to - from
  }

  lemma {:induction false} CoversNothing(grid: GridSize, from: nat)
    ensures Covers([], grid, from, from)
  {
  }

  lemma {:induction false} CoveredByOneMore(rects: seq<Rect>, last: Rect, row: nat, col: nat)
    ensures Covered(rects + [last], row, col) <==> Covered(rects, row, col) || InRect(last, row, col)
  {
    var longer := rects + [last];
    if Covered(rects, row, col) {
      var i :| 0 <= i < |rects| && InRect(rects[i], row, col);
      assert InRect(longer[i], row, col);
    }
    if InRect(last, row, col) {
      assert InRect(longer[|rects|], row, col);
    }
  }

  lemma {:induction false} CoveredUpTo(rects: seq<Rect>, grid: GridSize, from: nat, to: nat, next: nat, last: Rect, edge: nat, r: nat, c: nat)
    requires r < grid.rows && c < grid.cols && from <= to
    requires Covered(rects, r, c) <==> from <= Position(grid.cols, r, c) < to
    requires last.span > 0 && edge == last.col + last.span <= grid.cols
    requires to == Position(grid.cols, last.row, last.col) && next == Position(grid.cols, last.row, edge)
    ensures Covered(rects + [last], r, c) <==> from <= Position(grid.cols, r, c) < next
  {
    CoveredByOneMore(rects, last, r, c);
    PositionsOrder(grid.cols, r, c, last.row, last.col);
    PositionsOrder(grid.cols, r, c, last.row, edge);
  }

  lemma {:induction false} CoversOneMore(rects: seq<Rect>, grid: GridSize, from: nat, to: nat, next: nat, last: Rect)
    requires Covers(rects, grid, from, to)
    requires forall i :: 0 <= i < |rects| ==> rects[i].row < last.row
    requires last.span > 0 && last.col + last.span <= grid.cols && last.row < grid.rows
    requires to == Position(grid.cols, last.row, last.col) && next == to + last.span
    requires from <= to
    ensures Covers(rects + [last], grid, from, next)
  {
    var longer, edge := rects + [last], last.col + last.span;
    assert longer[..|longer| - 1] == rects;
    assert next == Position(grid.cols, last.row, edge);
    forall r: nat, c: nat | r < grid.rows && c < grid.cols
      ensures Covered(longer, r, c) <==> from <= Position(grid.cols, r, c) < next
    {
      CoveredUpTo(rects, grid, from, to, next, last, edge, r, c);
    }
  }

  lemma {:induction false} EndsInGrid(sel: SelectionState, grid: GridSize)
    requires sel.start.Some? && sel.end.Some?
    ensures EndPosition(sel, grid) <= Position(grid.cols, grid.rows, 0)
    ensures Lesser(sel.start.value, sel.end.value).row >= grid.rows ==> EndPosition(sel, grid) <= StartPosition(sel, grid)
    ensures sel.start == sel.end ==> EndPosition(sel, grid) <= StartPosition(sel, grid)
    ensures grid.cols == 0 ==> EndPosition(sel, grid) <= StartPosition(sel, grid)
  {
    var first, last := Lesser(sel.start.value, sel.end.value), Greater(sel.start.value, sel.end.value);
    if last.row < grid.rows {
      RowsRise(grid.cols, last.row, grid.rows);
    }
    if grid.rows < first.row {
      RowsRise(grid.cols, grid.rows, first.row);
    }
    if grid.cols == 0 {
      assert forall r: nat :: Position(0, r, 0) == 0;
    }
  }

  function SpanLength(sel: SelectionState, grid: GridSize, metrics: CellMetrics): nat {
    if Drawable(sel, metrics) && StartPosition(sel, grid) < EndPosition(sel, grid)
    then EndPosition(sel, grid) - StartPosition(sel, grid) else 0
  }

  /** Exactly the selected cells are covered, once each. */
  ghost predicate Highlights(rects: seq<Rect>, sel: SelectionState, grid: GridSize, metrics: CellMetrics) {
    && Stacked(rects, grid)
    && (forall r: nat, c: nat :: r < grid.rows && c < grid.cols ==>
          (Covered(rects, r, c) <==> Selected(sel, grid, metrics, r, c)))
    && TotalSpan(rects) == SpanLength(sel, grid, metrics)
  }

  lemma {:induction false} NothingSelected(sel: SelectionState, grid: GridSize, metrics: CellMetrics)
    requires !Drawable(sel, metrics) || EndPosition(sel, grid) <= StartPosition(sel, grid)
    ensures Highlights([], sel, grid, metrics)
  {
    CoversNothing(grid, 0);
  }

  lemma {:induction false} CoversAll(rects: seq<Rect>, sel: SelectionState, grid: GridSize, metrics: CellMetrics, to: nat)
    requires Drawable(sel, metrics)
    requires Covers(rects, grid, StartPosition(sel, grid), to)
    requires StartPosition(sel, grid) <= to && EndPosition(sel, grid) <= to
    requires to == StartPosition(sel, grid) || to == EndPosition(sel, grid)
    ensures Highlights(rects, sel, grid, metrics)
  {
  }

  /** The end of the row's share of a span that reaches row `row`. */
  lemma {:induction false} RowShare(grid: GridSize, row: nat, endRow: nat, endCol: nat, below: nat, end: nat)
    requires below == row + 1 && row <= endRow && row < grid.rows && endRow <= grid.rows && endCol <= grid.cols
    requires end == if endRow < grid.rows then Position(grid.cols, endRow, endCol) else Position(grid.cols, grid.rows, 0)
    ensures row == endRow ==> end == Position(grid.cols, row, endCol)
    ensures row < endRow ==> Position(grid.cols, row, grid.cols) == Position(grid.cols, below, 0) <= end
  {
    if row < endRow {
      NextRow(grid.cols, row, below);
      if below < endRow {
        RowsRise(grid.cols, below, endRow);
      }
    }
  }

  /** Where the loop stops nothing is left of the span. */
  lemma {:induction false} SpanIsDone(grid: GridSize, row: nat, col: nat, endRow: nat, endCol: nat, end: nat)
    requires col < grid.cols && endRow <= grid.rows && endCol <= grid.cols
    requires end == if endRow < grid.rows then Position(grid.cols, endRow, endCol) else Position(grid.cols, grid.rows, 0)
    requires row >= grid.rows || !(row < endRow || (row == endRow && col < endCol))
    ensures end <= Position(grid.cols, row, col)
  {
    PositionsOrder(grid.cols, row, col, endRow, endCol);
    if grid.rows < row {
      RowsRise(grid.cols, grid.rows, row);
    }
    if endRow < grid.rows {
      RowsRise(grid.cols, endRow, grid.rows);
    }
  }

  /** What the clipping loop keeps: the positions from `from` to before `to` are covered, and `to` is
      where the loop stands, or the end. */
  ghost predicate Clipping(rects: seq<Rect>, grid: GridSize, from: nat, to: nat, end: nat, row: nat, col: nat, endRow: nat) {
    && col < grid.cols && from <= to && Covers(rects, grid, from, to)
    && (to == from || to <= end)
    && (to == Position(grid.cols, row, col) || (to == end && row > endRow))
    && forall i :: 0 <= i < |rects| ==> rects[i].row < row
  }

  /** One row of the span, which may share no cell with it. */
  lemma {:induction false} ClipRow(rects: seq<Rect>, grid: GridSize, from: nat, to: nat, end: nat, row: nat, col: nat,
                                   endRow: nat, endCol: nat, below: nat, span: nat, next: nat)
    requires Clipping(rects, grid, from, to, end, row, col, endRow)
    requires below == row + 1 && row <= endRow && row < grid.rows && endRow <= grid.rows && endCol <= grid.cols
    requires end == if endRow < grid.rows then Position(grid.cols, endRow, endCol) else Position(grid.cols, grid.rows, 0)
    requires col + span == (if row == endRow then endCol else grid.cols) && span > 0 && next == to + span
    ensures Clipping(rects + [Rect(row, col, span)], grid, from, next, end, below, 0, endRow)
  {
    RowShare(grid, row, endRow, endCol, below, end);
    CoversOneMore(rects, grid, from, to, next, Rect(row, col, span));
  }

  lemma {:induction false} NothingClipped(grid: GridSize, from: nat, end: nat, row: nat, col: nat, endRow: nat)
    requires col < grid.cols && from == Position(grid.cols, row, col)
    ensures Clipping([], grid, from, from, end, row, col, endRow)
  {
    CoversNothing(grid, from);
  }

  lemma {:induction false} ClippingIsDone(rects: seq<Rect>, grid: GridSize, from: nat, to: nat, end: nat, row: nat, col: nat,
                                          endRow: nat, endCol: nat)
    requires Clipping(rects, grid, from, to, end, row, col, endRow) && endRow <= grid.rows && endCol <= grid.cols
    requires end == if endRow < grid.rows then Position(grid.cols, endRow, endCol) else Position(grid.cols, grid.rows, 0)
    requires row >= grid.rows || !(row < endRow || (row == endRow && col < endCol))
    ensures Covers(rects, grid, from, to) && from <= to && end <= to && (to == from || to == end)
  {
    SpanIsDone(grid, row, col, endRow, endCol, end);
  }

  /** The rows of a span from `(row, col)` to before `(endRow, endCol)`, clipped to the grid. */
  method ClipSpan(grid: GridSize, row0: nat, col0: nat, endRow: nat, endCol: nat, ghost from: nat, ghost end: nat)
    returns (rects: seq<Rect>, ghost to: nat)
    requires col0 < grid.cols && endRow <= grid.rows && endCol <= grid.cols
    requires from == Position(grid.cols, row0, col0)
    requires end == if endRow < grid.rows then Position(grid.cols, endRow, endCol) else Position(grid.cols, grid.rows, 0)
    ensures Covers(rects, grid, from, to) && from <= to && end <= to && (to == from || to == end)
  {
    rects, to := [], from;
    var row: nat, col: nat := row0, col0;
    NothingClipped(grid, from, end, row, col, endRow);
    while row < grid.rows && (row < endRow || (row == endRow && col < endCol))
      invariant Clipping(rects, grid, from, to, end, row, col, endRow)
      decreases grid.rows - row
    {
      var rowEnd := if row == endRow then endCol else grid.cols;
      var span := if rowEnd > col then rowEnd - col else 0;
      var below := row + 1;
      assert span > 0;
      if span > 0 {
        ghost var next := to + span;
        ClipRow(rects, grid, from, to, end, row, col, endRow, endCol, below, span, next);
        rects, to := rects + [Rect(row, col, span)], next;
      }
      row, col := below, 0;
    }
    ClippingIsDone(rects, grid, from, to, end, row, col, endRow, endCol);
  }

  /** The start carried into the grid's columns, and the end pulled back into the grid. */
  lemma {:induction false} ClippedAnchors(sel: SelectionState, grid: GridSize, start: Anchor, end: Anchor, row: nat, col: nat)
    requires sel.start.Some? && sel.end.Some? && grid.cols > 0
    requires start == Lesser(sel.start.value, sel.end.value) && end == Greater(sel.start.value, sel.end.value)
    requires row == start.row + start.col / grid.cols && col == start.col % grid.cols
    ensures StartPosition(sel, grid) == Position(grid.cols, row, col)
    ensures EndPosition(sel, grid) ==
            if Min(end.row, grid.rows) < grid.rows then Position(grid.cols, Min(end.row, grid.rows), Min(end.col, grid.cols))
            else Position(grid.cols, grid.rows, 0)
  {
    CarryColumns(grid.cols, start.row, start.col, row);
  }

  method SelectionRects(sel: SelectionState, grid: GridSize, metrics: CellMetrics) returns (rects: seq<Rect>)
    ensures Highlights(rects, sel, grid, metrics)
  {
    rects := [];
    if !sel.active || sel.start.None? || sel.end.None? || metrics.width <= 0.0 || metrics.height <= 0.0 {
      NothingSelected(sel, grid, metrics);
      return;
    }
    var start, end := Lesser(sel.start.value, sel.end.value), Greater(sel.start.value, sel.end.value);
    if start == end || start.row >= grid.rows || grid.cols == 0 || grid.rows == 0 {
      EndsInGrid(sel, grid);
      NothingSelected(sel, grid, metrics);
      return;
    }
    var row, col := Carried(start, grid.cols);
    ClippedAnchors(sel, grid, start, end, row, col);
    ghost var to: nat;
    rects, to := ClipSpan(grid, row, col, Min(end.row, grid.rows), Min(end.col, grid.cols),
                          StartPosition(sel, grid), EndPosition(sel, grid));
    CoversAll(rects, sel, grid, metrics, to);
  }

  /** A column past the edge counts on into the following rows. */
  method Carried(anchor: Anchor, cols: nat) returns (row: nat, col: nat)
    requires cols > 0
    ensures row == anchor.row + anchor.col / cols && col == anchor.col % cols && col < cols
  {
    row := anchor.row + anchor.col / cols;
    col := anchor.col % cols;
  }

  // ----- the rectangles are determined -----

  function Swapped(sel: SelectionState): SelectionState {
    sel.(start := sel.end, end := sel.start)
  }

  /** Which anchor came first makes no difference, nor does the kind of the selection. */
  lemma {:induction false} AnchorOrderDoesNotMatter(sel: SelectionState, kind: SelectionKind, grid: GridSize,
                                                    metrics: CellMetrics, rects: seq<Rect>)
    ensures Highlights(rects, sel, grid, metrics) <==> Highlights(rects, Swapped(sel).(kind := kind), grid, metrics)
  {
    var other := Swapped(sel).(kind := kind);
    if Drawable(sel, metrics) {
      assert StartPosition(sel, grid) == StartPosition(other, grid);
      assert EndPosition(sel, grid) == EndPosition(other, grid);
    }
    assert forall r: nat, c: nat :: Selected(sel, grid, metrics, r, c) <==> Selected(other, grid, metrics, r, c);
  }

  lemma {:induction false} SameCellsSameRect(a: seq<Rect>, b: seq<Rect>, grid: GridSize, i: nat)
    requires Stacked(a, grid) && Stacked(b, grid) && i < |a|
    requires forall r: nat, c: nat :: r < grid.rows && c < grid.cols ==> (Covered(a, r, c) <==> Covered(b, r, c))
    ensures a[i] in b
  {
    var x := a[i];
    var last := x.col + x.span - 1;
    assert InRect(x, x.row, x.col) && InRect(x, x.row, last);
    assert Covered(a, x.row, x.col) && Covered(a, x.row, last);
    var j :| 0 <= j < |b| && InRect(b[j], x.row, x.col);
    var y := b[j];
    var yLast := y.col + y.span - 1;
    assert InRect(y, y.row, y.col) && InRect(y, y.row, yLast);
    assert Covered(b, y.row, y.col) && Covered(b, y.row, yLast);
    assert Covered(a, y.row, y.col) && Covered(a, y.row, yLast) && Covered(b, x.row, last);
    assert x == y;
  }

  lemma {:induction false} SameLastRect(a: seq<Rect>, b: seq<Rect>, grid: GridSize)
    requires Stacked(a, grid) && Stacked(b, grid) && a != [] && b != []
    requires forall x :: x in a <==> x in b
    ensures a[|a| - 1] == b[|b| - 1]
  {
    var x, y := a[|a| - 1], b[|b| - 1];
    assert x in a && y in b;
    var i :| 0 <= i < |b| && b[i] == x;
    var j :| 0 <= j < |a| && a[j] == y;
  }

  lemma {:induction false} SameFront(a: seq<Rect>, b: seq<Rect>, grid: GridSize, p: seq<Rect>, q: seq<Rect>, x: Rect)
    requires Stacked(a, grid) && Stacked(b, grid) && a == p + [x] && b == q + [x]
    requires forall y :: y in a <==> y in b
    ensures Stacked(p, grid) && Stacked(q, grid) && forall y :: y in p <==> y in q
  {
    forall y ensures y in p <==> y in q {
      if y in p {
        var i :| 0 <= i < |p| && p[i] == y;
        assert a[i] == y && a[|p|] == x && y in a;
      }
      if y in q {
        var i :| 0 <= i < |q| && q[i] == y;
        assert b[i] == y && b[|q|] == x && y in b;
      }
    }
    assert forall i :: 0 <= i < |p| ==> p[i] == a[i];
    assert forall i :: 0 <= i < |q| ==> q[i] == b[i];
  }

  lemma {:induction false} SameRectsSameList(a: seq<Rect>, b: seq<Rect>, grid: GridSize)
    requires Stacked(a, grid) && Stacked(b, grid)
    requires forall x :: x in a <==> x in b
    ensures a == b
    decreases |a|
  {
    assert (a != [] ==> a[0] in a) && (b != [] ==> b[0] in b);
    if a != [] && b != [] {
      var p, q, x := a[..|a| - 1], b[..|b| - 1], a[|a| - 1];
      SameLastRect(a, b, grid);
      assert a == p + [x] && b == q + [x];
      SameFront(a, b, grid, p, q, x);
      SameRectsSameList(p, q, grid);
    }
  }

  /** There is only one list of rectangles that highlights a selection. */
  lemma {:induction false} HighlightsAreDetermined(sel: SelectionState, grid: GridSize, metrics: CellMetrics,
                                                   a: seq<Rect>, b: seq<Rect>)
    requires Highlights(a, sel, grid, metrics) && Highlights(b, sel, grid, metrics)
    ensures a == b
  {
    forall x | x in a ensures x in b {
      var i :| 0 <= i < |a| && a[i] == x;
      SameCellsSameRect(a, b, grid, i);
    }
    forall x | x in b ensures x in a {
      var i :| 0 <= i < |b| && b[i] == x;
      SameCellsSameRect(b, a, grid, i);
    }
    SameRectsSameList(a, b, grid);
  }

  // ----- the documented meaning of the rectangular kind -----

  /** The block between the anchor columns on every row between the anchors. */
  predicate InBlock(sel: SelectionState, row: nat, col: nat)
    requires sel.start.Some? && sel.end.Some?
  {
    var a, b := sel.start.value, sel.end.value;
    && Lesser(a, b).row <= row <= Greater(a, b).row
    && Min(a.col, b.col) <= col < if a.col <= b.col then b.col else a.col
  }

  /** What a caller can see of a selection before it is drawn: when the span and the block are
      the same cells of the grid. */
  predicate BlockIsSpan(sel: SelectionState, grid: GridSize)
    requires sel.start.Some? && sel.end.Some?
  {
    var first, last := Lesser(sel.start.value, sel.end.value), Greater(sel.start.value, sel.end.value);
    || first.row >= grid.rows || first.row == last.row
    || (last.col >= grid.cols
        && (first.col == 0 || first.row + 1 == grid.rows || StartPosition(sel, grid) >= EndPosition(sel, grid)))
  }

  /** A cell at or after an anchor whose column lies past the edge stands in a later row. */
  lemma {:induction false} PastTheEdge(cols: nat, row: nat, col: nat, anchor: Anchor)
    requires col < cols
    ensures anchor.col < cols ==>
              (Position(cols, anchor.row, anchor.col) <= Position(cols, row, col)
               <==> anchor.row < row || (anchor.row == row && anchor.col <= col))
    ensures anchor.col >= cols && row <= anchor.row ==> Position(cols, row, col) < Position(cols, anchor.row, anchor.col)
  {
    if anchor.col < cols {
      PositionsOrder(cols, row, col, anchor.row, anchor.col);
    } else {
      PositionsOrder(cols, row, col, anchor.row, cols);
    }
  }

  /** A cell lies before the end of the span when it stands before the end anchor in reading order. */
  lemma {:induction false} BeforeTheEnd(sel: SelectionState, grid: GridSize, row: nat, col: nat, last: Anchor)
    requires sel.start.Some? && sel.end.Some? && last == Greater(sel.start.value, sel.end.value)
    requires row < grid.rows && col < grid.cols
    ensures Position(grid.cols, row, col) < EndPosition(sel, grid) <==>
            row < last.row || (row == last.row && col < last.col)
  {
    if last.row >= grid.rows {
      PositionsOrder(grid.cols, row, col, grid.rows, 0);
    } else {
      PositionsOrder(grid.cols, row, col, last.row, Min(last.col, grid.cols));
    }
  }

  lemma {:induction false} BlockCell(sel: SelectionState, grid: GridSize, row: nat, col: nat, first: Anchor, last: Anchor)
    requires sel.start.Some? && sel.end.Some?
    requires first == Lesser(sel.start.value, sel.end.value) && last == Greater(sel.start.value, sel.end.value)
    requires row < grid.rows && col < grid.cols && BlockIsSpan(sel, grid)
    ensures InBlock(sel, row, col) <==> StartPosition(sel, grid) <= Position(grid.cols, row, col) < EndPosition(sel, grid)
  {
    PastTheEdge(grid.cols, row, col, first);
    BeforeTheEnd(sel, grid, row, col, last);
    EndsInGrid(sel, grid);
    if first.col < grid.cols && first.row < last.row && first.row < grid.rows {
      BeforeTheEnd(sel, grid, first.row, first.col, last);
    } else if first.row + 1 == grid.rows {
      NextRow(grid.cols, first.row, grid.rows);
    }
  }

  /** The cell at a position of the grid. */
  lemma {:induction false} CellAtPosition(grid: GridSize, p: nat) returns (r: nat, c: nat)
    requires p < Position(grid.cols, grid.rows, 0) && grid.cols > 0
    ensures r < grid.rows && c < grid.cols && Position(grid.cols, r, c) == p
  {
    r, c := p / grid.cols, p % grid.cols;
    if r >= grid.rows {
      if r > grid.rows {
        RowsRise(grid.cols, grid.rows, r);
      }
      assert false;
    }
  }

  /** A cell of which the block and the span disagree. */
  lemma {:induction false} BlockMisses(sel: SelectionState, grid: GridSize, first: Anchor, last: Anchor) returns (r: nat, c: nat)
    requires sel.start.Some? && sel.end.Some? && grid.cols > 0 && !BlockIsSpan(sel, grid)
    requires first == Lesser(sel.start.value, sel.end.value) && last == Greater(sel.start.value, sel.end.value)
    ensures r < grid.rows && c < grid.cols
    ensures InBlock(sel, r, c) <==> !(StartPosition(sel, grid) <= Position(grid.cols, r, c) < EndPosition(sel, grid))
  {
    if first.col >= grid.cols && last.col >= grid.cols {
      // The block lies outside the grid, the span does not.
      EndsInGrid(sel, grid);
      r, c := CellAtPosition(grid, StartPosition(sel, grid));
    } else {
      if first.col >= grid.cols {
        // The span starts behind the first row, the block in it.
        r, c := first.row, last.col;
      } else if last.col < grid.cols {
        r, c := first.row, grid.cols - 1;
      } else {
        r, c := first.row + 1, 0;
      }
      PastTheEdge(grid.cols, r, c, first);
      BeforeTheEnd(sel, grid, r, c, last);
    }
  }

  /** The covered cells are the block exactly when the selection stays in one row, or spans whole
      rows, or shows nothing but its part of the last row; the kind of the selection plays no part. */
  lemma {:induction false} BlockIsCoveredWhen(sel: SelectionState, grid: GridSize, metrics: CellMetrics, rects: seq<Rect>)
    requires Highlights(rects, sel, grid, metrics) && Drawable(sel, metrics)
    ensures (forall r: nat, c: nat :: r < grid.rows && c < grid.cols ==> (Covered(rects, r, c) <==> InBlock(sel, r, c)))
       <==> BlockIsSpan(sel, grid) || grid.cols == 0
  {
    var first, last := Lesser(sel.start.value, sel.end.value), Greater(sel.start.value, sel.end.value);
    if BlockIsSpan(sel, grid) {
      forall r: nat, c: nat | r < grid.rows && c < grid.cols ensures Covered(rects, r, c) <==> InBlock(sel, r, c) {
        BlockCell(sel, grid, r, c, first, last);
      }
    } else if grid.cols > 0 {
      var r, c := BlockMisses(sel, grid, first, last);
      assert Covered(rects, r, c) <==> Selected(sel, grid, metrics, r, c);
    }
  }

  /** A rectangular selection of the left column of a two-by-two grid, for one. */
  const LEFT_COLUMN := SelectionState(Some(Anchor(0, 0)), Some(Anchor(1, 1)), true, Rectangular)

  /** Whatever rectangles highlight it, they do not cover just that column. */
  lemma {:induction false} BlockCanDiffer(grid: GridSize, metrics: CellMetrics, rects: seq<Rect>)
    requires grid == GridSize(2, 2) && Drawable(LEFT_COLUMN, metrics) && Highlights(rects, LEFT_COLUMN, grid, metrics)
    ensures !forall r: nat, c: nat :: r < grid.rows && c < grid.cols ==> (Covered(rects, r, c) <==> InBlock(LEFT_COLUMN, r, c))
  {
    BlockIsCoveredWhen(LEFT_COLUMN, grid, metrics, rects);
  }
}
