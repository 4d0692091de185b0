/** Recognizing a scroll by one row, and shifting the tracked state along with it. */
module ScrollProofs {
  import opened Basics
  import opened Terminal
  import opened Schedule
  import opened TrackerSpec
  import opened TrackerProofs

  ghost function Below(m: nat): (r: set<nat>)
    ensures |r| == m && forall x :: x in r <==> 0 <= x < m
  {
    if m == 0 then {} else Below(m - 1) + {m - 1}
  }

  lemma {:induction false} FrontAndLast(xs: seq<nat>, front: seq<nat>, last: nat)
    requires xs == front + [last] && forall i, j :: 0 <= i < j < |xs| ==> xs[i] != xs[j]
    ensures last !in front && (forall x :: x in xs <==> x in front || x == last)
    ensures forall i, j :: 0 <= i < j < |front| ==> front[i] != front[j]
  {
    assert forall i :: 0 <= i < |front| ==> front[i] == xs[i];
    assert xs[|front|] == last;
  }

  ghost function Elements(xs: seq<nat>): (r: set<nat>)
    requires forall i, j :: 0 <= i < j < |xs| ==> xs[i] != xs[j]
    ensures |r| == |xs| && forall x :: x in r <==> x in xs
  {
    if xs == [] then {}
    else
      var front, last := xs[..|xs| - 1], xs[|xs| - 1];
      FrontAndLast(xs, front, last);
      Elements(front) + {last}
  }

  /** A proper subset is smaller. */
  lemma {:induction false} FullSubset(a: set<nat>, b: set<nat>)
    requires a <= b && |a| == |b|
    ensures a == b
  {
    if x :| x in b && x !in a {
      assert a <= b - {x} && |b - {x}| == |b| - 1;
      SubsetSize(a, b - {x});
    }
  }

  lemma {:induction false} SubsetSize(a: set<nat>, b: set<nat>)
    requires a <= b
    ensures |a| <= |b|
  {
    if a != {} {
      var x :| x in a;
      SubsetSize(a - {x}, b - {x});
    }
  }

  /** m distinct numbers below m are all of them. */
  lemma {:induction false} Pigeonhole(xs: seq<nat>, m: nat, r: nat)
    requires |xs| == m && r < m
    requires forall i, j :: 0 <= i < j < |xs| ==> xs[i] != xs[j]
    requires forall i :: 0 <= i < |xs| ==> xs[i] < m
    ensures r in xs
  {
    FullSubset(Elements(xs), Below(m));
  }

  lemma {:induction false} AcceptedRowIndex(t: Tracker, rows: seq<RowDelta>, r: nat) returns (i: nat)
    requires t.WellFormed() && CanTranslateUpOne(t, rows) && DistinctRows(rows) && r + 1 < t.rows
    ensures i + 1 < |rows| && rows[i].row == r && ShowsRowBelow(t, rows[i])
  {
    var xs := seq(t.rows - 1, i requires 0 <= i < t.rows - 1 => rows[i].row);
    assert forall i :: 0 <= i < t.rows - 1 ==> ShowsRowBelow(t, rows[i]);
    Pigeonhole(xs, t.rows - 1, r);
    i :| 0 <= i < t.rows - 1 && xs[i] == r;
  }

  /** The deltas that are compared cover every row above the bottom one. */
  lemma {:induction false} AcceptedScrollCoversRows(t: Tracker, rows: seq<RowDelta>, r: nat)
    requires t.WellFormed() && CanTranslateUpOne(t, rows) && DistinctRows(rows) && r + 1 < t.rows
    ensures FindRow(rows, r).Some? && ShowsRowBelow(t, FindRow(rows, r).value) && FindRow(rows, r).value.row == r
  {
    var i := AcceptedRowIndex(t, rows, r);
    FindRowFinds(rows, rows[i]);
  }

  /** So the delta delivered last is not one of them. */
  lemma {:induction false} LastRowIsNotAbove(t: Tracker, rows: seq<RowDelta>)
    requires t.WellFormed() && CanTranslateUpOne(t, rows) && DistinctRows(rows) && rows != []
    ensures rows[|rows| - 1].row + 1 >= t.rows
  {
    var last := rows[|rows| - 1].row;
    if last + 1 < t.rows {
      var i := AcceptedRowIndex(t, rows, last);
      assert false;
    }
  }

  /** The shift moves every cell up by one row, with its time. */
  lemma {:induction false} ShiftMovesCells(t: Tracker, r: nat, col: nat)
    requires t.WellFormed() && t.cap == t.cols * t.rows && Tracks(t, r, col) && Tracks(t, r + 1, col)
    ensures var t' := TranslateUpOne(t);
            && t'.WellFormed() && Tracks(t', r, col)
            && KeyAt(t', r, col) == KeyAt(t, r + 1, col) && TimeAt(t', r, col) == TimeAt(t, r + 1, col)
  {
    var i, j := t.Base(r) + col, t.Base(r + 1) + col;
    assert j == i + t.cols;
    assert t.cols <= t.cap;
  }

  /** Once accepted, the shift makes the snapshot of every row above the bottom one the keys
      of the frame, and moves each change time along with its cell. */
  lemma {:induction false} ShiftMatchesFrame(t: Tracker, rows: seq<RowDelta>, r: nat, col: nat, rd: RowDelta, i: nat, j: nat)
    requires t.WellFormed() && CanTranslateUpOne(t, rows) && DistinctRows(rows)
    requires r + 1 < t.rows && col < t.cols && i == r * t.cols + col && j == (r + 1) * t.cols + col
    requires FindRow(rows, r) == Some(rd)
    ensures i < j < t.cap && col < |rd.cells|
    ensures TranslateUpOne(t).snapshot[i] == RenderKey(rd.cells[col])
    ensures TranslateUpOne(t).ms[i] == t.ms[j]
  {
    AcceptedScrollCoversRows(t, rows, r);
    SpanInGrid(t, r + 1, col);
    assert j == i + t.cols;
    assert t.cols <= t.cap;
  }

  /** The place of a cell of the bottom row. */
  lemma {:induction false} BottomPlace(cols: nat, rows: nat, last: nat, col: nat, i: nat)
    requires rows == last + 1 && col < cols && i == last * cols + col
    ensures cols <= cols * rows && i < cols * rows <= i + cols
  {
    assert cols * rows == last * cols + cols;
  }

  /** The bottom row has never been seen, no row has a generation, and the cached time is the
      maximum of what remains. */
  lemma {:induction false} ShiftForgetsBottom(t: Tracker, col: nat, i: nat)
    requires t.WellFormed() && t.cap == t.cols * t.rows
    requires col < t.cols && 0 < t.rows && i == (t.rows - 1) * t.cols + col
    ensures i < t.cap && TranslateUpOne(t).snapshot[i] == UNSEEN_KEY && TranslateUpOne(t).ms[i] == NEVER_MS
    ensures TranslateUpOne(t).WellFormed() && TranslateUpOne(t).LastAgrees()
    ensures forall g :: g in TranslateUpOne(t).generations ==> g == UNSEEN_GENERATION
  {
    BottomPlace(t.cols, t.rows, t.rows - 1, col, i);
  }
}
