/** The retained paint cache: row batches in ascending order, merged in place. */
module RenderCaching {
  import opened Basics
  import opened Terminal
  import opened RowFilling

  /** What the cache holds, without the order it keeps it in. */
  datatype CacheModel = CacheModel(rows: map<nat, RowBatch>, lastSequence: Option<nat>, pendingRebuild: bool)

  datatype CacheAction = CacheAction(needsRedraw: bool, needsAnimation: bool)

  ghost predicate Ascending(bs: seq<RowBatch>) {
    forall i, j :: 0 <= i < j < |bs| ==> bs[i].row < bs[j].row
  }

  /** The rows that a sequence of batches stands for. */
  ghost function ToMap(bs: seq<RowBatch>): map<nat, RowBatch> {
    if bs == [] then map[] else ToMap(bs[1..])[bs[0].row := bs[0]]
  }

  /** The plain meaning of a frame's deltas: each row overrides. */
  function RowsMap(rows: seq<RowDelta>): map<nat, RowBatch> {
    if rows == [] then map[]
    else RowsMap(rows[..|rows| - 1])[rows[|rows| - 1].row := FilledRow(rows[|rows| - 1])]
  }

  /** What the cache demands of a frame: its rows come top-down. */
  ghost predicate TopDown(rows: seq<RowDelta>) {
    forall i, j :: 0 <= i < j < |rows| ==> rows[i].row < rows[j].row
  }

  /** The rows before the first one below all deltas. */
  function Bound(rows: seq<RowDelta>): nat {
    if rows == [] then 0 else rows[|rows| - 1].row + 1
  }

  function Below(m: map<nat, RowBatch>, bound: nat): map<nat, RowBatch> {
    map r | r in m && r < bound :: m[r]
  }

  /** The deltas override their rows; a full frame also drops every row below its last one. */
  function Rebuilt(c: CacheModel, f: FrameDelta): CacheModel {
    var rows := c.rows + RowsMap(f.rows);
    CacheModel(if f.damage.Full? then Below(rows, Bound(f.rows)) else rows, Some(f.sequence), false)
  }

  /** A clean frame of a known sequence asks for nothing, any other frame for a repaint; the
      rows are rebuilt for damage, for a first frame and after a font change. A clean frame of a
      known sequence that brings more rows than the retained list has room for (`capacity`, which
      the allocator decides) is rebuilt too. */
  function Applied(c: CacheModel, f: FrameDelta, capacity: nat): (CacheModel, CacheAction) {
    var needsAnimation := f.cursorVisible && f.cursorBlinking;
    if f.damage.Clean? && c.lastSequence == Some(f.sequence) then
      var needsRedraw := c.pendingRebuild || capacity < |f.rows|;
      (if needsRedraw then Rebuilt(c, f) else c, CacheAction(needsRedraw, needsAnimation))
    else
      var n := if !f.damage.Clean? || c.lastSequence.None? || c.pendingRebuild then Rebuilt(c, f) else c;
      (n.(lastSequence := Some(f.sequence)), CacheAction(true, needsAnimation))
  }

  function Reset(): CacheModel {
    CacheModel(map[], None, true)
  }

  lemma {:induction false} UpdatesCommute(m: map<nat, RowBatch>, a: RowBatch, b: RowBatch)
    requires a.row != b.row
    ensures m[a.row := a][b.row := b] == m[b.row := b][a.row := a]
  {
  }

  lemma {:induction false} ReplaceUpdates(bs: seq<RowBatch>, i: nat, b: RowBatch)
    requires i < |bs| && bs[i].row == b.row && forall j :: 0 <= j < i ==> bs[j].row != b.row
    ensures ToMap(bs[i := b]) == ToMap(bs)[b.row := b]
    decreases i
  {
    if i == 0 {
      assert bs[0 := b][1..] == bs[1..];
    } else {
      assert bs[i := b][1..] == bs[1..][i - 1 := b];
      ReplaceUpdates(bs[1..], i - 1, b);
      UpdatesCommute(ToMap(bs[1..]), bs[0], b);
    }
  }

  lemma {:induction false} InsertUpdates(bs: seq<RowBatch>, i: nat, b: RowBatch)
    requires i <= |bs| && forall j :: 0 <= j < i ==> bs[j].row != b.row
    ensures ToMap(bs[..i] + [b] + bs[i..]) == ToMap(bs)[b.row := b]
    decreases i
  {
    if i == 0 {
      assert bs[..0] + [b] + bs[0..] == [b] + bs;
    } else {
      assert (bs[..i] + [b] + bs[i..])[1..] == bs[1..][..i - 1] + [b] + bs[1..][i - 1..];
      InsertUpdates(bs[1..], i - 1, b);
      UpdatesCommute(ToMap(bs[1..]), bs[0], b);
    }
  }

  /** The rows of a sequence are the keys of its map. */
  lemma {:induction false} MapHolds(bs: seq<RowBatch>, r: nat)
    requires Ascending(bs)
    ensures r in ToMap(bs) ==> exists i :: 0 <= i < |bs| && bs[i].row == r && bs[i] == ToMap(bs)[r]
    ensures r in ToMap(bs) && bs != [] ==> bs[0].row <= r
    decreases |bs|
  {
    if bs != [] {
      MapHolds(bs[1..], r);
      if r in ToMap(bs) && r != bs[0].row {
        var i :| 0 <= i < |bs[1..]| && bs[1..][i].row == r && bs[1..][i] == ToMap(bs[1..])[r];
        assert bs[i + 1].row == r && bs[i + 1] == ToMap(bs)[r];
      }
    }
  }

  lemma {:induction false} NonEmptyMap(bs: seq<RowBatch>)
    ensures bs != [] ==> ToMap(bs) != map[]
  {
    if bs != [] {
      assert bs[0].row in ToMap(bs);
    }
  }

  /** The ascending sequence is determined by the map it stands for. */
  lemma {:induction false} AscendingIsCanonical(a: seq<RowBatch>, b: seq<RowBatch>)
    requires Ascending(a) && Ascending(b) && ToMap(a) == ToMap(b)
    ensures a == b
    decreases |a|
  {
    if a == [] {
      NonEmptyMap(b);
    } else {
      assert a[0].row in ToMap(a);
      assert b != [];
      assert b[0].row in ToMap(b);
      MapHolds(a, b[0].row);
      MapHolds(b, a[0].row);
      assert a[0] == b[0];
      TailMap(a);
      TailMap(b);
      AscendingIsCanonical(a[1..], b[1..]);
      assert a == [a[0]] + a[1..] && b == [b[0]] + b[1..];
    }
  }

  lemma {:induction false} TailMap(a: seq<RowBatch>)
    requires Ascending(a) && a != []
    ensures ToMap(a[1..]) == ToMap(a) - {a[0].row}
  {
    MapHolds(a[1..], a[0].row);
  }

  // ----- the merge -----

  /** The batches before i belong to rows below `bound`, the others to rows from it on. */
  ghost predicate SplitsAt(bs: seq<RowBatch>, i: nat, bound: nat) {
    && i <= |bs|
    && (forall j :: 0 <= j < i ==> bs[j].row < bound)
    && (forall j :: i <= j < |bs| ==> bound <= bs[j].row)
  }

  /** One delta of the merge: its batch replaces the one of the same row or goes in between. */
  function Merged(bs: seq<RowBatch>, i: nat, b: RowBatch): seq<RowBatch>
    requires i <= |bs|
  {
    if i < |bs| && bs[i].row == b.row then bs[i := b] else bs[..i] + [b] + bs[i..]
  }

  lemma {:induction false} MergeKeepsOrder(bs: seq<RowBatch>, i: nat, b: RowBatch, next: nat, bound: nat)
    requires Ascending(bs) && SplitsAt(bs, i, b.row) && next == i + 1 && bound == b.row + 1
    ensures Ascending(Merged(bs, i, b)) && SplitsAt(Merged(bs, i, b), next, bound)
  {
  }

  lemma {:induction false} MergeUpdates(bs: seq<RowBatch>, i: nat, b: RowBatch)
    requires SplitsAt(bs, i, b.row)
    ensures ToMap(Merged(bs, i, b)) == ToMap(bs)[b.row := b]
  {
    if i < |bs| && bs[i].row == b.row {
      ReplaceUpdates(bs, i, b);
    } else {
      InsertUpdates(bs, i, b);
    }
  }

  lemma {:induction false} AppendedRow(m: map<nat, RowBatch>, rows: seq<RowDelta>, k: nat)
    requires k < |rows|
    ensures m + RowsMap(rows[..k + 1]) == (m + RowsMap(rows[..k]))[rows[k].row := FilledRow(rows[k])]
  {
    assert rows[..k + 1][..k] == rows[..k];
  }

  lemma {:induction false} PrefixMap(bs: seq<RowBatch>, i: nat, n: nat, r: nat)
    requires Ascending(bs) && SplitsAt(bs, i, n)
    ensures r in ToMap(bs[..i]) <==> r in ToMap(bs) && r < n
    ensures r in ToMap(bs[..i]) ==> ToMap(bs[..i])[r] == ToMap(bs)[r]
    decreases i
  {
    if i == 0 {
      MapHolds(bs, r);
    } else {
      assert bs[..i][1..] == bs[1..][..i - 1];
      PrefixMap(bs[1..], i - 1, n, r);
    }
  }

  /** Cutting the list off drops the rows from the bound on, and only those. */
  lemma {:induction false} TruncationKeepsBelow(bs: seq<RowBatch>, i: nat, bound: nat)
    requires Ascending(bs) && SplitsAt(bs, i, bound)
    ensures ToMap(bs[..i]) == Below(ToMap(bs), bound)
  {
    forall r: nat
      ensures r in ToMap(bs[..i]) <==> r in Below(ToMap(bs), bound)
      ensures r in ToMap(bs[..i]) ==> ToMap(bs[..i])[r] == Below(ToMap(bs), bound)[r]
    {
      PrefixMap(bs, i, bound, r);
    }
  }

  class RenderCache {
    var batches: seq<RowBatch>
    var lastSequence: Option<nat>
    var pendingRebuild: bool

    ghost function State(): CacheModel
      reads this
    {
      CacheModel(ToMap(batches), lastSequence, pendingRebuild)
    }

    ghost predicate Valid()
      reads this
    {
      Ascending(batches)
    }

    constructor ()
      ensures Valid() && State() == CacheModel(map[], None, false)
    {
      batches := [];
      lastSequence := None;
      pendingRebuild := false;
    }

    /** Refill the batch at i if it is the delta's row, or insert a new one there. */
    method MergeRow(rd: RowDelta, i: nat)
      requires i <= |batches|
      modifies this`batches
      ensures batches == Merged(old(batches), i, FilledRow(rd))
    {
      if i < |batches| && batches[i].row == rd.row {
        var batch := FillBatch(batches[i].(runs := [], backgrounds := []), rd);
        assert batch == FilledRow(rd);
        batches := batches[i := batch];
      } else {
        var batch := FillBatch(RowBatch(rd.row, [], []), rd);
        assert batch == FilledRow(rd);
        batches := batches[..i] + [batch] + batches[i..];
      }
    }

    /** Skip the batches of rows before `row`. */
    method SkipTo(row: nat, from: nat) returns (i: nat)
      requires from <= |batches| && Ascending(batches) && forall j :: 0 <= j < from ==> batches[j].row < row
      ensures SplitsAt(batches, i, row)
    {
      i := from;
      while i < |batches| && batches[i].row < row
        invariant i <= |batches| && forall j :: 0 <= j < i ==> batches[j].row < row
      {
        i := i + 1;
      }
    }

    /** Merge a frame's rows into the retained batches in place. */
    method Rebuild(f: FrameDelta)
      requires Valid() && TopDown(f.rows)
      modifies this
      ensures Valid() && State() == Rebuilt(old(State()), f)
    {
      ghost var m := ToMap(batches);
      var oldI: nat := 0;
      ghost var bound: nat := 0;
      for k := 0 to |f.rows|
        invariant Ascending(batches) && SplitsAt(batches, oldI, bound)
        invariant k < |f.rows| ==> bound <= f.rows[k].row
        invariant bound == Bound(f.rows[..k])
        invariant ToMap(batches) == m + RowsMap(f.rows[..k])
      {
        var rd := f.rows[k];
        var i := SkipTo(rd.row, oldI);
        oldI, bound := i + 1, rd.row + 1;
        MergeKeepsOrder(batches, i, FilledRow(rd), oldI, bound);
        MergeUpdates(batches, i, FilledRow(rd));
        AppendedRow(m, f.rows, k);
        MergeRow(rd, i);
      }
      assert f.rows[..|f.rows|] == f.rows;
      if f.damage.Full? {
        TruncationKeepsBelow(batches, oldI, bound);
        batches := batches[..oldI];
      }
      lastSequence := Some(f.sequence);
      pendingRebuild := false;
    }

    /** `capacity` is what the list has room for without growing. */
    method ApplyFrame(f: FrameDelta, capacity: nat) returns (action: CacheAction)
      requires Valid() && TopDown(f.rows)
      modifies this
      ensures Valid() && (State(), action) == Applied(old(State()), f, capacity)
    {
      var needsAnimation := f.cursorVisible && f.cursorBlinking;
      if f.damage.Clean? && lastSequence == Some(f.sequence) {
        var needsRedraw := pendingRebuild || capacity < |f.rows|;
        if needsRedraw {
          Rebuild(f);
        }
        return CacheAction(needsRedraw, needsAnimation);
      }
      if !f.damage.Clean? || lastSequence.None? || pendingRebuild {
        Rebuild(f);
      }
      lastSequence := Some(f.sequence);
      return CacheAction(true, needsAnimation);
    }

    method ResetForFontChange()
      modifies this
      ensures Valid() && State() == Reset()
    {
      batches := [];
      lastSequence := None;
      pendingRebuild := true;
    }
  }

  // ----- whole runs -----

  datatype CacheEvent = Paint(frame: FrameDelta, capacity: nat) | FontChange

  function Run(c: CacheModel, events: seq<CacheEvent>): CacheModel {
    if events == [] then c
    else
      var d := Run(c, events[..|events| - 1]);
      match events[|events| - 1]
      case Paint(f, capacity) => Applied(d, f, capacity).0
      case FontChange => Reset()
  }

  /** The delta that describes a row after a run: the latest one since the last font change and
      the last full frame that ended above the row. */
  function LatestDelta(events: seq<CacheEvent>, row: nat): Option<RowDelta> {
    if events == [] then None
    else
      var earlier := events[..|events| - 1];
      match events[|events| - 1]
      case FontChange => None
      case Paint(f, _) =>
        var here := FindRow(f.rows, row);
        if here.Some? || (f.damage.Full? && row >= Bound(f.rows)) then here else LatestDelta(earlier, row)
  }

  /** Clean frames bring no rows, as the terminal emits them. */
  ghost predicate WellFormedFrame(f: FrameDelta) {
    TopDown(f.rows) && (f.damage.Clean? ==> f.rows == [])
  }

  ghost predicate WellFormedRun(events: seq<CacheEvent>) {
    forall i :: 0 <= i < |events| ==> events[i].Paint? ==> WellFormedFrame(events[i].frame)
  }

  lemma {:induction false} FindRowLast(init: seq<RowDelta>, last: RowDelta, row: nat)
    ensures FindRow(init + [last], row) ==
            if FindRow(init, row).Some? then FindRow(init, row) else if last.row == row then Some(last) else None
    decreases |init|
  {
    if init != [] {
      assert (init + [last])[1..] == init[1..] + [last];
      FindRowLast(init[1..], last, row);
    } else {
      assert ([] + [last])[1..] == [];
    }
  }

  lemma {:induction false} RowsMapFinds(rows: seq<RowDelta>, row: nat)
    requires DistinctRows(rows)
    ensures row in RowsMap(rows) <==> FindRow(rows, row).Some?
    ensures row in RowsMap(rows) ==> RowsMap(rows)[row] == FilledRow(FindRow(rows, row).value)
  {
    if rows != [] {
      var init, last := rows[..|rows| - 1], rows[|rows| - 1];
      assert rows == init + [last];
      RowsMapFinds(init, row);
      FindRowLast(init, last, row);
      NoEarlierRow(init, last);
    }
  }

  lemma {:induction false} NoEarlierRow(init: seq<RowDelta>, last: RowDelta)
    requires forall i :: 0 <= i < |init| ==> init[i].row != last.row
    ensures FindRow(init, last.row).None?
  {
    FindRowIsMember(init, last.row);
  }

  lemma {:induction false} DeltasLieBelow(rows: seq<RowDelta>, row: nat)
    requires TopDown(rows) && FindRow(rows, row).Some?
    ensures row < Bound(rows)
  {
    FindRowIsMember(rows, row);
    var rd := FindRow(rows, row).value;
    var i :| 0 <= i < |rows| && rows[i] == rd;
  }

  /** After any run of frames and font changes the cache holds, for each row, the fill of its
      latest delta, and no other row. */
  lemma {:induction false} CacheHoldsLatest(events: seq<CacheEvent>, row: nat)
    requires WellFormedRun(events)
    ensures var c := Run(CacheModel(map[], None, false), events);
            && (row in c.rows <==> LatestDelta(events, row).Some?)
            && (row in c.rows ==> c.rows[row] == FilledRow(LatestDelta(events, row).value))
  {
    if events != [] {
      var earlier := events[..|events| - 1];
      CacheHoldsLatest(earlier, row);
      match events[|events| - 1] {
        case FontChange =>
        case Paint(f, _) =>
          assert WellFormedFrame(f);
          RowsMapFinds(f.rows, row);
          if FindRow(f.rows, row).Some? {
            DeltasLieBelow(f.rows, row);
          }
      }
    }
  }

  /** Every frame asks for a repaint, except a clean one of the last sequence number when nothing is pending
      and its rows fit; and for an animation exactly while the cursor is visible and blinks. Afterwards its
      number is the last one and nothing is pending. */
  lemma {:induction false} ActionIs(c: CacheModel, f: FrameDelta, capacity: nat, after: CacheModel, action: CacheAction)
    requires (after, action) == Applied(c, f, capacity)
    ensures !action.needsRedraw <==>
            f.damage == Clean && c.lastSequence == Some(f.sequence) && !c.pendingRebuild && |f.rows| <= capacity
    ensures action.needsAnimation <==> f.cursorVisible && f.cursorBlinking
    ensures after.lastSequence == Some(f.sequence) && !after.pendingRebuild
  {
  }

  /** Clean frames never change the rows, whatever else is pending. */
  lemma {:induction false} CleanFramesKeepRows(c: CacheModel, f: FrameDelta, capacity: nat)
    requires f.damage.Clean? && WellFormedFrame(f)
    ensures Applied(c, f, capacity).0.rows == c.rows
    ensures Applied(c, f, capacity).1.needsRedraw == false <==> c.lastSequence == Some(f.sequence) && !c.pendingRebuild
  {
    assert c.rows + RowsMap([]) == c.rows;
  }

  /** A full frame leaves its own rows, and of the retained ones those above its last row that it
      does not bring: it leaves exactly its own rows if and only if there are none of these. */
  lemma {:induction false} FullFrameLeavesItsRows(c: CacheModel, f: FrameDelta, capacity: nat)
    requires f.damage.Full? && TopDown(f.rows)
    ensures Applied(c, f, capacity).0.rows == RowsMap(f.rows) <==>
            forall row: nat :: row in c.rows && row < Bound(f.rows) ==> FindRow(f.rows, row).Some?
  {
    var left := Applied(c, f, capacity).0.rows;
    forall row: nat
      ensures row in RowsMap(f.rows) <==> FindRow(f.rows, row).Some?
      ensures row in RowsMap(f.rows) ==> row < Bound(f.rows)
    {
      RowsMapFinds(f.rows, row);
      if FindRow(f.rows, row).Some? {
        DeltasLieBelow(f.rows, row);
      }
    }
    assert forall row: nat :: row in left <==> row < Bound(f.rows) && (row in c.rows || row in RowsMap(f.rows));
    if forall row: nat :: row in c.rows && row < Bound(f.rows) ==> FindRow(f.rows, row).Some? {
      assert left.Keys == RowsMap(f.rows).Keys;
    }
  }

  /** A new cache, a partial frame of row 0, and then a full frame that brings only row 1: row 0
      stays. */
  lemma {:induction false} FullFrameCanKeepRow(first: FrameDelta, full: FrameDelta, capacity: nat)
    requires first.damage.Partial? && first.rows == [RowDelta(0, 1, [], [])]
    requires full.damage.Full? && full.rows == [RowDelta(1, 1, [], [])]
    ensures var c := Run(CacheModel(map[], None, false), [Paint(first, capacity), Paint(full, capacity)]);
            0 in c.rows && 0 !in RowsMap(full.rows)
  {
    var events := [Paint(first, capacity), Paint(full, capacity)];
    assert events[..1] == [Paint(first, capacity)];
    assert LatestDelta(events[..1], 0) == FindRow(first.rows, 0);
    CacheHoldsLatest(events, 0);
    RowsMapFinds(full.rows, 0);
  }

  /** The frames that the terminal emits as full bring every row of the grid, so nothing else stays. */
  lemma {:induction false} CompleteFrameReplacesAll(c: CacheModel, f: FrameDelta, capacity: nat)
    requires f.damage.Full? && |f.rows| == f.size.rows && forall i :: 0 <= i < |f.rows| ==> f.rows[i].row == i
    ensures Applied(c, f, capacity).0.rows == RowsMap(f.rows)
    ensures forall row: nat :: row in RowsMap(f.rows) <==> row < f.size.rows
    ensures forall row: nat :: row < f.size.rows ==> RowsMap(f.rows)[row] == FilledRow(f.rows[row])
  {
    forall row: nat
      ensures FindRow(f.rows, row).Some? <==> row < f.size.rows
      ensures row in RowsMap(f.rows) <==> row < f.size.rows
      ensures row < f.size.rows ==> RowsMap(f.rows)[row] == FilledRow(f.rows[row])
    {
      RowsMapFinds(f.rows, row);
      FindRowIsMember(f.rows, row);
      if row < f.size.rows {
        FindRowFinds(f.rows, f.rows[row]);
      }
    }
    FullFrameLeavesItsRows(c, f, capacity);
  }
}
