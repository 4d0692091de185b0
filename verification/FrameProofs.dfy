/** What each kind of frame does to the cells of the grid, to the schedule and to what is shown. */
module FrameProofs {
  import opened Basics
  import opened Terminal
  import opened Schedule
  import opened TrackerSpec
  import opened TrackerProofs
  import opened SlotProofs
  import opened EffectsSpec
  import opened EffectsProofs
  import opened OrderProofs

  // ----- bypassed frames -----

  /** The k-th delta is the last one that brings the cell. */
  ghost predicate BringsLast(rows: seq<RowDelta>, k: nat, row: nat, col: nat) {
    k < |rows| && Brings(rows[k], row, col) && forall j :: k < j < |rows| ==> !Brings(rows[j], row, col)
  }

  /** Every delta that brings the cell shows the same key there. */
  ghost predicate AllShow(rows: seq<RowDelta>, row: nat, col: nat, key: bv64) {
    forall k :: 0 <= k < |rows| && Brings(rows[k], row, col) ==> RenderKey(rows[k].cells[col]) == key
  }

  ghost predicate NoneBrings(rows: seq<RowDelta>, row: nat, col: nat) {
    forall k :: 0 <= k < |rows| ==> !Brings(rows[k], row, col)
  }

  /** A cell takes the key that the deltas end with. */
  ghost predicate TakesKey(t: Tracker, u: Tracker, rows: seq<RowDelta>, row: nat, col: nat)
    requires t.WellFormed() && u.WellFormed() && Tracks(t, row, col) && Tracks(u, row, col)
  {
    && (forall k: nat :: BringsLast(rows, k, row, col) ==> KeyAt(u, row, col) == RenderKey(rows[k].cells[col]))
    && (NoneBrings(rows, row, col) ==> KeyAt(u, row, col) == KeyAt(t, row, col))
  }

  /** It keeps its time if no delta shows another key there, and has none otherwise. */
  ghost predicate KeepsTimeIfSame(t: Tracker, u: Tracker, rows: seq<RowDelta>, row: nat, col: nat)
    requires t.WellFormed() && u.WellFormed() && Tracks(t, row, col) && Tracks(u, row, col)
  {
    TimeAt(u, row, col) == if AllShow(rows, row, col, KeyAt(t, row, col)) then TimeAt(t, row, col) else NEVER_MS
  }

  lemma {:induction false} FirstAndRest(rows: seq<RowDelta>, rest: seq<RowDelta>, row: nat, col: nat, key: bv64)
    requires rows != [] && rest == rows[1..]
    ensures NoneBrings(rows, row, col) <==> !Brings(rows[0], row, col) && NoneBrings(rest, row, col)
    ensures AllShow(rows, row, col, key) <==>
            AllShow(rest, row, col, key) && (Brings(rows[0], row, col) ==> RenderKey(rows[0].cells[col]) == key)
    ensures forall k: nat :: BringsLast(rows, k, row, col) ==>
              if k == 0 then NoneBrings(rest, row, col) else BringsLast(rest, k - 1, row, col)
  {
    assert rows == [rows[0]] + rest;
    assert forall k :: 0 <= k < |rest| ==> rest[k] == rows[k + 1];
    forall k: nat | BringsLast(rows, k, row, col)
      ensures if k == 0 then NoneBrings(rest, row, col) else BringsLast(rest, k - 1, row, col)
    {
      LastInRest(rows, rest, row, col, k);
    }
  }

  lemma {:induction false} LastInRest(rows: seq<RowDelta>, rest: seq<RowDelta>, row: nat, col: nat, k: nat)
    requires rows != [] && rest == rows[1..] && BringsLast(rows, k, row, col)
    ensures if k == 0 then NoneBrings(rest, row, col) else BringsLast(rest, k - 1, row, col)
  {
    assert forall j :: 0 <= j < |rest| ==> rest[j] == rows[j + 1];
  }

  lemma {:induction false} SyncedRowsCell(t: Tracker, rows: seq<RowDelta>, row: nat, col: nat, u: Tracker)
    requires t.WellFormed() && Tracks(t, row, col) && u == BypassRows(t, rows, false)
    ensures SameGrid(u, t) && Tracks(u, row, col) && TakesKey(t, u, rows, row, col) && KeepsTimeIfSame(t, u, rows, row, col)
    decreases |rows|
  {
    if rows != [] {
      var t1, rest := BypassRow(t, rows[0], false), rows[1..];
      BypassedCell(t, rows[0], false, row, col, t1);
      SyncedRowsCell(t1, rest, row, col, u);
      FirstAndRest(rows, rest, row, col, KeyAt(t, row, col));
    }
  }

  lemma {:induction false} AdoptedRowsCell(t: Tracker, rows: seq<RowDelta>, row: nat, col: nat, u: Tracker)
    requires t.WellFormed() && Tracks(t, row, col) && u == BypassRows(t, rows, true)
    ensures SameGrid(u, t) && Tracks(u, row, col) && TakesKey(t, u, rows, row, col)
    decreases |rows|
  {
    if rows != [] {
      var t1, rest := BypassRow(t, rows[0], true), rows[1..];
      BypassedCell(t, rows[0], true, row, col, t1);
      AdoptedRowsCell(t1, rest, row, col, u);
      FirstAndRest(rows, rest, row, col, KeyAt(t, row, col));
    }
  }

  /** What a frame does, in terms of its text part. */
  ghost predicate FrameStep(m: Model, t: Tracker, f: FrameDelta, nowMs: nat, trailActive: bool, now: real, t0: Tracker, r: Model, u: Tracker) {
    && m.WellFormed() && m.tracker == Some(t) && now == Max(m.lastNow, nowMs as real)
    && t0 == (if f.size == m.size then t else Resize(t, f.size.cols, f.size.rows, now))
    && r == ApplyFrame(m, f, nowMs, trailActive) && r.tracker == Some(u)
  }

  lemma {:induction false} FrameIsTextStep(m: Model, t: Tracker, f: FrameDelta, nowMs: nat, trailActive: bool, now: real, t0: Tracker,
                                           r: Model, u: Tracker)
    requires FrameStep(m, t, f, nowMs, trailActive, now, t0, r, u)
    ensures t0.WellFormed() && u.WellFormed() && (u, r.schedule) == TextStep(m, t0, f, now)
    ensures r.frame == TextFrame(m, u, f, now, trailActive)
    ensures r.size == f.size && r.lastHistory == Some(f.historyRows) && r.lastNow == now && r.config == m.config
  {
  }

  /** A large frame that is not a full one: more than sixteen deltas on an unchanged main screen. */
  predicate IsLarge(m: Model, f: FrameDelta) {
    !f.damage.Full? && !f.alternateScreen && f.size == m.size && |f.rows| > 16
  }

  lemma {:induction false} LargeTextStep(m: Model, t: Tracker, f: FrameDelta, now: real)
    requires t.WellFormed() && IsLarge(m, f)
    ensures TextStep(m, t, f, now) == (SyncRows(t, f.rows), m.schedule)
  {
  }

  /** A large frame stamps nothing and takes no slot, and reveals under way go on: a cell keeps its
      time unless the frame brings it with another content. */
  lemma {:induction false} LargeFrameSynchronises(m: Model, t: Tracker, f: FrameDelta, nowMs: nat, trailActive: bool, now: real, t0: Tracker,
                                                  r: Model, u: Tracker, row: nat, col: nat)
    requires FrameStep(m, t, f, nowMs, trailActive, now, t0, r, u) && IsLarge(m, f) && Tracks(t, row, col)
    ensures r.schedule == m.schedule && u.WellFormed() && SameGrid(u, t) && Tracks(u, row, col)
    ensures TakesKey(t, u, f.rows, row, col) && KeepsTimeIfSame(t, u, f.rows, row, col)
  {
    var synced := BypassRows(t, f.rows, false);
    FrameIsTextStep(m, t, f, nowMs, trailActive, now, t0, r, u);
    LargeTextStep(m, t, f, now);
    SyncedRowsCell(t, f.rows, row, col, synced);
    SameTimes(synced, u, row, col);
  }

  lemma {:induction false} SameTimes(a: Tracker, b: Tracker, row: nat, col: nat)
    requires a.WellFormed() && b == a.(last := b.last) && Tracks(a, row, col)
    ensures b.WellFormed() && SameGrid(a, b) && Tracks(b, row, col)
    ensures KeyAt(a, row, col) == KeyAt(b, row, col) && TimeAt(a, row, col) == TimeAt(b, row, col)
  {
  }

  /** A frame that invalidates what is on screen: the alternate screen, another size, or a full frame
      that is the first one. */
  predicate IsFresh(m: Model, f: FrameDelta) {
    f.alternateScreen || f.size != m.size || (f.damage.Full? && m.lastHistory.None?)
  }

  lemma {:induction false} FreshTextStep(m: Model, t: Tracker, f: FrameDelta, now: real)
    requires t.WellFormed() && IsFresh(m, f)
    ensures TextStep(m, t, f, now)
         == (AdoptRows(ClearChanges(t), f.rows), if f.damage.Full? then Burst.Fresh(Stagger(m.config)) else m.schedule)
  {
  }

  /** Such a frame only takes over what it brings: no cell has a time afterwards, so nothing is listed
      and nothing but the trail asks for a frame; a full one also starts a new schedule. */
  lemma {:induction false} FreshFrameAdopts(m: Model, t: Tracker, f: FrameDelta, nowMs: nat, trailActive: bool, now: real, t0: Tracker,
                                            r: Model, u: Tracker, row: nat, col: nat)
    requires FrameStep(m, t, f, nowMs, trailActive, now, t0, r, u) && IsFresh(m, f) && Tracks(t0, row, col)
    ensures u.WellFormed() && t0.WellFormed() && SameGrid(u, t0) && Tracks(u, row, col)
    ensures TakesKey(t0, u, f.rows, row, col) && TimeAt(u, row, col) == NEVER_MS
    ensures r.schedule == if !f.damage.Full? then m.schedule
                          else Burst(NEVER_MS, NEVER_MS, if m.config.textAnimation == Typewriter then m.config.durationMs as real / 8.0 else 0.0)
    ensures r.frame.revealing == [] && r.frame.pending == [] && !r.frame.textRevealAllowed && r.frame.needsFrame == trailActive
  {
    var c := ClearChanges(t0);
    var adopted := BypassRows(c, f.rows, true);
    FrameIsTextStep(m, t, f, nowMs, trailActive, now, t0, r, u);
    FreshTextStep(m, t0, f, now);
    ClearedAdoptionAgrees(t0, f.rows);
    ClearedCell(t0, row, col);
    AdoptedRowsCell(c, f.rows, row, col, adopted);
    SameTimes(adopted, u, row, col);
    CellAt(u, row, col, u.Base(row) + col);
    NothingToList(u, m.config.textAnimation, m.config.durationMs as real, now);
  }

  lemma {:induction false} ClearedCell(t: Tracker, row: nat, col: nat)
    requires t.WellFormed() && Tracks(t, row, col)
    ensures var c := ClearChanges(t);
            c.WellFormed() && SameGrid(c, t) && Tracks(c, row, col) && KeyAt(c, row, col) == KeyAt(t, row, col)
  {
  }

  // ----- scrolls -----

  /** A delta shows the row below its own. */
  ghost predicate ShowsBelow(t: Tracker, rd: RowDelta)
    requires t.WellFormed()
  {
    && rd.row + 1 < t.rows && |rd.cells| >= t.cols
    && forall col: nat :: col < t.cols ==> Tracks(t, rd.row + 1, col) && RenderKey(rd.cells[col]) == KeyAt(t, rd.row + 1, col)
  }

  /** A full frame of the unchanged main screen whose scrollback grew by one row or not at all, and whose
      deltas but the last one show what was one row further down. */
  ghost predicate IsScroll(m: Model, t: Tracker, f: FrameDelta)
    requires t.WellFormed()
  {
    && f.damage.Full? && !f.alternateScreen && f.size == m.size && m.lastHistory.Some?
    && (f.historyRows == m.lastHistory.value || f.historyRows == m.lastHistory.value + 1 < 0x1_0000_0000)
    && t.cap == t.cols * t.rows && |f.rows| == t.rows
    && forall i :: 0 <= i < |f.rows| - 1 ==> ShowsBelow(t, f.rows[i])
  }

  lemma {:induction false} ShowsBelowIs(t: Tracker, rd: RowDelta)
    requires t.WellFormed() && t.cap == t.cols * t.rows
    ensures ShowsRowBelow(t, rd) <==> ShowsBelow(t, rd)
  {
    if rd.row + 1 < t.rows && |rd.cells| >= t.cols {
      var below := rd.row + 1;
      forall col: nat | col < t.cols ensures Tracks(t, below, col) && KeyAt(t, below, col) == t.snapshot[below * t.cols + col] {
        SpanInGrid(t, below, col);
      }
    }
  }

  lemma {:induction false} ScrollIsRecognised(m: Model, t: Tracker, f: FrameDelta)
    requires t.WellFormed()
    ensures CanTranslate(m, t, f) <==> IsScroll(m, t, f)
  {
    if t.cap == t.cols * t.rows {
      forall rd | rd in f.rows ensures ShowsRowBelow(t, rd) <==> ShowsBelow(t, rd) {
        ShowsBelowIs(t, rd);
      }
    }
  }

  /** In a scroll every row takes over the keys and times of the row below it. */
  lemma {:induction false} ScrollMovesCells(m: Model, t: Tracker, f: FrameDelta, nowMs: nat, trailActive: bool, now: real, t0: Tracker,
                                            r: Model, u: Tracker, row: nat, below: nat, col: nat)
    requires FrameStep(m, t, f, nowMs, trailActive, now, t0, r, u) && IsScroll(m, t, f) && t.rows == f.size.rows
    requires below == row + 1 && Tracks(t, row, col) && Tracks(t, below, col)
    ensures u.WellFormed() && Tracks(u, row, col)
    ensures KeyAt(u, row, col) == KeyAt(t, below, col) && TimeAt(u, row, col) == TimeAt(t, below, col)
  {
    FrameIsTextStep(m, t, f, nowMs, trailActive, now, t0, r, u);
    ScrollIsRecognised(m, t, f);
    ScrolledCell(m, t, f, now, row, col, u);
  }

  // ----- animated rows -----

  /** The rows of the animated region; its end wraps around at sixteen bits. */
  predicate InAnimation(region: Option<AnimationRegion>, row: nat) {
    region.Some? && region.value.row <= row < (region.value.row + region.value.rows) % 0x1_0000
  }

  /** What a row of the grid may find in a frame: a delta outside the animated region that is new to it. */
  predicate IsAnimated(t: Tracker, f: FrameDelta, row: nat)
    requires t.WellFormed() && row < t.rows
  {
    var found := FindRow(f.rows, row);
    found.Some? && !InAnimation(f.animationRegion, row) && t.generations[row] != found.value.generation
  }

  /** Units and repeats under the typewriter, units alone in a repaint, and cells when streaming. */
  function PolicyOf(config: EffectsConfig, repaint: bool): Policy {
    if repaint then DrawableUnits
    else if config.textAnimation == Typewriter && config.durationMs > 0 then DrawableUnitsAndRepeat
    else EveryChangedCell
  }

  lemma {:induction false} UpdateLeavesRow(t: Tracker, s: Burst, rd: RowDelta, now: real, policy: Policy, q: nat, t': Tracker)
    requires t.WellFormed() && t' == UpdateRow(t, s, rd, now, policy).0 && (q != rd.row || !IsNew(t, rd))
    ensures SameRow(t, t', q)
  {
    if IsNew(t, rd) {
      var cs, keys, s' := Tracked(t, rd), StoredKeys(t, rd), UpdateRow(t, s, rd, now, policy).1;
      UpdateShape(t, s, rd, now, policy, cs, keys, PassFor(policy, keys, cs), t', s', HeadsIn(t, rd, policy));
      forall col: nat | Tracks(t, q, col) ensures KeyAt(t, q, col) == KeyAt(t', q, col) && TimeAt(t, q, col) == TimeAt(t', q, col) {
        UpdateElsewhere(t, s, rd, now, policy, cs, keys, PassFor(policy, keys, cs), t', s', q, col);
      }
    }
  }

  lemma {:induction false} UpdatedAlike(a: Tracker, b: Tracker, s: Burst, rd: RowDelta, now: real, policy: Policy,
                                        cs: seq<Cell>, keys: seq<bv64>, pass: Pass, a': Tracker, b': Tracker, col: nat)
    requires SameRow(a, b, rd.row)
    requires Update(a, s, rd, now, policy, cs, keys, pass, a', UpdateRow(a, s, rd, now, policy).1)
    requires Update(b, s, rd, now, policy, cs, keys, pass, b', UpdateRow(b, s, rd, now, policy).1)
    requires a'.WellFormed() && b'.WellFormed() && SameGrid(a, a') && SameGrid(b, b') && Tracks(a', rd.row, col)
    ensures Tracks(b', rd.row, col) && KeyAt(a', rd.row, col) == KeyAt(b', rd.row, col) && TimeAt(a', rd.row, col) == TimeAt(b', rd.row, col)
  {
    var sa, sb := UpdateRow(a, s, rd, now, policy).1, UpdateRow(b, s, rd, now, policy).1;
    assert Tracks(a, rd.row, col) && Tracks(b, rd.row, col);
    if col < |cs| {
      UpdatedCell(a, s, rd, now, policy, cs, keys, pass, a', sa, col);
      UpdatedCell(b, s, rd, now, policy, cs, keys, pass, b', sb, col);
    } else {
      UpdateElsewhere(a, s, rd, now, policy, cs, keys, pass, a', sa, rd.row, col);
      UpdateElsewhere(b, s, rd, now, policy, cs, keys, pass, b', sb, rd.row, col);
    }
  }

  /** What an update makes of a row depends on nothing but the row. */
  lemma {:induction false} UpdateRespectsRow(a: Tracker, b: Tracker, s: Burst, rd: RowDelta, now: real, policy: Policy, a': Tracker, b': Tracker)
    requires SameRow(a, b, rd.row) && IsNew(a, rd)
    requires a' == UpdateRow(a, s, rd, now, policy).0 && b' == UpdateRow(b, s, rd, now, policy).0
    ensures SameRow(a', b', rd.row)
  {
    var cs, keys := Tracked(a, rd), StoredKeys(a, rd);
    var pass, heads := PassFor(policy, keys, cs), HeadsIn(a, rd, policy);
    SameStoredKeys(a, b, rd);
    UpdateShape(a, s, rd, now, policy, cs, keys, pass, a', UpdateRow(a, s, rd, now, policy).1, heads);
    UpdateShape(b, s, rd, now, policy, cs, keys, pass, b', UpdateRow(b, s, rd, now, policy).1, heads);
    forall col: nat | Tracks(a', rd.row, col)
      ensures KeyAt(a', rd.row, col) == KeyAt(b', rd.row, col) && TimeAt(a', rd.row, col) == TimeAt(b', rd.row, col)
    {
      UpdatedAlike(a, b, s, rd, now, policy, cs, keys, pass, a', b', col);
    }
  }

  /** A row further down, seen from behind the visit of row `from`. */
  lemma {:induction false} RowBelow(t: Tracker, s: Burst, f: FrameDelta, from: nat, next: nat, now: real, policy: Policy,
                                    t1: Tracker, s1: Burst, row: nat, rd: RowDelta, at: Burst) returns (j: nat)
    requires t.WellFormed() && next == from + 1 <= row && (t1, s1) == VisitRow(t, s, f, from, now, policy)
    requires Animated(t, f, row) == Some(rd) && at == s.Consumed(UnitsAbove(t, f, policy, from, row))
    ensures Animated(t1, f, row) == Some(rd) && j == UnitsAbove(t1, f, policy, next, row)
    ensures s1.stagger == s.stagger && at == s1.Consumed(j)
    ensures SameRow(UpdateRow(t, at, rd, now, policy).0, UpdateRow(t1, at, rd, now, policy).0, row)
  {
    j := UnitsAbove(t1, f, policy, next, row);
    VisitTakesSlots(t, s, f, from, now, policy, t1, s1);
    SameUnits(t, t1, f, policy, row);
    SameUnitsAbove(t, t1, f, policy, next, row);
    UnitsAboveStep(t, f, policy, from, next, row);
    SlotsGoOn(s, |UnitsIn(t, f, policy, from)|, s1, j, UnitsAbove(t, f, policy, from, row));
    UpdateRespectsRow(t, t1, at, rd, now, policy, UpdateRow(t, at, rd, now, policy).0, UpdateRow(t1, at, rd, now, policy).0);
  }

  lemma {:induction false} VisitIsUpdate(t: Tracker, s: Burst, f: FrameDelta, row: nat, now: real, policy: Policy, rd: RowDelta)
    requires t.WellFormed() && Animated(t, f, row) == Some(rd)
    ensures VisitRow(t, s, f, row, now, policy) == UpdateRow(t, s, rd, now, policy)
  {
  }

  /** A visited row ends as if it alone had been updated, with the schedule that the rows above leave. */
  lemma {:induction false} VisitedRow(t: Tracker, s: Burst, f: FrameDelta, from: nat, rows: nat, now: real, reconcile: bool,
                                      policy: Policy, row: nat, rd: RowDelta, at: Burst, last: Tracker)
    requires t.WellFormed() && from <= row < rows && policy == PolicyFor(s, reconcile)
    requires Animated(t, f, row) == Some(rd) && at == s.Consumed(UnitsAbove(t, f, policy, from, row))
    requires last == VisitRows(t, s, f, from, rows, now, reconcile).0
    ensures SameRow(UpdateRow(t, at, rd, now, policy).0, last, row)
    decreases rows - from
  {
    var next := from + 1;
    var (t1, s1) := VisitRow(t, s, f, from, now, policy);
    VisitRowsGoOn(t, s, f, from, next, rows, now, reconcile, policy, t1, s1, last);
    if from == row {
      VisitIsUpdate(t, s, f, row, now, policy, rd);
      RowsStay(t1, s1, f, next, rows, now, reconcile, row);
    } else {
      var j := RowBelow(t, s, f, from, next, now, policy, t1, s1, row, rd, at);
      VisitedRow(t1, s1, f, next, rows, now, reconcile, policy, row, rd, at, last);
      SameRowChain(UpdateRow(t, at, rd, now, policy).0, UpdateRow(t1, at, rd, now, policy).0, last, row);
    }
  }

  lemma {:induction false} StreamLeavesRow(t: Tracker, s: Burst, rows: seq<RowDelta>, region: Option<AnimationRegion>, now: real, row: nat)
    requires t.WellFormed() && forall i :: 0 <= i < |rows| ==> rows[i].row != row || InRegion(row, region)
    ensures SameRow(t, StreamRows(t, s, rows, region, now).0, row)
    decreases |rows|
  {
    if rows != [] {
      var rd, rest := rows[0], rows[1..];
      assert forall i :: 0 <= i < |rest| ==> rest[i] == rows[i + 1];
      if InRegion(rd.row, region) {
        StreamLeavesRow(t, s, rest, region, now, row);
      } else {
        var (t1, s1) := UpdateRow(t, s, rd, now, UpdatePolicy(s));
        UpdateLeavesRow(t, s, rd, now, UpdatePolicy(s), row, t1);
        StreamLeavesRow(t1, s1, rest, region, now, row);
        SameRowChain(t, t1, StreamRows(t1, s1, rest, region, now).0, row);
      }
    }
  }

  /** The same for a frame whose rows are taken in the order of delivery, by an idle schedule. */
  lemma {:induction false} StreamedRow(t: Tracker, s: Burst, rows: seq<RowDelta>, region: Option<AnimationRegion>, now: real,
                                       row: nat, rd: RowDelta)
    requires t.WellFormed() && !s.Active() && DistinctRows(rows) && FindRow(rows, row) == Some(rd)
    requires rd.row == row && !InRegion(row, region) && IsNew(t, rd)
    ensures SameRow(UpdateRow(t, s, rd, now, UpdatePolicy(s)).0, StreamRows(t, s, rows, region, now).0, row)
    decreases |rows|
  {
    var first, rest, policy := rows[0], rows[1..], UpdatePolicy(s);
    assert forall i :: 0 <= i < |rest| ==> rest[i] == rows[i + 1];
    var t1 := if InRegion(first.row, region) then t else UpdateRow(t, s, first, now, policy).0;
    var last := StreamRows(t1, s, rest, region, now).0;
    IdleScheduleStays(t, s, first, now);
    assert StreamRows(t, s, rows, region, now).0 == last;
    if first.row == row {
      StreamLeavesRow(t1, s, rest, region, now, row);
    } else {
      UpdateLeavesRow(t, s, first, now, policy, row, UpdateRow(t, s, first, now, policy).0);
      assert SameRow(t, t1, row);
      StreamedRow(t1, s, rest, region, now, row, rd);
      var one, two := UpdateRow(t, s, rd, now, policy).0, UpdateRow(t1, s, rd, now, policy).0;
      UpdateRespectsRow(t, t1, s, rd, now, policy, one, two);
      SameRowChain(one, two, last, row);
    }
  }

  /** A frame that animates what it brings: on the unchanged main screen, not the first full one and no
      scroll, and if not full with at most sixteen deltas. */
  ghost predicate Animates(m: Model, t: Tracker, f: FrameDelta)
    requires t.WellFormed()
  {
    && !f.alternateScreen && f.size == m.size
    && if f.damage.Full? then m.lastHistory.Some? && !IsScroll(m, t, f) else |f.rows| <= 16
  }

  /** The schedule that such a frame begins with; a full one starts anew. */
  function BegunBy(m: Model, f: FrameDelta, now: real): Burst {
    var s := if f.damage.Full?
             then Burst(NEVER_MS, NEVER_MS, if m.config.textAnimation == Typewriter then m.config.durationMs as real / 8.0 else 0.0)
             else m.schedule;
    s.Begin(now, m.config.durationMs as real)
  }

  lemma {:induction false} AnimatingTextStep(m: Model, t: Tracker, f: FrameDelta, now: real)
    requires t.WellFormed() && Animates(m, t, f)
    ensures TextStep(m, t, f, now) ==
            if f.damage.Full? || m.config.textAnimation == Typewriter
            then VisitRows(t, BegunBy(m, f, now), f, 0, f.size.rows, now, f.damage.Full?)
            else StreamRows(t, BegunBy(m, f, now), f.rows, f.animationRegion, now)
  {
    ScrollIsRecognised(m, t, f);
  }

  lemma {:induction false} BegunPolicy(m: Model, f: FrameDelta, now: real, begun: Burst)
    requires Invariant(m) && begun == BegunBy(m, f, now)
    ensures PolicyFor(begun, f.damage.Full?) == PolicyOf(m.config, f.damage.Full?)
    ensures begun.stagger == if m.config.textAnimation == Typewriter then m.config.durationMs as real / 8.0 else 0.0
    ensures begun.Active() <==> m.config.textAnimation == Typewriter && m.config.durationMs > 0
  {
  }

  lemma {:induction false} AnimatedIs(t: Tracker, f: FrameDelta, row: nat)
    requires t.WellFormed() && row < t.rows
    ensures Animated(t, f, row) == if IsAnimated(t, f, row) then FindRow(f.rows, row) else None
  {
    FindRowIsMember(f.rows, row);
  }

  lemma {:induction false} StreamedUnanimated(t: Tracker, s: Burst, rows: seq<RowDelta>, region: Option<AnimationRegion>, now: real, row: nat)
    requires t.WellFormed() && row < t.rows && DistinctRows(rows)
    requires FindRow(rows, row).Some? && !InRegion(row, region) ==> FindRow(rows, row).value.generation == t.generations[row]
    ensures SameRow(t, StreamRows(t, s, rows, region, now).0, row)
    decreases |rows|
  {
    if InRegion(row, region) || FindRow(rows, row).None? {
      FindRowIsMember(rows, row);
      StreamLeavesRow(t, s, rows, region, now, row);
    } else {
      var first, rest := rows[0], rows[1..];
      assert forall i :: 0 <= i < |rest| ==> rest[i] == rows[i + 1];
      if InRegion(first.row, region) {
        StreamedUnanimated(t, s, rest, region, now, row);
      } else {
        var (t1, s1) := UpdateRow(t, s, first, now, UpdatePolicy(s));
        UpdateLeavesRow(t, s, first, now, UpdatePolicy(s), row, t1);
        if first.row == row {
          StreamLeavesRow(t1, s1, rest, region, now, row);
        } else {
          StreamedUnanimated(t1, s1, rest, region, now, row);
        }
        SameRowChain(t, t1, StreamRows(t1, s1, rest, region, now).0, row);
      }
    }
  }

  /** A row that the frame brings nothing new for, or that an animation of its own keeps busy, is left alone. */
  lemma {:induction false} RowIsLeftAlone(m: Model, t: Tracker, f: FrameDelta, nowMs: nat, trailActive: bool, now: real, t0: Tracker,
                                          r: Model, u: Tracker, row: nat)
    requires FrameStep(m, t, f, nowMs, trailActive, now, t0, r, u) && Animates(m, t, f) && row < t.rows
    requires f.damage.Full? || m.config.textAnimation == Typewriter || DistinctRows(f.rows)
    requires !IsAnimated(t, f, row)
    ensures SameRow(t, u, row)
  {
    FrameIsTextStep(m, t, f, nowMs, trailActive, now, t0, r, u);
    AnimatingTextStep(m, t, f, now);
    AnimatedIs(t, f, row);
    var begun := BegunBy(m, f, now);
    if f.damage.Full? || m.config.textAnimation == Typewriter {
      UnanimatedStays(t, begun, f, 0, f.size.rows, now, f.damage.Full?, row);
    } else {
      StreamedUnanimated(t, begun, f.rows, f.animationRegion, now, row);
    }
  }

  /** Any other row ends exactly as if it alone had been updated, under the policy for the kind of frame,
      with the schedule that the rows above it leave. */
  lemma {:induction false} RowIsAnimated(m: Model, t: Tracker, f: FrameDelta, nowMs: nat, trailActive: bool, now: real, t0: Tracker,
                                         r: Model, u: Tracker, row: nat, policy: Policy, at: Burst)
    requires FrameStep(m, t, f, nowMs, trailActive, now, t0, r, u) && Invariant(m) && Animates(m, t, f) && row < t.rows
    requires f.damage.Full? || m.config.textAnimation == Typewriter || DistinctRows(f.rows)
    requires IsAnimated(t, f, row) && policy == PolicyOf(m.config, f.damage.Full?)
    requires at == BegunBy(m, f, now).Consumed(UnitsAbove(t, f, policy, 0, row))
    ensures SameRow(UpdateRow(t, at, FindRow(f.rows, row).value, now, policy).0, u, row)
  {
    FrameIsTextStep(m, t, f, nowMs, trailActive, now, t0, r, u);
    AnimatingTextStep(m, t, f, now);
    AnimatedIs(t, f, row);
    FindRowIsMember(f.rows, row);
    var begun, rd := BegunBy(m, f, now), FindRow(f.rows, row).value;
    BegunPolicy(m, f, now, begun);
    if f.damage.Full? || m.config.textAnimation == Typewriter {
      VisitedRow(t, begun, f, 0, f.size.rows, now, f.damage.Full?, policy, row, rd, at, u);
    } else {
      StreamedRow(t, begun, f.rows, f.animationRegion, now, row, rd);
    }
  }

  lemma {:induction false} UnitIsTimed(m: Model, t: Tracker, f: FrameDelta, now: real, u: Tracker, s': Burst, begun: Burst,
                                       policy: Policy, row: nat, k: nat, x: nat, slot: nat)
    requires t.WellFormed() && Animates(m, t, f) && m.config.textAnimation == Typewriter
    requires (u, s') == TextStep(m, t, f, now) && begun == BegunBy(m, f, now) && begun.Active()
    requires policy == PolicyFor(begun, f.damage.Full?) && row < f.size.rows
    requires InUnit(t, f, policy, row, k, x) && slot == UnitsAbove(t, f, policy, 0, row) + k
    ensures u.WellFormed() && Tracks(u, row, x) && TimeAt(u, row, x) == begun.Slot(slot)
  {
    AnimatingTextStep(m, t, f, now);
    UnitTakesSlot(t, begun, f, 0, f.size.rows, now, f.damage.Full?, policy, row, k, x, slot);
  }

  /** Under the typewriter the units of a frame are timed one eighth of the duration apart, in reading
      order, from where the schedule begins. */
  lemma {:induction false} UnitsAreAnEighthApart(m: Model, t: Tracker, f: FrameDelta, nowMs: nat, trailActive: bool, now: real, t0: Tracker,
                                                 r: Model, u: Tracker, begun: Burst, policy: Policy, row: nat, k: nat, x: nat,
                                                 slot: nat)
    requires FrameStep(m, t, f, nowMs, trailActive, now, t0, r, u) && Invariant(m) && Animates(m, t, f)
    requires m.config.textAnimation == Typewriter && m.config.durationMs > 0
    requires begun == BegunBy(m, f, now) && policy == PolicyOf(m.config, f.damage.Full?)
    requires row < f.size.rows && InUnit(t, f, policy, row, k, x) && slot == UnitsAbove(t, f, policy, 0, row) + k
    ensures begun.stagger == m.config.durationMs as real / 8.0
    ensures u.WellFormed() && Tracks(u, row, x) && TimeAt(u, row, x) == begun.next + slot as real * begun.stagger
  {
    FrameIsTextStep(m, t, f, nowMs, trailActive, now, t0, r, u);
    BegunPolicy(m, f, now, begun);
    UnitIsTimed(m, t, f, now, u, r.schedule, begun, policy, row, k, x, slot);
    SlotIsStaggered(begun, slot);
  }

  lemma {:induction false} BottomVisit(t: Tracker, s: Burst, f: FrameDelta, now: real, bottom: nat, policy: Policy)
    requires t.WellFormed() && bottom + 1 == f.size.rows
    ensures var found := FindRow(f.rows, bottom);
            VisitRow(t, s, f, BottomRow(f), now, policy) ==
            if found.None? || InAnimation(f.animationRegion, bottom) then (t, s) else UpdateRow(t, s, found.value, now, policy)
  {
    FindRowIsMember(f.rows, bottom);
  }

  /** A scroll animates the bottom row alone, on the moved cells. */
  lemma {:induction false} ScrollAnimatesBottom(m: Model, t: Tracker, f: FrameDelta, nowMs: nat, trailActive: bool, now: real, t0: Tracker,
                                                r: Model, u: Tracker, moved: Tracker, bottom: nat)
    requires FrameStep(m, t, f, nowMs, trailActive, now, t0, r, u) && Invariant(m) && IsScroll(m, t, f)
    requires moved == TranslateUpOne(t) && bottom + 1 == t.rows
    ensures var found := FindRow(f.rows, bottom);
            (u, r.schedule) ==
            var begun := m.schedule.Begin(now, m.config.durationMs as real);
            if found.None? || InAnimation(f.animationRegion, bottom) then (moved, begun)
            else UpdateRow(moved, begun, found.value, now, PolicyOf(m.config, false))
  {
    var begun := m.schedule.Begin(now, m.config.durationMs as real);
    FrameIsTextStep(m, t, f, nowMs, trailActive, now, t0, r, u);
    ScrollIsRecognised(m, t, f);
    ScrolledTextStep(m, t, f, now, begun);
    BottomVisit(moved, begun, f, now, bottom, PolicyOf(m.config, false));
  }

  // ----- what is shown -----

  /** Every frame lists exactly the cells of the tracker that it leaves whose time is not over: those whose time
      lies ahead under the typewriter as pending, the others as revealing, each in row-major order. */
  lemma {:induction false} FrameListsCells(m: Model, t: Tracker, f: FrameDelta, nowMs: nat, trailActive: bool, now: real, t0: Tracker,
                                           r: Model, u: Tracker) returns (revealing: seq<nat>, pending: seq<nat>)
    requires FrameStep(m, t, f, nowMs, trailActive, now, t0, r, u)
    ensures u.WellFormed()
    ensures Lists(revealing, u, m.config.textAnimation, m.config.durationMs as real, now, u.cap, false)
    ensures Lists(pending, u, m.config.textAnimation, m.config.durationMs as real, now, u.cap, true)
    ensures ShowsCells(r.frame.revealing, revealing, u, now) && NamesCells(r.frame.pending, pending, u)
    ensures r.frame.trailActive == trailActive
  {
    FrameIsTextStep(m, t, f, nowMs, trailActive, now, t0, r, u);
    revealing := RevealListIsExact(u, m.config.textAnimation, m.config.durationMs as real, now, u.cap);
    pending := PendingListIsExact(u, m.config.textAnimation, m.config.durationMs as real, now, u.cap);
  }

  // ----- configuration -----

  /** As long as text stays animated, a new configuration loses no key and no time; disabling it drops
      the tracker and the lists, and enabling it starts with cells that were never seen. The schedule
      always starts anew. */
  lemma {:induction false} SetConfigKeepsTracker(m: Model, config: EffectsConfig)
    requires m.WellFormed()
    ensures var r := SetConfig(m, config);
            && r.config == config && r.size == m.size && r.lastNow == m.lastNow && r.lastHistory == m.lastHistory
            && r.schedule == Burst(NEVER_MS, NEVER_MS, if config.textAnimation == Typewriter then config.durationMs as real / 8.0 else 0.0)
            && (config.textAnimation == Disabled ==> r.tracker == None && r.frame.revealing == [] && r.frame.pending == [])
            && (config.textAnimation != Disabled && m.tracker.Some? ==> r.tracker == m.tracker && r.frame == m.frame)
            && (config.textAnimation != Disabled && m.tracker.None? ==>
                  && r.frame == m.frame && r.tracker.Some? && r.tracker.value.WellFormed()
                  && r.tracker.value.cols == m.size.cols && r.tracker.value.rows == m.size.rows
                  && r.tracker.value.maxCells == config.maxTrackedCells
                  && (forall row: nat, col: nat :: Tracks(r.tracker.value, row, col) ==>
                        KeyAt(r.tracker.value, row, col) == UNSEEN_KEY && TimeAt(r.tracker.value, row, col) == NEVER_MS))
  {
    var r := SetConfig(m, config);
    if r.tracker.Some? {
      var t := r.tracker.value;
      forall row: nat, col: nat | Tracks(t, row, col)
        ensures m.tracker.None? ==> KeyAt(t, row, col) == UNSEEN_KEY && TimeAt(t, row, col) == NEVER_MS
      {
        CellAt(t, row, col, t.Base(row) + col);
      }
    }
  }
}
