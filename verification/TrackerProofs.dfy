/** What every operation of the change tracker keeps, and what it does to a row. */
module TrackerProofs {
  import opened Basics
  import opened Terminal
  import opened Sequences
  import opened Schedule
  import opened TrackerSpec

  lemma {:induction false} PackedKeysDecode(c: bv32, s: bv16, f: bv16, c': bv32, s': bv16, f': bv16)
    requires PackKey(c, s, f) == PackKey(c', s', f')
    ensures c == c' && s == s' && f == f'
  {
  }

  /** Equal render keys mean equal cells. */
  lemma {:induction false} RenderKeyIsInjective(a: Cell, b: Cell)
    ensures RenderKey(a) == RenderKey(b) <==> a == b
  {
    if RenderKey(a) == RenderKey(b) {
      PackedKeysDecode(a.content, a.style, a.flags, b.content, b.style, b.flags);
    }
  }

  lemma {:induction false} PackedKeyIsSeen(c: bv32, s: bv16, f: bv16)
    requires c <= 0x10FFFF
    ensures PackKey(c, s, f) != UNSEEN_KEY
  {
  }

  /** No cell with a character in it has the key that means "never seen". */
  lemma {:induction false} ScalarsAreNeverUnseen(c: Cell)
    requires IsScalar(c.content)
    ensures RenderKey(c) != UNSEEN_KEY
  {
    PackedKeyIsSeen(c.content, c.style, c.flags);
  }

  // ----- the cached time -----

  /** The maximum is determined by two properties. */
  lemma {:induction false} MaxMsIs(ms: seq<real>, r: real)
    requires r >= NEVER_MS && (forall i :: 0 <= i < |ms| ==> ms[i] <= r) && (r == NEVER_MS || r in ms)
    ensures r == MaxMs(ms)
  {
    if r != NEVER_MS {
      var i :| 0 <= i < |ms| && ms[i] == r;
    }
    if MaxMs(ms) != NEVER_MS {
      var i :| 0 <= i < |ms| && ms[i] == MaxMs(ms);
    }
  }

  lemma {:induction false} ForgottenMax(ms: seq<real>)
    requires forall i :: 0 <= i < |ms| ==> ms[i] == NEVER_MS
    ensures MaxMs(ms) == NEVER_MS
  {
    MaxMsIs(ms, NEVER_MS);
  }

  /** A pass that reports no write made none. */
  lemma {:induction false} UntouchedKeepsTimes(pass: Pass, snapshot: seq<bv64>, ms: seq<real>, base: nat, cs: seq<Cell>, s: Burst, anim: real,
                                               old_: seq<bv64>, was: seq<real>)
    requires base + |cs| <= |snapshot| == |ms|
    requires old_ == snapshot[base..base + |cs|] && was == ms[base..base + |cs|]
    requires !Touches(pass, old_, cs, was, |cs|)
    ensures After(pass, snapshot, ms, base, cs, s, anim, |cs|).ms == ms
  {
    var span := EditedMs(pass, old_, cs, was, s, anim);
    forall x | 0 <= x < |cs|
      ensures span[x] == ms[base + x]
    {
      assert !TouchesCell(pass, old_, cs, was, x);
    }
    OverlaySkips(ms, base, span, 0, |cs|);
  }

  lemma {:induction false} EditSpanKeepsLast(t: Tracker, s: Burst, base: nat, cs: seq<Cell>, anim: real, policy: Policy)
    requires base + |cs| <= |t.snapshot| == |t.ms| && t.LastAgrees()
    ensures EditSpan(t, s, base, cs, anim, policy).0.LastAgrees()
  {
    var old_, was := t.snapshot[base..base + |cs|], t.ms[base..base + |cs|];
    var pass := PassFor(policy, old_, cs);
    if !After(pass, t.snapshot, t.ms, base, cs, s, anim, |cs|).touched {
      UntouchedKeepsTimes(pass, t.snapshot, t.ms, base, cs, s, anim, old_, was);
    }
  }

  lemma {:induction false} UpdateRowKeepsLast(t: Tracker, s: Burst, rd: RowDelta, anim: real, policy: Policy)
    requires t.WellFormed() && t.LastAgrees()
    ensures UpdateRow(t, s, rd, anim, policy).0.LastAgrees()
  {
    if rd.row < t.rows && t.generations[rd.row] != rd.generation {
      var seen := t.(generations := t.generations[rd.row := rd.generation]);
      var n := t.SpanLen(rd.row, |rd.cells|);
      if n != 0 {
        EditSpanKeepsLast(seen, s, t.Base(rd.row), rd.cells[..n], anim, policy);
      }
    }
  }

  lemma {:induction false} BypassOnlyForgets(t: Tracker, rows: seq<RowDelta>, adopt: bool)
    requires t.WellFormed()
    ensures OnlyForgets(t.ms, BypassRows(t, rows, adopt).ms)
    decreases |rows|
  {
    if rows != [] {
      var t1 := BypassRow(t, rows[0], adopt);
      BypassRowOnlyForgets(t, rows[0], adopt);
      BypassOnlyForgets(t1, rows[1..], adopt);
      OnlyForgetsMore(t.ms, t1.ms, BypassRows(t1, rows[1..], adopt).ms);
    }
  }

  lemma {:induction false} SyncRowsKeepsLast(t: Tracker, rows: seq<RowDelta>)
    requires t.WellFormed() && t.LastAgrees()
    ensures SyncRows(t, rows).WellFormed() && SyncRows(t, rows).LastAgrees()
  {
  }

  /** Adopting rows resets the cached time unconditionally. That agrees with the array
      because every frame that adopts rows clears the times first. */
  lemma {:induction false} ClearedAdoptionAgrees(t: Tracker, rows: seq<RowDelta>)
    requires t.WellFormed()
    ensures var r := AdoptRows(ClearChanges(t), rows);
            r.WellFormed() && r.LastAgrees() && forall i :: 0 <= i < r.cap ==> r.ms[i] == NEVER_MS
  {
    var c := ClearChanges(t);
    BypassOnlyForgets(c, rows, true);
    ForgottenMax(BypassRows(c, rows, true).ms);
  }

  /** Cell i is one of the tracked cells that the deltas bring. */
  ghost predicate Reached(t: Tracker, rows: seq<RowDelta>, i: nat) {
    exists k :: 0 <= k < |rows| && InTrackedRow(t, rows[k], i)
  }

  predicate InTrackedRow(t: Tracker, rd: RowDelta, i: nat) {
    rd.row < t.rows && t.Base(rd.row) <= i < t.Base(rd.row) + t.SpanLen(rd.row, |rd.cells|)
  }

  lemma {:induction false} AdoptedRowForgets(t: Tracker, rd: RowDelta, i: nat)
    requires t.WellFormed() && i < t.cap
    ensures var r := BypassRow(t, rd, true);
            && r.WellFormed() && r.cap == t.cap && r.cols == t.cols && r.rows == t.rows
            && r.ms[i] == if InTrackedRow(t, rd, i) then NEVER_MS else t.ms[i]
  {
    var n, base := t.SpanLen(rd.row, |rd.cells|), t.Base(rd.row);
    if rd.row < t.rows && n != 0 {
      var forgotten := Repeat(NEVER_MS, n);
      if InTrackedRow(t, rd, i) {
        OverlayAt(t.ms, base, forgotten, i - base, i);
      }
    }
  }

  lemma {:induction false} ReachedByFirstOrRest(t: Tracker, t1: Tracker, rows: seq<RowDelta>, rest: seq<RowDelta>, i: nat)
    requires rows != [] && rest == rows[1..] && t1.cols == t.cols && t1.rows == t.rows && t1.cap == t.cap
    ensures Reached(t, rows, i) <==> InTrackedRow(t, rows[0], i) || Reached(t1, rest, i)
  {
    if Reached(t, rows, i) && !InTrackedRow(t, rows[0], i) {
      var k :| 0 <= k < |rows| && InTrackedRow(t, rows[k], i);
      assert InTrackedRow(t1, rest[k - 1], i);
    }
    if Reached(t1, rest, i) {
      var k :| 0 <= k < |rest| && InTrackedRow(t1, rest[k], i);
      assert InTrackedRow(t, rows[k + 1], i);
    }
  }

  lemma {:induction false} AdoptedRowsForget(t: Tracker, rows: seq<RowDelta>, i: nat)
    requires t.WellFormed() && i < t.cap
    ensures var r := BypassRows(t, rows, true);
            r.cap == t.cap && r.ms[i] == if Reached(t, rows, i) then NEVER_MS else t.ms[i]
    decreases |rows|
  {
    if rows != [] {
      var t1, rest := BypassRow(t, rows[0], true), rows[1..];
      AdoptedRowForgets(t, rows[0], i);
      AdoptedRowsForget(t1, rest, i);
      ReachedByFirstOrRest(t, t1, rows, rest, i);
    }
  }

  /** Without that, adopting keeps the agreement exactly when the rows reach every cell that
      still has a time. */
  lemma {:induction false} AdoptionAgreesWhen(t: Tracker, rows: seq<RowDelta>)
    requires t.WellFormed() && forall i :: 0 <= i < t.cap ==> t.ms[i] >= NEVER_MS
    ensures AdoptRows(t, rows).LastAgrees() <==>
            forall i: nat :: i < t.cap && t.ms[i] != NEVER_MS ==> Reached(t, rows, i)
  {
    var r := AdoptRows(t, rows);
    forall i: nat | i < t.cap
      ensures |r.ms| == t.cap && r.ms[i] == if Reached(t, rows, i) then NEVER_MS else t.ms[i]
    {
      AdoptedRowsForget(t, rows, i);
    }
    if forall i: nat :: i < t.cap && t.ms[i] != NEVER_MS ==> Reached(t, rows, i) {
      ForgottenMax(r.ms);
    }
  }

  /** Resizing alone keeps the agreement exactly in these cases: a larger grid stamps its new
      cells with the present, which must not be later than the cached time; a smaller one
      must keep a cell that holds the cached time. */
  lemma {:induction false} ResizeAgreesWhen(t: Tracker, cols: nat, rows: nat, now: real)
    requires t.WellFormed() && t.LastAgrees() && now >= NEVER_MS
    ensures var cap := CapFor(cols, rows, t.maxCells);
            Resize(t, cols, rows, now).LastAgrees() <==>
            if cap > t.cap then now <= t.last
            else t.last == NEVER_MS || exists i :: 0 <= i < cap && t.ms[i] == t.last
  {
    var r := Resize(t, cols, rows, now);
    if r.cap > t.cap {
      assert r.ms[t.cap] == now;
      if now <= t.last {
        if t.last != NEVER_MS {
          var i :| 0 <= i < |t.ms| && t.ms[i] == t.last;
          assert r.ms[i] == t.last;
        }
        MaxMsIs(r.ms, t.last);
      }
    } else if t.last == NEVER_MS || exists i :: 0 <= i < r.cap && t.ms[i] == t.last {
      if t.last != NEVER_MS {
        var i :| 0 <= i < r.cap && t.ms[i] == t.last;
        assert r.ms[i] == t.last;
      }
      MaxMsIs(r.ms, t.last);
    }
  }

  // ----- the bound -----

  /** The bound as it is documented: the smaller of the two products, but at least one cell. */
  function DocumentedCap(cols: nat, rows: nat, maxCells: nat): nat {
    if Min(cols * rows, maxCells) < 1 then 1 else Min(cols * rows, maxCells)
  }

  /** The documented bound is the bound exactly for a grid that has cells. */
  lemma {:induction false} CapIsDocumentedWhen(cols: nat, rows: nat, maxCells: nat)
    ensures CapFor(cols, rows, maxCells) == DocumentedCap(cols, rows, maxCells) <==> cols > 0 && rows > 0
    ensures CapFor(cols, rows, maxCells) >= 1 <==> cols > 0 && rows > 0
  {
    if cols > 0 && rows > 0 {
      ProductsRise(1, cols, rows);
    }
  }

  // ----- one row -----

  /** The units that take a time, in reading order, as a left-to-right parse from x on finds them. */
  function TakenHeads(pass: Pass, old_: seq<bv64>, cs: seq<Cell>, x: nat): seq<nat>
    requires |old_| == |cs| && x <= |cs|
    decreases |cs| - x
  {
    if x == |cs| then []
    else (if Takes(pass, old_, cs, x) then [x] else []) + TakenHeads(pass, old_, cs, UnitEnd(pass, cs, x))
  }

  lemma {:induction false} HeadsAreRanked(pass: Pass, old_: seq<bv64>, cs: seq<Cell>, x: nat)
    requires |old_| == |cs| && x <= |cs| && UnitStart(pass, cs, x)
    ensures var heads := TakenHeads(pass, old_, cs, x);
            && Slots(pass, old_, cs, |cs|) == Slots(pass, old_, cs, x) + |heads|
            && forall k :: 0 <= k < |heads| ==>
                 && x <= heads[k] < |cs| && UnitStart(pass, cs, heads[k]) && Takes(pass, old_, cs, heads[k])
                 && Slots(pass, old_, cs, heads[k]) == Slots(pass, old_, cs, x) + k
    decreases |cs| - x
  {
    if x < |cs| {
      UnitStep(pass, old_, cs, x);
      HeadsAreRanked(pass, old_, cs, UnitEnd(pass, cs, x));
    }
  }

  /** The parse misses no unit. */
  lemma {:induction false} HeadsAreComplete(pass: Pass, old_: seq<bv64>, cs: seq<Cell>, x: nat, h: nat)
    requires |old_| == |cs| && x <= h < |cs| && UnitStart(pass, cs, x)
    requires UnitStart(pass, cs, h) && Takes(pass, old_, cs, h)
    ensures h in TakenHeads(pass, old_, cs, x)
    decreases |cs| - x
  {
    if x < h {
      var end := UnitEnd(pass, cs, x);
      UnitStep(pass, old_, cs, x);
      assert !(end == x + 2 && h == x + 1) by {
        if end == x + 2 {
          assert !UnitStart(pass, cs, x + 1);
        }
      }
      HeadsAreComplete(pass, old_, cs, end, h);
    }
  }

  /** An edit begins at `base` of tracker t with the keys `keys` under the cells `cs`, and
      makes it t' and the schedule s'. */
  ghost predicate Edit(t: Tracker, s: Burst, base: nat, cs: seq<Cell>, anim: real, policy: Policy,
                       keys: seq<bv64>, pass: Pass, t': Tracker, s': Burst)
  {
    && base + |cs| <= |t.snapshot| == |t.ms|
    && keys == t.snapshot[base..base + |cs|]
    && pass == PassFor(policy, keys, cs)
    && (t', s') == EditSpan(t, s, base, cs, anim, policy)
  }

  /** Each cell's key is stored, and its time follows the cell's action. */
  lemma {:induction false} EditedCell(t: Tracker, s: Burst, base: nat, cs: seq<Cell>, anim: real, policy: Policy,
                                      keys: seq<bv64>, pass: Pass, t': Tracker, s': Burst, x: nat, i: nat)
    requires Edit(t, s, base, cs, anim, policy, keys, pass, t', s') && x < |cs| && i == base + x
    ensures i < |t'.snapshot| == |t'.ms| == |t.ms|
    ensures t'.snapshot[i] == RenderKey(cs[x])
    ensures t'.ms[i] == NewMs(CellAction(pass, keys, cs, x), t.ms[i], s, anim)
  {
    var was := t.ms[base..base + |cs|];
    var span := EditedMs(pass, keys, cs, was, s, anim);
    SliceAt(t.ms, base, base + |cs|, x, i);
    OverlayAt(t.ms, base, span, x, i);
    OverlayAt(t.snapshot, base, Keys(cs), x, i);
  }

  /** Every cell outside the span is untouched. */
  lemma {:induction false} EditElsewhere(t: Tracker, s: Burst, base: nat, cs: seq<Cell>, anim: real, policy: Policy,
                                         keys: seq<bv64>, pass: Pass, t': Tracker, s': Burst, i: nat)
    requires Edit(t, s, base, cs, anim, policy, keys, pass, t', s') && i < |t.ms| && !(base <= i < base + |cs|)
    ensures |t'.snapshot| == |t'.ms| == |t.ms|
    ensures t'.snapshot[i] == t.snapshot[i] && t'.ms[i] == t.ms[i]
  {
  }

  // ----- one delta, in rows and columns -----

  /** Cell (row, col) of the grid is one of the tracked ones. */
  predicate Tracks(t: Tracker, row: nat, col: nat) {
    row < t.rows && col < t.cols && t.Base(row) + col < t.cap
  }

  function KeyAt(t: Tracker, row: nat, col: nat): bv64
    requires t.WellFormed() && Tracks(t, row, col)
  {
    t.snapshot[t.Base(row) + col]
  }

  function TimeAt(t: Tracker, row: nat, col: nat): real
    requires t.WellFormed() && Tracks(t, row, col)
  {
    t.ms[t.Base(row) + col]
  }

  /** A row of the grid that was written again since it was last looked at. */
  predicate IsNew(t: Tracker, rd: RowDelta)
    requires t.WellFormed()
  {
    rd.row < t.rows && t.generations[rd.row] != rd.generation
  }

  /** The cells of a delta that have an entry. */
  function Tracked(t: Tracker, rd: RowDelta): seq<Cell> {
    rd.cells[..t.SpanLen(rd.row, |rd.cells|)]
  }

  /** They are exactly those that lie in the grid and within the bound, from the left. */
  lemma {:induction false} TrackedWhen(t: Tracker, rd: RowDelta, x: nat)
    requires rd.row < t.rows
    ensures Tracked(t, rd) <= rd.cells
    ensures x < |Tracked(t, rd)| <==> x < |rd.cells| && Tracks(t, rd.row, x)
  {
  }

  /** The keys stored for them. */
  function StoredKeys(t: Tracker, rd: RowDelta): (r: seq<bv64>)
    requires t.WellFormed()
    ensures |r| == |Tracked(t, rd)|
  {
    var cs := Tracked(t, rd);
    if cs == [] then [] else t.snapshot[t.Base(rd.row)..t.Base(rd.row) + |cs|]
  }

  function PassOver(t: Tracker, rd: RowDelta, policy: Policy): Pass
    requires t.WellFormed()
  {
    PassFor(policy, StoredKeys(t, rd), Tracked(t, rd))
  }

  /** The units of the delta that take a time, in reading order. */
  function HeadsIn(t: Tracker, rd: RowDelta, policy: Policy): seq<nat>
    requires t.WellFormed()
  {
    TakenHeads(PassOver(t, rd, policy), StoredKeys(t, rd), Tracked(t, rd), 0)
  }

  /** A delta that is new: what the update makes of it, with everything about it named. */
  ghost predicate Update(t: Tracker, s: Burst, rd: RowDelta, now: real, policy: Policy,
                         cs: seq<Cell>, keys: seq<bv64>, pass: Pass, t': Tracker, s': Burst)
  {
    && t.WellFormed() && IsNew(t, rd)
    && cs == Tracked(t, rd) && keys == StoredKeys(t, rd) && pass == PassFor(policy, keys, cs)
    && (t', s') == UpdateRow(t, s, rd, now, policy)
  }

  /** The grids agree in shape. */
  predicate SameGrid(a: Tracker, b: Tracker) {
    a.cap == b.cap && a.cols == b.cols && a.rows == b.rows && a.maxCells == b.maxCells
  }

  lemma {:induction false} UpdateIsEdit(t: Tracker, s: Burst, rd: RowDelta, now: real, policy: Policy,
                                        cs: seq<Cell>, keys: seq<bv64>, pass: Pass, t': Tracker, s': Burst, seen: Tracker)
    requires Update(t, s, rd, now, policy, cs, keys, pass, t', s')
    requires seen == t.(generations := t.generations[rd.row := rd.generation])
    ensures cs == [] ==> t' == seen && s' == s
    ensures cs != [] ==> Edit(seen, s, t.Base(rd.row), cs, now, policy, keys, pass, t', s')
  {
  }

  lemma {:induction false} EditShape(t: Tracker, s: Burst, base: nat, cs: seq<Cell>, anim: real, policy: Policy,
                                     keys: seq<bv64>, pass: Pass, t': Tracker, s': Burst, heads: seq<nat>)
    requires Edit(t, s, base, cs, anim, policy, keys, pass, t', s') && heads == TakenHeads(pass, keys, cs, 0)
    ensures SameGrid(t', t) && t'.generations == t.generations && s' == s.Consumed(|heads|)
  {
    var n := Slots(pass, keys, cs, |cs|);
    assert n == |heads| by {
      HeadsAreRanked(pass, keys, cs, 0);
    }
    assert s' == s.Consumed(n);
  }

  lemma {:induction false} UpdateShape(t: Tracker, s: Burst, rd: RowDelta, now: real, policy: Policy,
                                       cs: seq<Cell>, keys: seq<bv64>, pass: Pass, t': Tracker, s': Burst, heads: seq<nat>)
    requires Update(t, s, rd, now, policy, cs, keys, pass, t', s') && heads == TakenHeads(pass, keys, cs, 0)
    ensures SameGrid(t', t) && t'.generations == t.generations[rd.row := rd.generation] && s' == s.Consumed(|heads|)
  {
    var seen := t.(generations := t.generations[rd.row := rd.generation]);
    UpdateIsEdit(t, s, rd, now, policy, cs, keys, pass, t', s', seen);
    if cs != [] {
      EditShape(seen, s, t.Base(rd.row), cs, now, policy, keys, pass, t', s', heads);
    }
  }

  /** The x-th tracked cell of the delta lies in the grid. */
  lemma {:induction false} TrackedInGrid(t: Tracker, rd: RowDelta, cs: seq<Cell>, x: nat)
    requires cs == Tracked(t, rd) && x < |cs| && rd.row < t.rows
    ensures Tracks(t, rd.row, x)
  {
  }

  lemma {:induction false} CellAt(t: Tracker, row: nat, col: nat, i: nat)
    requires t.WellFormed() && Tracks(t, row, col) && i == t.Base(row) + col
    ensures KeyAt(t, row, col) == t.snapshot[i] && TimeAt(t, row, col) == t.ms[i]
  {
  }

  /** An edit at a row's place, seen in rows and columns. */
  lemma {:induction false} EditedAt(t: Tracker, s: Burst, row: nat, base: nat, cs: seq<Cell>, now: real, policy: Policy,
                                    keys: seq<bv64>, pass: Pass, t': Tracker, s': Burst, seen: Tracker, x: nat, i: nat)
    requires Edit(seen, s, base, cs, now, policy, keys, pass, t', s') && base == t.Base(row) && i == base + x
    requires t.WellFormed() && t'.WellFormed() && SameGrid(t', t) && seen.ms == t.ms && x < |cs| && Tracks(t, row, x)
    ensures Tracks(t', row, x) && KeyAt(t', row, x) == RenderKey(cs[x])
    ensures TimeAt(t', row, x) == NewMs(CellAction(pass, keys, cs, x), TimeAt(t, row, x), s, now)
  {
    assert t'.Base(row) == base;
    CellAt(t, row, x, i);
    CellAt(t', row, x, i);
    EditedCell(seen, s, base, cs, now, policy, keys, pass, t', s', x, i);
  }

  lemma {:induction false} KeptAt(t: Tracker, row: nat, col: nat, i: nat, t': Tracker)
    requires t.WellFormed() && t'.WellFormed() && SameGrid(t', t) && Tracks(t, row, col) && i == t.Base(row) + col
    requires t'.snapshot[i] == t.snapshot[i] && t'.ms[i] == t.ms[i]
    ensures Tracks(t', row, col) && KeyAt(t', row, col) == KeyAt(t, row, col) && TimeAt(t', row, col) == TimeAt(t, row, col)
  {
    assert t'.Base(row) == t.Base(row);
    CellAt(t, row, col, i);
    CellAt(t', row, col, i);
  }

  lemma {:induction false} UpdatedCell(t: Tracker, s: Burst, rd: RowDelta, now: real, policy: Policy,
                                       cs: seq<Cell>, keys: seq<bv64>, pass: Pass, t': Tracker, s': Burst, x: nat)
    requires Update(t, s, rd, now, policy, cs, keys, pass, t', s') && x < |cs|
    ensures Tracks(t, rd.row, x) && Tracks(t', rd.row, x)
    ensures KeyAt(t', rd.row, x) == RenderKey(cs[x])
    ensures TimeAt(t', rd.row, x) == NewMs(CellAction(pass, keys, cs, x), TimeAt(t, rd.row, x), s, now)
  {
    var seen := t.(generations := t.generations[rd.row := rd.generation]);
    var base := t.Base(rd.row);
    var i := base + x;
    TrackedInGrid(t, rd, cs, x);
    UpdateShape(t, s, rd, now, policy, cs, keys, pass, t', s', TakenHeads(pass, keys, cs, 0));
    UpdateIsEdit(t, s, rd, now, policy, cs, keys, pass, t', s', seen);
    EditedAt(t, s, rd.row, base, cs, now, policy, keys, pass, t', s', seen, x, i);
  }

  /** A cell of another row, or past the tracked part of the same row, lies outside the span. */
  lemma {:induction false} OutsideSpan(t: Tracker, rd: RowDelta, row: nat, col: nat, n: nat)
    requires n == t.SpanLen(rd.row, |rd.cells|) && col < t.cols && (row != rd.row || col >= n)
    ensures !(t.Base(rd.row) <= t.Base(row) + col < t.Base(rd.row) + n)
  {
    if row < rd.row {
      ProductsRise(row + 1, rd.row, t.cols);
      assert (row + 1) * t.cols == t.Base(row) + t.cols;
    } else if rd.row < row {
      RowsAreApart(t, rd.row, row, |rd.cells|);
    }
  }

  lemma {:induction false} UpdateElsewhere(t: Tracker, s: Burst, rd: RowDelta, now: real, policy: Policy,
                                           cs: seq<Cell>, keys: seq<bv64>, pass: Pass, t': Tracker, s': Burst, row: nat, col: nat)
    requires Update(t, s, rd, now, policy, cs, keys, pass, t', s') && Tracks(t, row, col)
    requires row != rd.row || col >= |cs|
    ensures Tracks(t', row, col) && KeyAt(t', row, col) == KeyAt(t, row, col) && TimeAt(t', row, col) == TimeAt(t, row, col)
  {
    var seen := t.(generations := t.generations[rd.row := rd.generation]);
    var i := t.Base(row) + col;
    UpdateShape(t, s, rd, now, policy, cs, keys, pass, t', s', TakenHeads(pass, keys, cs, 0));
    UpdateIsEdit(t, s, rd, now, policy, cs, keys, pass, t', s', seen);
    if cs != [] {
      OutsideSpan(t, rd, row, col, |cs|);
      EditElsewhere(seen, s, t.Base(rd.row), cs, now, policy, keys, pass, t', s', i);
    }
    KeptAt(t, row, col, i, t');
  }

  lemma {:induction false} HeadAction(pass: Pass, keys: seq<bv64>, cs: seq<Cell>, heads: seq<nat>, k: nat, x: nat)
    requires |keys| == |cs| && heads == TakenHeads(pass, keys, cs, 0)
    requires k < |heads| && x < |cs| && Head(pass, cs, x) == heads[k]
    ensures CellAction(pass, keys, cs, x) == Stamp(k)
  {
    HeadsAreRanked(pass, keys, cs, 0);
  }

  /** The k-th unit to animate takes the k-th slot, under every policy. */
  lemma {:induction false} KthUnitTakesKthSlot(t: Tracker, s: Burst, rd: RowDelta, now: real, policy: Policy,
                                               cs: seq<Cell>, keys: seq<bv64>, pass: Pass, t': Tracker, s': Burst,
                                               heads: seq<nat>, k: nat, x: nat)
    requires Update(t, s, rd, now, policy, cs, keys, pass, t', s') && heads == TakenHeads(pass, keys, cs, 0)
    requires k < |heads| && x < |cs| && Head(pass, cs, x) == heads[k]
    ensures Tracks(t', rd.row, x) && TimeAt(t', rd.row, x) == StampTime(s, now, k)
    ensures s.Active() ==> TimeAt(t', rd.row, x) == s.next + k as real * s.stagger
  {
    HeadAction(pass, keys, cs, heads, k, x);
    UpdatedCell(t, s, rd, now, policy, cs, keys, pass, t', s', x);
    SlotIsStaggered(s, k);
  }

  /** All other units take no slot: a changed one loses its time, an unchanged one keeps it. */
  lemma {:induction false} OtherUnitsTakeNoSlot(t: Tracker, s: Burst, rd: RowDelta, now: real, policy: Policy,
                                                cs: seq<Cell>, keys: seq<bv64>, pass: Pass, t': Tracker, s': Burst, x: nat, h: nat)
    requires Update(t, s, rd, now, policy, cs, keys, pass, t', s')
    requires x < |cs| && h == Head(pass, cs, x) && h !in TakenHeads(pass, keys, cs, 0)
    ensures Tracks(t', rd.row, x) && Tracks(t, rd.row, x)
    ensures TimeAt(t', rd.row, x) == if pass.Changed? && UnitDiffers(pass, keys, cs, h) then NEVER_MS else TimeAt(t, rd.row, x)
  {
    UpdatedCell(t, s, rd, now, policy, cs, keys, pass, t', s', x);
    if Takes(pass, keys, cs, h) {
      HeadsAreComplete(pass, keys, cs, 0, h);
    }
  }

  /** In plain numbers: bit 6 marks a spacer, and a character that is neither a blank nor a NUL is drawn. */
  predicate IsDrawable(c: Cell) {
    && c.flags & 0x40 == 0
    && (c.content < 0xD800 || 0xDFFF < c.content < 0x11_0000) && c.content != 0x20 && c.content != 0
  }

  /** Who animates. The typewriter restamps a row as a whole when it is identical, and otherwise
      the drawable units that changed; a repaint only ever the latter; streaming treats every
      cell as a unit, except that it restamps the drawable units of an identical row. */
  lemma {:induction false} WhoAnimates(cs: seq<Cell>, keys: seq<bv64>, policy: Policy, pass: Pass, h: nat)
    requires |keys| == |cs| && pass == PassFor(policy, keys, cs) && h < |cs|
    ensures pass == Repeated <==> keys == Keys(cs) && policy != DrawableUnits
    ensures h in TakenHeads(pass, keys, cs, 0) <==>
            if policy.EveryChangedCell? && keys != Keys(cs) then keys[h] != RenderKey(cs[h])
            else UnitStart(pass, cs, h) && IsDrawable(cs[h]) && (pass == Repeated || UnitDiffers(pass, keys, cs, h))
  {
    HeadsAreUnits(pass, keys, cs, h);
    PassIsRepeated(cs, keys, policy, pass);
    if policy.EveryChangedCell? && keys != Keys(cs) {
      EveryCellIsAUnit(cs, h);
    } else {
      UnitTakesWhen(cs, keys, policy, pass, h);
    }
  }

  lemma {:induction false} HeadsAreUnits(pass: Pass, keys: seq<bv64>, cs: seq<Cell>, h: nat)
    requires |keys| == |cs| && h < |cs|
    ensures h in TakenHeads(pass, keys, cs, 0) <==> UnitStart(pass, cs, h) && Takes(pass, keys, cs, h)
  {
    HeadsAreRanked(pass, keys, cs, 0);
    if UnitStart(pass, cs, h) && Takes(pass, keys, cs, h) {
      HeadsAreComplete(pass, keys, cs, 0, h);
    }
  }

  lemma {:induction false} PassIsRepeated(cs: seq<Cell>, keys: seq<bv64>, policy: Policy, pass: Pass)
    requires |keys| == |cs| && pass == PassFor(policy, keys, cs)
    ensures pass == (if keys == Keys(cs) && policy != DrawableUnits then Repeated else Changed(policy))
  {
  }

  lemma {:induction false} UnitTakesWhen(cs: seq<Cell>, keys: seq<bv64>, policy: Policy, pass: Pass, h: nat)
    requires |keys| == |cs| && pass == PassFor(policy, keys, cs) && h < |cs|
    requires policy.EveryChangedCell? ==> keys == Keys(cs)
    ensures Takes(pass, keys, cs, h) <==> IsDrawable(cs[h]) && (pass == Repeated || UnitDiffers(pass, keys, cs, h))
  {
  }

  lemma {:induction false} EveryCellIsAUnit(cs: seq<Cell>, h: nat)
    requires h <= |cs|
    ensures UnitStart(Changed(EveryChangedCell), cs, h)
  {
  }

  /** A wide glyph and its spacer are one unit. It animates when it is drawable and either of its
      two cells changed, or the whole row is repeated. */
  lemma {:induction false} WidePairIsOneUnit(cs: seq<Cell>, keys: seq<bv64>, policy: Policy, pass: Pass, x: nat, y: nat)
    requires |keys| == |cs| && pass == PassFor(policy, keys, cs) && pass != Changed(EveryChangedCell)
    requires WellPaired(cs) && y == x + 1 < |cs| && cs[x].flags & 0x20 != 0
    ensures Head(pass, cs, x) == Head(pass, cs, y) == x && y !in TakenHeads(pass, keys, cs, 0)
    ensures x in TakenHeads(pass, keys, cs, 0) <==>
            IsDrawable(cs[x]) && (pass == Repeated || keys[x] != RenderKey(cs[x]) || keys[y] != RenderKey(cs[y]))
  {
    assert Paired(pass, cs, x);
    assert x > 0 ==> !Paired(pass, cs, x - 1);
    WhoAnimates(cs, keys, policy, pass, x);
    WhoAnimates(cs, keys, policy, pass, y);
  }

  /** Only the first of the cells x and y takes a time, and the other one shows the same. */
  ghost predicate Shares(t: Tracker, row: nat, heads: seq<nat>, x: nat, y: nat)
    requires t.WellFormed()
  {
    y !in heads && (x in heads ==> Tracks(t, row, x) && Tracks(t, row, y) && TimeAt(t, row, x) == TimeAt(t, row, y))
  }

  /** So it is for every wide glyph and its spacer. */
  ghost predicate PairsShare(t: Tracker, row: nat, cs: seq<Cell>, heads: seq<nat>)
    requires t.WellFormed()
  {
    forall x: nat, y: nat :: y == x + 1 < |cs| && IsWide(cs[x]) ==> Shares(t, row, heads, x, y)
  }

  lemma {:induction false} PrefixIsPaired(cells: seq<Cell>, cs: seq<Cell>)
    requires WellPaired(cells) && cs <= cells
    ensures WellPaired(cs)
  {
  }

  lemma {:induction false} WideGlyphSharesItsTime(t: Tracker, s: Burst, rd: RowDelta, now: real, policy: Policy,
                                                  cs: seq<Cell>, keys: seq<bv64>, pass: Pass, t': Tracker, s': Burst,
                                                  heads: seq<nat>, x: nat, y: nat)
    requires Update(t, s, rd, now, policy, cs, keys, pass, t', s') && heads == TakenHeads(pass, keys, cs, 0)
    requires WellPaired(cs) && pass != Changed(EveryChangedCell) && y == x + 1 < |cs| && IsWide(cs[x])
    ensures Shares(t', rd.row, heads, x, y)
  {
    WidePairIsOneUnit(cs, keys, policy, pass, x, y);
    UpdatedCell(t, s, rd, now, policy, cs, keys, pass, t', s', x);
    UpdatedCell(t, s, rd, now, policy, cs, keys, pass, t', s', y);
    if x in heads {
      var k: nat :| k < |heads| && heads[k] == x;
      KthUnitTakesKthSlot(t, s, rd, now, policy, cs, keys, pass, t', s', heads, k, x);
      KthUnitTakesKthSlot(t, s, rd, now, policy, cs, keys, pass, t', s', heads, k, y);
    }
  }

  lemma {:induction false} PairsInRow(t: Tracker, s: Burst, rd: RowDelta, now: real, policy: Policy,
                                      cs: seq<Cell>, keys: seq<bv64>, pass: Pass, t': Tracker, s': Burst, heads: seq<nat>)
    requires Update(t, s, rd, now, policy, cs, keys, pass, t', s') && heads == TakenHeads(pass, keys, cs, 0)
    requires WellPaired(rd.cells) && pass != Changed(EveryChangedCell)
    ensures PairsShare(t', rd.row, cs, heads)
  {
    PrefixIsPaired(rd.cells, cs);
    forall x: nat, y: nat | y == x + 1 < |cs| && IsWide(cs[x]) ensures Shares(t', rd.row, heads, x, y) {
      WideGlyphSharesItsTime(t, s, rd, now, policy, cs, keys, pass, t', s', heads, x, y);
    }
  }

  /** One delta, as a whole. A row that is not new changes nothing. Of a new one every cell that
      the grid and the bound admit ends with its own key; the k-th unit to animate gets the k-th slot of the schedule; a
      wide glyph and its spacer animate together, in one slot; the other units lose their time if
      they changed and keep it if not; the schedule moves by the number of animated units; and every
      other cell of the grid, in this row and all others, is untouched. */
  lemma {:induction false} UpdatedRow(t: Tracker, s: Burst, rd: RowDelta, now: real, policy: Policy,
                                      cs: seq<Cell>, keys: seq<bv64>, pass: Pass, heads: seq<nat>, t': Tracker, s': Burst)
    requires t.WellFormed() && (t', s') == UpdateRow(t, s, rd, now, policy)
    requires cs == Tracked(t, rd) && keys == StoredKeys(t, rd) && pass == PassOver(t, rd, policy) && heads == HeadsIn(t, rd, policy)
    ensures !IsNew(t, rd) ==> t' == t && s' == s
    ensures rd.row < t.rows ==> cs <= rd.cells
    ensures forall x: nat :: rd.row < t.rows ==> (x < |cs| <==> x < |rd.cells| && Tracks(t, rd.row, x))
    ensures IsNew(t, rd) ==>
      && s' == s.Consumed(|heads|)
      && t'.generations == t.generations[rd.row := rd.generation]
      && (forall x: nat :: x < |cs| ==> Tracks(t', rd.row, x) && KeyAt(t', rd.row, x) == RenderKey(cs[x]))
      && (forall k: nat, x: nat :: k < |heads| && x < |cs| && Head(pass, cs, x) == heads[k] ==>
            TimeAt(t', rd.row, x) == StampTime(s, now, k))
      && (forall x: nat :: x < |cs| && Head(pass, cs, x) !in heads ==>
            && Tracks(t, rd.row, x)
            && TimeAt(t', rd.row, x) ==
               if pass.Changed? && UnitDiffers(pass, keys, cs, Head(pass, cs, x)) then NEVER_MS else TimeAt(t, rd.row, x))
    ensures IsNew(t, rd) && WellPaired(rd.cells) && pass != Changed(EveryChangedCell) ==> PairsShare(t', rd.row, cs, heads)
    ensures forall row: nat, col: nat :: Tracks(t, row, col) && (IsNew(t, rd) ==> row != rd.row || col >= |cs|) ==>
      Tracks(t', row, col) && KeyAt(t', row, col) == KeyAt(t, row, col) && TimeAt(t', row, col) == TimeAt(t, row, col)
  {
    forall x: nat | rd.row < t.rows ensures cs <= rd.cells && (x < |cs| <==> x < |rd.cells| && Tracks(t, rd.row, x)) {
      TrackedWhen(t, rd, x);
    }
    if IsNew(t, rd) {
      UpdateShape(t, s, rd, now, policy, cs, keys, pass, t', s', heads);
      forall x: nat | x < |cs| ensures Tracks(t', rd.row, x) && KeyAt(t', rd.row, x) == RenderKey(cs[x]) {
        UpdatedCell(t, s, rd, now, policy, cs, keys, pass, t', s', x);
      }
      forall k: nat, x: nat | k < |heads| && x < |cs| && Head(pass, cs, x) == heads[k]
        ensures TimeAt(t', rd.row, x) == StampTime(s, now, k)
      {
        KthUnitTakesKthSlot(t, s, rd, now, policy, cs, keys, pass, t', s', heads, k, x);
      }
      forall x: nat | x < |cs| && Head(pass, cs, x) !in heads
        ensures Tracks(t, rd.row, x)
        ensures TimeAt(t', rd.row, x) ==
                if pass.Changed? && UnitDiffers(pass, keys, cs, Head(pass, cs, x)) then NEVER_MS else TimeAt(t, rd.row, x)
      {
        OtherUnitsTakeNoSlot(t, s, rd, now, policy, cs, keys, pass, t', s', x, Head(pass, cs, x));
      }
      if WellPaired(rd.cells) && pass != Changed(EveryChangedCell) {
        PairsInRow(t, s, rd, now, policy, cs, keys, pass, t', s', heads);
      }
      forall row: nat, col: nat | Tracks(t, row, col) && (row != rd.row || col >= |cs|)
        ensures Tracks(t', row, col) && KeyAt(t', row, col) == KeyAt(t, row, col) && TimeAt(t', row, col) == TimeAt(t, row, col)
      {
        UpdateElsewhere(t, s, rd, now, policy, cs, keys, pass, t', s', row, col);
      }
    }
  }

  // ----- bypassed rows, in rows and columns -----

  /** A delta brings cell (row, col). */
  predicate Brings(rd: RowDelta, row: nat, col: nat) {
    rd.row == row && col < |rd.cells|
  }

  lemma {:induction false} BypassedSpanCell(t: Tracker, base: nat, cs: seq<Cell>, adopt: bool, i: nat, x: nat, u: Tracker)
    requires base + |cs| <= |t.snapshot| == |t.ms| && i < |t.ms| && u == BypassSpan(t, base, cs, adopt)
    requires x < |cs| ==> i == base + x
    requires x >= |cs| ==> !(base <= i < base + |cs|)
    ensures |u.snapshot| == |u.ms| == |t.ms|
    ensures u.snapshot[i] == if x < |cs| then RenderKey(cs[x]) else t.snapshot[i]
    ensures u.ms[i] == if x < |cs| && (adopt || RenderKey(cs[x]) != t.snapshot[i]) then NEVER_MS else t.ms[i]
  {
    if x < |cs| {
      SliceAt(t.snapshot, base, base + |cs|, x, i);
      SliceAt(t.ms, base, base + |cs|, x, i);
      OverlayAt(t.snapshot, base, Keys(cs), x, i);
      OverlayAt(t.ms, base, if adopt then Repeat(NEVER_MS, |cs|) else SyncedMs(t.snapshot[base..base + |cs|], cs, t.ms[base..base + |cs|]), x, i);
    }
  }

  /** A bypassed row ends with the keys of the delta wherever the grid and the bound admit a cell. When
      it is adopted these cells have no time; otherwise a cell keeps its time if its key stays. Every
      other cell is untouched. */
  lemma {:induction false} BypassedCell(t: Tracker, rd: RowDelta, adopt: bool, row: nat, col: nat, u: Tracker)
    requires t.WellFormed() && Tracks(t, row, col) && u == BypassRow(t, rd, adopt)
    ensures u.WellFormed() && SameGrid(u, t) && Tracks(u, row, col)
    ensures KeyAt(u, row, col) == if Brings(rd, row, col) then RenderKey(rd.cells[col]) else KeyAt(t, row, col)
    ensures TimeAt(u, row, col) ==
            if Brings(rd, row, col) && (adopt || RenderKey(rd.cells[col]) != KeyAt(t, row, col)) then NEVER_MS
            else TimeAt(t, row, col)
    ensures u.generations == if rd.row < t.rows then t.generations[rd.row := rd.generation] else t.generations
  {
    var i := t.Base(row) + col;
    if rd.row < t.rows {
      var cs, seen := Tracked(t, rd), t.(generations := t.generations[rd.row := rd.generation]);
      if row == rd.row {
        TrackedWhen(t, rd, col);
      } else {
        OutsideSpan(t, rd, row, col, |cs|);
      }
      if cs != [] {
        var x := if row == rd.row && col < |cs| then col else |cs|;
        BypassedSpanCell(seen, t.Base(rd.row), cs, adopt, i, x, u);
      }
    }
    CellAt(t, row, col, i);
    CellAt(u, row, col, i);
  }
}
