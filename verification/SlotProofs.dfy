/** The slots that a whole frame hands out, over all its rows. */
module SlotProofs {
  import opened Basics
  import opened Terminal
  import opened Schedule
  import opened TrackerSpec
  import opened TrackerProofs
  import opened EffectsSpec

  /** The delta that a frame animates in row r, if any: the first one for the row, outside the
      animated region, and new. */
  function Animated(t: Tracker, f: FrameDelta, r: nat): Option<RowDelta>
    requires t.WellFormed()
  {
    var found := FindRow(f.rows, r);
    if found.Some? && found.value.row == r && !InRegion(r, f.animationRegion) && IsNew(t, found.value) then found else None
  }

  /** The units of row r that take a slot. */
  function UnitsIn(t: Tracker, f: FrameDelta, policy: Policy, r: nat): seq<nat>
    requires t.WellFormed()
  {
    var rd := Animated(t, f, r);
    if rd.None? then [] else HeadsIn(t, rd.value, policy)
  }

  /** How many slots the rows `from .. r` take. */
  function UnitsAbove(t: Tracker, f: FrameDelta, policy: Policy, from: nat, r: nat): nat
    requires t.WellFormed() && from <= r
    decreases r - from
  {
    if from == r then 0 else |UnitsIn(t, f, policy, from)| + UnitsAbove(t, f, policy, from + 1, r)
  }

  /** The cell at column x of row r belongs to the row's k-th unit that takes a slot. */
  ghost predicate InUnit(t: Tracker, f: FrameDelta, policy: Policy, r: nat, k: nat, x: nat)
    requires t.WellFormed()
  {
    var rd := Animated(t, f, r);
    && rd.Some? && k < |UnitsIn(t, f, policy, r)| && x < |Tracked(t, rd.value)|
    && Head(PassOver(t, rd.value, policy), Tracked(t, rd.value), x) == UnitsIn(t, f, policy, r)[k]
  }

  // ----- one row -----

  /** Everything about row q is the same in both trackers. */
  ghost predicate SameRow(a: Tracker, b: Tracker, q: nat) {
    && a.WellFormed() && b.WellFormed() && SameGrid(a, b)
    && (q < a.rows ==> a.generations[q] == b.generations[q])
    && forall col: nat :: Tracks(a, q, col) ==> KeyAt(a, q, col) == KeyAt(b, q, col) && TimeAt(a, q, col) == TimeAt(b, q, col)
  }

  lemma {:induction false} SameStoredKeys(a: Tracker, b: Tracker, rd: RowDelta)
    requires SameRow(a, b, rd.row) && rd.row < a.rows
    ensures Tracked(a, rd) == Tracked(b, rd) && StoredKeys(a, rd) == StoredKeys(b, rd)
  {
    var ka, kb := StoredKeys(a, rd), StoredKeys(b, rd);
    forall x: nat | x < |ka| ensures ka[x] == kb[x] {
      TrackedInGrid(a, rd, Tracked(a, rd), x);
      assert KeyAt(a, rd.row, x) == KeyAt(b, rd.row, x);
    }
  }

  lemma {:induction false} SameUnits(a: Tracker, b: Tracker, f: FrameDelta, policy: Policy, r: nat)
    requires SameRow(a, b, r)
    ensures Animated(a, f, r) == Animated(b, f, r) && UnitsIn(a, f, policy, r) == UnitsIn(b, f, policy, r)
    ensures forall k: nat, x: nat :: InUnit(a, f, policy, r, k, x) <==> InUnit(b, f, policy, r, k, x)
  {
    var rd := Animated(a, f, r);
    if rd.Some? {
      SameStoredKeys(a, b, rd.value);
    }
  }

  /** A visit takes the slots of its row and leaves all other rows alone. */
  lemma {:induction false} VisitTakesSlots(t: Tracker, s: Burst, f: FrameDelta, target: nat, now: real, policy: Policy, t': Tracker, s': Burst)
    requires t.WellFormed() && (t', s') == VisitRow(t, s, f, target, now, policy)
    ensures SameGrid(t', t) && s' == s.Consumed(|UnitsIn(t, f, policy, target)|)
    ensures forall q: nat :: q != target ==> SameRow(t, t', q)
  {
    FindRowIsMember(f.rows, target);
    var rd := Animated(t, f, target);
    if rd.Some? {
      var cs, keys := Tracked(t, rd.value), StoredKeys(t, rd.value);
      var pass := PassFor(policy, keys, cs);
      UpdatedRow(t, s, rd.value, now, policy, cs, keys, pass, UnitsIn(t, f, policy, target), t', s');
      UpdateShape(t, s, rd.value, now, policy, cs, keys, pass, t', s', UnitsIn(t, f, policy, target));
    }
  }

  lemma {:induction false} VisitStampsUnit(t: Tracker, s: Burst, f: FrameDelta, target: nat, now: real, policy: Policy,
                                           t': Tracker, s': Burst, k: nat, x: nat)
    requires t.WellFormed() && (t', s') == VisitRow(t, s, f, target, now, policy) && s.Active()
    requires InUnit(t, f, policy, target, k, x)
    ensures Tracks(t', target, x) && TimeAt(t', target, x) == s.Slot(k)
  {
    var rd := Animated(t, f, target).value;
    var cs, keys := Tracked(t, rd), StoredKeys(t, rd);
    var pass := PassFor(policy, keys, cs);
    KthUnitTakesKthSlot(t, s, rd, now, policy, cs, keys, pass, t', s', UnitsIn(t, f, policy, target), k, x);
  }

  // ----- the rows of the grid -----

  lemma {:induction false} SameUnitsAbove(a: Tracker, b: Tracker, f: FrameDelta, policy: Policy, from: nat, r: nat)
    requires a.WellFormed() && b.WellFormed() && from <= r && forall q: nat :: from <= q ==> SameRow(a, b, q)
    ensures UnitsAbove(a, f, policy, from, r) == UnitsAbove(b, f, policy, from, r)
    decreases r - from
  {
    if from < r {
      SameUnits(a, b, f, policy, from);
      SameUnitsAbove(a, b, f, policy, from + 1, r);
    }
  }

  lemma {:induction false} SameRowChain(a: Tracker, b: Tracker, c: Tracker, q: nat)
    requires SameRow(a, b, q) && SameRow(b, c, q)
    ensures SameRow(a, c, q)
  {
    forall col: nat | Tracks(a, q, col) ensures KeyAt(a, q, col) == KeyAt(c, q, col) && TimeAt(a, q, col) == TimeAt(c, q, col) {
      assert Tracks(b, q, col);
    }
  }

  /** Rows above `from` are not touched any more. */
  lemma {:induction false} RowsStay(t: Tracker, s: Burst, f: FrameDelta, from: nat, rows: nat, now: real, reconcile: bool, q: nat)
    requires t.WellFormed() && from <= rows && q < from
    ensures SameRow(t, VisitRows(t, s, f, from, rows, now, reconcile).0, q)
    decreases rows - from
  {
    if from < rows {
      var policy := PolicyFor(s, reconcile);
      var (t1, s1) := VisitRow(t, s, f, from, now, policy);
      VisitTakesSlots(t, s, f, from, now, policy, t1, s1);
      RowsStay(t1, s1, f, from + 1, rows, now, reconcile, q);
      SameRowChain(t, t1, VisitRows(t1, s1, f, from + 1, rows, now, reconcile).0, q);
    }
  }

  /** Slots are counted on from one schedule to the next. */
  lemma {:induction false} SlotsGoOn(s: Burst, n: nat, s1: Burst, j: nat, sum: nat)
    requires s1 == s.Consumed(n) && sum == n + j
    ensures s1.stagger == s.stagger && s1.Consumed(j) == s.Consumed(sum)
    ensures s.Active() ==> s1.Slot(j) == s.Slot(sum)
  {
    ConsumedAgain(s, n, j);
  }

  /** All rows together take consecutive slots. */
  lemma {:induction false} FrameTakesSlots(t: Tracker, s: Burst, f: FrameDelta, from: nat, rows: nat, now: real, reconcile: bool,
                                           policy: Policy, sum: nat)
    requires t.WellFormed() && from <= rows && policy == PolicyFor(s, reconcile)
    requires sum == UnitsAbove(t, f, policy, from, rows)
    ensures VisitRows(t, s, f, from, rows, now, reconcile).1 == s.Consumed(sum)
    decreases rows - from
  {
    if from < rows {
      var next, n := from + 1, |UnitsIn(t, f, policy, from)|;
      var (t1, s1) := VisitRow(t, s, f, from, now, policy);
      VisitTakesSlots(t, s, f, from, now, policy, t1, s1);
      var j := UnitsAbove(t1, f, policy, next, rows);
      SameUnitsAbove(t, t1, f, policy, next, rows);
      SlotsGoOn(s, n, s1, j, sum);
      FrameTakesSlots(t1, s1, f, next, rows, now, reconcile, policy, j);
    }
  }

  lemma {:induction false} VisitRowsGoOn(t: Tracker, s: Burst, f: FrameDelta, from: nat, next: nat, rows: nat, now: real, reconcile: bool,
                                         policy: Policy, t1: Tracker, s1: Burst, last: Tracker)
    requires t.WellFormed() && from < rows && next == from + 1 && policy == PolicyFor(s, reconcile)
    requires (t1, s1) == VisitRow(t, s, f, from, now, policy) && last == VisitRows(t, s, f, from, rows, now, reconcile).0
    ensures last == VisitRows(t1, s1, f, next, rows, now, reconcile).0
  {
  }

  lemma {:induction false} FirstRowStamped(t: Tracker, s: Burst, f: FrameDelta, from: nat, rows: nat, now: real, reconcile: bool,
                                           policy: Policy, k: nat, x: nat, next: nat)
    requires t.WellFormed() && s.Active() && from < rows && next == from + 1 && policy == PolicyFor(s, reconcile)
    requires InUnit(t, f, policy, from, k, x)
    ensures var t' := VisitRows(t, s, f, from, rows, now, reconcile).0;
            Tracks(t', from, x) && TimeAt(t', from, x) == s.Slot(k)
  {
    var (t1, s1) := VisitRow(t, s, f, from, now, policy);
    VisitTakesSlots(t, s, f, from, now, policy, t1, s1);
    VisitStampsUnit(t, s, f, from, now, policy, t1, s1, k, x);
    RowsStay(t1, s1, f, next, rows, now, reconcile, from);
  }

  /** A unit of a row further down, seen from behind the visit of row `from`. */
  lemma {:induction false} SlotBelow(t: Tracker, s: Burst, f: FrameDelta, from: nat, next: nat, now: real, policy: Policy,
                                     t1: Tracker, s1: Burst, r: nat, k: nat, x: nat, slot: nat) returns (j: nat)
    requires t.WellFormed() && s.Active() && next == from + 1 <= r && (t1, s1) == VisitRow(t, s, f, from, now, policy)
    requires InUnit(t, f, policy, r, k, x) && slot == UnitsAbove(t, f, policy, from, r) + k
    ensures InUnit(t1, f, policy, r, k, x) && j == UnitsAbove(t1, f, policy, next, r) + k
    ensures s1.stagger == s.stagger && s1.Slot(j) == s.Slot(slot)
  {
    var above := UnitsAbove(t1, f, policy, next, r);
    j := above + k;
    VisitTakesSlots(t, s, f, from, now, policy, t1, s1);
    SameUnits(t, t1, f, policy, r);
    SameUnitsAbove(t, t1, f, policy, next, r);
    UnitsAboveStep(t, f, policy, from, next, r);
    SlotsGoOn(s, |UnitsIn(t, f, policy, from)|, s1, j, slot);
  }

  /** The k-th unit of row r takes the slot that follows those of the rows above and of the
      units before it. */
  lemma {:induction false} UnitTakesSlot(t: Tracker, s: Burst, f: FrameDelta, from: nat, rows: nat, now: real, reconcile: bool,
                                         policy: Policy, r: nat, k: nat, x: nat, slot: nat)
    requires t.WellFormed() && s.Active() && from <= r < rows && policy == PolicyFor(s, reconcile)
    requires InUnit(t, f, policy, r, k, x) && slot == UnitsAbove(t, f, policy, from, r) + k
    ensures var t' := VisitRows(t, s, f, from, rows, now, reconcile).0;
            Tracks(t', r, x) && TimeAt(t', r, x) == s.Slot(slot)
    decreases rows - from
  {
    var next := from + 1;
    if r == from {
      FirstRowStamped(t, s, f, from, rows, now, reconcile, policy, k, x, next);
    } else {
      var (t1, s1) := VisitRow(t, s, f, from, now, policy);
      var j := SlotBelow(t, s, f, from, next, now, policy, t1, s1, r, k, x, slot);
      UnitTakesSlot(t1, s1, f, next, rows, now, reconcile, policy, r, k, x, j);
      VisitRowsGoOn(t, s, f, from, next, rows, now, reconcile, policy, t1, s1, VisitRows(t, s, f, from, rows, now, reconcile).0);
    }
  }

  lemma {:induction false} UnitsAboveStep(t: Tracker, f: FrameDelta, policy: Policy, from: nat, next: nat, r: nat)
    requires t.WellFormed() && next == from + 1 <= r
    ensures UnitsAbove(t, f, policy, from, r) == |UnitsIn(t, f, policy, from)| + UnitsAbove(t, f, policy, next, r)
  {
  }

  lemma {:induction false} UnitsAboveGrow(t: Tracker, f: FrameDelta, policy: Policy, from: nat, r: nat, q: nat)
    requires t.WellFormed() && from <= r < q
    ensures UnitsAbove(t, f, policy, from, r) + |UnitsIn(t, f, policy, r)| <= UnitsAbove(t, f, policy, from, q)
    decreases r - from
  {
    var next := from + 1;
    UnitsAboveStep(t, f, policy, from, next, q);
    if from < r {
      UnitsAboveStep(t, f, policy, from, next, r);
      UnitsAboveGrow(t, f, policy, next, r, q);
    }
  }

  /** Over a whole frame that animates the grid (the typewriter, or a repaint under it) the fresh
      times ascend strictly in reading order: along each row, and from each row to the ones below. */
  lemma {:induction false} FreshTimesAscend(m: Model, t: Tracker, s: Burst, f: FrameDelta, now: real, repaint: bool,
                                            begun: Burst, policy: Policy, r: nat, k: nat, x: nat, q: nat, l: nat, y: nat)
    requires t.WellFormed() && begun == s.Begin(now, m.config.durationMs as real) && begun.Active()
    requires (repaint || m.config.textAnimation == Typewriter) && policy == PolicyFor(begun, repaint)
    requires r < f.size.rows && q < f.size.rows && InUnit(t, f, policy, r, k, x) && InUnit(t, f, policy, q, l, y)
    requires r < q || (r == q && k < l)
    ensures var t' := RevealStep(m, t, s, f, now, false, repaint).0;
            Tracks(t', r, x) && Tracks(t', q, y) && now <= TimeAt(t', r, x) < TimeAt(t', q, y)
  {
    var i, j := UnitsAbove(t, f, policy, 0, r) + k, UnitsAbove(t, f, policy, 0, q) + l;
    UnitTakesSlot(t, begun, f, 0, f.size.rows, now, repaint, policy, r, k, x, i);
    UnitTakesSlot(t, begun, f, 0, f.size.rows, now, repaint, policy, q, l, y, j);
    if r < q {
      UnitsAboveGrow(t, f, policy, 0, r, q);
    }
    SlotsAscend(begun, i, j);
    FirstSlotIsPunctual(s, now, m.config.durationMs as real, begun, i);
  }

  lemma {:induction false} FirstSlotIsPunctual(s: Burst, now: real, duration: real, begun: Burst, i: nat)
    requires begun == s.Begin(now, duration) && begun.Active()
    ensures now <= begun.Slot(i)
  {
    BeginIsPunctual(s, now, duration);
    if i > 0 {
      SlotsAscend(begun, 0, i);
    }
  }

  lemma {:induction false} SlotsInOrder(b: Burst, n: nat, later: real, duration: real, i: nat, j: nat)
    requires b.Active() && i < n && later >= 0.0 && duration > 0.0
    requires b.Consumed(n).next <= later + MAX_AHEAD_MS || b.Consumed(n).last < later
    ensures b.Slot(i) < b.Consumed(n).Begin(later, duration).Slot(j)
  {
    RebuildKeepsOrderWhen(b, n, later, duration);
  }

  /** Over two frames: the fresh times of the second come after all fresh times of the first,
      unless the schedule that the first one leaves is too far ahead and not yet past. */
  lemma {:induction false} OrderHoldsAcrossFrames(m: Model, t: Tracker, s: Burst, f: FrameDelta, now: real, repaint: bool,
                                                  begun: Burst, policy: Policy, s': Burst, r: nat, k: nat, x: nat,
                                                  n: Model, u: Tracker, g: FrameDelta, later: real, begun': Burst,
                                                  q: nat, l: nat, y: nat)
    requires t.WellFormed() && begun == s.Begin(now, m.config.durationMs as real) && begun.Active()
    requires (repaint || m.config.textAnimation == Typewriter) && policy == PolicyFor(begun, repaint)
    requires s' == RevealStep(m, t, s, f, now, false, repaint).1
    requires r < f.size.rows && InUnit(t, f, policy, r, k, x)
    requires u.WellFormed() && n.config.textAnimation == Typewriter && n.config.durationMs > 0 && later >= 0.0
    requires begun' == s'.Begin(later, n.config.durationMs as real)
    requires q < g.size.rows && InUnit(u, g, UpdatePolicy(begun'), q, l, y)
    requires s'.next <= later + MAX_AHEAD_MS || s'.last < later
    ensures var t', u' := RevealStep(m, t, s, f, now, false, repaint).0, RevealStep(n, u, s', g, later, false, false).0;
            Tracks(t', r, x) && Tracks(u', q, y) && TimeAt(t', r, x) < TimeAt(u', q, y)
  {
    var i, j := UnitsAbove(t, f, policy, 0, r) + k, UnitsAbove(u, g, UpdatePolicy(begun'), 0, q) + l;
    var all := UnitsAbove(t, f, policy, 0, f.size.rows);
    FrameTakesSlots(t, begun, f, 0, f.size.rows, now, repaint, policy, all);
    UnitsAboveGrow(t, f, policy, 0, r, f.size.rows);
    UnitTakesSlot(t, begun, f, 0, f.size.rows, now, repaint, policy, r, k, x, i);
    UnitTakesSlot(u, begun', g, 0, g.size.rows, later, false, UpdatePolicy(begun'), q, l, y, j);
    SlotsInOrder(begun, all, later, n.config.durationMs as real, i, j);
  }
}
