/** The bounded change tracker: dense arrays updated in place. */
module ChangeTracking {
  import opened Basics
  import opened Terminal
  import opened Sequences
  import opened Schedule
  import opened TrackerSpec

  /** A packed change time. Packing rounds to a 32-bit float; all that is ever asked of the
      result is whether it is the sentinel. */
  datatype PackedTime = NeverBits | TimeBits(seconds: real)

  function PackTimeMs(ms: real): PackedTime {
    if ms == NEVER_MS then NeverBits else TimeBits(ms / 1000.0)
  }

  lemma {:induction false} ShiftedTogether(times: seq<PackedTime>, ms: seq<real>, n: nat)
    requires n <= |ms| == |times| && forall i :: 0 <= i < |ms| ==> times[i] == PackTimeMs(ms[i])
    ensures forall i :: 0 <= i < |ms| ==> ShiftedOut(times, n, NeverBits)[i] == PackTimeMs(ShiftedOut(ms, n, NEVER_MS)[i])
  {
  }

  class ChangeTracker {
    var cols: nat
    var rows: nat
    var cap: nat
    const maxCells: nat
    var snapshot: seq<bv64>
    var changeTimes: seq<PackedTime>
    var changeMs: seq<real>
    var rowGenerations: seq<nat>
    var lastChangeMs: real

    function State(): Tracker
      reads this
    {
      Tracker(cols, rows, cap, maxCells, snapshot, changeMs, rowGenerations, lastChangeMs)
    }

    /** The packed times say the same as the exact ones. */
    ghost predicate Packed()
      reads this
    {
      |changeTimes| == |changeMs| && forall i :: 0 <= i < |changeMs| ==> changeTimes[i] == PackTimeMs(changeMs[i])
    }

    ghost predicate Valid()
      reads this
    {
      State().WellFormed() && Packed()
    }

    constructor (cols: nat, rows: nat, maxCells: nat)
      ensures Valid() && State() == Tracker.New(cols, rows, maxCells)
    {
      this.cols, this.rows, this.maxCells := cols, rows, maxCells;
      cap := CapFor(cols, rows, maxCells);
      snapshot := Repeat(UNSEEN_KEY, CapFor(cols, rows, maxCells));
      changeTimes := Repeat(NeverBits, CapFor(cols, rows, maxCells));
      changeMs := Repeat(NEVER_MS, CapFor(cols, rows, maxCells));
      rowGenerations := Repeat(UNSEEN_GENERATION, rows);
      lastChangeMs := NEVER_MS;
    }

    method Resize(cols: nat, rows: nat, now: real)
      requires Valid()
      modifies this
      ensures Valid() && State() == TrackerSpec.Resize(old(State()), cols, rows, now)
    {
      var newCap := CapFor(cols, rows, maxCells);
      this.cols, this.rows := cols, rows;
      if newCap != cap {
        var preserve := Min(cap, newCap);
        snapshot := snapshot[..preserve] + Repeat(UNSEEN_KEY, newCap - preserve);
        changeTimes := changeTimes[..preserve] + Repeat(PackTimeMs(now), newCap - preserve);
        changeMs := changeMs[..preserve] + Repeat(now, newCap - preserve);
        cap := newCap;
      }
      rowGenerations := Resized(rowGenerations, rows, UNSEEN_GENERATION);
    }

    method RecomputeLast()
      modifies this`lastChangeMs
      ensures lastChangeMs == MaxMs(changeMs)
    {
      var last := NEVER_MS;
      for i := 0 to |changeMs|
        invariant last == MaxMs(changeMs[..i])
      {
        assert changeMs[..i + 1][..i] == changeMs[..i];
        last := Max(last, changeMs[i]);
      }
      assert changeMs[..|changeMs|] == changeMs;
      lastChangeMs := last;
    }

    /** Write one time into the n cells of a unit. */
    method StampUnit(index: nat, n: nat, timestamp: real)
      requires Packed() && index + n <= |changeMs|
      modifies this`changeTimes, this`changeMs
      ensures Packed() && changeMs == Overlay(old(changeMs), index, Repeat(timestamp, n))
    {
      for offset := 0 to n
        invariant Packed() && |changeMs| == |old(changeMs)|
        invariant forall i :: 0 <= i < |changeMs| ==>
                    changeMs[i] == if index <= i < index + offset then timestamp else old(changeMs)[i]
      {
        changeTimes := changeTimes[index + offset := PackTimeMs(timestamp)];
        changeMs := changeMs[index + offset := timestamp];
      }
    }

    /** Forget the times of the n cells of a unit, and say whether there was one. */
    method ClearUnit(index: nat, n: nat) returns (cleared: bool)
      requires Packed() && index + n <= |changeMs|
      modifies this`changeTimes, this`changeMs
      ensures Packed() && changeMs == Overlay(old(changeMs), index, Repeat(NEVER_MS, n))
      ensures cleared <==> HasTimes(old(changeMs), index, n)
    {
      cleared := false;
      for offset := 0 to n
        invariant Packed() && |changeMs| == |old(changeMs)|
        invariant forall i :: 0 <= i < |changeMs| ==>
                    changeMs[i] == if index <= i < index + offset then NEVER_MS else old(changeMs)[i]
        invariant cleared <==> exists i :: index <= i < index + offset && old(changeMs)[i] != NEVER_MS
      {
        if changeTimes[index + offset] != NeverBits {
          changeTimes := changeTimes[index + offset := NeverBits];
          changeMs := changeMs[index + offset := NEVER_MS];
          cleared := true;
        }
      }
    }

    method SlotOrShared(anim: real, schedule: TypewriterSchedule) returns (timestamp: real)
      modifies schedule
      ensures timestamp == StampTime(old(schedule.Value()), anim, 0)
      ensures schedule.Value() == old(schedule.Value()).Consumed(1)
    {
      if schedule.IsActive() {
        timestamp := schedule.NextTimestamp();
      } else {
        timestamp := anim;
      }
    }

    /** The tracker, the schedule and the two flags of a row pass are where `p` says. */
    ghost predicate At(p: Progress, schedule: TypewriterSchedule, keyChanged: bool, touched: bool)
      reads this, schedule
    {
      && snapshot == p.snapshot
      && changeMs == p.ms
      && schedule.Value() == p.schedule
      && keyChanged == p.keyChanged
      && touched == p.touched
    }

    /** The same for a pass that stores no keys. */
    ghost predicate Restamped(p: Progress, schedule: TypewriterSchedule, touched: bool)
      reads this, schedule
    {
      changeMs == p.ms && schedule.Value() == p.schedule && touched == p.touched
    }

    /** Store the keys of a unit. If one of them is new, the unit takes a time or loses its times. */
    method StampChangedUnit(index: nat, unit: seq<Cell>, policy: Policy, anim: real, schedule: TypewriterSchedule,
                            keyChanged: bool, touched: bool, ghost p: Progress)
      returns (keyChanged': bool, touched': bool)
      requires Packed() && index + |unit| <= |snapshot| == |changeMs| && unit != []
      requires At(p, schedule, keyChanged, touched)
      modifies this`snapshot, this`changeTimes, this`changeMs, schedule
      ensures Packed() && At(ChangedUnit(p, index, unit, policy, anim), schedule, keyChanged', touched')
    {
      keyChanged', touched' := keyChanged, touched;
      if KeysDiffer(snapshot, index, unit) {
        keyChanged' := true;
        if TakesTime(policy, unit[0]) {
          var timestamp := SlotOrShared(anim, schedule);
          StampUnit(index, |unit|, timestamp);
          touched' := true;
        } else {
          var cleared := ClearUnit(index, |unit|);
          touched' := touched || cleared;
        }
      }
      snapshot := Overlay(snapshot, index, Keys(unit));
    }

    /** One step of the first pass: from the unit at x to the next. */
    method StampNextUnit(base: nat, cs: seq<Cell>, x: nat, anim: real, schedule: TypewriterSchedule, policy: Policy,
                         keyChanged: bool, touched: bool, ghost snapshot0: seq<bv64>, ghost ms0: seq<real>, ghost s0: Burst)
      returns (end: nat, keyChanged': bool, touched': bool)
      requires Packed() && base + |cs| <= |snapshot0| == |ms0| && x < |cs| && UnitStart(Changed(policy), cs, x)
      requires At(After(Changed(policy), snapshot0, ms0, base, cs, s0, anim, x), schedule, keyChanged, touched)
      modifies this`snapshot, this`changeTimes, this`changeMs, schedule
      ensures x < end <= |cs| && UnitStart(Changed(policy), cs, end) && Packed()
      ensures At(After(Changed(policy), snapshot0, ms0, base, cs, s0, anim, end), schedule, keyChanged', touched')
    {
      end := UnitEnd(Changed(policy), cs, x);
      var index, unit := base + x, cs[x..end];
      ghost var p := After(Changed(policy), snapshot0, ms0, base, cs, s0, anim, x);
      AfterUnit(policy, snapshot0, ms0, base, cs, s0, anim, x, end, index, unit, p);
      keyChanged', touched' := StampChangedUnit(index, unit, policy, anim, schedule, keyChanged, touched, p);
    }

    /** The first pass over a row. Streaming treats every cell as a unit that takes a time. */
    method StampChangedUnits(base: nat, cs: seq<Cell>, anim: real, schedule: TypewriterSchedule, policy: Policy)
      returns (keyChanged: bool, touched: bool)
      requires Packed() && base + |cs| <= |snapshot| == |changeMs|
      modifies this`snapshot, this`changeTimes, this`changeMs, schedule
      ensures Packed()
      ensures At(After(Changed(policy), old(snapshot), old(changeMs), base, cs, old(schedule.Value()), anim, |cs|),
                 schedule, keyChanged, touched)
    {
      ghost var snapshot0, ms0, s0 := snapshot, changeMs, schedule.Value();
      keyChanged, touched := false, false;
      AfterNone(Changed(policy), snapshot0, ms0, base, cs, s0, anim);
      var x: nat := 0;
      while x < |cs|
        invariant x <= |cs| && Packed() && UnitStart(Changed(policy), cs, x)
        invariant At(After(Changed(policy), snapshot0, ms0, base, cs, s0, anim, x), schedule, keyChanged, touched)
      {
        x, keyChanged, touched := StampNextUnit(base, cs, x, anim, schedule, policy, keyChanged, touched, snapshot0, ms0, s0);
      }
    }

    /** One step of the second pass. */
    method RestampNextUnit(base: nat, cs: seq<Cell>, x: nat, anim: real, schedule: TypewriterSchedule, touched: bool,
                           ghost ms0: seq<real>, ghost s0: Burst)
      returns (end: nat, touched': bool)
      requires Packed() && base + |cs| <= |snapshot| == |ms0| && x < |cs| && UnitStart(Repeated, cs, x)
      requires Restamped(After(Repeated, snapshot, ms0, base, cs, s0, anim, x), schedule, touched)
      modifies this`changeTimes, this`changeMs, schedule
      ensures x < end <= |cs| && UnitStart(Repeated, cs, end) && Packed()
      ensures Restamped(After(Repeated, snapshot, ms0, base, cs, s0, anim, end), schedule, touched')
    {
      end := UnitEnd(Repeated, cs, x);
      var index, n := base + x, end - x;
      ghost var p := After(Repeated, snapshot, ms0, base, cs, s0, anim, x);
      ghost var q := After(Repeated, snapshot, ms0, base, cs, s0, anim, end);
      AfterRepeatedUnit(snapshot, ms0, base, cs, s0, anim, x, end, index, n, p, q);
      touched' := touched;
      if PaintsGlyph(cs[x]) {
        var timestamp := SlotOrShared(anim, schedule);
        StampUnit(index, n, timestamp);
        touched' := true;
      }
    }

    /** The second pass: an identical row was written again, so its drawable units are timed afresh. */
    method RestampUnits(base: nat, cs: seq<Cell>, anim: real, schedule: TypewriterSchedule) returns (touched: bool)
      requires Packed() && base + |cs| <= |snapshot| == |changeMs|
      modifies this`changeTimes, this`changeMs, schedule
      ensures Packed()
      ensures Restamped(After(Repeated, old(snapshot), old(changeMs), base, cs, old(schedule.Value()), anim, |cs|), schedule, touched)
    {
      ghost var snapshot0, ms0, s0 := snapshot, changeMs, schedule.Value();
      touched := false;
      AfterNone(Repeated, snapshot0, ms0, base, cs, s0, anim);
      var x: nat := 0;
      while x < |cs|
        invariant x <= |cs| && Packed() && snapshot == snapshot0 && UnitStart(Repeated, cs, x)
        invariant Restamped(After(Repeated, snapshot0, ms0, base, cs, s0, anim, x), schedule, touched)
      {
        x, touched := RestampNextUnit(base, cs, x, anim, schedule, touched, ms0, s0);
      }
    }

    /** Both passes over the tracked cells of a row. */
    method EditSpan(base: nat, cs: seq<Cell>, anim: real, schedule: TypewriterSchedule, policy: Policy)
      requires Packed() && base + |cs| <= |snapshot| == |changeMs|
      modifies this`snapshot, this`changeTimes, this`changeMs, this`lastChangeMs, schedule
      ensures Packed()
      ensures (State(), schedule.Value()) == TrackerSpec.EditSpan(old(State()), old(schedule.Value()), base, cs, anim, policy)
    {
      ghost var snapshot0, ms0, s0 := snapshot, changeMs, schedule.Value();
      ghost var old_ := snapshot[base..base + |cs|];
      ghost var p := After(PassFor(policy, old_, cs), snapshot0, ms0, base, cs, s0, anim, |cs|);
      var keyChanged, touched := StampChangedUnits(base, cs, anim, schedule, policy);
      if !keyChanged && !policy.DrawableUnits? {
        IdenticalRowIsQuiet(policy, snapshot0, ms0, base, cs, s0, anim);
        assert snapshot == snapshot0 && changeMs == ms0 && !touched;
        assert p.snapshot == snapshot by {
          OverlaySkips(snapshot0, base, Keys(cs), 0, |cs|);
        }
        if exists x :: 0 <= x < |cs| && PaintsGlyph(cs[x]) {
          touched := RestampUnits(base, cs, anim, schedule);
        } else {
          QuietPass(Repeated, snapshot0, ms0, base, cs, s0, anim, old_);
        }
      }
      assert snapshot == p.snapshot && changeMs == p.ms && schedule.Value() == p.schedule && touched == p.touched;
      if touched {
        RecomputeLast();
      }
    }

    method UpdateRowWithPolicy(row: nat, generation: nat, cells: seq<Cell>, anim: real, schedule: TypewriterSchedule, policy: Policy)
      requires Valid()
      modifies this, schedule
      ensures Valid()
      ensures (State(), schedule.Value())
           == TrackerSpec.UpdateRow(old(State()), old(schedule.Value()), RowDelta(row, generation, cells, []), anim, policy)
    {
      if row >= rows || rowGenerations[row] == generation {
        return;
      }
      ghost var t := State();
      rowGenerations := rowGenerations[row := generation];
      ghost var seen := State();
      assert seen == t.(generations := t.generations[row := generation]);
      var base := row * cols;
      assert base == t.Base(row);
      if base >= cap {
        return;
      }
      var len := Min(Min(|cells|, cols), cap - base);
      assert len == t.SpanLen(row, |cells|);
      if len != 0 {
        var cs := cells[..len];
        EditSpan(base, cs, anim, schedule, policy);
      }
    }

    method UpdateRow(row: nat, generation: nat, cells: seq<Cell>, anim: real, schedule: TypewriterSchedule)
      requires Valid()
      modifies this, schedule
      ensures Valid()
      ensures (State(), schedule.Value())
           == TrackerSpec.UpdateRow(old(State()), old(schedule.Value()), RowDelta(row, generation, cells, []), anim,
                                    UpdatePolicy(old(schedule.Value())))
    {
      var policy := if schedule.IsActive() then DrawableUnitsAndRepeat else EveryChangedCell;
      UpdateRowWithPolicy(row, generation, cells, anim, schedule, policy);
    }

    method ReconcileFullRow(row: nat, generation: nat, cells: seq<Cell>, anim: real, schedule: TypewriterSchedule)
      requires Valid()
      modifies this, schedule
      ensures Valid()
      ensures (State(), schedule.Value())
           == TrackerSpec.UpdateRow(old(State()), old(schedule.Value()), RowDelta(row, generation, cells, []), anim, DrawableUnits)
    {
      UpdateRowWithPolicy(row, generation, cells, anim, schedule, DrawableUnits);
    }

    /** One bypassed cell: a new key forgets the time. Reports whether there was one. */
    method SyncCell(index: nat, key: bv64) returns (cleared: bool)
      requires Packed() && index < |snapshot| == |changeMs|
      modifies this`snapshot, this`changeTimes, this`changeMs
      ensures Packed() && snapshot == old(snapshot)[index := key]
      ensures changeMs == if old(snapshot)[index] == key then old(changeMs) else old(changeMs)[index := NEVER_MS]
      ensures cleared <==> old(snapshot)[index] != key && old(changeMs)[index] != NEVER_MS
    {
      cleared := false;
      if snapshot[index] != key {
        snapshot := snapshot[index := key];
        if changeTimes[index] != NeverBits {
          changeTimes := changeTimes[index := NeverBits];
          changeMs := changeMs[index := NEVER_MS];
          cleared := true;
        }
      }
    }

    /** Take over the keys of a bypassed row; a time survives only where its key does. */
    method SyncSpan(base: nat, cs: seq<Cell>) returns (cleared: bool)
      requires Packed() && base + |cs| <= |snapshot| == |changeMs|
      modifies this`snapshot, this`changeTimes, this`changeMs
      ensures Packed() && State() == BypassSpan(old(State()), base, cs, false)
      ensures cleared <==> changeMs != old(changeMs)
    {
      ghost var t := State();
      ghost var snapshot0, ms0, keys := t.snapshot, t.ms, Keys(cs);
      ghost var span := SyncedMs(snapshot0[base..base + |cs|], cs, ms0[base..base + |cs|]);
      SyncedSpanIs(t, base, cs, keys, span);
      cleared := false;
      for col := 0 to |cs|
        invariant Packed()
        invariant snapshot == OverlayTo(snapshot0, base, keys, col)
        invariant changeMs == OverlayTo(ms0, base, span, col)
        invariant cleared <==> changeMs != ms0
      {
        var index := base + col;
        SyncedPoint(snapshot0, ms0, base, cs, keys, span, col, index);
        var forgot := SyncCell(index, RenderKey(cs[col]));
        cleared := cleared || forgot;
      }
    }

    method SyncRow(rd: RowDelta) returns (cleared: bool)
      requires Valid()
      modifies this
      ensures Valid() && State() == BypassRow(old(State()), rd, false)
      ensures cleared <==> changeMs != old(changeMs)
    {
      cleared := false;
      if rd.row >= rows {
        return;
      }
      ghost var t := State();
      var base := rd.row * cols;
      var len := Min(Min(|rd.cells|, cols), if cap < base then 0 else cap - base);
      assert base == t.Base(rd.row) && len == t.SpanLen(rd.row, |rd.cells|);
      rowGenerations := rowGenerations[rd.row := rd.generation];
      ghost var seen := State();
      assert seen == t.(generations := t.generations[rd.row := rd.generation]);
      if len != 0 {
        var cs := rd.cells[..len];
        cleared := SyncSpan(base, cs);
      }
    }

    method SyncRowsWithoutStamping(deltas: seq<RowDelta>)
      requires Valid()
      modifies this
      ensures Valid() && State() == SyncRows(old(State()), deltas)
    {
      ghost var ms0, result := changeMs, BypassRows(State(), deltas, false);
      var timestampsChanged := false;
      for k := 0 to |deltas|
        invariant Valid() && lastChangeMs == old(lastChangeMs)
        invariant BypassRows(State(), deltas[k..], false) == result
        invariant OnlyForgets(ms0, changeMs) && (timestampsChanged <==> changeMs != ms0)
      {
        ghost var was := State();
        assert deltas[k..][0] == deltas[k] && deltas[k..][1..] == deltas[k + 1..];
        var cleared := SyncRow(deltas[k]);
        BypassRowOnlyForgets(was, deltas[k], false);
        OnlyForgetsMore(ms0, was.ms, changeMs);
        timestampsChanged := timestampsChanged || cleared;
      }
      if timestampsChanged {
        RecomputeLast();
      }
    }

    method ClearChanges()
      requires Valid()
      modifies this
      ensures Valid() && State() == TrackerSpec.ClearChanges(old(State()))
    {
      changeTimes := Repeat(NeverBits, |changeTimes|);
      changeMs := Repeat(NEVER_MS, |changeMs|);
      lastChangeMs := NEVER_MS;
    }

    method AdoptSpan(base: nat, cs: seq<Cell>)
      requires Packed() && base + |cs| <= |snapshot| == |changeMs|
      modifies this`snapshot, this`changeTimes, this`changeMs
      ensures Packed() && State() == BypassSpan(old(State()), base, cs, true)
    {
      ghost var snapshot0, ms0, keys, span := snapshot, changeMs, Keys(cs), Repeat(NEVER_MS, |cs|);
      for col := 0 to |cs|
        invariant Packed()
        invariant snapshot == OverlayTo(snapshot0, base, keys, col)
        invariant changeMs == OverlayTo(ms0, base, span, col)
      {
        var index := base + col;
        OverlayPoint(snapshot0, base, keys, col, index);
        OverlayPoint(ms0, base, span, col, index);
        snapshot := snapshot[index := RenderKey(cs[col])];
        changeTimes := changeTimes[index := NeverBits];
        changeMs := changeMs[index := NEVER_MS];
      }
    }

    method AdoptRow(rd: RowDelta)
      requires Valid()
      modifies this
      ensures Valid() && State() == BypassRow(old(State()), rd, true)
    {
      if rd.row >= rows {
        return;
      }
      ghost var t := State();
      var base := rd.row * cols;
      var len := Min(Min(|rd.cells|, cols), if cap < base then 0 else cap - base);
      assert base == t.Base(rd.row) && len == t.SpanLen(rd.row, |rd.cells|);
      rowGenerations := rowGenerations[rd.row := rd.generation];
      ghost var seen := State();
      assert seen == t.(generations := t.generations[rd.row := rd.generation]);
      if len != 0 {
        var cs := rd.cells[..len];
        AdoptSpan(base, cs);
      }
    }

    method AdoptRows(deltas: seq<RowDelta>)
      requires Valid()
      modifies this
      ensures Valid() && State() == TrackerSpec.AdoptRows(old(State()), deltas)
    {
      ghost var result := BypassRows(State(), deltas, true);
      for k := 0 to |deltas|
        invariant Valid()
        invariant BypassRows(State(), deltas[k..], true) == result
      {
        assert deltas[k..][0] == deltas[k] && deltas[k..][1..] == deltas[k + 1..];
        AdoptRow(deltas[k]);
      }
      lastChangeMs := NEVER_MS;
    }

    method TranslateUpOne()
      requires Valid()
      modifies this
      ensures Valid() && State() == TrackerSpec.TranslateUpOne(old(State()))
    {
      var shift := Min(cols, cap);
      ShiftedTogether(changeTimes, changeMs, shift);
      snapshot := ShiftedOut(snapshot, shift, UNSEEN_KEY);
      changeTimes := ShiftedOut(changeTimes, shift, NeverBits);
      changeMs := ShiftedOut(changeMs, shift, NEVER_MS);
      rowGenerations := Repeat(UNSEEN_GENERATION, |rowGenerations|);
      RecomputeLast();
    }
  }
}
