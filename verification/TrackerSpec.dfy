/** What the bounded change tracker computes, as functions on its value. */
module TrackerSpec {
  import opened Basics
  import opened Terminal
  import opened Sequences
  import opened Schedule

  /** The snapshot entry of a cell that was never seen. */
  const UNSEEN_KEY: bv64 := 0xFFFF_FFFF_FFFF_FFFF

  /** The stored generation of a row that was never seen. */
  const UNSEEN_GENERATION: nat := 0xFFFF_FFFF_FFFF_FFFF

  function PackKey(content: bv32, style: bv16, flags: bv16): bv64 {
    (content as bv64) | ((style as bv64) << 32) | ((flags as bv64) << 48)
  }

  function RenderKey(c: Cell): bv64 {
    PackKey(c.content, c.style, c.flags)
  }

  function Keys(cs: seq<Cell>): (r: seq<bv64>)
    ensures |r| == |cs| && forall x :: 0 <= x < |cs| ==> r[x] == RenderKey(cs[x])
  {
    seq(|cs|, x requires 0 <= x < |cs| => RenderKey(cs[x]))
  }

  function CapFor(cols: nat, rows: nat, maxCells: nat): nat {
    Min(cols * rows, if maxCells < 1 then 1 else maxCells)
  }

  /** The latest of the change times, or `NEVER_MS`. */
  function MaxMs(ms: seq<real>): (r: real)
    ensures r >= NEVER_MS && forall i :: 0 <= i < |ms| ==> ms[i] <= r
    ensures r == NEVER_MS || r in ms
  {
    if |ms| == 0 then NEVER_MS else Max(MaxMs(ms[..|ms| - 1]), ms[|ms| - 1])
  }

  /** Row-major prefix of the grid: a render key and a change time per tracked cell. The
      packed bit patterns are a function of the change times, so they are not part of it. */
  datatype Tracker = Tracker(
    cols: nat, rows: nat, cap: nat, maxCells: nat,
    snapshot: seq<bv64>, ms: seq<real>, generations: seq<nat>, last: real)
  {
    ghost predicate WellFormed() {
      && cap == CapFor(cols, rows, maxCells)
      && |snapshot| == |ms| == cap
      && |generations| == rows
    }

    /** The cached time agrees with the whole array. */
    ghost predicate LastAgrees() {
      last == MaxMs(ms)
    }

    /** Where a row is stored. */
    function Base(row: nat): nat {
      row * cols
    }

    /** How many of `count` cells of a row are tracked. */
    function SpanLen(row: nat, count: nat): (n: nat)
      ensures n <= count && n <= cols && (n > 0 ==> Base(row) + n <= cap)
    {
      if Base(row) >= cap then 0 else Min(Min(count, cols), cap - Base(row))
    }

    static function New(cols: nat, rows: nat, maxCells: nat): Tracker {
      var cap := CapFor(cols, rows, maxCells);
      Tracker(cols, rows, cap, maxCells,
              Repeat(UNSEEN_KEY, cap), Repeat(NEVER_MS, cap), Repeat(UNSEEN_GENERATION, rows), NEVER_MS)
    }
  }

  /** Which cells of a row receive a change time. */
  datatype Policy = EveryChangedCell | DrawableUnits | DrawableUnitsAndRepeat

  /** One pass over a row: stamp what changed, or stamp a repeated identical row. */
  datatype Pass = Changed(policy: Policy) | Repeated

  /** Cells x and x+1 are a wide glyph and its spacer, and the pass treats them as one. */
  predicate Paired(pass: Pass, cs: seq<Cell>, x: nat)
    requires x < |cs|
  {
    pass != Changed(EveryChangedCell) && IsWide(cs[x]) && x + 1 < |cs| && IsSpacer(cs[x + 1])
  }

  /** Position x begins a character unit of the left-to-right parse (or ends the row). */
  predicate UnitStart(pass: Pass, cs: seq<Cell>, x: nat)
    requires x <= |cs|
  {
    x == 0 || !(UnitStart(pass, cs, x - 1) && Paired(pass, cs, x - 1))
  }

  /** Where the unit holding cell x begins. */
  function Head(pass: Pass, cs: seq<Cell>, x: nat): (h: nat)
    requires x < |cs|
    ensures h <= x <= h + 1 && UnitStart(pass, cs, h) && (h < x ==> Paired(pass, cs, h))
  {
    if UnitStart(pass, cs, x) then x else x - 1
  }

  predicate UnitDiffers(pass: Pass, old_: seq<bv64>, cs: seq<Cell>, h: nat)
    requires |old_| == |cs| && h < |cs|
  {
    RenderKey(cs[h]) != old_[h] || (Paired(pass, cs, h) && RenderKey(cs[h + 1]) != old_[h + 1])
  }

  /** The unit beginning at h consumes a timestamp. */
  predicate Takes(pass: Pass, old_: seq<bv64>, cs: seq<Cell>, h: nat)
    requires |old_| == |cs| && h < |cs|
  {
    match pass
    case Changed(policy) => UnitDiffers(pass, old_, cs, h) && TakesTime(policy, cs[h])
    case Repeated => PaintsGlyph(cs[h])
  }

  /** The number of units that begin before x and consume a timestamp. */
  function Slots(pass: Pass, old_: seq<bv64>, cs: seq<Cell>, x: nat): (n: nat)
    requires |old_| == |cs| && x <= |cs|
    ensures n <= x
  {
    if x == 0 then 0
    else Slots(pass, old_, cs, x - 1)
         + if UnitStart(pass, cs, x - 1) && Takes(pass, old_, cs, x - 1) then 1 else 0
  }

  /** What happens to one cell's change time. */
  datatype Action = Keep | Clear | Stamp(slot: nat)

  function CellAction(pass: Pass, old_: seq<bv64>, cs: seq<Cell>, x: nat): Action
    requires |old_| == |cs| && x < |cs|
  {
    var h := Head(pass, cs, x);
    if Takes(pass, old_, cs, h) then Stamp(Slots(pass, old_, cs, h))
    else if pass.Changed? && UnitDiffers(pass, old_, cs, h) then Clear
    else Keep
  }

  /** The time of the k-th slot of a rebuild: staggered, or shared when the schedule is idle. */
  function StampTime(s: Burst, anim: real, k: nat): real {
    if s.Active() then s.Slot(k) else anim
  }

  function NewMs(a: Action, was: real, s: Burst, anim: real): real {
    match a
    case Keep => was
    case Clear => NEVER_MS
    case Stamp(k) => StampTime(s, anim, k)
  }

  function EditedMs(pass: Pass, old_: seq<bv64>, cs: seq<Cell>, was: seq<real>, s: Burst, anim: real): (r: seq<real>)
    requires |old_| == |cs| == |was|
    ensures |r| == |cs|
    ensures forall x :: 0 <= x < |cs| ==> r[x] == NewMs(CellAction(pass, old_, cs, x), was[x], s, anim)
  {
    seq(|cs|, x requires 0 <= x < |cs| => NewMs(CellAction(pass, old_, cs, x), was[x], s, anim))
  }

  predicate TouchesCell(pass: Pass, old_: seq<bv64>, cs: seq<Cell>, was: seq<real>, x: nat)
    requires |old_| == |cs| == |was| && x < |cs|
  {
    var a := CellAction(pass, old_, cs, x);
    a.Stamp? || (a.Clear? && was[x] != NEVER_MS)
  }

  /** The pass writes at least one change time among the first n cells. */
  predicate Touches(pass: Pass, old_: seq<bv64>, cs: seq<Cell>, was: seq<real>, n: nat)
    requires |old_| == |cs| == |was| && n <= |cs|
  {
    exists x :: 0 <= x < n && TouchesCell(pass, old_, cs, was, x)
  }

  predicate SameKeys(old_: seq<bv64>, cs: seq<Cell>, n: nat)
    requires |old_| == |cs| && n <= |cs|
  {
    forall x :: 0 <= x < n ==> old_[x] == RenderKey(cs[x])
  }

  function UnitEnd(pass: Pass, cs: seq<Cell>, x: nat): (end: nat)
    requires x < |cs|
    ensures x < end <= |cs|
  {
    if Paired(pass, cs, x) then x + 2 else x + 1
  }

  /** One step of the left-to-right parse. */
  lemma {:induction false} UnitStep(pass: Pass, old_: seq<bv64>, cs: seq<Cell>, x: nat)
    requires |old_| == |cs| && x < |cs| && UnitStart(pass, cs, x)
    ensures var end := UnitEnd(pass, cs, x);
            && end <= |cs| && UnitStart(pass, cs, end)
            && Slots(pass, old_, cs, end) == Slots(pass, old_, cs, x) + (if Takes(pass, old_, cs, x) then 1 else 0)
            && Head(pass, cs, x) == x && Head(pass, cs, end - 1) == x
  {
    assert UnitStart(pass, cs, x + 1) <==> !Paired(pass, cs, x);
    assert Slots(pass, old_, cs, x + 1) == Slots(pass, old_, cs, x) + (if Takes(pass, old_, cs, x) then 1 else 0);
    if Paired(pass, cs, x) {
      assert UnitStart(pass, cs, x + 2);
      assert Slots(pass, old_, cs, x + 2) == Slots(pass, old_, cs, x + 1);
    }
  }

  /** The unit at x loses its times. */
  predicate Clears(pass: Pass, old_: seq<bv64>, cs: seq<Cell>, x: nat)
    requires |old_| == |cs| && x < |cs|
  {
    !Takes(pass, old_, cs, x) && pass.Changed? && UnitDiffers(pass, old_, cs, x)
  }

  /** The cells of the unit at x all share its action. */
  lemma {:induction false} UnitActions(pass: Pass, old_: seq<bv64>, cs: seq<Cell>, x: nat, y: nat)
    requires |old_| == |cs| && x < |cs| && UnitStart(pass, cs, x) && x <= y < UnitEnd(pass, cs, x)
    ensures y < |cs|
    ensures CellAction(pass, old_, cs, y) ==
            if Takes(pass, old_, cs, x) then Stamp(Slots(pass, old_, cs, x))
            else if Clears(pass, old_, cs, x) then Clear
            else Keep
  {
    UnitStep(pass, old_, cs, x);
  }

  lemma {:induction false} UnitTouches(pass: Pass, old_: seq<bv64>, cs: seq<Cell>, was: seq<real>, x: nat)
    requires |old_| == |cs| == |was| && x < |cs| && UnitStart(pass, cs, x)
    ensures var end := UnitEnd(pass, cs, x);
            && end <= |cs|
            && (Touches(pass, old_, cs, was, end) <==>
                || Touches(pass, old_, cs, was, x)
                || Takes(pass, old_, cs, x)
                || (Clears(pass, old_, cs, x) && exists y :: x <= y < end && was[y] != NEVER_MS))
  {
    UnitStep(pass, old_, cs, x);
    var end := UnitEnd(pass, cs, x);
    forall y | x <= y < end
      ensures TouchesCell(pass, old_, cs, was, y) <==>
              Takes(pass, old_, cs, x) || (Clears(pass, old_, cs, x) && was[y] != NEVER_MS)
    {
      UnitActions(pass, old_, cs, x, y);
    }
    if Takes(pass, old_, cs, x) {
      assert TouchesCell(pass, old_, cs, was, x);
    }
  }

  lemma {:induction false} UnitSlots(pass: Pass, old_: seq<bv64>, cs: seq<Cell>, s: Burst, x: nat, end: nat, at: Burst)
    requires |old_| == |cs| && x < |cs| && UnitStart(pass, cs, x)
    requires end == UnitEnd(pass, cs, x) && at == s.Consumed(Slots(pass, old_, cs, x))
    ensures s.Consumed(Slots(pass, old_, cs, end)) == (if Takes(pass, old_, cs, x) then at.Consumed(1) else at)
  {
    UnitStep(pass, old_, cs, x);
    ConsumedAgain(s, Slots(pass, old_, cs, x), 1);
  }

  /** One action for the cells [x, end) of a row takes an overlay that much further. */
  lemma {:induction false} UnitSpan(ms: seq<real>, base: nat, stop: nat, span: seq<real>, x: nat, end: nat, index: nat, n: nat,
                                    a: Action, s: Burst, anim: real)
    requires stop == base + |span| <= |ms| && x <= end <= |span| && index == base + x && n == end - x
    requires forall y :: x <= y < end ==> span[y] == NewMs(a, ms[base..stop][y], s, anim)
    ensures OverlayTo(ms, base, span, end) ==
            if a.Keep? then OverlayTo(ms, base, span, x)
            else Overlay(OverlayTo(ms, base, span, x), index, Repeat(NewMs(a, NEVER_MS, s, anim), n))
  {
    if a.Keep? {
      OverlaySkips(ms, base, span, x, end);
    } else {
      OverlayGrows(ms, base, span, x, end, index, Repeat(NewMs(a, NEVER_MS, s, anim), n));
    }
  }

  /** The single write that a pass makes for the unit at x takes the overlay of the row one
      unit further. */
  lemma {:induction false} UnitWrite(pass: Pass, old_: seq<bv64>, cs: seq<Cell>, ms: seq<real>, base: nat, s: Burst, anim: real,
                                     x: nat, end: nat, index: nat, n: nat, at: Burst, span: seq<real>)
    requires |old_| == |cs| && x < |cs| && UnitStart(pass, cs, x) && base + |cs| <= |ms|
    requires end == UnitEnd(pass, cs, x) && index == base + x && n == end - x
    requires at == s.Consumed(Slots(pass, old_, cs, x)) && span == EditedMs(pass, old_, cs, ms[base..base + |cs|], s, anim)
    ensures end <= |cs|
    ensures OverlayTo(ms, base, span, end) ==
            if Takes(pass, old_, cs, x) then Overlay(OverlayTo(ms, base, span, x), index, Repeat(StampTime(at, anim, 0), n))
            else if Clears(pass, old_, cs, x) then Overlay(OverlayTo(ms, base, span, x), index, Repeat(NEVER_MS, n))
            else OverlayTo(ms, base, span, x)
  {
    ConsumedAgain(s, Slots(pass, old_, cs, x), 0);
    UnitActions(pass, old_, cs, x, x);
    var a := CellAction(pass, old_, cs, x);
    forall y | x <= y < end ensures CellAction(pass, old_, cs, y) == a {
      UnitActions(pass, old_, cs, x, y);
    }
    UnitSpan(ms, base, base + |cs|, span, x, end, index, n, a, s, anim);
  }

  /** How far a pass has come once it has dealt with the first x cells of a row. */
  datatype Progress = Progress(snapshot: seq<bv64>, ms: seq<real>, schedule: Burst, keyChanged: bool, touched: bool)

  function After(pass: Pass, snapshot: seq<bv64>, ms: seq<real>, base: nat, cs: seq<Cell>, s: Burst, anim: real, x: nat): Progress
    requires base + |cs| <= |snapshot| == |ms| && x <= |cs|
  {
    var old_, was := snapshot[base..base + |cs|], ms[base..base + |cs|];
    Progress(
      OverlayTo(snapshot, base, Keys(cs), x),
      OverlayTo(ms, base, EditedMs(pass, old_, cs, was, s, anim), x),
      s.Consumed(Slots(pass, old_, cs, x)),
      !SameKeys(old_, cs, x),
      Touches(pass, old_, cs, was, x))
  }

  lemma {:induction false} AfterNone(pass: Pass, snapshot: seq<bv64>, ms: seq<real>, base: nat, cs: seq<Cell>, s: Burst, anim: real)
    requires base + |cs| <= |snapshot| == |ms|
    ensures After(pass, snapshot, ms, base, cs, s, anim, 0) == Progress(snapshot, ms, s, false, false)
  {
    assert s.Consumed(0) == s;
  }

  /** Some cell of a unit shows something else than the snapshot at `index`. */
  predicate KeysDiffer(snapshot: seq<bv64>, index: nat, unit: seq<Cell>)
    requires index + |unit| <= |snapshot|
  {
    exists i :: 0 <= i < |unit| && RenderKey(unit[i]) != snapshot[index + i]
  }

  predicate HasTimes(ms: seq<real>, index: nat, n: nat)
    requires index + n <= |ms|
  {
    exists i :: index <= i < index + n && ms[i] != NEVER_MS
  }

  lemma {:induction false} DifferenceOfUnit(snapshot: seq<bv64>, index: nat, second: nat, unit: seq<Cell>)
    requires 1 <= |unit| <= 2 && index + |unit| <= |snapshot| && second == index + 1
    ensures KeysDiffer(snapshot, index, unit) <==>
            RenderKey(unit[0]) != snapshot[index] || (|unit| == 2 && RenderKey(unit[1]) != snapshot[second])
  {
    assert snapshot[index + 0] == snapshot[index];
    if RenderKey(unit[0]) != snapshot[index] {
      assert RenderKey(unit[0]) != snapshot[index + 0];
    } else if |unit| == 2 && RenderKey(unit[1]) != snapshot[second] {
      assert RenderKey(unit[1]) != snapshot[index + 1];
    }
  }

  /** Before the unit is stored, the snapshot under it is still the old one. */
  lemma {:induction false} UnitUnder(snapshot: seq<bv64>, base: nat, cs: seq<Cell>, x: nat, index: nat, old_: seq<bv64>,
                                     now: seq<bv64>, y: nat, at: nat)
    requires base + |cs| <= |snapshot| && old_ == snapshot[base..base + |cs|] && x <= y < |cs| && at == base + y
    requires now == OverlayTo(snapshot, base, Keys(cs), x)
    ensures at < |now| && now[at] == old_[y]
  {
    SliceAt(snapshot, base, base + |cs|, y, at);
  }

  lemma {:induction false} UnitDifference(pass: Pass, snapshot: seq<bv64>, base: nat, cs: seq<Cell>,
                                          x: nat, end: nat, index: nat, unit: seq<Cell>, now: seq<bv64>, old_: seq<bv64>)
    requires base + |cs| <= |snapshot| && old_ == snapshot[base..base + |cs|] && x < |cs|
    requires end == UnitEnd(pass, cs, x) && index == base + x && unit == cs[x..end]
    requires now == OverlayTo(snapshot, base, Keys(cs), x)
    ensures KeysDiffer(now, index, unit) <==> UnitDiffers(pass, old_, cs, x)
  {
    var second := index + 1;
    DifferenceOfUnit(now, index, second, unit);
    UnitUnder(snapshot, base, cs, x, index, old_, now, x, index);
    if Paired(pass, cs, x) {
      UnitUnder(snapshot, base, cs, x, index, old_, now, x + 1, second);
    }
  }

  lemma {:induction false} SameKeysGrow(pass: Pass, old_: seq<bv64>, cs: seq<Cell>, x: nat, end: nat)
    requires |old_| == |cs| && x < |cs| && end == UnitEnd(pass, cs, x)
    ensures SameKeys(old_, cs, end) <==> SameKeys(old_, cs, x) && !UnitDiffers(pass, old_, cs, x)
  {
  }

  lemma {:induction false} UnitKeys(pass: Pass, snapshot: seq<bv64>, base: nat, cs: seq<Cell>,
                                    x: nat, end: nat, index: nat, unit: seq<Cell>, now: seq<bv64>)
    requires base + |cs| <= |snapshot| && x < |cs|
    requires end == UnitEnd(pass, cs, x) && index == base + x && unit == cs[x..end]
    requires now == OverlayTo(snapshot, base, Keys(cs), x)
    ensures OverlayTo(snapshot, base, Keys(cs), end) == Overlay(now, index, Keys(unit))
    ensures KeysDiffer(now, index, unit) <==> UnitDiffers(pass, snapshot[base..base + |cs|], cs, x)
    ensures SameKeys(snapshot[base..base + |cs|], cs, end)
       <==> SameKeys(snapshot[base..base + |cs|], cs, x) && !KeysDiffer(now, index, unit)
  {
    var old_ := snapshot[base..base + |cs|];
    UnitDifference(pass, snapshot, base, cs, x, end, index, unit, now, old_);
    SameKeysGrow(pass, old_, cs, x, end);
    assert Keys(unit) == Keys(cs)[x..end];
    OverlayGrows(snapshot, base, Keys(cs), x, end, index, Keys(unit));
  }

  lemma {:induction false} UnitTimes(ms: seq<real>, base: nat, stop: nat, span: seq<real>, was: seq<real>,
                                     x: nat, end: nat, index: nat, n: nat)
    requires stop == base + |span| <= |ms| && x <= end <= |span| && was == ms[base..stop]
    requires index == base + x && n == end - x
    ensures HasTimes(OverlayTo(ms, base, span, x), index, n) <==> exists y :: x <= y < end && was[y] != NEVER_MS
  {
    var now := OverlayTo(ms, base, span, x);
    assert forall y :: x <= y < end ==> was[y] == now[base + y];
    if i :| index <= i < index + n && now[i] != NEVER_MS {
      assert was[i - base] != NEVER_MS;
    }
  }

  /** Storing a unit's keys. If one of them is new, the unit takes a time or loses its times. */
  function ChangedUnit(p: Progress, index: nat, unit: seq<Cell>, policy: Policy, anim: real): Progress
    requires index + |unit| <= |p.snapshot| == |p.ms| && unit != []
  {
    var stored := p.(snapshot := Overlay(p.snapshot, index, Keys(unit)));
    if !KeysDiffer(p.snapshot, index, unit) then stored
    else if TakesTime(policy, unit[0]) then
      stored.(ms := Overlay(p.ms, index, Repeat(StampTime(p.schedule, anim, 0), |unit|)),
              schedule := p.schedule.Consumed(1), keyChanged := true, touched := true)
    else
      stored.(ms := Overlay(p.ms, index, Repeat(NEVER_MS, |unit|)),
              keyChanged := true, touched := p.touched || HasTimes(p.ms, index, |unit|))
  }

  predicate TakesTime(policy: Policy, c: Cell) {
    policy.EveryChangedCell? || PaintsGlyph(c)
  }

  /** The pass stands at the unit x .. end, stored from `index` on: p is its progress before the
      unit and q after it. */
  ghost predicate AtUnit(pass: Pass, snapshot: seq<bv64>, ms: seq<real>, base: nat, cs: seq<Cell>, s: Burst, anim: real,
                         x: nat, end: nat, index: nat, p: Progress, q: Progress)
  {
    && base + |cs| <= |snapshot| == |ms| && x < end <= |cs| && UnitStart(pass, cs, x)
    && end == UnitEnd(pass, cs, x) && index == base + x
    && p == After(pass, snapshot, ms, base, cs, s, anim, x)
    && q == After(pass, snapshot, ms, base, cs, s, anim, end)
  }

  lemma {:induction false} UnitStores(pass: Pass, snapshot: seq<bv64>, ms: seq<real>, base: nat, cs: seq<Cell>, s: Burst, anim: real,
                                      x: nat, end: nat, index: nat, p: Progress, q: Progress, old_: seq<bv64>, unit: seq<Cell>)
    requires AtUnit(pass, snapshot, ms, base, cs, s, anim, x, end, index, p, q)
    requires old_ == snapshot[base..base + |cs|] && unit == cs[x..end]
    ensures index + |unit| <= |p.snapshot| && q.snapshot == Overlay(p.snapshot, index, Keys(unit))
    ensures q.keyChanged <==> p.keyChanged || KeysDiffer(p.snapshot, index, unit)
    ensures pass.Changed? ==>
      && (Takes(pass, old_, cs, x) <==> KeysDiffer(p.snapshot, index, unit) && TakesTime(pass.policy, unit[0]))
      && (Clears(pass, old_, cs, x) <==> KeysDiffer(p.snapshot, index, unit) && !TakesTime(pass.policy, unit[0]))
  {
    UnitKeys(pass, snapshot, base, cs, x, end, index, unit, p.snapshot);
  }

  lemma {:induction false} UnitStamps(pass: Pass, snapshot: seq<bv64>, ms: seq<real>, base: nat, cs: seq<Cell>, s: Burst, anim: real,
                                      x: nat, end: nat, index: nat, p: Progress, q: Progress, old_: seq<bv64>, n: nat)
    requires AtUnit(pass, snapshot, ms, base, cs, s, anim, x, end, index, p, q)
    requires old_ == snapshot[base..base + |cs|] && n == end - x
    ensures index + n <= |p.ms|
    ensures q.ms == if Takes(pass, old_, cs, x) then Overlay(p.ms, index, Repeat(StampTime(p.schedule, anim, 0), n))
                    else if Clears(pass, old_, cs, x) then Overlay(p.ms, index, Repeat(NEVER_MS, n))
                    else p.ms
    ensures q.schedule == if Takes(pass, old_, cs, x) then p.schedule.Consumed(1) else p.schedule
  {
    var was := ms[base..base + |cs|];
    UnitSlots(pass, old_, cs, s, x, end, p.schedule);
    UnitWrite(pass, old_, cs, ms, base, s, anim, x, end, index, n, p.schedule, EditedMs(pass, old_, cs, was, s, anim));
  }

  lemma {:induction false} UnitTouched(pass: Pass, snapshot: seq<bv64>, ms: seq<real>, base: nat, cs: seq<Cell>, s: Burst, anim: real,
                                       x: nat, end: nat, index: nat, p: Progress, q: Progress, old_: seq<bv64>, n: nat)
    requires AtUnit(pass, snapshot, ms, base, cs, s, anim, x, end, index, p, q)
    requires old_ == snapshot[base..base + |cs|] && n == end - x
    ensures index + n <= |p.ms|
    ensures q.touched <==>
            p.touched || Takes(pass, old_, cs, x) || (Clears(pass, old_, cs, x) && HasTimes(p.ms, index, n))
  {
    var was := ms[base..base + |cs|];
    var span := EditedMs(pass, old_, cs, was, s, anim);
    UnitTouches(pass, old_, cs, was, x);
    UnitTimes(ms, base, base + |cs|, span, was, x, end, index, n);
  }

  /** What the first pass does to the unit at x, in terms of the state it finds there. */
  lemma {:induction false} AfterUnit(policy: Policy, snapshot: seq<bv64>, ms: seq<real>, base: nat, cs: seq<Cell>, s: Burst, anim: real,
                                     x: nat, end: nat, index: nat, unit: seq<Cell>, p: Progress)
    requires base + |cs| <= |snapshot| == |ms| && x < |cs| && UnitStart(Changed(policy), cs, x)
    requires end == UnitEnd(Changed(policy), cs, x) && index == base + x && unit == cs[x..end]
    requires p == After(Changed(policy), snapshot, ms, base, cs, s, anim, x)
    ensures UnitStart(Changed(policy), cs, end)
    ensures ChangedUnit(p, index, unit, policy, anim) == After(Changed(policy), snapshot, ms, base, cs, s, anim, end)
  {
    var pass := Changed(policy);
    var old_ := snapshot[base..base + |cs|];
    var q := After(pass, snapshot, ms, base, cs, s, anim, end);
    UnitStep(pass, old_, cs, x);
    UnitStores(pass, snapshot, ms, base, cs, s, anim, x, end, index, p, q, old_, unit);
    UnitStamps(pass, snapshot, ms, base, cs, s, anim, x, end, index, p, q, old_, |unit|);
    UnitTouched(pass, snapshot, ms, base, cs, s, anim, x, end, index, p, q, old_, |unit|);
  }

  /** What the second pass does to the unit at x of an identical row. */
  lemma {:induction false} AfterRepeatedUnit(snapshot: seq<bv64>, ms: seq<real>, base: nat, cs: seq<Cell>, s: Burst, anim: real,
                                             x: nat, end: nat, index: nat, n: nat, p: Progress, q: Progress)
    requires base + |cs| <= |snapshot| == |ms| && x < |cs| && UnitStart(Repeated, cs, x)
    requires end == UnitEnd(Repeated, cs, x) && index == base + x && n == end - x
    requires p == After(Repeated, snapshot, ms, base, cs, s, anim, x)
    requires q == After(Repeated, snapshot, ms, base, cs, s, anim, end)
    ensures UnitStart(Repeated, cs, end)
    ensures if PaintsGlyph(cs[x]) then
              && q.ms == Overlay(p.ms, index, Repeat(StampTime(p.schedule, anim, 0), n))
              && q.schedule == p.schedule.Consumed(1) && q.touched
            else q.ms == p.ms && q.schedule == p.schedule && q.touched == p.touched
  {
    var old_ := snapshot[base..base + |cs|];
    UnitStep(Repeated, old_, cs, x);
    UnitStamps(Repeated, snapshot, ms, base, cs, s, anim, x, end, index, p, q, old_, n);
    UnitTouched(Repeated, snapshot, ms, base, cs, s, anim, x, end, index, p, q, old_, n);
  }

  /** A pass that finds no unit to stamp or clear leaves everything as it is. */
  lemma {:induction false} QuietSlots(pass: Pass, old_: seq<bv64>, cs: seq<Cell>, x: nat)
    requires |old_| == |cs| && x <= |cs|
    requires forall h :: 0 <= h < |cs| ==> !Takes(pass, old_, cs, h)
    ensures Slots(pass, old_, cs, x) == 0
  {
    if x > 0 {
      QuietSlots(pass, old_, cs, x - 1);
    }
  }

  lemma {:induction false} QuietPass(pass: Pass, snapshot: seq<bv64>, ms: seq<real>, base: nat, cs: seq<Cell>, s: Burst, anim: real,
                                     old_: seq<bv64>)
    requires base + |cs| <= |snapshot| == |ms| && old_ == snapshot[base..base + |cs|]
    requires forall h :: 0 <= h < |cs| ==> !Takes(pass, old_, cs, h) && !Clears(pass, old_, cs, h)
    ensures var p := After(pass, snapshot, ms, base, cs, s, anim, |cs|);
            p.ms == ms && p.schedule == s && !p.touched
  {
    var was := ms[base..base + |cs|];
    QuietSlots(pass, old_, cs, |cs|);
    OverlaySkips(ms, base, EditedMs(pass, old_, cs, was, s, anim), 0, |cs|);
  }

  lemma {:induction false} IdenticalRowIsQuiet(policy: Policy, snapshot: seq<bv64>, ms: seq<real>, base: nat, cs: seq<Cell>, s: Burst, anim: real)
    requires base + |cs| <= |snapshot| == |ms|
    requires SameKeys(snapshot[base..base + |cs|], cs, |cs|)
    ensures var p := After(Changed(policy), snapshot, ms, base, cs, s, anim, |cs|);
            p.snapshot == snapshot && p.ms == ms && p.schedule == s && !p.touched
  {
    QuietPass(Changed(policy), snapshot, ms, base, cs, s, anim, snapshot[base..base + |cs|]);
    OverlaySkips(snapshot, base, Keys(cs), 0, |cs|);
  }

  /** An identical row is restamped, unless the policy says otherwise. */
  function PassFor(policy: Policy, old_: seq<bv64>, cs: seq<Cell>): Pass
    requires |old_| == |cs|
  {
    if SameKeys(old_, cs, |cs|) && policy != DrawableUnits then Repeated else Changed(policy)
  }

  function EditSpan(t: Tracker, s: Burst, base: nat, cs: seq<Cell>, anim: real, policy: Policy): (Tracker, Burst)
    requires base + |cs| <= |t.snapshot| == |t.ms|
  {
    var pass := PassFor(policy, t.snapshot[base..base + |cs|], cs);
    var p := After(pass, t.snapshot, t.ms, base, cs, s, anim, |cs|);
    (t.(snapshot := p.snapshot, ms := p.ms, last := if p.touched then MaxMs(p.ms) else t.last), p.schedule)
  }

  /** Diff one rebuilt row. A row outside the grid, or one whose generation is the stored
      one, is left alone. */
  function UpdateRow(t: Tracker, s: Burst, rd: RowDelta, anim: real, policy: Policy): (r: (Tracker, Burst))
    requires t.WellFormed()
    ensures r.0.WellFormed()
  {
    if rd.row >= t.rows || t.generations[rd.row] == rd.generation then (t, s)
    else
      var seen := t.(generations := t.generations[rd.row := rd.generation]);
      var n := t.SpanLen(rd.row, |rd.cells|);
      if n == 0 then (seen, s)
      else EditSpan(seen, s, t.Base(rd.row), rd.cells[..n], anim, policy)
  }

  function UpdatePolicy(s: Burst): Policy {
    if s.Active() then DrawableUnitsAndRepeat else EveryChangedCell
  }

  function SyncedMs(old_: seq<bv64>, cs: seq<Cell>, was: seq<real>): (r: seq<real>)
    requires |old_| == |cs| == |was|
    ensures |r| == |cs|
    ensures forall x :: 0 <= x < |cs| ==> r[x] == if RenderKey(cs[x]) == old_[x] then was[x] else NEVER_MS
  {
    seq(|cs|, x requires 0 <= x < |cs| => if RenderKey(cs[x]) == old_[x] then was[x] else NEVER_MS)
  }

  function BypassSpan(t: Tracker, base: nat, cs: seq<Cell>, adopt: bool): Tracker
    requires base + |cs| <= |t.snapshot| == |t.ms|
  {
    var span := if adopt then Repeat(NEVER_MS, |cs|)
                else SyncedMs(t.snapshot[base..base + |cs|], cs, t.ms[base..base + |cs|]);
    t.(snapshot := Overlay(t.snapshot, base, Keys(cs)), ms := Overlay(t.ms, base, span))
  }

  lemma {:induction false} SyncedSpanIs(t: Tracker, base: nat, cs: seq<Cell>, keys: seq<bv64>, span: seq<real>)
    requires base + |cs| <= |t.snapshot| == |t.ms| && keys == Keys(cs)
    requires span == SyncedMs(t.snapshot[base..base + |cs|], cs, t.ms[base..base + |cs|])
    ensures BypassSpan(t, base, cs, false)
         == t.(snapshot := OverlayTo(t.snapshot, base, keys, |cs|), ms := OverlayTo(t.ms, base, span, |cs|))
  {
  }

  /** One cell further into a synchronised span. */
  lemma {:induction false} SyncedPoint(snapshot: seq<bv64>, ms: seq<real>, base: nat, cs: seq<Cell>, keys: seq<bv64>, span: seq<real>,
                                       x: nat, index: nat)
    requires base + |cs| <= |snapshot| == |ms| && keys == Keys(cs) && x < |cs| && index == base + x
    requires span == SyncedMs(snapshot[base..base + |cs|], cs, ms[base..base + |cs|])
    ensures var same, now := keys[x] == snapshot[index], OverlayTo(ms, base, span, x);
            && OverlayTo(snapshot, base, keys, x)[index] == snapshot[index] && now[index] == ms[index]
            && OverlayTo(snapshot, base, keys, x + 1) == OverlayTo(snapshot, base, keys, x)[index := keys[x]]
            && OverlayTo(ms, base, span, x + 1) == (if same then now else now[index := NEVER_MS])
            && (OverlayTo(ms, base, span, x + 1) != ms <==> now != ms || (!same && ms[index] != NEVER_MS))
  {
    SliceAt(snapshot, base, base + |cs|, x, index);
    SliceAt(ms, base, base + |cs|, x, index);
    OverlayPoint(snapshot, base, keys, x, index);
    OverlayPoint(ms, base, span, x, index);
    OverlayDiffers(ms, base, span, x, index);
  }

  /** Take over a bypassed row: its keys and its generation; change times survive only
      where the key does, or nowhere when the row is adopted. The cached time is not touched. */
  function BypassRow(t: Tracker, rd: RowDelta, adopt: bool): Tracker
    requires t.WellFormed()
  {
    if rd.row >= t.rows then t
    else
      var seen := t.(generations := t.generations[rd.row := rd.generation]);
      var n := t.SpanLen(rd.row, |rd.cells|);
      if n == 0 then seen else BypassSpan(seen, t.Base(rd.row), rd.cells[..n], adopt)
  }

  /** Every time is the one it was, or forgotten. */
  ghost predicate OnlyForgets(was: seq<real>, now: seq<real>) {
    |now| == |was| && forall i :: 0 <= i < |was| ==> now[i] == was[i] || now[i] == NEVER_MS
  }

  lemma {:induction false} SpanOnlyForgets(ms: seq<real>, base: nat, span: seq<real>)
    requires base + |span| <= |ms| && forall x :: 0 <= x < |span| ==> span[x] == ms[base + x] || span[x] == NEVER_MS
    ensures OnlyForgets(ms, Overlay(ms, base, span))
  {
  }

  lemma {:induction false} BypassRowOnlyForgets(t: Tracker, rd: RowDelta, adopt: bool)
    requires t.WellFormed()
    ensures OnlyForgets(t.ms, BypassRow(t, rd, adopt).ms)
  {
    var n, base := t.SpanLen(rd.row, |rd.cells|), t.Base(rd.row);
    if rd.row < t.rows && n != 0 {
      var cs := rd.cells[..n];
      if adopt {
        SpanOnlyForgets(t.ms, base, Repeat(NEVER_MS, |cs|));
      } else {
        SpanOnlyForgets(t.ms, base, SyncedMs(t.snapshot[base..base + |cs|], cs, t.ms[base..base + |cs|]));
      }
    }
  }

  /** What was forgotten stays forgotten. */
  lemma {:induction false} OnlyForgetsMore(a: seq<real>, b: seq<real>, c: seq<real>)
    requires OnlyForgets(a, b) && OnlyForgets(b, c)
    ensures OnlyForgets(a, c)
    ensures c != a <==> b != a || c != b
  {
    if b != a {
      var i :| 0 <= i < |a| && b[i] != a[i];
      assert c[i] != a[i];
    }
  }

  function BypassRows(t: Tracker, rows: seq<RowDelta>, adopt: bool): (r: Tracker)
    requires t.WellFormed()
    ensures r.WellFormed() && r.last == t.last
    ensures r.cols == t.cols && r.rows == t.rows && r.maxCells == t.maxCells
    decreases |rows|
  {
    if rows == [] then t else BypassRows(BypassRow(t, rows[0], adopt), rows[1..], adopt)
  }

  function SyncRows(t: Tracker, rows: seq<RowDelta>): Tracker
    requires t.WellFormed()
  {
    var r := BypassRows(t, rows, false);
    r.(last := if r.ms != t.ms then MaxMs(r.ms) else t.last)
  }

  function AdoptRows(t: Tracker, rows: seq<RowDelta>): Tracker
    requires t.WellFormed()
  {
    BypassRows(t, rows, true).(last := NEVER_MS)
  }

  function ClearChanges(t: Tracker): Tracker
    requires t.WellFormed()
  {
    t.(ms := Repeat(NEVER_MS, t.cap), last := NEVER_MS)
  }

  /** Resized to `n` elements: cut off, or filled up with x. */
  function Resized<T>(s: seq<T>, n: nat, x: T): seq<T> {
    if n <= |s| then s[..n] else s + Repeat(x, n - |s|)
  }

  /** The stored prefix survives; new cells are stamped with the resize time, but the cached
      time stays what it was. */
  function Resize(t: Tracker, cols: nat, rows: nat, now: real): (r: Tracker)
    requires t.WellFormed()
    ensures r.WellFormed()
  {
    var cap := CapFor(cols, rows, t.maxCells);
    t.(cols := cols, rows := rows, cap := cap,
       snapshot := Resized(t.snapshot, cap, UNSEEN_KEY), ms := Resized(t.ms, cap, now),
       generations := Resized(t.generations, rows, UNSEEN_GENERATION))
  }

  lemma {:induction false} ProductsRise(a: nat, b: nat, c: nat)
    requires a <= b
    ensures a * c <= b * c
  {
    assert b * c == a * c + (b - a) * c;
  }

  lemma {:induction false} SpanInGrid(t: Tracker, row: nat, col: nat)
    requires t.WellFormed() && t.cap == t.cols * t.rows && row < t.rows && col < t.cols
    ensures row * t.cols + col < t.cap
  {
    assert (row + 1) * t.cols <= t.rows * t.cols;
  }

  /** The stored rows do not overlap. */
  lemma {:induction false} RowsAreApart(t: Tracker, r: nat, q: nat, count: nat)
    requires r < q
    ensures t.Base(r) + t.SpanLen(r, count) <= t.Base(q)
  {
    ProductsRise(r + 1, q, t.cols);
    assert (r + 1) * t.cols == r * t.cols + t.cols;
  }

  /** The first |cols| cells of a delta show what the snapshot holds one row further down. */
  predicate ShowsRowBelow(t: Tracker, rd: RowDelta)
    requires t.WellFormed() && t.cap == t.cols * t.rows
  {
    && rd.row + 1 < t.rows
    && |rd.cells| >= t.cols
    && forall col :: 0 <= col < t.cols ==>
         (SpanInGrid(t, rd.row + 1, col); RenderKey(rd.cells[col]) == t.snapshot[(rd.row + 1) * t.cols + col])
  }

  /** A complete frame whose rows, in delivery order and but for the last, all show the
      snapshot shifted up by one. */
  predicate CanTranslateUpOne(t: Tracker, rows: seq<RowDelta>)
    requires t.WellFormed()
  {
    && t.cap == t.cols * t.rows
    && |rows| == t.rows
    && forall i :: 0 <= i < |rows| - 1 ==> ShowsRowBelow(t, rows[i])
  }

  function ShiftedOut<T>(s: seq<T>, n: nat, x: T): seq<T>
    requires n <= |s|
  {
    seq(|s|, i requires 0 <= i < |s| => if i + n < |s| then s[i + n] else x)
  }

  function TranslateUpOne(t: Tracker): Tracker
    requires t.WellFormed()
  {
    var shift := Min(t.cols, t.cap);
    var ms := ShiftedOut(t.ms, shift, NEVER_MS);
    t.(snapshot := ShiftedOut(t.snapshot, shift, UNSEEN_KEY), ms := ms,
       generations := Repeat(UNSEEN_GENERATION, t.rows), last := MaxMs(ms))
  }
}
