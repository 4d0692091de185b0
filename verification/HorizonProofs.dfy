/** How late a change time can lie, and when the text animation falls silent. */
module HorizonProofs {
  import opened Basics
  import opened Terminal
  import opened Schedule
  import opened TrackerSpec
  import opened TrackerProofs
  import opened EffectsSpec

  /** Every change time is forgotten or between lo and hi. */
  ghost predicate Within(ms: seq<real>, lo: real, hi: real) {
    forall i :: 0 <= i < |ms| ==> ms[i] == NEVER_MS || lo <= ms[i] <= hi
  }

  /** The first n slots of a schedule, or the shared time of an idle one, lie between lo and hi. */
  ghost predicate SlotsWithin(s: Burst, anim: real, n: nat, lo: real, hi: real) {
    forall k :: 0 <= k < n ==> lo <= StampTime(s, anim, k) <= hi
  }

  lemma {:induction false} EditWithin(t: Tracker, s: Burst, base: nat, cs: seq<Cell>, anim: real, policy: Policy, lo: real, hi: real)
    requires base + |cs| <= |t.snapshot| == |t.ms|
    requires Within(t.ms, lo, hi) && SlotsWithin(s, anim, |cs|, lo, hi)
    ensures Within(EditSpan(t, s, base, cs, anim, policy).0.ms, lo, hi)
  {
    var keys := t.snapshot[base..base + |cs|];
    var pass := PassFor(policy, keys, cs);
    var (t', s') := EditSpan(t, s, base, cs, anim, policy);
    forall i | 0 <= i < |t'.ms|
      ensures t'.ms[i] == NEVER_MS || lo <= t'.ms[i] <= hi
    {
      if base <= i < base + |cs| {
        EditedCell(t, s, base, cs, anim, policy, keys, pass, t', s', i - base, i);
      } else {
        EditElsewhere(t, s, base, cs, anim, policy, keys, pass, t', s', i);
      }
    }
  }

  /** One row hands out at most as many slots as it has tracked cells. */
  lemma {:induction false} UpdateWithin(t: Tracker, s: Burst, rd: RowDelta, anim: real, policy: Policy, lo: real, hi: real, n: nat)
    requires t.WellFormed() && n == t.SpanLen(rd.row, |rd.cells|)
    requires Within(t.ms, lo, hi) && SlotsWithin(s, anim, n, lo, hi)
    ensures var (t', s') := UpdateRow(t, s, rd, anim, policy);
            && Within(t'.ms, lo, hi)
            && t'.cap == t.cap && t'.cols == t.cols && t'.rows == t.rows
            && exists k: nat :: k <= n && s' == s.Consumed(k)
  {
    assert s == s.Consumed(0);
    if IsNew(t, rd) {
      var cs, keys := Tracked(t, rd), StoredKeys(t, rd);
      var pass := PassFor(policy, keys, cs);
      var heads := TakenHeads(pass, keys, cs, 0);
      var (t', s') := UpdateRow(t, s, rd, anim, policy);
      UpdateShape(t, s, rd, anim, policy, cs, keys, pass, t', s', heads);
      HeadsAreRanked(pass, keys, cs, 0);
      assert |heads| <= n;
      if n != 0 {
        var seen := t.(generations := t.generations[rd.row := rd.generation]);
        EditWithin(seen, s, t.Base(rd.row), cs, anim, policy, lo, hi);
      }
    }
  }

  // ----- several rows -----

  lemma {:induction false} SlotsFollow(s: Burst, b: Burst, j: nat, k: nat)
    requires s.stagger == b.stagger && s.next <= b.Slot(j)
    ensures s.Slot(k) <= b.Slot(j + k)
  {
    if k > 0 {
      SlotsFollow(s, b, j, k - 1);
    }
  }

  lemma {:induction false} SlotsMonotone(b: Burst, j: nat, k: nat)
    requires b.stagger >= 0.0 && j <= k
    ensures b.Slot(j) <= b.Slot(k)
  {
    if j < k {
      SlotsMonotone(b, j, k - 1);
    }
  }

  /** The schedule has handed out at most j slots since it was b, and none before lo. */
  ghost predicate Trails(s: Burst, b: Burst, j: nat, lo: real) {
    s.stagger == b.stagger && lo <= s.next <= b.Slot(j)
  }

  lemma {:induction false} TrailsOn(s: Burst, b: Burst, j: nat, k: nat, l: nat, lo: real)
    requires Trails(s, b, j, lo) && s.Active() && j + k <= l
    ensures Trails(s.Consumed(k), b, l, lo)
  {
    SlotsFollow(s, b, j, k);
    SlotsMonotone(b, j + k, l);
    SlotsMonotone(s, 0, k);
  }

  /** The tracked cells above row `from`. */
  function CellsAbove(t: Tracker, from: nat): nat {
    Min(from * t.cols, t.cap)
  }

  lemma {:induction false} CellsAboveGrow(t: Tracker, r: nat, n: nat, count: nat)
    requires n == t.SpanLen(r, count)
    ensures CellsAbove(t, r) + n <= CellsAbove(t, r + 1)
  {
    assert (r + 1) * t.cols == r * t.cols + t.cols;
  }

  lemma {:induction false} RowSlotsWithin(t: Tracker, s: Burst, b: Burst, r: nat, n: nat, count: nat, now: real, lo: real, hi: real)
    requires n == t.SpanLen(r, count) && lo <= now <= hi
    requires s.Active() ==> Trails(s, b, CellsAbove(t, r), lo) && (t.cap > 0 ==> b.Slot(t.cap - 1) <= hi)
    ensures SlotsWithin(s, now, n, lo, hi)
  {
    forall k | 0 <= k < n
      ensures lo <= StampTime(s, now, k) <= hi
    {
      if s.Active() {
        CellsAboveGrow(t, r, n, count);
        SlotsFollow(s, b, CellsAbove(t, r), k);
        SlotsMonotone(b, CellsAbove(t, r) + k, t.cap - 1);
        SlotsMonotone(s, 0, k);
      }
    }
  }

  /** What the rows of one frame leave behind. */
  ghost predicate Bounded(t: Tracker, s: Burst, t0: Tracker, s0: Burst, lo: real, hi: real) {
    && Within(t.ms, lo, hi)
    && t.cap == t0.cap && t.cols == t0.cols && t.rows == t0.rows
    && s.stagger == s0.stagger
    && (s.Active() ==> lo <= s.next)
  }

  lemma {:induction false} VisitWithin(t: Tracker, s: Burst, f: FrameDelta, target: nat, now: real, policy: Policy, b: Burst, lo: real, hi: real)
    requires t.WellFormed() && Within(t.ms, lo, hi) && lo <= now <= hi
    requires s.Active() ==> Trails(s, b, CellsAbove(t, target), lo) && (t.cap > 0 ==> b.Slot(t.cap - 1) <= hi)
    ensures var (t', s') := VisitRow(t, s, f, target, now, policy);
            && Bounded(t', s', t, s, lo, hi)
            && (s.Active() ==> Trails(s', b, CellsAbove(t, target + 1), lo))
  {
    FindRowIsMember(f.rows, target);
    var found := FindRow(f.rows, target);
    CellsAboveGrow(t, target, t.SpanLen(target, 0), 0);
    if s.Active() {
      assert s == s.Consumed(0);
      TrailsOn(s, b, CellsAbove(t, target), 0, CellsAbove(t, target + 1), lo);
    }
    if found.Some? && !InRegion(target, f.animationRegion) {
      var rd := found.value;
      var n := t.SpanLen(target, |rd.cells|);
      RowSlotsWithin(t, s, b, target, n, |rd.cells|, now, lo, hi);
      UpdateWithin(t, s, rd, now, policy, lo, hi, n);
      var s' := UpdateRow(t, s, rd, now, policy).1;
      var k: nat :| k <= n && s' == s.Consumed(k);
      if s.Active() {
        CellsAboveGrow(t, target, n, |rd.cells|);
        TrailsOn(s, b, CellsAbove(t, target), k, CellsAbove(t, target + 1), lo);
      }
    }
  }

  lemma {:induction false} VisitRowsWithin(t: Tracker, s: Burst, f: FrameDelta, from: nat, rows: nat, now: real, reconcile: bool,
                                           b: Burst, lo: real, hi: real)
    requires t.WellFormed() && Within(t.ms, lo, hi) && lo <= now <= hi && from <= rows
    requires s.Active() ==> Trails(s, b, CellsAbove(t, from), lo) && (t.cap > 0 ==> b.Slot(t.cap - 1) <= hi)
    ensures var (t', s') := VisitRows(t, s, f, from, rows, now, reconcile);
            Bounded(t', s', t, s, lo, hi)
    decreases rows - from
  {
    if from < rows {
      var (t1, s1) := VisitRow(t, s, f, from, now, PolicyFor(s, reconcile));
      VisitWithin(t, s, f, from, now, PolicyFor(s, reconcile), b, lo, hi);
      VisitRowsWithin(t1, s1, f, from + 1, rows, now, reconcile, b, lo, hi);
    } else if s.Active() {
      SlotsMonotone(b, 0, CellsAbove(t, from));
    }
  }

  lemma {:induction false} StreamRowsWithin(t: Tracker, s: Burst, rows: seq<RowDelta>, region: Option<AnimationRegion>, now: real, lo: real, hi: real)
    requires t.WellFormed() && Within(t.ms, lo, hi) && lo <= now <= hi && !s.Active()
    ensures var (t', s') := StreamRows(t, s, rows, region, now);
            Bounded(t', s', t, s, lo, hi)
    decreases |rows|
  {
    if rows != [] {
      if InRegion(rows[0].row, region) {
        StreamRowsWithin(t, s, rows[1..], region, now, lo, hi);
      } else {
        var n := t.SpanLen(rows[0].row, |rows[0].cells|);
        UpdateWithin(t, s, rows[0], now, UpdatePolicy(s), lo, hi, n);
        var (t1, s1) := UpdateRow(t, s, rows[0], now, UpdatePolicy(s));
        StreamRowsWithin(t1, s1, rows[1..], region, now, lo, hi);
      }
    }
  }

  lemma {:induction false} ForgettingStaysWithin(was: seq<real>, ms: seq<real>, lo: real, hi: real)
    requires OnlyForgets(was, ms) && Within(was, lo, hi)
    ensures Within(ms, lo, hi)
  {
  }

  /** The latest time that a frame at `now` may hand out. */
  function Horizon(config: EffectsConfig, cap: nat, now: real): real {
    if Stagger(config) > 0.0 && cap > 0 then now + MAX_AHEAD_MS + (cap - 1) as real * Stagger(config) else now
  }

  lemma {:induction false} BegunSchedule(config: EffectsConfig, s: Burst, cap: nat, now: real, b: Burst)
    requires s.stagger == Stagger(config) && b == s.Begin(now, config.durationMs as real)
    ensures b.stagger == s.stagger
    ensures b.Active() ==> now <= b.next && (cap > 0 ==> b.Slot(cap - 1) <= Horizon(config, cap, now))
  {
    if b.Active() {
      BeginIsPunctual(s, now, config.durationMs as real);
      if cap > 0 {
        SlotIsStaggered(b, cap - 1);
      }
    }
  }

  lemma {:induction false} ScrolledStepWithin(t: Tracker, b: Burst, f: FrameDelta, now: real, lo: real, hi: real, target: nat)
    requires t.WellFormed() && Within(t.ms, lo, hi) && lo <= now <= hi
    requires b.Active() ==> now <= b.next && (t.cap > 0 ==> b.Slot(t.cap - 1) <= hi)
    ensures var (t', s') := VisitRow(t, b, f, target, now, UpdatePolicy(b));
            Bounded(t', s', t, b, lo, hi)
  {
    if b.Active() {
      SlotsMonotone(b, 0, CellsAbove(t, target));
    }
    VisitWithin(t, b, f, target, now, UpdatePolicy(b), b, lo, hi);
  }

  lemma {:induction false} GridStepWithin(t: Tracker, b: Burst, f: FrameDelta, now: real, lo: real, hi: real, repaint: bool)
    requires t.WellFormed() && Within(t.ms, lo, hi) && lo <= now <= hi
    requires b.Active() ==> now <= b.next && (t.cap > 0 ==> b.Slot(t.cap - 1) <= hi)
    ensures var (t', s') := VisitRows(t, b, f, 0, f.size.rows, now, repaint);
            Bounded(t', s', t, b, lo, hi)
  {
    if b.Active() {
      SlotsMonotone(b, 0, CellsAbove(t, 0));
    }
    VisitRowsWithin(t, b, f, 0, f.size.rows, now, repaint, b, lo, hi);
  }

  lemma {:induction false} BegunWithin(config: EffectsConfig, s: Burst, cap: nat, now: real, b: Burst, hi: real)
    requires s.stagger == Stagger(config) && b == s.Begin(now, config.durationMs as real)
    requires Horizon(config, cap, now) <= hi
    ensures b.stagger == s.stagger && now <= hi
    ensures b.Active() ==> now <= b.next && (cap > 0 ==> b.Slot(cap - 1) <= hi)
  {
    BegunSchedule(config, s, cap, now, b);
    if Stagger(config) > 0.0 && cap > 0 {
      assert (cap - 1) as real * Stagger(config) >= 0.0;
    }
  }

  lemma {:induction false} BegunStepWithin(m: Model, t: Tracker, s: Burst, f: FrameDelta, now: real, scrolled: bool, repaint: bool,
                                           lo: real, hi: real, b: Burst, t': Tracker, s': Burst)
    requires t.WellFormed() && Within(t.ms, lo, hi) && lo <= now <= hi && b == s.Begin(now, m.config.durationMs as real)
    requires b.stagger == Stagger(m.config) && (b.Active() ==> now <= b.next && (t.cap > 0 ==> b.Slot(t.cap - 1) <= hi))
    requires (t', s') == RevealStep(m, t, s, f, now, scrolled, repaint)
    ensures Bounded(t', s', t, b, lo, hi)
  {
    if scrolled {
      ScrolledStepWithin(t, b, f, now, lo, hi, BottomRow(f));
    } else if repaint || m.config.textAnimation == Typewriter {
      GridStepWithin(t, b, f, now, lo, hi, repaint);
    } else {
      StreamRowsWithin(t, b, f.rows, f.animationRegion, now, lo, hi);
    }
  }

  lemma {:induction false} RevealStepWithin(m: Model, t: Tracker, s: Burst, f: FrameDelta, now: real,
                                            scrolled: bool, repaint: bool, lo: real, hi: real)
    requires t.WellFormed() && s.stagger == Stagger(m.config) && Within(t.ms, lo, hi)
    requires lo <= now && Horizon(m.config, t.cap, now) <= hi
    ensures var (t', s') := RevealStep(m, t, s, f, now, scrolled, repaint);
            Bounded(t', s', t, s, lo, hi)
  {
    var b := s.Begin(now, m.config.durationMs as real);
    var (t', s') := RevealStep(m, t, s, f, now, scrolled, repaint);
    BegunWithin(m.config, s, t.cap, now, b, hi);
    BegunStepWithin(m, t, s, f, now, scrolled, repaint, lo, hi, b, t', s');
  }

  /** The text part of one frame keeps every change time between lo and hi, if the frame's own
      horizon lies below hi. A resize forgets all times, so it asks for nothing. */
  lemma {:induction false} TextStepWithin(m: Model, t: Tracker, f: FrameDelta, now: real, lo: real, hi: real)
    requires t.WellFormed() && m.schedule.stagger == Stagger(m.config)
    requires f.size == m.size ==> Within(t.ms, lo, hi)
    requires lo <= now && Horizon(m.config, t.cap, now) <= hi
    requires m.schedule.Active() && m.schedule.next != NEVER_MS ==> lo <= m.schedule.next
    ensures var (t', s') := TextStep(m, t, f, now);
            && Within(t'.ms, lo, hi)
            && t'.cap == t.cap && t'.cols == t.cols && t'.rows == t.rows
            && s'.stagger == Stagger(m.config)
            && (s'.Active() && s'.next != NEVER_MS ==> lo <= s'.next)
  {
    var scrolled := CanTranslate(m, t, f);
    var t1 := if scrolled then TranslateUpOne(t) else t;
    var restarted := Burst.Fresh(Stagger(m.config));
    var repaint := f.damage.Full? && !scrolled;
    var moved := f.alternateScreen || f.size != m.size;
    ClearedAdoptionAgrees(t1, f.rows);
    assert scrolled ==> Within(t1.ms, lo, hi);
    if !(repaint && (moved || m.lastHistory.None?)) {
      var s1 := if repaint then restarted else m.schedule;
      if RevealEligible(m, f) {
        RevealStepWithin(m, t1, s1, f, now, scrolled, repaint, lo, hi);
      } else if !moved {
        BypassOnlyForgets(t1, f.rows, false);
        ForgettingStaysWithin(t1.ms, SyncRows(t1, f.rows).ms, lo, hi);
      }
    }
  }
}
