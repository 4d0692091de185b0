/** Whole runs of the effects model. */
module EffectsProofs {
  import opened Basics
  import opened Terminal
  import opened Schedule
  import opened TrackerSpec
  import opened TrackerProofs
  import opened HorizonProofs
  import opened EffectsSpec

  datatype Event = Frame(frame: FrameDelta, nowMs: nat, trailActive: bool) | Configure(config: EffectsConfig)

  function Step(m: Model, e: Event): (r: Model)
    requires m.WellFormed()
    ensures r.WellFormed()
  {
    match e
    case Frame(f, nowMs, trailActive) => ApplyFrame(m, f, nowMs, trailActive)
    case Configure(config) => SetConfig(m, config)
  }

  function Run(m: Model, events: seq<Event>): (r: Model)
    requires m.WellFormed()
    ensures r.WellFormed()
    decreases |events|
  {
    if events == [] then m else Run(Step(m, events[0]), events[1..])
  }

  // ----- the invariant -----

  /** Holds at every point of every run. */
  ghost predicate Invariant(m: Model) {
    && m.WellFormed()
    && m.lastNow >= 0.0
    && (m.tracker.None? <==> m.config.textAnimation == Disabled)
    && m.schedule.stagger == Stagger(m.config)
    && (m.schedule.Active() && m.schedule.next != NEVER_MS ==> 0.0 <= m.schedule.next)
    && (m.tracker.Some? ==>
          var t := m.tracker.value;
          && t.cols == m.size.cols && t.rows == m.size.rows
          && t.LastAgrees()
          && forall i :: 0 <= i < t.cap ==> t.ms[i] == NEVER_MS || t.ms[i] >= 0.0)
  }

  lemma {:induction false} VisitKeepsLast(t: Tracker, s: Burst, f: FrameDelta, target: nat, now: real, policy: Policy)
    requires t.WellFormed() && t.LastAgrees()
    ensures VisitRow(t, s, f, target, now, policy).0.LastAgrees()
  {
    var found := FindRow(f.rows, target);
    if found.Some? {
      UpdateRowKeepsLast(t, s, found.value, now, policy);
    }
  }

  lemma {:induction false} VisitRowsKeepLast(t: Tracker, s: Burst, f: FrameDelta, from: nat, rows: nat, now: real, reconcile: bool)
    requires t.WellFormed() && t.LastAgrees() && from <= rows
    ensures VisitRows(t, s, f, from, rows, now, reconcile).0.LastAgrees()
    decreases rows - from
  {
    if from < rows {
      VisitKeepsLast(t, s, f, from, now, PolicyFor(s, reconcile));
      var (t1, s1) := VisitRow(t, s, f, from, now, PolicyFor(s, reconcile));
      VisitRowsKeepLast(t1, s1, f, from + 1, rows, now, reconcile);
    }
  }

  lemma {:induction false} StreamRowsKeepLast(t: Tracker, s: Burst, rows: seq<RowDelta>, region: Option<AnimationRegion>, now: real)
    requires t.WellFormed() && t.LastAgrees()
    ensures StreamRows(t, s, rows, region, now).0.LastAgrees()
    decreases |rows|
  {
    if rows != [] {
      if InRegion(rows[0].row, region) {
        StreamRowsKeepLast(t, s, rows[1..], region, now);
      } else {
        UpdateRowKeepsLast(t, s, rows[0], now, UpdatePolicy(s));
        var (t1, s1) := UpdateRow(t, s, rows[0], now, UpdatePolicy(s));
        StreamRowsKeepLast(t1, s1, rows[1..], region, now);
      }
    }
  }

  lemma {:induction false} RevealStepKeepsLast(m: Model, t: Tracker, s: Burst, f: FrameDelta, now: real, scrolled: bool, repaint: bool)
    requires t.WellFormed() && t.LastAgrees()
    ensures RevealStep(m, t, s, f, now, scrolled, repaint).0.LastAgrees()
  {
    var begun := s.Begin(now, m.config.durationMs as real);
    if scrolled {
      VisitKeepsLast(t, begun, f, BottomRow(f), now, UpdatePolicy(begun));
    } else if repaint || m.config.textAnimation == Typewriter {
      VisitRowsKeepLast(t, begun, f, 0, f.size.rows, now, repaint);
    } else {
      StreamRowsKeepLast(t, begun, f.rows, f.animationRegion, now);
    }
  }

  /** After the text part of a frame the cached time agrees with the array again, even if a
      resize upset it before. */
  lemma {:induction false} TextStepRestoresLast(m: Model, t: Tracker, f: FrameDelta, now: real)
    requires t.WellFormed() && (f.size == m.size ==> t.LastAgrees())
    ensures TextStep(m, t, f, now).0.LastAgrees()
  {
    var scrolled := CanTranslate(m, t, f);
    var t1 := if scrolled then TranslateUpOne(t) else t;
    var repaint := f.damage.Full? && !scrolled;
    var moved := f.alternateScreen || f.size != m.size;
    if (repaint && (moved || m.lastHistory.None?)) || moved {
      ClearedAdoptionAgrees(t1, f.rows);
    } else if RevealEligible(m, f) {
      RevealStepKeepsLast(m, t1, if repaint then Burst.Fresh(Stagger(m.config)) else m.schedule, f, now, scrolled, repaint);
    } else {
      SyncRowsKeepsLast(t1, f.rows);
    }
  }

  lemma {:induction false} FrameKeepsInvariant(m: Model, f: FrameDelta, nowMs: nat, trailActive: bool)
    requires Invariant(m)
    ensures Invariant(ApplyFrame(m, f, nowMs, trailActive))
  {
    var now := Max(m.lastNow, nowMs as real);
    if m.tracker.Some? {
      var t := m.tracker.value;
      var t0 := if f.size == m.size then t else Resize(t, f.size.cols, f.size.rows, now);
      TextStepRestoresLast(m, t0, f, now);
      var hi := Max(MaxMs(t.ms), Horizon(m.config, t0.cap, now));
      TextStepWithin(m, t0, f, now, 0.0, hi);
    }
  }

  lemma {:induction false} FreshTrackerAgrees(cols: nat, rows: nat, maxCells: nat)
    ensures Tracker.New(cols, rows, maxCells).WellFormed() && Tracker.New(cols, rows, maxCells).LastAgrees()
  {
    ForgottenMax(Tracker.New(cols, rows, maxCells).ms);
  }

  lemma {:induction false} SetConfigKeepsInvariant(m: Model, config: EffectsConfig)
    requires Invariant(m)
    ensures Invariant(SetConfig(m, config))
  {
    FreshTrackerAgrees(m.size.cols, m.size.rows, config.maxTrackedCells);
  }

  lemma {:induction false} RunKeepsInvariant(m: Model, events: seq<Event>)
    requires Invariant(m)
    ensures Invariant(Run(m, events))
    decreases |events|
  {
    if events != [] {
      match events[0] {
        case Frame(f, nowMs, trailActive) => FrameKeepsInvariant(m, f, nowMs, trailActive);
        case Configure(config) => SetConfigKeepsInvariant(m, config);
      }
      RunKeepsInvariant(Step(m, events[0]), events[1..]);
    }
  }

  lemma {:induction false} NewModelInvariant(config: EffectsConfig, size: GridSize)
    ensures Invariant(New(config, size))
  {
    FreshTrackerAgrees(size.cols, size.rows, config.maxTrackedCells);
  }

  // ----- the scheduling decision -----

  lemma {:induction false} ListsCollectAnimating(t: Tracker, mode: TextAnimation, duration: real, now: real, n: nat)
    requires t.WellFormed() && n <= t.cap
    ensures Revealing(t, mode, duration, now, n) != [] || PendingCells(t, mode, duration, now, n) != []
       <==> exists i :: 0 <= i < n && Animating(t, i, duration, now)
  {
    if n > 0 {
      ListsCollectAnimating(t, mode, duration, now, n - 1);
    }
  }

  /** The one cached time decides for the whole array. */
  lemma {:induction false} CachedTimeDecides(t: Tracker, duration: real, now: real)
    requires t.WellFormed() && t.LastAgrees() && duration >= 0.0
    requires forall i :: 0 <= i < t.cap ==> t.ms[i] >= NEVER_MS
    ensures NeedsText(t, duration, now) <==> exists i :: 0 <= i < t.cap && Animating(t, i, duration, now)
  {
    if NeedsText(t, duration, now) {
      assert t.last in t.ms;
      var i :| 0 <= i < |t.ms| && t.ms[i] == t.last;
      assert Animating(t, i, duration, now);
    }
  }

  /** After any run that ends in a frame, another frame is asked for exactly when some cell is
      listed as revealing or pending, or the trail is active. */
  lemma {:induction false} FrameRequestsExactly(config: EffectsConfig, size: GridSize, events: seq<Event>,
                                                f: FrameDelta, nowMs: nat, trailActive: bool)
    ensures var r := ApplyFrame(Run(New(config, size), events), f, nowMs, trailActive);
            r.frame.needsFrame <==> r.frame.revealing != [] || r.frame.pending != [] || r.frame.trailActive
  {
    NewModelInvariant(config, size);
    RunKeepsInvariant(New(config, size), events);
    var m := Run(New(config, size), events);
    FrameKeepsInvariant(m, f, nowMs, trailActive);
    var r := ApplyFrame(m, f, nowMs, trailActive);
    if r.tracker.Some? {
      var t := r.tracker.value;
      CachedTimeDecides(t, m.config.durationMs as real, r.lastNow);
      ListsCollectAnimating(t, m.config.textAnimation, m.config.durationMs as real, r.lastNow, t.cap);
    }
  }

  lemma {:induction false} NothingToList(t: Tracker, mode: TextAnimation, duration: real, now: real)
    requires t.WellFormed() && forall i :: 0 <= i < t.cap ==> t.ms[i] == NEVER_MS
    ensures Revealing(t, mode, duration, now, t.cap) == [] && PendingCells(t, mode, duration, now, t.cap) == []
  {
    ListsCollectAnimating(t, mode, duration, now, t.cap);
  }

  /** Whatever frame it is: it allows reveals exactly when its own changes are eligible or it
      lists a cell, so no listed cell is ever withheld. */
  lemma {:induction false} ListedCellsAreAllowed(m: Model, f: FrameDelta, nowMs: nat, trailActive: bool)
    requires m.WellFormed()
    ensures var r := ApplyFrame(m, f, nowMs, trailActive).frame;
            r.textRevealAllowed <==>
            m.tracker.Some? && (RevealEligible(m, f) || r.revealing != [] || r.pending != [])
  {
    var now := Max(m.lastNow, nowMs as real);
    if m.tracker.Some? && (f.alternateScreen || f.size != m.size) {
      var t0 := if f.size == m.size then m.tracker.value else Resize(m.tracker.value, f.size.cols, f.size.rows, now);
      ClearedAdoptionAgrees(t0, f.rows);
      NothingToList(TextStep(m, t0, f, now).0, m.config.textAnimation, m.config.durationMs as real, now);
    }
  }

  /** Replacing the configuration empties the lists when it disables the text animation, but
      leaves the last decision standing: until the next frame it agrees with the lists
      exactly unless text was disabled while only text asked for frames. */
  lemma {:induction false} SetConfigLeavesDecision(m: Model, config: EffectsConfig)
    requires m.WellFormed()
    requires m.frame.needsFrame <==> m.frame.revealing != [] || m.frame.pending != [] || m.frame.trailActive
    ensures var r := SetConfig(m, config).frame;
            (r.needsFrame <==> r.revealing != [] || r.pending != [] || r.trailActive) <==>
            !(config.textAnimation == Disabled && m.frame.needsFrame && !m.frame.trailActive)
  {
  }

  // ----- the lists -----

  lemma {:induction false} QuotientBelow(i: nat, cols: nat, rows: nat, q: nat, r: nat)
    requires cols > 0 && i < cols * rows && q == i / cols && r == i % cols
    ensures q < rows && r < cols && q * cols + r == i
  {
    assert i == q * cols + r;
    if q >= rows {
      ProductsRise(rows, q, cols);
    }
  }

  /** In a grid that fits sixteen bits, positions name tracked cells uniquely. */
  lemma {:induction false} PositionsAreExact(t: Tracker, i: nat, q: nat, r: nat)
    requires t.WellFormed() && i < t.cap && 0 < t.cols < U16_SIZE && t.rows < U16_SIZE
    requires q == i / t.cols && r == i % t.cols
    ensures PosOf(t, i) == CellPos(q, r) && q < t.rows && r < t.cols && q * t.cols + r == i
  {
    QuotientBelow(i, t.cols, t.rows, q, r);
  }

  lemma {:induction false} Divide(i: nat, c: nat) returns (q: nat, r: nat)
    requires c > 0
    ensures q == i / c && r == i % c
  {
    q, r := i / c, i % c;
  }

  /** Two positions are equal only for the same cell. */
  lemma {:induction false} PositionsDiffer(t: Tracker, i: nat, j: nat)
    requires t.WellFormed() && i < t.cap && j < t.cap && 0 < t.cols < U16_SIZE && t.rows < U16_SIZE
    ensures PosOf(t, i) == PosOf(t, j) <==> i == j
  {
    var q, r := Divide(i, t.cols);
    var q', r' := Divide(j, t.cols);
    PositionsAreExact(t, i, q, r);
    PositionsAreExact(t, j, q', r');
  }

  /** Cell i goes into the pending list, or into the revealing one: its time is not over, and under the
      typewriter it may lie ahead. */
  predicate Shown(t: Tracker, mode: TextAnimation, duration: real, now: real, i: nat, pending: bool)
    requires i < |t.ms|
  {
    t.ms[i] != NEVER_MS && now - t.ms[i] < duration && (mode == Typewriter && now < t.ms[i]) == pending
  }

  /** `cells` are the first n tracked cells that go into the list, in row-major order. */
  ghost predicate Lists(cells: seq<nat>, t: Tracker, mode: TextAnimation, duration: real, now: real, n: nat, pending: bool)
    requires n <= |t.ms|
  {
    && (forall j, k :: 0 <= j < k < |cells| ==> cells[j] < cells[k])
    && (forall j :: 0 <= j < |cells| ==> cells[j] < n)
    && (forall i: nat :: i < n ==> (i in cells <==> Shown(t, mode, duration, now, i, pending)))
  }

  lemma {:induction false} ListsOneMore(cells: seq<nat>, t: Tracker, mode: TextAnimation, duration: real, now: real,
                                        n: nat, next: nat, pending: bool, more: seq<nat>)
    requires next == n + 1 <= |t.ms| && Lists(cells, t, mode, duration, now, n, pending)
    requires more == if Shown(t, mode, duration, now, n, pending) then cells + [n] else cells
    ensures Lists(more, t, mode, duration, now, next, pending)
  {
    assert forall i :: i in cells + [n] <==> i in cells || i == n;
    assert n !in cells;
  }

  /** Each entry is the position of its cell. */
  ghost predicate NamesCells(list: seq<CellPos>, cells: seq<nat>, t: Tracker) {
    |list| == |cells| && (cells != [] ==> t.cols > 0) && forall j :: 0 <= j < |cells| ==> list[j] == PosOf(t, cells[j])
  }

  /** Each entry is the position of its cell, with the cell's time. */
  ghost predicate ShowsCells(list: seq<CellReveal>, cells: seq<nat>, t: Tracker, now: real) {
    && |list| == |cells| && (cells != [] ==> t.cols > 0) && (forall j :: 0 <= j < |cells| ==> cells[j] < |t.ms|)
    && forall j :: 0 <= j < |cells| ==> list[j] == CellReveal(PosOf(t, cells[j]), t.ms[cells[j]], now - t.ms[cells[j]])
  }

  lemma {:induction false} NamesOneMore(list: seq<CellPos>, cells: seq<nat>, t: Tracker, i: nat)
    requires NamesCells(list, cells, t) && t.cols > 0
    ensures NamesCells(list + [PosOf(t, i)], cells + [i], t)
  {
  }

  lemma {:induction false} ShowsOneMore(list: seq<CellReveal>, cells: seq<nat>, t: Tracker, now: real, i: nat)
    requires ShowsCells(list, cells, t, now) && t.cols > 0 && i < |t.ms|
    ensures ShowsCells(list + [RevealOf(t, i, now)], cells + [i], t, now)
  {
  }

  lemma {:induction false} PendingOneMore(t: Tracker, mode: TextAnimation, duration: real, now: real, last: nat, n: nat,
                                          earlier: seq<nat>, cells: seq<nat>)
    requires t.WellFormed() && n == last + 1 <= t.cap && t.cols > 0
    requires cells == if Shown(t, mode, duration, now, last, true) then earlier + [last] else earlier
    requires NamesCells(PendingCells(t, mode, duration, now, last), earlier, t)
    ensures NamesCells(PendingCells(t, mode, duration, now, n), cells, t)
  {
    var list := PendingCells(t, mode, duration, now, last);
    assert list + [] == list;
    NamesOneMore(list, earlier, t, last);
  }

  /** The pending list consists of the positions of exactly the tracked cells whose time lies
      ahead, each once and in row-major order. */
  lemma {:induction false} PendingListIsExact(t: Tracker, mode: TextAnimation, duration: real, now: real, n: nat)
    returns (cells: seq<nat>)
    requires t.WellFormed() && n <= t.cap
    ensures Lists(cells, t, mode, duration, now, n, true)
    ensures NamesCells(PendingCells(t, mode, duration, now, n), cells, t)
  {
    if n == 0 {
      cells := [];
    } else {
      var last := n - 1;
      TrackedCellsHaveColumns(t, last);
      var earlier := PendingListIsExact(t, mode, duration, now, last);
      cells := if Shown(t, mode, duration, now, last, true) then earlier + [last] else earlier;
      ListsOneMore(earlier, t, mode, duration, now, last, n, true, cells);
      PendingOneMore(t, mode, duration, now, last, n, earlier, cells);
    }
  }

  lemma {:induction false} RevealsOneMore(t: Tracker, mode: TextAnimation, duration: real, now: real, last: nat, n: nat,
                                          earlier: seq<nat>, cells: seq<nat>)
    requires t.WellFormed() && n == last + 1 <= t.cap && t.cols > 0
    requires cells == if Shown(t, mode, duration, now, last, false) then earlier + [last] else earlier
    requires ShowsCells(Revealing(t, mode, duration, now, last), earlier, t, now)
    ensures ShowsCells(Revealing(t, mode, duration, now, n), cells, t, now)
  {
    var list := Revealing(t, mode, duration, now, last);
    assert list + [] == list;
    ShowsOneMore(list, earlier, t, now, last);
  }

  /** And the revealing list of exactly the other animating cells, with their times. */
  lemma {:induction false} RevealListIsExact(t: Tracker, mode: TextAnimation, duration: real, now: real, n: nat)
    returns (cells: seq<nat>)
    requires t.WellFormed() && n <= t.cap
    ensures Lists(cells, t, mode, duration, now, n, false)
    ensures ShowsCells(Revealing(t, mode, duration, now, n), cells, t, now)
  {
    if n == 0 {
      cells := [];
    } else {
      var last := n - 1;
      TrackedCellsHaveColumns(t, last);
      var earlier := RevealListIsExact(t, mode, duration, now, last);
      cells := if Shown(t, mode, duration, now, last, false) then earlier + [last] else earlier;
      ListsOneMore(earlier, t, mode, duration, now, last, n, false, cells);
      RevealsOneMore(t, mode, duration, now, last, n, earlier, cells);
    }
  }

  lemma {:induction false} NextProduct(q: nat, c: nat)
    ensures (q + 1) * c == q * c + c
  {
  }

  lemma {:induction false} QuotientsRise(i: nat, j: nat, c: nat, q: nat, r: nat, q': nat, r': nat)
    requires i < j && q * c + r == i && q' * c + r' == j && r < c && r' < c
    ensures q < q' || (q == q' && r < r')
  {
    NextProduct(q', c);
    if q' < q {
      ProductsRise(q' + 1, q, c);
    }
  }

  /** In a grid of sixteen-bit size row-major order is reading order. */
  lemma {:induction false} PositionsAscend(t: Tracker, i: nat, j: nat)
    requires t.WellFormed() && i < j < t.cap && 0 < t.cols < U16_SIZE && t.rows < U16_SIZE
    ensures var a, b := PosOf(t, i), PosOf(t, j);
            a.row < b.row || (a.row == b.row && a.col < b.col)
  {
    var q, r := Divide(i, t.cols);
    var q', r' := Divide(j, t.cols);
    PositionsAreExact(t, i, q, r);
    PositionsAreExact(t, j, q', r');
    QuotientsRise(i, j, t.cols, q, r, q', r');
  }

  // ----- the horizon -----

  ghost predicate AllFrames(events: seq<Event>) {
    forall i :: 0 <= i < |events| ==> events[i].Frame?
  }

  /** Frames that bring no rows. */
  ghost predicate Rowless(events: seq<Event>) {
    forall i :: 0 <= i < |events| ==> events[i].Frame? && events[i].frame.rows == []
  }

  /** No change time lies past the horizon of the last frame. */
  ghost predicate WithinHorizon(m: Model) {
    m.tracker.Some? ==> Within(m.tracker.value.ms, 0.0, Horizon(m.config, m.tracker.value.cap, m.lastNow))
  }

  lemma {:induction false} HorizonRises(config: EffectsConfig, cap: nat, now: real, later: real)
    requires now <= later
    ensures later <= Horizon(config, cap, later) && Horizon(config, cap, now) <= Horizon(config, cap, later)
  {
    if cap > 0 {
      assert (cap - 1) as real * Stagger(config) >= 0.0;
    }
  }

  lemma {:induction false} FrameStaysWithinHorizon(m: Model, f: FrameDelta, nowMs: nat, trailActive: bool)
    requires Invariant(m) && WithinHorizon(m)
    ensures WithinHorizon(ApplyFrame(m, f, nowMs, trailActive))
  {
    var now := Max(m.lastNow, nowMs as real);
    if m.tracker.Some? {
      var t := m.tracker.value;
      var t0 := if f.size == m.size then t else Resize(t, f.size.cols, f.size.rows, now);
      HorizonRises(m.config, t.cap, m.lastNow, now);
      TextStepWithin(m, t0, f, now, 0.0, Horizon(m.config, t0.cap, now));
    }
  }

  lemma {:induction false} TailEvents(events: seq<Event>)
    requires events != []
    ensures AllFrames(events) ==> AllFrames(events[1..])
    ensures Rowless(events) ==> Rowless(events[1..])
  {
    assert forall i :: 0 <= i < |events[1..]| ==> events[1..][i] == events[i + 1];
  }

  /** Under one configuration every stored time stays below the horizon: the present in
      streaming mode, and in typewriter mode at most `MAX_AHEAD_MS` and one stagger per
      further tracked cell past it. */
  lemma {:induction false} RunStaysWithinHorizon(m: Model, events: seq<Event>)
    requires Invariant(m) && WithinHorizon(m) && AllFrames(events)
    ensures WithinHorizon(Run(m, events)) && Run(m, events).config == m.config
    decreases |events|
  {
    if events != [] {
      assert events[0].Frame?;
      var e := events[0];
      FrameKeepsInvariant(m, e.frame, e.nowMs, e.trailActive);
      FrameStaysWithinHorizon(m, e.frame, e.nowMs, e.trailActive);
      TailEvents(events);
      RunStaysWithinHorizon(Step(m, e), events[1..]);
    }
  }

  lemma {:induction false} VisitingNothing(t: Tracker, s: Burst, f: FrameDelta, from: nat, rows: nat, now: real, reconcile: bool)
    requires t.WellFormed() && f.rows == [] && from <= rows
    ensures VisitRows(t, s, f, from, rows, now, reconcile) == (t, s)
    decreases rows - from
  {
    if from < rows {
      VisitingNothing(t, s, f, from + 1, rows, now, reconcile);
    }
  }

  /** A frame without rows hands out no time. */
  lemma {:induction false} RowlessFrameStaysWithin(m: Model, f: FrameDelta, nowMs: nat, trailActive: bool, lo: real, hi: real)
    requires m.WellFormed() && f.rows == [] && (m.tracker.Some? ==> Within(m.tracker.value.ms, lo, hi))
    ensures var r := ApplyFrame(m, f, nowMs, trailActive);
            r.tracker.Some? ==> Within(r.tracker.value.ms, lo, hi)
  {
    var now := Max(m.lastNow, nowMs as real);
    if m.tracker.Some? {
      var t := m.tracker.value;
      var t0 := if f.size == m.size then t else Resize(t, f.size.cols, f.size.rows, now);
      var scrolled := CanTranslate(m, t0, f);
      var t1 := if scrolled then TranslateUpOne(t0) else t0;
      ClearedAdoptionAgrees(t1, []);
      VisitingNothing(t1, Burst.Fresh(Stagger(m.config)).Begin(now, m.config.durationMs as real), f, 0, f.size.rows, now, true);
      VisitingNothing(t1, m.schedule.Begin(now, m.config.durationMs as real), f, 0, f.size.rows, now, false);
    }
  }

  lemma {:induction false} RowlessRunStaysWithin(m: Model, events: seq<Event>, lo: real, hi: real)
    requires m.WellFormed() && Rowless(events) && (m.tracker.Some? ==> Within(m.tracker.value.ms, lo, hi))
    ensures var r := Run(m, events);
            r.config == m.config && (r.tracker.Some? ==> Within(r.tracker.value.ms, lo, hi))
    decreases |events|
  {
    if events != [] {
      var e := events[0];
      RowlessFrameStaysWithin(m, e.frame, e.nowMs, e.trailActive, lo, hi);
      TailEvents(events);
      RowlessRunStaysWithin(Step(m, e), events[1..], lo, hi);
    }
  }

  /** Once rows stop arriving, the text animation asks for no frame after the horizon of the
      last frame plus the duration, whatever else the rowless frames report. */
  lemma {:induction false} SilentPastHorizon(m: Model, events: seq<Event>, f: FrameDelta, nowMs: nat, trailActive: bool)
    requires Invariant(m) && WithinHorizon(m) && m.tracker.Some? && Rowless(events) && f.rows == []
    requires nowMs as real >= Horizon(m.config, m.tracker.value.cap, m.lastNow) + m.config.durationMs as real
    ensures var r := ApplyFrame(Run(m, events), f, nowMs, trailActive);
            r.frame.needsFrame == trailActive && r.frame.revealing == [] && r.frame.pending == []
  {
    var hi, duration := Horizon(m.config, m.tracker.value.cap, m.lastNow), m.config.durationMs as real;
    RowlessRunStaysWithin(m, events, 0.0, hi);
    RunKeepsInvariant(m, events);
    var n := Run(m, events);
    RowlessFrameStaysWithin(n, f, nowMs, trailActive, 0.0, hi);
    FrameKeepsInvariant(n, f, nowMs, trailActive);
    var r := ApplyFrame(n, f, nowMs, trailActive);
    if r.tracker.Some? {
      var t := r.tracker.value;
      assert forall i :: 0 <= i < t.cap ==> !Animating(t, i, duration, r.lastNow);
      ListsCollectAnimating(t, m.config.textAnimation, duration, r.lastNow, t.cap);
      CachedTimeDecides(t, duration, r.lastNow);
    }
  }

  /** The two together, for a surface from its creation on. */
  lemma {:induction false} SilenceFollowsOutput(config: EffectsConfig, size: GridSize, output: seq<Event>, silence: seq<Event>,
                                                f: FrameDelta, nowMs: nat, trailActive: bool)
    requires AllFrames(output) && Rowless(silence) && f.rows == [] && config.textAnimation != Disabled
    ensures var m := Run(New(config, size), output);
            && WithinHorizon(m) && m.tracker.Some?
            && (nowMs as real >= Horizon(config, m.tracker.value.cap, m.lastNow) + config.durationMs as real ==>
                  var r := ApplyFrame(Run(m, silence), f, nowMs, trailActive);
                  r.frame.needsFrame == trailActive && r.frame.revealing == [] && r.frame.pending == [])
  {
    var m0 := New(config, size);
    NewModelInvariant(config, size);
    RunKeepsInvariant(m0, output);
    RunStaysWithinHorizon(m0, output);
    var m := Run(m0, output);
    if nowMs as real >= Horizon(config, m.tracker.value.cap, m.lastNow) + config.durationMs as real {
      SilentPastHorizon(m, silence, f, nowMs, trailActive);
    }
  }
}
