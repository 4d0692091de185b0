/** What the effects model computes, as functions on its value. */
module EffectsSpec {
  import opened Basics
  import opened Terminal
  import opened Schedule
  import opened TrackerSpec

  datatype TextAnimation = Disabled | Streaming | Typewriter

  /** The trail's own settings are not modelled. */
  datatype EffectsConfig = EffectsConfig(textAnimation: TextAnimation, durationMs: nat, maxTrackedCells: nat)

  datatype CellPos = CellPos(row: nat, col: nat)

  datatype CellReveal = CellReveal(pos: CellPos, changeMs: real, elapsedMs: real)

  /** The payload of one frame. Of the cursor trail only its activity is kept. */
  datatype EffectsFrame = EffectsFrame(
    revealing: seq<CellReveal>, pending: seq<CellPos>, trailActive: bool, textRevealAllowed: bool, needsFrame: bool)

  datatype Model = Model(
    config: EffectsConfig, size: GridSize, tracker: Option<Tracker>, schedule: Burst,
    lastNow: real, lastHistory: Option<nat>, frame: EffectsFrame)
  {
    ghost predicate WellFormed() {
      tracker.Some? ==> tracker.value.WellFormed()
    }
  }

  const U32_MAX: nat := 0xFFFF_FFFF
  const LARGE_FRAME_ROWS: nat := 16

  function Stagger(config: EffectsConfig): real {
    if config.textAnimation == Typewriter then config.durationMs as real / 8.0 else 0.0
  }

  function New(config: EffectsConfig, size: GridSize): (m: Model)
    ensures m.WellFormed()
  {
    Model(config, size,
          if config.textAnimation == Disabled then None else Some(Tracker.New(size.cols, size.rows, config.maxTrackedCells)),
          Burst.Fresh(Stagger(config)), 0.0, None, EffectsFrame([], [], false, false, false))
  }

  /** A surviving tracker keeps its own cell bound, whatever the new configuration says. */
  function SetConfig(m: Model, config: EffectsConfig): (r: Model)
    requires m.WellFormed()
    ensures r.WellFormed()
  {
    var n := m.(config := config, schedule := Burst.Fresh(Stagger(config)));
    if config.textAnimation == Disabled then
      n.(tracker := None, frame := m.frame.(revealing := [], pending := []))
    else if m.tracker.None? then
      n.(tracker := Some(Tracker.New(m.size.cols, m.size.rows, config.maxTrackedCells)))
    else n
  }

  /** Sixteen-bit arithmetic: a region that reaches past row 65535 wraps around. */
  predicate InRegion(row: nat, region: Option<AnimationRegion>) {
    region.Some? && region.value.row <= row < (region.value.row + region.value.rows) % U16_SIZE
  }

  /** Update the row at `target`, if the frame has one outside the animated region. */
  function VisitRow(t: Tracker, s: Burst, f: FrameDelta, target: nat, now: real, policy: Policy): (r: (Tracker, Burst))
    requires t.WellFormed()
    ensures r.0.WellFormed()
  {
    match FindRow(f.rows, target)
    case None => (t, s)
    case Some(rd) => if InRegion(rd.row, f.animationRegion) then (t, s) else UpdateRow(t, s, rd, now, policy)
  }

  function PolicyFor(s: Burst, reconcile: bool): Policy {
    if reconcile then DrawableUnits else UpdatePolicy(s)
  }

  /** Rows `from .. rows` of the grid, top to bottom, whatever the order of delivery. */
  function VisitRows(t: Tracker, s: Burst, f: FrameDelta, from: nat, rows: nat, now: real, reconcile: bool): (r: (Tracker, Burst))
    requires t.WellFormed() && from <= rows
    ensures r.0.WellFormed()
    decreases rows - from
  {
    if from == rows then (t, s)
    else
      var (t1, s1) := VisitRow(t, s, f, from, now, PolicyFor(s, reconcile));
      VisitRows(t1, s1, f, from + 1, rows, now, reconcile)
  }

  /** The rows of the frame in the order of delivery. */
  function StreamRows(t: Tracker, s: Burst, rows: seq<RowDelta>, region: Option<AnimationRegion>, now: real): (r: (Tracker, Burst))
    requires t.WellFormed()
    ensures r.0.WellFormed()
    decreases |rows|
  {
    if rows == [] then (t, s)
    else if InRegion(rows[0].row, region) then StreamRows(t, s, rows[1..], region, now)
    else
      var (t1, s1) := UpdateRow(t, s, rows[0], now, UpdatePolicy(s));
      StreamRows(t1, s1, rows[1..], region, now)
  }

  /** The scrollback grew by at most one row since the previous frame. */
  predicate HistoryConsistent(previous: Option<nat>, history: nat) {
    previous.Some? && (history == previous.value || (previous.value < U32_MAX && history == previous.value + 1))
  }

  predicate CanTranslate(m: Model, t: Tracker, f: FrameDelta)
    requires t.WellFormed()
  {
    && !f.alternateScreen
    && f.size == m.size
    && f.damage.Full?
    && HistoryConsistent(m.lastHistory, f.historyRows)
    && CanTranslateUpOne(t, f.rows)
  }

  /** Changed text of this frame may animate. */
  predicate RevealEligible(m: Model, f: FrameDelta) {
    && !f.alternateScreen
    && f.size == m.size
    && (if f.damage.Full? then m.lastHistory.Some? else |f.rows| <= LARGE_FRAME_ROWS)
  }

  function BottomRow(f: FrameDelta): nat {
    if f.size.rows == 0 then 0 else f.size.rows - 1
  }

  /** The rows that an eligible frame animates: the bottom row after a scroll, every grid row
      in order for a repaint or the typewriter, the delivered rows for streaming. */
  function RevealStep(m: Model, t: Tracker, s: Burst, f: FrameDelta, now: real, scrolled: bool, repaint: bool): (r: (Tracker, Burst))
    requires t.WellFormed()
    ensures r.0.WellFormed()
  {
    var begun := s.Begin(now, m.config.durationMs as real);
    if scrolled then
      VisitRow(t, begun, f, BottomRow(f), now, UpdatePolicy(begun))
    else if repaint || m.config.textAnimation == Typewriter then VisitRows(t, begun, f, 0, f.size.rows, now, repaint)
    else StreamRows(t, begun, f.rows, f.animationRegion, now)
  }

  /** The text part of a frame: which rows are stamped, adopted or merely synchronized. */
  function TextStep(m: Model, t: Tracker, f: FrameDelta, now: real): (r: (Tracker, Burst))
    requires t.WellFormed()
    ensures r.0.WellFormed()
  {
    var scrolled := CanTranslate(m, t, f);
    var t1 := if scrolled then TranslateUpOne(t) else t;
    var restarted := Burst.Fresh(Stagger(m.config));
    var repaint := f.damage.Full? && !scrolled;
    var moved := f.alternateScreen || f.size != m.size;
    if repaint && (moved || m.lastHistory.None?) then (AdoptRows(ClearChanges(t1), f.rows), restarted)
    else
      var s1 := if repaint then restarted else m.schedule;
      if RevealEligible(m, f) then RevealStep(m, t1, s1, f, now, scrolled, repaint)
      else if moved then (AdoptRows(ClearChanges(t1), f.rows), s1)
      else (SyncRows(t1, f.rows), s1)
  }

  /** Cell i has a change time that is still inside its window, or in the future. */
  predicate Animating(t: Tracker, i: nat, duration: real, now: real)
    requires i < |t.ms|
  {
    t.ms[i] != NEVER_MS && now - t.ms[i] < duration
  }

  predicate Pending(t: Tracker, i: nat, mode: TextAnimation, now: real)
    requires i < |t.ms|
  {
    mode == Typewriter && now - t.ms[i] < 0.0
  }

  /** The position of tracked cell i, in sixteen-bit coordinates. */
  function PosOf(t: Tracker, i: nat): CellPos
    requires t.cols > 0
  {
    CellPos((i / t.cols) % U16_SIZE, (i % t.cols) % U16_SIZE)
  }

  lemma {:induction false} TrackedCellsHaveColumns(t: Tracker, i: nat)
    requires t.WellFormed() && i < t.cap
    ensures t.cols > 0
  {
  }

  function RevealOf(t: Tracker, i: nat, now: real): CellReveal
    requires t.cols > 0 && i < |t.ms|
  {
    CellReveal(PosOf(t, i), t.ms[i], now - t.ms[i])
  }

  function Revealing(t: Tracker, mode: TextAnimation, duration: real, now: real, n: nat): seq<CellReveal>
    requires t.WellFormed() && n <= t.cap
  {
    if n == 0 then []
    else
      TrackedCellsHaveColumns(t, n - 1);
      Revealing(t, mode, duration, now, n - 1)
      + if Animating(t, n - 1, duration, now) && !Pending(t, n - 1, mode, now)
        then [RevealOf(t, n - 1, now)] else []
  }

  function PendingCells(t: Tracker, mode: TextAnimation, duration: real, now: real, n: nat): seq<CellPos>
    requires t.WellFormed() && n <= t.cap
  {
    if n == 0 then []
    else
      TrackedCellsHaveColumns(t, n - 1);
      PendingCells(t, mode, duration, now, n - 1)
      + if Animating(t, n - 1, duration, now) && Pending(t, n - 1, mode, now) then [PosOf(t, n - 1)] else []
  }

  /** The decision to schedule another frame looks at the cached time alone. */
  predicate NeedsText(t: Tracker, duration: real, now: real) {
    t.last != NEVER_MS && (now - t.last < 0.0 || now - t.last < duration)
  }

  function TextFrame(m: Model, t: Tracker, f: FrameDelta, now: real, trailActive: bool): EffectsFrame
    requires t.WellFormed()
  {
    var mode, duration := m.config.textAnimation, m.config.durationMs as real;
    var revealing := Revealing(t, mode, duration, now, t.cap);
    var pending := PendingCells(t, mode, duration, now, t.cap);
    EffectsFrame(
      revealing, pending, trailActive,
      || RevealEligible(m, f)
      || (!f.alternateScreen && f.size == m.size && (revealing != [] || pending != [])),
      NeedsText(t, duration, now) || trailActive)
  }

  /** One frame. The clock never runs backwards. */
  function ApplyFrame(m: Model, f: FrameDelta, nowMs: nat, trailActive: bool): (r: Model)
    requires m.WellFormed()
    ensures r.WellFormed()
  {
    var now := Max(m.lastNow, nowMs as real);
    var n := m.(size := f.size, lastNow := now, lastHistory := Some(f.historyRows));
    if m.tracker.None? then n.(frame := EffectsFrame([], [], trailActive, false, trailActive))
    else
      var t0 := if f.size == m.size then m.tracker.value else Resize(m.tracker.value, f.size.cols, f.size.rows, now);
      var (t, s) := TextStep(m, t0, f, now);
      n.(tracker := Some(t), schedule := s, frame := TextFrame(m, t, f, now, trailActive))
  }
}
