/** The deterministic effects model: one per terminal surface, updated in place. */
module Effects {
  import opened Basics
  import opened Terminal
  import opened Schedule
  import opened TrackerSpec
  import opened ChangeTracking
  import opened EffectsSpec

  class EffectsModel {
    var config: EffectsConfig
    var size: GridSize
    var tracker: ChangeTracker?
    var schedule: TypewriterSchedule
    var lastNow: real
    var lastHistory: Option<nat>
    var frame: EffectsFrame

    ghost function TrackerState(): Option<Tracker>
      reads this, tracker
    {
      if tracker == null then None else Some(tracker.State())
    }

    ghost function State(): Model
      reads this, tracker, schedule
    {
      Model(config, size, TrackerState(), schedule.Value(), lastNow, lastHistory, frame)
    }

    ghost predicate Valid()
      reads this, tracker
    {
      tracker != null ==> tracker.Valid()
    }

    constructor (config: EffectsConfig, size: GridSize)
      ensures Valid() && State() == New(config, size)
    {
      this.config, this.size := config, size;
      if config.textAnimation == Disabled {
        tracker := null;
      } else {
        tracker := new ChangeTracker(size.cols, size.rows, config.maxTrackedCells);
      }
      schedule := new TypewriterSchedule(Stagger(config));
      lastNow := 0.0;
      lastHistory := None;
      frame := EffectsFrame([], [], false, false, false);
    }

    method SetConfig(config: EffectsConfig)
      requires Valid()
      modifies this
      ensures Valid() && State() == EffectsSpec.SetConfig(old(State()), config)
    {
      this.config := config;
      schedule := new TypewriterSchedule(Stagger(config));
      if config.textAnimation != Disabled {
        if tracker == null {
          tracker := new ChangeTracker(size.cols, size.rows, config.maxTrackedCells);
        }
      } else {
        tracker := null;
        frame := frame.(revealing := [], pending := []);
      }
    }

    /** The cells inside their window and the ones still in the future, in row-major order. */
    method CollectReveals(duration: real, now: real)
      returns (revealing: seq<CellReveal>, pending: seq<CellPos>)
      requires Valid() && tracker != null
      ensures var t := tracker.State();
              && revealing == Revealing(t, config.textAnimation, duration, now, t.cap)
              && pending == PendingCells(t, config.textAnimation, duration, now, t.cap)
    {
      ghost var t := tracker.State();
      revealing, pending := [], [];
      for i := 0 to tracker.cap
        invariant revealing == Revealing(t, config.textAnimation, duration, now, i)
        invariant pending == PendingCells(t, config.textAnimation, duration, now, i)
      {
        TrackedCellsHaveColumns(t, i);
        if tracker.changeTimes[i] != NeverBits {
          var changeMs := tracker.changeMs[i];
          var elapsed := now - changeMs;
          if elapsed < duration {
            var pos := CellPos((i / tracker.cols) % U16_SIZE, (i % tracker.cols) % U16_SIZE);
            if config.textAnimation == Typewriter && elapsed < 0.0 {
              pending := pending + [pos];
            } else {
              revealing := revealing + [CellReveal(pos, changeMs, elapsed)];
            }
          }
        }
      }
    }

    method UpdateDelta(rd: RowDelta, now: real, reconcile: bool)
      requires Valid() && tracker != null
      modifies tracker, schedule
      ensures tracker.Valid()
      ensures (tracker.State(), schedule.Value())
           == TrackerSpec.UpdateRow(old(tracker.State()), old(schedule.Value()), rd, now, PolicyFor(old(schedule.Value()), reconcile))
    {
      if reconcile {
        tracker.ReconcileFullRow(rd.row, rd.generation, rd.cells, now, schedule);
      } else {
        tracker.UpdateRow(rd.row, rd.generation, rd.cells, now, schedule);
      }
    }

    method UpdateVisited(f: FrameDelta, target: nat, now: real, reconcile: bool)
      requires Valid() && tracker != null
      modifies tracker, schedule
      ensures tracker.Valid()
      ensures (tracker.State(), schedule.Value())
           == VisitRow(old(tracker.State()), old(schedule.Value()), f, target, now, PolicyFor(old(schedule.Value()), reconcile))
    {
      var found := FindRow(f.rows, target);
      if found.Some? && !InRegion(found.value.row, f.animationRegion) {
        UpdateDelta(found.value, now, reconcile);
      }
    }

    method UpdateGridRows(f: FrameDelta, now: real, reconcile: bool)
      requires Valid() && tracker != null
      modifies tracker, schedule
      ensures tracker.Valid()
      ensures (tracker.State(), schedule.Value())
           == VisitRows(old(tracker.State()), old(schedule.Value()), f, 0, size.rows, now, reconcile)
    {
      ghost var result := VisitRows(tracker.State(), schedule.Value(), f, 0, size.rows, now, reconcile);
      var target := 0;
      while target < size.rows
        invariant target <= size.rows && tracker.Valid()
        invariant VisitRows(tracker.State(), schedule.Value(), f, target, size.rows, now, reconcile) == result
      {
        UpdateVisited(f, target, now, reconcile);
        target := target + 1;
      }
    }

    method UpdateDeliveredRows(f: FrameDelta, now: real)
      requires Valid() && tracker != null
      modifies tracker, schedule
      ensures tracker.Valid()
      ensures (tracker.State(), schedule.Value())
           == StreamRows(old(tracker.State()), old(schedule.Value()), f.rows, f.animationRegion, now)
    {
      ghost var result := StreamRows(tracker.State(), schedule.Value(), f.rows, f.animationRegion, now);
      var rest := f.rows;
      while rest != []
        invariant tracker.Valid()
        invariant StreamRows(tracker.State(), schedule.Value(), rest, f.animationRegion, now) == result
        decreases |rest|
      {
        var rd := rest[0];
        if !InRegion(rd.row, f.animationRegion) {
          UpdateDelta(rd, now, false);
        }
        rest := rest[1..];
      }
    }

    /** The rows that an eligible frame animates. */
    method Reveal(f: FrameDelta, now: real, scrolled: bool, ghost m: Model)
      requires Valid() && tracker != null && m.config == config && size == f.size
      modifies tracker, schedule
      ensures tracker.Valid()
      ensures (tracker.State(), schedule.Value())
           == RevealStep(m, old(tracker.State()), old(schedule.Value()), f, now, scrolled, f.damage.Full? && !scrolled)
    {
      schedule.BeginBuild(now, config.durationMs as real);
      if scrolled {
        UpdateVisited(f, BottomRow(f), now, false);
      } else if f.damage.Full? || config.textAnimation == Typewriter {
        UpdateGridRows(f, now, f.damage.Full?);
      } else {
        UpdateDeliveredRows(f, now);
      }
    }

    /** The text part of a frame, on the already resized tracker. */
    method TextStep(f: FrameDelta, now: real, sizeChanged: bool, previousHistory: Option<nat>, ghost m: Model)
      returns (eligible: bool)
      requires Valid() && tracker != null
      requires m.config == config && m.lastHistory == previousHistory && m.schedule == schedule.Value()
      requires size == f.size && sizeChanged == (f.size != m.size)
      modifies this`schedule, tracker, schedule
      ensures tracker.Valid() && (schedule == old(schedule) || fresh(schedule))
      ensures (tracker.State(), schedule.Value()) == EffectsSpec.TextStep(m, old(tracker.State()), f, now)
      ensures eligible == RevealEligible(m, f)
    {
      var isFull, isAlt, isLarge := f.damage.Full?, f.alternateScreen, |f.rows| > LARGE_FRAME_ROWS;
      var canTranslate := !isAlt && !sizeChanged && isFull
                          && HistoryConsistent(previousHistory, f.historyRows)
                          && CanTranslateUpOne(tracker.State(), f.rows);
      if canTranslate {
        tracker.TranslateUpOne();
      }
      eligible := !isAlt && !sizeChanged && ((isFull && previousHistory.Some?) || (!isFull && !isLarge));
      if isFull && !canTranslate && (isAlt || sizeChanged || previousHistory.None?) {
        tracker.ClearChanges();
        tracker.AdoptRows(f.rows);
        schedule := new TypewriterSchedule(Stagger(config));
        return;
      }
      if isFull && !canTranslate {
        schedule := new TypewriterSchedule(Stagger(config));
      }
      if eligible {
        Reveal(f, now, canTranslate, m);
      } else if isAlt || sizeChanged {
        tracker.ClearChanges();
        tracker.AdoptRows(f.rows);
      } else {
        tracker.SyncRowsWithoutStamping(f.rows);
      }
    }

    /** What the painter gets, and whether another frame is wanted. */
    method BuildFrame(f: FrameDelta, now: real, eligible: bool, sizeChanged: bool, trailActive: bool, ghost m: Model)
      returns (built: EffectsFrame)
      requires Valid() && tracker != null
      requires m.config == config && sizeChanged == (f.size != m.size) && eligible == RevealEligible(m, f)
      ensures built == TextFrame(m, tracker.State(), f, now, trailActive)
    {
      var duration := config.durationMs as real;
      var last := tracker.lastChangeMs;
      var needsText := last != NEVER_MS && (now - last < 0.0 || now - last < duration);
      var revealing, pending := CollectReveals(duration, now);
      var allowed := eligible || (!f.alternateScreen && !sizeChanged && (revealing != [] || pending != []));
      built := EffectsFrame(revealing, pending, trailActive, allowed, needsText || trailActive);
    }

    method ApplyFrame(f: FrameDelta, nowMs: nat, trailActive: bool)
      requires Valid()
      modifies this, tracker, schedule
      ensures Valid() && State() == EffectsSpec.ApplyFrame(old(State()), f, nowMs, trailActive)
    {
      ghost var m := State();
      var now := Max(lastNow, nowMs as real);
      lastNow := now;
      var sizeChanged := f.size != size;
      var previousHistory := lastHistory;
      lastHistory := Some(f.historyRows);
      frame := EffectsFrame([], [], trailActive, false, trailActive);
      size := f.size;
      if tracker == null {
        return;
      }
      if sizeChanged {
        tracker.Resize(f.size.cols, f.size.rows, now);
      }
      var eligible := TextStep(f, now, sizeChanged, previousHistory, m);
      frame := BuildFrame(f, now, eligible, sizeChanged, trailActive, m);
    }
  }
}
