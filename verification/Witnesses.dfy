/** Inputs on which a documented or expected property fails. Each is one that the code can
    receive; the exact conditions are stated with the components. */
module Witnesses {
  import opened Basics
  import opened Terminal
  import opened Schedule
  import opened TrackerSpec
  import opened TrackerProofs
  import opened EffectsSpec
  import opened EffectsProofs
  import opened OrderProofs
  import Payloads
  import Workloads

  const STREAMING := EffectsConfig(Streaming, 100, 10)
  const DISABLED := EffectsConfig(Disabled, 100, 10)

  function Letter(content: bv32): Cell {
    Cell(content, 0, 0)
  }

  /** A row of one cell. */
  function OneCell(row: nat, generation: nat, content: bv32): RowDelta {
    RowDelta(row, generation, [Letter(content)], [])
  }

  /** A frame of a grid with one column. */
  function Column(rows: nat, damage: DamageKind, deltas: seq<RowDelta>): FrameDelta {
    FrameDelta(1, GridSize(1, rows), damage, deltas, false, false, 0, false, None)
  }

  // ----- the cached time -----

  /** A new surface of one cell, resized to two columns: the new cell is stamped, the cached time
      is not told. */
  lemma {:induction false} ResizeCanBreakAgreement()
    ensures var t := New(STREAMING, GridSize(1, 1)).tracker.value;
            t.LastAgrees() && !Resize(t, 2, 1, 5.0).LastAgrees()
  {
    FreshTrackerAgrees(1, 1, 10);
    ResizeAgreesWhen(New(STREAMING, GridSize(1, 1)).tracker.value, 2, 1, 5.0);
  }

  /** Writing a letter over another key, with the schedule idle. */
  lemma {:induction false} LetterIsStamped(t: Tracker, s: Burst, rd: RowDelta, now: real, t': Tracker, s': Burst)
    requires t.WellFormed() && t.cols == 1 && IsNew(t, rd) && |rd.cells| == 1 && t.cap == t.rows && !s.Active()
    requires KeyAt(t, rd.row, 0) != RenderKey(rd.cells[0])
    requires (t', s') == UpdateRow(t, s, rd, now, EveryChangedCell)
    ensures SameGrid(t', t) && s' == s && t'.generations == t.generations[rd.row := rd.generation]
    ensures t'.snapshot[rd.row] == RenderKey(rd.cells[0]) && t'.ms[rd.row] == now
    ensures forall r: nat :: r < t.rows && r != rd.row ==> t'.snapshot[r] == t.snapshot[r] && t'.ms[r] == t.ms[r]
  {
    assert forall r: nat :: t.Base(r) == r;
    var cs, keys := Tracked(t, rd), StoredKeys(t, rd);
    assert cs == rd.cells && keys[0] == KeyAt(t, rd.row, 0);
    var pass := PassFor(EveryChangedCell, keys, cs);
    var heads := TakenHeads(pass, keys, cs, 0);
    UpdateShape(t, s, rd, now, EveryChangedCell, cs, keys, pass, t', s', heads);
    WhoAnimates(cs, keys, EveryChangedCell, pass, 0);
    assert Keys(cs)[0] == RenderKey(cs[0]);
    var k :| 0 <= k < |heads| && heads[k] == 0;
    assert forall r: nat :: t'.Base(r) == r;
    KthUnitTakesKthSlot(t, s, rd, now, EveryChangedCell, cs, keys, pass, t', s', heads, k, 0);
    UpdatedCell(t, s, rd, now, EveryChangedCell, cs, keys, pass, t', s', 0);
    forall r: nat | r < t.rows && r != rd.row ensures t'.snapshot[r] == t.snapshot[r] && t'.ms[r] == t.ms[r] {
      assert Tracks(t, r, 0);
      UpdateElsewhere(t, s, rd, now, EveryChangedCell, cs, keys, pass, t', s', r, 0);
      assert KeyAt(t', r, 0) == KeyAt(t, r, 0) && TimeAt(t', r, 0) == TimeAt(t, r, 0);
    }
  }

  /** A surface of one cell that has just shown its first letter. */
  const FIRST_LETTER := Frame(Column(1, Partial, [OneCell(0, 1, 0x41)]), 5, false)

  lemma {:induction false} FirstLetter(m: Model)
    requires m == Run(New(STREAMING, GridSize(1, 1)), [FIRST_LETTER])
    ensures m.tracker.Some? && m.tracker.value.WellFormed() && m.tracker.value.cap == 1
    ensures m.tracker.value.ms == [5.0] && m.tracker.value.last == 5.0
    ensures m.lastNow == 5.0 && m.config == STREAMING && m.frame.needsFrame && !m.frame.trailActive
  {
    var m0 := New(STREAMING, GridSize(1, 1));
    var t, rd := m0.tracker.value, OneCell(0, 1, 0x41);
    assert Run(m0, [FIRST_LETTER]) == Step(m0, FIRST_LETTER) by {
      assert [FIRST_LETTER][1..] == [];
    }
    ScalarsAreNeverUnseen(rd.cells[0]);
    var begun := m0.schedule.Begin(5.0, 100.0);
    assert !begun.Active();
    var (t', s') := UpdateRow(t, begun, rd, 5.0, EveryChangedCell);
    LetterIsStamped(t, begun, rd, 5.0, t', s');
    assert [rd][1..] == [];
    assert StreamRows(t, begun, [rd], None, 5.0) == StreamRows(t', s', [], None, 5.0);
    assert m.tracker.value == t';
    NewModelInvariant(STREAMING, GridSize(1, 1));
    RunKeepsInvariant(m0, [FIRST_LETTER]);
    MaxMsIs(t'.ms, 5.0);
  }

  /** Adopting no rows on a surface that shows a fresh letter. */
  lemma {:induction false} AdoptionCanBreakAgreement()
    ensures var t := Run(New(STREAMING, GridSize(1, 1)), [FIRST_LETTER]).tracker;
            t.Some? && t.value.WellFormed() && t.value.LastAgrees() && !AdoptRows(t.value, []).LastAgrees()
  {
    var m := Run(New(STREAMING, GridSize(1, 1)), [FIRST_LETTER]);
    FirstLetter(m);
    MaxMsIs(m.tracker.value.ms, 5.0);
    AdoptionAgreesWhen(m.tracker.value, []);
    assert !Reached(m.tracker.value, [], 0);
  }

  /** Text is switched off while it alone asks for frames: the request outlives the lists. */
  lemma {:induction false} DecisionCanBeStale()
    ensures var f := Run(New(STREAMING, GridSize(1, 1)), [FIRST_LETTER, Configure(DISABLED)]).frame;
            f.needsFrame && f.revealing == [] && f.pending == [] && !f.trailActive
  {
    var m0 := New(STREAMING, GridSize(1, 1));
    var m := Run(m0, [FIRST_LETTER]);
    FirstLetter(m);
    var events, rest := [FIRST_LETTER, Configure(DISABLED)], [Configure(DISABLED)];
    assert events[1..] == rest && rest[1..] == [] && [FIRST_LETTER][1..] == [];
    assert Run(m0, events) == Run(m, rest) == Run(SetConfig(m, DISABLED), []);
  }

  // ----- the order of rows -----

  /** Two rows that show A over B. */
  const TWO_ROWS := Frame(Column(2, Partial, [OneCell(0, 1, 0x41), OneCell(1, 1, 0x42)]), 5, false)

  /** The rows move up by one, and C comes in below; delivered top-down and bottom-up. */
  const SCROLLED := Column(2, Full, [OneCell(0, 2, 0x42), OneCell(1, 2, 0x43)])
  const REVERSED := Column(2, Full, [OneCell(1, 2, 0x43), OneCell(0, 2, 0x42)])

  lemma {:induction false} TwoRows(m: Model)
    requires m == Run(New(STREAMING, GridSize(1, 2)), [TWO_ROWS])
    ensures m.tracker.Some? && m.tracker.value.WellFormed()
    ensures var t := m.tracker.value;
            && t.cols == 1 && t.rows == 2 && t.cap == 2
            && t.snapshot[1] == RenderKey(Letter(0x42)) && t.generations[0] == 1
    ensures m.size == GridSize(1, 2) && m.lastHistory == Some(0) && m.schedule.stagger == 0.0 && m.config == STREAMING
  {
    var m0 := New(STREAMING, GridSize(1, 2));
    var t, a, b := m0.tracker.value, OneCell(0, 1, 0x41), OneCell(1, 1, 0x42);
    assert Run(m0, [TWO_ROWS]) == Step(m0, TWO_ROWS) by {
      assert [TWO_ROWS][1..] == [];
    }
    ScalarsAreNeverUnseen(a.cells[0]);
    ScalarsAreNeverUnseen(b.cells[0]);
    var begun := m0.schedule.Begin(5.0, 100.0);
    assert !begun.Active();
    var (t1, s1) := UpdateRow(t, begun, a, 5.0, EveryChangedCell);
    LetterIsStamped(t, begun, a, 5.0, t1, s1);
    var (t2, s2) := UpdateRow(t1, s1, b, 5.0, EveryChangedCell);
    assert t1.Base(1) == 1;
    LetterIsStamped(t1, s1, b, 5.0, t2, s2);
    assert [a, b][1..] == [b] && [b][1..] == [];
    assert StreamRows(t, begun, [a, b], None, 5.0) == StreamRows(t1, s1, [b], None, 5.0) == StreamRows(t2, s2, [], None, 5.0);
    assert m.tracker.value == t2;
  }

  lemma {:induction false} ScrollIsSeen(m: Model, t: Tracker)
    requires m.tracker == Some(t) && t.WellFormed() && t.cols == 1 && t.rows == 2 && t.cap == 2
    requires t.snapshot[1] == RenderKey(Letter(0x42)) && t.generations[0] == 1
    requires m.size == GridSize(1, 2) && m.lastHistory == Some(0)
    ensures CanTranslate(m, t, SCROLLED) && !CanTranslate(m, t, REVERSED)
    ensures RepaintShows(t, SCROLLED)
  {
    var a, b := OneCell(0, 2, 0x42), OneCell(1, 2, 0x43);
    assert ShowsRowBelow(t, a) && !ShowsRowBelow(t, b);
    assert CanTranslateUpOne(t, SCROLLED.rows) && REVERSED.rows[0] == b;
    assert FindRow(SCROLLED.rows, 0) == Some(a);
    assert GenerationLeft(t, SCROLLED, 0) == 2;
  }

  lemma {:induction false} SameDeltas()
    ensures Reordered(SCROLLED.rows, REVERSED.rows)
  {
    assert SCROLLED.rows == [OneCell(0, 2, 0x42)] + [OneCell(1, 2, 0x43)];
    assert REVERSED.rows == [OneCell(1, 2, 0x43)] + [OneCell(0, 2, 0x42)];
  }

  /** The same rows delivered in reverse are no scroll, and leave another state behind. */
  lemma {:induction false} OrderCanMatter()
    ensures var m := Run(New(STREAMING, GridSize(1, 2)), [TWO_ROWS]);
            && m.tracker.Some? && Reordered(SCROLLED.rows, REVERSED.rows)
            && CanTranslate(m, m.tracker.value, SCROLLED) && !CanTranslate(m, m.tracker.value, REVERSED)
            && ApplyFrame(m, SCROLLED, 6, false) != ApplyFrame(m, REVERSED, 6, false)
  {
    var m := Run(New(STREAMING, GridSize(1, 2)), [TWO_ROWS]);
    TwoRows(m);
    ScrollIsSeen(m, m.tracker.value);
    SameDeltas();
    FrameOrderDoesNotMatter(m, SCROLLED, REVERSED, 6, false);
  }

  // ----- elsewhere -----

  /** Two bytes of the mixed payload across the end of the ten MiB. */
  lemma {:induction false} ChunkCanDiffer()
    ensures Workloads.Chunk(Payloads.Unicode10Mb, Payloads.TEN_MIB - 1, Payloads.TEN_MIB + 1)
         != Payloads.Tabulate(Payloads.BytesOf(Payloads.Unicode10Mb), Payloads.TEN_MIB - 1, Payloads.TEN_MIB + 1)
  {
    Workloads.ChunkIsPayload(Payloads.Unicode10Mb, Payloads.TEN_MIB - 1, Payloads.TEN_MIB + 1);
  }

  /** A grid without columns has no cell to track. */
  lemma {:induction false} CapCanBeZero()
    ensures CapFor(0, 1, 10) == 0 && DocumentedCap(0, 1, 10) == 1
  {
    CapIsDocumentedWhen(0, 1, 10);
  }
}
