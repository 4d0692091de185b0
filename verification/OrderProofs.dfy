/** The order in which a frame delivers its rows does not matter. */
module OrderProofs {
  import opened Basics
  import opened Terminal
  import opened Sequences
  import opened Schedule
  import opened TrackerSpec
  import opened TrackerProofs
  import opened ScrollProofs
  import opened SlotProofs
  import opened EffectsSpec

  /** The three ways to take over the rows of a frame in the order of delivery. */
  datatype RowOp = Adopt | Sync | Stream(s: Burst, region: Option<AnimationRegion>, now: real)

  /** The new change times of a span, and whether the cached time follows. */
  function SpanTimes(op: RowOp, keys: seq<bv64>, was: seq<real>, cs: seq<Cell>): (r: seq<real>)
    requires |keys| == |was| == |cs|
    ensures |r| == |cs|
  {
    match op
    case Adopt => Repeat(NEVER_MS, |cs|)
    case Sync => SyncedMs(keys, cs, was)
    case Stream(s, _, now) => EditedMs(PassFor(UpdatePolicy(s), keys, cs), keys, cs, was, s, now)
  }

  predicate SpanTouches(op: RowOp, keys: seq<bv64>, was: seq<real>, cs: seq<Cell>)
    requires |keys| == |was| == |cs|
  {
    op.Stream? && Touches(PassFor(UpdatePolicy(op.s), keys, cs), keys, cs, was, |cs|)
  }

  function ApplySpan(t: Tracker, op: RowOp, base: nat, cs: seq<Cell>): Tracker
    requires base + |cs| <= |t.snapshot| == |t.ms|
  {
    var keys, was := t.snapshot[base..base + |cs|], t.ms[base..base + |cs|];
    var ms := Overlay(t.ms, base, SpanTimes(op, keys, was, cs));
    t.(snapshot := Overlay(t.snapshot, base, Keys(cs)), ms := ms,
       last := if SpanTouches(op, keys, was, cs) then MaxMs(ms) else t.last)
  }

  /** An edit that touches no time keeps the times. */
  lemma {:induction false} UntouchedSpan(ms: seq<real>, op: RowOp, base: nat, cs: seq<Cell>, end: nat, keys: seq<bv64>, was: seq<real>)
    requires base + |cs| == end <= |ms| && was == ms[base..end] && |keys| == |cs|
    requires op.Stream? && !SpanTouches(op, keys, was, cs)
    ensures Overlay(ms, base, SpanTimes(op, keys, was, cs)) == ms
  {
    var pass := PassFor(UpdatePolicy(op.s), keys, cs);
    var span := SpanTimes(op, keys, was, cs);
    forall x | 0 <= x < |cs|
      ensures span[x] == ms[base + x]
    {
      var index: nat := base + x;
      SliceAt(ms, base, end, x, index);
      assert !TouchesCell(pass, keys, cs, was, x);
    }
    OverlaySkips(ms, base, span, 0, |cs|);
  }

  /** An edit with everything about the span given; one that touches nothing keeps the times. */
  lemma {:induction false} ApplySpanAt(t: Tracker, op: RowOp, base: nat, cs: seq<Cell>, end: nat,
                                       keys: seq<bv64>, was: seq<real>, ms: seq<real>)
    requires end == base + |cs| <= |t.snapshot| == |t.ms|
    requires keys == t.snapshot[base..base + |cs|] && was == t.ms[base..base + |cs|]
    requires ms == Overlay(t.ms, base, SpanTimes(op, keys, was, cs))
    ensures ApplySpan(t, op, base, cs) ==
            t.(snapshot := Overlay(t.snapshot, base, Keys(cs)), ms := ms,
               last := if SpanTouches(op, keys, was, cs) then MaxMs(ms) else t.last)
    ensures op.Stream? && !SpanTouches(op, keys, was, cs) ==> ms == t.ms
  {
    if op.Stream? && !SpanTouches(op, keys, was, cs) {
      UntouchedSpan(t.ms, op, base, cs, end, keys, was);
    }
  }

  /** The same with the span named by its two ends. */
  lemma {:induction false} ApplySpanBetween(t: Tracker, op: RowOp, base: nat, cs: seq<Cell>, end: nat,
                                            keys: seq<bv64>, was: seq<real>, ms: seq<real>)
    requires end == base + |cs| <= |t.snapshot| == |t.ms|
    requires keys == t.snapshot[base..end] && was == t.ms[base..end]
    requires ms == Overlay(t.ms, base, SpanTimes(op, keys, was, cs))
    ensures ApplySpan(t, op, base, cs) ==
            t.(snapshot := Overlay(t.snapshot, base, Keys(cs)), ms := ms,
               last := if SpanTouches(op, keys, was, cs) then MaxMs(ms) else t.last)
    ensures op.Stream? && !SpanTouches(op, keys, was, cs) ==> ms == t.ms
  {
    ApplySpanAt(t, op, base, cs, end, keys, was, ms);
  }

  /** The cached time after two edits, in either order. */
  lemma {:induction false} LastOfTwo(stream: bool, touchA: bool, touchB: bool, ms: seq<real>, msA: seq<real>, msB: seq<real>, last: real)
    requires stream && !touchB ==> ms == msA
    requires stream && !touchA ==> ms == msB
    requires touchA || touchB ==> stream
    ensures (if touchB then MaxMs(ms) else if touchA then MaxMs(msA) else last) ==
            (if touchA then MaxMs(ms) else if touchB then MaxMs(msB) else last)
  {
  }

  /** Two spans that do not overlap can be edited in either order. */
  lemma {:induction false} SpansCommute(t: Tracker, op: RowOp, a: nat, cs: seq<Cell>, b: nat, ds: seq<Cell>)
    requires a + |cs| <= b && b + |ds| <= |t.snapshot| == |t.ms|
    ensures ApplySpan(ApplySpan(t, op, a, cs), op, b, ds) == ApplySpan(ApplySpan(t, op, b, ds), op, a, cs)
  {
    var aEnd, bEnd := a + |cs|, b + |ds|;
    var keysA, wasA, keysB, wasB := t.snapshot[a..aEnd], t.ms[a..aEnd], t.snapshot[b..bEnd], t.ms[b..bEnd];
    var spanA, spanB := SpanTimes(op, keysA, wasA, cs), SpanTimes(op, keysB, wasB, ds);
    var msA, msB := Overlay(t.ms, a, spanA), Overlay(t.ms, b, spanB);
    var ms := Overlay(msA, b, spanB);
    var u, v := ApplySpan(t, op, a, cs), ApplySpan(t, op, b, ds);
    ApplySpanBetween(t, op, a, cs, aEnd, keysA, wasA, msA);
    ApplySpanBetween(t, op, b, ds, bEnd, keysB, wasB, msB);
    DisjointOverlays(t.snapshot, a, aEnd, Keys(cs), b, bEnd, Keys(ds));
    DisjointOverlays(t.ms, a, aEnd, spanA, b, bEnd, spanB);
    ApplySpanBetween(u, op, b, ds, bEnd, keysB, wasB, ms);
    ApplySpanBetween(v, op, a, cs, aEnd, keysA, wasA, ms);
    LastOfTwo(op.Stream?, SpanTouches(op, keysA, wasA, cs), SpanTouches(op, keysB, wasB, ds), ms, msA, msB, t.last);
  }

  // ----- one row -----

  predicate Skips(t: Tracker, op: RowOp, rd: RowDelta)
    requires t.WellFormed()
  {
    rd.row >= t.rows || (op.Stream? && (InRegion(rd.row, op.region) || t.generations[rd.row] == rd.generation))
  }

  function ApplyRow(t: Tracker, op: RowOp, rd: RowDelta): (r: Tracker)
    requires t.WellFormed()
    ensures r.WellFormed() && r.cols == t.cols && r.rows == t.rows && r.cap == t.cap
  {
    if Skips(t, op, rd) then t
    else
      var seen := t.(generations := t.generations[rd.row := rd.generation]);
      var n := t.SpanLen(rd.row, |rd.cells|);
      if n == 0 then seen else ApplySpan(seen, op, t.Base(rd.row), rd.cells[..n])
  }

  /** The operation is the tracker's own. */
  lemma {:induction false} ApplySpanIs(t: Tracker, op: RowOp, base: nat, cs: seq<Cell>)
    requires base + |cs| <= |t.snapshot| == |t.ms|
    ensures ApplySpan(t, op, base, cs) ==
            match op
            case Adopt => BypassSpan(t, base, cs, true)
            case Sync => BypassSpan(t, base, cs, false)
            case Stream(s, region, now) => EditSpan(t, s, base, cs, now, UpdatePolicy(s)).0
  {
  }

  lemma {:induction false} ApplyRowIs(t: Tracker, op: RowOp, rd: RowDelta)
    requires t.WellFormed()
    ensures ApplyRow(t, op, rd) ==
            match op
            case Adopt => BypassRow(t, rd, true)
            case Sync => BypassRow(t, rd, false)
            case Stream(s, region, now) =>
              if InRegion(rd.row, region) then t else UpdateRow(t, s, rd, now, UpdatePolicy(s)).0
  {
    var n := t.SpanLen(rd.row, |rd.cells|);
    if !Skips(t, op, rd) && n != 0 {
      ApplySpanIs(t.(generations := t.generations[rd.row := rd.generation]), op, t.Base(rd.row), rd.cells[..n]);
    }
  }

  /** A row without tracked cells has no span. */
  function Edited(t: Tracker, op: RowOp, base: nat, cs: seq<Cell>): Tracker
    requires cs != [] ==> base + |cs| <= |t.snapshot| == |t.ms|
  {
    if cs == [] then t else ApplySpan(t, op, base, cs)
  }

  /** Storing a generation and editing a span are independent. */
  lemma {:induction false} GenerationsApart(t: Tracker, op: RowOp, base: nat, cs: seq<Cell>, g: seq<nat>)
    requires cs != [] ==> base + |cs| <= |t.snapshot| == |t.ms|
    ensures Edited(t.(generations := g), op, base, cs) == Edited(t, op, base, cs).(generations := g)
    ensures Edited(t, op, base, cs).generations == t.generations
  {
  }

  lemma {:induction false} AppliedRow(t: Tracker, op: RowOp, rd: RowDelta, base: nat, cs: seq<Cell>, g: seq<nat>)
    requires t.WellFormed() && !Skips(t, op, rd)
    requires base == t.Base(rd.row) && cs == rd.cells[..t.SpanLen(rd.row, |rd.cells|)]
    requires g == t.generations[rd.row := rd.generation]
    ensures ApplyRow(t, op, rd) == Edited(t, op, base, cs).(generations := g)
  {
    GenerationsApart(t, op, base, cs, g);
  }

  lemma {:induction false} EditsCommute(t: Tracker, op: RowOp, a: nat, cs: seq<Cell>, b: nat, ds: seq<Cell>)
    requires cs != [] ==> a + |cs| <= |t.snapshot| == |t.ms|
    requires ds != [] ==> b + |ds| <= |t.snapshot| == |t.ms|
    requires cs != [] && ds != [] ==> a + |cs| <= b
    ensures |Edited(t, op, a, cs).snapshot| == |t.snapshot| && |Edited(t, op, a, cs).ms| == |t.ms|
    ensures |Edited(t, op, b, ds).snapshot| == |t.snapshot| && |Edited(t, op, b, ds).ms| == |t.ms|
    ensures Edited(Edited(t, op, a, cs), op, b, ds) == Edited(Edited(t, op, b, ds), op, a, cs)
  {
    if cs != [] && ds != [] {
      SpansCommute(t, op, a, cs, b, ds);
    }
  }

  /** A row after another one, both of them taken over. */
  lemma {:induction false} SecondRow(t: Tracker, op: RowOp, base: nat, cs: seq<Cell>, ga: seq<nat>, u: Tracker,
                                     b: RowDelta, base': nat, ds: seq<Cell>, g: seq<nat>)
    requires t.WellFormed() && (cs != [] ==> base + |cs| <= t.cap) && |ga| == t.rows
    requires u == Edited(t, op, base, cs).(generations := ga) && u.WellFormed() && u.cap == t.cap && !Skips(u, op, b)
    requires base' == t.Base(b.row) && ds == b.cells[..t.SpanLen(b.row, |b.cells|)] && g == ga[b.row := b.generation]
    ensures ApplyRow(u, op, b) == Edited(Edited(t, op, base, cs), op, base', ds).(generations := g)
  {
    AppliedRow(u, op, b, base', ds, g);
    GenerationsApart(Edited(t, op, base, cs), op, base', ds, ga);
  }

  lemma {:induction false} BothRows(t: Tracker, op: RowOp, a: RowDelta, b: RowDelta, base: nat, base': nat, cs: seq<Cell>, ds: seq<Cell>)
    requires t.WellFormed() && a.row != b.row && !Skips(t, op, a) && !Skips(t, op, b)
    requires base == t.Base(a.row) && cs == a.cells[..t.SpanLen(a.row, |a.cells|)]
    requires base' == t.Base(b.row) && ds == b.cells[..t.SpanLen(b.row, |b.cells|)]
    ensures ApplyRow(ApplyRow(t, op, a), op, b) ==
            Edited(Edited(t, op, base, cs), op, base', ds).(generations := t.generations[a.row := a.generation][b.row := b.generation])
  {
    var ga := t.generations[a.row := a.generation];
    AppliedRow(t, op, a, base, cs, ga);
    SecondRow(t, op, base, cs, ga, ApplyRow(t, op, a), b, base', ds, ga[b.row := b.generation]);
  }

  /** Different rows can be taken over in either order. */
  lemma {:induction false} OrderedRowsCommute(t: Tracker, op: RowOp, a: RowDelta, b: RowDelta)
    requires t.WellFormed() && a.row < b.row
    ensures ApplyRow(ApplyRow(t, op, a), op, b) == ApplyRow(ApplyRow(t, op, b), op, a)
  {
    if !Skips(t, op, a) && !Skips(t, op, b) {
      var base, base' := t.Base(a.row), t.Base(b.row);
      var cs, ds := a.cells[..t.SpanLen(a.row, |a.cells|)], b.cells[..t.SpanLen(b.row, |b.cells|)];
      assert t.generations[a.row := a.generation][b.row := b.generation] == t.generations[b.row := b.generation][a.row := a.generation];
      RowsAreApart(t, a.row, b.row, |a.cells|);
      EditsCommute(t, op, base, cs, base', ds);
      BothRows(t, op, a, b, base, base', cs, ds);
      BothRows(t, op, b, a, base', base, ds, cs);
    }
  }

  lemma {:induction false} RowsCommute(t: Tracker, op: RowOp, a: RowDelta, b: RowDelta)
    requires t.WellFormed() && a.row != b.row
    ensures ApplyRow(ApplyRow(t, op, a), op, b) == ApplyRow(ApplyRow(t, op, b), op, a)
  {
    if a.row < b.row {
      OrderedRowsCommute(t, op, a, b);
    } else {
      OrderedRowsCommute(t, op, b, a);
    }
  }

  // ----- all rows of a frame -----

  function ApplyRows(t: Tracker, op: RowOp, rows: seq<RowDelta>): (r: Tracker)
    requires t.WellFormed()
    ensures r.WellFormed()
    decreases |rows|
  {
    if rows == [] then t else ApplyRows(ApplyRow(t, op, rows[0]), op, rows[1..])
  }

  /** A delta of another row than all those before it may come first. */
  lemma {:induction false} MoveToFront(t: Tracker, op: RowOp, before: seq<RowDelta>, rd: RowDelta, after: seq<RowDelta>)
    requires t.WellFormed() && forall x :: x in before ==> x.row != rd.row
    ensures ApplyRows(t, op, before + [rd] + after) == ApplyRows(ApplyRow(t, op, rd), op, before + after)
    decreases |before|
  {
    if before == [] {
      assert before + [rd] + after == [rd] + after && before + after == after;
    } else {
      var first, rest := before[0], before[1..];
      assert (before + [rd] + after)[1..] == rest + [rd] + after && (before + after)[1..] == rest + after;
      MoveToFront(ApplyRow(t, op, first), op, rest, rd, after);
      RowsCommute(t, op, first, rd);
    }
  }

  /** The same deltas in another order. */
  ghost predicate Reordered(a: seq<RowDelta>, b: seq<RowDelta>) {
    multiset(a) == multiset(b) && DistinctRows(a) && DistinctRows(b)
  }

  lemma {:induction false} RemovalKeepsMultiset(a: seq<RowDelta>, b: seq<RowDelta>, before: seq<RowDelta>, rd: RowDelta, after: seq<RowDelta>)
    requires multiset(a) == multiset(b) && a != [] && rd == a[0] && b == before + [rd] + after
    ensures multiset(a[1..]) == multiset(before + after)
  {
    assert a == [rd] + a[1..];
    assert multiset(a) == multiset{rd} + multiset(a[1..]);
    assert multiset(b) == multiset(before) + multiset{rd} + multiset(after);
    assert multiset(a[1..]) == multiset(a) - multiset{rd};
    assert multiset(before) + multiset(after) == multiset(b) - multiset{rd};
  }

  lemma {:induction false} RemovalKeepsDistinct(b: seq<RowDelta>, before: seq<RowDelta>, rd: RowDelta, after: seq<RowDelta>)
    requires DistinctRows(b) && b == before + [rd] + after
    ensures DistinctRows(before + after)
    ensures forall x :: x in before ==> x.row != rd.row
  {
    var n := |before|;
    forall i, j | 0 <= i < j < |before + after|
      ensures (before + after)[i].row != (before + after)[j].row
    {
      assert (before + after)[i] == b[if i < n then i else i + 1];
      assert (before + after)[j] == b[if j < n then j else j + 1];
    }
    assert b[n] == rd && forall j :: 0 <= j < n ==> before[j] == b[j];
  }

  lemma {:induction false} TailKeepsDistinct(a: seq<RowDelta>)
    requires DistinctRows(a) && a != []
    ensures DistinctRows(a[1..])
  {
    forall i, j | 0 <= i < j < |a[1..]|
      ensures a[1..][i].row != a[1..][j].row
    {
      assert a[1..][i] == a[i + 1] && a[1..][j] == a[j + 1];
    }
  }

  lemma {:induction false} OrderDoesNotMatter(t: Tracker, op: RowOp, a: seq<RowDelta>, b: seq<RowDelta>)
    requires t.WellFormed() && Reordered(a, b)
    ensures ApplyRows(t, op, a) == ApplyRows(t, op, b)
    decreases |a|
  {
    if a == [] {
      assert |multiset(b)| == 0;
    } else {
      assert a[0] in multiset(b);
      var i :| 0 <= i < |b| && b[i] == a[0];
      var before, rd, after := b[..i], a[0], b[i + 1..];
      assert b == before + [rd] + after;
      RemovalKeepsMultiset(a, b, before, rd, after);
      RemovalKeepsDistinct(b, before, rd, after);
      TailKeepsDistinct(a);
      MoveToFront(t, op, before, rd, after);
      OrderDoesNotMatter(ApplyRow(t, op, rd), op, a[1..], before + after);
    }
  }

  // ----- the frame step -----

  lemma {:induction false} BypassRowsAre(t: Tracker, rows: seq<RowDelta>, adopt: bool)
    requires t.WellFormed()
    ensures BypassRows(t, rows, adopt) == ApplyRows(t, if adopt then Adopt else Sync, rows)
    decreases |rows|
  {
    if rows != [] {
      ApplyRowIs(t, if adopt then Adopt else Sync, rows[0]);
      BypassRowsAre(BypassRow(t, rows[0], adopt), rows[1..], adopt);
    }
  }

  lemma {:induction false} IdleScheduleStays(t: Tracker, s: Burst, rd: RowDelta, now: real)
    requires t.WellFormed() && !s.Active()
    ensures UpdateRow(t, s, rd, now, UpdatePolicy(s)).1 == s
  {
  }

  lemma {:induction false} StreamRowsAre(t: Tracker, s: Burst, rows: seq<RowDelta>, region: Option<AnimationRegion>, now: real)
    requires t.WellFormed() && !s.Active()
    ensures StreamRows(t, s, rows, region, now) == (ApplyRows(t, Stream(s, region, now), rows), s)
    decreases |rows|
  {
    if rows != [] {
      ApplyRowIs(t, Stream(s, region, now), rows[0]);
      IdleScheduleStays(t, s, rows[0], now);
      StreamRowsAre(ApplyRow(t, Stream(s, region, now), rows[0]), s, rows[1..], region, now);
    }
  }

  lemma {:induction false} SameFindings(a: seq<RowDelta>, b: seq<RowDelta>, row: nat)
    requires Reordered(a, b)
    ensures FindRow(a, row) == FindRow(b, row)
  {
    FindRowIsMember(a, row);
    FindRowIsMember(b, row);
    assert forall rd :: rd in a <==> rd in multiset(a);
    assert forall rd :: rd in b <==> rd in multiset(b);
    if FindRow(a, row).Some? {
      FindRowFinds(b, FindRow(a, row).value);
    }
  }

  lemma {:induction false} SameVisits(t: Tracker, s: Burst, f: FrameDelta, g: FrameDelta, from: nat, rows: nat, now: real, reconcile: bool)
    requires t.WellFormed() && from <= rows && Reordered(f.rows, g.rows) && g == f.(rows := g.rows)
    ensures VisitRows(t, s, f, from, rows, now, reconcile) == VisitRows(t, s, g, from, rows, now, reconcile)
    decreases rows - from
  {
    if from < rows {
      SameFindings(f.rows, g.rows, from);
      var (t1, s1) := VisitRow(t, s, f, from, now, PolicyFor(s, reconcile));
      SameVisits(t1, s1, f, g, from + 1, rows, now, reconcile);
    }
  }

  lemma {:induction false} SameBypass(t: Tracker, a: seq<RowDelta>, b: seq<RowDelta>, adopt: bool)
    requires t.WellFormed() && Reordered(a, b)
    ensures BypassRows(t, a, adopt) == BypassRows(t, b, adopt)
  {
    BypassRowsAre(t, a, adopt);
    BypassRowsAre(t, b, adopt);
    OrderDoesNotMatter(t, if adopt then Adopt else Sync, a, b);
  }

  lemma {:induction false} SameRevealStep(m: Model, t: Tracker, s: Burst, f: FrameDelta, g: FrameDelta, now: real,
                                          scrolled: bool, repaint: bool)
    requires t.WellFormed() && s.stagger == Stagger(m.config)
    requires g == f.(rows := g.rows) && Reordered(f.rows, g.rows)
    ensures RevealStep(m, t, s, f, now, scrolled, repaint) == RevealStep(m, t, s, g, now, scrolled, repaint)
  {
    var begun := s.Begin(now, m.config.durationMs as real);
    if scrolled {
      SameFindings(f.rows, g.rows, BottomRow(f));
    } else if repaint || m.config.textAnimation == Typewriter {
      SameVisits(t, begun, f, g, 0, f.size.rows, now, repaint);
    } else if !begun.Active() {
      StreamRowsAre(t, begun, f.rows, f.animationRegion, now);
      StreamRowsAre(t, begun, g.rows, f.animationRegion, now);
      OrderDoesNotMatter(t, Stream(begun, f.animationRegion, now), f.rows, g.rows);
    }
  }

  lemma {:induction false} SameTextStep(m: Model, t: Tracker, f: FrameDelta, g: FrameDelta, now: real)
    requires t.WellFormed() && m.schedule.stagger == Stagger(m.config)
    requires g == f.(rows := g.rows) && Reordered(f.rows, g.rows)
    requires CanTranslate(m, t, f) == CanTranslate(m, t, g)
    ensures TextStep(m, t, f, now) == TextStep(m, t, g, now)
  {
    var scrolled := CanTranslate(m, t, f);
    var t1 := if scrolled then TranslateUpOne(t) else t;
    var repaint := f.damage.Full? && !scrolled;
    var s1 := if repaint then Burst.Fresh(Stagger(m.config)) else m.schedule;
    assert |f.rows| == |multiset(f.rows)| == |g.rows|;
    SameBypass(ClearChanges(t1), f.rows, g.rows, true);
    SameBypass(t1, f.rows, g.rows, false);
    SameRevealStep(m, t1, s1, f, g, now, scrolled, repaint);
  }

  /** A scroll stays accepted in another order exactly when the same row comes last. */
  lemma {:induction false} AcceptanceFollowsLastRow(t: Tracker, a: seq<RowDelta>, b: seq<RowDelta>)
    requires t.WellFormed() && Reordered(a, b) && CanTranslateUpOne(t, a) && a != []
    ensures |b| == |a| && (CanTranslateUpOne(t, b) <==> b[|b| - 1] == a[|a| - 1])
  {
    assert |a| == |multiset(a)| == |b|;
    var m := |a| - 1;
    var last := a[m];
    assert forall rd :: rd in b <==> rd in multiset(b);
    assert forall rd :: rd in a <==> rd in multiset(a);
    assert last in b;
    var k :| 0 <= k < |b| && b[k] == last;
    if k < m {
      if ShowsRowBelow(t, b[k]) {
        LastRowIsNotAbove(t, a);
        assert false;
      }
    } else {
      forall i | 0 <= i < m
        ensures ShowsRowBelow(t, b[i])
      {
        assert b[i] in a;
        var j :| 0 <= j < |a| && a[j] == b[i];
        assert j != m;
      }
    }
  }

  // ----- what a scroll and a repaint leave behind -----

  /** The generation that a repaint leaves in row r: the one delivered, except that a row in the
      animated region, or one that is not delivered, keeps its own. */
  function GenerationLeft(t: Tracker, f: FrameDelta, r: nat): nat
    requires t.WellFormed() && r < t.rows
  {
    var found := FindRow(f.rows, r);
    if found.None? || InRegion(r, f.animationRegion) then t.generations[r] else found.value.generation
  }

  lemma {:induction false} VisitGenerations(t: Tracker, s: Burst, f: FrameDelta, target: nat, now: real, policy: Policy, r: nat)
    requires t.WellFormed() && r < t.rows
    ensures var t' := VisitRow(t, s, f, target, now, policy).0;
            t'.rows == t.rows && t'.generations[r] == if r == target then GenerationLeft(t, f, r) else t.generations[r]
  {
    FindRowIsMember(f.rows, target);
  }

  lemma {:induction false} VisitsGenerations(t: Tracker, s: Burst, f: FrameDelta, from: nat, rows: nat, now: real, reconcile: bool, r: nat)
    requires t.WellFormed() && r < t.rows && from <= rows
    ensures var t' := VisitRows(t, s, f, from, rows, now, reconcile).0;
            && t'.rows == t.rows
            && t'.generations[r] == if from <= r < rows then GenerationLeft(t, f, r) else t.generations[r]
    decreases rows - from
  {
    if from < rows {
      var policy := PolicyFor(s, reconcile);
      var (t1, s1) := VisitRow(t, s, f, from, now, policy);
      VisitGenerations(t, s, f, from, now, policy, r);
      VisitsGenerations(t1, s1, f, from + 1, rows, now, reconcile, r);
    }
  }

  /** A scroll animates the bottom row of the shifted tracker. */
  lemma {:induction false} ScrolledTextStep(m: Model, t: Tracker, f: FrameDelta, now: real, begun: Burst)
    requires t.WellFormed() && CanTranslate(m, t, f) && begun == m.schedule.Begin(now, m.config.durationMs as real)
    ensures TextStep(m, t, f, now) == VisitRow(TranslateUpOne(t), begun, f, BottomRow(f), now, UpdatePolicy(begun))
  {
  }

  /** A repaint animates the grid with a fresh schedule. */
  lemma {:induction false} RepaintTextStep(m: Model, t: Tracker, f: FrameDelta, now: real, begun: Burst)
    requires t.WellFormed() && !CanTranslate(m, t, f)
    requires f.damage.Full? && !f.alternateScreen && f.size == m.size && m.lastHistory.Some?
    requires begun == Burst.Fresh(Stagger(m.config)).Begin(now, m.config.durationMs as real)
    ensures TextStep(m, t, f, now) == VisitRows(t, begun, f, 0, f.size.rows, now, true)
  {
  }

  /** After a scroll only the bottom row can have a generation. */
  lemma {:induction false} ScrollForgetsGenerations(m: Model, t: Tracker, f: FrameDelta, now: real, r: nat)
    requires t.WellFormed() && CanTranslate(m, t, f) && t.rows == f.size.rows && r + 1 < t.rows
    ensures var t' := TextStep(m, t, f, now).0;
            t'.rows == t.rows && t'.generations[r] == UNSEEN_GENERATION
  {
    var begun := m.schedule.Begin(now, m.config.durationMs as real);
    ScrolledTextStep(m, t, f, now, begun);
    VisitGenerations(TranslateUpOne(t), begun, f, BottomRow(f), now, UpdatePolicy(begun), r);
  }

  lemma {:induction false} RepaintLeavesGenerations(m: Model, t: Tracker, f: FrameDelta, now: real, r: nat)
    requires t.WellFormed() && !CanTranslate(m, t, f) && t.rows == f.size.rows && r < t.rows
    requires f.damage.Full? && !f.alternateScreen && f.size == m.size && m.lastHistory.Some?
    ensures var t' := TextStep(m, t, f, now).0;
            t'.rows == t.rows && t'.generations[r] == GenerationLeft(t, f, r)
  {
    var begun := Burst.Fresh(Stagger(m.config)).Begin(now, m.config.durationMs as real);
    RepaintTextStep(m, t, f, now, begun);
    VisitsGenerations(t, begun, f, 0, f.size.rows, now, true, r);
  }

  /** A row that the frame does not animate is left alone. */
  lemma {:induction false} UnanimatedStays(t: Tracker, s: Burst, f: FrameDelta, from: nat, rows: nat, now: real, reconcile: bool, q: nat)
    requires t.WellFormed() && from <= rows && Animated(t, f, q).None?
    ensures SameRow(t, VisitRows(t, s, f, from, rows, now, reconcile).0, q)
    decreases rows - from
  {
    if from < rows {
      var policy := PolicyFor(s, reconcile);
      var (t1, s1) := VisitRow(t, s, f, from, now, policy);
      VisitTakesSlots(t, s, f, from, now, policy, t1, s1);
      FindRowIsMember(f.rows, from);
      assert SameRow(t, t1, q);
      SameUnits(t, t1, f, policy, q);
      UnanimatedStays(t1, s1, f, from + 1, rows, now, reconcile, q);
      SameRowChain(t, t1, VisitRows(t1, s1, f, from + 1, rows, now, reconcile).0, q);
    }
  }

  /** A cell that a repaint would leave as it is, and a scroll would overwrite with something else. */
  ghost predicate CellShows(t: Tracker, f: FrameDelta, r: nat, col: nat)
    requires t.WellFormed()
  {
    && Tracks(t, r, col) && Tracks(t, r + 1, col) && Animated(t, f, r).None?
    && (KeyAt(t, r, col) != KeyAt(t, r + 1, col) || TimeAt(t, r, col) != TimeAt(t, r + 1, col))
  }

  /** A scroll leaves the rows above the bottom as the shift makes them. */
  lemma {:induction false} ScrollKeepsShift(m: Model, t: Tracker, f: FrameDelta, now: real, r: nat, t1: Tracker, t': Tracker)
    requires t.WellFormed() && CanTranslate(m, t, f) && t.rows == f.size.rows && r + 1 < t.rows
    requires t1 == TranslateUpOne(t) && t' == TextStep(m, t, f, now).0
    ensures SameRow(t1, t', r)
  {
    var begun, bottom := m.schedule.Begin(now, m.config.durationMs as real), f.size.rows - 1;
    var (t2, s2) := VisitRow(t1, begun, f, bottom, now, UpdatePolicy(begun));
    VisitTakesSlots(t1, begun, f, bottom, now, UpdatePolicy(begun), t2, s2);
    assert t' == t2;
  }

  lemma {:induction false} ScrolledCell(m: Model, t: Tracker, f: FrameDelta, now: real, r: nat, col: nat, t': Tracker)
    requires t.WellFormed() && CanTranslate(m, t, f) && t.rows == f.size.rows
    requires Tracks(t, r, col) && Tracks(t, r + 1, col) && t' == TextStep(m, t, f, now).0
    ensures Tracks(t', r, col) && KeyAt(t', r, col) == KeyAt(t, r + 1, col) && TimeAt(t', r, col) == TimeAt(t, r + 1, col)
  {
    var t1 := TranslateUpOne(t);
    ScrollKeepsShift(m, t, f, now, r, t1, t');
    ShiftMovesCells(t, r, col);
    SameCell(t1, t', r, col);
  }

  lemma {:induction false} SameCell(a: Tracker, b: Tracker, r: nat, col: nat)
    requires SameRow(a, b, r) && Tracks(a, r, col)
    ensures Tracks(b, r, col) && KeyAt(a, r, col) == KeyAt(b, r, col) && TimeAt(a, r, col) == TimeAt(b, r, col)
  {
  }

  lemma {:induction false} RepaintedCell(m: Model, t: Tracker, f: FrameDelta, now: real, r: nat, col: nat, t': Tracker)
    requires t.WellFormed() && !CanTranslate(m, t, f) && t.rows == f.size.rows
    requires f.damage.Full? && !f.alternateScreen && f.size == m.size && m.lastHistory.Some?
    requires Tracks(t, r, col) && Animated(t, f, r).None? && t' == TextStep(m, t, f, now).0
    ensures Tracks(t', r, col) && KeyAt(t', r, col) == KeyAt(t, r, col) && TimeAt(t', r, col) == TimeAt(t, r, col)
  {
    var begun := Burst.Fresh(Stagger(m.config)).Begin(now, m.config.durationMs as real);
    UnanimatedStays(t, begun, f, 0, f.size.rows, now, true, r);
  }

  /** A repaint would show above the bottom row: by a generation, where a scroll leaves none, or by
      a cell that it leaves as it is. */
  ghost predicate RepaintShows(t: Tracker, f: FrameDelta)
    requires t.WellFormed()
  {
    || (exists r :: 0 <= r < t.rows - 1 && GenerationLeft(t, f, r) != UNSEEN_GENERATION)
    || (exists r: nat, col: nat :: CellShows(t, f, r, col))
  }

  lemma {:induction false} ScrollIsNoRepaint(m: Model, t: Tracker, f: FrameDelta, g: FrameDelta, now: real)
    requires t.WellFormed() && t.rows == m.size.rows && RepaintShows(t, f)
    requires g == f.(rows := g.rows) && Reordered(f.rows, g.rows)
    requires CanTranslate(m, t, f) && !CanTranslate(m, t, g)
    ensures TextStep(m, t, f, now).0 != TextStep(m, t, g, now).0
  {
    if r :| 0 <= r < t.rows - 1 && GenerationLeft(t, f, r) != UNSEEN_GENERATION {
      SameFindings(f.rows, g.rows, r);
      ScrollForgetsGenerations(m, t, f, now, r);
      RepaintLeavesGenerations(m, t, g, now, r);
    } else {
      var r: nat, col: nat :| CellShows(t, f, r, col);
      SameFindings(f.rows, g.rows, r);
      ScrolledCell(m, t, f, now, r, col, TextStep(m, t, f, now).0);
      RepaintedCell(m, t, g, now, r, col, TextStep(m, t, g, now).0);
    }
  }

  lemma {:induction false} SameRepaint(t: Tracker, f: FrameDelta, g: FrameDelta)
    requires t.WellFormed() && g == f.(rows := g.rows) && Reordered(f.rows, g.rows) && RepaintShows(t, f)
    ensures RepaintShows(t, g)
  {
    forall r: nat
      ensures r < t.rows ==> GenerationLeft(t, f, r) == GenerationLeft(t, g, r)
      ensures Animated(t, f, r) == Animated(t, g, r)
    {
      SameFindings(f.rows, g.rows, r);
    }
    if !exists r :: 0 <= r < t.rows - 1 && GenerationLeft(t, f, r) != UNSEEN_GENERATION {
      var r: nat, col: nat :| CellShows(t, f, r, col);
      assert CellShows(t, g, r, col);
    }
  }

  /** Both frames count as a scroll, or neither does. */
  predicate ScrollAlike(m: Model, f: FrameDelta, g: FrameDelta)
    requires m.WellFormed()
  {
    m.tracker.Some? ==> (CanTranslate(m, m.tracker.value, f) <==> CanTranslate(m, m.tracker.value, g))
  }

  /** Two frames that differ only in the order of their (distinct) rows have the same effect
      and the same output if both count as a scroll or neither does, so always unless the frame
      is a Full one of unchanged size on the main screen. And where a repaint would show above
      the bottom row they have the same effect only then. */
  lemma {:induction false} FrameOrderDoesNotMatter(m: Model, f: FrameDelta, g: FrameDelta, nowMs: nat, trailActive: bool)
    requires m.WellFormed() && m.schedule.stagger == Stagger(m.config)
    requires g == f.(rows := g.rows) && Reordered(f.rows, g.rows)
    ensures ScrollAlike(m, f, g) ==> ApplyFrame(m, f, nowMs, trailActive) == ApplyFrame(m, g, nowMs, trailActive)
    ensures m.tracker.Some? && m.tracker.value.rows == m.size.rows && RepaintShows(m.tracker.value, f) ==>
              (ApplyFrame(m, f, nowMs, trailActive) == ApplyFrame(m, g, nowMs, trailActive) <==> ScrollAlike(m, f, g))
  {
    var now := Max(m.lastNow, nowMs as real);
    assert |f.rows| == |multiset(f.rows)| == |g.rows|;
    if m.tracker.Some? {
      var t := m.tracker.value;
      if ScrollAlike(m, f, g) {
        SameTextStep(m, if f.size == m.size then t else Resize(t, f.size.cols, f.size.rows, now), f, g, now);
      } else if t.rows == m.size.rows && RepaintShows(t, f) {
        SameRepaint(t, f, g);
        if CanTranslate(m, t, f) {
          ScrollIsNoRepaint(m, t, f, g, now);
        } else {
          assert f == g.(rows := f.rows);
          ScrollIsNoRepaint(m, t, g, f, now);
        }
      }
    }
  }
}
