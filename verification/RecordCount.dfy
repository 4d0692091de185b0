/** Counting payload records in a retained row: the greedy scan is optimal. */
module RecordCounting {
  import opened Terminal

  function Contents(row: seq<Cell>): (s: seq<bv32>)
    ensures |s| == |row|
  {
    seq(|row|, i requires 0 <= i < |row| => row[i].content)
  }

  ghost predicate Occurs(row: seq<bv32>, record: seq<bv32>, at: nat) {
    at + |record| <= |row| && row[at..at + |record|] == record
  }

  /** A set of places at or after `start` where the record occurs, no two of them overlapping. */
  ghost predicate Packing(row: seq<bv32>, record: seq<bv32>, start: nat, places: set<nat>) {
    && (forall a :: a in places ==> start <= a && Occurs(row, record, a))
    && (forall a, b :: a in places && b in places && a < b ==> a + |record| <= b)
  }

  /** `count` places can be packed from `start` on, and no more than that. */
  ghost predicate IsMostPacked(row: seq<bv32>, record: seq<bv32>, start: nat, count: nat) {
    && (exists places :: Packing(row, record, start, places) && |places| == count)
    && (forall places :: Packing(row, record, start, places) ==> |places| <= count)
  }

  lemma {:induction false} AtMostOne(places: set<nat>)
    requires forall a, b :: a in places && b in places ==> a == b
    ensures |places| <= 1
  {
    if places != {} {
      var a :| a in places;
      assert places == {a};
    }
  }

  lemma {:induction false} NoneLeft(row: seq<bv32>, record: seq<bv32>, start: nat)
    requires start + |record| > |row|
    ensures IsMostPacked(row, record, start, 0)
  {
    assert Packing(row, record, start, {});
    forall places | Packing(row, record, start, places) ensures |places| <= 0 {
      assert forall a :: a in places ==> !Occurs(row, record, a);
    }
  }

  lemma {:induction false} SkipPlace(row: seq<bv32>, record: seq<bv32>, start: nat, count: nat)
    requires !Occurs(row, record, start) && IsMostPacked(row, record, start + 1, count)
    ensures IsMostPacked(row, record, start, count)
  {
    var most :| Packing(row, record, start + 1, most) && |most| == count;
    assert Packing(row, record, start, most);
    forall places | Packing(row, record, start, places) ensures |places| <= count {
      assert Packing(row, record, start + 1, places);
    }
  }

  lemma {:induction false} AddPlace(row: seq<bv32>, record: seq<bv32>, start: nat, next: nat, places: set<nat>)
    requires record != [] && next == start + |record| && Occurs(row, record, start)
    requires Packing(row, record, next, places)
    ensures Packing(row, record, start, places + {start})
    ensures |places + {start}| == |places| + 1
  {
  }

  /** Any packing loses at most one place when it starts one record later. */
  lemma {:induction false} LosesOne(row: seq<bv32>, record: seq<bv32>, start: nat, next: nat, places: set<nat>,
                                    later: set<nat>)
    requires next == start + |record| && Packing(row, record, start, places)
    requires later == set a | a in places && next <= a
    ensures Packing(row, record, next, later) && |places| <= |later| + 1
  {
    var early := places - later;
    assert forall a, b :: a in early && b in early ==> a == b;
    AtMostOne(early);
    assert places == later + early;
  }

  /** Taking the first place never costs one later: at most one place overlaps it. */
  lemma {:induction false} TakePlace(row: seq<bv32>, record: seq<bv32>, start: nat, next: nat, count: nat)
    requires record != [] && next == start + |record|
    requires Occurs(row, record, start) && IsMostPacked(row, record, next, count)
    ensures IsMostPacked(row, record, start, count + 1)
  {
    var most :| Packing(row, record, next, most) && |most| == count;
    AddPlace(row, record, start, next, most);
    forall places | Packing(row, record, start, places) ensures |places| <= count + 1 {
      var later := set a | a in places && next <= a;
      LosesOne(row, record, start, next, places, later);
    }
  }

  // ----- the scan -----

  /** What the record scores from `start` on, plus `count`, is what it scores in the whole row. */
  ghost predicate CountedTo(row: seq<bv32>, record: seq<bv32>, start: nat, count: nat) {
    forall rest: nat, all: nat :: IsMostPacked(row, record, start, rest) && all == count + rest
      ==> IsMostPacked(row, record, 0, all)
  }

  lemma {:induction false} CountSkips(row: seq<bv32>, record: seq<bv32>, start: nat, next: nat, count: nat)
    requires !Occurs(row, record, start) && next == start + 1 && CountedTo(row, record, start, count)
    ensures CountedTo(row, record, next, count)
  {
    forall rest: nat, all: nat | IsMostPacked(row, record, next, rest) && all == count + rest
      ensures IsMostPacked(row, record, 0, all)
    {
      SkipPlace(row, record, start, rest);
    }
  }

  lemma {:induction false} CountTakes(row: seq<bv32>, record: seq<bv32>, start: nat, next: nat, count: nat)
    requires record != [] && Occurs(row, record, start) && next == start + |record|
    requires CountedTo(row, record, start, count)
    ensures CountedTo(row, record, next, count + 1)
  {
    forall rest: nat, all: nat | IsMostPacked(row, record, next, rest) && all == count + 1 + rest
      ensures IsMostPacked(row, record, 0, all)
    {
      TakePlace(row, record, start, next, rest);
    }
  }

  /** Cell-by-cell comparison with the record. */
  predicate Matches(cells: seq<Cell>, record: seq<bv32>) {
    |cells| == |record| && forall i :: 0 <= i < |cells| ==> cells[i].content == record[i]
  }

  lemma {:induction false} MatchIsOccurrence(row: seq<Cell>, record: seq<bv32>, start: nat, next: nat)
    requires next == start + |record| <= |row|
    ensures Matches(row[start..next], record) <==> Occurs(Contents(row), record, start)
  {
    var s := Contents(row)[start..next];
    assert forall i :: 0 <= i < |s| ==> s[i] == row[start..next][i].content;
  }

  /** The scan: over every row and record it finds the largest number of disjoint records. */
  method RowRecordCount(row: seq<Cell>, record: seq<bv32>) returns (count: nat)
    ensures record == [] ==> count == 0
    ensures record != [] ==> IsMostPacked(Contents(row), record, 0, count)
  {
    if record == [] || |record| > |row| {
      if record != [] {
        NoneLeft(Contents(row), record, 0);
      }
      return 0;
    }
    count := 0;
    var start: nat := 0;
    while start + |record| <= |row|
      invariant CountedTo(Contents(row), record, start, count)
      decreases |row| - start
    {
      var next := start + |record|;
      MatchIsOccurrence(row, record, start, next);
      if Matches(row[start..next], record) {
        CountTakes(Contents(row), record, start, next, count);
        count := count + 1;
        start := next;
      } else {
        CountSkips(Contents(row), record, start, start + 1, count);
        start := start + 1;
      }
    }
    NoneLeft(Contents(row), record, start);
  }
}
