/** Paint-ready batches for one grid row: text runs and background rectangles. */
module RowFilling {
  import opened Basics
  import opened Terminal

  /** The attribute flags that change how a cell looks. Width and spacer bits are not among them. */
  const PRESENTATION_FLAGS: bv16 := 0x7b8f

  datatype RunBatch = RunBatch(
    col: nat, len: nat, style: bv16, flags: bv16,
    text: seq<bv32>, glyphWidths: seq<nat>, clusterStarts: seq<nat>)

  datatype RectBatch = RectBatch(col: nat, len: nat, style: bv16, flags: bv16)

  datatype RowBatch = RowBatch(row: nat, runs: seq<RunBatch>, backgrounds: seq<RectBatch>)

  function Presentation(c: Cell): bv16 {
    c.flags & PRESENTATION_FLAGS
  }

  predicate LooksLike(c: Cell, style: bv16, flags: bv16) {
    c.style == style && Presentation(c) == flags
  }

  /** The first cell from i on that looks different, or the end of the row. */
  function SegmentEnd(cells: seq<Cell>, style: bv16, flags: bv16, i: nat): (end: nat)
    requires i <= |cells|
    ensures i <= end <= |cells|
    ensures forall x :: i <= x < end ==> LooksLike(cells[x], style, flags)
    ensures end < |cells| ==> !LooksLike(cells[end], style, flags)
    decreases |cells| - i
  {
    if i == |cells| || !LooksLike(cells[i], style, flags) then i else SegmentEnd(cells, style, flags, i + 1)
  }

  /** Where the segment that begins at `start` ends. */
  function EndOf(cells: seq<Cell>, start: nat): (end: nat)
    requires start < |cells|
    ensures start < end <= |cells|
    ensures forall x :: start <= x < end ==> LooksLike(cells[x], cells[start].style, Presentation(cells[start]))
    ensures end < |cells| ==> !LooksLike(cells[end], cells[start].style, Presentation(cells[start]))
  {
    SegmentEnd(cells, cells[start].style, Presentation(cells[start]), start + 1)
  }

  function Rect(cells: seq<Cell>, start: nat, end: nat): RectBatch
    requires start < end <= |cells|
  {
    RectBatch(start % U16_SIZE, (end - start) % U16_SIZE, cells[start].style, Presentation(cells[start]))
  }

  function Backgrounds(cells: seq<Cell>, start: nat): seq<RectBatch>
    requires start <= |cells|
    decreases |cells| - start
  {
    if start == |cells| then []
    else [Rect(cells, start, EndOf(cells, start))] + Backgrounds(cells, EndOf(cells, start))
  }

  // ----- text -----

  /** The length of a scalar's UTF-8 encoding. */
  function Utf8Len(ch: bv32): nat {
    if ch < 0x80 then 1 else if ch < 0x800 then 2 else if ch < 0x1_0000 then 3 else 4
  }

  function ByteLen(text: seq<bv32>): (n: nat)
    ensures n >= |text|
  {
    if text == [] then 0 else ByteLen(text[..|text| - 1]) + Utf8Len(text[|text| - 1])
  }

  /** The extra scalars attached to a column. */
  function ExtrasAt(combining: seq<(nat, seq<bv32>)>, col: nat): seq<bv32> {
    if combining == [] then []
    else if combining[0].0 == col then combining[0].1
    else ExtrasAt(combining[1..], col)
  }

  function Scalars(s: seq<bv32>): seq<bv32> {
    if s == [] then []
    else Scalars(s[..|s| - 1]) + if IsScalar(s[|s| - 1]) then [s[|s| - 1]] else []
  }

  /** The text of the cluster that a cell produces: its scalar, or a blank for a NUL, and the marks on it. */
  function ClusterText(rd: RowDelta, x: nat): (r: seq<bv32>)
    requires x < |rd.cells|
    ensures r != []
  {
    [if rd.cells[x].content == 0 then 0x20 else rd.cells[x].content] + Scalars(ExtrasAt(rd.combining, x % U16_SIZE))
  }

  /** A cell that is not a spacer and holds a character begins a cluster. */
  predicate BeginsCluster(c: Cell) {
    !IsSpacer(c) && IsScalar(c.content)
  }

  datatype Clusters = Clusters(text: seq<bv32>, widths: seq<nat>, starts: seq<nat>)

  function ClustersTo(rd: RowDelta, first: nat, end: nat): Clusters
    requires first <= end <= |rd.cells|
  {
    if end == first then Clusters([], [], [])
    else
      var c, cell := ClustersTo(rd, first, end - 1), rd.cells[end - 1];
      if !BeginsCluster(cell) then c
      else Clusters(c.text + ClusterText(rd, end - 1),
                    c.widths + [if IsWide(cell) then 2 else 1],
                    c.starts + [ByteLen(c.text) % U32_SIZE])
  }

  /** The first drawable cell of [lo, hi), or hi. */
  function FirstPainted(cells: seq<Cell>, lo: nat, hi: nat): (first: nat)
    requires lo <= hi <= |cells|
    ensures lo <= first <= hi
    ensures forall x :: lo <= x < first ==> !PaintsGlyph(cells[x])
    ensures first < hi ==> PaintsGlyph(cells[first])
    decreases hi - lo
  {
    if lo == hi || PaintsGlyph(cells[lo]) then lo else FirstPainted(cells, lo + 1, hi)
  }

  /** One past the last drawable cell of [lo, hi), or lo. */
  function PaintedEnd(cells: seq<Cell>, lo: nat, hi: nat): (end: nat)
    requires lo <= hi <= |cells|
    ensures lo <= end <= hi
    ensures forall x :: end <= x < hi ==> !PaintsGlyph(cells[x])
    ensures lo < end ==> PaintsGlyph(cells[end - 1])
  {
    if lo == hi || PaintsGlyph(cells[hi - 1]) then hi else PaintedEnd(cells, lo, hi - 1)
  }

  /** The run over the cells [first, end). */
  function RunFor(rd: RowDelta, first: nat, end: nat): RunBatch
    requires first < end <= |rd.cells|
  {
    var c := ClustersTo(rd, first, end);
    RunBatch(first % U16_SIZE, (end - first) % U16_SIZE, rd.cells[first].style, Presentation(rd.cells[first]),
             c.text, c.widths, c.starts)
  }

  /** The run of the segment [start, end), if anything in it is drawable. */
  function SegmentRuns(rd: RowDelta, start: nat, end: nat): seq<RunBatch>
    requires start < end <= |rd.cells|
  {
    var first, last := FirstPainted(rd.cells, start, end), PaintedEnd(rd.cells, start, end);
    if first == end then [] else [RunFor(rd, first, last)]
  }

  function Runs(rd: RowDelta, start: nat): seq<RunBatch>
    requires start <= |rd.cells|
    decreases |rd.cells| - start
  {
    if start == |rd.cells| then []
    else SegmentRuns(rd, start, EndOf(rd.cells, start)) + Runs(rd, EndOf(rd.cells, start))
  }

  function FilledRow(rd: RowDelta): RowBatch {
    RowBatch(rd.row, Runs(rd, 0), Backgrounds(rd.cells, 0))
  }

  // ----- the loops -----

  /** Scan to the end of the segment that begins at `start`. */
  method ScanSegment(cells: seq<Cell>, start: nat) returns (end: nat)
    requires start < |cells|
    ensures end == EndOf(cells, start)
  {
    var style, flags := cells[start].style, Presentation(cells[start]);
    end := start + 1;
    while end < |cells| && cells[end].style == style && Presentation(cells[end]) == flags
      invariant start < end <= |cells|
      invariant SegmentEnd(cells, style, flags, end) == EndOf(cells, start)
    {
      end := end + 1;
    }
  }

  /** Refill the background rectangles of a row. */
  method FillBackgrounds(cells: seq<Cell>) returns (backgrounds: seq<RectBatch>)
    ensures backgrounds == Backgrounds(cells, 0)
  {
    backgrounds := [];
    var start := 0;
    while start < |cells|
      invariant start <= |cells|
      invariant backgrounds + Backgrounds(cells, start) == Backgrounds(cells, 0)
    {
      var end := ScanSegment(cells, start);
      var rects := [Rect(cells, start, end)];
      Associative(backgrounds, rects, Backgrounds(cells, end));
      backgrounds := backgrounds + rects;
      start := end;
    }
  }

  /** Push the marks of a column that are characters. */
  method PushMarks(text: seq<bv32>, extras: seq<bv32>) returns (r: seq<bv32>)
    ensures r == text + Scalars(extras)
  {
    r := text;
    for i := 0 to |extras|
      invariant r == text + Scalars(extras[..i])
    {
      assert extras[..i + 1][..i] == extras[..i];
      if IsScalar(extras[i]) {
        r := r + [extras[i]];
      }
    }
    assert extras[..|extras|] == extras;
  }

  /** The text, glyph widths and cluster starts of the cells [first, end). */
  method BuildClusters(rd: RowDelta, first: nat, end: nat)
    returns (text: seq<bv32>, glyphWidths: seq<nat>, clusterStarts: seq<nat>)
    requires first < end <= |rd.cells|
    ensures Clusters(text, glyphWidths, clusterStarts) == ClustersTo(rd, first, end)
  {
    text, glyphWidths, clusterStarts := [], [], [];
    for x := first to end
      invariant Clusters(text, glyphWidths, clusterStarts) == ClustersTo(rd, first, x)
    {
      var cell := rd.cells[x];
      if IsSpacer(cell) {
        continue;
      }
      if IsScalar(cell.content) {
        ghost var before := text;
        clusterStarts := clusterStarts + [ByteLen(text) % U32_SIZE];
        text := text + [if cell.content == 0 then 0x20 else cell.content];
        text := PushMarks(text, ExtrasAt(rd.combining, x % U16_SIZE));
        assert text == before + ClusterText(rd, x);
        glyphWidths := glyphWidths + [if IsWide(cell) then 2 else 1];
      }
    }
  }

  /** The run of one segment: from its first drawable cell to its last. */
  method FillSegment(rd: RowDelta, start: nat, end: nat) returns (runs: seq<RunBatch>)
    requires start < end <= |rd.cells|
    requires forall x :: start <= x < end ==> LooksLike(rd.cells[x], rd.cells[start].style, Presentation(rd.cells[start]))
    ensures runs == SegmentRuns(rd, start, end)
  {
    var first := FirstPainted(rd.cells, start, end);
    if first == end {
      return [];
    }
    var last := PaintedEnd(rd.cells, start, end);
    assert first < last;
    var text, glyphWidths, clusterStarts := BuildClusters(rd, first, last);
    return [RunBatch(first % U16_SIZE, (last - first) % U16_SIZE, rd.cells[start].style, Presentation(rd.cells[start]),
                     text, glyphWidths, clusterStarts)];
  }

  method FillRuns(rd: RowDelta) returns (runs: seq<RunBatch>)
    ensures runs == Runs(rd, 0)
  {
    runs := [];
    var start := 0;
    while start < |rd.cells|
      invariant start <= |rd.cells|
      invariant runs + Runs(rd, start) == Runs(rd, 0)
    {
      var end := ScanSegment(rd.cells, start);
      var pushed := FillSegment(rd, start, end);
      Associative(runs, pushed, Runs(rd, end));
      runs := runs + pushed;
      start := end;
    }
  }

  /** Refill one row batch from a row delta, behind whatever it still holds. */
  method FillBatch(batch: RowBatch, rd: RowDelta) returns (r: RowBatch)
    ensures r == RowBatch(batch.row, batch.runs + Runs(rd, 0), batch.backgrounds + Backgrounds(rd.cells, 0))
  {
    var backgrounds := FillBackgrounds(rd.cells);
    var runs := FillRuns(rd);
    r := batch.(runs := batch.runs + runs, backgrounds := batch.backgrounds + backgrounds);
  }

  // ----- glyph lookup -----

  /** How many cluster starts from the front lie at or before a byte. */
  function StartsUpTo(starts: seq<nat>, byte: nat): (n: nat)
    ensures n <= |starts|
    ensures forall k :: 0 <= k < n ==> starts[k] <= byte
    ensures n < |starts| ==> starts[n] > byte
    decreases |starts|
  {
    if starts == [] || starts[0] > byte then 0
    else
      assert forall k :: 0 <= k < |starts[1..]| ==> starts[1..][k] == starts[k + 1];
      1 + StartsUpTo(starts[1..], byte)
  }

  function SaturatingAdd(a: nat, b: nat): nat {
    if a + b < U16_SIZE then a + b else U16_SIZE - 1
  }

  /** The column after the first k clusters; a missing width counts as one. */
  function ColumnAfter(run: RunBatch, k: nat): nat {
    if k == 0 then run.col
    else SaturatingAdd(ColumnAfter(run, k - 1), if k - 1 < |run.glyphWidths| then run.glyphWidths[k - 1] else 1)
  }

  /** The column where the cluster holding `byte` begins. */
  function GlyphColumn(run: RunBatch, byte: nat): nat {
    var n := StartsUpTo(run.clusterStarts, byte);
    if n == 0 then run.col else ColumnAfter(run, n - 1)
  }

  lemma {:induction false} StartsUpToIs(starts: seq<nat>, byte: nat, n: nat)
    requires n <= |starts| && (forall k :: 0 <= k < n ==> starts[k] <= byte) && (n < |starts| ==> starts[n] > byte)
    ensures StartsUpTo(starts, byte) == n
  {
  }

  method CellColForGlyphByte(run: RunBatch, byte: nat) returns (matched: nat)
    ensures matched == GlyphColumn(run, byte)
  {
    var col := run.col;
    matched := run.col;
    var i := 0;
    while i < |run.clusterStarts|
      invariant i <= |run.clusterStarts| && col == ColumnAfter(run, i)
      invariant forall k :: 0 <= k < i ==> run.clusterStarts[k] <= byte
      invariant matched == if i == 0 then run.col else ColumnAfter(run, i - 1)
    {
      if run.clusterStarts[i] > byte {
        break;
      }
      matched := col;
      col := SaturatingAdd(col, if i < |run.glyphWidths| then run.glyphWidths[i] else 1);
      i := i + 1;
    }
    StartsUpToIs(run.clusterStarts, byte, i);
  }
}
