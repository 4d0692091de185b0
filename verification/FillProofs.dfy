/** The batches tile a row and hold each drawable cell once; a glyph leads back to its cell. */
module FillProofs {
  import opened Basics
  import opened Terminal
  import opened RowFilling
  import opened Utf8

  // ----- backgrounds -----

  /** The rectangles cover the cells from `start` on without gap or overlap, each in one look,
      and neighbours look different. */
  ghost predicate Tile(cells: seq<Cell>, bs: seq<RectBatch>, start: nat) {
    if bs == [] then start == |cells|
    else
      var end := start + bs[0].len;
      && bs[0].col == start && start < end <= |cells|
      && (forall x :: start <= x < end ==> LooksLike(cells[x], bs[0].style, bs[0].flags))
      && (|bs| > 1 ==> bs[1].style != bs[0].style || bs[1].flags != bs[0].flags)
      && Tile(cells, bs[1..], end)
  }

  lemma {:induction false} BackgroundsTile(cells: seq<Cell>, start: nat)
    requires start <= |cells| < U16_SIZE
    ensures Tile(cells, Backgrounds(cells, start), start)
    decreases |cells| - start
  {
    if start < |cells| {
      var end := EndOf(cells, start);
      BackgroundsTile(cells, end);
      assert Backgrounds(cells, start)[1..] == Backgrounds(cells, end);
    }
  }

  /** Every column lies in exactly one rectangle of a tiling. */
  lemma {:induction false} OneRectPerColumn(cells: seq<Cell>, bs: seq<RectBatch>, start: nat, x: nat) returns (i: nat)
    requires Tile(cells, bs, start) && start <= x < |cells|
    ensures i < |bs| && bs[i].col <= x < bs[i].col + bs[i].len
    ensures forall j :: 0 <= j < |bs| && bs[j].col <= x < bs[j].col + bs[j].len ==> j == i
    decreases |bs|
  {
    var end := start + bs[0].len;
    TileFollows(cells, bs[1..], end);
    assert forall j :: 0 < j < |bs| ==> bs[j] == bs[1..][j - 1];
    if x < end {
      i := 0;
    } else {
      var k := OneRectPerColumn(cells, bs[1..], end, x);
      i := k + 1;
    }
  }

  lemma {:induction false} TileFollows(cells: seq<Cell>, bs: seq<RectBatch>, start: nat)
    requires Tile(cells, bs, start)
    ensures forall j :: 0 <= j < |bs| ==> bs[j].col >= start
    decreases |bs|
  {
    if bs != [] {
      TileFollows(cells, bs[1..], start + bs[0].len);
      assert forall j :: 0 < j < |bs| ==> bs[j] == bs[1..][j - 1];
    }
  }

  /** Cells look alike when they have one style and their flags agree up to the bits for wide cells, the
      two kinds of spacers and the wrapping of the line, and the top bit. */
  lemma {:induction false} LooksAlikeWhen(a: Cell, b: Cell)
    ensures LooksLike(a, b.style, Presentation(b)) <==> a.style == b.style && a.flags | 0x8470 == b.flags | 0x8470
  {
  }

  // ----- runs -----

  /** The run covers the cells [first, end): one look, drawable at both ends. */
  ghost predicate RunOf(rd: RowDelta, run: RunBatch, first: nat, end: nat) {
    && first < end <= |rd.cells|
    && run == RunFor(rd, first, end)
    && PaintsGlyph(rd.cells[first]) && PaintsGlyph(rd.cells[end - 1])
    && forall x :: first <= x < end ==> LooksLike(rd.cells[x], run.style, run.flags)
  }

  ghost predicate NothingDrawn(cells: seq<Cell>, lo: nat, hi: nat) {
    forall x :: lo <= x < hi && x < |cells| ==> !PaintsGlyph(cells[x])
  }

  /** Runs in ascending order, with nothing drawable before, between and after them. */
  ghost predicate RunsFrom(rd: RowDelta, rs: seq<RunBatch>, start: nat) {
    if rs == [] then NothingDrawn(rd.cells, start, |rd.cells|)
    else
      var end := rs[0].col + rs[0].len;
      && start <= rs[0].col
      && NothingDrawn(rd.cells, start, rs[0].col)
      && RunOf(rd, rs[0], rs[0].col, end)
      && RunsFrom(rd, rs[1..], end)
  }

  lemma {:induction false} RunsFromEarlier(rd: RowDelta, rs: seq<RunBatch>, start: nat, later: nat)
    requires start <= later && NothingDrawn(rd.cells, start, later) && RunsFrom(rd, rs, later)
    ensures RunsFrom(rd, rs, start)
  {
  }

  lemma {:induction false} NoWrap16(n: nat)
    requires n < U16_SIZE
    ensures n % U16_SIZE == n
  {
  }

  lemma {:induction false} EmptySegment(rd: RowDelta, start: nat, end: nat)
    requires start < end <= |rd.cells| && FirstPainted(rd.cells, start, end) == end
    ensures NothingDrawn(rd.cells, start, end) && SegmentRuns(rd, start, end) == []
  {
  }

  lemma {:induction false} PaintedSegment(rd: RowDelta, start: nat, end: nat, first: nat, last: nat, run: RunBatch)
    requires start < |rd.cells| < U16_SIZE && end == EndOf(rd.cells, start)
    requires first == FirstPainted(rd.cells, start, end) < end && last == PaintedEnd(rd.cells, start, end)
    requires first < last ==> run == RunFor(rd, first, last)
    ensures first < last <= end && NothingDrawn(rd.cells, start, first) && NothingDrawn(rd.cells, last, end)
    ensures RunOf(rd, run, first, last) && run.col == first && first + run.len == last
    ensures SegmentRuns(rd, start, end) == [run]
  {
    NoWrap16(first);
    assert first < last;
    NoWrap16(last - first);
  }

  lemma {:induction false} PrependRun(rd: RowDelta, run: RunBatch, rest: seq<RunBatch>, start: nat, first: nat, end: nat)
    requires RunOf(rd, run, first, end) && run.col == first && first + run.len == end
    requires start <= first && NothingDrawn(rd.cells, start, first) && RunsFrom(rd, rest, end)
    ensures RunsFrom(rd, [run] + rest, start)
  {
    assert ([run] + rest)[1..] == rest;
  }

  lemma {:induction false} RunsHoldDrawables(rd: RowDelta, start: nat)
    requires start <= |rd.cells| < U16_SIZE
    ensures RunsFrom(rd, Runs(rd, start), start)
    decreases |rd.cells| - start
  {
    if start < |rd.cells| {
      var end := EndOf(rd.cells, start);
      var first, last := FirstPainted(rd.cells, start, end), PaintedEnd(rd.cells, start, end);
      var rest := Runs(rd, end);
      RunsHoldDrawables(rd, end);
      if first == end {
        EmptySegment(rd, start, end);
        assert Runs(rd, start) == rest;
        RunsFromEarlier(rd, rest, start, end);
      } else {
        assert first < last;
        var run := RunFor(rd, first, last);
        PaintedSegment(rd, start, end, first, last, run);
        RunsFromEarlier(rd, rest, last, end);
        PrependRun(rd, run, rest, start, first, last);
      }
    }
  }

  ghost predicate Covers(run: RunBatch, x: nat) {
    run.col <= x < run.col + run.len
  }

  lemma {:induction false} RunsFollow(rd: RowDelta, rs: seq<RunBatch>, start: nat)
    requires RunsFrom(rd, rs, start)
    ensures forall j :: 0 <= j < |rs| ==> rs[j].col >= start && RunOf(rd, rs[j], rs[j].col, rs[j].col + rs[j].len)
    decreases |rs|
  {
    if rs != [] {
      RunsFollow(rd, rs[1..], rs[0].col + rs[0].len);
      assert forall j :: 0 < j < |rs| ==> rs[j] == rs[1..][j - 1];
    }
  }

  /** Every drawable cell lies in exactly one run. */
  lemma {:induction false} OneRunPerDrawable(rd: RowDelta, rs: seq<RunBatch>, start: nat, x: nat) returns (i: nat)
    requires RunsFrom(rd, rs, start) && start <= x < |rd.cells| && PaintsGlyph(rd.cells[x])
    ensures i < |rs| && Covers(rs[i], x)
    ensures forall j :: 0 <= j < |rs| && Covers(rs[j], x) ==> j == i
    decreases |rs|
  {
    var end := rs[0].col + rs[0].len;
    RunsFollow(rd, rs[1..], end);
    assert forall j :: 0 < j < |rs| ==> rs[j] == rs[1..][j - 1];
    if x < end {
      i := 0;
    } else {
      var k := OneRunPerDrawable(rd, rs[1..], end, x);
      i := k + 1;
    }
  }

  // ----- lengths in bytes -----

  /** The scalar that a UTF-8 sequence of one to four bytes encodes. */
  function Decoded(s: Bytes): int
    requires 1 <= |s| <= 4
  {
    if |s| == 1 then s[0] as int
    else if |s| == 2 then (s[0] as int - 0xC0) * 0x40 + (s[1] as int - 0x80)
    else if |s| == 3 then ((s[0] as int - 0xE0) * 0x40 + (s[1] as int - 0x80)) * 0x40 + (s[2] as int - 0x80)
    else (((s[0] as int - 0xF0) * 0x40 + (s[1] as int - 0x80)) * 0x40 + (s[2] as int - 0x80)) * 0x40 + (s[3] as int - 0x80)
  }

  lemma {:induction false} LengthOfNumber(ch: bv32, n: nat)
    requires n == ch as nat
    ensures Utf8Len(ch) == if n < 0x80 then 1 else if n < 0x800 then 2 else if n < 0x1_0000 then 3 else 4
  {
  }

  lemma {:induction false} LengthOfEncoding(s: Bytes, n: int)
    requires s != [] && Utf8Prefix(s) == |s| && n == Decoded(s)
    ensures 0 <= n <= 0x10FFFF
    ensures |s| == if n < 0x80 then 1 else if n < 0x800 then 2 else if n < 0x1_0000 then 3 else 4
  {
  }

  /** Every well-formed encoding of a scalar has the length that the scalar is counted with. */
  lemma {:induction false} CountedAsEncoded(ch: bv32, s: Bytes)
    requires s != [] && Utf8Prefix(s) == |s| && Decoded(s) == ch as int
    ensures Utf8Len(ch) == |s|
  {
    LengthOfEncoding(s, Decoded(s));
    LengthOfNumber(ch, ch as nat);
  }

  // ----- the text of a cell -----

  /** The marks that are attached to a column: those of the first entry that names it. */
  ghost predicate AttachedTo(combining: seq<(nat, seq<bv32>)>, col: nat, marks: seq<bv32>) {
    if forall i :: 0 <= i < |combining| ==> combining[i].0 != col then marks == []
    else exists i :: 0 <= i < |combining| && combining[i].0 == col && combining[i].1 == marks && NoneNames(combining, i, col)
  }

  ghost predicate NoneNames(combining: seq<(nat, seq<bv32>)>, n: nat, col: nat)
    requires n <= |combining|
  {
    forall j :: 0 <= j < n ==> combining[j].0 != col
  }

  lemma {:induction false} ExtrasAreAttached(combining: seq<(nat, seq<bv32>)>, col: nat)
    ensures AttachedTo(combining, col, ExtrasAt(combining, col))
  {
    if combining != [] {
      var rest := combining[1..];
      assert combining == [combining[0]] + rest;
      if combining[0].0 == col {
        assert NoneNames(combining, 0, col);
      } else {
        ExtrasAreAttached(rest, col);
        if i :| 0 <= i < |rest| && rest[i].0 == col && rest[i].1 == ExtrasAt(rest, col) && NoneNames(rest, i, col) {
          assert combining[i + 1] == rest[i];
          assert forall j :: 0 < j < i + 1 ==> combining[j] == rest[j - 1];
          assert NoneNames(combining, i + 1, col);
        }
      }
    }
  }

  predicate IsCharacter(content: bv32) {
    content <= 0x10FFFF && !(0xD800 <= content <= 0xDFFF)
  }

  /** `kept` are the places of the characters in s, in ascending order, and r the characters there. */
  ghost predicate Characters(s: seq<bv32>, kept: seq<nat>, r: seq<bv32>) {
    && (forall j, k :: 0 <= j < k < |kept| ==> kept[j] < kept[k])
    && (forall i: nat :: i in kept <==> i < |s| && IsCharacter(s[i]))
    && |r| == |kept| && forall j :: 0 <= j < |kept| ==> kept[j] < |s| && r[j] == s[kept[j]]
  }

  lemma {:induction false} OneMoreCharacter(s: seq<bv32>, kept: seq<nat>, r: seq<bv32>, c: bv32, longer: seq<bv32>)
    requires Characters(s, kept, r) && longer == s + [c]
    ensures IsCharacter(c) ==> Characters(longer, kept + [|s|], r + [c])
    ensures !IsCharacter(c) ==> Characters(longer, kept, r)
  {
    assert forall i :: i in kept + [|s|] <==> i in kept || i == |s|;
    assert forall i: nat :: i < |s| ==> longer[i] == s[i];
  }

  lemma {:induction false} ScalarsAreCharacters(s: seq<bv32>) returns (kept: seq<nat>)
    ensures Characters(s, kept, Scalars(s))
  {
    if s == [] {
      kept := [];
    } else {
      var front, c := s[..|s| - 1], s[|s| - 1];
      assert s == front + [c];
      var earlier := ScalarsAreCharacters(front);
      OneMoreCharacter(front, earlier, Scalars(front), c, s);
      assert Scalars(front) + [] == Scalars(front);
      kept := if IsScalar(c) then earlier + [|front|] else earlier;
    }
  }

  lemma {:induction false} ClusterTextTail(rd: RowDelta, x: nat, marks: seq<bv32>)
    requires x < |rd.cells| <= 0x1_0000 && marks == ExtrasAt(rd.combining, x)
    ensures ClusterText(rd, x)[1..] == Scalars(marks)
  {
    assert x % U16_SIZE == x;
  }

  /** The text of a cell is its character, or a blank for a NUL, and then the characters among the marks
      attached to its column, in order and nothing else. */
  lemma {:induction false} CellTextIs(rd: RowDelta, x: nat) returns (marks: seq<bv32>, kept: seq<nat>)
    requires x < |rd.cells| <= 0x1_0000
    ensures AttachedTo(rd.combining, x, marks) && Characters(marks, kept, ClusterText(rd, x)[1..])
    ensures ClusterText(rd, x)[0] == if rd.cells[x].content == 0 then 0x20 else rd.cells[x].content
  {
    marks := ExtrasAt(rd.combining, x);
    ExtrasAreAttached(rd.combining, x);
    kept := ScalarsAreCharacters(marks);
    ClusterTextTail(rd, x, marks);
  }

  // ----- glyph lookup -----

  /** A row as the terminal delivers it. */
  ghost predicate WellFormedRow(rd: RowDelta) {
    && |rd.cells| < U16_SIZE
    && WellPaired(rd.cells)
    && forall x :: 0 <= x < |rd.cells| ==> IsScalar(rd.cells[x].content)
  }

  /** The columns of the cells in [first, end) that produce a cluster, in order. */
  function Sources(rd: RowDelta, first: nat, end: nat): (src: seq<nat>)
    requires first <= end <= |rd.cells|
    ensures forall j :: 0 <= j < |src| ==> src[j] < end
  {
    if end == first then []
    else Sources(rd, first, end - 1) + if BeginsCluster(rd.cells[end - 1]) then [end - 1] else []
  }

  /** The sources are exactly the cells that are no spacers and hold a character, in ascending order. */
  lemma {:induction false} SourcesAreExact(rd: RowDelta, first: nat, end: nat)
    requires first <= end <= |rd.cells|
    ensures forall x :: x in Sources(rd, first, end) <==>
              first <= x < end && !IsSpacer(rd.cells[x]) && IsCharacter(rd.cells[x].content)
    ensures forall j, k :: 0 <= j < k < |Sources(rd, first, end)| ==> Sources(rd, first, end)[j] < Sources(rd, first, end)[k]
  {
    if first < end {
      SourcesAreExact(rd, first, end - 1);
    }
  }

  /** The texts of the first k of these cells, one behind the other. */
  function TextBefore(rd: RowDelta, src: seq<nat>, k: nat): seq<bv32>
    requires k <= |src| && forall j :: 0 <= j < |src| ==> src[j] < |rd.cells|
  {
    if k == 0 then [] else TextBefore(rd, src, k - 1) + ClusterText(rd, src[k - 1])
  }

  lemma {:induction false} TextBeforeMore(rd: RowDelta, src: seq<nat>, x: nat, more: seq<nat>, k: nat)
    requires x < |rd.cells| && more == src + [x] && k <= |src| && forall j :: 0 <= j < |src| ==> src[j] < |rd.cells|
    ensures TextBefore(rd, more, k) == TextBefore(rd, src, k)
  {
    if k > 0 {
      TextBeforeMore(rd, src, x, more, k - 1);
    }
  }

  /** The columns taken by the first k glyphs. */
  function WidthSum(widths: seq<nat>, k: nat): nat
    requires k <= |widths|
  {
    if k == 0 then 0 else WidthSum(widths, k - 1) + widths[k - 1]
  }

  lemma {:induction false} WidthSumOfPrefix(widths: seq<nat>, more: seq<nat>, k: nat)
    requires k <= |widths|
    ensures WidthSum(widths + more, k) == WidthSum(widths, k)
  {
    if k > 0 {
      WidthSumOfPrefix(widths, more, k - 1);
    }
  }

  lemma {:induction false} ByteLenOfConcat(a: seq<bv32>, b: seq<bv32>)
    ensures ByteLen(a + b) == ByteLen(a) + ByteLen(b)
  {
    if b == [] {
      assert a + b == a;
    } else {
      assert (a + b)[..|a + b| - 1] == a + b[..|b| - 1];
      ByteLenOfConcat(a, b[..|b| - 1]);
    }
  }

  /** The column that the cell at `end` has, if it begins a cluster: one further than `end`
      when it is the spacer of a wide cell inside the run. */
  function NextColumn(rd: RowDelta, first: nat, end: nat): nat
    requires first <= end <= |rd.cells|
  {
    if first < end && IsWide(rd.cells[end - 1]) then end + 1 else end
  }

  /** The widths so far add up to the next column. */
  ghost predicate ColumnsAligned(rd: RowDelta, first: nat, end: nat, widths: seq<nat>, src: seq<nat>)
    requires first <= end <= |rd.cells|
  {
    && |widths| == |src|
    && first + WidthSum(widths, |widths|) == NextColumn(rd, first, end)
    && (forall k :: 0 <= k < |src| ==> first + WidthSum(widths, k) == src[k] < end)
  }

  /** Clusters start in ascending order inside the text. */
  ghost predicate StartsAligned(text: seq<bv32>, starts: seq<nat>) {
    && (forall j, k :: 0 <= j < k < |starts| ==> starts[j] < starts[k])
    && (forall k :: 0 <= k < |starts| ==> starts[k] < ByteLen(text))
  }

  lemma {:induction false} PushColumn(rd: RowDelta, first: nat, x: nat, end: nat, widths: seq<nat>, src: seq<nat>, width: nat, more: seq<nat>)
    requires first <= x < |rd.cells| && end == x + 1 && ColumnsAligned(rd, first, x, widths, src) && NextColumn(rd, first, x) == x
    requires width == (if IsWide(rd.cells[x]) then 2 else 1) && more == widths + [width]
    ensures ColumnsAligned(rd, first, end, more, src + [x])
  {
    forall k | 0 <= k <= |widths|
      ensures WidthSum(more, k) == WidthSum(widths, k)
    {
      WidthSumOfPrefix(widths, [width], k);
    }
    assert WidthSum(more, |more|) == WidthSum(more, |widths|) + width;
  }

  lemma {:induction false} PushStart(text: seq<bv32>, starts: seq<nat>, piece: seq<bv32>, longer: seq<bv32>)
    requires StartsAligned(text, starts) && piece != [] && longer == text + piece
    ensures StartsAligned(longer, starts + [ByteLen(text)]) && ByteLen(longer) > ByteLen(text)
  {
    ByteLenOfConcat(text, piece);
  }

  lemma {:induction false} ClustersStep(rd: RowDelta, first: nat, x: nat, end: nat)
    requires first <= x && end == x + 1 <= |rd.cells|
    ensures ClustersTo(rd, first, end) ==
            var was, cell := ClustersTo(rd, first, x), rd.cells[x];
            if BeginsCluster(cell) then
              Clusters(was.text + ClusterText(rd, x), was.widths + [if IsWide(cell) then 2 else 1],
                       was.starts + [ByteLen(was.text) % U32_SIZE])
            else was
    ensures Sources(rd, first, end) == Sources(rd, first, x) + if BeginsCluster(rd.cells[x]) then [x] else []
  {
  }

  /** A spacer inside a run stands behind a wide cell, which has already taken its column. */
  lemma {:induction false} SpacerColumn(rd: RowDelta, first: nat, x: nat, end: nat)
    requires WellFormedRow(rd) && first <= x && end == x + 1 <= |rd.cells| && !IsSpacer(rd.cells[first])
    ensures if BeginsCluster(rd.cells[x]) then NextColumn(rd, first, x) == x
            else NextColumn(rd, first, x) == NextColumn(rd, first, end)
  {
  }

  lemma {:induction false} NoWrap(n: nat)
    requires n < U32_SIZE
    ensures n % U32_SIZE == n
  {
  }

  /** The text is the texts of the sources one behind the other; the k-th start is the byte where
      the k-th of them begins. */
  ghost predicate LaidOut(rd: RowDelta, text: seq<bv32>, starts: seq<nat>, src: seq<nat>, k: nat)
    requires k <= |src| && forall j :: 0 <= j < |src| ==> src[j] < |rd.cells|
  {
    && |starts| == |src|
    && TextBefore(rd, src, k) <= text && (k == |src| ==> TextBefore(rd, src, k) == text)
    && (k < |src| ==> starts[k] == ByteLen(TextBefore(rd, src, k)) % U32_SIZE)
  }

  lemma {:induction false} LayOutOneMore(rd: RowDelta, text: seq<bv32>, starts: seq<nat>, src: seq<nat>, x: nat, k: nat,
                                         longer: seq<bv32>, start: nat, more: seq<nat>)
    requires x < |rd.cells| && k <= |src| && forall j :: 0 <= j < |src| ==> src[j] < |rd.cells|
    requires LaidOut(rd, text, starts, src, k) && start == ByteLen(text) % U32_SIZE
    requires longer == text + ClusterText(rd, x) && more == src + [x]
    ensures LaidOut(rd, longer, starts + [start], more, k)
    ensures k == |src| ==> LaidOut(rd, longer, starts + [start], more, |more|)
  {
    TextBeforeMore(rd, src, x, more, k);
    assert k == |src| ==> TextBefore(rd, more, |more|) == TextBefore(rd, more, k) + ClusterText(rd, more[k]);
  }

  lemma {:induction false} ClustersAreLaidOut(rd: RowDelta, first: nat, end: nat, c: Clusters, src: seq<nat>, k: nat)
    requires first <= end <= |rd.cells| && c == ClustersTo(rd, first, end) && src == Sources(rd, first, end) && k <= |src|
    ensures LaidOut(rd, c.text, c.starts, src, k)
  {
    if first < end {
      var x := end - 1;
      var was, before := ClustersTo(rd, first, x), Sources(rd, first, x);
      ClustersStep(rd, first, x, end);
      if BeginsCluster(rd.cells[x]) {
        var n := if k <= |before| then k else |before|;
        ClustersAreLaidOut(rd, first, x, was, before, n);
        LayOutOneMore(rd, was.text, was.starts, before, x, n, c.text, ByteLen(was.text) % U32_SIZE, src);
      } else {
        assert src == before;
        ClustersAreLaidOut(rd, first, x, was, before, k);
      }
    }
  }

  lemma {:induction false} ClusterStartsAlign(rd: RowDelta, first: nat, end: nat, c: Clusters)
    requires first <= end <= |rd.cells| && c == ClustersTo(rd, first, end) && ByteLen(c.text) < U32_SIZE
    ensures StartsAligned(c.text, c.starts)
  {
    if first < end {
      var x := end - 1;
      var was := ClustersTo(rd, first, x);
      ClustersStep(rd, first, x, end);
      if BeginsCluster(rd.cells[x]) {
        var piece := ClusterText(rd, x);
        ByteLenOfConcat(was.text, piece);
        ClusterStartsAlign(rd, first, x, was);
        PushStart(was.text, was.starts, piece, c.text);
        NoWrap(ByteLen(was.text));
      } else {
        ClusterStartsAlign(rd, first, x, was);
      }
    }
  }

  lemma {:induction false} ClusterColumnsAlign(rd: RowDelta, first: nat, end: nat, c: Clusters)
    requires WellFormedRow(rd) && first <= end <= |rd.cells| && c == ClustersTo(rd, first, end)
    requires first < |rd.cells| ==> !IsSpacer(rd.cells[first])
    ensures |c.starts| == |c.widths|
    ensures ColumnsAligned(rd, first, end, c.widths, Sources(rd, first, end))
  {
    if first < end {
      var x := end - 1;
      var was, cell, src := ClustersTo(rd, first, x), rd.cells[x], Sources(rd, first, x);
      ClustersStep(rd, first, x, end);
      SpacerColumn(rd, first, x, end);
      ClusterColumnsAlign(rd, first, x, was);
      if BeginsCluster(cell) {
        PushColumn(rd, first, x, end, was.widths, src, if IsWide(cell) then 2 else 1, c.widths);
      }
    }
  }

  lemma {:induction false} ColumnsDoNotSaturate(rd: RowDelta, first: nat, end: nat, src: seq<nat>, run: RunBatch, k: nat)
    requires first < end <= |rd.cells| < U16_SIZE && ColumnsAligned(rd, first, end, run.glyphWidths, src) && k < |src|
    requires run.col == first
    ensures ColumnAfter(run, k) == src[k]
  {
    if k > 0 {
      ColumnsDoNotSaturate(rd, first, end, src, run, k - 1);
    }
  }

  /** The columns that the first k clusters take, where a missing width counts as one. */
  function ColumnsTaken(widths: seq<nat>, k: nat): nat {
    if k == 0 then 0 else ColumnsTaken(widths, k - 1) + if k - 1 < |widths| then widths[k - 1] else 1
  }

  lemma {:induction false} ColumnsSaturate(run: RunBatch, k: nat)
    requires run.col < 0x1_0000
    ensures ColumnAfter(run, k) == Min(run.col + ColumnsTaken(run.glyphWidths, k), 0xFFFF)
  {
    if k > 0 {
      ColumnsSaturate(run, k - 1);
    }
  }

  /** For any run whatever, a byte is mapped to the column behind the clusters that start before the one
      that holds it, and at most to the last sixteen-bit column. */
  lemma {:induction false} LookupIs(run: RunBatch, byte: nat, n: nat)
    requires run.col < 0x1_0000 && n <= |run.clusterStarts|
    requires forall k :: 0 <= k < n ==> run.clusterStarts[k] <= byte
    requires n < |run.clusterStarts| ==> run.clusterStarts[n] > byte
    ensures GlyphColumn(run, byte) == Min(run.col + ColumnsTaken(run.glyphWidths, if n == 0 then 0 else n - 1), 0xFFFF)
  {
    StartsUpToIs(run.clusterStarts, byte, n);
    ColumnsSaturate(run, if n == 0 then 0 else n - 1);
  }

  /** Starts, widths and sources of a run belong together. */
  lemma {:induction false} RunIsAligned(rd: RowDelta, first: nat, end: nat, run: RunBatch, src: seq<nat>)
    requires WellFormedRow(rd) && RunOf(rd, run, first, end) && ByteLen(run.text) < U32_SIZE
    requires src == Sources(rd, first, end)
    ensures end <= |rd.cells| < U16_SIZE && run.col == first && |run.clusterStarts| == |src|
    ensures ColumnsAligned(rd, first, end, run.glyphWidths, src)
    ensures StartsAligned(run.text, run.clusterStarts)
  {
    var c := ClustersTo(rd, first, end);
    ClusterColumnsAlign(rd, first, end, c);
    ClusterStartsAlign(rd, first, end, c);
  }

  /** Where the k-th cluster lies in the text of its run. */
  lemma {:induction false} ClusterPlace(rd: RowDelta, first: nat, end: nat, run: RunBatch, src: seq<nat>, k: nat,
                                        before: seq<bv32>, upTo: seq<bv32>)
    requires RunOf(rd, run, first, end) && ByteLen(run.text) < U32_SIZE && src == Sources(rd, first, end) && k < |src|
    requires before == TextBefore(rd, src, k) && upTo == before + ClusterText(rd, src[k])
    ensures upTo <= run.text && |run.clusterStarts| == |src|
    ensures run.clusterStarts[k] == ByteLen(before)
    ensures k + 1 < |src| ==> run.clusterStarts[k + 1] == ByteLen(upTo)
  {
    var c, next := ClustersTo(rd, first, end), k + 1;
    ClustersAreLaidOut(rd, first, end, c, src, k);
    ClustersAreLaidOut(rd, first, end, c, src, next);
    assert TextBefore(rd, src, next) == upTo;
    PrefixIsShorter(before, run.text);
    PrefixIsShorter(upTo, run.text);
    NoWrap(ByteLen(before));
    NoWrap(ByteLen(upTo));
  }

  lemma {:induction false} PrefixIsShorter(a: seq<bv32>, b: seq<bv32>)
    requires a <= b
    ensures ByteLen(a) <= ByteLen(b)
  {
    assert b == a + b[|a|..];
    ByteLenOfConcat(a, b[|a|..]);
  }

  lemma {:induction false} LookupFinds(rd: RowDelta, first: nat, end: nat, run: RunBatch, src: seq<nat>, k: nat, byte: nat)
    requires WellFormedRow(rd) && RunOf(rd, run, first, end) && ByteLen(run.text) < U32_SIZE
    requires src == Sources(rd, first, end) && k < |src| == |run.clusterStarts|
    requires run.clusterStarts[k] <= byte && (k + 1 < |src| ==> byte < run.clusterStarts[k + 1])
    ensures GlyphColumn(run, byte) == src[k]
  {
    RunIsAligned(rd, first, end, run, src);
    StartsUpToIs(run.clusterStarts, byte, k + 1);
    ColumnsDoNotSaturate(rd, first, end, src, run, k);
  }

  /** Every byte of the text that a cell contributes to a run leads back to the column of that very
      cell, whatever marks and wide glyphs precede it. */
  lemma {:induction false} GlyphFindsItsCell(rd: RowDelta, first: nat, end: nat, run: RunBatch, src: seq<nat>, k: nat,
                                             before: seq<bv32>, byte: nat)
    requires WellFormedRow(rd) && RunOf(rd, run, first, end) && ByteLen(run.text) < U32_SIZE
    requires src == Sources(rd, first, end) && k < |src| && before == TextBefore(rd, src, k)
    requires ByteLen(before) <= byte < ByteLen(before + ClusterText(rd, src[k]))
    ensures before + ClusterText(rd, src[k]) <= run.text
    ensures GlyphColumn(run, byte) == src[k]
  {
    ClusterPlace(rd, first, end, run, src, k, before, before + ClusterText(rd, src[k]));
    LookupFinds(rd, first, end, run, src, k, byte);
  }

  /** Every byte of the first n clusters lies in one of them. */
  lemma {:induction false} ClusterOfByte(rd: RowDelta, src: seq<nat>, n: nat, byte: nat) returns (k: nat)
    requires n <= |src| && (forall j :: 0 <= j < |src| ==> src[j] < |rd.cells|) && byte < ByteLen(TextBefore(rd, src, n))
    ensures k < n && ByteLen(TextBefore(rd, src, k)) <= byte < ByteLen(TextBefore(rd, src, k) + ClusterText(rd, src[k]))
  {
    k := n - 1;
    if byte < ByteLen(TextBefore(rd, src, k)) {
      k := ClusterOfByte(rd, src, k, byte);
    }
  }

  /** And there is no other byte: each one of a run's text belongs to a cell and leads back to it. */
  lemma {:induction false} EveryGlyphHasItsCell(rd: RowDelta, first: nat, end: nat, run: RunBatch, byte: nat)
    returns (x: nat, before: seq<bv32>)
    requires WellFormedRow(rd) && RunOf(rd, run, first, end) && byte < ByteLen(run.text) < U32_SIZE
    ensures first <= x < end && !IsSpacer(rd.cells[x]) && IsCharacter(rd.cells[x].content)
    ensures before + ClusterText(rd, x) <= run.text
    ensures ByteLen(before) <= byte < ByteLen(before + ClusterText(rd, x))
    ensures GlyphColumn(run, byte) == x
  {
    var src := Sources(rd, first, end);
    SourcesAreExact(rd, first, end);
    ClustersAreLaidOut(rd, first, end, ClustersTo(rd, first, end), src, |src|);
    var k := ClusterOfByte(rd, src, |src|, byte);
    x, before := src[k], TextBefore(rd, src, k);
    assert x in src;
    GlyphFindsItsCell(rd, first, end, run, src, k, before, byte);
  }

  /** The text of cell x stands in the run behind `before`, and each byte of it leads back to x. */
  ghost predicate LeadsBack(rd: RowDelta, run: RunBatch, x: nat, before: seq<bv32>)
    requires x < |rd.cells|
  {
    && before + ClusterText(rd, x) <= run.text
    && forall byte :: ByteLen(before) <= byte < ByteLen(before + ClusterText(rd, x)) ==> GlyphColumn(run, byte) == x
  }

  lemma {:induction false} SourceLeadsBack(rd: RowDelta, first: nat, end: nat, run: RunBatch, src: seq<nat>, k: nat, before: seq<bv32>)
    requires WellFormedRow(rd) && RunOf(rd, run, first, end) && ByteLen(run.text) < U32_SIZE
    requires src == Sources(rd, first, end) && k < |src| && before == TextBefore(rd, src, k)
    ensures LeadsBack(rd, run, src[k], before)
  {
    ClusterPlace(rd, first, end, run, src, k, before, before + ClusterText(rd, src[k]));
    forall byte: nat | ByteLen(before) <= byte < ByteLen(before + ClusterText(rd, src[k]))
      ensures GlyphColumn(run, byte) == src[k]
    {
      GlyphFindsItsCell(rd, first, end, run, src, k, before, byte);
    }
  }

  lemma {:induction false} DrawableIsSource(rd: RowDelta, first: nat, end: nat, src: seq<nat>, x: nat) returns (k: nat)
    requires first <= x < end <= |rd.cells| && PaintsGlyph(rd.cells[x]) && src == Sources(rd, first, end)
    ensures k < |src| && src[k] == x
  {
    SourcesAreExact(rd, first, end);
    assert x in src;
    k :| k < |src| && src[k] == x;
  }

  lemma {:induction false} FoundInRun(rd: RowDelta, first: nat, end: nat, run: RunBatch, x: nat) returns (before: seq<bv32>)
    requires WellFormedRow(rd) && RunOf(rd, run, first, end) && ByteLen(run.text) < U32_SIZE
    requires first <= x < end && PaintsGlyph(rd.cells[x])
    ensures LeadsBack(rd, run, x, before)
  {
    var src := Sources(rd, first, end);
    var k := DrawableIsSource(rd, first, end, src, x);
    before := TextBefore(rd, src, k);
    SourceLeadsBack(rd, first, end, run, src, k, before);
  }

  lemma {:induction false} RunAt(rd: RowDelta, rs: seq<RunBatch>, start: nat, i: nat, run: RunBatch, end: nat)
    requires RunsFrom(rd, rs, start) && i < |rs| && run == rs[i] && end == run.col + run.len
    ensures RunOf(rd, run, run.col, end)
    decreases |rs|
  {
    if i > 0 {
      RunAt(rd, rs[1..], rs[0].col + rs[0].len, i - 1, run, end);
    }
  }

  lemma {:induction false} FoundInItsRun(rd: RowDelta, run: RunBatch, end: nat, x: nat) returns (before: seq<bv32>)
    requires WellFormedRow(rd) && end == run.col + run.len && RunOf(rd, run, run.col, end) && ByteLen(run.text) < U32_SIZE
    requires x < |rd.cells| && PaintsGlyph(rd.cells[x]) && Covers(run, x)
    ensures LeadsBack(rd, run, x, before)
  {
    before := FoundInRun(rd, run.col, end, run, x);
  }

  /** Over a whole row: the text of every drawable cell stands in exactly one run, and leads back to it. */
  lemma {:induction false} EveryDrawableIsFound(rd: RowDelta, rs: seq<RunBatch>, x: nat) returns (i: nat, before: seq<bv32>)
    requires WellFormedRow(rd) && rs == FilledRow(rd).runs && x < |rd.cells| && PaintsGlyph(rd.cells[x])
    requires forall j :: 0 <= j < |rs| ==> ByteLen(rs[j].text) < U32_SIZE
    ensures i < |rs| && LeadsBack(rd, rs[i], x, before)
    ensures forall j :: 0 <= j < |rs| && Covers(rs[j], x) <==> j == i
  {
    RunsHoldDrawables(rd, 0);
    i := OneRunPerDrawable(rd, rs, 0, x);
    var run := rs[i];
    var end := run.col + run.len;
    RunAt(rd, rs, 0, i, run, end);
    before := FoundInItsRun(rd, run, end, x);
  }
}
