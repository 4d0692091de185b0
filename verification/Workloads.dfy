/** The chunked sources that must reproduce the payloads from small cyclic tables. */
module Workloads {
  import opened Basics
  import opened Hashing
  import opened Payloads
  import opened Sequences

  // ----- periods -----

  lemma {:induction false} MultipleIsLarge(n: nat, k: nat)
    requires k > 0
    ensures n * k >= n
  {
  }

  lemma {:induction false} QuotientIs(x: nat, n: nat, q: nat, r: nat)
    requires r < n && x == n * q + r
    ensures x / n == q && x % n == r
  {
    var d := x / n;
    assert n * d - n * q == n * (d - q);
    if d < q {
      MultipleIsLarge(n, q - d);
    } else if q < d {
      MultipleIsLarge(n, d - q);
    }
  }

  lemma {:induction false} SameRemainder(x: nat, n: nat, y: nat)
    requires n > 0 && x == y + n
    ensures x % n == y % n
  {
    var q := y / n;
    assert n * (q + 1) == n * q + n;
    QuotientIs(x, n, q + 1, y % n);
  }

  lemma {:induction false} NextPhase(x: nat, y: nat, n: nat, t: nat)
    requires n > 0 && y == x + t && x % n + t <= n
    ensures x % n + t < n ==> y % n == x % n + t
    ensures x % n + t == n ==> y % n == 0
  {
    var q := x / n;
    if x % n + t < n {
      QuotientIs(y, n, q, x % n + t);
    } else {
      assert n * (q + 1) == n * q + n;
      QuotientIs(y, n, q + 1, 0);
    }
  }

  function Cyclic(seed: Bytes): nat -> char
    requires seed != []
  {
    (j: nat) => seed[j % |seed|]
  }

  lemma {:induction false} CyclicAt(seed: Bytes, at: nat, pos: nat, j: nat, t: nat)
    requires seed != [] && pos == at % |seed| && j == at + t && pos + t < |seed|
    ensures Cyclic(seed)(j) == seed[pos + t]
  {
    NextPhase(at, j, |seed|, t);
  }

  /** A stretch that stays inside one period is a plain copy. */
  lemma {:induction false} PeriodPiece(seed: Bytes, at: nat, next: nat, pos: nat, stop: nat)
    requires seed != [] && pos == at % |seed|
    requires pos <= stop <= |seed| && next - at == stop - pos
    ensures seed[pos..stop] == Tabulate(Cyclic(seed), at, next)
  {
    var piece := seed[pos..stop];
    forall j: nat | at <= j < next ensures piece[j - at] == Cyclic(seed)(j) {
      var t := j - at;
      CyclicAt(seed, at, pos, j, t);
      assert piece[t] == seed[pos + t];
    }
  }

  /** Fills with the bytes from `offset` on of the infinite repetition of the seed. */
  method FillPeriodPhase(seed: Bytes, offset: nat, len: nat, ghost end: nat) returns (out: Bytes)
    requires end == offset + len
    ensures seed == [] ==> out == []
    ensures seed != [] ==> out == Tabulate(Cyclic(seed), offset, end)
  {
    out := [];
    if len == 0 || seed == [] {
      return;
    }
    var pos := offset % |seed|;
    ghost var at: nat := offset;
    while |out| < len
      invariant at == offset + |out| && at <= end && 0 <= pos < |seed|
      invariant at < end ==> pos == at % |seed|
      invariant out == Tabulate(Cyclic(seed), offset, at)
    {
      var n := if len - |out| <= |seed| - pos then len - |out| else |seed| - pos;
      var stop := pos + n;
      ghost var next := at + n;
      PeriodPiece(seed, at, next, pos, stop);
      NextPhase(at, next, |seed|, n);
      TabulateJoins(Cyclic(seed), offset, at, next);
      out := out + seed[pos..stop];
      at := next;
      pos := 0;
    }
  }

  ghost predicate IsAsciiSeed(seed: Bytes) {
    |seed| == 832 && forall j :: 0 <= j < 832 ==> seed[j] == AsciiByte(j)
  }

  /** One period of the ASCII payload. */
  method AsciiSeed() returns (seed: Bytes)
    ensures IsAsciiSeed(seed)
  {
    seed := [];
    for j := 0 to 832
      invariant |seed| == j && forall i :: 0 <= i < j ==> seed[i] == AsciiByte(i)
    {
      seed := seed + [AsciiByte(j)];
    }
  }

  // ----- the mixed payload -----

  ghost predicate IsCjkTable(table: Bytes, count: nat) {
    |table| == 3 * count && count <= 0x3000
    && forall i, b :: 0 <= i < count && 0 <= b < 3 ==> table[3 * i + b] == CjkBytes(i)[b]
  }

  method UnicodeCjkTable() returns (out: Bytes)
    ensures IsCjkTable(out, 0x3000)
  {
    out := [];
    for i := 0 to 0x3000
      invariant IsCjkTable(out, i)
    {
      var s := CjkBytes(i);
      out := out + [s[0]];
      out := out + [s[1]];
      out := out + [s[2]];
    }
  }

  ghost predicate IsAlphabet(letters: Bytes) {
    |letters| == 78 && forall i :: 0 <= i < 78 ==> letters[i] == Letter(i)
  }

  method UnicodeLetters() returns (out: Bytes)
    ensures IsAlphabet(out)
  {
    out := [];
    for i := 0 to 78
      invariant |out| == i && forall j :: 0 <= j < i ==> out[j] == Letter(j)
    {
      out := out + [Letter(i)];
    }
  }

  /** Residues of multiples of three leave room for a whole group of three. */
  lemma {:induction false} ThirdOfWindow(k: nat, base: nat, c: nat)
    requires base == (k * 3) % 0x3000 && c < 3
    ensures base + 3 <= 0x3000 && base + c == (k * 3 + c) % 0x3000
  {
    var q := k * 3 / 0x3000;
    assert k * 3 == 0x3000 * q + base;
    assert base == 3 * (k - 0x1000 * q);
    QuotientIs(k * 3 + c, 0x3000, q, base + c);
  }

  /** The scalars of cycle `k` lie side by side in the table, and never across its end. */
  lemma {:induction false} CjkWindow(table: Bytes, k: nat, start: nat, t: nat)
    requires IsCjkTable(table, 0x3000) && start == (k * 3) % 0x3000 * 3 && t < 9
    ensures start + 9 <= |table|
    ensures table[start..start + 9][t] == CycleByte(k, 9 + t)
  {
    var base := (k * 3) % 0x3000;
    var c := t / 3;
    ThirdOfWindow(k, base, c);
    assert start + t == 3 * (base + c) + t % 3;
    assert table[start..start + 9][t] == table[start + t];
  }

  lemma {:induction false} LetterAgrees(n: nat, start: nat, u: nat)
    requires start == n % 26
    ensures Letter(start + u) == Letter(n + u)
  {
    var q, r := (start + u) / 26, (start + u) % 26;
    QuotientIs(n + u, 26, n / 26 + q, r);
  }

  lemma {:induction false} LetterWindow(letters: Bytes, k: nat, start: nat, u: nat)
    requires IsAlphabet(letters) && start == (k * 7 + 18) % 26 && u < 30
    ensures start + 30 <= |letters|
    ensures letters[start..start + 30][u] == CycleByte(k, 18 + u)
  {
    LetterAgrees(k * 7 + 18, start, u);
    assert letters[start..start + 30][u] == letters[start + u];
  }

  /** One 48-byte cycle, copied from the tables. */
  method BuildCycle(cjk: Bytes, letters: Bytes, k: nat) returns (cycle: Bytes)
    requires IsCjkTable(cjk, 0x3000) && IsAlphabet(letters)
    ensures |cycle| == 48 && forall r :: 0 <= r < 48 ==> cycle[r] == CycleByte(k, r)
  {
    var cjkStart := (k * 3) % 0x3000 * 3;
    var letterStart := (k * 7 + 18) % 26;
    CjkWindow(cjk, k, cjkStart, 0);
    LetterWindow(letters, k, letterStart, 0);
    cycle := SGR + cjk[cjkStart..cjkStart + 9] + letters[letterStart..letterStart + 30];
    forall r | 0 <= r < 48 ensures cycle[r] == CycleByte(k, r) {
      if 9 <= r < 18 {
        CjkWindow(cjk, k, cjkStart, r - 9);
      } else if 18 <= r {
        LetterWindow(letters, k, letterStart, r - 18);
      }
    }
  }

  /** Bytes `start` to `stop` of a cycle are the stream from `at` to `next`. */
  lemma {:induction false} CycleAt(cycle: Bytes, at: nat, start: nat, t: nat, r: nat, j: nat)
    requires |cycle| == 48 && forall i :: 0 <= i < 48 ==> cycle[i] == CycleByte(at / 48, i)
    requires start == at % 48 && r == start + t < 48 && j == at + t
    ensures cycle[r] == RawByte(j)
  {
    QuotientIs(j, 48, at / 48, r);
  }

  lemma {:induction false} CyclePiece(cycle: Bytes, at: nat, next: nat, start: nat, stop: nat)
    requires |cycle| == 48 && forall r :: 0 <= r < 48 ==> cycle[r] == CycleByte(at / 48, r)
    requires start == at % 48 && start <= stop <= 48 && next - at == stop - start
    ensures cycle[start..stop] == Tabulate(RawByte, at, next)
  {
    var piece, stream := cycle[start..stop], Tabulate(RawByte, at, next);
    forall t: nat | t < |piece| ensures piece[t] == stream[t] {
      var r, j := start + t, at + t;
      SliceAt(cycle, start, stop, t, r);
      CycleAt(cycle, at, start, t, r, j);
      TabulateAt(RawByte, at, next, t, j);
    }
  }

  method FillUnicodePeriod(cjk: Bytes, letters: Bytes, offset: nat, len: nat, ghost end: nat) returns (out: Bytes)
    requires IsCjkTable(cjk, 0x3000) && IsAlphabet(letters) && end == offset + len
    ensures out == Tabulate(RawByte, offset, end)
  {
    out := [];
    var remaining := len;
    var at := offset;
    while remaining > 0
      invariant 0 <= remaining <= len && at == offset + |out| && at + remaining == end
      invariant out == Tabulate(RawByte, offset, at)
    {
      var k := at / 48;
      var start := at % 48;
      var take := if 48 - start <= remaining then 48 - start else remaining;
      var cycle := BuildCycle(cjk, letters, k);
      ghost var next := at + take;
      CyclePiece(cycle, at, next, start, start + take);
      TabulateJoins(RawByte, offset, at, next);
      out := out + cycle[start..start + take];
      remaining := remaining - take;
      at := at + take;
    }
  }

  // ----- chunks -----

  /** The chunk runs across the end of the ten MiB, inside which one byte is replaced. */
  predicate Straddles(id: PayloadId, offset: nat, end: nat) {
    id.Unicode10Mb? && offset < TEN_MIB < end
  }

  /** What a chunk holds: the payload, with the replaced byte only at the end of a chunk. */
  function Chunk(id: PayloadId, offset: nat, end: nat): (s: Bytes)
    requires offset <= end
    ensures |s| == end - offset
  {
    if Straddles(id, offset, end) then Tabulate(RawByte, offset, end) else Tabulate(BytesOf(id), offset, end)
  }

  /** The ten MiB end one byte into a three-byte scalar. */
  lemma {:induction false} LastByteIsALead()
    ensures TEN_MIB % 48 == 16 && (TEN_MIB - 1) % 48 == 15
    ensures RawByte(TEN_MIB - 1) as int >= 0xE0
  {
    QuotientIs(TEN_MIB, 48, 218453, 16);
    QuotientIs(TEN_MIB - 1, 48, 218453, 15);
  }

  /** A chunk is right exactly when it does not run across the end of the mixed payload. */
  lemma {:induction false} ChunkIsPayload(id: PayloadId, offset: nat, end: nat)
    requires offset <= end
    ensures Chunk(id, offset, end) == Tabulate(BytesOf(id), offset, end) <==> !Straddles(id, offset, end)
  {
    if Straddles(id, offset, end) {
      LastByteIsALead();
      var j := TEN_MIB - 1;
      assert Tabulate(RawByte, offset, end)[j - offset] == RawByte(j);
      assert Tabulate(UnicodeByte, offset, end)[j - offset] == UnicodeByte(j);
    }
  }

  /** Patching the last byte of the ten MiB turns the raw stream into the payload. */
  lemma {:induction false} PatchedEnd(offset: nat, end: nat)
    requires offset <= end
    ensures offset < end == TEN_MIB
      ==> Tabulate(RawByte, offset, end)[end - offset - 1 := 'A'] == Tabulate(UnicodeByte, offset, end)
    ensures !(offset < TEN_MIB <= end) ==> Tabulate(RawByte, offset, end) == Tabulate(UnicodeByte, offset, end)
  {
    assert forall j: nat :: offset <= j < end && j + 1 != TEN_MIB ==> RawByte(j) == UnicodeByte(j);
    if offset < end == TEN_MIB {
      assert Tabulate(UnicodeByte, offset, end)[TEN_MIB - 1 - offset] == UnicodeByte(TEN_MIB - 1);
    }
  }

  lemma {:induction false} SeedRepeats(seed: Bytes, offset: nat, end: nat)
    requires IsAsciiSeed(seed) && offset <= end
    ensures Tabulate(Cyclic(seed), offset, end) == Tabulate(AsciiByte, offset, end)
  {
    forall j: nat | offset <= j < end ensures Cyclic(seed)(j) == AsciiByte(j) {
      AsciiPeriod(j);
    }
  }

  datatype ThroughputPayload = ThroughputPayload(id: PayloadId, asciiSeed: Bytes, unicodeCjk: Bytes, letters: Bytes) {
    /** The tables are the ones the workload builds for its payload. */
    ghost predicate Prepared() {
      match id
      case Ascii10Mb => IsAsciiSeed(asciiSeed)
      case Unicode10Mb => IsCjkTable(unicodeCjk, 0x3000) && IsAlphabet(letters)
    }

    /** The source indexes before the start of an empty chunk that lies at the very end of the
        mixed payload; that failure is `None`. */
    method FillChunk(offset: nat, len: nat, ghost end: nat) returns (chunk: Option<Bytes>)
      requires Prepared() && end == offset + len
      ensures chunk.None? <==> id.Unicode10Mb? && len == 0 && offset == TEN_MIB
      ensures chunk.Some? ==> chunk.value == Chunk(id, offset, end)
    {
      match id
      case Ascii10Mb =>
        var out := FillPeriodPhase(asciiSeed, offset, len, end);
        SeedRepeats(asciiSeed, offset, end);
        chunk := Some(out);
      case Unicode10Mb =>
        var out := FillUnicodePeriod(unicodeCjk, letters, offset, len, end);
        PatchedEnd(offset, end);
        if offset + len == TEN_MIB {
          if len == 0 {
            return None;
          }
          out := out[len - 1 := 'A'];
        }
        chunk := Some(out);
    }
  }

  method Prepare(id: PayloadId) returns (source: ThroughputPayload)
    ensures source.id == id && source.Prepared()
  {
    match id
    case Ascii10Mb =>
      var seed := AsciiSeed();
      source := ThroughputPayload(id, seed, [], []);
    case Unicode10Mb =>
      var table := UnicodeCjkTable();
      var letters := UnicodeLetters();
      source := ThroughputPayload(id, [], table, letters);
  }

  /** All the chunks of a stream of `total` bytes, one after the other. */
  function Stream(id: PayloadId, offset: nat, total: nat, chunk: nat): Bytes
    requires chunk > 0 && offset <= total
    decreases total - offset
  {
    if offset == total then []
    else
      var end := if total - offset <= chunk then total else offset + chunk;
      Chunk(id, offset, end) + Stream(id, end, total, chunk)
  }

  /** No chunk of the stream runs across the end of the ten MiB. */
  predicate CutsAtEnd(id: PayloadId, offset: nat, total: nat, chunk: nat)
    requires chunk > 0
  {
    id.Ascii10Mb? || total <= TEN_MIB || TEN_MIB <= offset || (TEN_MIB - offset) % chunk == 0
  }

  lemma {:induction false} NextCut(id: PayloadId, offset: nat, total: nat, chunk: nat, end: nat)
    requires chunk > 0 && offset < total
    requires end == if total - offset <= chunk then total else offset + chunk
    ensures CutsAtEnd(id, offset, total, chunk)
       <==> !Straddles(id, offset, end) && CutsAtEnd(id, end, total, chunk)
  {
    if id.Unicode10Mb? && offset < TEN_MIB < total {
      var gap := TEN_MIB - offset;
      if end <= TEN_MIB {
        SameRemainder(gap, chunk, TEN_MIB - end);
      }
    }
  }

  lemma {:induction false} JoinedEqual(a: Bytes, b: Bytes, c: Bytes, d: Bytes)
    requires |a| == |c|
    ensures a + b == c + d <==> a == c && b == d
  {
    if a + b == c + d {
      assert a == (a + b)[..|a|] == c;
      assert b == (a + b)[|a|..] == d;
    }
  }

  /** The chunks join to the payload for every chunk size, except across the end of the ten MiB,
      where they do exactly when a chunk boundary falls there. */
  lemma {:induction false} ChunksJoinToPayload(id: PayloadId, offset: nat, total: nat, chunk: nat)
    requires chunk > 0 && offset <= total
    ensures |Stream(id, offset, total, chunk)| == total - offset
    ensures Stream(id, offset, total, chunk) == Tabulate(BytesOf(id), offset, total)
       <==> CutsAtEnd(id, offset, total, chunk)
    decreases total - offset
  {
    if offset < total {
      var end := if total - offset <= chunk then total else offset + chunk;
      ChunksJoinToPayload(id, end, total, chunk);
      ChunkIsPayload(id, offset, end);
      NextCut(id, offset, total, chunk, end);
      TabulateJoins(BytesOf(id), offset, end, total);
      JoinedEqual(Chunk(id, offset, end), Stream(id, end, total, chunk),
                  Tabulate(BytesOf(id), offset, end), Tabulate(BytesOf(id), end, total));
    }
  }

  lemma {:induction false} HashOneChunk<H>(id: PayloadId, offset: nat, total: nat, chunk: nat, end: nat,
                                           step: (H, char) -> H, h: H)
    requires chunk > 0 && offset < total
    requires end == if total - offset <= chunk then total else offset + chunk
    ensures Fold(step, h, Stream(id, offset, total, chunk))
         == Fold(step, Fold(step, h, Chunk(id, offset, end)), Stream(id, end, total, chunk))
  {
    FoldAppends(step, h, Chunk(id, offset, end), Stream(id, end, total, chunk));
  }

  /** The identity pass hashes the stream chunk by chunk. */
  method HashStream<H>(id: PayloadId, total: nat, chunk: nat, step: (H, char) -> H, h0: H) returns (h: H)
    requires chunk > 0
    ensures h == Fold(step, h0, Stream(id, 0, total, chunk))
  {
    var source := Prepare(id);
    h := h0;
    var offset: nat := 0;
    while offset < total
      invariant offset <= total
      invariant Fold(step, h, Stream(id, offset, total, chunk)) == Fold(step, h0, Stream(id, 0, total, chunk))
    {
      var len := if total - offset <= chunk then total - offset else chunk;
      var end := offset + len;
      var scratch := source.FillChunk(offset, len, end);
      HashOneChunk(id, offset, total, chunk, end, step, h);
      h := Update(step, h, scratch.value);
      offset := end;
    }
  }

  /** Up to ten MiB the hash is that of the payload, whatever the chunk size. */
  method Identity<H>(id: PayloadId, total: nat, chunk: nat, step: (H, char) -> H, h0: H) returns (h: H)
    requires chunk > 0 && total <= TEN_MIB
    ensures h == Fold(step, h0, Tabulate(BytesOf(id), 0, total))
  {
    h := HashStream(id, total, chunk, step, h0);
    ChunksJoinToPayload(id, 0, total, chunk);
  }
}
