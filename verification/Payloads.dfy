/** The benchmark payloads, byte by byte. A byte is a `char`, as in the reply modules; the `|`
    of a UTF-8 marker with the bits below it is written as `+`. */
module Payloads {
  import opened Basics

  const TEN_MIB: nat := 10 * 1024 * 1024

  const SGR: Bytes := [ESC, '[', '3', '1', 'm', ESC, '[', '0', 'm']

  function Letter(n: nat): char {
    ('A' as int + n % 26) as char
  }

  function AsciiByte(j: nat): char {
    if j % 32 < 9 then SGR[j % 32] else Letter(j / 32)
  }

  /** The three UTF-8 bytes of the `i`-th scalar of the range that starts at U+4E00. */
  function CjkBytes(i: nat): (s: Bytes)
    requires i < 0x3000
    ensures |s| == 3
  {
    var cp := 0x4E00 + i;
    [(0xE0 + cp / 4096) as char, (0x80 + cp / 64 % 64) as char, (0x80 + cp % 64) as char]
  }

  /** Byte `r` of cycle `k` of the mixed payload. */
  function CycleByte(k: nat, r: nat): char
    requires r < 48
  {
    if r < 9 then SGR[r]
    else if r < 18 then CjkBytes((k * 3 + (r - 9) / 3) % 0x3000)[(r - 9) % 3]
    else Letter(k * 7 + r)
  }

  function RawByte(j: nat): char {
    CycleByte(j / 48, j % 48)
  }

  function UnicodeByte(j: nat): char {
    if j + 1 == TEN_MIB then 'A' else RawByte(j)
  }

  datatype PayloadId = Ascii10Mb | Unicode10Mb

  function BytesOf(id: PayloadId): nat -> char {
    match id
    case Ascii10Mb => AsciiByte
    case Unicode10Mb => UnicodeByte
  }

  /** The bytes at the indices from `start` to `end` of an endless stream. */
  function Tabulate(byte: nat -> char, start: nat, end: nat): (s: Bytes)
    requires start <= end
    ensures |s| == end - start
    ensures forall j :: start <= j < end ==> s[j - start] == byte(j)
  {
    seq(end - start, i requires 0 <= i => byte(start + i))
  }

  lemma {:induction false} TabulateAt(byte: nat -> char, start: nat, end: nat, t: nat, j: nat)
    requires start <= j < end && j == start + t
    ensures t < |Tabulate(byte, start, end)| && Tabulate(byte, start, end)[t] == byte(j)
  {
    assert j - start == t;
  }

  lemma {:induction false} TabulateJoins(byte: nat -> char, a: nat, b: nat, c: nat)
    requires a <= b <= c
    ensures Tabulate(byte, a, b) + Tabulate(byte, b, c) == Tabulate(byte, a, c)
  {
  }

  lemma {:induction false} SamePhase(j: nat, q: nat, s: nat)
    requires j == 832 * q + s
    ensures j % 32 == s % 32 && j / 32 == 26 * q + s / 32
  {
    assert j == 32 * (26 * q) + s;
  }

  lemma {:induction false} SameLetter(n: nat, q: nat, m: nat)
    requires n == 26 * q + m
    ensures Letter(n) == Letter(m)
  {
  }

  /** The letters advance once per 32 bytes, so the ASCII payload repeats every 832. */
  lemma {:induction false} AsciiPeriod(j: nat)
    ensures AsciiByte(j) == AsciiByte(j % 832)
  {
    var q, s := j / 832, j % 832;
    SamePhase(j, q, s);
    SameLetter(j / 32, q, s / 32);
  }

  lemma {:induction false} AsciiAt(k: nat, r: nat, j: nat)
    requires r < 32 && j == 32 * k + r
    ensures AsciiByte(j) == if r < 9 then [ESC, '[', '3', '1', 'm', ESC, '[', '0', 'm'][r] else ('A' as int + k % 26) as char
  {
    assert j / 32 == k && j % 32 == r;
  }

  /** Each cycle of 32 bytes sets the colour red, resets it, and repeats one letter, the next of the alphabet. */
  lemma {:induction false} AsciiCycle(k: nat, start: nat, end: nat)
    requires start == 32 * k && end == start + 32
    ensures Tabulate(AsciiByte, start, end) ==
            [ESC, '[', '3', '1', 'm', ESC, '[', '0', 'm'] + seq(23, _ => ('A' as int + k % 26) as char)
  {
    var cycle := [ESC, '[', '3', '1', 'm', ESC, '[', '0', 'm'] + seq(23, _ => ('A' as int + k % 26) as char);
    forall r: nat | r < 32 ensures Tabulate(AsciiByte, start, end)[r] == cycle[r] {
      var j := start + r;
      TabulateAt(AsciiByte, start, end, r, j);
      AsciiAt(k, r, j);
    }
  }

  /** A cycle of 48 bytes of the mixed payload: the same nine bytes, three scalars from U+4E00 on as three
      bytes each, and thirty letters. */
  lemma {:induction false} RawAt(k: nat, r: nat, j: nat)
    requires r < 48 && j == 48 * k + r
    ensures r < 9 ==> RawByte(j) == [ESC, '[', '3', '1', 'm', ESC, '[', '0', 'm'][r]
    ensures 9 <= r < 18 ==>
              var scalar := 0x4E00 + (k * 3 + (r - 9) / 3) % 0x3000;
              RawByte(j) == [(0xE0 + scalar / 0x1000) as char, (0x80 + scalar / 0x40 % 0x40) as char, (0x80 + scalar % 0x40) as char][(r - 9) % 3]
    ensures 18 <= r ==> RawByte(j) == ('A' as int + (k * 7 + r) % 26) as char
  {
    assert j / 48 == k && j % 48 == r;
  }
}
