/** The frame generator of the terminal benchmark and its bounded streaming. */
module Termbench {
  import opened Basics
  import opened Hashing

  const LAST_COL: nat := 80
  const LAST_ROW: nat := 24

  datatype Variant = FGPerChar | FGBGPerChar

  // ----- decimals -----

  function Digit(d: nat): char
    requires d < 10
  {
    ('0' as int + d) as char
  }

  function Digits(v: nat): Bytes {
    if v == 0 then [] else Digits(v / 10) + [Digit(v % 10)]
  }

  /** The minimal decimal form. */
  function Decimal(v: nat): Bytes {
    if v == 0 then ['0'] else Digits(v)
  }

  function Reversed(s: Bytes): (r: Bytes)
    ensures |r| == |s|
  {
    if s == [] then [] else Reversed(s[1..]) + [s[0]]
  }

  function Pow10(n: nat): (p: nat)
    ensures p > 0
  {
    if n == 0 then 1 else 10 * Pow10(n - 1)
  }

  lemma {:induction false} ReversedSnoc(s: Bytes, x: char)
    ensures Reversed(s + [x]) == [x] + Reversed(s)
  {
    if s != [] {
      assert (s + [x])[1..] == s[1..] + [x];
      ReversedSnoc(s[1..], x);
    } else {
      assert ([] + [x])[1..] == [];
    }
  }

  lemma {:induction false} ProductIsLarge(v: nat, p: nat)
    requires v > 0
    ensures v * p >= p
  {
  }

  lemma {:induction false} Pow10Of(n: nat)
    requires n == 10
    ensures Pow10(n) > U32_SIZE
  {
    assert Pow10(5) == 10 * Pow10(4) == 100 * Pow10(3) == 1000 * Pow10(2) == 100000;
    assert Pow10(10) == 10 * Pow10(9) == 100 * Pow10(8) == 1000 * Pow10(7) == 10000 * Pow10(6) == 100000 * Pow10(5);
  }

  /** `len` digits are out and `v` is what is left of the value. */
  ghost predicate Fits(v: nat, len: nat, value: nat) {
    len <= 10 && v * Pow10(len) <= value < U32_SIZE
  }

  lemma {:induction false} TenDigitsSuffice(v: nat, len: nat, value: nat)
    requires Fits(v, len, value) && v > 0
    ensures len < 10
  {
    ProductIsLarge(v, Pow10(len));
    if len == 10 {
      Pow10Of(len);
    }
  }

  lemma {:induction false} DropDigit(v: nat, p: nat, value: nat)
    requires v * p <= value
    ensures (v / 10) * (10 * p) <= value
  {
    assert (v / 10) * (10 * p) == (v / 10 * 10) * p;
    assert v == v / 10 * 10 + v % 10;
    assert v * p == (v / 10 * 10) * p + (v % 10) * p;
  }

  lemma {:induction false} NextDigitFits(v: nat, len: nat, value: nat, longer: nat)
    requires Fits(v, len, value) && v > 0 && longer == len + 1
    ensures len < 10 && Fits(v / 10, longer, value)
  {
    TenDigitsSuffice(v, len, value);
    DropDigit(v, Pow10(len), value);
  }

  /** One digit moves from the value to the buffer. */
  lemma {:induction false} MoveDigit(v: nat, buffered: Bytes, digit: char)
    requires v > 0 && digit == Digit(v % 10)
    ensures Digits(v) + Reversed(buffered) == Digits(v / 10) + Reversed(buffered + [digit])
  {
    ReversedSnoc(buffered, digit);
    Associative(Digits(v / 10), [digit], Reversed(buffered));
  }

  /** The digits are produced backwards into a ten-byte buffer, which never overflows. */
  method WriteBackwards(buf: array<char>, value: nat) returns (len: nat)
    requires buf.Length == 10 && 0 < value < U32_SIZE
    modifies buf
    ensures len <= 10 && Reversed(buf[..len]) == Decimal(value)
  {
    len := 0;
    var v: nat := value;
    assert buf[..len] == [] && Digits(v) + [] == Digits(v);
    while v > 0
      invariant Fits(v, len, value)
      invariant Digits(value) == Digits(v) + Reversed(buf[..len])
    {
      NextDigitFits(v, len, value, len + 1);
      var digit := Digit(v % 10);
      ghost var before := buf[..len];
      MoveDigit(v, before, digit);
      buf[len] := digit;
      v := v / 10;
      len := len + 1;
      assert buf[..len] == before + [digit];
    }
    assert Digits(0) == [] && [] + Reversed(buf[..len]) == Reversed(buf[..len]);
  }

  method AppendDecimal(out: Bytes, value: nat) returns (longer: Bytes)
    requires value < U32_SIZE
    ensures longer == out + Decimal(value)
  {
    if value == 0 {
      return out + ['0'];
    }
    var buf := new char[10];
    var len := WriteBackwards(buf, value);
    longer := out;
    var i := len;
    while i > 0
      invariant 0 <= i <= len <= 10
      invariant longer == out + Reversed(buf[i..len])
    {
      i := i - 1;
      assert buf[i..len][1..] == buf[i + 1..len];
      longer := longer + [buf[i]];
    }
    assert buf[0..len] == buf[..len];
  }

  // ----- commands -----

  /** What one escape sequence or character of a frame tells the terminal. */
  datatype Command = Goto(row: nat, col: nat) | Fore(r: nat, g: nat, b: nat) | Back(r: nat, g: nat, b: nat) | Put(ch: char)

  function Triple(r: nat, g: nat, b: nat): Bytes {
    Decimal(r) + [';'] + Decimal(g) + [';'] + Decimal(b) + ['m']
  }

  function Render(c: Command): Bytes {
    match c
    case Goto(row, col) => [ESC, '['] + Decimal(row) + [';'] + Decimal(col) + ['H']
    case Fore(r, g, b) => [ESC, '[', '3', '8', ';', '2', ';'] + Triple(r, g, b)
    case Back(r, g, b) => [ESC, '[', '4', '8', ';', '2', ';'] + Triple(r, g, b)
    case Put(ch) => [ch]
  }

  method AppendTriple(out: Bytes, r: nat, g: nat, b: nat) returns (longer: Bytes)
    requires r < 256 && g < 256 && b < 256
    ensures longer == out + Triple(r, g, b)
  {
    longer := AppendDecimal(out, r);
    longer := AppendDecimal(longer + [';'], g);
    longer := AppendDecimal(longer + [';'], b);
    longer := longer + ['m'];
  }

  method AppendColor(out: Bytes, isForeground: bool, r: nat, g: nat, b: nat) returns (longer: Bytes)
    requires r < 256 && g < 256 && b < 256
    ensures longer == out + Render(if isForeground then Fore(r, g, b) else Back(r, g, b))
  {
    if isForeground {
      longer := AppendTriple(out + [ESC, '[', '3', '8', ';', '2', ';'], r, g, b);
    } else {
      longer := AppendTriple(out + [ESC, '[', '4', '8', ';', '2', ';'], r, g, b);
    }
  }

  method AppendCup(out: Bytes, x: nat, y: nat) returns (longer: Bytes)
    requires x < U32_SIZE && y < U32_SIZE
    ensures longer == out + Render(Goto(y, x))
  {
    var p := [ESC, '['];
    longer := AppendDecimal(out + p, y);
    longer := AppendDecimal(longer + [';'], x);
    longer := longer + ['H'];
    Associative(out, p, Decimal(y));
    Associative(out, p + Decimal(y), [';']);
    Associative(out, p + Decimal(y) + [';'], Decimal(x));
    Associative(out, p + Decimal(y) + [';'] + Decimal(x), ['H']);
  }

  // ----- frames -----

  /** Thirty-two-bit sums wrap around, as in a release build. */
  function Wrap(n: nat): nat {
    n % U32_SIZE
  }

  function Foreground(frame: nat, y: nat, x: nat): (c: Command)
    ensures c.Fore? && c.r < 256 && c.g < 256 && c.b < 256
  {
    Fore(frame % 256, Wrap(frame + y) % 256, Wrap(frame + y + x) % 256)
  }

  function Background(frame: nat, y: nat, x: nat): (c: Command)
    ensures c.Back? && c.r < 256 && c.g < 256 && c.b < 256
  {
    Back(Wrap(frame + y + x) % 256, Wrap(frame + y) % 256, frame % 256)
  }

  function CellChar(frame: nat, y: nat, x: nat): char {
    ('a' as int + Wrap(frame + x + y) % 25) as char
  }

  function CellBytes(variant: Variant, frame: nat, y: nat, x: nat): Bytes {
    (if variant.FGBGPerChar? then Render(Background(frame, y, x)) else [])
    + Render(Foreground(frame, y, x)) + [CellChar(frame, y, x)]
  }

  /** The cursor is placed once, then the cells follow from the left. */
  function RowBytes(variant: Variant, frame: nat, y: nat, cols: nat): Bytes {
    if cols == 0 then Render(Goto(1 + y, 1))
    else RowBytes(variant, frame, y, cols - 1) + CellBytes(variant, frame, y, cols - 1)
  }

  function WholeRow(variant: Variant, frame: nat, y: nat): Bytes {
    RowBytes(variant, frame, y, LAST_COL + 1)
  }

  function FrameBytes(variant: Variant, frame: nat, rows: nat): Bytes {
    if rows == 0 then []
    else
      FrameBytes(variant, frame, rows - 1) + WholeRow(variant, frame, rows - 1)
  }

  function Frame(variant: Variant, frame: nat): Bytes {
    FrameBytes(variant, frame, LAST_ROW + 1)
  }

  method AppendCell(out: Bytes, variant: Variant, frame: nat, y: nat, x: nat) returns (longer: Bytes)
    ensures longer == out + CellBytes(variant, frame, y, x)
  {
    longer := out;
    var fore := Foreground(frame, y, x);
    ghost var first: Bytes := [];
    if variant.FGBGPerChar? {
      var back := Background(frame, y, x);
      longer := AppendColor(longer, false, back.r, back.g, back.b);
      first := Render(back);
    }
    longer := AppendColor(longer, true, fore.r, fore.g, fore.b);
    longer := longer + [CellChar(frame, y, x)];
    Associative(out, first, Render(fore));
    Associative(out, first + Render(fore), [CellChar(frame, y, x)]);
  }

  lemma {:induction false} CellAdded(variant: Variant, frame: nat, y: nat, x: nat)
    ensures RowBytes(variant, frame, y, x + 1) == RowBytes(variant, frame, y, x) + CellBytes(variant, frame, y, x)
  {
  }

  lemma {:induction false} OutGrowsByCell(out: Bytes, variant: Variant, frame: nat, y: nat, x: nat, next: nat)
    requires next == x + 1
    ensures (out + RowBytes(variant, frame, y, x)) + CellBytes(variant, frame, y, x) == out + RowBytes(variant, frame, y, next)
  {
    CellAdded(variant, frame, y, x);
    Associative(out, RowBytes(variant, frame, y, x), CellBytes(variant, frame, y, x));
  }

  method AppendRow(out: Bytes, variant: Variant, frame: nat, y: nat) returns (longer: Bytes)
    requires y <= LAST_ROW
    ensures longer == out + WholeRow(variant, frame, y)
  {
    longer := AppendCup(out, 1, 1 + y);
    var x: nat := 0;
    while x < LAST_COL + 1
      invariant x <= LAST_COL + 1 && longer == out + RowBytes(variant, frame, y, x)
    {
      var next := x + 1;
      OutGrowsByCell(out, variant, frame, y, x, next);
      longer := AppendCell(longer, variant, frame, y, x);
      x := next;
    }
  }

  lemma {:induction false} RowAdded(variant: Variant, frame: nat, y: nat)
    ensures FrameBytes(variant, frame, y + 1) == FrameBytes(variant, frame, y) + WholeRow(variant, frame, y)
  {
  }

  lemma {:induction false} OutGrowsByRow(out: Bytes, variant: Variant, frame: nat, y: nat, next: nat)
    requires next == y + 1
    ensures (out + FrameBytes(variant, frame, y)) + WholeRow(variant, frame, y) == out + FrameBytes(variant, frame, next)
  {
    RowAdded(variant, frame, y);
    Associative(out, FrameBytes(variant, frame, y), WholeRow(variant, frame, y));
  }

  method AppendFrame(out: Bytes, variant: Variant, frame: nat) returns (longer: Bytes)
    ensures longer == out + Frame(variant, frame)
  {
    longer := out;
    var y: nat := 0;
    while y < LAST_ROW + 1
      invariant y <= LAST_ROW + 1 && longer == out + FrameBytes(variant, frame, y)
    {
      var next := y + 1;
      OutGrowsByRow(out, variant, frame, y, next);
      longer := AppendRow(longer, variant, frame, y);
      y := next;
    }
  }

  /** The frame buffer is cleared and filled again. */
  method FillFrame(variant: Variant, frame: nat) returns (buf: Bytes)
    ensures buf == Frame(variant, frame)
  {
    buf := AppendFrame([], variant, frame);
    assert [] + Frame(variant, frame) == Frame(variant, frame);
  }

  // ----- the whole payload -----

  /** The frames `a .. b` in order. */
  function Frames(variant: Variant, a: nat, b: nat): Bytes
    requires a <= b
    decreases b - a
  {
    if a == b then [] else Frame(variant, a) + Frames(variant, a + 1, b)
  }

  lemma {:induction false} FramesCons(variant: Variant, a: nat, next: nat, b: nat)
    requires next == a + 1 <= b
    ensures Frames(variant, a, b) == Frame(variant, a) + Frames(variant, next, b)
  {
  }

  lemma {:induction false} FramesSnoc(variant: Variant, a: nat, b: nat, next: nat)
    requires a <= b && next == b + 1
    ensures Frames(variant, a, next) == Frames(variant, a, b) + Frame(variant, b)
    decreases b - a
  {
    FramesCons(variant, a, a + 1, next);
    if a < b {
      FramesCons(variant, a, a + 1, b);
      FramesSnoc(variant, a + 1, b, next);
      Associative(Frame(variant, a), Frames(variant, a + 1, b), Frame(variant, b));
    } else {
      var none := Frames(variant, next, next);
      assert none == [] && Frame(variant, b) + none == none + Frame(variant, b);
    }
  }

  method TotalBytes(variant: Variant, frames: nat) returns (n: nat)
    ensures n == |Frames(variant, 0, frames)|
  {
    n := 0;
    for f := 0 to frames
      invariant n == |Frames(variant, 0, f)|
    {
      var buf := FillFrame(variant, f);
      n := n + |buf|;
      FramesSnoc(variant, 0, f, f + 1);
    }
  }

  /** One buffered stretch of a frame: the bytes hashed so far and the buffer together are
      always the payload up to the current position. */
  method StreamFrame<H>(frameBuf: Bytes, chunk0: Bytes, chunkBytes: nat, step: (H, char) -> H, hash0: H, total0: nat,
                        h0: H, ghost done0: Bytes) returns (h: H, total: nat, chunk: Bytes, ghost done: Bytes)
    requires |chunk0| < chunkBytes && hash0 == Fold(step, h0, done0) && total0 == |done0|
    ensures |chunk| < chunkBytes && h == Fold(step, h0, done) && total == |done|
    ensures done + chunk == (done0 + chunk0) + frameBuf
  {
    h, total, chunk, done := hash0, total0, chunk0, done0;
    var pos: nat := 0;
    while pos < |frameBuf|
      invariant pos <= |frameBuf| && |chunk| < chunkBytes
      invariant h == Fold(step, h0, done) && total == |done|
      invariant done + chunk == (done0 + chunk0) + frameBuf[..pos]
    {
      var space := chunkBytes - |chunk|;
      var take := if |frameBuf| - pos <= space then |frameBuf| - pos else space;
      var next := pos + take;
      Associative(done0 + chunk0, frameBuf[..pos], frameBuf[pos..next]);
      Associative(done, chunk, frameBuf[pos..next]);
      assert frameBuf[..pos] + frameBuf[pos..next] == frameBuf[..next];
      chunk := chunk + frameBuf[pos..next];
      pos := next;
      if |chunk| == chunkBytes {
        FoldAppends(step, h0, done, chunk);
        h := Update(step, h, chunk);
        total := total + |chunk|;
        done := done + chunk;
        chunk := [];
      }
    }
    assert frameBuf[..pos] == frameBuf;
  }

  /** The hash and the byte count of the payload, through a buffer of any size. */
  method StreamingIdentity<H>(variant: Variant, frames: nat, chunkBytes: nat, step: (H, char) -> H, h0: H)
    returns (h: H, total: nat)
    requires chunkBytes > 0
    ensures h == Fold(step, h0, Frames(variant, 0, frames))
    ensures total == |Frames(variant, 0, frames)|
  {
    h, total := h0, 0;
    var chunk: Bytes := [];
    ghost var done: Bytes := [];
    for f := 0 to frames
      invariant |chunk| < chunkBytes && h == Fold(step, h0, done) && total == |done|
      invariant done + chunk == Frames(variant, 0, f)
    {
      var frameBuf := FillFrame(variant, f);
      FramesSnoc(variant, 0, f, f + 1);
      h, total, chunk, done := StreamFrame(frameBuf, chunk, chunkBytes, step, h, total, h0, done);
    }
    FoldAppends(step, h0, done, chunk);
    h := Update(step, h, chunk);
    total := total + |chunk|;
  }
}
