/** What a terminal reads back from the bytes of a frame. */
module FrameDecoding {
  import opened Basics
  import opened Termbench

  // ----- decimals -----

  predicate IsDigit(c: char) {
    '0' <= c <= '9'
  }

  function DigitOf(c: char): nat {
    if IsDigit(c) then c as int - '0' as int else 0
  }

  function ValueOf(s: Bytes): nat {
    if s == [] then 0 else 10 * ValueOf(s[..|s| - 1]) + DigitOf(s[|s| - 1])
  }

  ghost predicate AllDigits(s: Bytes) {
    forall i :: 0 <= i < |s| ==> IsDigit(s[i])
  }

  lemma {:induction false} DigitsReadBack(v: nat)
    ensures AllDigits(Digits(v)) && ValueOf(Digits(v)) == v
    ensures v > 0 ==> Digits(v) != [] && Digits(v)[0] != '0'
  {
    if v > 0 {
      DigitsReadBack(v / 10);
      assert Digits(v)[..|Digits(v)| - 1] == Digits(v / 10);
    }
  }

  lemma {:induction false} DigitsOfSum(q: nat, d: nat, v: nat)
    requires d < 10 && v == 10 * q + d && v > 0
    ensures Digits(v) == Digits(q) + [Digit(d)]
  {
    assert v / 10 == q && v % 10 == d;
  }

  lemma {:induction false} NumeralIsDigits(s: Bytes)
    requires AllDigits(s) && s != [] && s[0] != '0'
    ensures s == Digits(ValueOf(s)) && ValueOf(s) > 0
    decreases |s|
  {
    var front, d := s[..|s| - 1], DigitOf(s[|s| - 1]);
    assert s == front + [Digit(d)];
    if front != [] {
      NumeralIsDigits(front);
    }
    DigitsOfSum(ValueOf(front), d, ValueOf(s));
  }

  /** The decimal form of a value is the one digit string of that value without a leading zero. */
  lemma {:induction false} DecimalIsMinimal(s: Bytes, v: nat)
    requires AllDigits(s)
    ensures s == Decimal(v) <==> s != [] && ValueOf(s) == v && (|s| > 1 ==> s[0] != '0')
  {
    DigitsReadBack(v);
    if s != [] && s[0] != '0' {
      NumeralIsDigits(s);
    } else if |s| == 1 {
      assert s == ['0'] && s[..0] == [];
    }
  }

  // ----- reading commands -----

  /** The length of the run of digits at the front. */
  function DigitRun(s: Bytes): (n: nat)
    ensures n <= |s|
  {
    if s != [] && IsDigit(s[0]) then 1 + DigitRun(s[1..]) else 0
  }

  datatype Fields = Fields(values: seq<nat>, final: char, rest: Bytes)

  /** The decimal fields of a control sequence up to its final letter. */
  function ReadFields(s: Bytes): (r: Option<Fields>)
    ensures r.Some? ==> |r.value.rest| < |s|
    decreases |s|
  {
    var n := DigitRun(s);
    if n == 0 || n == |s| then None
    else if s[n] == ';' then
      var later := ReadFields(s[n + 1..]);
      if later.None? then None
      else Some(Fields([ValueOf(s[..n])] + later.value.values, later.value.final, later.value.rest))
    else Some(Fields([ValueOf(s[..n])], s[n], s[n + 1..]))
  }

  function CommandOf(values: seq<nat>, final: char): Option<Command> {
    if final == 'H' && |values| == 2 then Some(Goto(values[0], values[1]))
    else if final == 'm' && |values| == 5 && values[1] == 2 && values[0] == 38 then Some(Fore(values[2], values[3], values[4]))
    else if final == 'm' && |values| == 5 && values[1] == 2 && values[0] == 48 then Some(Back(values[2], values[3], values[4]))
    else None
  }

  datatype Read = Read(command: Command, rest: Bytes)

  function ReadCommand(s: Bytes): (r: Option<Read>)
    requires s != []
    ensures r.Some? ==> |r.value.rest| < |s|
  {
    if s[0] != ESC then Some(Read(Put(s[0]), s[1..]))
    else if |s| == 1 || s[1] != '[' then None
    else
      var fields := ReadFields(s[2..]);
      if fields.None? then None
      else
        var command := CommandOf(fields.value.values, fields.value.final);
        if command.None? then None else Some(Read(command.value, fields.value.rest))
  }

  function ReadAll(s: Bytes): Option<seq<Command>>
    decreases |s|
  {
    if s == [] then Some([])
    else
      var first := ReadCommand(s);
      if first.None? then None
      else
        var later := ReadAll(first.value.rest);
        if later.None? then None else Some([first.value.command] + later.value)
  }

  // ----- what was written is read back -----

  function FieldText(values: seq<nat>, final: char): Bytes
    requires values != []
  {
    if |values| == 1 then Decimal(values[0]) + [final]
    else Decimal(values[0]) + [';'] + FieldText(values[1..], final)
  }

  lemma {:induction false} RunEnds(digits: Bytes, rest: Bytes)
    requires AllDigits(digits) && rest != [] && !IsDigit(rest[0])
    ensures DigitRun(digits + rest) == |digits|
  {
    if digits == [] {
      assert digits + rest == rest;
    } else {
      assert (digits + rest)[1..] == digits[1..] + rest;
      RunEnds(digits[1..], rest);
    }
  }

  lemma {:induction false} DecimalRuns(v: nat, rest: Bytes)
    requires rest != [] && !IsDigit(rest[0])
    ensures DigitRun(Decimal(v) + rest) == |Decimal(v)| > 0
    ensures (Decimal(v) + rest)[..|Decimal(v)|] == Decimal(v) && ValueOf(Decimal(v)) == v
    ensures (Decimal(v) + rest)[|Decimal(v)|..] == rest
  {
    DigitsReadBack(v);
    assert v == 0 ==> ['0'][..0] == [];
    RunEnds(Decimal(v), rest);
  }

  lemma {:induction false} OneField(v: nat, sep: char, rest: Bytes, s: Bytes)
    requires s == Decimal(v) + [sep] + rest && !IsDigit(sep)
    ensures DigitRun(s) == |Decimal(v)| > 0 && |Decimal(v)| < |s|
    ensures ValueOf(s[..|Decimal(v)|]) == v && s[|Decimal(v)|] == sep && s[|Decimal(v)| + 1..] == rest
  {
    var d := Decimal(v);
    assert s == d + ([sep] + rest);
    DecimalRuns(v, [sep] + rest);
    assert s[..|d|] == d;
  }

  lemma {:induction false} FieldsReadBack(values: seq<nat>, final: char, rest: Bytes)
    requires values != [] && !IsDigit(final) && final != ';'
    ensures ReadFields(FieldText(values, final) + rest) == Some(Fields(values, final, rest))
  {
    var s := FieldText(values, final) + rest;
    if |values| == 1 {
      OneField(values[0], final, rest, s);
      assert values == [values[0]];
    } else {
      var tail := FieldText(values[1..], final) + rest;
      assert s == Decimal(values[0]) + [';'] + tail;
      OneField(values[0], ';', tail, s);
      FieldsReadBack(values[1..], final, rest);
      assert values == [values[0]] + values[1..];
    }
  }

  // ----- whole frames -----

  function FieldsOf(c: Command): seq<nat>
    requires !c.Put?
  {
    match c
    case Goto(row, col) => [row, col]
    case Fore(r, g, b) => [38, 2, r, g, b]
    case Back(r, g, b) => [48, 2, r, g, b]
  }

  function FinalOf(c: Command): char {
    if c.Goto? then 'H' else 'm'
  }

  lemma {:induction false} SmallDecimals()
    ensures Decimal(2) == ['2'] && Decimal(38) == ['3', '8'] && Decimal(48) == ['4', '8']
  {
    assert Digits(3) == Digits(0) + ['3'] && Digits(4) == Digits(0) + ['4'] && Digits(2) == Digits(0) + ['2'];
  }

  lemma {:induction false} TwoFields(a: nat, b: nat, final: char)
    ensures FieldText([a, b], final) == Decimal(a) + [';'] + (Decimal(b) + [final])
  {
    assert [a, b][1..] == [b];
  }

  lemma {:induction false} ThreeFields(a: nat, b: nat, c: nat, final: char)
    ensures FieldText([a, b, c], final) == Decimal(a) + [';'] + (Decimal(b) + [';'] + (Decimal(c) + [final]))
  {
    assert [a, b, c][1..] == [b, c];
    TwoFields(b, c, final);
  }

  lemma {:induction false} FiveFields(a: nat, b: nat, c: nat, d: nat, e: nat, final: char)
    ensures FieldText([a, b, c, d, e], final)
         == Decimal(a) + [';'] + (Decimal(b) + [';'] + FieldText([c, d, e], final))
  {
    assert [a, b, c, d, e][1..] == [b, c, d, e];
    assert [b, c, d, e][1..] == [c, d, e];
  }

  lemma {:induction false} FlatTriple(a: Bytes, b: Bytes, c: Bytes, s: Bytes, m: Bytes)
    ensures a + s + (b + s + (c + m)) == a + s + b + s + c + m
  {
    var x := a + s;
    Associative(x, b + s, c + m);
    Associative(x, b, s);
    Associative(x + b + s, c, m);
  }

  lemma {:induction false} ColorPrefix(lead: char, t: Bytes)
    ensures [ESC, '['] + ([lead, '8'] + [';'] + (['2'] + [';'] + t)) == [ESC, '[', lead, '8', ';', '2', ';'] + t
  {
    var p, q := [lead, '8'] + [';'], ['2'] + [';'];
    assert p == [lead, '8', ';'] && q == ['2', ';'];
    Associative(p, q, t);
    Associative([ESC, '['], p + q, t);
    assert [ESC, '['] + (p + q) == [ESC, '[', lead, '8', ';', '2', ';'];
  }

  lemma {:induction false} TripleIsFields(r: nat, g: nat, b: nat)
    ensures Triple(r, g, b) == FieldText([r, g, b], 'm')
  {
    ThreeFields(r, g, b, 'm');
    FlatTriple(Decimal(r), Decimal(g), Decimal(b), [';'], ['m']);
  }

  /** The literal prefixes of the colour sequences are fields like any other. */
  lemma {:induction false} RenderIsFields(c: Command)
    requires !c.Put?
    ensures Render(c) == [ESC, '['] + FieldText(FieldsOf(c), FinalOf(c))
  {
    SmallDecimals();
    match c
    case Goto(row, col) =>
      TwoFields(row, col, 'H');
      Associative([ESC, '['], Decimal(row), [';']);
      Associative([ESC, '['], Decimal(row) + [';'], Decimal(col) + ['H']);
      Associative([ESC, '['] + Decimal(row) + [';'], Decimal(col), ['H']);
    case Fore(r, g, b) =>
      TripleIsFields(r, g, b);
      FiveFields(38, 2, r, g, b, 'm');
      ColorPrefix('3', Triple(r, g, b));
    case Back(r, g, b) =>
      TripleIsFields(r, g, b);
      FiveFields(48, 2, r, g, b, 'm');
      ColorPrefix('4', Triple(r, g, b));
  }

  lemma {:induction false} FieldsNameCommand(c: Command)
    requires !c.Put?
    ensures CommandOf(FieldsOf(c), FinalOf(c)) == Some(c)
  {
  }

  lemma {:induction false} SequenceReadsBack(c: Command, text: Bytes, rest: Bytes, s: Bytes)
    requires !c.Put? && text == FieldText(FieldsOf(c), FinalOf(c)) && s == [ESC, '['] + (text + rest)
    ensures ReadCommand(s) == Some(Read(c, rest))
  {
    var values, final := FieldsOf(c), FinalOf(c);
    FieldsNameCommand(c);
    FieldsReadBack(values, final, rest);
    assert s[2..] == text + rest;
  }

  lemma {:induction false} CommandReadsBack(c: Command, rest: Bytes)
    requires c.Put? ==> c.ch != ESC
    ensures Render(c) + rest != [] && ReadCommand(Render(c) + rest) == Some(Read(c, rest))
  {
    var s := Render(c) + rest;
    if c.Put? {
      assert s[1..] == rest;
    } else {
      var text := FieldText(FieldsOf(c), FinalOf(c));
      RenderIsFields(c);
      Associative([ESC, '['], text, rest);
      SequenceReadsBack(c, text, rest, s);
    }
  }

  function Written(cs: seq<Command>): Bytes {
    if cs == [] then [] else Render(cs[0]) + Written(cs[1..])
  }

  /** Any list of commands is read back from its bytes: the variable-width numbers delimit themselves. */
  lemma {:induction false} CommandsReadBack(cs: seq<Command>)
    requires forall i :: 0 <= i < |cs| && cs[i].Put? ==> cs[i].ch != ESC
    ensures ReadAll(Written(cs)) == Some(cs)
  {
    if cs != [] {
      var first, rest := cs[0], cs[1..];
      assert cs == [first] + rest;
      CommandReadsBack(first, Written(rest));
      CommandsReadBack(rest);
    }
  }

  // ----- what a frame shows -----

  function CellCommands(variant: Variant, frame: nat, y: nat, x: nat): seq<Command> {
    (if variant.FGBGPerChar? then [Background(frame, y, x)] else [])
    + [Foreground(frame, y, x)] + [Put(CellChar(frame, y, x))]
  }

  function RowCommands(variant: Variant, frame: nat, y: nat, cols: nat): seq<Command> {
    if cols == 0 then [Goto(1 + y, 1)]
    else RowCommands(variant, frame, y, cols - 1) + CellCommands(variant, frame, y, cols - 1)
  }

  function FrameCommands(variant: Variant, frame: nat, rows: nat): seq<Command> {
    if rows == 0 then []
    else FrameCommands(variant, frame, rows - 1) + RowCommands(variant, frame, rows - 1, LAST_COL + 1)
  }

  lemma {:induction false} WrittenJoins(a: seq<Command>, b: seq<Command>)
    ensures Written(a + b) == Written(a) + Written(b)
    decreases |a|
  {
    if a == [] {
      assert a + b == b && [] + Written(b) == Written(b);
    } else {
      assert (a + b)[1..] == a[1..] + b;
      WrittenJoins(a[1..], b);
      Associative(Render(a[0]), Written(a[1..]), Written(b));
    }
  }

  lemma {:induction false} WrittenOne(c: Command)
    ensures Written([c]) == Render(c)
  {
    assert Render(c) + [] == Render(c);
  }

  lemma {:induction false} CellIsWritten(variant: Variant, frame: nat, y: nat, x: nat)
    ensures Written(CellCommands(variant, frame, y, x)) == CellBytes(variant, frame, y, x)
  {
    var back := if variant.FGBGPerChar? then [Background(frame, y, x)] else [];
    var fore, put := Foreground(frame, y, x), Put(CellChar(frame, y, x));
    WrittenOne(Background(frame, y, x));
    WrittenOne(fore);
    WrittenOne(put);
    WrittenJoins(back, [fore]);
    WrittenJoins(back + [fore], [put]);
  }

  lemma {:induction false} RowCommandsGrow(variant: Variant, frame: nat, y: nat, x: nat)
    ensures RowCommands(variant, frame, y, x + 1) == RowCommands(variant, frame, y, x) + CellCommands(variant, frame, y, x)
  {
  }

  lemma {:induction false} FrameCommandsGrow(variant: Variant, frame: nat, y: nat)
    ensures FrameCommands(variant, frame, y + 1)
         == FrameCommands(variant, frame, y) + RowCommands(variant, frame, y, LAST_COL + 1)
  {
  }

  lemma {:induction false} RowIsWritten(variant: Variant, frame: nat, y: nat, cols: nat)
    ensures Written(RowCommands(variant, frame, y, cols)) == RowBytes(variant, frame, y, cols)
  {
    if cols == 0 {
      WrittenOne(Goto(1 + y, 1));
    } else {
      var x := cols - 1;
      RowIsWritten(variant, frame, y, x);
      CellIsWritten(variant, frame, y, x);
      RowCommandsGrow(variant, frame, y, x);
      CellAdded(variant, frame, y, x);
      WrittenJoins(RowCommands(variant, frame, y, x), CellCommands(variant, frame, y, x));
    }
  }

  lemma {:induction false} RowsAreWritten(variant: Variant, frame: nat, rows: nat)
    ensures Written(FrameCommands(variant, frame, rows)) == FrameBytes(variant, frame, rows)
  {
    if rows > 0 {
      var y := rows - 1;
      RowsAreWritten(variant, frame, y);
      RowIsWritten(variant, frame, y, LAST_COL + 1);
      FrameCommandsGrow(variant, frame, y);
      RowAdded(variant, frame, y);
      WrittenJoins(FrameCommands(variant, frame, y), RowCommands(variant, frame, y, LAST_COL + 1));
    }
  }

  ghost predicate NoEscapeIsPut(cs: seq<Command>) {
    forall c :: c in cs && c.Put? ==> c.ch != ESC
  }

  lemma {:induction false} CellPutsLetters(variant: Variant, frame: nat, y: nat, x: nat)
    ensures NoEscapeIsPut(CellCommands(variant, frame, y, x))
  {
  }

  lemma {:induction false} RowPutsLetters(variant: Variant, frame: nat, y: nat, cols: nat)
    ensures NoEscapeIsPut(RowCommands(variant, frame, y, cols))
  {
    if cols > 0 {
      RowPutsLetters(variant, frame, y, cols - 1);
      CellPutsLetters(variant, frame, y, cols - 1);
    }
  }

  lemma {:induction false} FramePutsLetters(variant: Variant, frame: nat, rows: nat)
    ensures NoEscapeIsPut(FrameCommands(variant, frame, rows))
  {
    if rows > 0 {
      FramePutsLetters(variant, frame, rows - 1);
      RowPutsLetters(variant, frame, rows - 1, LAST_COL + 1);
    }
  }

  // ----- the screen -----

  datatype Painted = Painted(ch: char, fore: Option<Command>, back: Option<Command>)

  /** Rows and columns are the one-based ones of the cursor sequence; the screen does not wrap. */
  datatype Screen = Screen(row: nat, col: nat, fore: Option<Command>, back: Option<Command>, cells: map<(nat, nat), Painted>)

  function Obey(s: Screen, c: Command): Screen {
    match c
    case Goto(row, col) => s.(row := row, col := col)
    case Fore(_, _, _) => s.(fore := Some(c))
    case Back(_, _, _) => s.(back := Some(c))
    case Put(ch) => s.(col := s.col + 1, cells := s.cells[(s.row, s.col) := Painted(ch, s.fore, s.back)])
  }

  function ObeyAll(s: Screen, cs: seq<Command>): Screen
    decreases |cs|
  {
    if cs == [] then s else ObeyAll(Obey(s, cs[0]), cs[1..])
  }

  lemma {:induction false} ObeyJoins(s: Screen, a: seq<Command>, b: seq<Command>)
    ensures ObeyAll(s, a + b) == ObeyAll(ObeyAll(s, a), b)
    decreases |a|
  {
    if a == [] {
      assert a + b == b;
    } else {
      assert (a + b)[1..] == a[1..] + b;
      ObeyJoins(Obey(s, a[0]), a[1..], b);
    }
  }

  /** What the frame must show at column `x` of row `y`, in plain numbers. Sums of coordinates have
      thirty-two bits, which only the letter can tell. */
  function Expected(variant: Variant, frame: nat, y: nat, x: nat, back: Option<Command>): Painted {
    Painted(('a' as int + (frame + x + y) % 0x1_0000_0000 % 25) as char,
            Some(Fore(frame % 256, (frame + y) % 256, (frame + y + x) % 256)),
            if variant == FGBGPerChar then Some(Back((frame + y + x) % 256, (frame + y) % 256, frame % 256)) else back)
  }

  lemma {:induction false} WrapKeepsByte(n: nat)
    ensures Wrap(n) % 256 == n % 256
  {
    assert n == 256 * (0x100_0000 * (n / U32_SIZE)) + Wrap(n);
  }

  lemma {:induction false} ExpectedIs(variant: Variant, frame: nat, y: nat, x: nat, back: Option<Command>)
    ensures Expected(variant, frame, y, x, back) ==
            Painted(CellChar(frame, y, x), Some(Foreground(frame, y, x)),
                    if variant.FGBGPerChar? then Some(Background(frame, y, x)) else back)
  {
    WrapKeepsByte(frame + y);
    WrapKeepsByte(frame + y + x);
  }

  lemma {:induction false} ObeyCell(s: Screen, variant: Variant, frame: nat, y: nat, x: nat)
    ensures var t := ObeyAll(s, CellCommands(variant, frame, y, x));
            && t.row == s.row && t.col == s.col + 1 && (variant.FGPerChar? ==> t.back == s.back)
            && t.cells == s.cells[(s.row, s.col) := Expected(variant, frame, y, x, s.back)]
  {
    var back := if variant.FGBGPerChar? then [Background(frame, y, x)] else [];
    var fore, put := Foreground(frame, y, x), Put(CellChar(frame, y, x));
    ObeyJoins(s, back + [fore], [put]);
    ObeyJoins(s, back, [fore]);
    ExpectedIs(variant, frame, y, x, s.back);
  }

  function At(y: nat, x: nat): (nat, nat) {
    (1 + y, 1 + x)
  }

  ghost predicate CellShown(t: Screen, variant: Variant, frame: nat, y: nat, x: nat, back: Option<Command>) {
    At(y, x) in t.cells && t.cells[At(y, x)] == Expected(variant, frame, y, x, back)
  }

  /** A cell of the screen is as it was. */
  ghost predicate SameAt(s: Screen, t: Screen, pos: (nat, nat)) {
    (pos in t.cells <==> pos in s.cells) && (pos in s.cells ==> t.cells[pos] == s.cells[pos])
  }

  /** The first `cols` cells of row `y` as expected, and all other cells as they were. */
  ghost predicate RowShown(s: Screen, t: Screen, variant: Variant, frame: nat, y: nat, cols: nat) {
    && t.row == 1 + y && t.col == 1 + cols && (variant.FGPerChar? ==> t.back == s.back)
    && (forall x: nat :: x < cols ==> CellShown(t, variant, frame, y, x, s.back))
    && (forall pos: (nat, nat) :: !(pos.0 == 1 + y && 1 <= pos.1 <= cols) ==> SameAt(s, t, pos))
  }

  lemma {:induction false} RowGrows(s: Screen, t: Screen, u: Screen, variant: Variant, frame: nat, y: nat, x: nat, cols: nat)
    requires RowShown(s, t, variant, frame, y, x) && cols == x + 1
    requires u.row == t.row && u.col == t.col + 1 && (variant.FGPerChar? ==> u.back == t.back)
    requires u.cells == t.cells[At(y, x) := Expected(variant, frame, y, x, t.back)]
    ensures RowShown(s, u, variant, frame, y, cols)
  {
    forall i: nat | i < cols ensures CellShown(u, variant, frame, y, i, s.back) {
      if i < x {
        assert CellShown(t, variant, frame, y, i, s.back);
      }
    }
    forall pos: (nat, nat) | !(pos.0 == 1 + y && 1 <= pos.1 <= cols) ensures SameAt(s, u, pos) {
      assert SameAt(s, t, pos);
    }
  }

  lemma {:induction false} ObeyRow(s: Screen, variant: Variant, frame: nat, y: nat, cols: nat)
    ensures RowShown(s, ObeyAll(s, RowCommands(variant, frame, y, cols)), variant, frame, y, cols)
  {
    if cols > 0 {
      var x := cols - 1;
      var t := ObeyAll(s, RowCommands(variant, frame, y, x));
      ObeyRow(s, variant, frame, y, x);
      RowCommandsGrow(variant, frame, y, x);
      ObeyJoins(s, RowCommands(variant, frame, y, x), CellCommands(variant, frame, y, x));
      ObeyCell(t, variant, frame, y, x);
      RowGrows(s, t, ObeyAll(t, CellCommands(variant, frame, y, x)), variant, frame, y, x, cols);
    }
  }

  /** The first rows of the frame as expected, and all other cells as they were. */
  ghost predicate FrameShown(s: Screen, t: Screen, variant: Variant, frame: nat, rows: nat) {
    && (variant.FGPerChar? ==> t.back == s.back)
    && (forall y: nat, x: nat :: y < rows && x < 81 ==> CellShown(t, variant, frame, y, x, s.back))
    && (forall pos: (nat, nat) :: !(1 <= pos.0 <= rows && 1 <= pos.1 <= 81) ==> SameAt(s, t, pos))
  }

  lemma {:induction false} FrameGrows(s: Screen, t: Screen, u: Screen, variant: Variant, frame: nat, last: nat, rows: nat)
    requires FrameShown(s, t, variant, frame, last) && rows == last + 1
    requires RowShown(t, u, variant, frame, last, LAST_COL + 1)
    ensures FrameShown(s, u, variant, frame, rows)
  {
    forall y: nat, x: nat | y < rows && x < 81 ensures CellShown(u, variant, frame, y, x, s.back) {
      if y < last {
        assert CellShown(t, variant, frame, y, x, s.back);
        assert SameAt(t, u, At(y, x));
      } else {
        assert CellShown(u, variant, frame, last, x, t.back);
      }
    }
    forall pos: (nat, nat) | !(1 <= pos.0 <= rows && 1 <= pos.1 <= 81) ensures SameAt(s, u, pos) {
      assert SameAt(s, t, pos) && SameAt(t, u, pos);
    }
  }

  lemma {:induction false} ObeyFrame(s: Screen, variant: Variant, frame: nat, rows: nat)
    ensures FrameShown(s, ObeyAll(s, FrameCommands(variant, frame, rows)), variant, frame, rows)
  {
    if rows > 0 {
      var y := rows - 1;
      var t := ObeyAll(s, FrameCommands(variant, frame, y));
      var row := RowCommands(variant, frame, y, LAST_COL + 1);
      ObeyFrame(s, variant, frame, y);
      FrameCommandsGrow(variant, frame, y);
      ObeyJoins(s, FrameCommands(variant, frame, y), row);
      ObeyRow(t, variant, frame, y, LAST_COL + 1);
      FrameGrows(s, t, ObeyAll(t, row), variant, frame, y, rows);
    }
  }

  /** A terminal that reads the bytes of a frame shows that frame, whatever it showed before. */
  lemma {:induction false} FrameShows(variant: Variant, frame: nat, s: Screen)
    ensures var commands := ReadAll(Frame(variant, frame));
            commands.Some? && FrameShown(s, ObeyAll(s, commands.value), variant, frame, 25)
  {
    var cs := FrameCommands(variant, frame, LAST_ROW + 1);
    RowsAreWritten(variant, frame, LAST_ROW + 1);
    FramePutsLetters(variant, frame, LAST_ROW + 1);
    CommandsReadBack(cs);
    ObeyFrame(s, variant, frame, LAST_ROW + 1);
  }
}
