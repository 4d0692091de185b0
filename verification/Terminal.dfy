/** The compact cells and row deltas that the terminal engine hands to its consumers. */
module Terminal {
  import opened Basics

  /** A Unicode scalar, a style index and raw attribute flags: eight bytes in all. */
  datatype Cell = Cell(content: bv32, style: bv16, flags: bv16)

  const WIDE: bv16 := 0x0020
  const WIDE_SPACER: bv16 := 0x0040

  predicate IsWide(c: Cell) {
    c.flags & WIDE != 0
  }

  predicate IsSpacer(c: Cell) {
    c.flags & WIDE_SPACER != 0
  }

  /** The contents that convert to a character: everything but surrogates and out-of-range values. */
  predicate IsScalar(content: bv32) {
    content <= 0x10FFFF && !(0xD800 <= content <= 0xDFFF)
  }

  /** True when a cell contributes a drawable glyph. The change tracker and the
      render cache use the same test. */
  predicate PaintsGlyph(c: Cell) {
    !IsSpacer(c) && IsScalar(c.content) && c.content != 0x20 && c.content != 0
  }

  /** Wide cells and spacers come in pairs: a spacer stands exactly behind each wide cell that
      has a successor, and nowhere else. */
  ghost predicate WellPaired(cells: seq<Cell>) {
    && (forall x :: 0 < x < |cells| ==> (cells[x].flags & 0x40 != 0 <==> cells[x - 1].flags & 0x20 != 0))
    && (cells != [] ==> cells[0].flags & 0x40 == 0)
    && (forall x :: 0 <= x < |cells| ==> cells[x].flags & 0x20 == 0 || cells[x].flags & 0x40 == 0)
  }

  /** One changed visible row. `combining` attaches extra scalars to columns. */
  datatype RowDelta = RowDelta(row: nat, generation: nat, cells: seq<Cell>, combining: seq<(nat, seq<bv32>)>)

  datatype DamageKind = Clean | Partial | Full

  datatype GridSize = GridSize(cols: nat, rows: nat)

  /** The rows `row .. row + rows` that an animation of their own keeps busy. */
  datatype AnimationRegion = AnimationRegion(row: nat, rows: nat)

  /** One frame of terminal output, as far as the effects and the render cache look at it. */
  datatype FrameDelta = FrameDelta(
    sequence: nat, size: GridSize, damage: DamageKind, rows: seq<RowDelta>,
    cursorVisible: bool, cursorBlinking: bool,
    historyRows: nat, alternateScreen: bool, animationRegion: Option<AnimationRegion>)

  /** The first delta for a given row, as a front-to-back search finds it. */
  function FindRow(rows: seq<RowDelta>, row: nat): Option<RowDelta> {
    if rows == [] then None
    else if rows[0].row == row then Some(rows[0])
    else FindRow(rows[1..], row)
  }

  /** No two deltas of a frame describe the same row. */
  ghost predicate DistinctRows(rows: seq<RowDelta>) {
    forall i, j :: 0 <= i < j < |rows| ==> rows[i].row != rows[j].row
  }

  lemma {:induction false} FindRowIsMember(rows: seq<RowDelta>, row: nat)
    ensures FindRow(rows, row).Some? ==> FindRow(rows, row).value in rows && FindRow(rows, row).value.row == row
    ensures FindRow(rows, row).None? ==> forall rd :: rd in rows ==> rd.row != row
  {
    if rows != [] {
      FindRowIsMember(rows[1..], row);
      assert rows == [rows[0]] + rows[1..];
    }
  }

  /** The search finds the delta that stands first. */
  lemma {:induction false} FindRowIsFirst(rows: seq<RowDelta>, row: nat, i: nat)
    requires i < |rows| && rows[i].row == row && forall j :: 0 <= j < i ==> rows[j].row != row
    ensures FindRow(rows, row) == Some(rows[i])
  {
    if i > 0 {
      FindRowIsFirst(rows[1..], row, i - 1);
    }
  }

  /** With distinct rows that is the delta wherever it stands. */
  lemma {:induction false} FindRowFinds(rows: seq<RowDelta>, rd: RowDelta)
    requires DistinctRows(rows) && rd in rows
    ensures FindRow(rows, rd.row) == Some(rd)
  {
    FindRowIsMember(rows, rd.row);
  }
}
