/** Layout arithmetic of the hex grid: 16 bytes per line, each hex cell two
    digits and a space, one extra space after the eighth cell, and a line
    feed ending every line of every pane. */
module Grid {
  import opened Common

  const BytesPerLine: nat := 16
  /** The extra space follows cell 7, so it shifts cells 8 to 15. */
  const GapAfter: nat := 8
  /** 3 characters per byte, the mid-line gap and the line feed. */
  const HexLineLength: nat := BytesPerLine * 3 + 1 + 1
  /** 1 character per byte and the line feed. */
  const AsciiLineLength: nat := BytesPerLine + 1

  /** Column of the high digit of slot `byteInLine` within a hex line. */
  function Column(byteInLine: int): int
  {
    byteInLine * 3 + (if byteInLine >= 8 then 1 else 0)
  }

  /** The boundary columns around the gap, and the constants agreeing with
      each other: the last cell ends before the line feed at column 49. */
  lemma LayoutConstants()
    ensures HexLineLength == 50 && AsciiLineLength == 17
    ensures Column(GapAfter - 1) == 21 && Column(GapAfter) == 25
    ensures Column(BytesPerLine - 1) + 2 == HexLineLength - 2
  {
  }

  /** Cells are strictly ordered and never touch: cell `b` ends before cell
      `b + 1` starts. */
  lemma ColumnsIncrease(a: int, b: int)
    requires a < b
    ensures Column(a) + 3 <= Column(b)
  {
  }

  /** Number of lines an `n`-byte buffer occupies: the ceiling of n / 16. */
  function LineCount(n: nat): (lines: nat)
    ensures 16 * lines >= n
    ensures lines > 0 ==> 16 * (lines - 1) < n
  {
    (n + 15) / 16
  }

  /** The hex cell a column of a hex line lies on: its slot and whether it is
      the high digit. Separator columns, the gap (columns 23 and 24), the
      trailing space and the line feed lie on none. */
  function CellAt(col: int): (r: Option<(nat, bool)>)
    ensures r.Some? ==> r.value.0 < 16 && col == Column(r.value.0) + (if r.value.1 then 0 else 1)
    ensures r.None? ==> forall i :: 0 <= i < 16 ==> col != Column(i) && col != Column(i) + 1
  {
    if 0 <= col < 24 && col % 3 != 2 then Some((col / 3, col % 3 == 0))
    else if 25 <= col < 49 && (col - 1) % 3 != 2 then Some(((col - 1) / 3, (col - 1) % 3 == 0))
    else None
  }

  /** `CellAt` inverts the cell-to-column mapping. */
  lemma CellAtCell(b: int, high: bool)
    requires 0 <= b < 16
    ensures CellAt(Column(b) + (if high then 0 else 1)) == Some((b, high))
  {
    var r := CellAt(Column(b) + (if high then 0 else 1));
    if r.Some? {
      CellColumnsDisjoint(b, high, r.value.0, r.value.1);
    }
  }

  /** No column belongs to two cells or to both digits of one cell. */
  lemma CellColumnsDisjoint(i: int, hi: bool, j: int, hj: bool)
    requires 0 <= i < 16 && 0 <= j < 16
    requires Column(i) + (if hi then 0 else 1) == Column(j) + (if hj then 0 else 1)
    ensures i == j && hi == hj
  {
    if i < j {
      ColumnsIncrease(i, j);
    } else if j < i {
      ColumnsIncrease(j, i);
    }
  }

  /** The separator after a cell, and the gap after cell 7, lie on no
      cell. */
  lemma SeparatorNotCell(b: int, o: int)
    requires 0 <= b < 16 && 2 <= o && (o < 3 || (b == 7 && o < 4))
    ensures CellAt(Column(b) + o) == None
  {
    forall b' | 0 <= b' < 16
      ensures Column(b) + o != Column(b') && Column(b) + o != Column(b') + 1
    {
      if b' < b {
        ColumnsIncrease(b', b);
      } else if b + 1 < b' {
        ColumnsIncrease(b + 1, b');
      }
    }
  }

  /** Offset of the high digit of byte `i` in a hex pane of full lines. */
  function HexCellOffset(i: nat): nat
  {
    50 * (i / 16) + Column(i % 16)
  }

  /** Byte `16 k + b` sits in slot `b` of line `k`. */
  lemma HexCellOffsetOf(k: nat, b: nat)
    requires b < 16
    ensures HexCellOffset(16 * k + b) == 50 * k + Column(b)
  {
    assert (16 * k + b) / 16 == k && (16 * k + b) % 16 == b;
  }

  /** Offset of the character of byte `i` in an ASCII pane whose earlier
      lines are full. */
  function AsciiCellOffset(i: nat): nat
  {
    17 * (i / 16) + i % 16
  }
}
