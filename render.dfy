/** What `displayHexData` writes into the three panes, as functions of the
    buffer, and the properties of that text: its line structure, where each
    byte's cells are, that the single-byte patch agrees with a full render,
    and that the hex pane parses back to the buffer. */
module Render {
  import opened Common
  import opened HexUtils
  import opened Grid

  function Min(a: int, b: int): int { if a < b then a else b }

  // ------------------------------------------------------------ characters

  /** The two digits `%02X` writes for a byte. */
  function HexByte(b: Byte): (s: string)
    ensures |s| == 2 && IsHexChar(s[0]) && IsHexChar(s[1])
  {
    [UpperDigit(b / 16), UpperDigit(b % 16)]
  }

  /** They are `%02X` of the byte, and read back as the byte. */
  lemma HexByteFormat(b: Byte)
    ensures HexByte(b) == HexDigits(b, 2)
    ensures HexValue(HexByte(b)) == b
  {
    assert HexDigits(b / 16, 1) == [UpperDigit(b / 16)];
    HexDigitsValue(b, 2);
  }

  /** The ASCII pane's character for a byte: itself when printable (32 to
      126), otherwise a dot. */
  function AsciiChar(b: Byte): (c: char)
    ensures 32 <= c as int <= 126
  {
    if 32 <= b <= 126 then b as char else '.'
  }

  /** The byte is shown as itself exactly when it is printable. */
  lemma AsciiCharShowsPrintable(b: Byte)
    ensures AsciiChar(b) as int == b <==> 32 <= b <= 126
  {
  }

  // ------------------------------------------------------------- hex pane

  /** Byte `i` of the buffer, or nothing past its end. */
  function ByteAt(d: seq<Byte>, i: nat): Option<Byte>
  {
    if i < |d| then Some(d[i]) else None
  }

  /** Cell `j` of a hex line showing `cell`: `%02X ` of the byte, or three
      spaces past the end of the buffer, then the extra gap space after
      cell 7. */
  function HexCell(cell: Option<Byte>, j: nat): (s: string)
    ensures |s| == if j == 7 then 4 else 3
  {
    (match cell
     case Some(b) => HexByte(b) + " "
     case None => "   ")
    + (if j == 7 then " " else "")
  }

  /** The first `j` cells of the hex line whose first byte is `start`. */
  function HexCells(d: seq<Byte>, start: nat, j: nat): (r: string)
    ensures |r| == Column(j)
  {
    if j == 0 then [] else HexCells(d, start, j - 1) + HexCell(ByteAt(d, start + j - 1), j - 1)
  }

  /** Line `k` of the hex pane. */
  function HexLine(d: seq<Byte>, k: nat): (r: string)
    ensures |r| == 50
  {
    HexCells(d, 16 * k, 16) + "\n"
  }

  /** The first `n` lines of the hex pane. */
  function HexLines(d: seq<Byte>, n: nat): (r: string)
    ensures |r| == 50 * n
  {
    if n == 0 then [] else HexLines(d, n - 1) + HexLine(d, n - 1)
  }

  /** The whole hex pane. */
  function HexPane(d: seq<Byte>): string
  {
    HexLines(d, LineCount(|d|))
  }

  // ----------------------------------------------------------- ascii pane

  /** The characters of bytes `start` .. `start + j - 1`. */
  function AsciiCells(d: seq<Byte>, start: nat, j: nat): (r: string)
    requires start + j <= |d|
    ensures |r| == j
  {
    if j == 0 then [] else AsciiCells(d, start, j - 1) + [AsciiChar(d[start + j - 1])]
  }

  /** Number of bytes on line `k` of a buffer of `n` bytes. */
  function LineWidth(n: nat, k: nat): nat
    requires 16 * k < n
  {
    Min(16, n - 16 * k)
  }

  /** Line `k` of the ASCII pane: the line's bytes, no padding, a line feed. */
  function AsciiLine(d: seq<Byte>, k: nat): (r: string)
    requires 16 * k < |d|
    ensures |r| == LineWidth(|d|, k) + 1
  {
    AsciiCells(d, 16 * k, LineWidth(|d|, k)) + "\n"
  }

  function AsciiLines(d: seq<Byte>, n: nat): (r: string)
    requires n <= LineCount(|d|)
    ensures |r| == n + Min(16 * n, |d|)
  {
    if n == 0 then [] else AsciiLines(d, n - 1) + AsciiLine(d, n - 1)
  }

  function AsciiPane(d: seq<Byte>): string
  {
    AsciiLines(d, LineCount(|d|))
  }

  // ---------------------------------------------------------- offset pane

  /** `%08X` of the line's first byte index, and a line feed. */
  function OffsetLine(k: nat): string
  {
    HexDigits(16 * k, 8) + "\n"
  }

  function OffsetLines(n: nat): string
  {
    if n == 0 then [] else OffsetLines(n - 1) + OffsetLine(n - 1)
  }

  function OffsetPane(d: seq<Byte>): string
  {
    OffsetLines(LineCount(|d|))
  }

  // ------------------------------------------------------ line structure

  /** The first `m` lines of the hex pane are a prefix of its first `n`. */
  lemma {:induction false} HexLinesPrefix(d: seq<Byte>, n: nat, m: nat)
    requires m <= n
    ensures HexLines(d, n)[..50 * m] == HexLines(d, m)
  {
    if m < n {
      HexLinesPrefix(d, n - 1, m);
      var a := HexLines(d, n - 1);
      assert HexLines(d, n) == a + HexLine(d, n - 1);
      assert (a + HexLine(d, n - 1))[..50 * m] == a[..50 * m];
    }
  }

  /** Line `k` of the hex pane is the 50 characters from offset 50 k. */
  lemma HexLinesLine(d: seq<Byte>, n: nat, k: nat)
    requires k < n
    ensures HexLines(d, n)[50 * k .. 50 * (k + 1)] == HexLine(d, k)
  {
    HexLinesPrefix(d, n, k + 1);
    assert HexLines(d, k + 1) == HexLines(d, k) + HexLine(d, k);
  }

  /** A cell holds digits and spaces only. */
  lemma HexCellNewlines(cell: Option<Byte>, j: nat)
    ensures Newlines(HexCell(cell, j)) == 0
  {
    var c := HexCell(cell, j);
    if cell.Some? {
      var h := HexByte(cell.value);
      assert forall m :: 0 <= m < |c| ==> c[m] == h[0] || c[m] == h[1] || c[m] == ' ';
    }
    NoNewlines(c);
  }

  lemma {:induction false} HexCellsNewlines(d: seq<Byte>, start: nat, j: nat)
    ensures Newlines(HexCells(d, start, j)) == 0
  {
    if j > 0 {
      var a, c := HexCells(d, start, j - 1), HexCell(ByteAt(d, start + j - 1), j - 1);
      assert HexCells(d, start, j) == a + c;
      HexCellsNewlines(d, start, j - 1);
      HexCellNewlines(ByteAt(d, start + j - 1), j - 1);
      NewlinesAppend(a, c);
    }
  }

  /** Every hex-pane line ends in a line feed and holds no other, so the
      pane has one line feed per line. */
  lemma {:induction false} HexLinesNewlines(d: seq<Byte>, n: nat)
    ensures Newlines(HexLines(d, n)) == n
  {
    if n > 0 {
      var a, cells := HexLines(d, n - 1), HexCells(d, 16 * (n - 1), 16);
      assert HexLines(d, n) == a + (cells + "\n");
      HexLinesNewlines(d, n - 1);
      HexCellsNewlines(d, 16 * (n - 1), 16);
      NewlinesAppend(cells, "\n");
      assert Newlines("\n") == 1;
      NewlinesAppend(a, cells + "\n");
    } else {
      assert HexLines(d, n) == [];
    }
  }

  /** Column `c` of a rendered hex line: each slot's two digits, a space
      elsewhere (separators, the gap, padding past the end). */
  function ExpectedHexChar(d: seq<Byte>, start: nat, c: int): char
  {
    match CellAt(c)
    case Some((b, high)) =>
      (match ByteAt(d, start + b)
       case Some(x) => HexByte(x)[if high then 0 else 1]
       case None => ' ')
    case None => ' '
  }

  /** Every column of the first `j` cells is the expected character. */
  lemma {:induction false} HexCellsChar(d: seq<Byte>, start: nat, j: nat, c: nat)
    requires j <= 16 && c < Column(j)
    ensures HexCells(d, start, j)[c] == ExpectedHexChar(d, start, c)
  {
    var b := j - 1;
    var a, cell := HexCells(d, start, b), HexCell(ByteAt(d, start + b), b);
    assert HexCells(d, start, j) == a + cell;
    if c < |a| {
      HexCellsChar(d, start, b, c);
      assert (a + cell)[c] == a[c];
    } else {
      assert (a + cell)[c] == cell[c - Column(b)];
      HexCellChar(d, start, b, c - Column(b));
    }
  }

  /** Every column of cell `b` is the expected character. */
  lemma HexCellChar(d: seq<Byte>, start: nat, b: nat, o: nat)
    requires b < 16 && o < |HexCell(ByteAt(d, start + b), b)|
    ensures HexCell(ByteAt(d, start + b), b)[o] == ExpectedHexChar(d, start, Column(b) + o)
  {
    if o <= 1 {
      CellAtCell(b, o == 0);
    } else {
      assert HexCell(ByteAt(d, start + b), b)[o] == ' ';
      SeparatorNotCell(b, o);
    }
  }

  /** The hex pane, character by character: line `k` of it is the 16 cells of
      bytes 16 k .. 16 k + 15 at the columns `Column` gives, spaces between
      and around them, and a line feed in column 49. */
  lemma HexPaneChar(d: seq<Byte>, k: nat, c: nat)
    requires k < LineCount(|d|) && c < 50
    ensures |HexPane(d)| == 50 * LineCount(|d|)
    ensures HexPane(d)[50 * k + c] == if c == 49 then '\n' else ExpectedHexChar(d, 16 * k, c)
  {
    HexLinesLine(d, LineCount(|d|), k);
    assert HexPane(d)[50 * k + c] == HexLine(d, k)[c];
    if c < 49 {
      HexCellsChar(d, 16 * k, 16, c);
    }
  }

  /** The two characters at `HexCellOffset(i)` are the byte's `%02X`. */
  lemma HexPaneCell(d: seq<Byte>, i: nat)
    requires i < |d|
    ensures HexCellOffset(i) + 2 <= |HexPane(d)|
    ensures HexPane(d)[HexCellOffset(i) .. HexCellOffset(i) + 2] == HexByte(d[i])
  {
    var k, b := i / 16, i % 16;
    assert 16 * k + b == i;
    HexPaneCellAt(d, k, b);
  }

  /** `HexPaneCell` for slot `b` of line `k`. */
  lemma HexPaneCellAt(d: seq<Byte>, k: nat, b: nat)
    requires b < 16 && 16 * k + b < |d|
    ensures 50 * k + Column(b) + 2 <= |HexPane(d)|
    ensures HexPane(d)[50 * k + Column(b) .. 50 * k + Column(b) + 2] == HexByte(d[16 * k + b])
  {
    HexPaneDigit(d, k, b, true);
    HexPaneDigit(d, k, b, false);
    TwoChars(HexPane(d), 50 * k + Column(b), HexByte(d[16 * k + b]));
  }

  /** Either digit of slot `b` of line `k`, in the hex pane. */
  lemma HexPaneDigit(d: seq<Byte>, k: nat, b: nat, high: bool)
    requires b < 16 && 16 * k + b < |d|
    ensures 50 * k + Column(b) + 2 <= |HexPane(d)|
    ensures HexPane(d)[50 * k + Column(b) + (if high then 0 else 1)] == HexByte(d[16 * k + b])[if high then 0 else 1]
  {
    ColumnsIncrease(b, 16);
    HexPaneChar(d, k, Column(b) + (if high then 0 else 1));
    ExpectedDigit(d, 16 * k, b, high);
  }

  /** Two characters in a row, as a slice. */
  lemma TwoChars(s: string, o: nat, h: string)
    requires o + 2 <= |s| && |h| == 2 && s[o] == h[0] && s[o + 1] == h[1]
    ensures s[o .. o + 2] == h
  {
  }

  /** The expected character at either digit of a slot that holds a byte is
      that digit of the byte's `%02X`. */
  lemma ExpectedDigit(d: seq<Byte>, start: nat, b: nat, high: bool)
    requires b < 16 && start + b < |d|
    ensures ExpectedHexChar(d, start, Column(b) + (if high then 0 else 1)) == HexByte(d[start + b])[if high then 0 else 1]
  {
    CellAtCell(b, high);
  }

  /** A hex pane has ⌈n/16⌉ lines of exactly 50 characters each, the last
      of each line its only line feed. */
  lemma HexPaneLines(d: seq<Byte>)
    ensures |HexPane(d)| == 50 * LineCount(|d|)
    ensures Newlines(HexPane(d)) == LineCount(|d|)
    ensures forall k :: 0 <= k < LineCount(|d|) ==> HexPane(d)[50 * k + 49] == '\n'
  {
    HexLinesNewlines(d, LineCount(|d|));
    forall k | 0 <= k < LineCount(|d|)
      ensures HexPane(d)[50 * k + 49] == '\n'
    {
      HexPaneChar(d, k, 49);
    }
  }

  /** An empty buffer renders as three empty panes. */
  lemma EmptyBufferRendersEmpty()
    ensures HexPane([]) == [] && AsciiPane([]) == [] && OffsetPane([]) == []
  {
  }

  // ------------------------------------------------------ ascii structure

  lemma {:induction false} AsciiCellsChar(d: seq<Byte>, start: nat, j: nat, b: nat)
    requires start + j <= |d| && b < j
    ensures AsciiCells(d, start, j)[b] == AsciiChar(d[start + b])
  {
    var a := AsciiCells(d, start, j - 1);
    assert AsciiCells(d, start, j) == a + [AsciiChar(d[start + j - 1])];
    if b < j - 1 {
      AsciiCellsChar(d, start, j - 1, b);
    }
  }

  /** The character at `AsciiCellOffset(i)` is the byte's ASCII character,
      because every line before the last holds 16 characters. */
  lemma {:induction false} AsciiLinesCell(d: seq<Byte>, n: nat, i: nat)
    requires n <= LineCount(|d|) && i < |d| && i < 16 * n
    ensures AsciiCellOffset(i) < |AsciiLines(d, n)|
    ensures AsciiLines(d, n)[AsciiCellOffset(i)] == AsciiChar(d[i])
  {
    var a, line := AsciiLines(d, n - 1), AsciiLine(d, n - 1);
    assert AsciiLines(d, n) == a + line;
    if i < 16 * (n - 1) {
      AsciiLinesCell(d, n - 1, i);
    } else {
      var s := 16 * (n - 1);
      assert |a| == 17 * (n - 1);
      assert AsciiCellOffset(i) == |a| + (i - s);
      AsciiCellsChar(d, s, LineWidth(|d|, n - 1), i - s);
    }
  }

  /** The ASCII pane holds one character per byte and one line feed per
      line, with the byte's character at `AsciiCellOffset(i)`. */
  lemma AsciiPaneShape(d: seq<Byte>, i: nat)
    requires i < |d|
    ensures |AsciiPane(d)| == |d| + LineCount(|d|)
    ensures AsciiCellOffset(i) < |AsciiPane(d)| && AsciiPane(d)[AsciiCellOffset(i)] == AsciiChar(d[i])
  {
    AsciiLinesCell(d, LineCount(|d|), i);
  }

  /** A run of ASCII cells holds no line feed: every shown character is
      printable. */
  lemma AsciiCellsNoNewline(d: seq<Byte>, start: nat, j: nat)
    requires start + j <= |d|
    ensures Newlines(AsciiCells(d, start, j)) == 0
  {
    var c := AsciiCells(d, start, j);
    forall b | 0 <= b < j
      ensures c[b] != '\n'
    {
      AsciiCellsChar(d, start, j, b);
    }
    NoNewlines(c);
  }

  /** Line `k` of the ASCII pane starts at 17 k, every earlier line being
      full, and ends in a line feed just after its bytes; those are its
      only line feeds. */
  lemma {:induction false} AsciiLinesNewlines(d: seq<Byte>, n: nat)
    requires n <= LineCount(|d|)
    ensures Newlines(AsciiLines(d, n)) == n
    ensures forall k :: 0 <= k < n ==>
              17 * k + LineWidth(|d|, k) < |AsciiLines(d, n)| && AsciiLines(d, n)[17 * k + LineWidth(|d|, k)] == '\n'
  {
    if n > 0 {
      var a, line := AsciiLines(d, n - 1), AsciiLine(d, n - 1);
      assert AsciiLines(d, n) == a + line;
      AsciiLinesNewlines(d, n - 1);
      AsciiCellsNoNewline(d, 16 * (n - 1), LineWidth(|d|, n - 1));
      NewlinesAppend(AsciiCells(d, 16 * (n - 1), LineWidth(|d|, n - 1)), "\n");
      NewlinesAppend(a, line);
      assert |a| == 17 * (n - 1);
    }
  }

  /** The ASCII pane has one line per 16 bytes, each ending in its only line
      feed, the short last line unpadded. */
  lemma AsciiPaneLines(d: seq<Byte>)
    ensures Newlines(AsciiPane(d)) == LineCount(|d|)
    ensures forall k :: 0 <= k < LineCount(|d|) ==>
              17 * k + LineWidth(|d|, k) < |AsciiPane(d)| && AsciiPane(d)[17 * k + LineWidth(|d|, k)] == '\n'
  {
    AsciiLinesNewlines(d, LineCount(|d|));
  }

  // -------------------------------------------------------- offset lines

  lemma Pow16Of8()
    ensures Pow16(8) == 0x1_0000_0000
  {
    assert Pow16(4) == 0x1_0000;
  }

  /** An offset line is eight digits and a line feed, and the digits read
      back as the line's first byte index, as long as that index fits in 32
      bits (it always does for a Java array). */
  lemma OffsetLineShape(k: nat)
    requires 16 * k < 0x1_0000_0000
    ensures |OffsetLine(k)| == 9 && OffsetLine(k)[8] == '\n'
    ensures HexValue(OffsetLine(k)[..8]) == 16 * k
  {
    Pow16Of8();
    HexDigitsLength(16 * k, 8);
    HexDigitsValue(16 * k, 8);
    assert OffsetLine(k)[..8] == HexDigits(16 * k, 8);
  }

  /** The first `n` offset lines are 9 characters each. */
  lemma {:induction false} OffsetLinesLength(n: nat)
    requires 16 * n <= 0x1_0000_0000
    ensures |OffsetLines(n)| == 9 * n
  {
    if n > 0 {
      OffsetLinesLength(n - 1);
      Pow16Of8();
      HexDigitsLength(16 * (n - 1), 8);
    }
  }

  /** Adding offset lines keeps the earlier ones in place. */
  lemma {:induction false} OffsetLinesPrefix(n: nat, m: nat)
    requires m <= n && 16 * n <= 0x1_0000_0000
    ensures 9 * m <= |OffsetLines(n)| && OffsetLines(n)[..9 * m] == OffsetLines(m)
  {
    OffsetLinesLength(n);
    if m < n {
      OffsetLinesPrefix(n - 1, m);
      var before := OffsetLines(n - 1);
      assert OffsetLines(n)[..9 * m] == before[..9 * m];
    }
  }

  /** The offset pane is one 9-character line per line of the grid, line `k`
      at offset 9 k. */
  lemma OffsetLinesShape(n: nat, k: nat)
    requires k < n && 16 * n <= 0x1_0000_0000
    ensures |OffsetLines(n)| == 9 * n
    ensures OffsetLines(n)[9 * k .. 9 * k + 9] == OffsetLine(k)
  {
    OffsetLinesLength(n);
    OffsetLinesPrefix(n, k + 1);
    OffsetLinesLength(k);
    var upTo := OffsetLines(k + 1);
    assert upTo[9 * k ..] == OffsetLine(k);
    assert OffsetLines(n)[9 * k .. 9 * k + 9] == upTo[9 * k ..];
  }

  // --------------------------------------------------- the patch property

  /** A line's cells do not depend on bytes outside them. */
  lemma {:induction false} HexCellsUnchanged(d: seq<Byte>, start: nat, j: nat, i: nat, v: Byte)
    requires i < |d| && (i < start || start + j <= i)
    ensures HexCells(d[i := v], start, j) == HexCells(d, start, j)
  {
    if j > 0 {
      var d' := d[i := v];
      HexCellsUnchanged(d, start, j - 1, i, v);
      assert ByteAt(d', start + j - 1) == ByteAt(d, start + j - 1);
      assert HexCells(d', start, j) == HexCells(d', start, j - 1) + HexCell(ByteAt(d', start + j - 1), j - 1);
    }
  }

  /** A cell with a new byte differs from the old in its two digits only. */
  lemma HexCellPatch(x: Byte, v: Byte, j: nat)
    ensures HexCell(Some(v), j) == Splice(HexCell(Some(x), j), 0, HexByte(v))
  {
  }

  /** Changing the byte in the last of the first `b + 1` cells changes them
      in that cell's two digits only. */
  lemma HexCellsPatchLast(d: seq<Byte>, start: nat, b: nat, v: Byte)
    requires start + b < |d| && b < 16
    ensures HexCells(d[start + b := v], start, b + 1) == Splice(HexCells(d, start, b + 1), Column(b), HexByte(v))
  {
    var d' := d[start + b := v];
    var a, c := HexCells(d, start, b), HexCell(Some(d[start + b]), b);
    assert HexCells(d, start, b + 1) == a + c;
    HexCellsUnchanged(d, start, b, start + b, v);
    assert HexCells(d', start, b + 1) == a + HexCell(Some(v), b);
    HexCellPatch(d[start + b], v, b);
    SpliceRight(a, c, 0, HexByte(v));
  }

  /** Changing the byte in slot `b` of a line changes the line's first `j`
      cells, `b` among them, in exactly the two characters of that slot. */
  lemma {:induction false} HexCellsPatch(d: seq<Byte>, start: nat, j: nat, b: nat, v: Byte)
    requires start + b < |d| && b < j <= 16
    ensures Column(b) + 2 <= |HexCells(d, start, j)|
    ensures HexCells(d[start + b := v], start, j) == Splice(HexCells(d, start, j), Column(b), HexByte(v))
  {
    ColumnsIncrease(b, j);
    if b == j - 1 {
      HexCellsPatchLast(d, start, b, v);
    } else {
      var d' := d[start + b := v];
      var a, c := HexCells(d, start, j - 1), HexCell(ByteAt(d, start + j - 1), j - 1);
      assert HexCells(d, start, j) == a + c;
      assert HexCells(d', start, j) == HexCells(d', start, j - 1) + c;
      HexCellsPatch(d, start, j - 1, b, v);
      ColumnsIncrease(b, j - 1);
      SpliceLeft(a, c, Column(b), HexByte(v));
    }
  }

  /** A hex line does not depend on bytes outside it. */
  lemma HexLineUnchanged(d: seq<Byte>, k: nat, i: nat, v: Byte)
    requires i < |d| && (i < 16 * k || 16 * k + 16 <= i)
    ensures HexLine(d[i := v], k) == HexLine(d, k)
  {
    HexCellsUnchanged(d, 16 * k, 16, i, v);
  }

  /** The first `n` hex lines do not depend on bytes after them. */
  lemma {:induction false} HexLinesUnchanged(d: seq<Byte>, n: nat, i: nat, v: Byte)
    requires 16 * n <= i < |d|
    ensures HexLines(d[i := v], n) == HexLines(d, n)
  {
    if n > 0 {
      HexLinesUnchanged(d, n - 1, i, v);
      HexLineUnchanged(d, n - 1, i, v);
    }
  }

  /** Given that line `k`'s cells change only at column `col`, the first
      `k + 1` lines change only at `50 k + col`. */
  lemma HexLinesPatchLast(d: seq<Byte>, d': seq<Byte>, k: nat, col: nat, h: string)
    requires col + |h| <= 49
    requires HexLines(d', k) == HexLines(d, k)
    requires HexCells(d', 16 * k, 16) == Splice(HexCells(d, 16 * k, 16), col, h)
    ensures HexLines(d', k + 1) == Splice(HexLines(d, k + 1), 50 * k + col, h)
  {
    var a, cells := HexLines(d, k), HexCells(d, 16 * k, 16);
    assert HexLines(d, k + 1) == a + (cells + "\n");
    SpliceLeft(cells, "\n", col, h);
    SpliceRight(a, cells + "\n", col, h);
  }

  /** Hex lines `m` to `n - 1`. */
  function HexLinesFrom(d: seq<Byte>, m: nat, n: nat): (r: string)
    requires m <= n
    ensures |r| == 50 * (n - m)
  {
    if n == m then [] else HexLinesFrom(d, m, n - 1) + HexLine(d, n - 1)
  }

  /** The first `n` hex lines are the first `m` and then lines `m` to
      `n - 1`. */
  lemma {:induction false} HexLinesSplit(d: seq<Byte>, m: nat, n: nat)
    requires m <= n
    ensures HexLines(d, n) == HexLines(d, m) + HexLinesFrom(d, m, n)
  {
    if m < n {
      var a, b, c := HexLines(d, m), HexLinesFrom(d, m, n - 1), HexLine(d, n - 1);
      HexLinesSplit(d, m, n - 1);
      assert (a + b) + c == a + (b + c);
    } else {
      assert HexLines(d, m) + [] == HexLines(d, m);
    }
  }

  /** Hex lines from `m` on do not depend on bytes before line `m`. */
  lemma {:induction false} HexLinesFromUnchanged(d: seq<Byte>, m: nat, n: nat, i: nat, v: Byte)
    requires m <= n && i < |d| && i < 16 * m
    ensures HexLinesFrom(d[i := v], m, n) == HexLinesFrom(d, m, n)
  {
    if m < n {
      HexLinesFromUnchanged(d, m, n - 1, i, v);
      HexLineUnchanged(d, n - 1, i, v);
    }
  }

  /** A patch of the first `m` lines made by changing a byte among them is
      a patch of any longer prefix of the pane. */
  lemma HexLinesPatchGrow(d: seq<Byte>, i: nat, v: Byte, m: nat, n: nat, at: nat, h: string)
    requires m <= n && i < |d| && i < 16 * m && at + |h| <= 50 * m
    requires HexLines(d[i := v], m) == Splice(HexLines(d, m), at, h)
    ensures HexLines(d[i := v], n) == Splice(HexLines(d, n), at, h)
  {
    HexLinesSplit(d, m, n);
    HexLinesSplit(d[i := v], m, n);
    HexLinesFromUnchanged(d, m, n, i, v);
    SpliceLeft(HexLines(d, m), HexLinesFrom(d, m, n), at, h);
  }

  /** A patch of the first `m` lines made by changing a byte among them is
      a patch of the whole pane. */
  lemma HexPanePatchGrow(d: seq<Byte>, i: nat, v: Byte, m: nat, at: nat, h: string)
    requires m <= LineCount(|d|) && i < |d| && i < 16 * m && at + |h| <= 50 * m
    requires HexLines(d[i := v], m) == Splice(HexLines(d, m), at, h)
    ensures at + |h| <= |HexPane(d)|
    ensures Splice(HexPane(d), at, h) == HexPane(d[i := v])
  {
    HexLinesPatchGrow(d, i, v, m, LineCount(|d|), at, h);
  }

  /** THE INCREMENTAL-UPDATE PROPERTY, hex pane: rewriting the two digits at
      `HexCellOffset(i)` of the rendered pane with `%02X` of the new value
      gives exactly the rendering of the buffer with byte `i` changed. */
  lemma HexPatchAgrees(d: seq<Byte>, i: nat, v: Byte)
    requires i < |d|
    ensures HexCellOffset(i) + 2 <= |HexPane(d)|
    ensures Splice(HexPane(d), HexCellOffset(i), HexByte(v)) == HexPane(d[i := v])
  {
    var k, b := i / 16, i % 16;
    assert i == 16 * k + b;
    HexCellOffsetOf(k, b);
    HexPatchAgreesAt(d, k, b, v);
  }

  /** `HexPatchAgrees` for slot `b` of line `k`. */
  lemma HexPatchAgreesAt(d: seq<Byte>, k: nat, b: nat, v: Byte)
    requires b < 16 && 16 * k + b < |d|
    ensures 50 * k + Column(b) + 2 <= |HexPane(d)|
    ensures Splice(HexPane(d), 50 * k + Column(b), HexByte(v)) == HexPane(d[16 * k + b := v])
  {
    ColumnsIncrease(b, 16);
    HexLinePatched(d, k, b, v);
    HexPanePatchGrow(d, 16 * k + b, v, k + 1, 50 * k + Column(b), HexByte(v));
  }

  /** Changing slot `b` of line `k` patches the first `k + 1` lines at
      `50 k + Column(b)`. */
  lemma HexLinePatched(d: seq<Byte>, k: nat, b: nat, v: Byte)
    requires b < 16 && 16 * k + b < |d|
    ensures 50 * k + Column(b) + 2 <= 50 * (k + 1)
    ensures HexLines(d[16 * k + b := v], k + 1) == Splice(HexLines(d, k + 1), 50 * k + Column(b), HexByte(v))
  {
    ColumnsIncrease(b, 16);
    HexCellsPatch(d, 16 * k, 16, b, v);
    HexLinesUnchanged(d, k, 16 * k + b, v);
    HexLinesPatchLast(d, d[16 * k + b := v], k, Column(b), HexByte(v));
  }

  /** Changing byte `start + b` changes the ASCII cells of bytes `start` ..
      `start + j - 1` in that byte's character only, if it is among them. */
  lemma {:induction false} AsciiCellsPatch(d: seq<Byte>, start: nat, j: nat, b: nat, v: Byte)
    requires start + j <= |d| && start + b < |d|
    ensures b < j ==>
              AsciiCells(d[start + b := v], start, j) == Splice(AsciiCells(d, start, j), b, [AsciiChar(v)])
    ensures b >= j ==> AsciiCells(d[start + b := v], start, j) == AsciiCells(d, start, j)
  {
    if j > 0 {
      var d' := d[start + b := v];
      var r := [AsciiChar(v)];
      AsciiCellsPatch(d, start, j - 1, b, v);
      var a, c := AsciiCells(d, start, j - 1), [AsciiChar(d[start + j - 1])];
      var a', c' := AsciiCells(d', start, j - 1), [AsciiChar(d'[start + j - 1])];
      assert AsciiCells(d, start, j) == a + c;
      assert AsciiCells(d', start, j) == a' + c';
      if b == j - 1 {
        SpliceRight(a, c, 0, r);
      } else if b < j - 1 {
        SpliceLeft(a, c, b, r);
      }
    }
  }

  /** A line's ASCII cells do not depend on bytes outside them. */
  lemma {:induction false} AsciiCellsUnchanged(d: seq<Byte>, start: nat, j: nat, i: nat, v: Byte)
    requires start + j <= |d| && i < |d| && (i < start || start + j <= i)
    ensures AsciiCells(d[i := v], start, j) == AsciiCells(d, start, j)
  {
    if j > 0 {
      var d' := d[i := v];
      AsciiCellsUnchanged(d, start, j - 1, i, v);
      assert d'[start + j - 1] == d[start + j - 1];
      assert AsciiCells(d', start, j) == AsciiCells(d', start, j - 1) + [AsciiChar(d'[start + j - 1])];
    }
  }

  /** The first `n` ASCII lines do not depend on bytes after them. */
  lemma {:induction false} AsciiLinesUnchanged(d: seq<Byte>, n: nat, i: nat, v: Byte)
    requires n <= LineCount(|d|) && 16 * n <= i < |d|
    ensures AsciiLines(d[i := v], n) == AsciiLines(d, n)
  {
    if n > 0 {
      AsciiLinesUnchanged(d, n - 1, i, v);
      AsciiLineUnchanged(d, n - 1, i, v);
    }
  }

  /** An ASCII line does not depend on bytes outside it. */
  lemma AsciiLineUnchanged(d: seq<Byte>, k: nat, i: nat, v: Byte)
    requires 16 * k < |d| && i < |d| && (i < 16 * k || 16 * k + 16 <= i)
    ensures AsciiLine(d[i := v], k) == AsciiLine(d, k)
  {
    AsciiCellsUnchanged(d, 16 * k, LineWidth(|d|, k), i, v);
  }

  /** Changing slot `b` of line `k` patches the first `k + 1` ASCII lines in
      that byte's character only, at `17 k + b`. */
  lemma AsciiLinePatched(d: seq<Byte>, k: nat, b: nat, v: Byte)
    requires b < 16 && 16 * k + b < |d|
    ensures k + 1 <= LineCount(|d|) && 17 * k + b + 1 <= |AsciiLines(d, k + 1)|
    ensures AsciiLines(d[16 * k + b := v], k + 1) == Splice(AsciiLines(d, k + 1), 17 * k + b, [AsciiChar(v)])
  {
    var i, s, w := 16 * k + b, 16 * k, LineWidth(|d|, k);
    var d', r := d[i := v], [AsciiChar(v)];
    AsciiLinesUnchanged(d, k, i, v);
    AsciiCellsPatch(d, s, w, b, v);
    var a, cells := AsciiLines(d, k), AsciiCells(d, s, w);
    assert AsciiLines(d, k + 1) == a + (cells + "\n");
    assert AsciiLines(d', k + 1) == a + (AsciiCells(d', s, w) + "\n");
    assert |a| == 17 * k;
    SpliceLeft(cells, "\n", b, r);
    SpliceRight(a, cells + "\n", b, r);
  }

  /** ASCII lines `m` to `n - 1`. */
  function AsciiLinesFrom(d: seq<Byte>, m: nat, n: nat): string
    requires m <= n <= LineCount(|d|)
  {
    if n == m then [] else AsciiLinesFrom(d, m, n - 1) + AsciiLine(d, n - 1)
  }

  /** The first `n` ASCII lines are the first `m` and then lines `m` to
      `n - 1`. */
  lemma {:induction false} AsciiLinesSplit(d: seq<Byte>, m: nat, n: nat)
    requires m <= n <= LineCount(|d|)
    ensures AsciiLines(d, n) == AsciiLines(d, m) + AsciiLinesFrom(d, m, n)
  {
    if m < n {
      var a, b, c := AsciiLines(d, m), AsciiLinesFrom(d, m, n - 1), AsciiLine(d, n - 1);
      AsciiLinesSplit(d, m, n - 1);
      assert (a + b) + c == a + (b + c);
    } else {
      assert AsciiLines(d, m) + [] == AsciiLines(d, m);
    }
  }

  /** ASCII lines from `m` on do not depend on bytes before line `m`. */
  lemma {:induction false} AsciiLinesFromUnchanged(d: seq<Byte>, m: nat, n: nat, i: nat, v: Byte)
    requires m <= n <= LineCount(|d|) && i < |d| && i < 16 * m
    ensures AsciiLinesFrom(d[i := v], m, n) == AsciiLinesFrom(d, m, n)
  {
    if m < n {
      AsciiLinesFromUnchanged(d, m, n - 1, i, v);
      AsciiLineUnchanged(d, n - 1, i, v);
    }
  }

  /** A patch of the first `m` ASCII lines made by changing a byte among
      them is a patch of any longer prefix of the pane. */
  lemma AsciiLinesPatchGrow(d: seq<Byte>, i: nat, v: Byte, m: nat, n: nat, at: nat, r: string)
    requires m <= n <= LineCount(|d|) && i < |d| && i < 16 * m && at + |r| <= |AsciiLines(d, m)|
    requires AsciiLines(d[i := v], m) == Splice(AsciiLines(d, m), at, r)
    ensures at + |r| <= |AsciiLines(d, n)|
    ensures AsciiLines(d[i := v], n) == Splice(AsciiLines(d, n), at, r)
  {
    AsciiLinesSplit(d, m, n);
    AsciiLinesSplit(d[i := v], m, n);
    AsciiLinesFromUnchanged(d, m, n, i, v);
    SpliceLeft(AsciiLines(d, m), AsciiLinesFrom(d, m, n), at, r);
  }

  /** THE INCREMENTAL-UPDATE PROPERTY, ASCII pane: rewriting the character
      at `AsciiCellOffset(i)` gives the rendering of the changed buffer. */
  lemma AsciiPatchAgrees(d: seq<Byte>, i: nat, v: Byte)
    requires i < |d|
    ensures AsciiCellOffset(i) + 1 <= |AsciiPane(d)|
    ensures Splice(AsciiPane(d), AsciiCellOffset(i), [AsciiChar(v)]) == AsciiPane(d[i := v])
  {
    var k, b := i / 16, i % 16;
    assert i == 16 * k + b;
    AsciiPatchAgreesAt(d, k, b, v);
  }

  /** `AsciiPatchAgrees` for slot `b` of line `k`. */
  lemma AsciiPatchAgreesAt(d: seq<Byte>, k: nat, b: nat, v: Byte)
    requires b < 16 && 16 * k + b < |d|
    ensures 17 * k + b + 1 <= |AsciiPane(d)|
    ensures Splice(AsciiPane(d), 17 * k + b, [AsciiChar(v)]) == AsciiPane(d[16 * k + b := v])
  {
    var i := 16 * k + b;
    AsciiLinePatched(d, k, b, v);
    AsciiLinesPatchGrow(d, i, v, k + 1, LineCount(|d|), 17 * k + b, [AsciiChar(v)]);
  }

  /** The offset pane depends only on the buffer's length, so a byte edit
      never needs to touch it. */
  lemma OffsetPaneUnchangedByEdit(d: seq<Byte>, i: nat, v: Byte)
    requires i < |d|
    ensures OffsetPane(d[i := v]) == OffsetPane(d)
  {
  }

  // ------------------------------------------- the hex pane parses back

  /** All bytes as `%02X`, concatenated. */
  function HexDump(d: seq<Byte>): (r: string)
    ensures |r| == 2 * |d|
  {
    if d == [] then [] else HexDump(d[..|d| - 1]) + HexByte(d[|d| - 1])
  }

  /** Byte `k` is at characters 2 k and 2 k + 1 of the dump. */
  lemma {:induction false} HexDumpChar(d: seq<Byte>, k: nat)
    requires k < |d|
    ensures HexDump(d)[2 * k .. 2 * k + 2] == HexByte(d[k])
  {
    var p := d[..|d| - 1];
    assert HexDump(d) == HexDump(p) + HexByte(d[|d| - 1]);
    if k < |d| - 1 {
      HexDumpChar(p, k);
      assert HexDump(d)[2 * k .. 2 * k + 2] == HexDump(p)[2 * k .. 2 * k + 2];
    }
  }

  lemma {:induction false} HexDumpAppend(a: seq<Byte>, b: seq<Byte>)
    ensures HexDump(a + b) == HexDump(a) + HexDump(b)
    decreases |b|
  {
    if b == [] {
      assert a + b == a;
    } else {
      var b' := b[..|b| - 1];
      assert (a + b)[..|a + b| - 1] == a + b';
      assert HexDump(a + b) == HexDump(a + b') + HexByte(b[|b| - 1]);
      assert HexDump(b) == HexDump(b') + HexByte(b[|b| - 1]);
      HexDumpAppend(a, b');
    }
  }

  /** A dump is made of upper-case hex digits only. */
  lemma HexDumpDigits(d: seq<Byte>)
    ensures forall j :: 0 <= j < |HexDump(d)| ==> IsHexChar(HexDump(d)[j]) && !IsWhitespace(HexDump(d)[j])
  {
    var s := HexDump(d);
    forall j | 0 <= j < |s|
      ensures IsHexChar(s[j]) && !IsWhitespace(s[j])
    {
      var k := j / 2;
      HexDumpChar(d, k);
      assert s[j] == HexByte(d[k])[j - 2 * k];
    }
  }

  /** Decoding the digit pairs of a dump gives the bytes back. */
  lemma HexDumpDecodes(d: seq<Byte>)
    requires forall j :: 0 <= j < |HexDump(d)| ==> IsHexChar(HexDump(d)[j])
    ensures DecodePairs(HexDump(d)) == d
  {
    var s := HexDump(d);
    var r := DecodePairs(s);
    forall k | 0 <= k < |d|
      ensures r[k] == d[k]
    {
      HexDumpChar(d, k);
      DecodePairsAt(s, k);
      assert s[2 * k] == HexByte(d[k])[0] && s[2 * k + 1] == HexByte(d[k])[1];
      DigitValueOfUpper(d[k] / 16);
      DigitValueOfUpper(d[k] % 16);
    }
  }

  /** Parsing `%02X` text gives the bytes back. */
  lemma HexDumpParses(d: seq<Byte>)
    ensures StripWhitespace(HexDump(d)) == HexDump(d)
    ensures ParseHex(HexDump(d)) == Success(d)
  {
    var s := HexDump(d);
    HexDumpDigits(d);
    StripNoWhitespace(s);
    HexDumpDecodes(d);
    assert FirstNonHex(s) == None;
  }

  /** Stripping a byte's cell leaves its two digits. */
  lemma StripByteCell(b: Byte, j: nat)
    ensures StripWhitespace(HexCell(Some(b), j)) == HexByte(b)
  {
    var h := HexByte(b);
    var pad: string := if j == 7 then "  " else " ";
    assert HexCell(Some(b), j) == h + pad;
    StripPadded(h, pad);
  }

  /** Stripping a padding cell leaves nothing. */
  lemma StripPaddingCell(j: nat)
    ensures StripWhitespace(HexCell(None, j)) == []
  {
    var c := HexCell(None, j);
    assert forall m :: 0 <= m < |c| ==> c[m] == ' ';
    StripAllWhitespace(c);
  }

  /** Stripping the first `j` cells of a line leaves the dump of their
      bytes, when they all lie within the buffer. */
  lemma {:induction false} StripHexCells(d: seq<Byte>, start: nat, j: nat)
    requires start + j <= |d|
    ensures StripWhitespace(HexCells(d, start, j)) == HexDump(d[start .. start + j])
  {
    if j == 0 {
      assert d[start .. start] == [];
    } else {
      var x := d[start + j - 1];
      var a, c := HexCells(d, start, j - 1), HexCell(Some(x), j - 1);
      assert HexCells(d, start, j) == a + c;
      StripHexCells(d, start, j - 1);
      StripByteCell(x, j - 1);
      HexDumpSnoc(d, start, j);
      StripJoin(HexCells(d, start, j), a, c, HexDump(d[start .. start + j - 1]), HexByte(x), HexDump(d[start .. start + j]));
    }
  }

  /** Stripping a concatenation, stated on names for its parts. */
  lemma StripJoin(whole: string, a: string, c: string, sa: string, sc: string, joined: string)
    requires whole == a + c && StripWhitespace(a) == sa && StripWhitespace(c) == sc && joined == sa + sc
    ensures StripWhitespace(whole) == joined
  {
    StripAppend(a, c);
  }

  /** The dump of a slice is the dump of all but its last byte, then that
      byte's digits. */
  lemma HexDumpSnoc(d: seq<Byte>, start: nat, j: nat)
    requires 0 < j && start + j <= |d|
    ensures HexDump(d[start .. start + j]) == HexDump(d[start .. start + j - 1]) + HexByte(d[start + j - 1])
  {
    var w := d[start .. start + j];
    assert w[..j - 1] == d[start .. start + j - 1];
  }

  /** Padding cells past the end of the buffer strip to nothing. */
  lemma {:induction false} StripPaddingCells(d: seq<Byte>, start: nat, j: nat)
    requires start <= |d| <= start + j
    ensures StripWhitespace(HexCells(d, start, j)) == StripWhitespace(HexCells(d, start, |d| - start))
  {
    if j > |d| - start {
      var a, c := HexCells(d, start, j - 1), HexCell(ByteAt(d, start + j - 1), j - 1);
      assert HexCells(d, start, j) == a + c;
      StripAppend(a, c);
      StripPaddingCells(d, start, j - 1);
      StripPaddingCell(j - 1);
      assert StripWhitespace(a) + [] == StripWhitespace(a);
    }
  }

  /** Stripping a whole line leaves the dump of the line's bytes. */
  lemma StripHexLine(d: seq<Byte>, k: nat)
    requires 16 * k <= |d|
    ensures StripWhitespace(HexLine(d, k)) == HexDump(d[16 * k .. Min(16 * k + 16, |d|)])
  {
    var s := 16 * k;
    var e := Min(s + 16, |d|);
    if |d| < s + 16 {
      StripPaddingCells(d, s, 16);
    }
    StripHexCells(d, s, e - s);
    StripAppend(HexCells(d, s, 16), "\n");
    assert StripWhitespace("\n") == [] by { assert "\n"[..0] == []; }
  }

  /** The dump of a prefix splits where the prefix does. */
  lemma HexDumpSlices(d: seq<Byte>, s: nat, hi: nat)
    requires s <= hi <= |d|
    ensures HexDump(d[..hi]) == HexDump(d[..s]) + HexDump(d[s..hi])
  {
    assert d[..hi] == d[..s] + d[s..hi];
    HexDumpAppend(d[..s], d[s..hi]);
  }

  /** One more line strips to the dump of that line's bytes. */
  lemma StripHexLinesStep(d: seq<Byte>, n: nat)
    requires 0 < n <= LineCount(|d|)
    requires StripWhitespace(HexLines(d, n - 1)) == HexDump(d[..16 * (n - 1)])
    ensures StripWhitespace(HexLines(d, n)) == HexDump(d[.. Min(16 * n, |d|)])
  {
    var s := 16 * (n - 1);
    var hi := Min(s + 16, |d|);
    var a, line := HexLines(d, n - 1), HexLine(d, n - 1);
    calc {
      StripWhitespace(HexLines(d, n));
      StripWhitespace(a + line);
      { StripAppend(a, line); }
      StripWhitespace(a) + StripWhitespace(line);
      { StripHexLine(d, n - 1); }
      HexDump(d[..s]) + HexDump(d[s..hi]);
      { HexDumpSlices(d, s, hi); }
      HexDump(d[..hi]);
    }
  }

  /** Stripping the first `n` lines leaves the dump of their bytes. */
  lemma {:induction false} StripHexLines(d: seq<Byte>, n: nat)
    requires n <= LineCount(|d|)
    ensures StripWhitespace(HexLines(d, n)) == HexDump(d[.. Min(16 * n, |d|)])
  {
    if n == 0 {
      assert d[..0] == [];
    } else {
      StripHexLines(d, n - 1);
      assert Min(16 * (n - 1), |d|) == 16 * (n - 1);
      StripHexLinesStep(d, n);
    }
  }

  /** THE HEX PANE PARSES BACK: feeding the whole rendered hex pane to the
      hex-string parser gives the buffer. */
  lemma HexPaneParses(d: seq<Byte>)
    ensures ParseHex(HexPane(d)) == Success(d)
  {
    StripHexLines(d, LineCount(|d|));
    assert d[.. Min(16 * LineCount(|d|), |d|)] == d;
    HexDumpParses(d);
    ParseIgnoresWhitespace(HexPane(d), HexDump(d));
  }
}
