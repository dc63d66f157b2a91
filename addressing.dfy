/** The pure part of the editor's addressing and editing logic: which
    (byte, nibble) a caret offset in the hex pane stands on, where a line of
    the pane starts, where the caret goes after a keystroke, how one nibble
    of a byte is rewritten, and the window title. */
module Addressing {
  import opened Common
  import opened HexUtils
  import opened Grid
  import opened Render

  /** A caret position on a hex digit: the byte it edits, which of the
      byte's two digits it is on, and its offset in the hex pane. */
  datatype HexPosition = HexPosition(byteIndex: nat, isHighNibble: bool, textOffset: nat)

  // ------------------------------------------------ lines of a text

  /** Start of the line holding offset `t`: just after the last line feed
      before `t`, or 0 when there is none. */
  function LastLineStart(text: string, t: nat): (s: nat)
    requires t <= |text|
    ensures s <= t
    ensures s == 0 || text[s - 1] == '\n'
    ensures forall j :: s <= j < t ==> text[j] != '\n'
  {
    if t == 0 then 0 else if text[t - 1] == '\n' then t else LastLineStart(text, t - 1)
  }

  /** Those three facts pin the line start down. */
  lemma LastLineStartIs(text: string, t: nat, s: nat)
    requires s <= t <= |text|
    requires s == 0 || text[s - 1] == '\n'
    requires forall j :: s <= j < t ==> text[j] != '\n'
    ensures LastLineStart(text, t) == s
  {
  }

  /** Counting line feeds splits where the text does. */
  lemma NewlinesSplit(text: string, a: nat, b: nat)
    requires a <= b <= |text|
    ensures Newlines(text[..b]) == Newlines(text[..a]) + Newlines(text[a..b])
  {
    assert text[..b] == text[..a] + text[a..b];
    NewlinesAppend(text[..a], text[a..b]);
  }

  /** Offset where line `k` starts, by the rule `getLineStartOffset`
      follows: 0 for `k <= 0`, just after the k-th line feed when there is
      one, and the end of the text otherwise. */
  function LineStart(text: string, k: int): (o: nat)
    ensures o <= |text|
    ensures k <= 0 ==> o == 0
    ensures 0 < k <= Newlines(text) ==> 0 < o && text[o - 1] == '\n' && Newlines(text[..o]) == k
    ensures Newlines(text) < k ==> o == |text|
    decreases |text|
  {
    if k <= 0 then 0
    else if Newlines(text) < k then |text|
    else if Newlines(text[..|text| - 1]) < k then
      assert text[..|text|] == text;
      |text|
    else
      var p := text[..|text| - 1];
      var o := LineStart(p, k);
      assert text[..o] == p[..o];
      o
  }

  /** An offset just after the k-th line feed is the start of line `k`. */
  lemma LineStartIs(text: string, k: nat, o: nat)
    requires 0 < o <= |text| && text[o - 1] == '\n' && Newlines(text[..o]) == k
    ensures LineStart(text, k) == o
  {
    NewlinesSplit(text, o, |text|);
    assert text[..|text|] == text;
    var o' := LineStart(text, k);
    if o < o' {
      NewlinesGrow(text, o, o');
    } else if o' < o {
      NewlinesGrow(text, o', o);
    }
  }

  /** A stretch of text that ends in a line feed adds to the count. */
  lemma NewlinesGrow(text: string, a: nat, b: nat)
    requires a < b <= |text| && text[b - 1] == '\n'
    ensures Newlines(text[..a]) < Newlines(text[..b])
  {
    NewlinesSplit(text, a, b - 1);
    assert text[..b][..b - 1] == text[..b - 1];
  }

  // --------------------------------------------- positions in the hex pane

  /** What `getHexPosition` finds at offset `t` of the hex pane's text:
      nothing at or past the end; otherwise the line is the number of line
      feeds before `t`, the column is counted from the start of that line,
      and the column must lie on one of the line's 16 cells. */
  function PositionAt(text: string, t: int): Option<HexPosition>
  {
    if t >= |text| then None
    else
      var upto := if t < 0 then 0 else t;
      var lineStart := LastLineStart(text, upto);
      match CellAt(t - lineStart)
      case None => None
      case Some((b, high)) =>
        Some(HexPosition(16 * Newlines(text[..upto]) + b, high, lineStart + Column(b) + (if high then 0 else 1)))
  }

  /** A position is found exactly when the offset is inside the text and its
      column is on a digit of one of the 16 cells; it then names the line's
      slot, the digit the column is on, and the offset itself. */
  lemma PositionAtSpec(text: string, t: int)
    ensures PositionAt(text, t).Some? <==>
              0 <= t < |text| && exists b :: 0 <= b < 16 && (t - LastLineStart(text, t) == Column(b) || t - LastLineStart(text, t) == Column(b) + 1)
    ensures PositionAt(text, t).Some? ==>
              var p := PositionAt(text, t).value;
              var b := p.byteIndex - 16 * Newlines(text[..t]);
              p.textOffset == t && 0 <= b < 16 &&
              t - LastLineStart(text, t) == Column(b) + (if p.isHighNibble then 0 else 1)
  {
    if 0 <= t < |text| {
      PositionAtInside(text, t);
    } else if t < 0 {
      assert CellAt(t - LastLineStart(text, 0)) == None;
    }
  }

  lemma PositionAtInside(text: string, t: nat)
    requires t < |text|
    ensures PositionAt(text, t).Some? <==>
              exists b :: 0 <= b < 16 && (t - LastLineStart(text, t) == Column(b) || t - LastLineStart(text, t) == Column(b) + 1)
    ensures PositionAt(text, t).Some? ==>
              var p := PositionAt(text, t).value;
              var b := p.byteIndex - 16 * Newlines(text[..t]);
              p.textOffset == t && 0 <= b < 16 &&
              t - LastLineStart(text, t) == Column(b) + (if p.isHighNibble then 0 else 1)
  {
    var col := t - LastLineStart(text, t);
    if exists b :: 0 <= b < 16 && (col == Column(b) || col == Column(b) + 1) {
      var b :| 0 <= b < 16 && (col == Column(b) || col == Column(b) + 1);
      CellAtCell(b, col == Column(b));
    }
  }

  /** The line structure of a rendered hex pane: `lines` lines of 50
      characters, each ending in its only line feed. */
  predicate IsGrid(text: string, lines: nat)
  {
    |text| == 50 * lines && forall j :: 0 <= j < |text| ==> (text[j] == '\n' <==> j % 50 == 49)
  }

  /** The digits and spaces of a hex-pane line hold no line feed. */
  lemma HexPaneLineBody(d: seq<Byte>, k: nat, c: nat)
    requires k < LineCount(|d|) && c < 49
    ensures HexPane(d)[50 * k + c] != '\n'
  {
    HexPaneChar(d, k, c);
    match CellAt(c)
    case Some((b, high)) =>
      if 16 * k + b < |d| {
        var h := HexByte(d[16 * k + b]);
        assert IsHexChar(h[0]) && IsHexChar(h[1]);
      }
    case None =>
  }

  /** A rendered hex pane has the grid's line structure. */
  lemma HexPaneIsGrid(d: seq<Byte>)
    ensures IsGrid(HexPane(d), LineCount(|d|))
  {
    var text := HexPane(d);
    HexPaneLines(d);
    forall j | 0 <= j < |text|
      ensures text[j] == '\n' <==> j % 50 == 49
    {
      var k, c := j / 50, j % 50;
      assert j == 50 * k + c;
      if c < 49 {
        HexPaneLineBody(d, k, c);
      }
    }
  }

  /** k lines precede offset 50 k of a grid. */
  lemma {:induction false} GridNewlines(text: string, lines: nat, k: nat)
    requires IsGrid(text, lines) && k <= lines
    ensures Newlines(text[..50 * k]) == k
  {
    if k > 0 {
      var s := 50 * (k - 1);
      GridNewlines(text, lines, k - 1);
      NewlinesSplit(text, s, s + 49);
      NoNewlines(text[s .. s + 49]);
      assert text[..s + 50][..s + 49] == text[..s + 49];
    }
  }

  /** Within line `k` of a grid the line starts at 50 k and k lines precede
      it. */
  lemma GridLineOf(text: string, lines: nat, k: nat, c: nat)
    requires IsGrid(text, lines) && k < lines && c < 50
    ensures 50 * k + c < |text|
    ensures LastLineStart(text, 50 * k + c) == 50 * k
    ensures Newlines(text[..50 * k + c]) == k
  {
    if k > 0 {
      assert text[50 * (k - 1) + 49] == '\n';
    }
    LastLineStartIs(text, 50 * k + c, 50 * k);
    GridLineNewlines(text, lines, k, c);
  }

  lemma GridLineNewlines(text: string, lines: nat, k: nat, c: nat)
    requires IsGrid(text, lines) && k < lines && c < 50
    ensures Newlines(text[..50 * k + c]) == k
  {
    GridNewlines(text, lines, k);
    NewlinesSplit(text, 50 * k, 50 * k + c);
    NoNewlines(text[50 * k .. 50 * k + c]);
  }

  /** On a grid, every line up to the end starts at 50 k. */
  lemma GridLineStart(text: string, lines: nat, k: nat)
    requires IsGrid(text, lines) && k <= lines
    ensures LineStart(text, k) == 50 * k
  {
    if k > 0 {
      assert text[50 * (k - 1) + 49] == '\n';
      GridNewlines(text, lines, k);
      LineStartIs(text, k, 50 * k);
    }
  }

  /** On a grid, the offset of either digit of any cell resolves to that
      cell's byte index and digit. */
  lemma GridPositionAtCell(text: string, lines: nat, i: nat, high: bool)
    requires IsGrid(text, lines) && i < 16 * lines
    ensures HexCellOffset(i) + 1 < |text|
    ensures PositionAt(text, HexCellOffset(i) + (if high then 0 else 1))
            == Some(HexPosition(i, high, HexCellOffset(i) + (if high then 0 else 1)))
  {
    var k, b := i / 16, i % 16;
    ColumnsIncrease(b, 16);
    GridLineOf(text, lines, k, Column(b) + (if high then 0 else 1));
    CellAtCell(b, high);
  }

  /** On a grid, whatever is found is one of the cells, at the cell's
      offset. */
  lemma GridPositionAtIsCell(text: string, lines: nat, t: int)
    requires IsGrid(text, lines) && PositionAt(text, t).Some?
    ensures var p := PositionAt(text, t).value;
            p.byteIndex < 16 * lines &&
            t == HexCellOffset(p.byteIndex) + (if p.isHighNibble then 0 else 1)
  {
    PositionAtSpec(text, t);
    var k, c := t / 50, t % 50;
    assert t == 50 * k + c;
    GridLineOf(text, lines, k, c);
    var p := PositionAt(text, t).value;
    var b := p.byteIndex - 16 * k;
    assert 0 <= b < 16 && c == Column(b) + (if p.isHighNibble then 0 else 1);
    HexCellOffsetOf(k, b);
  }

  /** THE ADDRESSING ROUND TRIP, one way: on a rendered hex pane, the offset
      of either digit of any cell (padding cells on the short last line
      included) resolves to that cell's byte index and digit. */
  lemma PositionAtCell(d: seq<Byte>, i: nat, high: bool)
    requires i < 16 * LineCount(|d|)
    ensures HexCellOffset(i) + 1 < |HexPane(d)|
    ensures PositionAt(HexPane(d), HexCellOffset(i) + (if high then 0 else 1))
            == Some(HexPosition(i, high, HexCellOffset(i) + (if high then 0 else 1)))
  {
    HexPaneIsGrid(d);
    GridPositionAtCell(HexPane(d), LineCount(|d|), i, high);
  }

  /** THE ADDRESSING ROUND TRIP, the other way: whatever `getHexPosition`
      finds on a rendered hex pane is one of the cells, and its offset is
      the cell's. */
  lemma PositionAtIsCell(d: seq<Byte>, t: int)
    requires PositionAt(HexPane(d), t).Some?
    ensures var p := PositionAt(HexPane(d), t).value;
            p.byteIndex < 16 * LineCount(|d|) &&
            t == HexCellOffset(p.byteIndex) + (if p.isHighNibble then 0 else 1)
  {
    HexPaneIsGrid(d);
    GridPositionAtIsCell(HexPane(d), LineCount(|d|), t);
  }

  /** On a rendered hex pane every line up to the end starts at 50 k, which
      is what `gotoOffset` and `moveToNextHexPosition` build on. */
  lemma LineStartOnPane(d: seq<Byte>, k: nat)
    requires k <= LineCount(|d|)
    ensures LineStart(HexPane(d), k) == 50 * k
  {
    HexPaneIsGrid(d);
    GridLineStart(HexPane(d), LineCount(|d|), k);
  }

  /** Offset of one digit of byte `i` as `gotoOffset` and
      `moveToNextHexPosition` compute it: the start of the byte's line, by
      `getLineStartOffset`, plus the cell's column. */
  function CellCaret(text: string, i: nat, high: bool): int
  {
    LineStart(text, i / 16) + Column(i % 16) + (if high then 0 else 1)
  }

  /** On a rendered pane that is the cell's offset, which resolves back to
      the byte and digit. */
  lemma CellCaretOnPane(d: seq<Byte>, i: nat, high: bool)
    requires i < 16 * LineCount(|d|)
    ensures CellCaret(HexPane(d), i, high) == HexCellOffset(i) + (if high then 0 else 1)
    ensures 0 <= CellCaret(HexPane(d), i, high) < |HexPane(d)|
    ensures PositionAt(HexPane(d), CellCaret(HexPane(d), i, high)) == Some(HexPosition(i, high, CellCaret(HexPane(d), i, high)))
  {
    HexPaneIsGrid(d);
    GridLineStart(HexPane(d), LineCount(|d|), i / 16);
    GridPositionAtCell(HexPane(d), LineCount(|d|), i, high);
  }

  // -------------------------------------------------------- caret steps

  /** The digit after `pos`: the low digit of the same byte after a high
      one, the high digit of the next byte after a low one. */
  function NextNibble(pos: HexPosition): (r: (nat, bool))
    ensures pos.isHighNibble ==> r == (pos.byteIndex, false)
    ensures !pos.isHighNibble ==> r == (pos.byteIndex + 1, true)
  {
    if pos.isHighNibble then (pos.byteIndex, false) else (pos.byteIndex + 1, true)
  }

  /** Stepping moves exactly one digit forward in the hex pane: two steps
      from a high digit move on to the next byte's high digit, and on a
      rendered pane the caret advances past the cell's separator (and the
      gap after cell 7) only when it leaves a byte. */
  lemma NextNibbleAdvances(d: seq<Byte>, pos: HexPosition)
    requires pos.byteIndex + 1 < 16 * LineCount(|d|)
    ensures var (n, h) := NextNibble(pos);
            var here := HexCellOffset(pos.byteIndex) + (if pos.isHighNibble then 0 else 1);
            var there := HexCellOffset(n) + (if h then 0 else 1);
            (pos.isHighNibble ==> there == here + 1) &&
            (!pos.isHighNibble ==> there == here + (if pos.byteIndex % 16 == 7 || pos.byteIndex % 16 == 15 then 3 else 2))
  {
  }

  // ---------------------------------------------------------- nibble edit

  /** `updateByteAtPosition`'s edit of a byte: the typed digit replaces
      the high or the low base-16 digit. */
  function SetNibble(v: Byte, digit: nat, high: bool): (r: Byte)
    requires digit < 16
  {
    if high then 16 * digit + v % 16 else 16 * (v / 16) + digit
  }

  /** That is what the source's bit operations compute on 8 bits:
      `(digit << 4) | (v & 0x0F)` for the high digit and
      `(v & 0xF0) | digit` for the low one. */
  lemma SetNibbleBits(v: bv8, digit: bv8)
    requires digit < 16
    ensures ((digit << 4) | (v & 0x0F)) as int == 16 * (digit as int) + (v as int) % 16
    ensures ((v & 0xF0) | digit) as int == 16 * ((v as int) / 16) + digit as int
  {
  }

  /** The edited digit shows the typed digit, the other digit is kept. */
  lemma SetNibbleDigits(v: Byte, digit: nat, high: bool)
    requires digit < 16
    ensures var r := SetNibble(v, digit, high);
            (high ==> r / 16 == digit && r % 16 == v % 16) &&
            (!high ==> r % 16 == digit && r / 16 == v / 16)
    ensures var r := SetNibble(v, digit, high);
            (high ==> HexByte(r) == [UpperDigit(digit), HexByte(v)[1]]) &&
            (!high ==> HexByte(r) == [HexByte(v)[0], UpperDigit(digit)])
  {
  }

  /** Typing the same digit twice has the effect of typing it once. */
  lemma SetNibbleIdempotent(v: Byte, digit: nat, high: bool)
    requires digit < 16
    ensures SetNibble(SetNibble(v, digit, high), digit, high) == SetNibble(v, digit, high)
  {
  }

  /** Typing the digit a byte already shows leaves it unchanged. */
  lemma SetNibbleSameDigit(v: Byte, high: bool)
    ensures SetNibble(v, if high then v / 16 else v % 16, high) == v
  {
  }

  // ---------------------------------------------------------------- title

  /** `updateTitle`: "Hex Editor", then " - " and the file name when a file
      is open, then " *" when it is also modified. */
  function Title(currentFile: Option<string>, modified: bool): string
  {
    "Hex Editor" + match currentFile
                   case None => ""
                   case Some(f) => " - " + f + (if modified then " *" else "")
  }

  /** The title shows the file and, through its length, whether it is
      modified; with no file it is the bare application name whatever the
      flag says. */
  lemma TitleShows(currentFile: Option<string>, modified: bool)
    ensures var t := Title(currentFile, modified);
            (currentFile.None? ==> t == "Hex Editor") &&
            (currentFile.Some? ==>
               t[..13 + |currentFile.value|] == "Hex Editor - " + currentFile.value &&
               |t| == 13 + |currentFile.value| + (if modified then 2 else 0) &&
               (modified ==> t[|t| - 2..] == " *"))
  {
  }

  /** Different files or different modified states of the same file never
      share a title. */
  lemma TitleDistinguishes(f: string, m: bool, f': string, m': bool)
    requires Title(Some(f), m) == Title(Some(f'), m')
    requires |f| == |f'| || m == m'
    ensures f == f' && m == m'
  {
    var t := Title(Some(f), m);
    assert |f| == |f'| && m == m';
    assert t[13..13 + |f|] == f && t[13..13 + |f'|] == f';
  }
}
