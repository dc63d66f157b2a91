/** `DisplayManager`: fills the offset, hex and ASCII panes from the buffer,
    and patches the two cells of one byte after an edit. */
module Display {
  import opened Common
  import opened HexUtils
  import opened Grid
  import opened Render
  import opened Widgets

  class DisplayManager {
    const offsetText: StyledText
    const hexText: StyledText
    const asciiText: StyledText
    const bytesPerLine: nat

    /** Three distinct panes and the 16-byte line. */
    predicate Valid()
      reads this
    {
      offsetText != hexText && offsetText != asciiText && hexText != asciiText
      && bytesPerLine == BytesPerLine
    }

    /** The panes show the full rendering of `d`. */
    predicate Shows(d: seq<Byte>)
      reads this, offsetText, hexText, asciiText
    {
      offsetText.text == OffsetPane(d) && hexText.text == HexPane(d) && asciiText.text == AsciiPane(d)
    }

    constructor (offsetText: StyledText, hexText: StyledText, asciiText: StyledText)
      requires offsetText != hexText && offsetText != asciiText && hexText != asciiText
      ensures this.offsetText == offsetText && this.hexText == hexText && this.asciiText == asciiText
      ensures Valid()
    {
      this.offsetText := offsetText;
      this.hexText := hexText;
      this.asciiText := asciiText;
      this.bytesPerLine := BytesPerLine;
    }

    /** `displayHexData`: three empty panes without a buffer; otherwise the
        full rendering, built line by line. Setting the text puts every
        pane's caret and top line back at the start. */
    method DisplayHexData(fileData: array?<Byte>)
      requires Valid()
      modifies offsetText, hexText, asciiText
      ensures fileData == null ==> offsetText.text == [] && hexText.text == [] && asciiText.text == []
      ensures fileData != null ==> Shows(fileData[..])
      ensures offsetText.caretOffset == 0 && hexText.caretOffset == 0 && asciiText.caretOffset == 0
      ensures offsetText.topIndex == 0 && hexText.topIndex == 0 && asciiText.topIndex == 0
    {
      if fileData == null {
        offsetText.SetText("");
        hexText.SetText("");
        asciiText.SetText("");
        return;
      }
      var offsetBuilder, hexBuilder, asciiBuilder := BuildPanes(fileData);
      offsetText.SetText(offsetBuilder);
      hexText.SetText(hexBuilder);
      asciiText.SetText(asciiBuilder);
    }

    /** `refreshDisplay`: re-render, then put the hex pane's caret back,
        but only when the old offset is not past the end of the new text;
        otherwise it stays at the start. */
    method RefreshDisplay(fileData: array?<Byte>, caretOffset: int)
      requires Valid()
      modifies offsetText, hexText, asciiText
      ensures fileData == null ==> offsetText.text == [] && hexText.text == [] && asciiText.text == []
      ensures fileData != null ==> Shows(fileData[..])
      ensures hexText.caretOffset == if caretOffset <= |hexText.text| then ClampCaret(caretOffset, |hexText.text|) else 0
      ensures hexText.caretOffset <= |hexText.text|
      ensures offsetText.caretOffset == 0 && asciiText.caretOffset == 0
      ensures offsetText.topIndex == 0 && hexText.topIndex == 0 && asciiText.topIndex == 0
    {
      DisplayHexData(fileData);
      if caretOffset <= |hexText.text| {
        hexText.SetCaretOffset(caretOffset);
      }
    }

    /** `refreshDisplayPreservingScroll`: as `refreshDisplay`, and every
        pane scrolls back to `topIndex`. */
    method RefreshDisplayPreservingScroll(fileData: array?<Byte>, caretOffset: int, topIndex: int)
      requires Valid()
      modifies offsetText, hexText, asciiText
      ensures fileData == null ==> offsetText.text == [] && hexText.text == [] && asciiText.text == []
      ensures fileData != null ==> Shows(fileData[..])
      ensures offsetText.topIndex == topIndex && hexText.topIndex == topIndex && asciiText.topIndex == topIndex
      ensures offsetText.caretOffset == 0 && asciiText.caretOffset == 0
      ensures hexText.caretOffset == if caretOffset <= |hexText.text| then ClampCaret(caretOffset, |hexText.text|) else 0
    {
      DisplayHexData(fileData);
      offsetText.SetTopIndex(topIndex);
      hexText.SetTopIndex(topIndex);
      asciiText.SetTopIndex(topIndex);
      if caretOffset <= |hexText.text| {
        hexText.SetCaretOffset(caretOffset);
      }
    }

    /** `updateAsciiByte`: overwrite the byte's character in the ASCII pane,
        at 17 per line plus the slot. */
    method UpdateAsciiByte(line: nat, byteInLine: nat, b: Byte)
      requires Valid() && byteInLine < 16 && 17 * line + byteInLine + 1 <= |asciiText.text|
      modifies asciiText
      ensures asciiText.text == Splice(old(asciiText.text), 17 * line + byteInLine, [AsciiChar(b)])
      ensures asciiText.caretOffset == old(asciiText.caretOffset) && asciiText.topIndex == old(asciiText.topIndex)
    {
      var asciiLineLength := bytesPerLine + 1;
      var lineStartOffset := line * asciiLineLength;
      var byteOffset := lineStartOffset + byteInLine;
      var c := if b >= 32 && b <= 126 then [b as char] else ".";
      asciiText.ReplaceTextRange(byteOffset, 1, c);
    }

    /** `updateHexByte`: overwrite the byte's two digits in the hex pane, at
        50 per line plus the slot's column. A caret on the byte's low digit
        ends up behind the cell. */
    method UpdateHexByte(line: nat, byteInLine: nat, b: Byte)
      requires Valid() && byteInLine < 16 && 50 * line + Column(byteInLine) + 2 <= |hexText.text|
      modifies hexText
      ensures hexText.text == Splice(old(hexText.text), 50 * line + Column(byteInLine), HexByte(b))
      ensures var at := 50 * line + Column(byteInLine);
              hexText.caretOffset == if at < old(hexText.caretOffset) < at + 2 then at + 2 else old(hexText.caretOffset)
      ensures hexText.topIndex == old(hexText.topIndex)
    {
      var hexLineLength := bytesPerLine * 3 + 1 + 1;
      var lineStartOffset := line * hexLineLength;
      var bytePosition := byteInLine * 3;
      if byteInLine >= 8 {
        bytePosition := bytePosition + 1;
      }
      var byteOffset := lineStartOffset + bytePosition;
      var hexValue := HexByte(b);
      hexText.ReplaceTextRange(byteOffset, 2, hexValue);
    }

    /** `updateSingleByte`: nothing without a buffer or for an index outside
        it; otherwise patch the byte's hex and ASCII cells, scroll both
        panes to `topIndex` and put the caret back if it is not past the
        end; otherwise the caret is where the patch left it. */
    method UpdateSingleByte(fileData: array?<Byte>, byteIndex: int, caretOffset: int, topIndex: int)
      requires Valid()
      requires fileData != null && 0 <= byteIndex < fileData.Length ==>
                 HexCellOffset(byteIndex) + 2 <= |hexText.text| && AsciiCellOffset(byteIndex) + 1 <= |asciiText.text|
      modifies hexText, asciiText
      ensures fileData == null || byteIndex < 0 || byteIndex >= fileData.Length ==>
                unchanged(hexText) && unchanged(asciiText)
      ensures fileData != null && 0 <= byteIndex < fileData.Length ==>
                hexText.text == Splice(old(hexText.text), HexCellOffset(byteIndex), HexByte(fileData[byteIndex]))
                && asciiText.text == Splice(old(asciiText.text), AsciiCellOffset(byteIndex), [AsciiChar(fileData[byteIndex])])
                && hexText.topIndex == topIndex && asciiText.topIndex == topIndex
                && asciiText.caretOffset == old(asciiText.caretOffset)
                && hexText.caretOffset == if caretOffset <= |hexText.text| then ClampCaret(caretOffset, |hexText.text|)
                                          else if HexCellOffset(byteIndex) < old(hexText.caretOffset) < HexCellOffset(byteIndex) + 2
                                          then HexCellOffset(byteIndex) + 2
                                          else old(hexText.caretOffset)
    {
      if fileData == null || byteIndex < 0 || byteIndex >= fileData.Length {
        return;
      }
      var line := byteIndex / bytesPerLine;
      var byteInLine := byteIndex % bytesPerLine;
      assert HexCellOffset(byteIndex) == 50 * line + Column(byteInLine);
      assert AsciiCellOffset(byteIndex) == 17 * line + byteInLine;
      UpdateHexByte(line, byteInLine, fileData[byteIndex]);
      UpdateAsciiByte(line, byteInLine, fileData[byteIndex]);
      hexText.SetTopIndex(topIndex);
      asciiText.SetTopIndex(topIndex);
      if caretOffset <= |hexText.text| {
        hexText.SetCaretOffset(caretOffset);
      }
    }
  }

  /** THE INCREMENTAL UPDATE, stated on the panes the method leaves: when the
      panes showed `d` and byte `i` is then set to `v`, the patched hex and
      ASCII panes are the rendering of the new buffer. */
  lemma PatchedPanesShowEdit(d: seq<Byte>, i: nat, v: Byte)
    requires i < |d|
    ensures HexCellOffset(i) + 2 <= |HexPane(d)| && AsciiCellOffset(i) + 1 <= |AsciiPane(d)|
    ensures Splice(HexPane(d), HexCellOffset(i), HexByte(v)) == HexPane(d[i := v])
    ensures Splice(AsciiPane(d), AsciiCellOffset(i), [AsciiChar(v)]) == AsciiPane(d[i := v])
    ensures OffsetPane(d) == OffsetPane(d[i := v])
  {
    HexPatchAgrees(d, i, v);
    AsciiPatchAgrees(d, i, v);
  }

  /** The loop of `displayHexData`: one offset line, one hex line and one
      ASCII line per 16 bytes, built up in three strings. */
  method BuildPanes(fileData: array<Byte>) returns (offsetBuilder: string, hexBuilder: string, asciiBuilder: string)
    ensures offsetBuilder == OffsetPane(fileData[..])
    ensures hexBuilder == HexPane(fileData[..])
    ensures asciiBuilder == AsciiPane(fileData[..])
  {
    hexBuilder, asciiBuilder, offsetBuilder := "", "", "";
    var i := 0;
    ghost var line := 0;
    while i < fileData.Length
      invariant i == 16 * line && line <= LineCount(fileData.Length)
      invariant hexBuilder == HexLines(fileData[..], line)
      invariant asciiBuilder == AsciiLines(fileData[..], line)
      invariant offsetBuilder == OffsetLines(line)
      decreases fileData.Length - i
    {
      offsetBuilder, hexBuilder, asciiBuilder := AppendLine(fileData, i, line, offsetBuilder, hexBuilder, asciiBuilder);
      i := i + BytesPerLine;
      line := line + 1;
    }
    LinesComplete(fileData.Length, line);
  }

  /** One pass of that loop: line `line`, whose first byte is `i`, appended
      to each of the three panes. */
  method AppendLine(fileData: array<Byte>, i: nat, ghost line: nat, offsetBuilder: string, hexBuilder: string, asciiBuilder: string)
    returns (offsetBuilder': string, hexBuilder': string, asciiBuilder': string)
    requires i == 16 * line && i < fileData.Length
    requires hexBuilder == HexLines(fileData[..], line)
    requires asciiBuilder == AsciiLines(fileData[..], line)
    requires offsetBuilder == OffsetLines(line)
    ensures line + 1 <= LineCount(fileData.Length)
    ensures hexBuilder' == HexLines(fileData[..], line + 1)
    ensures asciiBuilder' == AsciiLines(fileData[..], line + 1)
    ensures offsetBuilder' == OffsetLines(line + 1)
  {
    offsetBuilder' := offsetBuilder + HexDigits(i, 8) + "\n";
    hexBuilder' := AppendHexLine(fileData, i, hexBuilder);
    asciiBuilder' := AppendAsciiLine(fileData, i, asciiBuilder);
    HexLineAppended(fileData[..], line, hexBuilder, hexBuilder');
    AsciiLineAppended(fileData[..], line, asciiBuilder, asciiBuilder');
    OffsetLineAppended(line, offsetBuilder, offsetBuilder');
  }

  /** One line of the hex pane, as the inner loop of `displayHexData`
      appends it: the 16 cells of the line starting at byte `i`, padded past
      the end of the buffer, and a line feed. */
  method AppendHexLine(fileData: array<Byte>, i: nat, hexBuilder: string) returns (r: string)
    ensures r == hexBuilder + HexCells(fileData[..], i, 16) + "\n"
  {
    ghost var d := fileData[..];
    r := hexBuilder;
    var j := 0;
    while j < BytesPerLine
      invariant 0 <= j <= 16
      invariant r == hexBuilder + HexCells(d, i, j)
    {
      ghost var before := r;
      if i + j < fileData.Length {
        var b := fileData[i + j];
        r := r + HexByte(b) + " ";
      } else {
        r := r + "   ";
      }
      ghost var mid := r;
      if j == 7 {
        r := r + " ";
      }
      HexCellAppended(d, i, j, hexBuilder, before, mid, r);
      j := j + 1;
    }
    r := r + "\n";
  }

  /** One line of the ASCII pane, as the second inner loop of
      `displayHexData` appends it: the characters of the bytes from `i`,
      at most 16 and none past the end of the buffer, and a line feed. */
  method AppendAsciiLine(fileData: array<Byte>, i: nat, asciiBuilder: string) returns (r: string)
    requires i < fileData.Length
    ensures r == asciiBuilder + AsciiCells(fileData[..], i, Min(16, fileData.Length - i)) + "\n"
  {
    ghost var d := fileData[..];
    r := asciiBuilder;
    var j := 0;
    while j < BytesPerLine && i + j < fileData.Length
      invariant 0 <= j <= Min(16, |d| - i)
      invariant r == asciiBuilder + AsciiCells(d, i, j)
    {
      var b := fileData[i + j];
      var c := if b >= 32 && b <= 126 then b as char else '.';
      AsciiCellAppended(asciiBuilder, d, i, j);
      r := r + [c];
      j := j + 1;
    }
    r := r + "\n";
  }

  // ------------------------------------------------ steps of the render loop

  lemma HexCellAppended(d: seq<Byte>, start: nat, j: nat, p: string, before: string, mid: string, after: string)
    requires before == p + HexCells(d, start, j)
    requires mid == before + if start + j < |d| then HexByte(d[start + j]) + " " else "   "
    requires after == mid + if j == 7 then " " else ""
    ensures after == p + HexCells(d, start, j + 1)
  {
    assert after == p + (HexCells(d, start, j) + HexCell(ByteAt(d, start + j), j));
  }

  lemma AsciiCellAppended(p: string, d: seq<Byte>, start: nat, j: nat)
    requires start + j < |d|
    ensures p + AsciiCells(d, start, j) + [AsciiChar(d[start + j])] == p + AsciiCells(d, start, j + 1)
  {
  }

  lemma HexLineAppended(d: seq<Byte>, k: nat, before: string, after: string)
    requires before == HexLines(d, k) && after == before + HexCells(d, 16 * k, 16) + "\n"
    ensures after == HexLines(d, k + 1)
  {
  }

  lemma AsciiLineAppended(d: seq<Byte>, k: nat, before: string, after: string)
    requires 16 * k < |d| && k <= LineCount(|d|) && before == AsciiLines(d, k)
    requires after == before + AsciiCells(d, 16 * k, Min(16, |d| - 16 * k)) + "\n"
    ensures k + 1 <= LineCount(|d|)
    ensures after == AsciiLines(d, k + 1)
  {
    assert AsciiLines(d, k + 1) == AsciiLines(d, k) + AsciiLine(d, k);
  }

  lemma OffsetLineAppended(k: nat, before: string, after: string)
    requires before == OffsetLines(k) && after == before + HexDigits(16 * k, 8) + "\n"
    ensures after == OffsetLines(k + 1)
  {
  }

  lemma LinesComplete(n: nat, lines: nat)
    requires 16 * lines >= n && (lines == 0 || 16 * (lines - 1) < n)
    ensures LineCount(n) == lines
  {
  }
}
