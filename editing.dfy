/** `HexEditor`: the editor's state (the buffer, the modified flag, the open
    file, the window title and status line) and the operations on the hex
    pane that the key handler and the find and go-to dialogs use. */
module Editing {
  import opened Common
  import opened HexUtils
  import opened Grid
  import opened Render
  import opened Addressing
  import opened Widgets
  import opened Display

  class HexEditor {
    /** The buffer being edited; `null` until a file is opened. */
    var fileData: array?<Byte>
    var modified: bool
    var currentFile: Option<string>
    /** The shell's text and modified mark. */
    var title: string
    var shellModified: bool
    /** The status line's text. */
    var status: string
    /** Message boxes shown, as (title, message). */
    var messages: seq<(string, string)>
    const offsetText: StyledText
    const hexText: StyledText
    const asciiText: StyledText
    const displayManager: DisplayManager

    /** The panes belong to the display manager, and the shell's modified
        mark agrees with the flag. */
    predicate Valid()
      reads this, displayManager
    {
      modified == shellModified
      && displayManager.Valid()
      && displayManager.offsetText == offsetText
      && displayManager.hexText == hexText
      && displayManager.asciiText == asciiText
    }

    /** A buffer is open and the three panes show it. */
    predicate Rendered()
      reads this, fileData, offsetText, hexText, asciiText
    {
      fileData != null
      && offsetText.text == OffsetPane(fileData[..])
      && hexText.text == HexPane(fileData[..])
      && asciiText.text == AsciiPane(fileData[..])
    }

    /** A fresh editor: no buffer, empty panes, title "Hex Editor" and
        status "Ready". */
    constructor ()
      ensures Valid() && fresh(offsetText) && fresh(hexText) && fresh(asciiText)
      ensures fileData == null && !modified && currentFile == None && messages == []
      ensures title == "Hex Editor" && status == "Ready"
      ensures offsetText.text == [] && hexText.text == [] && asciiText.text == []
    {
      fileData := null;
      modified := false;
      currentFile := None;
      shellModified := false;
      messages := [];
      title := "Hex Editor";
      var o := new StyledText();
      var h := new StyledText();
      var a := new StyledText();
      offsetText, hexText, asciiText := o, h, a;
      displayManager := new DisplayManager(o, h, a);
      status := "Ready";
    }

    /** `isModified`: the flag, which is also what the shell shows. */
    function IsModified(): (m: bool)
      reads this, displayManager
      requires Valid()
      ensures m == modified && m == shellModified
    {
      modified
    }

    /** Sets the flag and the shell's modified mark together. */
    method SetModified(modified: bool)
      modifies this
      ensures this.modified == modified && shellModified == modified
      ensures fileData == old(fileData) && currentFile == old(currentFile) && title == old(title)
      ensures status == old(status) && messages == old(messages)
    {
      this.modified := modified;
      shellModified := modified;
    }

    /** `updateTitle`: rebuilds the shell's text from the file and the flag. */
    method UpdateTitle()
      requires Valid()
      modifies this
      ensures title == Title(currentFile, modified)
      ensures fileData == old(fileData) && currentFile == old(currentFile) && modified == old(modified)
      ensures shellModified == old(shellModified) && status == old(status) && messages == old(messages)
    {
      var t := "Hex Editor";
      if currentFile.Some? {
        t := t + " - " + currentFile.value;
        if IsModified() {
          t := t + " *";
        }
      }
      title := t;
    }

    /** `getHexPosition`: counts the line feeds before `textOffset` to find
        its line and where that line starts, then looks for the cell whose
        digits cover the column. */
    method GetHexPosition(textOffset: int) returns (pos: Option<HexPosition>)
      ensures pos == PositionAt(hexText.text, textOffset)
    {
      var text := hexText.text;
      if textOffset >= |text| {
        return None;
      }
      var lineStart, lineNum := ScanLines(text, textOffset);
      var colInLine := textOffset - lineStart;
      var b := 0;
      while b < BytesPerLine
        invariant 0 <= b <= 16
        invariant forall k :: 0 <= k < b ==> colInLine != Column(k) && colInLine != Column(k) + 1
      {
        var hexPos := b * 3;
        if b >= 8 {
          hexPos := hexPos + 1;
        }
        if colInLine >= hexPos && colInLine <= hexPos + 1 {
          var byteIndex := lineNum * BytesPerLine + b;
          var isHighNibble := colInLine == hexPos;
          var correctOffset := lineStart + hexPos + (if isHighNibble then 0 else 1);
          assert CellAt(colInLine) == Some((b, isHighNibble)) by {
            CellAtCell(b, isHighNibble);
          }
          return Some(HexPosition(byteIndex, isHighNibble, correctOffset));
        }
        b := b + 1;
      }
      assert CellAt(colInLine) == None;
      return None;
    }

    /** `getLineStartOffset`: walks the hex pane counting line feeds until
        `lineNumber` of them have been passed or the text ends. */
    method GetLineStartOffset(lineNumber: int) returns (offset: nat)
      ensures offset == LineStart(hexText.text, lineNumber)
    {
      var text := hexText.text;
      offset := 0;
      var currentLine := 0;
      while currentLine < lineNumber && offset < |text|
        invariant 0 <= offset <= |text|
        invariant currentLine == Newlines(text[..offset])
        invariant lineNumber <= 0 ==> offset == 0
        invariant lineNumber > 0 ==> currentLine <= lineNumber
        invariant 0 < currentLine == lineNumber ==> offset > 0 && text[offset - 1] == '\n'
      {
        LineScanStep(text, offset);
        if text[offset] == '\n' {
          currentLine := currentLine + 1;
        }
        offset := offset + 1;
      }
      if 0 < currentLine == lineNumber {
        LineStartIs(text, currentLine, offset);
      } else if lineNumber > 0 {
        assert text[..offset] == text;
      }
    }

    /** `gotoOffset`: for an offset inside the buffer, scrolls the hex pane
        to the byte's line and puts the caret on its high digit; otherwise
        does nothing. */
    method GotoOffset(offset: int)
      modifies hexText
      ensures fileData == null || offset < 0 || offset >= fileData.Length ==> unchanged(hexText)
      ensures fileData != null && 0 <= offset < fileData.Length ==>
                hexText.text == old(hexText.text) && hexText.topIndex == offset / 16
                && hexText.caretOffset == ClampCaret(CellCaret(hexText.text, offset, true), |hexText.text|)
      ensures fileData != null && 0 <= offset < fileData.Length && old(Rendered()) ==>
                hexText.caretOffset == HexCellOffset(offset)
                && PositionAt(hexText.text, hexText.caretOffset) == Some(HexPosition(offset, true, hexText.caretOffset))
    {
      if fileData == null || offset < 0 || offset >= fileData.Length {
        return;
      }
      var line := offset / BytesPerLine;
      var byteInLine := offset % BytesPerLine;
      var column := byteInLine * 3;
      if byteInLine >= 8 {
        column := column + 1;
      }
      var lineStartOffset := GetLineStartOffset(line);
      var caretOffset := lineStartOffset + column;
      assert caretOffset == CellCaret(hexText.text, offset, true);
      if Rendered() {
        CellCaretOnPane(fileData[..], offset, true);
      }
      hexText.SetTopIndex(line);
      hexText.SetCaretOffset(caretOffset);
    }

    /** `moveToNextHexPosition`: puts the caret on the digit after `pos`
        (see `NextNibble`), unless that digit belongs to a byte past the
        end of the buffer. */
    method MoveToNextHexPosition(pos: HexPosition)
      requires fileData != null
      modifies hexText
      ensures NextNibble(pos).0 >= fileData.Length ==> unchanged(hexText)
      ensures NextNibble(pos).0 < fileData.Length ==>
                hexText.text == old(hexText.text) && hexText.topIndex == old(hexText.topIndex)
                && hexText.caretOffset == ClampCaret(CellCaret(hexText.text, NextNibble(pos).0, NextNibble(pos).1), |hexText.text|)
      ensures NextNibble(pos).0 < fileData.Length && old(Rendered()) ==>
                hexText.caretOffset == HexCellOffset(NextNibble(pos).0) + (if NextNibble(pos).1 then 0 else 1)
                && PositionAt(hexText.text, hexText.caretOffset)
                   == Some(HexPosition(NextNibble(pos).0, NextNibble(pos).1, hexText.caretOffset))
    {
      var nextByteIndex: nat;
      var nextIsHighNibble: bool;
      if pos.isHighNibble {
        nextByteIndex := pos.byteIndex;
        nextIsHighNibble := false;
      } else {
        nextByteIndex := pos.byteIndex + 1;
        nextIsHighNibble := true;
      }
      assert NextNibble(pos).0 == nextByteIndex && NextNibble(pos).1 == nextIsHighNibble;
      if nextByteIndex >= fileData.Length {
        return;
      }
      var line := nextByteIndex / BytesPerLine;
      var byteInLine := nextByteIndex % BytesPerLine;
      var hexPos := byteInLine * 3;
      if byteInLine >= 8 {
        hexPos := hexPos + 1;
      }
      var lineStartOffset := GetLineStartOffset(line);
      var targetOffset := lineStartOffset + hexPos + (if nextIsHighNibble then 0 else 1);
      assert targetOffset == CellCaret(hexText.text, nextByteIndex, nextIsHighNibble);
      if Rendered() {
        CellCaretOnPane(fileData[..], nextByteIndex, nextIsHighNibble);
      }
      hexText.SetCaretOffset(targetOffset);
    }

    /** `updateByteAtPosition`: the typed digit replaces the high or low
        digit of the byte at `pos`. */
    method UpdateByteAtPosition(pos: HexPosition, hexChar: char)
      requires fileData != null && pos.byteIndex < fileData.Length && IsHexChar(hexChar)
      modifies fileData
      ensures fileData[..] == old(fileData[..])[pos.byteIndex := SetNibble(old(fileData[pos.byteIndex]), DigitValue(hexChar), pos.isHighNibble)]
    {
      var currentValue := fileData[pos.byteIndex];
      var newNibble := DigitValue(hexChar);
      var newValue: Byte;
      // The shift and masks of the source, on 8 bits (see `SetNibbleBits`).
      if pos.isHighNibble {
        newValue := newNibble * 16 + currentValue % 16;
      } else {
        newValue := currentValue / 16 * 16 + newNibble;
      }
      fileData[pos.byteIndex] := newValue;
    }

    /** `updateSingleByteDisplay`: without a buffer nothing; otherwise the
        display's single-byte patch, with the hex pane's current caret. */
    method UpdateSingleByteDisplay(byteIndex: int, topIndex: int)
      requires Valid()
      requires fileData != null && 0 <= byteIndex < fileData.Length ==>
                 HexCellOffset(byteIndex) + 2 <= |hexText.text| && AsciiCellOffset(byteIndex) + 1 <= |asciiText.text|
      modifies hexText, asciiText
      ensures fileData == null || byteIndex < 0 || byteIndex >= fileData.Length ==>
                unchanged(hexText) && unchanged(asciiText)
      ensures fileData != null && 0 <= byteIndex < fileData.Length ==>
                hexText.text == Splice(old(hexText.text), HexCellOffset(byteIndex), HexByte(fileData[byteIndex]))
                && asciiText.text == Splice(old(asciiText.text), AsciiCellOffset(byteIndex), [AsciiChar(fileData[byteIndex])])
                && hexText.topIndex == topIndex && asciiText.topIndex == topIndex
                && asciiText.caretOffset == old(asciiText.caretOffset)
                && hexText.caretOffset == old(hexText.caretOffset)
    {
      if fileData == null {
        return;
      }
      var caretOffset := hexText.caretOffset;
      displayManager.UpdateSingleByte(fileData, byteIndex, caretOffset, topIndex);
    }

    /** `refreshDisplay`: without a buffer, empty panes; otherwise a full
        render that puts the hex pane's caret back where it was. */
    method RefreshDisplay()
      requires Valid()
      modifies offsetText, hexText, asciiText
      ensures fileData == null ==> offsetText.text == [] && hexText.text == [] && asciiText.text == []
      ensures fileData != null ==> Rendered()
      ensures fileData != null ==>
                hexText.caretOffset == if old(hexText.caretOffset) <= |hexText.text| then old(hexText.caretOffset) else 0
      ensures fileData == null ==> hexText.caretOffset == 0
      ensures offsetText.caretOffset == 0 && asciiText.caretOffset == 0
      ensures offsetText.topIndex == 0 && hexText.topIndex == 0 && asciiText.topIndex == 0
    {
      if fileData == null {
        displayManager.DisplayHexData(fileData);
        return;
      }
      var caretOffset := hexText.caretOffset;
      displayManager.RefreshDisplay(fileData, caretOffset);
    }

    /** `findInHex`: parses the search string; an invalid one shows an error
        box, otherwise the first occurrence in the buffer gets the caret
        and the status line reports its offset, or reports that there is
        none. Nothing happens without a buffer. */
    method FindInHex(hexString: string)
      modifies this, hexText
      ensures fileData == old(fileData) && modified == old(modified) && currentFile == old(currentFile)
      ensures title == old(title) && shellModified == old(shellModified)
      ensures old(fileData) == null ==> unchanged(this) && unchanged(hexText)
      ensures old(fileData) != null && ParseHex(hexString).Failure? ==>
                messages == old(messages) + [("Error", "Invalid hex string")]
                && status == old(status) && unchanged(hexText)
      ensures old(fileData) != null && ParseHex(hexString).Success? ==>
                messages == old(messages)
                && var k := FirstMatch(fileData[..], ParseHex(hexString).value);
                   (k < 0 ==> status == "Not found" && unchanged(hexText))
                   && (k >= 0 ==> status == "Found at offset: 0x" + HexDigits(k, 1))
                   && (k >= |fileData[..]| ==> unchanged(hexText))
                   && (0 <= k < |fileData[..]| ==>
                         hexText.text == old(hexText.text) && hexText.topIndex == k / 16
                         && hexText.caretOffset == ClampCaret(CellCaret(hexText.text, k, true), |hexText.text|))
      ensures old(fileData) != null && ParseHex(hexString).Success? && old(Rendered()) ==>
                var k := FirstMatch(fileData[..], ParseHex(hexString).value);
                0 <= k < |fileData[..]| ==>
                  hexText.caretOffset == HexCellOffset(k)
                  && PositionAt(hexText.text, hexText.caretOffset) == Some(HexPosition(k, true, hexText.caretOffset))
    {
      if fileData == null {
        return;
      }
      var searchBytes := HexStringToBytes(hexString);
      match searchBytes {
        case Failure(_) =>
          messages := messages + [("Error", "Invalid hex string")];
        case Success(target) =>
          var foundIndex := IndexOf(fileData[..], target);
          if foundIndex >= 0 {
            GotoOffset(foundIndex);
            status := "Found at offset: 0x" + HexDigits(foundIndex, 1);
          } else {
            status := "Not found";
          }
      }
    }
  }

  /** The first loop of `getHexPosition`: the line feeds before
      `textOffset`, and where the line holding it starts. */
  method ScanLines(text: string, textOffset: int) returns (lineStart: nat, lineNum: nat)
    requires textOffset < |text|
    ensures var upto := if textOffset < 0 then 0 else textOffset;
            lineStart == LastLineStart(text, upto) && lineNum == Newlines(text[..upto])
  {
    lineStart, lineNum := 0, 0;
    var i := 0;
    while i < textOffset && i < |text|
      invariant 0 <= i <= |text| && (textOffset < 0 ==> i == 0) && (textOffset >= 0 ==> i <= textOffset)
      invariant lineStart == LastLineStart(text, i)
      invariant lineNum == Newlines(text[..i])
    {
      LineScanStep(text, i);
      if text[i] == '\n' {
        lineStart := i + 1;
        lineNum := lineNum + 1;
      }
      i := i + 1;
    }
  }

  /** One more character scanned: the line start moves past a line feed,
      and the count of line feeds grows by one for it. */
  lemma LineScanStep(text: string, i: nat)
    requires i < |text|
    ensures LastLineStart(text, i + 1) == if text[i] == '\n' then i + 1 else LastLineStart(text, i)
    ensures Newlines(text[..i + 1]) == Newlines(text[..i]) + if text[i] == '\n' then 1 else 0
  {
    assert text[..i + 1][..i] == text[..i];
  }
}
