/** `Controller`: the key handler of the hex pane. A typed hex digit
    overwrites the digit under the caret, both panes are patched, the caret
    moves to the next digit and the editor is marked modified. */
module KeyInput {
  import opened Common
  import opened HexUtils
  import opened Grid
  import opened Render
  import opened Addressing
  import opened Widgets
  import opened Display
  import opened Editing

  class Controller {
    const hexText: StyledText
    const hexEditor: HexEditor

    predicate Valid()
      reads this, hexEditor, hexEditor.displayManager
    {
      hexEditor.Valid() && hexText == hexEditor.hexText
    }

    constructor (hexText: StyledText, hexEditor: HexEditor)
      ensures this.hexText == hexText && this.hexEditor == hexEditor
    {
      this.hexText := hexText;
      this.hexEditor := hexEditor;
    }

    /** `handleHexKeyPress`: the key never reaches the widget. Without a
        buffer, for a key that is not a hex digit, or with the caret off
        the digits of a byte of the buffer, nothing else happens. Otherwise
        the digit is written into the byte, the panes are patched and still
        show the buffer, the caret moves to the next digit (or stays, at
        the last digit of the buffer), and the title shows the file as
        modified. */
    method HandleHexKeyPress(e: KeyEvent, fileData: array?<Byte>)
      requires Valid() && fileData == hexEditor.fileData
      requires fileData != null ==> hexEditor.Rendered()
      modifies e, hexEditor, hexText, hexEditor.asciiText, fileData
      ensures !e.doit
      ensures var pos := PositionAt(old(hexText.text), old(hexText.caretOffset));
              fileData == null || !IsHexChar(e.character) || pos.None? || pos.value.byteIndex >= fileData.Length ==>
                unchanged(hexEditor) && unchanged(hexText) && unchanged(hexEditor.asciiText)
                && (fileData != null ==> unchanged(fileData))
      ensures var pos := PositionAt(old(hexText.text), old(hexText.caretOffset));
              fileData != null && IsHexChar(e.character) && pos.Some? && pos.value.byteIndex < fileData.Length ==>
                var i := pos.value.byteIndex;
                var next := NextNibble(pos.value);
                fileData[..] == old(fileData[..])[i := SetNibble(old(fileData[i]), DigitValue(e.character), pos.value.isHighNibble)]
                && hexEditor.fileData == fileData && hexEditor.Rendered()
                && hexText.topIndex == old(hexText.topIndex) && hexEditor.asciiText.topIndex == old(hexText.topIndex)
                && hexEditor.asciiText.caretOffset == old(hexEditor.asciiText.caretOffset)
                && hexText.caretOffset == (if next.0 < fileData.Length then HexCellOffset(next.0) + (if next.1 then 0 else 1)
                                           else old(hexText.caretOffset))
                && hexEditor.modified && hexEditor.shellModified
                && hexEditor.currentFile == old(hexEditor.currentFile)
                && hexEditor.title == Title(hexEditor.currentFile, true)
                && hexEditor.status == old(hexEditor.status) && hexEditor.messages == old(hexEditor.messages)
    {
      if fileData == null {
        e.doit := false;
        return;
      }
      var c := e.character;
      if !IsHexChar(c) {
        e.doit := false;
        return;
      }
      e.doit := false;
      var offset := hexText.caretOffset;
      var pos := hexEditor.GetHexPosition(offset);
      if pos.None? || pos.value.byteIndex >= fileData.Length {
        return;
      }
      EditDigit(pos.value, c, fileData);
    }

    /** The edit sequence of `handleHexKeyPress` once the caret is on a
        digit of byte `pos.byteIndex` of the buffer: write the digit, patch
        both panes keeping the hex pane's top line, step the caret, mark
        the editor modified and retitle it. */
    method EditDigit(pos: HexPosition, c: char, fileData: array<Byte>)
      requires Valid() && fileData == hexEditor.fileData && hexEditor.Rendered()
      requires IsHexChar(c) && pos.byteIndex < fileData.Length
      requires PositionAt(hexText.text, hexText.caretOffset) == Some(pos)
      modifies hexEditor, hexText, hexEditor.asciiText, fileData
      ensures var i := pos.byteIndex;
              var next := NextNibble(pos);
              fileData[..] == old(fileData[..])[i := SetNibble(old(fileData[i]), DigitValue(c), pos.isHighNibble)]
              && hexEditor.fileData == fileData && hexEditor.Rendered()
              && hexText.topIndex == old(hexText.topIndex) && hexEditor.asciiText.topIndex == old(hexText.topIndex)
              && hexEditor.asciiText.caretOffset == old(hexEditor.asciiText.caretOffset)
              && hexText.caretOffset == (if next.0 < fileData.Length then HexCellOffset(next.0) + (if next.1 then 0 else 1)
                                         else old(hexText.caretOffset))
              && hexEditor.modified && hexEditor.shellModified
              && hexEditor.currentFile == old(hexEditor.currentFile)
              && hexEditor.title == Title(hexEditor.currentFile, true)
              && hexEditor.status == old(hexEditor.status) && hexEditor.messages == old(hexEditor.messages)
    {
      WriteDigit(pos, c, fileData);
      hexEditor.MoveToNextHexPosition(pos);
      hexEditor.SetModified(true);
      hexEditor.UpdateTitle();
    }

    /** The first half of the edit: write the digit into the byte and patch
        both panes, keeping the hex pane's top line and caret. */
    method WriteDigit(pos: HexPosition, c: char, fileData: array<Byte>)
      requires Valid() && fileData == hexEditor.fileData && hexEditor.Rendered()
      requires IsHexChar(c) && pos.byteIndex < fileData.Length
      modifies hexText, hexEditor.asciiText, fileData
      ensures fileData[..] == old(fileData[..])[pos.byteIndex := SetNibble(old(fileData[pos.byteIndex]), DigitValue(c), pos.isHighNibble)]
      ensures hexEditor.Rendered()
      ensures hexText.topIndex == old(hexText.topIndex) && hexEditor.asciiText.topIndex == old(hexText.topIndex)
      ensures hexText.caretOffset == old(hexText.caretOffset)
      ensures hexEditor.asciiText.caretOffset == old(hexEditor.asciiText.caretOffset)
    {
      var topIndex := hexText.topIndex;
      ghost var d := fileData[..];
      ghost var v := SetNibble(d[pos.byteIndex], DigitValue(c), pos.isHighNibble);
      hexEditor.UpdateByteAtPosition(pos, c);
      assert fileData[..] == d[pos.byteIndex := v];
      PatchedPanesShowEdit(d, pos.byteIndex, v);
      hexEditor.UpdateSingleByteDisplay(pos.byteIndex, topIndex);
    }
  }

  /** What the user sees after typing a digit: the digit under the caret
      now shows the typed digit in upper case, and the byte's other digit
      is what it was. */
  lemma TypedDigitShows(d: seq<Byte>, i: nat, c: char, high: bool)
    requires i < |d| && IsHexChar(c)
    ensures var d' := d[i := SetNibble(d[i], DigitValue(c), high)];
            var here := HexCellOffset(i) + (if high then 0 else 1);
            var other := HexCellOffset(i) + (if high then 1 else 0);
            other < |HexPane(d')| && |HexPane(d')| == |HexPane(d)|
            && HexPane(d')[here] == UpperDigit(DigitValue(c))
            && HexPane(d')[other] == HexPane(d)[other]
  {
    var d' := d[i := SetNibble(d[i], DigitValue(c), high)];
    HexPaneCell(d, i);
    HexPaneCell(d', i);
    SetNibbleDigits(d[i], DigitValue(c), high);
    var o := HexCellOffset(i);
    assert HexPane(d)[o] == HexByte(d[i])[0] && HexPane(d)[o + 1] == HexByte(d[i])[1];
    assert HexPane(d')[o] == HexByte(d'[i])[0] && HexPane(d')[o + 1] == HexByte(d'[i])[1];
  }
}
