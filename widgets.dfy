/** The state of the SWT widgets the editor reads and writes, as plain
    fields: a text pane's text, caret offset and top line, and a key event's
    character and `doit` flag. Only the behaviour the editor relies on is
    modelled. */
module Widgets {
  import opened Common

  /** Where the widget puts the caret when asked for `offset` in a text of
      `length` characters: the offset itself when it is inside the text,
      otherwise the nearer end. */
  function ClampCaret(offset: int, length: nat): (r: nat)
    ensures r <= length
    ensures 0 <= offset <= length ==> r == offset
    ensures offset < 0 ==> r == 0
    ensures offset > length ==> r == length
  {
    if offset < 0 then 0 else if offset > length then length else offset
  }

  /** A `StyledText` pane. */
  class StyledText {
    var text: string
    var caretOffset: nat
    var topIndex: int

    constructor ()
      ensures text == [] && caretOffset == 0 && topIndex == 0
    {
      text := [];
      caretOffset := 0;
      topIndex := 0;
    }

    /** Replacing the whole text puts the caret and the top line back at
        the start. */
    method SetText(s: string)
      modifies this
      ensures text == s && caretOffset == 0 && topIndex == 0
    {
      text := s;
      caretOffset := 0;
      topIndex := 0;
    }

    method SetCaretOffset(offset: int)
      modifies this
      ensures text == old(text) && topIndex == old(topIndex)
      ensures caretOffset == ClampCaret(offset, |text|)
    {
      caretOffset := ClampCaret(offset, |text|);
    }

    method SetTopIndex(index: int)
      modifies this
      ensures text == old(text) && caretOffset == old(caretOffset)
      ensures topIndex == index
    {
      topIndex := index;
    }

    /** Overwrites `length` characters from `start` with as many new ones.
        A caret strictly inside the replaced range is put behind the new
        text; anywhere else it stays, the text around it keeping its
        length. The top line stays. */
    method ReplaceTextRange(start: nat, length: nat, s: string)
      requires start + length <= |text| && |s| == length
      modifies this
      ensures text == Splice(old(text), start, s)
      ensures caretOffset == if start < old(caretOffset) < start + length then start + |s| else old(caretOffset)
      ensures topIndex == old(topIndex)
    {
      text := text[..start] + s + text[start + length..];
      if start < caretOffset < start + length {
        caretOffset := start + |s|;
      }
    }
  }

  /** A key press: the typed character, and whether the widget should still
      insert it. */
  class KeyEvent {
    const character: char
    var doit: bool

    constructor (c: char)
      ensures character == c && doit
    {
      character := c;
      doit := true;
    }
  }
}
