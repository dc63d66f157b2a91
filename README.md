# HexEdit hex-grid engine, in Dafny

A model of the core of HexEdit, an SWT hex editor, with proofs about it.
The model covers five parts:

- **The hex codec and byte search** (`HexUtils`). It turns a whitespace-tolerant hex string into bytes, finds the first occurrence of one byte sequence in another, and classifies hex digits.
- **The grid renderer** (`DisplayManager`). It fills the offset, hex and ASCII panes from the buffer. After an edit, it patches the two hex digits and the one ASCII character of a single byte.
- **The addressing and editing operations of the editor** (`HexEditor`):
  - mapping a caret offset of the hex pane to a byte and nibble;
  - finding line starts;
  - go-to and find;
  - stepping the caret;
  - writing a nibble into the buffer;
  - the window title and the modified flag.
- **The key handler of the hex pane** (`Controller`).
- **The position record** (`HexPosition`).

The editor, the display manager and the controller are classes whose methods update their fields and the panes in place. Each StyledText pane is an object holding its text, caret offset and top line. Each method's postcondition gives the new state in terms of pure specification functions:

- `HexPane`, `AsciiPane` and `OffsetPane`: the full rendering of a buffer;
- `PositionAt`: what a caret offset resolves to;
- `LineStart`: where line k of a text starts;
- `SetNibble`: a byte with one digit replaced;
- `NextNibble`: the digit after a position;
- `Title`: the window title;
- `ParseHex`: what the hex-string parser returns or throws;
- `FirstMatch`: the first occurrence of a byte sequence.

Lemmas then prove what the program relies on about those functions:

- A patched pane equals the full rendering of the edited buffer.
- Caret offsets and cells map to each other in both directions on a rendered pane.
- The hex pane parses back to the buffer.
- Lines have fixed lengths.
- Whitespace never changes what a hex string parses to.

Modules, in dependency order:

| module | file | contents |
|---|---|---|
| `Common` | `common.dfy` | bytes as 0..255, `Option`, `Result`, `Splice` (what an equal-length `replaceTextRange` does), line-feed counting |
| `HexUtils` | `hex_utils.dfy` | `IsHexChar`, digit values, `%0nX` formatting, whitespace stripping, `ParseHex` and `HexStringToBytes`, `FirstMatch` and `IndexOf` |
| `Grid` | `grid.dfy` | 16 bytes per line, the column of each cell (gap after cell 7), cell offsets in the hex and ASCII panes |
| `Render` | `render.dfy` | the three panes as functions of the buffer, their shape, and the single-byte patch lemmas |
| `Addressing` | `addressing.dfy` | `HexPosition`, `PositionAt`, `LineStart`, `NextNibble`, `SetNibble`, `Title`, and the round trips between cells and caret offsets |
| `Widgets` | `widgets.dfy` | `StyledText` (text, caret, top line) and `KeyEvent` |
| `Display` | `display.dfy` | class `DisplayManager` and the render loop |
| `Editing` | `editing.dfy` | class `HexEditor` |
| `KeyInput` | `controller.dfy` | class `Controller` |

## Model

| member | source | states |
|---|---|---|
| HexUtils.IsHexCharAlphabet | src/main/java/io/github/seerainer/hexedit/HexUtils.java:74-76 | a character is a hex digit exactly when it is one of the 22 characters 0-9, a-f, A-F |
| HexUtils.DigitValue | src/main/java/io/github/seerainer/hexedit/HexEditor.java:556 | a hex digit's value is below 16 and the digit is that value's upper- or lower-case spelling (what `Character.digit(c, 16)` yields on the validated alphabet) |
| HexUtils.DigitValueOfUpper | src/main/java/io/github/seerainer/hexedit/DisplayManager.java:52 | the value of the upper-case digit written for v is v |
| HexUtils.HexDigits | src/main/java/io/github/seerainer/hexedit/DisplayManager.java:48 | `%0nX` output is at least n characters long and is made only of upper-case hex digits |
| HexUtils.HexDigitsValue | src/main/java/io/github/seerainer/hexedit/DisplayManager.java:48 | the formatted digits read back as the number |
| HexUtils.HexDigitsLength | src/main/java/io/github/seerainer/hexedit/DisplayManager.java:48 | a number below 16^n takes exactly n digits, so no digit is lost or added |
| HexUtils.StripRemovesWhitespace | src/main/java/io/github/seerainer/hexedit/HexUtils.java:24 | after stripping no whitespace is left, and every character left comes from the input |
| HexUtils.StripAppend | src/main/java/io/github/seerainer/hexedit/HexUtils.java:24 | stripping whitespace distributes over concatenation |
| HexUtils.StripAllWhitespace | src/main/java/io/github/seerainer/hexedit/HexUtils.java:24 | a string made only of whitespace strips to the empty string |
| HexUtils.StripNoWhitespace | src/main/java/io/github/seerainer/hexedit/HexUtils.java:24 | a string with no whitespace is left unchanged |
| HexUtils.StripPadded | src/main/java/io/github/seerainer/hexedit/HexUtils.java:24 | text followed by whitespace strips to the text |
| HexUtils.FirstNonHex | src/main/java/io/github/seerainer/hexedit/HexUtils.java:28-33 | finds nothing exactly when every character is a hex digit; otherwise it finds the index of the first character that is not one |
| HexUtils.DecodePairsAt | src/main/java/io/github/seerainer/hexedit/HexUtils.java:35 | decoded byte k is 16 times the value of character 2k plus the value of character 2k+1 |
| HexUtils.ParseHexSpec | src/main/java/io/github/seerainer/hexedit/HexUtils.java:23-39 | on the stripped string: an odd length fails as odd length, and is checked before any digit; success holds exactly when the length is even and every character is a hex digit; an invalid character reports the first offending character and its index; on success the result has half the length, and byte k is made of the digits 2k and 2k+1, in either case |
| HexUtils.ParseIgnoresWhitespace | src/main/java/io/github/seerainer/hexedit/HexUtils.java:24 | two strings with the same non-whitespace characters parse to the same result |
| HexUtils.HexStringToBytes | src/main/java/io/github/seerainer/hexedit/HexUtils.java:23-39 | the validation loop and the decoding return what `ParseHex` specifies, including both failures |
| HexUtils.FirstMatchFrom | src/main/java/io/github/seerainer/hexedit/HexUtils.java:53-65 | the result is -1 or a matching index, and no index before it matches |
| HexUtils.FirstMatchIs | src/main/java/io/github/seerainer/hexedit/HexUtils.java:53-65 | a matching index with no match before it is the first match |
| HexUtils.IndexOf | src/main/java/io/github/seerainer/hexedit/HexUtils.java:49-66 | an empty target gives 0; a result of 0 or more is a match with no match before it; the result is -1 exactly when the target occurs nowhere |
| HexUtils.LongerTargetNeverMatches | src/main/java/io/github/seerainer/hexedit/HexUtils.java:53 | a target longer than the array matches at no index |
| Common.SpliceAt | src/main/java/io/github/seerainer/hexedit/DisplayManager.java:134 | an equal-length replacement changes exactly the replaced range and keeps every other character |
| Common.NewlinesAppend | src/main/java/io/github/seerainer/hexedit/HexEditor.java:308-316 | the line-feed count of a concatenation is the sum of the two counts |
| Grid.LayoutConstants | src/main/java/io/github/seerainer/hexedit/DisplayManager.java:113-123 | a hex line is 50 characters and an ASCII line 17; cell 7's digits are at columns 21-22 and cell 8's start at column 25, after its separator and the gap; the last cell's digits end at column 47, followed by one space and the line feed |
| Grid.ColumnsIncrease | src/main/java/io/github/seerainer/hexedit/DisplayManager.java:49-59 | cells are in slot order and at least 3 columns apart, so they never overlap |
| Grid.LineCount | src/main/java/io/github/seerainer/hexedit/DisplayManager.java:47 | the number of lines is the ceiling of n/16 |
| Grid.CellAt | src/main/java/io/github/seerainer/hexedit/HexEditor.java:321-333 | a column found on a cell is that cell's high or low digit; a column with no cell is on neither digit of any of the 16 slots |
| Grid.CellAtCell | src/main/java/io/github/seerainer/hexedit/HexEditor.java:321-331 | the digit columns of slot b resolve back to slot b and the right nibble |
| Grid.CellColumnsDisjoint | src/main/java/io/github/seerainer/hexedit/HexEditor.java:321-331 | no column belongs to two cells, or to both digits of one cell |
| Grid.SeparatorNotCell | src/main/java/io/github/seerainer/hexedit/HexEditor.java:321-333 | the separator after a cell, and the gap after cell 7, resolve to no cell |
| Grid.HexCellOffsetOf | src/main/java/io/github/seerainer/hexedit/DisplayManager.java:122-134 | byte 16k+b sits at column `Column(b)` of line k, which starts at offset 50k |
| Render.HexByteFormat | src/main/java/io/github/seerainer/hexedit/DisplayManager.java:52 | a hex cell is the `%02X` of the byte and reads back as the byte |
| Render.AsciiCharShowsPrintable | src/main/java/io/github/seerainer/hexedit/DisplayManager.java:63 | a byte is shown as itself exactly when it is in 32..126 |
| Render.EmptyBufferRendersEmpty | src/main/java/io/github/seerainer/hexedit/DisplayManager.java:47 | an empty buffer renders as three empty panes |
| Render.HexLinesNewlines | src/main/java/io/github/seerainer/hexedit/DisplayManager.java:60 | the hex pane has one line feed per line |
| Render.HexPaneChar | src/main/java/io/github/seerainer/hexedit/DisplayManager.java:49-60 | character c of line k is a line feed when c is 49; otherwise it is the character of slot 16k's cell, separator or gap that the column calls for, with padding past the end |
| Render.HexPaneLines | src/main/java/io/github/seerainer/hexedit/DisplayManager.java:47-60 | the hex pane has ceiling(n/16) lines of exactly 50 characters, and each line's last character is its only line feed |
| Render.HexPaneCell | src/main/java/io/github/seerainer/hexedit/DisplayManager.java:49-59 | the two characters at byte i's cell offset are the byte's `%02X` |
| Render.AsciiLinesCell | src/main/java/io/github/seerainer/hexedit/DisplayManager.java:61-66 | the character at byte i's ASCII offset is the byte's printable-or-dot character |
| Render.AsciiPaneShape | src/main/java/io/github/seerainer/hexedit/DisplayManager.java:61-66 | the ASCII pane's length is one character per byte plus one per line, and byte i's printable-or-dot character sits at line*17 + slot |
| Render.AsciiLinesNewlines | src/main/java/io/github/seerainer/hexedit/DisplayManager.java:61-66 | k ASCII lines hold exactly k line feeds, and line j's line feed sits at 17j plus the number of bytes on line j |
| Render.AsciiPaneLines | src/main/java/io/github/seerainer/hexedit/DisplayManager.java:47-66 | the ASCII pane has one line feed per line of 16 bytes, each right after its line's bytes at 17k + width, so the short last line is not padded |
| Render.OffsetLineShape | src/main/java/io/github/seerainer/hexedit/DisplayManager.java:48 | an offset line is 8 digits and a line feed, and its digits read back as 16k |
| Render.OffsetLinesShape | src/main/java/io/github/seerainer/hexedit/DisplayManager.java:47-48 | the offset pane is one 9-character line per grid line, with line k at offset 9k |
| Render.HexPatchAgrees | src/main/java/io/github/seerainer/hexedit/DisplayManager.java:122-135 | rewriting the two digits at byte i's cell of a rendered hex pane with `%02X` of v gives the rendering of the buffer with byte i set to v |
| Render.AsciiPatchAgrees | src/main/java/io/github/seerainer/hexedit/DisplayManager.java:112-120 | rewriting the character at byte i's ASCII offset gives the rendering of the buffer with byte i set to v |
| Render.OffsetPaneUnchangedByEdit | src/main/java/io/github/seerainer/hexedit/DisplayManager.java:145-168 | the offset pane depends only on the length, so a byte edit never needs to touch it |
| Render.HexDumpParses | src/main/java/io/github/seerainer/hexedit/HexUtils.java:23-39 | the concatenated `%02X` cells of a buffer parse back to the buffer |
| Render.HexPaneParses | src/main/java/io/github/seerainer/hexedit/DisplayManager.java:49-60 | the whole rendered hex pane, given to the hex-string parser, parses back to the buffer |
| Addressing.LastLineStart | src/main/java/io/github/seerainer/hexedit/HexEditor.java:308-316 | the line start is at most the offset, follows a line feed or is 0, and no line feed lies between it and the offset |
| Addressing.LastLineStartIs | src/main/java/io/github/seerainer/hexedit/HexEditor.java:308-316 | those three facts determine the line start |
| Addressing.LineStart | src/main/java/io/github/seerainer/hexedit/HexEditor.java:336-349 | line k of a text starts just after its k-th line feed; line k starts at 0 when k is 0 or less, and at the text length when there are fewer line feeds |
| Addressing.LineStartIs | src/main/java/io/github/seerainer/hexedit/HexEditor.java:336-349 | an offset just after the k-th line feed is where line k starts |
| Addressing.PositionAtSpec | src/main/java/io/github/seerainer/hexedit/HexEditor.java:301-334 | a position is found exactly when the offset is inside the text and its column (measured from the last line feed before it) is one of a cell's two digits; then its byte index is 16 times the line-feed count plus the slot, the nibble is high exactly on the first digit, and its text offset is the input offset |
| Addressing.HexPaneIsGrid | src/main/java/io/github/seerainer/hexedit/DisplayManager.java:47-60 | a rendered hex pane is 50 characters per line, with a line feed exactly at every column 49 |
| Addressing.GridLineStart | src/main/java/io/github/seerainer/hexedit/HexEditor.java:336-349 | on text with that line structure, every line up to the end starts at 50k |
| Addressing.PositionAtCell | src/main/java/io/github/seerainer/hexedit/HexEditor.java:301-334 | on a rendered hex pane, either digit of any cell (padding included) resolves to that byte and nibble at that offset |
| Addressing.PositionAtIsCell | src/main/java/io/github/seerainer/hexedit/HexEditor.java:301-334 | on a rendered hex pane, whatever is found is a byte slot of one of the pane's lines, and the offset is that byte's cell offset plus the nibble |
| Addressing.LineStartOnPane | src/main/java/io/github/seerainer/hexedit/HexEditor.java:336-349 | on a rendered hex pane, the start of line k is 50k for every existing line and the end of the pane |
| Addressing.CellCaretOnPane | src/main/java/io/github/seerainer/hexedit/HexEditor.java:370-379 | on a rendered pane, the caret offset computed by go-to and caret stepping is the cell offset, is inside the pane, and resolves back to the same byte and nibble |
| Addressing.NextNibbleAdvances | src/main/java/io/github/seerainer/hexedit/HexEditor.java:413-443 | from a high digit the caret moves one column right, onto the low digit of the same byte; from a low digit it moves to the next byte's high digit: two columns on within a line half, three columns on past the gap after cell 7 or past the line feed after cell 15 |
| Addressing.SetNibbleBits | src/main/java/io/github/seerainer/hexedit/HexEditor.java:559-563 | the source's 8-bit shift-and-mask expressions compute the same value as the arithmetic form of `SetNibble` |
| Addressing.SetNibbleDigits | src/main/java/io/github/seerainer/hexedit/HexEditor.java:553-566 | the edited nibble becomes the typed digit and the other nibble is kept |
| Addressing.SetNibbleIdempotent | src/main/java/io/github/seerainer/hexedit/HexEditor.java:553-566 | typing the same digit twice has the effect of typing it once |
| Addressing.SetNibbleSameDigit | src/main/java/io/github/seerainer/hexedit/HexEditor.java:553-566 | typing the digit a byte already has leaves the byte unchanged |
| Addressing.TitleShows | src/main/java/io/github/seerainer/hexedit/HexEditor.java:585-594 | the title is "Hex Editor" without a file; with a file it is "Hex Editor - " and the name, plus " *" exactly when modified |
| Addressing.TitleDistinguishes | src/main/java/io/github/seerainer/hexedit/HexEditor.java:585-594 | different files of equal name length, or different modified states of the same file, never get the same title |
| Widgets.ClampCaret | src/main/java/io/github/seerainer/hexedit/DisplayManager.java:79-84 | the caret SWT keeps is the requested offset when it is within the text, otherwise the nearer end |
| Widgets.StyledText.SetText | src/main/java/io/github/seerainer/hexedit/DisplayManager.java:68-70 | replacing the text puts the caret and top line back at 0 |
| Widgets.StyledText.ReplaceTextRange | src/main/java/io/github/seerainer/hexedit/DisplayManager.java:119 | an equal-length replacement splices the text; a caret strictly inside the replaced range moves behind the new text, a caret anywhere else stays; the top line stays |
| Display.DisplayManager.constructor | src/main/java/io/github/seerainer/hexedit/DisplayManager.java:24-30 | keeps the three panes, with 16 bytes per line |
| Display.DisplayManager.DisplayHexData | src/main/java/io/github/seerainer/hexedit/DisplayManager.java:37-71 | with no buffer the three panes are emptied; otherwise they show the full rendering; every caret and top line is reset to 0 |
| Display.BuildPanes | src/main/java/io/github/seerainer/hexedit/DisplayManager.java:46-67 | the three builders end as the offset, hex and ASCII panes of the buffer |
| Display.AppendLine | src/main/java/io/github/seerainer/hexedit/DisplayManager.java:48-66 | one pass of the outer loop extends each builder from k lines to k+1 lines |
| Display.AppendHexLine | src/main/java/io/github/seerainer/hexedit/DisplayManager.java:49-60 | the inner loop appends the 16 cells of the line, padded past the end, then a line feed |
| Display.AppendAsciiLine | src/main/java/io/github/seerainer/hexedit/DisplayManager.java:61-66 | the second inner loop appends the characters of at most 16 bytes, none past the end, then a line feed |
| Display.DisplayManager.RefreshDisplay | src/main/java/io/github/seerainer/hexedit/DisplayManager.java:79-84 | after re-rendering, the hex caret returns to the old offset only when that offset is not past the end of the new text; otherwise it stays at 0; the offset and ASCII carets and all three top lines are 0 |
| Display.DisplayManager.RefreshDisplayPreservingScroll | src/main/java/io/github/seerainer/hexedit/DisplayManager.java:93-110 | as the previous row, except that every pane scrolls back to the given top line |
| Display.DisplayManager.UpdateAsciiByte | src/main/java/io/github/seerainer/hexedit/DisplayManager.java:112-120 | exactly one character, at line*17 + slot, becomes the byte's printable-or-dot character; caret and top line are kept |
| Display.DisplayManager.UpdateHexByte | src/main/java/io/github/seerainer/hexedit/DisplayManager.java:122-135 | exactly two characters, at line*50 + the slot's column, become the byte's `%02X`; a caret on the byte's low digit ends up behind the cell, any other caret stays; the top line is kept |
| Display.DisplayManager.UpdateSingleByte | src/main/java/io/github/seerainer/hexedit/DisplayManager.java:145-168 | nothing changes with no buffer or an index outside it; otherwise the byte's hex and ASCII cells are patched, both panes scroll to the top line, and the hex caret returns to the given offset if that is not past the end; otherwise it stays where the patch left it (behind the cell if it was on the low digit) |
| Display.PatchedPanesShowEdit | src/main/java/io/github/seerainer/hexedit/DisplayManager.java:145-168 | when the panes showed a buffer and one byte changes, the patched hex and ASCII panes are the full rendering of the new buffer, and the offset pane needs no change |
| Editing.HexEditor.constructor | src/main/java/io/github/seerainer/hexedit/HexEditor.java:55-61 | a new editor has no buffer, is unmodified, shows empty panes, and has the title "Hex Editor" and the status "Ready" |
| Editing.HexEditor.IsModified | src/main/java/io/github/seerainer/hexedit/HexEditor.java:390-392 | the flag reported is the editor's modified flag, which is also the shell's modified mark while the editor is valid |
| Editing.HexEditor.SetModified | src/main/java/io/github/seerainer/hexedit/HexEditor.java:542-545 | the flag and the shell's modified mark are set together, and nothing else changes |
| Editing.HexEditor.UpdateTitle | src/main/java/io/github/seerainer/hexedit/HexEditor.java:585-594 | the shell's text becomes the title for the current file and flag, and nothing else changes |
| Editing.HexEditor.GetHexPosition | src/main/java/io/github/seerainer/hexedit/HexEditor.java:301-334 | the two loops return exactly the position `PositionAt` specifies: none past the text, none off the digits, otherwise the byte, the nibble and the input offset |
| Editing.ScanLines | src/main/java/io/github/seerainer/hexedit/HexEditor.java:308-316 | the first loop ends with the start of the offset's line and the count of line feeds before the offset |
| Editing.LineScanStep | src/main/java/io/github/seerainer/hexedit/HexEditor.java:310-315 | scanning one more character moves the line start past a line feed and adds one to the count for it |
| Editing.HexEditor.GetLineStartOffset | src/main/java/io/github/seerainer/hexedit/HexEditor.java:336-349 | the loop returns the offset just after the k-th line feed, 0 for k of 0 or less, or the text length when the text has fewer lines |
| Editing.HexEditor.GotoOffset | src/main/java/io/github/seerainer/hexedit/HexEditor.java:365-384 | nothing changes with no buffer or an offset outside it; otherwise the top line becomes the byte's line and the caret goes to the byte's high digit, which on a rendered pane is its cell offset and resolves back to the byte |
| Editing.HexEditor.MoveToNextHexPosition | src/main/java/io/github/seerainer/hexedit/HexEditor.java:413-443 | the caret stays when the next digit is past the end of the buffer; otherwise it moves to the next digit's offset, which on a rendered pane resolves to that digit |
| Editing.HexEditor.UpdateByteAtPosition | src/main/java/io/github/seerainer/hexedit/HexEditor.java:553-566 | only byte `pos.byteIndex` changes, and it becomes `SetNibble` of its old value with the typed digit |
| Editing.HexEditor.UpdateSingleByteDisplay | src/main/java/io/github/seerainer/hexedit/HexEditor.java:574-580 | nothing changes with no buffer; otherwise this is the display's single-byte patch, given the hex pane's own caret, so the caret ends where it was even when the patch moved it |
| Editing.HexEditor.RefreshDisplay | src/main/java/io/github/seerainer/hexedit/HexEditor.java:498-505 | with no buffer the panes are emptied and the hex caret is 0; otherwise the panes show the buffer and the hex caret returns to where it was if that is still within the text; in both cases the offset and ASCII carets and all three top lines are 0 |
| Editing.HexEditor.FindInHex | src/main/java/io/github/seerainer/hexedit/HexEditor.java:276-292 | nothing happens with no buffer; a malformed query adds an error box; otherwise the status reports the first match's offset in upper-case hex, and the caret and top line go to it, or the status reports "Not found"; the buffer, flag and title never change |
| KeyInput.Controller.constructor | src/main/java/io/github/seerainer/hexedit/Controller.java:21-24 | keeps the hex pane and the editor it is given |
| KeyInput.Controller.HandleHexKeyPress | src/main/java/io/github/seerainer/hexedit/Controller.java:33-55 | the key is always consumed; with no buffer, a non-hex key, or a caret on no digit of the buffer, nothing else changes; otherwise one nibble of one byte becomes the typed digit, the panes still show the buffer, the hex caret moves to the next digit or stays at the end, the ASCII caret is kept, the editor is modified, and the title says so |
| KeyInput.Controller.EditDigit | src/main/java/io/github/seerainer/hexedit/Controller.java:49-54 | the edit sequence writes the digit, keeps the panes rendering the new buffer at the same top line, steps the hex caret, keeps the ASCII caret, and marks and retitles the editor |
| KeyInput.Controller.WriteDigit | src/main/java/io/github/seerainer/hexedit/Controller.java:49-51 | writing the digit and patching both cells leaves the panes showing the new buffer, with the top line and both carets kept |
| KeyInput.TypedDigitShows | src/main/java/io/github/seerainer/hexedit/Controller.java:49-51 | after typing, the digit under the caret shows the typed digit in upper case, and the byte's other digit is unchanged |

## Left out

- SWT widgets are reduced to their text, caret offset and top line.
  - `setText` resets the caret and top line to 0.
  - `setCaretOffset` clamps to the text.
  - `replaceTextRange` is used only with equal lengths; its caret rule is modelled for that case.
  - `setTopIndex` is kept as given, without SWT's clamping to the line count.
  - `setRedraw` and `setFocus` are not modelled: they have no effect on state the model keeps.
- Layout, fonts, menus, scroll-bar synchronisation, themes, dialogs, the status bar widget, file open/save, and the event loop are UI or I/O and are not part of this model. The status line and the shell's text and modified mark are plain fields, and message boxes are a list of (title, message) pairs.
- `positionCursorOnHexDigit` is not modelled. It is a mouse-click handler outside the editing core.
- `bytesPerLine` is fixed at 16, the value of the editor's `BYTES_PER_LINE`, which the only construction passes. `DisplayManager` computes its line lengths from `bytesPerLine`, but the gap after cell 7 is fixed, and so are the editor's own line and column arithmetic.
- The offset pane's `%n` is modelled as `'\n'`. On platforms where `%n` is `"\r\n"`, the offset pane's lines are one character longer.
- Java's signed `byte` is modelled as 0..255. The source's printable test and its masks select the same values.
- `HexFormat.parseHex` and `Character.digit` are library calls. They are re-implemented over the already validated alphabet (`DecodePairs`, `DigitValue`).
- `Integer.toHexString(k).toUpperCase()` in the find status is modelled as `HexDigits(k, 1)`.
- `currentFile` is the file's name as a string; `File.toString()` is not modelled.
- Java `int` overflow is not modelled: integers are unbounded. The model is faithful for buffers below about 687 million bytes. Above that the hex pane would pass 2^31 characters: the source's `displayHexData` fails to build it, and `line * hexLineLength` in `updateHexByte` overflows. The model does not capture either failure.
- Render.OffsetLineShape and Render.OffsetLinesShape: stated only for byte offsets below 2^32. Above that, `%08X` takes more than 8 digits; a Java array never gets there.
- Editing.HexEditor.UpdateByteAtPosition: requires a hex digit and an index inside the buffer. Its only caller checks both first.
- Display.DisplayManager.UpdateSingleByte: requires the panes to be long enough for the byte's cells when the index is valid. On shorter panes the source's `replaceTextRange` throws.
- Editing.HexEditor.UpdateSingleByteDisplay: has the same requirement, for the same reason.
- Editing.HexEditor.MoveToNextHexPosition: requires a buffer. The source dereferences `fileData` unguarded, and its only caller has checked it.
- The nested loops of `displayHexData` are split into `BuildPanes`, `AppendLine`, `AppendHexLine` and `AppendAsciiLine`. The first loop of `getHexPosition` is `ScanLines`, and the edit sequence of `handleHexKeyPress` is `EditDigit` and `WriteDigit`. These are the same steps in the same order, split to keep each proof small.
- HexUtils.ParseHex and HexUtils.HexStringToBytes: strings are sequences of Unicode scalar values, not UTF-16 code units. On text containing characters outside the Basic Multilingual Plane, the source's parity test and the index it reports differ from the model's. For example, on "0" followed by an emoji the source reports odd length, and the model reports an invalid character at index 1.
- KeyInput.Controller.HandleHexKeyPress: when a buffer is open, it requires the three panes to show that buffer (`Rendered`) on every path. This is the editor's invariant. The panes are created read-only, so only the program writes their text, and every write keeps them rendered (`DisplayHexData`, `RefreshDisplay` and the single-byte patch).
- `IndexOf` takes the buffer as a sequence: the source only reads its arrays.
