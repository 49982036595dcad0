# Notepad status bar and editing commands, in Dafny

This project models the core of a small tkinter text editor (`app.notepad/notepad.py`):

- **The status bar.** `update_status` reads the widget's text, which always ends in the
  newline the widget appends. It shows three things:
  - the number of code points without that newline;
  - the UTF-8 size of the text, computed by `calculate_size`;
  - that size in Byte, KB, MB, GB or TB, chosen by thresholds at powers of 1024, with
    two decimals above Byte.
- **The editing commands.** `new_file`, `copy_text`, `paste_text`, `cut_text` and
  `apply_settings` change the document, the caret, the selection, the clipboard and
  the font of the window.

Text is a sequence of Unicode code points (`seq<int>`), as Python's `len` and
`.encode('utf-8')` see it. Code points must be scalar values: a surrogate makes
`.encode('utf-8')` raise.

## Layout

- `wrappers.dfy`, module `Wrappers`: `Option`.
- `utf8.dfy`, module `Utf8`: UTF-8 as in section 3 of RFC 3629.
  - `Encode` is `str.encode('utf-8')`, and `Width` is the RFC's table of octets per code point.
  - `Decode` is a strict decoder. Section 3 of RFC 3629 forbids overlong forms, surrogates
    and anything above U+10FFFF, and `Decode` rejects them all. It is the partner of
    `Encode`: the two are proved inverse in both directions.
- `status.dfy`, module `Status`:
  - `CalculateSize`, `CharCount`, the unit chain `ChooseUnit` and the size display;
  - the rendering of `str(n)` and of `format(x, '.2f')` as strings;
  - `StatusLine`, the full status text.
- `editor.dfy`, module `Editor`: the class `Notepad`. Its fields hold what the window
  changes in place:
  - the document, which always ends in the widget's newline;
  - the caret (Tk's INSERT mark);
  - the selection (the `sel` tag), a non-empty range `[first, last)`. It may cover the final
    newline, as Tk's Select All (`tag add sel 1.0 end`) does;
  - the clipboard;
  - the font;
  - the status text.

  `InsertAtCaret` and `DeleteSelection` model the widget calls `insert(INSERT, …)` and
  `delete(SEL_FIRST, SEL_LAST)`. Three methods stand for the widget's own mouse and keyboard
  bindings, which are what create a caret position and a selection:
  - `Click` is a plain click or an arrow key. It moves the caret and removes the selection.
  - `PlaceCaret` is a Control-click (`mark set insert`). It moves the caret and keeps the selection.
  - `Select` is `tag add sel`, as Select All performs it. It leaves the caret where it is.
    A drag or a double or triple click is `Select` followed by `PlaceCaret`, because it also
    moves the caret.

## Behaviour as modelled

- **Size of the display.** The size shown above Byte is the exact quotient `size / 1024**k`,
  rounded to hundredths with ties to even. This is what `format(x, '.2f')` does with the
  exact binary value of `x`. Dividing by a power of two is exact in binary floating point
  whenever the size is below 2**53.
- **Rounding up to 1024.00.** A size just below a threshold can round up to "1024.00".
  For 1048575 bytes the unit is KB and the display is "1024.00 KB" (`Status.SizeTextBelowMebibyte`).
- **The trailing newline.** The size counts the widget's trailing newline, but the character
  count does not. The initial label reads "0 Byte", yet the first recomputation on an empty
  document reads "1 Byte" (`Status.EmptyDocumentStatus`).
- **New does not refresh the status.** `new_file` does not call `update_status`, so the
  status text keeps its old value (`Editor.Notepad.NewFile`).
- **Copy with no selection.** `copy_text` clears the clipboard first. Reading `SEL_FIRST`
  with no selection then raises, so the clipboard is left empty. `cut_text` inherits this,
  and deletes nothing.
- **Paste.** `paste_text` shows a warning when its `try` block raises. In the model only
  `clipboard_get` can raise there: it does so when the clipboard holds no text (`None`), and
  the model returns `warned`. An empty clipboard text pastes nothing and gives no warning.
  On success the caret moves past the inserted text, because
  the INSERT mark keeps to the right of inserted text.
- **Cut keeps the final newline.** Tk never deletes the widget's final newline. When the
  selection covers it, `delete(SEL_FIRST, SEL_LAST)` stops before it. If the selection then
  starts at the beginning of a line other than the first, Tk deletes the newline in front of
  it instead (`Editor.EffectiveRange`). The clipboard still gets the final newline. So Select
  All, Cut, Paste leaves the document with one newline more than before
  (`Editor.SelectAllCutThenPasteClient`). A selection that stops before the final newline
  is restored exactly (`Editor.CutThenPasteClient`).
- **Paste and the selection.** The pasted text joins the selection only when it lands
  strictly inside it: Tk gives new text the tags present on both of its neighbours.

## Model

| member | source | states |
|---|---|---|
| `Utf8.Width` | app.notepad/notepad.py:66 | every scalar value takes one to four octets |
| `Utf8.EncodeScalar` | app.notepad/notepad.py:66 | the octets of one code point number `Width` of it; the leading byte announces that count and the others are continuation bytes `10xxxxxx` |
| `Utf8.DecodeEncodeScalar` | app.notepad/notepad.py:66 | the strict decoder gives back every scalar value from its octets |
| `Utf8.EncodeDecodeScalar` | app.notepad/notepad.py:66 | whatever the strict decoder accepts as one scalar value is exactly that value's encoding |
| `Utf8.Encode` | app.notepad/notepad.py:66 | `text.encode('utf-8')`: the octets of a text number at least its code points and at most four times as many |
| `Utf8.EncodeAppend` | app.notepad/notepad.py:66 | the encoding of a concatenation is the concatenation of the encodings |
| `Utf8.EncodedLengthIsSumOfWidths` | app.notepad/notepad.py:65-66 | the encoded length is the sum over the code points of 1, 2, 3 or 4 octets by range, as in section 3 of RFC 3629 |
| `Utf8.EncodedLengthBounds` | app.notepad/notepad.py:66 | the encoding of a text is at least as long as the text and at most four times as long |
| `Utf8.EncodedLengthIsCountIffAscii` | app.notepad/notepad.py:66 | the size equals the code point count exactly when every code point is ASCII |
| `Utf8.DecodeEncode` | app.notepad/notepad.py:66 | decoding the encoding of any scalar text gives the text back |
| `Utf8.EncodeDecode` | app.notepad/notepad.py:66 | every octet string that decodes is the encoding of what it decodes to |
| `Status.CalculateSize` | app.notepad/notepad.py:65-66 | the UTF-8 size of a text lies between its code point count and four times it |
| `Status.SizeOfConcatenation` | app.notepad/notepad.py:65-66 | the size of a concatenation is the sum of the sizes of the parts |
| `Status.SizeAfterInsert` | app.notepad/notepad.py:94-96 | inserting text at any position grows the size by exactly the UTF-8 size of the inserted text |
| `Status.CharCount` | app.notepad/notepad.py:70 | on widget text, the count is not negative, and it is exactly the number of code points before the final newline |
| `Status.CharCountOfWidgetText` | app.notepad/notepad.py:69-70 | for widget text, meaning typed content plus the final newline, the count is the number of typed code points, and 0 for an empty document |
| `Status.ChooseUnit` | app.notepad/notepad.py:74-83 | the chosen unit's scale is at most the size, except for Byte, and the size is below 1024 times that scale, except for TB |
| `Status.UnitThresholds` | app.notepad/notepad.py:74-83 | Byte iff size < 1024; KB iff 1024 <= size < 1024²; MB iff 1024² <= size < 1024³; GB iff 1024³ <= size < 1024⁴; TB otherwise |
| `Status.ChooseUnitUnique` | app.notepad/notepad.py:74-83 | any unit whose scale fits the size in that way is the chosen one, so exactly one unit fits |
| `Status.QuotientBounds` | app.notepad/notepad.py:74-83 | Byte shows the exact size; the unrounded quotient lies in [1, 1024) for KB, MB and GB, and is at least 1 for TB |
| `Status.RoundHalfEven` | app.notepad/notepad.py:77-83 | the result is within half a unit of `n / d`, and is even on a tie |
| `Status.Display` | app.notepad/notepad.py:74-83 | the exact byte count below 1024; above it, hundredths of the chosen unit within half a hundredth of the true quotient |
| `Status.DisplayBounds` | app.notepad/notepad.py:76-83 | after rounding, KB, MB and GB show 1.00 to 1024.00, and TB shows at least 1.00 |
| `Status.Decimal` | app.notepad/notepad.py:75 | `str(n)` is a non-empty string of digits; it starts with '0' only when it is "0" |
| `Status.DecimalRoundTrip` | app.notepad/notepad.py:75 | reading back the digits of `str(n)` gives n |
| `Status.FixedTwo` | app.notepad/notepad.py:77 | the two-decimal text is digits, a point, then two digits; its integer part starts with '0' only when it is "0" |
| `Status.FixedTwoRoundTrip` | app.notepad/notepad.py:77 | the two-decimal text reads back as the hundredths it renders |
| `Status.NumberText` | app.notepad/notepad.py:74-83 | below 1024, digits that read back as the byte count; above, the two-decimal text that reads back as the rounded hundredths of `Display` and never starts with '0' |
| `Status.SizeText` | app.notepad/notepad.py:74-83 | `size_display` is that number, a space and the label of the unit the chain chooses |
| `Status.StatusLine` | app.notepad/notepad.py:85 | on widget text, the status shows the non-negative count of typed code points and the size display of the UTF-8 size |
| `Status.SizeTextExamplesInBytes` | app.notepad/notepad.py:74-75 | 0 shows "0 Byte" and 1023 shows "1023 Byte" |
| `Status.SizeTextExamplesInKibibytes` | app.notepad/notepad.py:76-77 | 1024 shows "1.00 KB"; 1152 (1.125 KB, a tie) shows "1.12 KB" |
| `Status.SizeTextAtMebibyte` | app.notepad/notepad.py:78-79 | 1048576 shows "1.00 MB" |
| `Status.SizeTextBelowMebibyte` | app.notepad/notepad.py:76-77 | 1048575 is in the KB range yet shows "1024.00 KB" |
| `Status.EmptyDocumentStatus` | app.notepad/notepad.py:68-85 | an empty document's recomputed status ends in "용량: 1 Byte" with a count of 0, which differs from the initial label of line 39 |
| `Editor.InsertKeepsSelectedText` | app.notepad/notepad.py:95 | after an insertion the selection covers the same code points as before, plus the inserted text exactly when it lands strictly inside the selection |
| `Editor.DeleteKeepsMarkNeighbours` | app.notepad/notepad.py:102 | after a deletion the caret stands between what was before it and what was after it, each less the deleted code points |
| `Editor.EffectiveRange` | app.notepad/notepad.py:102 | the range Tk deletes never includes the final newline; it starts at most one code point before the selection, and ends where the selection ends or just before the final newline; a selection short of the final newline is deleted as it is |
| `Editor.EffectiveDeleteKeepsNewline` | app.notepad/notepad.py:102 | Tk's delete leaves widget text. A selection short of the final newline is removed exactly. One that reaches the final newline leaves the text before the selection plus the final newline, less the newline just before the selection exactly when there is one |
| `Editor.InsertKeepsWidgetText` | app.notepad/notepad.py:95 | inserting before the final newline keeps widget text well formed, and inserts into the typed content at the same index |
| `Editor.DeleteKeepsWidgetText` | app.notepad/notepad.py:102 | deleting a range that stops before the final newline keeps widget text well formed, and deletes the same range from the typed content |
| `Editor.CutThenPasteRestores` | app.notepad/notepad.py:92-102 | re-inserting the cut text where it was cut from gives the original document |
| `Editor.CutToEndThenPaste` | app.notepad/notepad.py:92-102 | cutting a selection that reaches the final newline and pasting it back gives the text before the deleted range, the cut text and one more newline; for Select All, the old document followed by a newline |
| `Editor.Notepad.Content` | app.notepad/notepad.py:69-70 | the document is the typed content followed by the widget's newline |
| `Editor.Notepad.constructor` | app.notepad/notepad.py:9-39 | a new window has an empty document, Arial 12 and the initial label "… 0 Byte" |
| `Editor.Notepad.NewFile` | app.notepad/notepad.py:45-46 | whatever the old content, only the final newline remains; caret at 0, no selection; clipboard, font and status text unchanged |
| `Editor.Notepad.PlaceCaret` | app.notepad/notepad.py:9 | the widget's Control-click binding (`mark set insert`) puts the caret at any position up to the final newline and keeps the selection |
| `Editor.Notepad.Select` | app.notepad/notepad.py:9 | the widget's `tag add sel`, as Select All performs it, tags any non-empty range, which may cover the final newline; the caret stays |
| `Editor.Notepad.Click` | app.notepad/notepad.py:9 | the widget's plain-click and arrow-key bindings put the caret at any position up to the final newline and remove the selection |
| `Editor.Notepad.UpdateStatus` | app.notepad/notepad.py:68-85 | the status text becomes `StatusLine` of the document; nothing else changes |
| `Editor.Notepad.CopyText` | app.notepad/notepad.py:87-90 | raises iff there is no selection, leaving the clipboard empty; otherwise the clipboard holds exactly the selected code points; the document is unchanged |
| `Editor.Notepad.InsertAtCaret` | app.notepad/notepad.py:95 | the document becomes `doc[..caret] + c + doc[caret..]`; the caret moves past `c`; the selection shifts; nothing else changes |
| `Editor.Notepad.PasteText` | app.notepad/notepad.py:92-98 | warns iff the clipboard holds no text (`None`), and then changes nothing; otherwise inserts the clipboard at the caret and recomputes the status |
| `Editor.Notepad.DeleteSelection` | app.notepad/notepad.py:102 | the document and the typed content lose Tk's effective range of the selection, so the final newline stays; the caret moves as a mark does; the selection is gone |
| `Editor.Notepad.CutText` | app.notepad/notepad.py:100-102 | with a selection `[f, l)`: clipboard `doc[f..l]`, the final newline included when selected; the document loses Tk's effective range. Without one: raises, clipboard empty, document unchanged |
| `Editor.Notepad.ApplySettings` | app.notepad/notepad.py:140-144 | sets the font to (family, size), or raises and keeps it when the size entry does not read as a number; never changes the document or the status |
| `Editor.CutThenPasteClient` | app.notepad/notepad.py:87-102 | selecting a range short of the final newline, Control-clicking inside it, cutting and pasting leaves the document as it was |
| `Editor.SelectAllCutThenPasteClient` | app.notepad/notepad.py:87-102 | Select All, cut and paste leaves the old document followed by one more newline |

## Left out

- `open_file` and `save_file`: they use native file dialogs and file I/O. The save-then-open
  round trip depends on the file system. Only its UTF-8 part is modelled, by
  `Utf8.DecodeEncode` and `Utf8.EncodeDecode`.
- `open_settings` and `on_font_select`: they list the system's fonts and handle listbox
  events. `ApplySettings` takes the selected family (empty when none was selected) and the
  size entry as parameters. The size is `None` when the entry does not read as a number,
  which makes `IntVar.get` raise. A decimal entry such as "12.5" reads as its integer part.
- Widget, menu and label construction, `pack`, `bind`, `mainloop` and the Exit command.
  These are UI wiring with no behaviour to state.
- Typing: text that the user enters through the widget's own key bindings is not modelled.
  Only caret placement and selection are.
- Binary floating point: the division `size / 1024**k` is exact arithmetic in the model.
  This matches Python for sizes below 2**53 bytes. Python's `int / int` is the exact quotient
  rounded once to a float. Above 2**53 that float can already differ from the exact quotient
  before `.2f` rounds it again, and the model does not capture this.
- `messagebox.showwarning` is the `warned` result of `PasteText`.
- Unhandled exceptions in copy, cut and apply are the `raised` result, with the state as it
  is when the exception occurs. What Tk does after a callback raises is not modelled.
- The system clipboard is a field of the window. Other applications changing it are not
  modelled, apart from the clipboard a window starts with.
- Tk's "line.column" indices are flat code point indices into the document. Tcl/Tk 8.6 counts a
  code point outside the Basic Multilingual Plane as two index positions, so caret and selection
  positions after such a code point differ from the model's.
