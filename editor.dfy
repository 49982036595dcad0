/**
 * The editing commands of the `Notepad` window: New, Copy, Paste, Cut and
 * the font settings, over an abstract text widget.
 *
 * The widget holds the document as code points and always keeps one newline
 * at its end. Positions are indices into the document: the caret (Tk's
 * INSERT mark) stands before the code point at its index and never after the
 * final newline; a selection (Tk's `sel` tag) is a non-empty range
 * [first, last) that may cover the final newline too, as Select All does.
 * The clipboard is the system clipboard as this window sees it.
 */
module Editor {
  import opened Wrappers
  import opened Utf8
  import opened Status

  /** A selection [first, last) of the document. */
  datatype Span = Span(first: nat, last: nat)

  /** The font of the text widget: a family name and a point size. */
  datatype Font = Font(family: string, size: int)

  /** The document after `c` is inserted before position i. */
  function Insert(d: seq<int>, i: nat, c: seq<int>): seq<int>
    requires i <= |d|
  {
    d[..i] + c + d[i..]
  }

  /** The document after the range [f, l) is deleted. */
  function Delete(d: seq<int>, f: nat, l: nat): seq<int>
    requires f <= l <= |d|
  {
    d[..f] + d[l..]
  }

  /**
   * How an insertion of n code points at i moves the selection: characters
   * from i on shift right, and the inserted text joins the selection only
   * when it lands strictly inside it, as Tk gives new text the tags present
   * on both of its neighbours. `InsertKeepsSelectedText` states what this
   * means for the selected text.
   */
  function SelectionAfterInsert(sel: Option<Span>, i: nat, n: nat): (r: Option<Span>)
    requires sel.Some? ==> sel.value.first < sel.value.last
    ensures r.Some? <==> sel.Some?
    ensures sel.Some? && i <= sel.value.first ==> r.value == Span(sel.value.first + n, sel.value.last + n)
    ensures sel.Some? && sel.value.last <= i ==> r.value == sel.value
    ensures sel.Some? && sel.value.first < i < sel.value.last ==> r.value == Span(sel.value.first, sel.value.last + n)
  {
    match sel
    case None => None
    case Some(s) =>
      Some(Span(if i <= s.first then s.first + n else s.first, if i < s.last then s.last + n else s.last))
  }

  /**
   * Where a mark at p ends up when [f, l) is deleted; `DeleteKeepsMarkNeighbours`
   * states what this means for the text around the mark.
   */
  function MarkAfterDelete(p: nat, f: nat, l: nat): (r: nat)
    requires f <= l
    ensures p <= f ==> r == p
    ensures f <= p <= l ==> r == f
    ensures l <= p ==> r == p - (l - f)
  {
    if p <= f then p else if p <= l then f else p - (l - f)
  }

  function Min(a: nat, b: nat): nat { if a <= b then a else b }

  function Max(a: nat, b: nat): nat { if a <= b then b else a }

  /**
   * After an insertion the selection covers the same code points as before,
   * and the inserted ones too exactly when they land strictly inside it.
   */
  lemma InsertKeepsSelectedText(d: seq<int>, i: nat, c: seq<int>, s: Span)
    requires i <= |d| && s.first < s.last <= |d|
    ensures var r := SelectionAfterInsert(Some(s), i, |c|).value;
      && r.first < r.last <= |Insert(d, i, c)|
      && Insert(d, i, c)[r.first..r.last]
         == if s.first < i < s.last then Insert(d[s.first..s.last], i - s.first, c) else d[s.first..s.last]
  {
    var r := SelectionAfterInsert(Some(s), i, |c|).value;
    var e := Insert(d, i, c);
    if i <= s.first {
      assert e == d[..i] + c + d[i..];
      assert e[r.first..r.last] == d[i..][s.first - i..s.last - i];
    } else if s.last <= i {
      assert e[r.first..r.last] == d[..i][s.first..s.last];
    } else {
      var m := d[s.first..s.last];
      assert d[s.first..i] == m[..i - s.first];
      assert d[i..s.last] == m[i - s.first..];
      assert e[r.first..r.last] == d[s.first..i] + c + d[i..s.last] by {
        assert e == d[..s.first] + (d[s.first..i] + c + d[i..s.last]) + d[s.last..];
      }
    }
  }

  /**
   * After a deletion a mark still stands between the code points that were
   * before it and those that were after it, less the deleted ones.
   */
  lemma DeleteKeepsMarkNeighbours(d: seq<int>, f: nat, l: nat, p: nat)
    requires f <= l <= |d| && p <= |d|
    ensures var r := MarkAfterDelete(p, f, l);
      && r <= |Delete(d, f, l)|
      && Delete(d, f, l)[..r] == d[..Min(f, p)] + d[Min(l, p)..p]
      && Delete(d, f, l)[r..] == d[p..Max(f, p)] + d[Max(l, p)..]
  {
    var e := Delete(d, f, l);
    if p <= f {
      assert e[..p] == d[..p];
      assert e[p..] == d[p..f] + d[l..];
    } else if p <= l {
      assert e[..f] == d[..f];
      assert e[f..] == d[l..];
    } else {
      var r := p - (l - f);
      assert e[..r] == d[..f] + d[l..p];
      assert e[r..] == d[p..];
    }
  }

  /**
   * The range Tk's `delete` removes when asked for [f, l). Tk never deletes
   * the widget's final newline: a range that reaches past it stops before it,
   * and then starts one code point earlier when it starts at the beginning of
   * a line other than the first, so that the newline in front of the deleted
   * lines becomes the final one.
   */
  function EffectiveRange(d: seq<int>, f: nat, l: nat): (r: Span)
    requires f < l <= |d|
    ensures r.first <= f <= r.first + 1 && r.first <= r.last < |d|
    ensures r.last == l || r.last == |d| - 1
    ensures l < |d| ==> r == Span(f, l)
  {
    if l < |d| then Span(f, l)
    else if 0 < f && d[f - 1] == Newline then Span(f - 1, l - 1)
    else Span(f, l - 1)
  }

  /**
   * What Tk's `delete` leaves: widget text again; the asked-for range gone
   * when it stops short of the final newline; otherwise everything before it
   * and the final newline, or that less the newline just before the range.
   */
  lemma EffectiveDeleteKeepsNewline(d: seq<int>, f: nat, l: nat)
    requires IsWidgetText(d) && f < l <= |d|
    ensures var r := EffectiveRange(d, f, l);
      && IsWidgetText(Delete(d, r.first, r.last))
      && (l < |d| ==> Delete(d, r.first, r.last) == Delete(d, f, l))
      && (l == |d| ==> Delete(d, r.first, r.last)
                       == (if 0 < f && d[f - 1] == Newline then d[..f - 1] else d[..f]) + [Newline])
  {
    var r := EffectiveRange(d, f, l);
    DeleteKeepsWidgetText(d, r.first, r.last);
    if l == |d| {
      assert d[r.last..] == [Newline];
    }
  }

  /** Inserting inside the user's text keeps the widget's final newline and valid code points. */
  lemma InsertKeepsWidgetText(d: seq<int>, i: nat, c: seq<int>)
    requires IsWidgetText(d) && i < |d| && IsScalarText(c)
    ensures IsWidgetText(Insert(d, i, c))
    ensures Insert(d, i, c)[..|Insert(d, i, c)| - 1] == Insert(d[..|d| - 1], i, c)
  {
    var r := Insert(d, i, c);
    var typed := d[..|d| - 1];
    SizeAfterInsert(d, c, i);
    assert d == typed + [Newline];
    assert d[i..] == typed[i..] + [Newline];
    assert d[..i] == typed[..i];
    assert r == Insert(typed, i, c) + [Newline];
  }

  /** Deleting a range that leaves the final newline alone keeps the widget text well formed. */
  lemma DeleteKeepsWidgetText(d: seq<int>, f: nat, l: nat)
    requires IsWidgetText(d) && f <= l < |d|
    ensures IsWidgetText(Delete(d, f, l))
    ensures Delete(d, f, l)[..|Delete(d, f, l)| - 1] == Delete(d[..|d| - 1], f, l)
  {
    var r := Delete(d, f, l);
    assert r[|r| - 1] == d[|d| - 1];
    forall k | 0 <= k < |r| ensures IsScalar(r[k]) {
      if k < f { assert r[k] == d[k]; } else { assert r[k] == d[k + (l - f)]; }
    }
    assert r[..|r| - 1] == d[..f] + d[l..|d| - 1];
  }

  /**
   * Cutting a selection that reaches the final newline and pasting it back
   * where the caret lands does not restore the document: the pasted text
   * brings its own newline, so the document ends in one newline more, less
   * the newline Tk removed in front of the range.
   */
  lemma CutToEndThenPaste(d: seq<int>, f: nat)
    requires IsWidgetText(d) && f < |d|
    ensures var r := EffectiveRange(d, f, |d|);
      Insert(Delete(d, r.first, r.last), r.first, d[f..]) == d[..r.first] + d[f..] + [Newline]
    ensures f == 0 ==> Insert(Delete(d, 0, |d| - 1), 0, d[0..|d|]) == d + [Newline]
  {
    var r := EffectiveRange(d, f, |d|);
    var e := Delete(d, r.first, r.last);
    assert e == d[..r.first] + [Newline];
    assert e[..r.first] == d[..r.first];
    assert e[r.first..] == [Newline];
    if f == 0 {
      assert d[0..|d|] == d[f..] == d;
    }
  }

  /** Pasting what was just cut, at the place it was cut from, gives the document back. */
  lemma CutThenPasteRestores(d: seq<int>, f: nat, l: nat)
    requires f <= l <= |d|
    ensures Insert(Delete(d, f, l), f, d[f..l]) == d
  {
    assert Delete(d, f, l)[..f] == d[..f];
    assert Delete(d, f, l)[f..] == d[l..];
    assert d[..f] + d[f..l] + d[l..] == d;
  }

  class Notepad {
    var doc: seq<int>
    var caret: nat
    var selection: Option<Span>
    var clipboard: Option<seq<int>>
    var font: Font
    var statusText: string

    /** The invariant the widget keeps. */
    ghost predicate Valid()
      reads this
    {
      && IsWidgetText(doc)
      && caret < |doc|
      && (selection.Some? ==> selection.value.first < selection.value.last <= |doc|)
      && (clipboard.Some? ==> IsScalarText(clipboard.value))
    }

    /** The text the user typed: the document without the widget's final newline. */
    function Content(): (c: seq<int>)
      reads this
      requires Valid()
      ensures doc == c + [Newline]
    {
      doc[..|doc| - 1]
    }

    /** A fresh window: an empty document in Arial 12 and the initial status label. */
    constructor (initialClipboard: Option<seq<int>>)
      requires initialClipboard.Some? ==> IsScalarText(initialClipboard.value)
      ensures Valid()
      ensures doc == [Newline] && caret == 0 && selection == None
      ensures clipboard == initialClipboard
      ensures font == Font("Arial", 12)
      ensures statusText == InitialStatus
    {
      doc := [Newline];
      caret := 0;
      selection := None;
      clipboard := initialClipboard;
      font := Font("Arial", 12);
      statusText := InitialStatus;
    }

    /**
     * The widget's Control-click binding, `mark set insert`: the caret moves
     * and the selection stays.
     */
    method PlaceCaret(i: nat)
      requires Valid() && i < |doc|
      modifies this`caret
      ensures Valid() && caret == i
    {
      caret := i;
    }

    /**
     * The widget's `tag add sel f l`, as Select All performs it on the whole
     * text, the final newline included; the caret stays. (A drag selection
     * also moves the caret to the drag end, a double or triple click to the
     * selection's start: `Select` followed by `PlaceCaret`.)
     */
    method Select(f: nat, l: nat)
      requires Valid() && f < l <= |doc|
      modifies this`selection
      ensures Valid() && selection == Some(Span(f, l))
    {
      selection := Some(Span(f, l));
    }

    /**
     * The widget's plain click and arrow-key bindings: the caret moves and
     * the selection is removed.
     */
    method Click(i: nat)
      requires Valid() && i < |doc|
      modifies this`caret, this`selection
      ensures Valid() && caret == i && selection == None
    {
      caret, selection := i, None;
    }

    /** `new_file`: deletes from 1.0 to END, which leaves only the final newline. */
    method NewFile()
      requires Valid()
      modifies this
      ensures Valid()
      ensures doc == [Newline] && Content() == []
      ensures caret == 0 && selection == None
      ensures clipboard == old(clipboard) && font == old(font) && statusText == old(statusText)
    {
      assert IsWidgetText([Newline]);
      doc, caret, selection := [Newline], 0, None;
    }

    /** `update_status`: recomputes the status bar from the document. */
    method UpdateStatus()
      requires Valid()
      modifies this`statusText
      ensures Valid()
      ensures statusText == StatusLine(doc)
      ensures doc == old(doc) && caret == old(caret) && selection == old(selection)
      ensures clipboard == old(clipboard) && font == old(font)
    {
      statusText := StatusLine(doc);
    }

    /**
     * `copy_text`: clears the clipboard, then copies the selection into it.
     * With no selection the read of SEL_FIRST raises, after the clipboard
     * was already cleared.
     */
    method CopyText() returns (raised: bool)
      requires Valid()
      modifies this`clipboard
      ensures Valid()
      ensures raised <==> selection.None?
      ensures raised ==> clipboard == None
      ensures !raised ==> clipboard == Some(doc[selection.value.first..selection.value.last])
      ensures doc == old(doc) && caret == old(caret) && selection == old(selection)
      ensures font == old(font) && statusText == old(statusText)
    {
      clipboard := None;
      if selection.None? {
        return true;
      }
      var s := selection.value;
      clipboard := Some(doc[s.first..s.last]);
      assert IsScalarText(clipboard.value) by {
        forall k | 0 <= k < s.last - s.first ensures IsScalar(clipboard.value[k]) {
          assert clipboard.value[k] == doc[s.first + k];
        }
      }
      raised := false;
    }

    /**
     * The widget's `insert(INSERT, c)`: the text goes in before the caret,
     * and the caret, which keeps to the right of inserted text, ends after it.
     */
    method InsertAtCaret(c: seq<int>)
      requires Valid() && IsScalarText(c)
      modifies this`doc, this`caret, this`selection
      ensures Valid()
      ensures doc == Insert(old(doc), old(caret), c)
      ensures caret == old(caret) + |c|
      ensures selection == SelectionAfterInsert(old(selection), old(caret), |c|)
      ensures clipboard == old(clipboard) && font == old(font) && statusText == old(statusText)
    {
      InsertKeepsWidgetText(doc, caret, c);
      var shifted := SelectionAfterInsert(selection, caret, |c|);
      assert shifted.Some? ==> shifted.value.first < shifted.value.last <= |doc| + |c|;
      doc, caret, selection := Insert(doc, caret, c), caret + |c|, shifted;
    }

    /**
     * `paste_text`: inserts the clipboard at the caret and recomputes the
     * status; a clipboard holding no text (None) only raises the warning.
     */
    method PasteText() returns (warned: bool)
      requires Valid()
      modifies this
      ensures Valid()
      ensures warned <==> old(clipboard).None?
      ensures warned ==> doc == old(doc) && caret == old(caret) && selection == old(selection)
                         && statusText == old(statusText)
      ensures !warned ==> doc == Insert(old(doc), old(caret), old(clipboard).value)
      ensures !warned ==> caret == old(caret) + |old(clipboard).value|
      ensures !warned ==> selection == SelectionAfterInsert(old(selection), old(caret), |old(clipboard).value|)
      ensures !warned ==> statusText == StatusLine(doc)
      ensures clipboard == old(clipboard)
      ensures font == old(font)
    {
      if clipboard.None? {
        return true;
      }
      InsertAtCaret(clipboard.value);
      UpdateStatus();
      warned := false;
    }

    /**
     * The widget's `delete(SEL_FIRST, SEL_LAST)`: the code points of the
     * effective range go, with them the selection, and a caret inside that
     * range moves to its start.
     */
    method DeleteSelection()
      requires Valid() && selection.Some?
      modifies this`doc, this`caret, this`selection
      ensures Valid()
      ensures var r := EffectiveRange(old(doc), old(selection).value.first, old(selection).value.last);
        && doc == Delete(old(doc), r.first, r.last)
        && Content() == Delete(old(Content()), r.first, r.last)
        && caret == MarkAfterDelete(old(caret), r.first, r.last)
      ensures selection == None
      ensures clipboard == old(clipboard) && font == old(font) && statusText == old(statusText)
    {
      var s := selection.value;
      var r := EffectiveRange(doc, s.first, s.last);
      DeleteKeepsWidgetText(doc, r.first, r.last);
      doc := Delete(doc, r.first, r.last);
      caret := MarkAfterDelete(caret, r.first, r.last);
      selection := None;
    }

    /**
     * `cut_text`: copies the selection, then deletes it. With no selection
     * the copy raises and nothing is deleted.
     */
    method CutText() returns (raised: bool)
      requires Valid()
      modifies this
      ensures Valid()
      ensures raised <==> old(selection).None?
      ensures raised ==> clipboard == None && doc == old(doc) && caret == old(caret)
                         && selection == old(selection)
      ensures !raised ==> clipboard == Some(old(doc)[old(selection).value.first..old(selection).value.last])
      ensures !raised ==> var r := EffectiveRange(old(doc), old(selection).value.first, old(selection).value.last);
        && doc == Delete(old(doc), r.first, r.last)
        && Content() == Delete(old(Content()), r.first, r.last)
        && caret == MarkAfterDelete(old(caret), r.first, r.last)
      ensures !raised ==> selection == None
      ensures font == old(font) && statusText == old(statusText)
    {
      raised := CopyText();
      if !raised {
        DeleteSelection();
      }
    }

    /**
     * `apply_settings`: sets the widget's font to the chosen family and the
     * entered size, which is the entry read as a number and truncated to an
     * integer. An entry that does not read as a number (None) makes the read
     * of the size variable raise before anything changes.
     */
    method ApplySettings(family: string, size: Option<int>) returns (raised: bool)
      requires Valid()
      modifies this`font
      ensures Valid()
      ensures raised <==> size.None?
      ensures font == if raised then old(font) else Font(family, size.value)
      ensures doc == old(doc) && statusText == old(statusText)
    {
      if size.None? {
        return true;
      }
      font := Font(family, size.value);
      raised := false;
    }
  }

  /**
   * A client: select a range short of the final newline, Control-click inside
   * it, cut, and paste: the document is as it was.
   */
  method CutThenPasteClient(n: Notepad, f: nat, l: nat, c: nat)
    requires n.Valid() && f < l < |n.doc| && f <= c <= l
    modifies n
    ensures n.Valid() && n.doc == old(n.doc)
  {
    n.Select(f, l);
    n.PlaceCaret(c);
    ghost var d := n.doc;
    var raised := n.CutText();
    assert !raised && n.caret == f;
    var warned := n.PasteText();
    assert !warned;
    CutThenPasteRestores(d, f, l);
  }

  /**
   * A client: Select All, cut, and paste: the document comes back with one
   * newline more, because the cut kept the final newline and the clipboard
   * holds one too.
   */
  method SelectAllCutThenPasteClient(n: Notepad)
    requires n.Valid()
    modifies n
    ensures n.Valid() && n.doc == old(n.doc) + [Newline]
  {
    ghost var d := n.doc;
    CutToEndThenPaste(d, 0);
    assert EffectiveRange(d, 0, |d|) == Span(0, |d| - 1);
    n.Select(0, |n.doc|);
    var raised := n.CutText();
    ghost var cut := n.doc;
    assert !raised && n.caret == 0 && cut == Delete(d, 0, |d| - 1);
    var warned := n.PasteText();
    assert !warned && n.doc == Insert(cut, 0, d[0..|d|]);
  }
}
