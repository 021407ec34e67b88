/** The text editor widget (kyute/src/widget/textedit.rs): a UTF-8 text with a
    selection, edited by cursor moves, insertions and keyboard events.
    Grapheme segmentation is a parameter of the editing operations. */
module TextEditing {
  import opened Wrappers

  /** A byte of the UTF-8 text. */
  newtype u8 = x: int | 0 <= x < 256

  type Text = seq<u8>

  /** `str::is_char_boundary`: the start, the end, or a byte that does not
      continue a multi-byte character (one outside `0x80..0xC0`). */
  predicate IsCharBoundary(t: Text, i: nat) {
    i == 0 || i == |t| || (i < |t| && !(0x80 <= t[i] < 0xC0))
  }

  /** Text selection: the caret is at `end`; `start` may lie after it. */
  datatype Selection = Selection(start: nat, end: nat) {
    function Min(): (r: nat)
      ensures r == start || r == end
      ensures r <= start && r <= end
    {
      if start <= end then start else end
    }

    function Max(): (r: nat)
      ensures r == start || r == end
      ensures r >= start && r >= end
    {
      if start <= end then end else start
    }

    predicate IsEmpty() {
      start == end
    }

    /** `Selection::empty`: the caret at `at`, nothing selected. */
    static function Empty(at: nat): (r: Selection)
      ensures r.IsEmpty() && r.end == at
    {
      Selection(at, at)
    }

    /** `Selection::default`: the caret at the start of the text. */
    static function Default(): (r: Selection)
      ensures r.IsEmpty() && r.end == 0
    {
      Empty(0)
    }
  }

  /** The bounds of a selection are its two ends in order, and they meet
      exactly when the selection is empty. */
  lemma {:induction false} SelectionBounds(s: Selection)
    ensures s.Min() <= s.Max()
    ensures {s.Min(), s.Max()} == {s.start, s.end}
    ensures s.IsEmpty() <==> s.Min() == s.Max()
  {
  }

  /** The grapheme-cluster boundary before / after an offset of a text
      (`prev_grapheme_cluster`, `next_grapheme_cluster`), `None` when there
      is none. Unicode segmentation is not modelled. */
  type Boundary = (Text, nat) -> Option<nat>

  datatype Graphemes = Graphemes(prev: Boundary, next: Boundary)

  /** `Movement`. */
  datatype Movement = Left | Right | LeftWord | RightWord

  /** Where `move_cursor` puts the caret for a move by one cluster: the
      boundary before or after `end`, or `end` itself when there is none.
      The grapheme cursor slices the text at `end` (`text[..end]` looking
      back, `text[end..]` looking forward), which panics when `end` is past
      the text or inside a character; it stops without slicing only at the
      start looking back and at the end looking forward, both boundaries. */
  function CursorTarget(g: Graphemes, t: Text, end: nat, left: bool): (r: Result<nat>)
    ensures r.Panic? <==> !IsCharBoundary(t, end)
  {
    if !IsCharBoundary(t, end) then Panic("byte index is not a char boundary")
    else
      var b := if left then g.prev(t, end) else g.next(t, end);
      Ok(if b.Some? then b.value else end)
  }

  /** The selection Backspace (`left`) or Delete removes: a caret is first
      grown by one cluster, which panics as `CursorTarget` does. */
  function Grown(g: Graphemes, t: Text, sel: Selection, left: bool): (r: Result<Selection>)
    ensures r.Panic? <==> sel.IsEmpty() && !IsCharBoundary(t, sel.end)
    ensures r.Ok? && !sel.IsEmpty() ==> r.value == sel
    ensures r.Ok? && sel.IsEmpty() ==> r.value.start == sel.start
  {
    if sel.IsEmpty() then
      var target :- CursorTarget(g, t, sel.end, left);
      Ok(sel.(end := target))
    else Ok(sel)
  }

  /** What `(text, selection)` become when `s` replaces the selected bytes:
      `replace_range(min..max, s)` and a caret right after the new bytes;
      `replace_range` panics when either end is not a char boundary. */
  function Spliced(t: Text, sel: Selection, s: Text): (r: Result<(Text, Selection)>)
    ensures r.Ok? <==> IsCharBoundary(t, sel.Min()) && IsCharBoundary(t, sel.Max())
    ensures r.Ok? ==>
              var (t2, sel2) := r.value;
              |t2| == |t| - (sel.Max() - sel.Min()) + |s|
              && t2[..sel.Min()] == t[..sel.Min()] && t2[sel.Min()..sel.Min() + |s|] == s
              && t2[sel.Min() + |s|..] == t[sel.Max()..]
              && sel2 == Selection.Empty(sel.Min() + |s|)
  {
    if !IsCharBoundary(t, sel.Min()) || !IsCharBoundary(t, sel.Max()) then
      Panic("assertion failed: self.is_char_boundary(n)")
    else
      var t2 := t[..sel.Min()] + s + t[sel.Max()..];
      assert t2[sel.Min()..sel.Min() + |s|] == s;
      Ok((t2, Selection.Empty(sel.Min() + |s|)))
  }

  /** A splice is undone by splicing the bytes it removed back over the
      bytes it inserted (when both ends of those are char boundaries): the
      text is restored, with the caret after the restored bytes. */
  lemma {:induction false} SplicedUndo(t: Text, sel: Selection, s: Text)
    requires Spliced(t, sel, s).Ok?
    requires var t2 := Spliced(t, sel, s).value.0;
             IsCharBoundary(t2, sel.Min()) && IsCharBoundary(t2, sel.Min() + |s|)
    ensures var t2 := Spliced(t, sel, s).value.0;
            Spliced(t2, Selection(sel.Min(), sel.Min() + |s|), t[sel.Min()..sel.Max()])
            == Ok((t, Selection.Empty(sel.Max())))
  {
    var lo, hi := sel.Min(), sel.Max();
    var t2 := Spliced(t, sel, s).value.0;
    assert t2[..lo] + t[lo..hi] + t2[lo + |s|..] == t[..lo] + t[lo..hi] + t[hi..] == t;
  }

  /** Inserting nothing at a caret changes nothing. */
  lemma {:induction false} InsertNothingAtCaret(t: Text, at: nat)
    requires IsCharBoundary(t, at)
    ensures Spliced(t, Selection.Empty(at), []) == Ok((t, Selection.Empty(at)))
  {
    assert t[..at] + [] + t[at..] == t;
  }

  /** Backspace on a caret at `end` with a boundary `p` before it removes the
      bytes `[p, end)` and leaves the caret at `p`. */
  lemma {:induction false} BackspaceRemovesCluster(g: Graphemes, t: Text, end: nat)
    requires g.prev(t, end).Some? && g.prev(t, end).value <= end
    requires IsCharBoundary(t, g.prev(t, end).value) && IsCharBoundary(t, end)
    ensures var p := g.prev(t, end).value;
            Spliced(t, Selection(end, CursorTarget(g, t, end, true).value), []) == Ok((t[..p] + t[end..], Selection.Empty(p)))
  {
  }

  /** Delete on a caret at `end` with a boundary `n` after it removes the
      bytes `[end, n)` and leaves the caret where it was. */
  lemma {:induction false} DeleteRemovesCluster(g: Graphemes, t: Text, end: nat)
    requires g.next(t, end).Some? && end <= g.next(t, end).value
    requires IsCharBoundary(t, end) && IsCharBoundary(t, g.next(t, end).value)
    ensures var n := g.next(t, end).value;
            Spliced(t, Selection(end, CursorTarget(g, t, end, false).value), []) == Ok((t[..end] + t[n..], Selection.Empty(end)))
  {
  }

  /** Keys the editor reacts to. */
  datatype KeyCode = Backspace | Delete | ArrowLeft | ArrowRight | Character(chars: Text) | OtherKey

  /** The events `TextEdit::event` handles here; mouse events are not
      modelled. */
  datatype Event = FocusIn | FocusOut | KeyDown(key: KeyCode, shift: bool) | KeyUp(key: KeyCode) | OtherEvent

  /** What the event handler asks of its context. */
  datatype Request = NoRequest | Redraw | Relayout

  /** `TextEdit`: its text, its selection and whether a text layout is held;
      formatting, style and colours are not modelled. */
  class TextEdit {
    var text: Text
    var selection: Selection
    var hasLayout: bool

    /** `TextEdit::new`: no layout yet, the caret at the start. */
    constructor (text: Text)
      ensures this.text == text && selection == Selection.Default() && !hasLayout
    {
      this.text := text;
      selection := Selection.Default();
      hasLayout := false;
    }

    /** `TextEdit::set_text`: drops the layout and replaces the text; the
        selection is kept as it was. */
    method SetText(text: Text)
      modifies this
      ensures this.text == text && !hasLayout && selection == old(selection)
    {
      hasLayout := false;
      this.text := text;
    }

    /** `TextEdit::move_cursor`: moves the caret one cluster left or right;
        with `modifySelection` only the caret end moves, otherwise the
        selection collapses there. Word moves are `unimplemented!()`. */
    method MoveCursor(g: Graphemes, movement: Movement, modifySelection: bool) returns (r: Result<()>)
      modifies this
      ensures r.Panic? <==> movement.LeftWord? || movement.RightWord? || !IsCharBoundary(old(text), old(selection).end)
      ensures r.Ok? ==>
                var target := CursorTarget(g, old(text), old(selection).end, movement.Left?).value;
                && (modifySelection ==> selection == old(selection).(end := target))
                && (!modifySelection ==> selection == Selection.Empty(target))
      ensures text == old(text) && hasLayout == old(hasLayout)
    {
      if movement.LeftWord? || movement.RightWord? {
        return Panic("not implemented");
      }
      var offset :- CursorTarget(g, text, selection.end, movement.Left?);
      if modifySelection {
        selection := selection.(end := offset);
      } else {
        selection := Selection.Empty(offset);
      }
      return Ok(());
    }

    /** `TextEdit::insert`: `s` replaces the selected bytes and the caret
        follows it. */
    method Insert(s: Text) returns (r: Result<()>)
      modifies this
      ensures r.Panic? <==> Spliced(old(text), old(selection), s).Panic?
      ensures r.Ok? ==> (text, selection) == Spliced(old(text), old(selection), s).value
      ensures hasLayout == old(hasLayout)
    {
      var edited :- Spliced(text, selection, s);
      text, selection := edited.0, edited.1;
      return Ok(());
    }

    /** `TextEdit::set_cursor`: collapses the selection to a caret at `pos`;
        nothing changes when it already is one. */
    method SetCursor(pos: nat)
      modifies this
      ensures selection == Selection.Empty(pos)
      ensures text == old(text) && hasLayout == old(hasLayout)
    {
      if selection.IsEmpty() && selection.end == pos {
        return;
      }
      selection := Selection.Empty(pos);
    }

    /** `TextEdit::set_selection_end`: moves the caret end only. */
    method SetSelectionEnd(pos: nat)
      modifies this
      ensures selection == old(selection).(end := pos)
      ensures text == old(text) && hasLayout == old(hasLayout)
    {
      if selection.end == pos {
        return;
      }
      selection := selection.(end := pos);
    }

    /** `TextEdit::select_all`: the whole text, caret at its end. */
    method SelectAll()
      modifies this
      ensures selection == Selection(0, |text|) && selection.Min() == 0 && selection.Max() == |text|
      ensures text == old(text) && hasLayout == old(hasLayout)
    {
      selection := Selection(0, |text|);
    }

    /** The key-down branch of `TextEdit::event`. Backspace and Delete on a
        caret first extend it by one cluster to the left or right, then
        delete the selection; arrows move the caret, extending the selection
        with Shift; a character replaces the selection. */
    method KeyDown(g: Graphemes, key: KeyCode, shift: bool) returns (r: Result<Request>)
      modifies this
      ensures hasLayout == old(hasLayout)
      ensures key.Backspace? || key.Delete? ==>
                var grown := Grown(g, old(text), old(selection), key.Backspace?);
                && (r.Panic? <==> grown.Panic? || Spliced(old(text), grown.value, []).Panic?)
                && (r.Ok? ==> r.value == Relayout && (text, selection) == Spliced(old(text), grown.value, []).value)
      ensures key.ArrowLeft? || key.ArrowRight? ==>
                && (r.Panic? <==> !IsCharBoundary(old(text), old(selection).end))
                && (r.Ok? ==>
                      var target := CursorTarget(g, old(text), old(selection).end, key.ArrowLeft?).value;
                      r == Ok(Redraw) && text == old(text)
                      && selection == (if shift then old(selection).(end := target) else Selection.Empty(target)))
      ensures key.Character? ==>
                && (r.Panic? <==> Spliced(old(text), old(selection), key.chars).Panic?)
                && (r.Ok? ==> r.value == Relayout && (text, selection) == Spliced(old(text), old(selection), key.chars).value)
      ensures key.OtherKey? ==> r == Ok(NoRequest) && text == old(text) && selection == old(selection)
    {
      match key
      case Backspace =>
        if selection.IsEmpty() {
          var _ :- MoveCursor(g, Left, true);
        }
        var _ :- Insert([]);
        return Ok(Relayout);
      case Delete =>
        if selection.IsEmpty() {
          var _ :- MoveCursor(g, Right, true);
        }
        var _ :- Insert([]);
        return Ok(Relayout);
      case ArrowLeft =>
        var _ :- MoveCursor(g, Left, shift);
        return Ok(Redraw);
      case ArrowRight =>
        var _ :- MoveCursor(g, Right, shift);
        return Ok(Redraw);
      case Character(chars) =>
        var _ :- Insert(chars);
        return Ok(Relayout);
      case OtherKey =>
        return Ok(NoRequest);
    }

    /** `TextEdit::event` for focus and keyboard events: gaining the focus
        only redraws, losing it collapses the selection to the caret, and a
        key press is handled by `KeyDown`; other events change nothing. */
    method HandleEvent(g: Graphemes, event: Event) returns (r: Result<Request>)
      modifies this
      ensures hasLayout == old(hasLayout)
      ensures event.FocusIn? ==> r == Ok(Redraw) && text == old(text) && selection == old(selection)
      ensures event.FocusOut? ==> r == Ok(Redraw) && text == old(text) && selection == Selection.Empty(old(selection).end)
      ensures event.KeyDown? && (event.key.Backspace? || event.key.Delete?) ==>
                var grown := Grown(g, old(text), old(selection), event.key.Backspace?);
                && (r.Panic? <==> grown.Panic? || Spliced(old(text), grown.value, []).Panic?)
                && (r.Ok? ==> r.value == Relayout && (text, selection) == Spliced(old(text), grown.value, []).value)
      ensures event.KeyDown? && (event.key.ArrowLeft? || event.key.ArrowRight?) ==>
                && (r.Panic? <==> !IsCharBoundary(old(text), old(selection).end))
                && (r.Ok? ==>
                      var target := CursorTarget(g, old(text), old(selection).end, event.key.ArrowLeft?).value;
                      r == Ok(Redraw) && text == old(text)
                      && selection == (if event.shift then old(selection).(end := target) else Selection.Empty(target)))
      ensures event.KeyDown? && event.key.Character? ==>
                && (r.Panic? <==> Spliced(old(text), old(selection), event.key.chars).Panic?)
                && (r.Ok? ==> r.value == Relayout && (text, selection) == Spliced(old(text), old(selection), event.key.chars).value)
      ensures event.KeyUp? || event.OtherEvent? || (event.KeyDown? && event.key.OtherKey?) ==>
                r == Ok(NoRequest) && text == old(text) && selection == old(selection)
    {
      match event
      case FocusIn =>
        return Ok(Redraw);
      case FocusOut =>
        SetCursor(selection.end);
        return Ok(Redraw);
      case KeyDown(key, shift) =>
        r := KeyDown(g, key, shift);
      case KeyUp(_) =>
        return Ok(NoRequest);
      case OtherEvent =>
        return Ok(NoRequest);
    }
  }

  /** `EditState`: a text and its selection. */
  class EditState {
    var text: Text
    var selection: Selection

    /** `EditState::new`: the caret at the start. */
    constructor (text: Text)
      ensures this.text == text && selection == Selection.Default()
    {
      this.text := text;
      selection := Selection.Default();
    }

    /** `EditState::set_text`: a new text resets the selection. */
    method SetText(text: Text)
      modifies this
      ensures this.text == text && selection == Selection.Default()
    {
      this.text := text;
      selection := Selection.Default();
    }
  }
}
