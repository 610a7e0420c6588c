/** Which Edit-menu entries are enabled when the menu opens
    (`edit_activated_cb`): cut, copy, paste and link. */
module EditMenu {

  import opened Wrappers

  /** The canvas's interaction mode. */
  datatype Mode = Editing | Image | Draw

  /** A selected thought, as far as this rule sees it: the value of its
      `editing` attribute, or `None` for a kind of thought that has no such
      attribute (reading it raises `AttributeError`, which the rule
      ignores). */
  datatype Thought = Thought(editing: Option<bool>)

  /** One end of a selection as a Python value: `Absent` is `None` or the
      empty tuple, `Offset` a plain integer from the canvas, `Iter` a text
      iterator of the panel's buffer at a character offset. */
  datatype Pos = Absent | Offset(n: int) | Iter(n: int)

  /** Python truth of a selection end: `None`, `()` and `0` are false,
      any other integer and any iterator are true. */
  predicate Truthy(p: Pos) {
    match p
    case Absent => false
    case Offset(n) => n != 0
    case Iter(_) => true
  }

  datatype Sensitivity = Sensitivity(cut: bool, copy: bool, paste: bool, link: bool)

  /** The menu's decision as the callback makes it: everything off, then
      paste on for a focused panel, or for the canvas in editing mode when
      the first selected thought is being edited; link on for exactly two
      selected thoughts on the canvas; cut and copy on when the selection
      starts somewhere true and ends elsewhere.

      `panelBounds` is the panel buffer's `get_selection_bounds()`: `None`
      for the empty tuple, otherwise the offsets of its two iterators.
      `canvasStart`, `canvasEnd` are the canvas's selection bounds. */
  method EditActivated(panelFocused: bool, panelBounds: Option<(int, int)>, mode: Mode,
                       selected: seq<Thought>, canvasStart: Pos, canvasEnd: Pos)
    returns (s: Sensitivity)
    ensures s.cut == s.copy
    ensures s.link <==> !panelFocused && |selected| == 2
    ensures s.paste <==> panelFocused || (mode == Editing && |selected| > 0 && selected[0].editing == Some(true))
    ensures panelFocused ==> (s.cut <==> panelBounds.Some? && panelBounds.value.0 != panelBounds.value.1)
    ensures !panelFocused ==> (s.cut <==> Truthy(canvasStart) && canvasStart != canvasEnd)
  {
    var cut, copy, paste, link := false, false, false, false;
    var start, end;
    if panelFocused {
      paste := true;
      if panelBounds.Some? {
        start, end := Iter(panelBounds.value.0), Iter(panelBounds.value.1);
      } else {
        start, end := Absent, Absent;
      }
    } else {
      start, end := canvasStart, canvasEnd;
      if mode == Editing && |selected| > 0 && selected[0].editing.Some? && selected[0].editing.value {
        paste := true;
      }
      if |selected| == 2 {
        link := true;
      }
    }
    if Truthy(start) && start != end {
      cut := true;
      copy := true;
    }
    s := Sensitivity(cut, copy, paste, link);
  }
}
