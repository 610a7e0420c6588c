/** The bold / italic / underline buttons of the format toolbar
    (`attrs_cb` and `bold_toggled`, `italic_toggled`, `underline_toggled`).

    Each button is a toggle action with its own `active` value; the window
    switches it through the action's toolbar proxy, which shares that
    value. The window shadows it with a `state` flag and a one-shot `block`
    flag. When the canvas reports the attributes under the cursor, the window sets `block`
    and switches the action to the reported value; the toggle callback that
    this fires (synchronously) sees `block`, clears it and forwards
    nothing. A toggle the user makes is forwarded to the text panel if it
    has the keyboard focus and to the canvas otherwise. */
module FormatToggles {

  import opened Wrappers

  datatype Attribute = Bold | Italic | Underline

  /** Where a user's toggle is sent: the extended text panel or the canvas. */
  datatype Target = TextPanel | Canvas

  /** One `set_bold` / `set_italics` / `set_underline` call on a target. */
  datatype Forward = Forward(target: Target, attr: Attribute, value: bool)

  /** `active` is the toggle action's value; `state` and `block` are the
      window's `<attr>_state` and `<attr>_block` fields. */
  datatype Button = Button(active: bool, state: bool, block: bool)

  /** The three buttons and the font button's font name. */
  datatype FormatBar = FormatBar(bold: Button, italic: Button, underline: Button, font: string)

  /** The font name shown when the canvas reports no font. */
  const DefaultFont: string := "Sans 12"

  /** A new window: every action off, every flag cleared. */
  const InitialButton: Button := Button(false, false, false)

  /** A button between events: the window's shadow matches the action and
      no toggle is pending to be swallowed. */
  predicate Settled(b: Button) {
    b.active == b.state && !b.block
  }

  function TargetOf(panelFocused: bool): Target {
    if panelFocused then TextPanel else Canvas
  }

  /** The toggle callback, run after the action has taken its new value
      `b.active`: flip `state`; a pending block is consumed and swallows
      the toggle, otherwise the action's value is forwarded. */
  function Toggled(b: Button, attr: Attribute, panelFocused: bool): (r: (Button, seq<Forward>))
    ensures r.0.active == b.active && r.0.state == !b.state && !r.0.block
    ensures |r.1| <= 1
    ensures r.1 == [] <==> b.block
  {
    var flipped := b.(state := !b.state);
    if b.block then
      (flipped.(block := false), [])
    else
      (flipped, [Forward(TargetOf(panelFocused), attr, b.active)])
  }

  /** `set_active(v)` on the action: the toggle callback runs, at once,
      only if the value actually changes. */
  function SetActive(b: Button, v: bool, attr: Attribute, panelFocused: bool): (r: (Button, seq<Forward>))
    ensures r.0.active == v
    ensures b.active == v ==> r == (b, [])
    ensures b.active != v ==> r.0.state == !b.state && !r.0.block && (r.1 == [] <==> b.block)
    ensures b.active != v && !b.block ==> r.1 == [Forward(TargetOf(panelFocused), attr, v)]
  {
    if b.active == v then (b, []) else Toggled(b.(active := v), attr, panelFocused)
  }

  /** The user clicks the button: the action flips and the callback runs. */
  function Click(b: Button, attr: Attribute, panelFocused: bool): (r: (Button, seq<Forward>))
    ensures r.0.active == !b.active && r.0.state == !b.state && !r.0.block
    ensures b.block ==> r.1 == []
    ensures !b.block ==> r.1 == [Forward(TargetOf(panelFocused), attr, !b.active)]
  {
    Toggled(b.(active := !b.active), attr, panelFocused)
  }

  /** One attribute's part of `attrs_cb`: when the reported value differs
      from `state`, block the next toggle and switch the action. */
  function Sync(b: Button, reported: bool, attr: Attribute, panelFocused: bool): (r: (Button, seq<Forward>))
    ensures reported == b.state ==> r == (b, [])
  {
    if reported != b.state then SetActive(b.(block := true), reported, attr, panelFocused) else (b, [])
  }

  /** The whole of `attrs_cb`: bold, then italics, then underline, then
      the font name (the font description's string form, or "Sans 12"). */
  function AttrsCb(f: FormatBar, bold: bool, italics: bool, underline: bool, font: Option<string>,
                   panelFocused: bool): (r: (FormatBar, seq<Forward>))
    ensures r.0.font == (if font.Some? then font.value else DefaultFont)
  {
    var (b, f1) := Sync(f.bold, bold, Bold, panelFocused);
    var (i, f2) := Sync(f.italic, italics, Italic, panelFocused);
    var (u, f3) := Sync(f.underline, underline, Underline, panelFocused);
    var name := if font.Some? then font.value else DefaultFont;
    (FormatBar(b, i, u, name), f1 + f2 + f3)
  }

  /** A report that matches the button leaves it alone; one that differs
      leaves the button showing the reported value, settled, and forwards
      nothing to either the canvas or the text panel. */
  lemma SyncSettles(b: Button, reported: bool, attr: Attribute, panelFocused: bool)
    requires Settled(b)
    ensures Sync(b, reported, attr, panelFocused) == (Button(reported, reported, false), [])
  {
  }

  /** A user's click on a settled button flips it, leaves it settled, and
      forwards the new value to exactly one target: the text panel when it
      has the focus, the canvas otherwise. */
  lemma ClickForwardsOnce(b: Button, attr: Attribute, panelFocused: bool)
    requires Settled(b)
    ensures var (b', fw) := Click(b, attr, panelFocused);
            && Settled(b') && b'.state == !b.state
            && fw == [Forward(if panelFocused then TextPanel else Canvas, attr, !b.state)]
  {
  }

  /** The events the toolbar sees. */
  datatype Event =
    | UserClick(attr: Attribute, panelFocused: bool)
    | CanvasAttrs(bold: bool, italics: bool, underline: bool, font: Option<string>, panelFocused: bool)

  predicate BarSettled(f: FormatBar) {
    Settled(f.bold) && Settled(f.italic) && Settled(f.underline)
  }

  function ClickBar(f: FormatBar, attr: Attribute, panelFocused: bool): (FormatBar, seq<Forward>)
  {
    match attr
    case Bold =>
      var (b, fw) := Click(f.bold, Bold, panelFocused); (f.(bold := b), fw)
    case Italic =>
      var (b, fw) := Click(f.italic, Italic, panelFocused); (f.(italic := b), fw)
    case Underline =>
      var (b, fw) := Click(f.underline, Underline, panelFocused); (f.(underline := b), fw)
  }

  function Step(f: FormatBar, e: Event): (FormatBar, seq<Forward>)
  {
    match e
    case UserClick(attr, focus) => ClickBar(f, attr, focus)
    case CanvasAttrs(b, i, u, font, focus) => AttrsCb(f, b, i, u, font, focus)
  }

  /** Runs a sequence of events from `f`, collecting every forwarded call. */
  function Run(f: FormatBar, events: seq<Event>): (FormatBar, seq<Forward>)
    decreases |events|
  {
    if events == [] then (f, [])
    else
      var (f1, fw1) := Step(f, events[0]);
      var (f2, fw2) := Run(f1, events[1..]);
      (f2, fw1 + fw2)
  }

  function ClickCount(events: seq<Event>): nat
  {
    if events == [] then 0 else (if events[0].UserClick? then 1 else 0) + ClickCount(events[1..])
  }

  /** From any settled toolbar, whatever mix of user clicks and canvas
      reports arrives, every button stays settled and exactly one call is
      forwarded per user click: programmatic syncs are always swallowed. */
  lemma {:induction false} RunKeepsSettled(f: FormatBar, events: seq<Event>)
    requires BarSettled(f)
    ensures BarSettled(Run(f, events).0)
    ensures |Run(f, events).1| == ClickCount(events)
    decreases |events|
  {
    if events != [] {
      var (f1, fw1) := Step(f, events[0]);
      match events[0] {
        case UserClick(attr, focus) =>
          ClickForwardsOnce(f.bold, Bold, focus);
          ClickForwardsOnce(f.italic, Italic, focus);
          ClickForwardsOnce(f.underline, Underline, focus);
        case CanvasAttrs(b, i, u, font, focus) =>
          AttrsCbShowsReport(f, b, i, u, font, focus);
      }
      RunKeepsSettled(f1, events[1..]);
    }
  }

  /** A new window's toolbar is settled, so every toolbar the window can
      reach is. */
  lemma ReachableSettled(events: seq<Event>)
    ensures BarSettled(Run(FormatBar(InitialButton, InitialButton, InitialButton, DefaultFont), events).0)
  {
    RunKeepsSettled(FormatBar(InitialButton, InitialButton, InitialButton, DefaultFont), events);
  }

  /** A canvas report on a settled toolbar shows exactly the reported
      attributes and forwards nothing. */
  lemma AttrsCbShowsReport(f: FormatBar, bold: bool, italics: bool, underline: bool,
                           font: Option<string>, panelFocused: bool)
    requires BarSettled(f)
    ensures var (f', fw) := AttrsCb(f, bold, italics, underline, font, panelFocused);
            && f'.bold.state == bold && f'.italic.state == italics && f'.underline.state == underline
            && BarSettled(f') && fw == []
  {
    SyncSettles(f.bold, bold, Bold, panelFocused);
    SyncSettles(f.italic, italics, Italic, panelFocused);
    SyncSettles(f.underline, underline, Underline, panelFocused);
  }
}
