# Labyrinth map window: decision rules

Labyrinth is a desktop mind-mapping editor. Its top-level window
(`src/MainWindow.py`, class `LabyrinthWindow`) is mostly GTK plumbing. Inside
its callbacks sit six small decision rules. This project restates each rule as
pure Dafny functions or short methods over immutable values, with the widgets
abstracted away, and proves what each rule promises:

- **Title folding** (`title_changed_cb`, module `Title`). An empty title
  becomes "Untitled Map". Any other title has its lines joined by single
  spaces. The title bar shows at most the first 27 bytes plus "...". The
  uncut title is emitted.
- **Format toggles** (`attrs_cb`, `bold_toggled`, `italic_toggled`,
  `underline_toggled`, module `FormatToggles`). These use a shadow `state` and
  a one-shot `block` flag for each of bold, italic and underline. Toggles
  caused by the canvas are swallowed. Toggles made by the user are forwarded
  to the text panel or to the canvas.
- **Edit-menu sensitivity** (`edit_activated_cb`, module `EditMenu`). It
  decides which of cut, copy, paste and link are enabled.
- **Pan deltas** (`translate`, `translate_timeout`, `finish_translate`,
  module `Pan`). They map a direction name to a per-tick shift. Each press
  starts a timer, and each timer tick shifts the canvas until the button is
  released.
- **Export format** (`export_cb`, module `Export`). It takes the extension
  after the last dot, maps it to an image format, repeats the dialog on an
  unknown extension, and picks a pixmap or a cairo surface. OK with no file
  name makes the callback fail on `None` and stop.
- **Autosave naming** (`doc_save_cb`, module `Autosave`). It reuses the
  window's file, or else takes the first free name among `<hex>.map`,
  `Dup1<hex>.map`, `Dup2<hex>.map`, and so on.

Modelling choices:

- A title is a Python 2 byte string (`str`), and Dafny's `string` stands for
  it one byte per character. So `len` and the slice `[0:27]` in the title
  rule count bytes, and the title-bar limit is 27 bytes.
- Python's `splitlines` is modelled with the line boundaries of a Python 2
  byte string: '\n', '\r', and "\r\n" counted as one break. Folding "\n",
  "\r" or "\r\n" gives the empty title, not "Untitled Map".
- The window calls `set_active(v)` on the toolbar button it looked up with
  `ui.get_widget` (src/MainWindow.py:95, :392), the proxy of the toggle
  action. The button and its action share one active value, so this behaves
  as the action's own `set_active`: the `toggled` callback runs
  synchronously, and only when `v` differs from the current value. So the
  model records that shared `active` value next to the window's `state` and
  `block` fields. A button is *settled* when `active` equals
  `state` and `block` is clear. The lemmas about single events assume a
  settled button, and `FormatToggles.ReachableSettled` proves that every
  button a window can reach is settled.
- The `editing` attribute of a selected thought is `Option<bool>`. `None`
  stands for a kind of thought without the attribute: reading it raises the
  `AttributeError` that the callback catches.
- The selection bounds are Python values. Their truth follows Python: `None`,
  `()` and `0` are false. Panel text iterators compare by character offset.
  The canvas's `get_selection_bounds` is not part of this model, so its two
  results are free inputs.
- The file system is a finite set of existing names. The SHA-1 digest and the
  save directory are opaque strings. A `save_file` of `None` or "" counts as
  unset, as Python's `not` treats both as false.
- Translated strings (`_()`) are modelled by their untranslated text.

## Model

| member | source | states |
|---|---|---|
| `Title.SplitLines` | src/MainWindow.py:542 | A title has no lines exactly when it is empty |
| `Title.LinesHaveNoBreaks` | src/MainWindow.py:542 | No line of a split title contains '\n' or '\r' |
| `Title.LineTerminators` | src/MainWindow.py:542 | There is one terminator per line, in line order |
| `Title.SplitLinesRoundTrip` | src/MainWindow.py:542 | Concatenating each line followed by its terminator gives back the title exactly, so splitting drops only the line breaks |
| `Title.TerminatorIsBreak` | src/MainWindow.py:542 | Each terminator is "\n", "\r" or "\r\n". Only the last line may have none, and that line is then non-empty |
| `Title.CrLfIsOneBreak` | src/MainWindow.py:542 | "\r\n" is one break: a lone "\r" is never followed by an empty line ended by "\n" |
| `Title.NormalTitle` | src/MainWindow.py:538-548 | The empty title becomes "Untitled Map"; every folded title is free of line breaks |
| `Title.WindowTitle` | src/MainWindow.py:549-553 | The title-bar text has at most 30 bytes. A title of up to 27 bytes is shown whole. A longer one is shown as its first 27 bytes plus "..." (30 in all) |
| `Title.TitleChanged` | src/MainWindow.py:537-554 | The source's pop-and-append loop computes the folded title; the title bar gets its cut form and the emitted title is the uncut one |
| `Title.FlatTitleUnchanged` | src/MainWindow.py:538-548 | A non-empty title without line breaks is kept exactly as it is |
| `Title.NormalTitleIdempotent` | src/MainWindow.py:538-548 | Folding a non-empty folded title again changes nothing |
| `Title.BlankTitleIff` | src/MainWindow.py:538-548 | The folded title is empty if and only if the title is exactly "\n", "\r" or "\r\n" |
| `Title.NormalTitleLength` | src/MainWindow.py:543-548 | For every non-empty title, the folded title's length is the lines' total length plus one per gap between lines |
| `Title.NormalTitleJoinsLines` | src/MainWindow.py:543-548 | For every non-empty title, line `i` appears in the folded title, character for character, at offset (length of the lines before it) + `i`, and each line but the last is followed by a space |
| `Title.NormalTitleSplitsBack` | src/MainWindow.py:543-548 | When no line holds a space, splitting the folded title on spaces gives back exactly the title's lines |
| `Strings.JoinWithLayout` | src/MainWindow.py:545-548 | In a join, part `i` starts after the earlier parts and one separator per earlier part, and every part but the last is followed by the separator |
| `Strings.SplitOnJoinWith` | src/MainWindow.py:545-548 | Splitting a space-join of separator-free parts on the separator returns the parts |
| `FormatToggles.Toggled` | src/MainWindow.py:444-452 | The toggle callback flips `state` and always leaves `block` cleared. It forwards nothing exactly when `block` was set, otherwise at most one call |
| `FormatToggles.SetActive` | src/MainWindow.py:392 | After `set_active(v)` the action's value is `v`. Setting the value it already has changes nothing and forwards nothing. A real change runs the callback: `state` flips, `block` is cleared, and nothing is forwarded exactly when `block` was set; otherwise `v` goes to the focused target |
| `FormatToggles.Click` | src/MainWindow.py:444-472 | A user's click flips the action and `state` and clears `block`. A pending block swallows it; otherwise the action's new value goes to the text panel if it has the focus, else to the canvas |
| `FormatToggles.Sync` | src/MainWindow.py:390-398 | A reported value equal to the current state changes nothing and forwards nothing |
| `FormatToggles.AttrsCb` | src/MainWindow.py:399-402 | The font button shows the reported font name, or "Sans 12" when no font is reported |
| `FormatToggles.SyncSettles` | src/MainWindow.py:390-398 | On a settled button, a different reported value yields a button showing that value with block cleared, and nothing is forwarded |
| `FormatToggles.ClickForwardsOnce` | src/MainWindow.py:444-472 | A click on a settled button flips the state and leaves it settled. It forwards the new value once: to the text panel if it has the focus, else to the canvas |
| `FormatToggles.AttrsCbShowsReport` | src/MainWindow.py:385-402 | A canvas report leaves the three buttons showing exactly the reported attributes, settled, and forwards nothing |
| `FormatToggles.RunKeepsSettled` | src/MainWindow.py:385-472 | Under any sequence of clicks and canvas reports, buttons stay settled and exactly one call is forwarded per user click |
| `FormatToggles.ReachableSettled` | src/MainWindow.py:96-103 | Every toolbar reachable from a new window's all-false flags is settled |
| `EditMenu.EditActivated` | src/MainWindow.py:786-812 | Cut and copy agree. Link is on if and only if the canvas has the focus and exactly two thoughts are selected. Paste is on if and only if the panel has the focus, or the canvas is in editing mode and the first selected thought is editing. Cut is on if and only if the selection start is true and differs from its end. For the panel, that means a non-empty selection |
| `Pan.PanDelta` | src/MainWindow.py:406-421 | Up shifts by (0, 5), Down by (0, -5), Right by (-5, 0) and Left by (5, 0); every other name has no delta. Each delta has exactly one non-zero component, and its components lie in {0, 5, -5} |
| `Pan.Opposite` | src/MainWindow.py:406-418 | Opposite directions have negated deltas |
| `Pan.Translate` | src/MainWindow.py:404-422 | The current translation is saved whatever the direction. A known direction sets `tr_to` and starts one timer with its delta. An unknown one leaves `tr_to` and the timers unchanged |
| `Pan.FinishTranslate` | src/MainWindow.py:432-439 | Releasing clears `tr_to` and changes nothing else |
| `Pan.Tick` | src/MainWindow.py:424-430 | A timer tick moves the canvas exactly while `tr_to` is set: by that timer's delta, and the timer runs again. Otherwise the timer is removed and nothing moves |
| `Pan.ReleaseStopsTimers` | src/MainWindow.py:404-439 | The timer a press starts moves by the press's delta while panning. After the release its next tick removes it without moving, leaving the earlier timers |
| `Pan.NoMoveAfterRelease` | src/MainWindow.py:424-439 | Once `tr_to` is clear, no run of releases and ticks moves the canvas, `tr_to` stays clear and the timer count never grows |
| `Pan.ReleaseThenTicks` | src/MainWindow.py:424-439 | A release followed by any events other than a press moves nothing |
| `Pan.PanningTicksMove` | src/MainWindow.py:424-430 | While panning, ticks stop no timer: the `i`-th tick moves by the delta of the timer it names |
| `Pan.DoublePressBothRun` | src/MainWindow.py:404-430 | Pressing a second box before the first timer ticks leaves both timers running, each shifting by its own press's delta |
| `Strings.LastIndexOf` | src/MainWindow.py:732 | `rfind` returns the index of the last occurrence, with no later one, or -1 exactly when the character is absent |
| `Export.ExtensionIsLastSuffix` | src/MainWindow.py:732 | The extension is a dotless suffix of the name that follows the name's last dot; a name without a dot is its own extension |
| `Export.ExtensionOfName` | src/MainWindow.py:732 | For a dotless extension, `stem + "." + ext` has extension `ext` |
| `Export.MimeTable` | src/MainWindow.py:729-735 | Exactly png, jpg, jpeg, svg and pdf are accepted; jpg and jpeg both give "jpeg", the others give themselves |
| `Export.RunDialog` | src/MainWindow.py:725-746 | The loop never refuses more names than were given. It is still open exactly when every response was a refused name |
| `Export.RunDialogRefusals` | src/MainWindow.py:727-743 | Each refusal comes, in order, from OK with a file name, records that name's extension, and that extension is unsupported |
| `Export.RunDialogStops` | src/MainWindow.py:725-746 | The response after the refusals ends the loop. OK with a name whose extension is supported chooses that name with its format. OK with no name (`get_filename()` returning `None`) aborts the callback, since `rfind` on `None` raises. Any other response cancels |
| `Export.DispatchAsWritten` | src/MainWindow.py:753-761 | As written, the pixmap path is taken exactly for "png" and "jpg" |
| `Export.JpegExportHasNoSurface` | src/MainWindow.py:753-761 | As written, a .jpg or .jpeg name maps to "jpeg", takes the surface path and gets no surface |
| `Export.Dispatch` | src/MainWindow.py:753-761 | Corrected: the pixmap path is taken exactly for "png" and "jpeg", and every other format is dispatched as written |
| `Export.DispatchWritable` | src/MainWindow.py:753-761 | With the corrected dispatch, every accepted extension gets a pixmap in its own format or a created surface (SVG for svg, PDF for pdf) |
| `Export.ExportChoice` | src/MainWindow.py:725-761 | An export writes exactly when the dialog loop chose a name, and then writes to that name. The sink is the corrected dispatch of the chosen format: a pixmap in that format exactly for "png" and "jpeg", an SVG surface for "svg" and a PDF surface for "pdf". Every write has a supported extension and a usable sink |
| `Strings.NatToString` | src/MainWindow.py:596 | `str(counter)` is a non-empty string of decimal digits with no leading zero (only "0" itself starts with '0') |
| `Strings.ParseNatToString` | src/MainWindow.py:596 | Reading `str(n)` back as decimal gives `n` |
| `Strings.NatToStringInjective` | src/MainWindow.py:596 | Different counters print differently |
| `Autosave.CandidateInjective` | src/MainWindow.py:591-596 | Different attempts try different file names |
| `Autosave.FreeName` | src/MainWindow.py:590-597 | The search returns the first candidate name that does not exist. Every earlier candidate exists. It stops after at most as many duplicates as there are existing files |
| `Autosave.ChooseSaveFile` | src/MainWindow.py:586-599 | A window's own file is reused unchanged. Otherwise the chosen name is not an existing file and is the first free candidate |
| `Autosave.FirstFreeUnique` | src/MainWindow.py:588-597 | At most one name is the first free candidate, so the choice depends only on the directory, the digest and the existing files |

## Findings

| source | as written | input that shows it | evidently intended | confidence | as-written member | corrected member |
|---|---|---|---|---|---|---|
| src/MainWindow.py:753 | `if mime in ['png', 'jpg']` sends pixmap formats to `save_as_pixmap`, but no extension maps to "jpg": both .jpg and .jpeg map to "jpeg". A JPEG export therefore takes the surface branch, where `surface` stays `None` and `save_surface` builds a cairo context on `None` | exporting to `map.jpg` | `['png', 'jpeg']`, so that JPEG goes through the pixbuf saver, whose format name is "jpeg" | high, not executed | `Export.DispatchAsWritten`, `Export.JpegExportHasNoSurface` | `Export.Dispatch`, `Export.DispatchWritable` |

`Export.ExportChoice` uses the corrected dispatch.

## Left out

- GTK widget construction, packing, show/hide, signal wiring, dialogs, message boxes and the clipboard: UI plumbing with no rule beyond those modelled.
- Cairo and Pango rendering, pixbuf export, `save_as_pixmap` and `save_surface`, `tarfile` archives and file writing (`save_map`): foreign libraries and I/O. The model stops at the choice of sink and file name.
- SHA-1 hashing and `utils.get_save_dir`: the digest and directory are opaque inputs.
- `serialize_to_xml`, `parse_file` and `utils.parse_coords`: XML formatting and parsing through Python `str()`, delegated to helpers that are not part of this model.
- Zoom (`scale_fac` times or divided by 1.2) and the division of the pan delta by `scale_fac` in `translate_timeout`: floating point. `Pan.Tick` yields the undivided delta a tick moves by.
- The undo record filed by `finish_translate`: the undo manager is not part of this model.
- `PeriodicSaveThread`, `start_timer` and the 20 ms `gobject.timeout_add` timer: a background thread and timers. Timers appear as the list of running timers' deltas, and their ticks as events in any order (`Pan.PanEvent`); the 20 ms interval is not modelled.
- `MMapArea`, `UndoManager`, `ImageThought` and `TextThought`: collaborators that are not part of this model. Calls into them appear only as forwarded events (`FormatToggles.Forward`) or free inputs.
- The `title-changed` and `file_saved` signal emissions: modelled as return values.
- The console messages: `print "Error"` for an unknown pan direction (src/MainWindow.py:419) and the duplicate-file warning in the autosave loop (src/MainWindow.py:595). They are output only and change no state.
- `Title.WindowTitle`: counts bytes, as the source does on its UTF-8 byte string. The cut may split a multi-byte character; the model does not treat such titles as characters.
- `Title.SplitLines`: uses Python 2 byte-string line boundaries. A unicode title would also break at '\v', '\f', '\x1c'-'\x1e', '\x85', '\u2028' and '\u2029'; those are not modelled.
