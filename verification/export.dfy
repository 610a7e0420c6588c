/** Exporting the map as an image (`export_cb`): the file name's
    extension picks a format, an unknown extension sends the user back to
    the dialog, and the format picks how the image is drawn: through a
    pixmap saved by the pixbuf library, or onto an SVG or PDF surface. */
module Export {

  import opened Wrappers
  import opened Strings

  /** `filename[filename.rfind('.') + 1:]`: the text after the last dot,
      or the whole name when it has no dot. */
  function Extension(filename: string): string
  {
    filename[LastIndexOf(filename, '.') + 1..]
  }

  /** The extension is the dotless tail of the name that follows its last
      dot; a name without a dot is its own extension. */
  lemma ExtensionIsLastSuffix(filename: string)
    ensures '.' !in Extension(filename)
    ensures var ext := Extension(filename);
            |ext| <= |filename| && filename[|filename| - |ext|..] == ext
    ensures var ext := Extension(filename);
            '.' in filename ==> |ext| < |filename| && filename[|filename| - |ext| - 1] == '.'
    ensures '.' !in filename ==> Extension(filename) == filename
  {
    var i := LastIndexOf(filename, '.');
    var ext := Extension(filename);
    forall k | 0 <= k < |ext|
      ensures ext[k] != '.'
    {
      assert ext[k] == filename[i + 1 + k];
    }
  }

  /** A name built from a stem, a dot and a dotless extension gives that
      extension back. */
  lemma ExtensionOfName(stem: string, ext: string)
    requires '.' !in ext
    ensures Extension(stem + "." + ext) == ext
  {
    var name := stem + "." + ext;
    assert name[|stem|] == '.';
    forall j | |stem| < j < |name|
      ensures name[j] != '.'
    {
      assert name[j] == ext[j - |stem| - 1];
    }
    assert LastIndexOf(name, '.') == |stem|;
    assert name[|stem| + 1..] == ext;
  }

  /** The accepted extensions and the format each one is saved as. */
  const ExtMimeMapping: map<string, string> :=
    map["png" := "png", "jpg" := "jpeg", "jpeg" := "jpeg", "svg" := "svg", "pdf" := "pdf"]

  /** The format for an extension, or `None` for an unsupported one. */
  function MimeOf(ext: string): Option<string>
  {
    if ext in ExtMimeMapping then Some(ExtMimeMapping[ext]) else None
  }

  /** Exactly png, jpg, jpeg, svg and pdf are accepted; jpg and jpeg are
      both saved as "jpeg", the others under their own name. */
  lemma MimeTable(ext: string)
    ensures MimeOf(ext).Some? <==> ext in {"png", "jpg", "jpeg", "svg", "pdf"}
    ensures ext == "jpg" || ext == "jpeg" ==> MimeOf(ext) == Some("jpeg")
    ensures ext == "png" || ext == "svg" || ext == "pdf" ==> MimeOf(ext) == Some(ext)
  {
  }

  /** What the user does with the export dialog each time it runs: OK
      with the chooser's file name (`None` when no name is entered), or
      any other response. */
  datatype Response = Accept(filename: Option<string>) | Dismiss

  /** The end of the dialog loop. Every outcome carries the extensions
      refused on the way, one "Unknown file format" message each. `Open`
      means the responses ran out while the dialog still waits. `Aborted`
      means OK was pressed with no file name: taking the extension of
      `None` raises an `AttributeError` that nothing catches, so the
      callback ends there, with the dialog neither run again nor
      destroyed. */
  datatype DialogOutcome =
    | Chosen(filename: string, mime: string, refused: seq<string>)
    | Cancelled(refused: seq<string>)
    | Aborted(refused: seq<string>)
    | Open(refused: seq<string>)

  /** The dialog loop: an accepted name with a known extension ends it
      with that name and format; one with an unknown extension is refused
      and the dialog runs again; OK without a name aborts the callback;
      any other response cancels the export. */
  function RunDialog(responses: seq<Response>): (out: DialogOutcome)
    ensures |out.refused| <= |responses|
    ensures out.Open? <==> |out.refused| == |responses|
    decreases |responses|
  {
    if responses == [] then Open([])
    else if responses[0].Dismiss? then Cancelled([])
    else if responses[0].filename.None? then Aborted([])
    else
      var filename := responses[0].filename.value;
      var mime := MimeOf(Extension(filename));
      if mime.Some? then Chosen(filename, mime.value, [])
      else WithRefused(Extension(filename), RunDialog(responses[1..]))
  }

  /** The same outcome, one more refused extension in front. */
  function WithRefused(ext: string, out: DialogOutcome): (r: DialogOutcome)
    ensures r.refused == [ext] + out.refused
    ensures r.Chosen? == out.Chosen? && r.Cancelled? == out.Cancelled?
    ensures r.Aborted? == out.Aborted? && r.Open? == out.Open?
    ensures r.Chosen? ==> r.filename == out.filename && r.mime == out.mime
  {
    match out
    case Chosen(f, m, refused) => Chosen(f, m, [ext] + refused)
    case Cancelled(refused) => Cancelled([ext] + refused)
    case Aborted(refused) => Aborted([ext] + refused)
    case Open(refused) => Open([ext] + refused)
  }

  /** Every refusal is an accepted name whose extension is unsupported, in
      the order the names were given. */
  lemma {:induction false} RunDialogRefusals(responses: seq<Response>)
    ensures var out := RunDialog(responses);
            forall j :: 0 <= j < |out.refused| ==>
              responses[j].Accept? && responses[j].filename.Some?
              && out.refused[j] == Extension(responses[j].filename.value)
    ensures forall ext :: ext in RunDialog(responses).refused ==> MimeOf(ext).None?
    decreases |responses|
  {
    if responses != [] && responses[0].Accept? && responses[0].filename.Some?
       && MimeOf(Extension(responses[0].filename.value)).None? {
      var rest := RunDialog(responses[1..]);
      RunDialogRefusals(responses[1..]);
      var out := RunDialog(responses);
      forall j | 1 <= j < |out.refused|
        ensures responses[j].Accept? && responses[j].filename.Some?
                && out.refused[j] == Extension(responses[j].filename.value)
      {
        assert out.refused[j] == rest.refused[j - 1];
        assert responses[j] == responses[1..][j - 1];
      }
    }
  }

  /** The response after the refusals ends the loop: an export is chosen
      with an accepted name whose extension is supported, and its format;
      OK without a name aborts; a dismissal cancels. */
  lemma {:induction false} RunDialogStops(responses: seq<Response>)
    ensures var out := RunDialog(responses);
            out.Chosen? ==>
              |out.refused| < |responses| && responses[|out.refused|] == Accept(Some(out.filename))
              && MimeOf(Extension(out.filename)) == Some(out.mime)
    ensures var out := RunDialog(responses);
            out.Cancelled? ==> |out.refused| < |responses| && responses[|out.refused|] == Dismiss
    ensures var out := RunDialog(responses);
            out.Aborted? ==> |out.refused| < |responses| && responses[|out.refused|] == Accept(None)
    decreases |responses|
  {
    if responses != [] && responses[0].Accept? && responses[0].filename.Some?
       && MimeOf(Extension(responses[0].filename.value)).None? {
      RunDialogStops(responses[1..]);
      var rest := RunDialog(responses[1..]);
      if |rest.refused| < |responses[1..]| {
        assert responses[|rest.refused| + 1] == responses[1..][|rest.refused|];
      }
    }
  }

  datatype SurfaceKind = SvgSurface | PdfSurface

  /** How the image is written: a pixmap saved in a pixbuf format, or a
      cairo surface (`None` when no surface was created). */
  datatype Sink = Pixmap(format: string) | Surface(kind: Option<SurfaceKind>)

  function SurfaceFor(mime: string): Option<SurfaceKind>
  {
    if mime == "svg" then Some(SvgSurface)
    else if mime == "pdf" then Some(PdfSurface)
    else None
  }

  /** The dispatch as the window writes it: `mime in ['png', 'jpg']`. */
  function DispatchAsWritten(mime: string): (s: Sink)
    ensures s.Pixmap? <==> mime == "png" || mime == "jpg"
  {
    if mime == "png" || mime == "jpg" then Pixmap(mime) else Surface(SurfaceFor(mime))
  }

  /** No accepted extension maps to "jpg", so a .jpg or .jpeg export
      takes the surface branch, where no surface is created for "jpeg". */
  lemma JpegExportHasNoSurface(filename: string)
    requires Extension(filename) == "jpg" || Extension(filename) == "jpeg"
    ensures MimeOf(Extension(filename)) == Some("jpeg")
    ensures DispatchAsWritten(MimeOf(Extension(filename)).value) == Surface(None)
  {
    MimeTable(Extension(filename));
  }

  /** The dispatch with the pixbuf format names: `mime in ['png', 'jpeg']`. */
  function Dispatch(mime: string): (s: Sink)
    ensures s.Pixmap? <==> mime == "png" || mime == "jpeg"
    ensures mime != "jpeg" && mime != "jpg" ==> s == DispatchAsWritten(mime)
  {
    if mime == "png" || mime == "jpeg" then Pixmap(mime) else Surface(SurfaceFor(mime))
  }

  /** Every accepted extension gets a way to write the image: a pixmap in
      the format the extension names, or a surface of the matching kind. */
  lemma DispatchWritable(ext: string)
    requires MimeOf(ext).Some?
    ensures var s := Dispatch(MimeOf(ext).value);
            (s.Pixmap? && s.format == MimeOf(ext).value) || (s.Surface? && s.kind.Some?)
    ensures ext == "svg" ==> Dispatch(MimeOf(ext).value) == Surface(Some(SvgSurface))
    ensures ext == "pdf" ==> Dispatch(MimeOf(ext).value) == Surface(Some(PdfSurface))
  {
    MimeTable(ext);
  }

  /** The export as a whole: what the dialog yields and how it is written. */
  datatype ExportPlan = Write(filename: string, sink: Sink) | NoExport

  function ExportChoice(responses: seq<Response>): (p: ExportPlan)
    ensures p.Write? ==> Extension(p.filename) in {"png", "jpg", "jpeg", "svg", "pdf"}
    ensures p.Write? ==> p.sink.Pixmap? || p.sink.kind.Some?
    ensures p.Write? <==> RunDialog(responses).Chosen?
    ensures p.Write? ==> var out := RunDialog(responses);
                         p.filename == out.filename && (p.sink.Pixmap? <==> out.mime == "png" || out.mime == "jpeg")
    ensures p.Write? ==> p.sink == Dispatch(RunDialog(responses).mime)
    ensures p.Write? && p.sink.Pixmap? ==> p.sink.format == RunDialog(responses).mime
    ensures p.Write? && RunDialog(responses).mime == "svg" ==> p.sink == Surface(Some(SvgSurface))
    ensures p.Write? && RunDialog(responses).mime == "pdf" ==> p.sink == Surface(Some(PdfSurface))
  {
    RunDialogStops(responses);
    match RunDialog(responses)
    case Chosen(f, m, _) =>
      MimeTable(Extension(f));
      DispatchWritable(Extension(f));
      Write(f, Dispatch(m))
    case _ => NoExport
  }
}
