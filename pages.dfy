/**
 * add_print_page as a function of the builder's document: the calls it
 * makes, in order, the BrotherQLUnsupportedCmd refusals it ignores, and
 * the exceptions it lets through. Beside it, PageCommands states outright
 * which commands a page consists of, and the lemmas connect the two.
 */
module Pages {
  import opened Wrappers
  import opened Errors
  import opened Protocol
  import opened Devices
  import opened Bitmaps
  import opened Binarize
  import opened Preprocess
  import D = Document

  /** The keyword options of convert and queue_convert that reach the page loop. */
  datatype Options = Options(
    cut: bool, peeler: bool, dither: bool, compress: bool, red: bool,
    rotate: Geometry.Rotation, dpi600: bool, hq: bool, threshold: int)

  /** The defaults _rasterize_images falls back on. */
  const DefaultOptions := Options(true, false, false, false, false, Geometry.Auto, false, true, 70)

  /** b ran on a's document: the commands of both, b's document and outcome. */
  function Then(a: D.Effect, b: D.Effect): D.Effect
  {
    D.Effect(b.doc, a.emitted + b.emitted, b.status)
  }

  /** except BrotherQLUnsupportedCmd: pass. */
  function Swallow(e: D.Effect): D.Effect
  {
    if e.status == Raised(UnsupportedCmd) then e.(status := Done) else e
  }

  /** The buffer after e is the buffer of d followed by the bytes of what e emitted. */
  predicate Extends(d: D.Document, e: D.Effect)
  {
    e.doc.data == d.data + EncodeAll(e.emitted)
  }

  lemma Associative<T>(x: seq<T>, y: seq<T>, z: seq<T>)
    ensures (x + y) + z == x + (y + z)
  {
  }

  // ------------------------------------------------------------------
  // The stages of a page
  // ------------------------------------------------------------------

  /** The media type, width and length add_print_page assigns for a label kind. */
  function MediaFields(spec: LabelSpec): (int, int, int)
  {
    match spec.kind
    case DieCut => (0x0B, spec.tapeSize.0, spec.tapeSize.1)
    case RoundDieCut => (0x0B, spec.tapeSize.0, spec.tapeSize.1)
    case Endless => (0x0A, spec.tapeSize.0, 0)
    case PTouchEndless => (0x00, spec.tapeSize.0, 0)
  }

  /** The document once the media setters and pquality = int(hq) have run (MediaSetBySetters). */
  function MediaSet(d: D.Document, spec: LabelSpec, hq: bool): D.Document
  {
    var f := MediaFields(spec);
    d.(mtype := D.Value(f.0 % 256), mwidth := D.Value(f.1 % 256), mlength := D.Value(f.2 % 256), pquality := hq)
  }

  /** The assignments add_print_page makes to mtype, mwidth, mlength and pquality, in its order. */
  lemma MediaSetBySetters(d: D.Document, spec: LabelSpec, hq: bool)
    ensures var f := MediaFields(spec);
      MediaSet(d, spec, hq) == D.SetPrintQuality(D.SetMediaLength(D.SetMediaWidth(D.SetMediaType(d, f.0), f.1), f.2), if hq then 1 else 0)
  {
  }

  /** clear(), the switch-mode command (a refusal ignored), the status request of the first page, the media fields and the quality. */
  function PageHead(d: D.Document, m: Model, spec: LabelSpec, hq: bool, isFirst: bool): D.Effect
  {
    var cleared := D.Clear(d).doc;
    var switched := Swallow(D.AddSwitchMode(cleared, m));
    var status := if isFirst then D.AddStatusInformation(switched.doc) else D.Effect(switched.doc, [], Done);
    D.Effect(MediaSet(status.doc, spec, hq), switched.emitted + status.emitted, Done)
  }

  /** The first try block: the mode setting, and cut_every(1) after an autocut setting that did not raise. */
  function ModeBlock(d: D.Document, m: Model, autocut: bool, peeler: bool): D.Effect
  {
    var mode := D.AddModeSetting(d, m, autocut, peeler);
    if mode.status.Raised? || !autocut then mode else Then(mode, D.AddCutEvery(mode.doc, m, 1))
  }

  /** The fields the second try block assigns before add_expanded_mode. */
  function Settled(d: D.Document, dpi600: bool, red: bool): D.Document
  {
    d.(dpi600 := dpi600, cutAtEnd := true, twoColorPrinting := red)
  }

  /** Both try blocks, the wait and the margins. */
  function PageSettings(d: D.Document, m: Model, autocut: bool, peeler: bool, dpi600: bool, red: bool, feed: int): D.Effect
  {
    var mode := Swallow(ModeBlock(d, m, autocut, peeler));
    var expanded := Then(mode, Swallow(D.AddExpandedMode(Settled(mode.doc, dpi600, red), m)));
    var wait := Then(expanded, D.AddWait(expanded.doc, 0));
    Then(wait, D.AddMargins(wait.doc, feed))
  }

  /** add_compression(compress), called only when the model supports compression in ModelsManager. */
  function PageCompression(d: D.Document, m: Model, compress: bool): D.Effect
  {
    if m.compressionSupport then D.AddCompression(d, m, compress) else D.Effect(d, [], Done)
  }

  /** add_raster_data(black_im, red_im) in red mode, add_raster_data(im) otherwise. */
  function RasterStep(d: D.Document, m: Model, pack: seq<byte> -> seq<byte>, planes: Planes): D.Effect
    requires PlanesValid(planes) && m.bytesPerRow > 0
  {
    match planes
    case Mono(im) => D.AddRasterData(d, m, pack, im, None)
    case TwoColor(b, r) => D.AddRasterData(d, m, pack, b, Some(r))
  }

  /**
   * add_print_page. The red argument is the form of the planes, which
   * preprocess_image makes two-coloured exactly in red mode; tape_size and
   * feed_margin come from the label specification. Each later stage runs
   * only if the one before did not raise.
   */
  function PrintPage(d: D.Document, m: Model, pack: seq<byte> -> seq<byte>, planes: Planes, spec: LabelSpec,
                     o: Options, isLast: bool, isFirst: bool): D.Effect
    requires PlanesValid(planes) && m.bytesPerRow > 0
  {
    var head := PageHead(d, m, spec, o.hq, isFirst);
    AfterMedia(Then(head, D.AddMediaAndQuality(head.doc, PlanesSize(planes).h)), m, pack, planes, spec, o, isLast)
  }

  /** Both try blocks, the wait and the margins, then the rest of the page. */
  function AfterMedia(e: D.Effect, m: Model, pack: seq<byte> -> seq<byte>, planes: Planes, spec: LabelSpec, o: Options, isLast: bool): D.Effect
    requires PlanesValid(planes) && m.bytesPerRow > 0
  {
    if e.status.Raised? then e
    else
      var settings := PageSettings(e.doc, m, o.cut && isLast, o.peeler, o.dpi600, planes.TwoColor?, spec.feedMargin);
      AfterSettings(Then(e, settings), m, pack, planes, o.compress, isLast)
  }

  /** The compression setting, then the rest of the page. */
  function AfterSettings(e: D.Effect, m: Model, pack: seq<byte> -> seq<byte>, planes: Planes, compress: bool, isLast: bool): D.Effect
    requires PlanesValid(planes) && m.bytesPerRow > 0
  {
    if e.status.Raised? then e else AfterCompression(Then(e, PageCompression(e.doc, m, compress)), m, pack, planes, isLast)
  }

  /** The rows, then the closing command. */
  function AfterCompression(e: D.Effect, m: Model, pack: seq<byte> -> seq<byte>, planes: Planes, isLast: bool): D.Effect
    requires PlanesValid(planes) && m.bytesPerRow > 0
  {
    if e.status.Raised? then e else AfterRows(Then(e, RasterStep(e.doc, m, pack, planes)), isLast)
  }

  /** add_print(last_page). */
  function AfterRows(e: D.Effect, isLast: bool): D.Effect
  {
    if e.status.Raised? then e else Then(e, D.AddPrint(e.doc, isLast))
  }

  // ------------------------------------------------------------------
  // What a page consists of
  // ------------------------------------------------------------------

  function HeadCommands(m: Model, isFirst: bool): seq<Command>
  {
    SwitchCommands(m) + StatusCommands(isFirst)
  }

  /** ESC i z of a page: all three media fields valid, the kind's media bytes, the image height as row count. */
  function MediaCommand(pageNumber: int, spec: LabelSpec, hq: bool, height: nat): Command
  {
    var f := MediaFields(spec);
    MediaQuality(MediaFlags(true, true, true, hq), f.0 % 256, f.1 % 256, f.2 % 256, height, D.StartPageFlag(pageNumber))
  }

  function SettingsCommands(d: D.Document, m: Model, autocut: bool, peeler: bool, dpi600: bool, red: bool, feed: nat): seq<Command>
  {
    ModeCommands(m, autocut, peeler) + ExpandedCommands(d, m, dpi600, red) + [Wait(0), Margins(feed)]
  }

  function CompressionCommands(m: Model, compress: bool): seq<Command>
  {
    if m.compressionSupport && m.compression then [Compression(if compress then 2 else 0)] else []
  }

  /** compression_enabled while the rows are framed. */
  function PageCompressionEnabled(d: D.Document, m: Model, compress: bool): bool
  {
    if m.compressionSupport && m.compression then compress else d.compressionEnabled
  }

  /** The rows of a page, framed by the builder as the earlier stages leave it (only compression_enabled matters). */
  function PageRows(d: D.Document, m: Model, pack: seq<byte> -> seq<byte>, planes: Planes, spec: LabelSpec, o: Options): D.Effect
    requires PlanesValid(planes) && m.bytesPerRow > 0
  {
    RasterStep(PageDocument(d, m, spec, o, planes.TwoColor?), m, pack, planes)
  }

  /** The conditions under which add_print_page returns instead of raising. */
  predicate PageOk(d: D.Document, m: Model, pack: seq<byte> -> seq<byte>, planes: Planes, spec: LabelSpec, o: Options)
    requires PlanesValid(planes) && m.bytesPerRow > 0
  {
    && PlanesSize(planes).h < TwoTo32
    && 0 <= spec.feedMargin < TwoTo16
    && !(m.compressionSupport && !m.compression && d.exceptionOnWarning)
    && PageRows(d, m, pack, planes, spec, o).status == Done
  }

  /** The builder's fields once ESC i z has gone through: the media fields, the quality and the page number. */
  function PageStart(d: D.Document, spec: LabelSpec, hq: bool): D.Document
  {
    MediaSet(d, spec, hq).(pageNumber := if d.pageNumber == 0 then 1 else d.pageNumber)
  }

  /** The commands of a page up to and including ESC i z. */
  function StartCommands(d: D.Document, m: Model, spec: LabelSpec, hq: bool, isFirst: bool, height: nat): seq<Command>
  {
    HeadCommands(m, isFirst) + [MediaCommand(d.pageNumber, spec, hq, height)]
  }

  /** The builder's fields once the settings and the compression stage have run on b. */
  function Framed(b: D.Document, m: Model, o: Options, red: bool): D.Document
  {
    var s := Settled(b, o.dpi600, red);
    s.(compressionEnabled := PageCompressionEnabled(s, m, o.compress))
  }

  /** Every command of a successful page, in order. */
  function PageCommands(d: D.Document, m: Model, pack: seq<byte> -> seq<byte>, planes: Planes, spec: LabelSpec,
                        o: Options, isLast: bool, isFirst: bool): seq<Command>
    requires PlanesValid(planes) && m.bytesPerRow > 0 && 0 <= spec.feedMargin
  {
    PageCommandsOf(d, m, spec, o, isLast, isFirst, PlanesSize(planes).h, planes.TwoColor?, PageRows(d, m, pack, planes, spec, o).emitted)
  }

  /** The commands of a successful page of the given height whose rows are the commands rows. */
  function PageCommandsOf(d: D.Document, m: Model, spec: LabelSpec, o: Options, isLast: bool, isFirst: bool,
                          height: nat, red: bool, rows: seq<Command>): seq<Command>
    requires 0 <= spec.feedMargin
  {
    StartCommands(d, m, spec, o.hq, isFirst, height)
    + SettingsCommands(d, m, o.cut && isLast, o.peeler, o.dpi600, red, spec.feedMargin)
    + CompressionCommands(m, o.compress)
    + rows
    + [PrintCommand(isLast)]
  }

  /** The closing command: print on the last page, form feed between pages. */
  function PrintCommand(isLast: bool): Command
  {
    if isLast then Print else FormFeed
  }

  /** The fields of the builder after a successful page; the buffer holds the page alone. */
  function PageDocument(d: D.Document, m: Model, spec: LabelSpec, o: Options, red: bool): D.Document
  {
    Framed(PageStart(d, spec, o.hq), m, o, red)
  }

  /** How add_print_page returns: the first stage that raises decides. */
  function PageStatus(d: D.Document, m: Model, pack: seq<byte> -> seq<byte>, planes: Planes, spec: LabelSpec, o: Options): Status
    requires PlanesValid(planes) && m.bytesPerRow > 0
  {
    PageStatusOf(d, m, spec, PlanesSize(planes).h, PageRows(d, m, pack, planes, spec, o))
  }

  /** How a page of the given height returns whose rows come out as rows. */
  function PageStatusOf(d: D.Document, m: Model, spec: LabelSpec, height: nat, rows: D.Effect): Status
  {
    if height >= TwoTo32 then Raised(StructError)
    else if !(0 <= spec.feedMargin < TwoTo16) then Raised(StructError)
    else if m.compressionSupport && !m.compression && d.exceptionOnWarning then Raised(UnsupportedCmd)
    else rows.status
  }

  // ------------------------------------------------------------------
  // Each stage against its commands
  // ------------------------------------------------------------------

  /**
   * add_print_page against the page's commands. Whatever happens, the
   * buffer holds exactly the bytes of what the call appended after clear();
   * the call raises what the first failing stage raises; a page that
   * returns consists of PageCommands and leaves the builder's fields as
   * PageDocument says.
   */
  lemma PrintPageSpec(d: D.Document, m: Model, pack: seq<byte> -> seq<byte>, planes: Planes, spec: LabelSpec,
                      o: Options, isLast: bool, isFirst: bool)
    requires PlanesValid(planes) && m.bytesPerRow > 0
    ensures var r := PrintPage(d, m, pack, planes, spec, o, isLast, isFirst);
      r.doc.data == EncodeAll(r.emitted)
    ensures PrintPage(d, m, pack, planes, spec, o, isLast, isFirst).status == PageStatus(d, m, pack, planes, spec, o)
    ensures var r := PrintPage(d, m, pack, planes, spec, o, isLast, isFirst);
      PageOk(d, m, pack, planes, spec, o) ==>
        && r.emitted == PageCommands(d, m, pack, planes, spec, o, isLast, isFirst)
        && r.doc == PageDocument(d, m, spec, o, planes.TwoColor?).(data := r.doc.data)
  {
    PrintPageCases(d, m, pack, planes, spec, o, isLast, isFirst);
    if PlanesSize(planes).h < TwoTo32 && 0 <= spec.feedMargin < TwoTo16 {
      RowsOutcome(PageDocument(d, m, spec, o, planes.TwoColor?), m, pack, planes);
      ChainSpec(d, m, spec, o, planes.TwoColor?, isLast, isFirst, PlanesSize(planes).h, PageRows(d, m, pack, planes, spec, o));
    }
  }

  /** add_print_page either returns, after add_print, or raises. */
  lemma PrintPageOutcome(d: D.Document, m: Model, pack: seq<byte> -> seq<byte>, planes: Planes, spec: LabelSpec,
                         o: Options, isLast: bool, isFirst: bool)
    requires PlanesValid(planes) && m.bytesPerRow > 0
    ensures var s := PrintPage(d, m, pack, planes, spec, o, isLast, isFirst).status;
      s == Done || s.Raised?
  {
  }

  /** add_print_page starts with clear(): what the buffer held before the call makes no difference. */
  lemma PrintPageIgnoresData(a: D.Document, b: D.Document, m: Model, pack: seq<byte> -> seq<byte>, planes: Planes,
                             spec: LabelSpec, o: Options, isLast: bool, isFirst: bool)
    requires PlanesValid(planes) && m.bytesPerRow > 0 && a.(data := []) == b.(data := [])
    ensures PrintPage(a, m, pack, planes, spec, o, isLast, isFirst) == PrintPage(b, m, pack, planes, spec, o, isLast, isFirst)
  {
    assert PageHead(a, m, spec, o.hq, isFirst) == PageHead(b, m, spec, o.hq, isFirst);
  }

  /** add_print_page returns exactly under PageOk, and raises otherwise. */
  lemma PageStatusOk(d: D.Document, m: Model, pack: seq<byte> -> seq<byte>, planes: Planes, spec: LabelSpec, o: Options)
    requires PlanesValid(planes) && m.bytesPerRow > 0
    ensures PageStatus(d, m, pack, planes, spec, o) == Done <==> PageOk(d, m, pack, planes, spec, o)
    ensures PageStatus(d, m, pack, planes, spec, o) != Done ==> PageStatus(d, m, pack, planes, spec, o).Raised?
  {
    var e := PageDocument(d, m, spec, o, planes.TwoColor?);
    RasterStage(e, e, m, pack, planes);
  }

  /** A page whose row count and margin fit, from ESC i z on: its outcome and commands in terms of its specification. */
  lemma ChainSpec(d: D.Document, m: Model, spec: LabelSpec, o: Options, red: bool, isLast: bool, isFirst: bool,
                  height: nat, rows: D.Effect)
    requires height < TwoTo32 && 0 <= spec.feedMargin < TwoTo16 && (rows.status == Done || rows.status.Raised?)
    ensures var r := ChainOutcome(d, m, spec, o, red, isLast, isFirst, height, rows);
      && r.doc.data == EncodeAll(r.emitted)
      && r.status == PageStatusOf(d, m, spec, height, rows)
      && (r.status == Done ==>
            && r.emitted == PageCommandsOf(d, m, spec, o, isLast, isFirst, height, red, rows.emitted)
            && r.doc == PageDocument(d, m, spec, o, red).(data := r.doc.data))
  {
    var cs2 := StartCommands(d, m, spec, o.hq, isFirst, height) + SettingsCommands(d, m, o.cut && isLast, o.peeler, o.dpi600, red, spec.feedMargin);
    ChainClose(d, m, spec, o, red, isLast, isFirst, height, rows);
    CloseSpec(m.compressionSupport && !m.compression && d.exceptionOnWarning, Settled(PageStart(d, spec, o.hq), o.dpi600, red), cs2,
              PageDocument(d, m, spec, o, red), cs2 + CompressionCommands(m, o.compress), rows, isLast);
  }

  lemma ChainClose(d: D.Document, m: Model, spec: LabelSpec, o: Options, red: bool, isLast: bool, isFirst: bool,
                   height: nat, rows: D.Effect)
    requires 0 <= spec.feedMargin
    ensures var cs2 := StartCommands(d, m, spec, o.hq, isFirst, height) + SettingsCommands(d, m, o.cut && isLast, o.peeler, o.dpi600, red, spec.feedMargin);
      ChainOutcome(d, m, spec, o, red, isLast, isFirst, height, rows)
      == Close(m.compressionSupport && !m.compression && d.exceptionOnWarning, Settled(PageStart(d, spec, o.hq), o.dpi600, red), cs2,
               PageDocument(d, m, spec, o, red), cs2 + CompressionCommands(m, o.compress), rows, isLast)
  {
  }

  /** The page once ESC i z has gone through, for rows that come out as rows says. */
  function ChainOutcome(d: D.Document, m: Model, spec: LabelSpec, o: Options, red: bool, isLast: bool, isFirst: bool,
                        height: nat, rows: D.Effect): D.Effect
    requires 0 <= spec.feedMargin
  {
    var cs2 := StartCommands(d, m, spec, o.hq, isFirst, height) + SettingsCommands(d, m, o.cut && isLast, o.peeler, o.dpi600, red, spec.feedMargin);
    Close(m.compressionSupport && !m.compression && d.exceptionOnWarning, Settled(PageStart(d, spec, o.hq), o.dpi600, red), cs2,
          PageDocument(d, m, spec, o, red), cs2 + CompressionCommands(m, o.compress), rows, isLast)
  }

  /** The rest of a page from the builder b and the commands cs, when the margin fits. */
  function ChainFrom(b: D.Document, cs: seq<Command>, m: Model, spec: LabelSpec, o: Options, red: bool, isLast: bool, rows: D.Effect): D.Effect
    requires 0 <= spec.feedMargin
  {
    var cs2 := cs + SettingsCommands(b, m, o.cut && isLast, o.peeler, o.dpi600, red, spec.feedMargin);
    Close(m.compressionSupport && !m.compression && b.exceptionOnWarning, Settled(b, o.dpi600, red), cs2,
          Framed(b, m, o, red), cs2 + CompressionCommands(m, o.compress), rows, isLast)
  }

  /** From the builder ESC i z leaves, the rest of the page reads only fields the media stage leaves alone. */
  lemma ChainBridge(d: D.Document, m: Model, spec: LabelSpec, o: Options, red: bool, isLast: bool, isFirst: bool,
                    height: nat, rows: D.Effect)
    requires 0 <= spec.feedMargin
    ensures ChainFrom(PageStart(d, spec, o.hq), StartCommands(d, m, spec, o.hq, isFirst, height), m, spec, o, red, isLast, rows)
         == ChainOutcome(d, m, spec, o, red, isLast, isFirst, height, rows)
  {
    PageFields(d, m, spec, o, red);
    PageSettingsTerms(d, m, spec, o, o.cut && isLast, red, spec.feedMargin);
  }

  /** The end of a page: the compression refusal, else the rows, else the closing command. */
  function Close(refused: bool, b2: D.Document, cs2: seq<Command>, b3: D.Document, cs3: seq<Command>, rows: D.Effect, isLast: bool): D.Effect
  {
    if refused then Canon(b2, cs2, Raised(UnsupportedCmd))
    else if rows.status.Raised? then Canon(b3, cs3 + rows.emitted, rows.status)
    else Canon(b3, cs3 + rows.emitted + [PrintCommand(isLast)], Done)
  }

  lemma CloseSpec(refused: bool, b2: D.Document, cs2: seq<Command>, b3: D.Document, cs3: seq<Command>, rows: D.Effect, isLast: bool)
    requires rows.status == Done || rows.status.Raised?
    ensures var r := Close(refused, b2, cs2, b3, cs3, rows, isLast);
      && r.doc.data == EncodeAll(r.emitted)
      && r.status == (if refused then Raised(UnsupportedCmd) else rows.status)
      && (!refused && rows.status == Done ==> r.emitted == cs3 + rows.emitted + [PrintCommand(isLast)] && r.doc == b3.(data := r.doc.data))
  {
  }

  /** The settings commands read only fields the media stage leaves alone. */
  lemma PageSettingsTerms(d: D.Document, m: Model, spec: LabelSpec, o: Options, autocut: bool, red: bool, feed: nat)
    ensures SettingsCommands(PageStart(d, spec, o.hq), m, autocut, o.peeler, o.dpi600, red, feed)
         == SettingsCommands(d, m, autocut, o.peeler, o.dpi600, red, feed)
  {
    PageFields(d, m, spec, o, red);
    ExpandedSame(PageStart(d, spec, o.hq), d, m, o.dpi600, red);
  }

  /** add_print_page by the stage that decides its outcome. */
  lemma PrintPageCases(d: D.Document, m: Model, pack: seq<byte> -> seq<byte>, planes: Planes, spec: LabelSpec,
                       o: Options, isLast: bool, isFirst: bool)
    requires PlanesValid(planes) && m.bytesPerRow > 0
    ensures var r := PrintPage(d, m, pack, planes, spec, o, isLast, isFirst);
      !(PlanesSize(planes).h < TwoTo32 && 0 <= spec.feedMargin < TwoTo16) ==>
        r.doc.data == EncodeAll(r.emitted) && r.status == Raised(StructError)
    ensures PlanesSize(planes).h < TwoTo32 && 0 <= spec.feedMargin < TwoTo16 ==>
      (PrintPage(d, m, pack, planes, spec, o, isLast, isFirst)
       == ChainOutcome(d, m, spec, o, planes.TwoColor?, isLast, isFirst, PlanesSize(planes).h,
                       PageRows(d, m, pack, planes, spec, o)))
  {
    var h := PlanesSize(planes).h;
    var b := PageStart(d, spec, o.hq);
    var cs := StartCommands(d, m, spec, o.hq, isFirst, h);
    MediaPart(d, m, pack, planes, spec, o, isLast, isFirst);
    if h < TwoTo32 {
      if !(0 <= spec.feedMargin < TwoTo16) {
        SettingsFails(b, cs, Done, m, pack, planes, spec, o, isLast);
      } else {
        PageChain(b, cs, m, pack, planes, spec, o, isLast);
        ChainBridge(d, m, spec, o, planes.TwoColor?, isLast, isFirst, h, PageRows(d, m, pack, planes, spec, o));
      }
    }
  }

  /** What the fields of the builder are once the settings and the compression stage have run. */
  lemma PageFields(d: D.Document, m: Model, spec: LabelSpec, o: Options, red: bool)
    ensures var b := PageStart(d, spec, o.hq);
      && b.exceptionOnWarning == d.exceptionOnWarning && b.halfCut == d.halfCut && b.noChainPrinting == d.noChainPrinting
      && PageDocument(d, m, spec, o, red).compressionEnabled == PageCompressionEnabled(d, m, o.compress)
  {
    MediaSetFields(d, spec, o.hq);
  }

  /** The page after ESC i z when the margin fits: the compression refusal, the rows and the closing command decide. */
  lemma PageChain(b: D.Document, cs: seq<Command>, m: Model, pack: seq<byte> -> seq<byte>, planes: Planes,
                  spec: LabelSpec, o: Options, isLast: bool)
    requires PlanesValid(planes) && m.bytesPerRow > 0 && 0 <= spec.feedMargin < TwoTo16
    ensures AfterMedia(Canon(b, cs, Done), m, pack, planes, spec, o, isLast)
         == ChainFrom(b, cs, m, spec, o, planes.TwoColor?, isLast, RasterStep(Framed(b, m, o, planes.TwoColor?), m, pack, planes))
  {
    var b2 := Settled(b, o.dpi600, planes.TwoColor?);
    var cs2 := cs + SettingsCommands(b, m, o.cut && isLast, o.peeler, o.dpi600, planes.TwoColor?, spec.feedMargin);
    SettingsTail(b, cs, Done, m, pack, planes, spec, o, isLast);
    CompressionChain(b2, cs2, m, pack, planes, o.compress, isLast);
  }

  /** The compression setting on a buffer in step with its commands, then the rows and the closing command. */
  lemma CompressionChain(b: D.Document, cs: seq<Command>, m: Model, pack: seq<byte> -> seq<byte>, planes: Planes, compress: bool, isLast: bool)
    requires PlanesValid(planes) && m.bytesPerRow > 0
    ensures var b3 := b.(compressionEnabled := PageCompressionEnabled(b, m, compress));
      AfterSettings(Canon(b, cs, Done), m, pack, planes, compress, isLast)
      == Close(m.compressionSupport && !m.compression && b.exceptionOnWarning, b, cs,
               b3, cs + CompressionCommands(m, compress), RasterStep(b3, m, pack, planes), isLast)
  {
    var b3 := b.(compressionEnabled := PageCompressionEnabled(b, m, compress));
    var cs3 := cs + CompressionCommands(m, compress);
    var rows := RasterStep(b3, m, pack, planes);
    CompressionTail(b, cs, Done, m, pack, planes, compress, isLast);
    if !(m.compressionSupport && !m.compression && b.exceptionOnWarning) {
      RowsTail(b3, cs3, Done, m, pack, planes, isLast);
      CloseTail(b3, cs3 + rows.emitted, rows.status, isLast);
    }
  }

  /** The buffer after a stage holds the bytes of every command appended since clear(). */
  function Canon(b: D.Document, cs: seq<Command>, st: Status): D.Effect
  {
    D.Effect(b.(data := EncodeAll(cs)), cs, st)
  }

  /** The head and ESC i z: the row count alone decides whether the rest of the page runs. */
  lemma MediaPart(d: D.Document, m: Model, pack: seq<byte> -> seq<byte>, planes: Planes, spec: LabelSpec,
                  o: Options, isLast: bool, isFirst: bool)
    requires PlanesValid(planes) && m.bytesPerRow > 0
    ensures var r := PrintPage(d, m, pack, planes, spec, o, isLast, isFirst);
      PlanesSize(planes).h >= TwoTo32 ==> r.doc.data == EncodeAll(r.emitted) && r.status == Raised(StructError)
    ensures PlanesSize(planes).h < TwoTo32 ==>
      (PrintPage(d, m, pack, planes, spec, o, isLast, isFirst)
       == AfterMedia(Canon(PageStart(d, spec, o.hq), StartCommands(d, m, spec, o.hq, isFirst, PlanesSize(planes).h), Done),
                     m, pack, planes, spec, o, isLast))
  {
    var head := PageHead(d, m, spec, o.hq, isFirst);
    var mq := D.AddMediaAndQuality(head.doc, PlanesSize(planes).h);
    assert PrintPage(d, m, pack, planes, spec, o, isLast, isFirst) == AfterMedia(Then(head, mq), m, pack, planes, spec, o, isLast);
    MediaResult(d, m, spec, o.hq, isFirst, PlanesSize(planes).h);
  }

  lemma MediaResult(d: D.Document, m: Model, spec: LabelSpec, hq: bool, isFirst: bool, h: nat)
    ensures var head := PageHead(d, m, spec, hq, isFirst); var r := Then(head, D.AddMediaAndQuality(head.doc, h));
      h >= TwoTo32 ==> r.doc.data == EncodeAll(r.emitted) && r.status == Raised(StructError)
    ensures var head := PageHead(d, m, spec, hq, isFirst); var r := Then(head, D.AddMediaAndQuality(head.doc, h));
      h < TwoTo32 ==>
        r == Canon(PageStart(d, spec, hq), StartCommands(d, m, spec, hq, isFirst, h), Done)
  {
    var hc := HeadCommands(m, isFirst);
    var head := PageHead(d, m, spec, hq, isFirst);
    var mq := D.AddMediaAndQuality(head.doc, h);
    HeadStage(d, m, spec, hq, isFirst);
    MediaSetData(d, EncodeAll(hc), spec, hq);
    MediaStage(d.(data := EncodeAll(hc)), spec, hq, h);
    EncodeAllAppend(hc, mq.emitted);
  }

  /** The settings stage on a buffer in step with its commands: a margin outside a u16 raises struct.error. */
  lemma SettingsFails(b: D.Document, cs: seq<Command>, st: Status, m: Model, pack: seq<byte> -> seq<byte>, planes: Planes,
                      spec: LabelSpec, o: Options, isLast: bool)
    requires PlanesValid(planes) && m.bytesPerRow > 0 && !st.Raised? && !(0 <= spec.feedMargin < TwoTo16)
    ensures var r := AfterMedia(Canon(b, cs, st), m, pack, planes, spec, o, isLast);
      r.doc.data == EncodeAll(r.emitted) && r.status == Raised(StructError)
  {
    var e := Canon(b, cs, st);
    var ps := PageSettings(e.doc, m, o.cut && isLast, o.peeler, o.dpi600, planes.TwoColor?, spec.feedMargin);
    assert AfterMedia(e, m, pack, planes, spec, o, isLast) == Then(e, ps);
    SettingsStage(e.doc, m, o.cut && isLast, o.peeler, o.dpi600, planes.TwoColor?, spec.feedMargin);
    EncodeAllAppend(cs, ps.emitted);
  }

  /** The settings stage on a buffer in step with its commands: the mode, expanded-mode, wait and margin commands. */
  lemma SettingsTail(b: D.Document, cs: seq<Command>, st: Status, m: Model, pack: seq<byte> -> seq<byte>, planes: Planes,
                     spec: LabelSpec, o: Options, isLast: bool)
    requires PlanesValid(planes) && m.bytesPerRow > 0 && !st.Raised? && 0 <= spec.feedMargin < TwoTo16
    ensures AfterMedia(Canon(b, cs, st), m, pack, planes, spec, o, isLast)
         == AfterSettings(Canon(Settled(b, o.dpi600, planes.TwoColor?),
                                cs + SettingsCommands(b, m, o.cut && isLast, o.peeler, o.dpi600, planes.TwoColor?, spec.feedMargin), Done),
                          m, pack, planes, o.compress, isLast)
  {
    var e := Canon(b, cs, st);
    var autocut, red := o.cut && isLast, planes.TwoColor?;
    var ps := PageSettings(e.doc, m, autocut, o.peeler, o.dpi600, red, spec.feedMargin);
    assert AfterMedia(e, m, pack, planes, spec, o, isLast) == AfterSettings(Then(e, ps), m, pack, planes, o.compress, isLast);
    SettingsResult(b, cs, st, m, autocut, o.peeler, o.dpi600, red, spec.feedMargin);
  }

  lemma SettingsResult(b: D.Document, cs: seq<Command>, st: Status, m: Model, autocut: bool, peeler: bool, dpi600: bool, red: bool, feed: int)
    requires 0 <= feed < TwoTo16
    ensures Then(Canon(b, cs, st), PageSettings(Canon(b, cs, st).doc, m, autocut, peeler, dpi600, red, feed))
         == Canon(Settled(b, dpi600, red), cs + SettingsCommands(b, m, autocut, peeler, dpi600, red, feed), Done)
  {
    var e := Canon(b, cs, st);
    var ps := PageSettings(e.doc, m, autocut, peeler, dpi600, red, feed);
    SettingsStage(e.doc, m, autocut, peeler, dpi600, red, feed);
    ExpandedSame(e.doc, b, m, dpi600, red);
    EncodeAllAppend(cs, ps.emitted);
  }

  /** The compression stage: a refusal raises only under exception_on_warning. */
  lemma CompressionTail(b: D.Document, cs: seq<Command>, st: Status, m: Model, pack: seq<byte> -> seq<byte>, planes: Planes,
                        compress: bool, isLast: bool)
    requires PlanesValid(planes) && m.bytesPerRow > 0 && !st.Raised?
    ensures m.compressionSupport && !m.compression && b.exceptionOnWarning ==>
      AfterSettings(Canon(b, cs, st), m, pack, planes, compress, isLast) == Canon(b, cs, Raised(UnsupportedCmd))
    ensures !(m.compressionSupport && !m.compression && b.exceptionOnWarning) ==>
      (AfterSettings(Canon(b, cs, st), m, pack, planes, compress, isLast)
       == AfterCompression(Canon(b.(compressionEnabled := PageCompressionEnabled(b, m, compress)), cs + CompressionCommands(m, compress), Done),
                           m, pack, planes, isLast))
  {
    var e := Canon(b, cs, st);
    var pc := PageCompression(e.doc, m, compress);
    assert AfterSettings(e, m, pack, planes, compress, isLast)
        == if pc.status.Raised? then Then(e, pc) else AfterCompression(Then(e, pc), m, pack, planes, isLast);
    CompressionResult(b, cs, st, m, compress);
    if !pc.status.Raised? {
      var b3 := b.(compressionEnabled := PageCompressionEnabled(b, m, compress));
      var cs3 := cs + CompressionCommands(m, compress);
      assert AfterCompression(Canon(b3, cs3, pc.status), m, pack, planes, isLast)
          == AfterRows(Then(Canon(b3, cs3, pc.status), RasterStep(b3.(data := EncodeAll(cs3)), m, pack, planes)), isLast);
    }
  }

  lemma CompressionResult(b: D.Document, cs: seq<Command>, st: Status, m: Model, compress: bool)
    ensures var pc := PageCompression(Canon(b, cs, st).doc, m, compress);
      pc.status.Raised? <==> m.compressionSupport && !m.compression && b.exceptionOnWarning
    ensures var pc := PageCompression(Canon(b, cs, st).doc, m, compress);
      pc.status.Raised? ==> Then(Canon(b, cs, st), pc) == Canon(b, cs, Raised(UnsupportedCmd))
    ensures var pc := PageCompression(Canon(b, cs, st).doc, m, compress);
      !pc.status.Raised? ==>
        (Then(Canon(b, cs, st), pc)
         == Canon(b.(compressionEnabled := PageCompressionEnabled(b, m, compress)), cs + CompressionCommands(m, compress), pc.status))
  {
    var e := Canon(b, cs, st);
    var pc := PageCompression(e.doc, m, compress);
    CompressionStage(e.doc, m, compress);
    EncodeAllAppend(cs, pc.emitted);
    EncodeAll0();
  }

  /** The rows: appended whole, or nothing appended and the error raised. */
  lemma RowsTail(b: D.Document, cs: seq<Command>, st: Status, m: Model, pack: seq<byte> -> seq<byte>, planes: Planes, isLast: bool)
    requires PlanesValid(planes) && m.bytesPerRow > 0 && !st.Raised?
    ensures var rows := RasterStep(b, m, pack, planes);
      AfterCompression(Canon(b, cs, st), m, pack, planes, isLast) == AfterRows(Canon(b, cs + rows.emitted, rows.status), isLast)
  {
    var e := Canon(b, cs, st);
    var rs := RasterStep(e.doc, m, pack, planes);
    assert AfterCompression(e, m, pack, planes, isLast) == AfterRows(Then(e, rs), isLast);
    RasterStage(e.doc, b, m, pack, planes);
    EncodeAllAppend(cs, rs.emitted);
  }

  lemma CloseTail(b: D.Document, cs: seq<Command>, st: Status, isLast: bool)
    ensures AfterRows(Canon(b, cs, st), isLast) == if st.Raised? then Canon(b, cs, st) else Canon(b, cs + [PrintCommand(isLast)], Done)
  {
    EncodeAllAppend(cs, [PrintCommand(isLast)]);
    EncodeAllOne(PrintCommand(isLast));
  }

  lemma HeadStage(d: D.Document, m: Model, spec: LabelSpec, hq: bool, isFirst: bool)
    ensures PageHead(d, m, spec, hq, isFirst)
         == D.Effect(MediaSet(d, spec, hq).(data := EncodeAll(HeadCommands(m, isFirst))), HeadCommands(m, isFirst), Done)
  {
    var cleared := D.Clear(d).doc;
    var switched := Swallow(D.AddSwitchMode(cleared, m));
    var status := if isFirst then D.AddStatusInformation(switched.doc) else D.Effect(switched.doc, [], Done);
    assert PageHead(d, m, spec, hq, isFirst) == D.Effect(MediaSet(status.doc, spec, hq), switched.emitted + status.emitted, Done);
    SwitchStep(cleared, m);
    StatusStep(switched.doc, isFirst);
    HeadCompose(d, switched, status, spec, hq, SwitchCommands(m), StatusCommands(isFirst));
  }

  lemma HeadCompose(d: D.Document, sw: D.Effect, st: D.Effect, spec: LabelSpec, hq: bool, c1: seq<Command>, c2: seq<Command>)
    requires sw.emitted == c1 && sw.doc == d.(data := EncodeAll(c1))
    requires st.emitted == c2 && st.doc == sw.doc.(data := sw.doc.data + EncodeAll(c2))
    ensures D.Effect(MediaSet(st.doc, spec, hq), sw.emitted + st.emitted, Done)
         == D.Effect(MediaSet(d, spec, hq).(data := EncodeAll(c1 + c2)), c1 + c2, Done)
  {
    EncodeAllAppend(c1, c2);
    assert st.doc == d.(data := EncodeAll(c1 + c2));
    MediaSetData(d, EncodeAll(c1 + c2), spec, hq);
  }

  function SwitchCommands(m: Model): seq<Command>
  {
    if m.switchMode then [SwitchMode] else []
  }

  lemma SwitchStep(c: D.Document, m: Model)
    requires c.data == []
    ensures Swallow(D.AddSwitchMode(c, m)).emitted == SwitchCommands(m)
    ensures Swallow(D.AddSwitchMode(c, m)).doc == c.(data := EncodeAll(SwitchCommands(m)))
  {
    EncodeAllOne(SwitchMode);
  }

  function StatusCommands(isFirst: bool): seq<Command>
  {
    if isFirst then [StatusRequest] else []
  }

  lemma StatusStep(c: D.Document, isFirst: bool)
    ensures (if isFirst then D.AddStatusInformation(c) else D.Effect(c, [], Done)).emitted == StatusCommands(isFirst)
    ensures (if isFirst then D.AddStatusInformation(c) else D.Effect(c, [], Done)).doc
         == c.(data := c.data + EncodeAll(StatusCommands(isFirst)))
  {
    EncodeAllOne(StatusRequest);
  }

  /** The media setters touch no buffer. */
  lemma MediaSetData(d: D.Document, data: seq<byte>, spec: LabelSpec, hq: bool)
    ensures MediaSet(d.(data := data), spec, hq) == MediaSet(d, spec, hq).(data := data)
  {
  }

  /** ESC i z after the page's media setters: it cannot meet an unset field; only the row count can make it raise. */
  lemma MediaStage(b: D.Document, spec: LabelSpec, hq: bool, height: nat)
    ensures var e := MediaSet(b, spec, hq); var r := D.AddMediaAndQuality(e, height);
      Extends(e, r) && (r.status == if height < TwoTo32 then Done else Raised(StructError))
    ensures var e := MediaSet(b, spec, hq); var r := D.AddMediaAndQuality(e, height);
      height < TwoTo32 ==>
        && r.emitted == [MediaCommand(b.pageNumber, spec, hq, height)]
        && r.doc == e.(data := r.doc.data, pageNumber := if b.pageNumber == 0 then 1 else b.pageNumber)
  {
    var e := MediaSet(b, spec, hq);
    var f := MediaFields(spec);
    MediaSetFields(b, spec, hq);
    MediaStep(e, f.0 % 256, f.1 % 256, f.2 % 256, height);
    assert MediaCommand(b.pageNumber, spec, hq, height)
        == MediaQuality(MediaFlags(true, true, true, e.pquality), f.0 % 256, f.1 % 256, f.2 % 256, height, D.StartPageFlag(e.pageNumber));
  }

  lemma MediaSetFields(b: D.Document, spec: LabelSpec, hq: bool)
    ensures var f := MediaFields(spec);
      MediaSet(b, spec, hq) == b.(mtype := D.Value(f.0 % 256), mwidth := D.Value(f.1 % 256), mlength := D.Value(f.2 % 256), pquality := hq)
  {
  }

  /** ESC i z on a document whose three media fields hold bytes. */
  lemma MediaStep(e: D.Document, t: byte, w: byte, l: byte, height: nat)
    requires e.mtype == D.Value(t) && e.mwidth == D.Value(w) && e.mlength == D.Value(l)
    ensures var r := D.AddMediaAndQuality(e, height);
      Extends(e, r) && (r.status == if height < TwoTo32 then Done else Raised(StructError))
    ensures var r := D.AddMediaAndQuality(e, height);
      height < TwoTo32 ==>
        && r.emitted == [MediaQuality(MediaFlags(true, true, true, e.pquality), t, w, l, height, D.StartPageFlag(e.pageNumber))]
        && r.doc == e.(data := r.doc.data, pageNumber := if e.pageNumber == 0 then 1 else e.pageNumber)
  {
    var r := D.AddMediaAndQuality(e, height);
    if height < TwoTo32 {
      assert r == D.Emit(e.(pageNumber := if e.pageNumber == 0 then 1 else e.pageNumber),
                         [MediaQuality(MediaFlags(true, true, true, e.pquality), t, w, l, height, D.StartPageFlag(e.pageNumber))]);
    } else {
      assert r == D.EmitThenRaise(e, D.MediaHeader(e), StructError);
      TruncatedOne(D.MediaHeader(e));
    }
  }

  /** The mode-setting block appends the mode setting when the model cuts, then cut_every(1) under autocut except on P-touch models. */
  function ModeCommands(m: Model, autocut: bool, peeler: bool): seq<Command>
  {
    if m.cutting then [ModeSetting(ModeFlags(autocut, peeler))] + (if autocut && !m.isPTouch then [CutEvery(1)] else []) else []
  }

  lemma ModeStage(d: D.Document, m: Model, autocut: bool, peeler: bool)
    ensures var r := Swallow(ModeBlock(d, m, autocut, peeler));
      !r.status.Raised?
    ensures var r := Swallow(ModeBlock(d, m, autocut, peeler));
      r.emitted == ModeCommands(m, autocut, peeler)
    ensures var r := Swallow(ModeBlock(d, m, autocut, peeler));
      r.doc == d.(data := d.data + EncodeAll(r.emitted))
  {
    var mode := D.AddModeSetting(d, m, autocut, peeler);
    EncodeAllOne(ModeSetting(ModeFlags(autocut, peeler)));
    EncodeAllOne(CutEvery(1));
    if m.cutting && autocut {
      var cut := D.AddCutEvery(mode.doc, m, 1);
      EncodeAllAppend(mode.emitted, cut.emitted);
      Associative(d.data, EncodeAll(mode.emitted), EncodeAll(cut.emitted));
    }
  }

  function ExpandedCommands(d: D.Document, m: Model, dpi600: bool, red: bool): seq<Command>
  {
    if m.expanded && (red ==> m.twoColor) then [ExpandedMode(D.ExpandedFlags(Settled(d, dpi600, red), m))] else []
  }

  lemma ExpandedStage(d: D.Document, m: Model, dpi600: bool, red: bool)
    ensures var r := Swallow(D.AddExpandedMode(Settled(d, dpi600, red), m));
      !r.status.Raised?
    ensures var r := Swallow(D.AddExpandedMode(Settled(d, dpi600, red), m));
      r.emitted == ExpandedCommands(d, m, dpi600, red)
    ensures var r := Swallow(D.AddExpandedMode(Settled(d, dpi600, red), m));
      r.doc == Settled(d, dpi600, red).(data := d.data + EncodeAll(r.emitted))
  {
    EncodeAllOne(ExpandedMode(D.ExpandedFlags(Settled(d, dpi600, red), m)));
  }

  lemma SettingsStage(d: D.Document, m: Model, autocut: bool, peeler: bool, dpi600: bool, red: bool, feed: int)
    ensures Extends(d, PageSettings(d, m, autocut, peeler, dpi600, red, feed))
    ensures var r := PageSettings(d, m, autocut, peeler, dpi600, red, feed);
      r.doc == Settled(d, dpi600, red).(data := r.doc.data)
    ensures PageSettings(d, m, autocut, peeler, dpi600, red, feed).status
         == (if 0 <= feed < TwoTo16 then Done else Raised(StructError))
    ensures 0 <= feed < TwoTo16 ==>
      PageSettings(d, m, autocut, peeler, dpi600, red, feed).emitted == SettingsCommands(d, m, autocut, peeler, dpi600, red, feed)
  {
    var mode := Swallow(ModeBlock(d, m, autocut, peeler));
    var ex := Swallow(D.AddExpandedMode(Settled(mode.doc, dpi600, red), m));
    var expanded := Then(mode, ex);
    var w := D.AddWait(expanded.doc, 0);
    var wait := Then(expanded, w);
    var g := D.AddMargins(wait.doc, feed);
    assert PageSettings(d, m, autocut, peeler, dpi600, red, feed) == Then(wait, g);
    ModeStage(d, m, autocut, peeler);
    ExpandedStage(mode.doc, m, dpi600, red);
    ExpandedSame(mode.doc, d, m, dpi600, red);
    WaitStep(expanded.doc);
    MarginsStep(wait.doc, feed);
    var c1, c2 := ModeCommands(m, autocut, peeler), ExpandedCommands(d, m, dpi600, red);
    SettingsCompose(d, mode, ex, w, g, dpi600, red, c1, c2, MarginsCommand(feed));
    if 0 <= feed < TwoTo16 {
      Associative(c1 + c2, [Wait(0)], [Margins(feed)]);
      assert [Wait(0)] + [Margins(feed)] == [Wait(0), Margins(feed)];
    }
  }

  /** The expanded-mode flags read no buffer. */
  lemma ExpandedSame(c: D.Document, d: D.Document, m: Model, dpi600: bool, red: bool)
    requires c.halfCut == d.halfCut && c.noChainPrinting == d.noChainPrinting
    ensures ExpandedCommands(c, m, dpi600, red) == ExpandedCommands(d, m, dpi600, red)
  {
  }

  lemma WaitStep(c: D.Document)
    ensures D.AddWait(c, 0) == D.Emit(c, [Wait(0)])
  {
  }

  /** The command add_margins leaves in the buffer: the whole of ESC i d, or its header before struct.error. */
  function MarginsCommand(feed: int): Command
  {
    if 0 <= feed < TwoTo16 then Margins(feed) else Truncated([0x1B, 0x69, 0x64])
  }

  lemma MarginsStep(c: D.Document, feed: int)
    ensures D.AddMargins(c, feed).emitted == [MarginsCommand(feed)]
    ensures D.AddMargins(c, feed).doc == c.(data := c.data + EncodeAll([MarginsCommand(feed)]))
    ensures D.AddMargins(c, feed).status == (if 0 <= feed < TwoTo16 then Done else Raised(StructError))
  {
    TruncatedOne([0x1B, 0x69, 0x64]);
  }

  lemma SettingsCompose(d: D.Document, mode: D.Effect, ex: D.Effect, w: D.Effect, g: D.Effect,
                        dpi600: bool, red: bool, c1: seq<Command>, c2: seq<Command>, gc: Command)
    requires mode.emitted == c1 && mode.doc == d.(data := d.data + EncodeAll(c1))
    requires ex.emitted == c2 && ex.doc == Settled(mode.doc, dpi600, red).(data := mode.doc.data + EncodeAll(c2))
    requires w == D.Emit(ex.doc, [Wait(0)])
    requires g.emitted == [gc] && g.doc == w.doc.(data := w.doc.data + EncodeAll([gc]))
    ensures Then(Then(Then(mode, ex), w), g).emitted == c1 + c2 + [Wait(0)] + [gc]
    ensures Then(Then(Then(mode, ex), w), g).doc
         == Settled(d, dpi600, red).(data := d.data + EncodeAll(c1 + c2 + [Wait(0)] + [gc]))
  {
    EncodeAllAppend(c1, c2);
    EncodeAllAppend(c1 + c2, [Wait(0)]);
    EncodeAllAppend(c1 + c2 + [Wait(0)], [gc]);
    Associative(d.data, EncodeAll(c1), EncodeAll(c2));
    Associative(d.data, EncodeAll(c1 + c2), EncodeAll([Wait(0)]));
    Associative(d.data, EncodeAll(c1 + c2 + [Wait(0)]), EncodeAll([gc]));
  }

  lemma CompressionStage(d: D.Document, m: Model, compress: bool)
    ensures Extends(d, PageCompression(d, m, compress))
    ensures PageCompression(d, m, compress).status.Raised? <==> m.compressionSupport && !m.compression && d.exceptionOnWarning
    ensures PageCompression(d, m, compress).status.Raised? ==> PageCompression(d, m, compress).status == Raised(UnsupportedCmd)
    ensures !PageCompression(d, m, compress).status.Raised? ==> PageCompression(d, m, compress).emitted == CompressionCommands(m, compress)
    ensures var r := PageCompression(d, m, compress);
      !r.status.Raised? ==> r.doc == d.(data := r.doc.data, compressionEnabled := PageCompressionEnabled(d, m, compress))
  {
    var r := PageCompression(d, m, compress);
    if !(m.compressionSupport && m.compression) {
      EncodeAll0();
      assert r.doc == d && r.emitted == [];
    } else {
      var c := Compression(if compress then 2 else 0);
      EncodeAllOne(c);
      assert r == D.Emit(d.(compressionEnabled := compress), [c]);
      assert r.doc.data == d.data + EncodeAll(r.emitted);
    }
  }

  /** The rows depend on the document only through compression_enabled, and leave every field but the buffer alone. */
  lemma RasterStage(d: D.Document, e: D.Document, m: Model, pack: seq<byte> -> seq<byte>, planes: Planes)
    requires PlanesValid(planes) && m.bytesPerRow > 0
    requires e.compressionEnabled == d.compressionEnabled
    ensures var r := RasterStep(d, m, pack, planes);
      Extends(d, r)
    ensures var r := RasterStep(d, m, pack, planes);
      r.doc == d.(data := r.doc.data)
    ensures var r := RasterStep(d, m, pack, planes);
      (r.status == Done || r.status.Raised?)
    ensures var r := RasterStep(d, m, pack, planes);
      r.status == RasterStep(e, m, pack, planes).status
    ensures var r := RasterStep(d, m, pack, planes);
      r.emitted == RasterStep(e, m, pack, planes).emitted
    ensures var r := RasterStep(d, m, pack, planes);
      r.status.Raised? ==> r.emitted == [] && r.doc == d
  {
    match planes
    case Mono(im) => RasterSame(d, e, m, pack, im, None);
    case TwoColor(b, r) => RasterSame(d, e, m, pack, b, Some(r));
  }

  /** The rows return or raise; nothing else can happen. */
  lemma RowsOutcome(d: D.Document, m: Model, pack: seq<byte> -> seq<byte>, planes: Planes)
    requires PlanesValid(planes) && m.bytesPerRow > 0
    ensures RasterStep(d, m, pack, planes).status == Done || RasterStep(d, m, pack, planes).status.Raised?
  {
    RasterStage(d, d, m, pack, planes);
  }

  lemma RasterSame(d: D.Document, e: D.Document, m: Model, pack: seq<byte> -> seq<byte>, first: Bitmap, second: Option<Bitmap>)
    requires Valid(first) && (second.Some? ==> Valid(second.value)) && m.bytesPerRow > 0
    requires e.compressionEnabled == d.compressionEnabled
    ensures D.AddRasterData(d, m, pack, first, second).status == D.AddRasterData(e, m, pack, first, second).status
    ensures D.AddRasterData(d, m, pack, first, second).emitted == D.AddRasterData(e, m, pack, first, second).emitted
    ensures Extends(d, D.AddRasterData(d, m, pack, first, second))
  {
    if D.RasterCheck(m, first, second) == Done {
      assert D.RasterRecords(d, m, pack, first, second) == D.RasterRecords(e, m, pack, first, second);
    }
    EncodeAll0();
  }

  /** The bytes of a command cut short are the bytes appended. */
  lemma TruncatedOne(b: seq<byte>)
    ensures EncodeAll([Truncated(b)]) == b
  {
    EncodeAllOne(Truncated(b));
  }

  lemma EncodeAll0()
    ensures EncodeAll([]) == []
  {
  }
}
