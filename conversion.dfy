/**
 * add_print_page, _rasterize_images, convert and queue_convert as methods
 * driving a BrotherQLRaster builder in place. Each is proved to leave the
 * builder in the state, and to return the value, that the functions of
 * modules Pages and Jobs describe; the properties of those functions are
 * proved there.
 */
module Conversion {
  import opened Wrappers
  import opened Errors
  import opened Protocol
  import opened Devices
  import opened Binarize
  import opened Preprocess
  import opened Pages
  import opened Jobs
  import D = Document
  import R = Raster

  /** clear(), switch mode (a refusal ignored), the status request on the first page, then the media fields and the quality. */
  method AddPageHead(qlr: R.BrotherQLRaster, spec: LabelSpec, hq: bool, isFirst: bool)
    modifies qlr
    ensures qlr.Doc() == PageHead(old(qlr.Doc()), qlr.model, spec, hq, isFirst).doc
  {
    qlr.Clear();
    var ignored := qlr.AddSwitchMode();
    if isFirst {
      qlr.AddStatusInformation();
    }
    var f := MediaFields(spec);
    MediaSetBySetters(qlr.Doc(), spec, hq);
    qlr.SetMtype(f.0);
    qlr.SetMwidth(f.1);
    qlr.SetMlength(f.2);
    qlr.SetPquality(if hq then 1 else 0);
  }

  /** The first try block: the mode setting, and cut_every(1) after an autocut setting that did not raise. */
  method AddModeBlock(qlr: R.BrotherQLRaster, autocut: bool, peeler: bool) returns (status: Status)
    modifies qlr
    ensures qlr.Doc() == ModeBlock(old(qlr.Doc()), qlr.model, autocut, peeler).doc
    ensures status == ModeBlock(old(qlr.Doc()), qlr.model, autocut, peeler).status
  {
    status := qlr.AddModeSetting(autocut, peeler);
    if !status.Raised? && autocut {
      status := qlr.AddCutEvery(1);
    }
  }

  /** The second try block: dpi_600, cut_at_end and two_color_printing, then the expanded mode. */
  method AddExpandedBlock(qlr: R.BrotherQLRaster, dpi600: bool, red: bool) returns (status: Status)
    modifies qlr
    ensures qlr.Doc() == D.AddExpandedMode(Settled(old(qlr.Doc()), dpi600, red), qlr.model).doc
    ensures status == D.AddExpandedMode(Settled(old(qlr.Doc()), dpi600, red), qlr.model).status
  {
    qlr.dpi600 := dpi600;
    qlr.cutAtEnd := true;
    qlr.twoColorPrinting := red;
    status := qlr.AddExpandedMode();
  }

  /** The two try blocks that swallow BrotherQLUnsupportedCmd, then add_wait(0) and add_margins(feed_margin). */
  method AddPageSettings(qlr: R.BrotherQLRaster, autocut: bool, peeler: bool, dpi600: bool, red: bool, feed: int)
    returns (status: Status)
    modifies qlr
    ensures qlr.Doc() == PageSettings(old(qlr.Doc()), qlr.model, autocut, peeler, dpi600, red, feed).doc
    ensures status == PageSettings(old(qlr.Doc()), qlr.model, autocut, peeler, dpi600, red, feed).status
  {
    ghost var mode := Swallow(ModeBlock(qlr.Doc(), qlr.model, autocut, peeler));
    var ignored := AddModeBlock(qlr, autocut, peeler);
    assert qlr.Doc() == mode.doc;
    ghost var expanded := Then(mode, Swallow(D.AddExpandedMode(Settled(mode.doc, dpi600, red), qlr.model)));
    ignored := AddExpandedBlock(qlr, dpi600, red);
    assert qlr.Doc() == expanded.doc;
    ghost var wait := Then(expanded, D.AddWait(expanded.doc, 0));
    ignored := qlr.AddWait(0);
    assert qlr.Doc() == wait.doc;
    status := qlr.AddMargins(feed);
  }

  /** add_compression(compress) when the model supports compression. */
  method AddPageCompression(qlr: R.BrotherQLRaster, compress: bool) returns (status: Status)
    modifies qlr
    ensures qlr.Doc() == PageCompression(old(qlr.Doc()), qlr.model, compress).doc
    ensures status == PageCompression(old(qlr.Doc()), qlr.model, compress).status
  {
    status := Done;
    if qlr.model.compressionSupport {
      status := qlr.AddCompression(compress);
    }
  }

  /** add_raster_data with the black and red planes in red mode, with the single image otherwise. */
  method AddPageRows(qlr: R.BrotherQLRaster, planes: Planes) returns (status: Status)
    requires PlanesValid(planes) && qlr.model.bytesPerRow > 0
    modifies qlr
    ensures qlr.Doc() == RasterStep(old(qlr.Doc()), qlr.model, qlr.packbits, planes).doc
    ensures status == RasterStep(old(qlr.Doc()), qlr.model, qlr.packbits, planes).status
  {
    match planes
    case Mono(im) =>
      status := qlr.AddRasterData(im, None);
    case TwoColor(b, r) =>
      status := qlr.AddRasterData(b, Some(r));
  }

  /** What add_print_page returns after the stages of e: the buffer, or the exception raised. */
  function PageResult(e: D.Effect): Result<seq<byte>, Error>
  {
    if e.status.Raised? then Failure(e.status.error) else Success(e.doc.data)
  }

  /**
   * add_print_page: the builder ends in the state PrintPage describes, and
   * the call returns the builder's buffer, or raises what PrintPage raises.
   */
  method AddPrintPage(qlr: R.BrotherQLRaster, planes: Planes, spec: LabelSpec, o: Options, isLast: bool, isFirst: bool)
    returns (r: Result<seq<byte>, Error>)
    requires PlanesValid(planes) && qlr.model.bytesPerRow > 0
    modifies qlr
    ensures var e := PrintPage(old(qlr.Doc()), qlr.model, qlr.packbits, planes, spec, o, isLast, isFirst);
      qlr.Doc() == e.doc && r == PageResult(e)
  {
    ghost var head := PageHead(qlr.Doc(), qlr.model, spec, o.hq, isFirst);
    AddPageHead(qlr, spec, o.hq, isFirst);
    ghost var media := Then(head, D.AddMediaAndQuality(head.doc, PlanesSize(planes).h));
    var status := qlr.AddMediaAndQuality(PlanesSize(planes).h);
    r := AfterMediaStep(qlr, media, status, planes, spec, o, isLast);
  }

  /** The rest of the page once ESC i z has been attempted: nothing more if it raised. */
  method AfterMediaStep(qlr: R.BrotherQLRaster, ghost e: D.Effect, status: Status, planes: Planes, spec: LabelSpec,
                        o: Options, isLast: bool) returns (r: Result<seq<byte>, Error>)
    requires PlanesValid(planes) && qlr.model.bytesPerRow > 0 && qlr.Doc() == e.doc && status == e.status
    modifies qlr
    ensures var f := AfterMedia(e, qlr.model, qlr.packbits, planes, spec, o, isLast);
      qlr.Doc() == f.doc && r == PageResult(f)
  {
    if status.Raised? {
      return Failure(status.error);
    }
    ghost var settings := Then(e, PageSettings(e.doc, qlr.model, o.cut && isLast, o.peeler, o.dpi600, planes.TwoColor?, spec.feedMargin));
    assert AfterMedia(e, qlr.model, qlr.packbits, planes, spec, o, isLast)
        == AfterSettings(settings, qlr.model, qlr.packbits, planes, o.compress, isLast);
    var next := AddPageSettings(qlr, o.cut && isLast, o.peeler, o.dpi600, planes.TwoColor?, spec.feedMargin);
    r := AfterSettingsStep(qlr, settings, next, planes, o.compress, isLast);
  }

  /** The rest of the page once the settings have been sent: nothing more if add_margins raised. */
  method AfterSettingsStep(qlr: R.BrotherQLRaster, ghost e: D.Effect, status: Status, planes: Planes, compress: bool,
                           isLast: bool) returns (r: Result<seq<byte>, Error>)
    requires PlanesValid(planes) && qlr.model.bytesPerRow > 0 && qlr.Doc() == e.doc && status == e.status
    modifies qlr
    ensures var f := AfterSettings(e, qlr.model, qlr.packbits, planes, compress, isLast);
      qlr.Doc() == f.doc && r == PageResult(f)
  {
    if status.Raised? {
      return Failure(status.error);
    }
    ghost var compression := Then(e, PageCompression(e.doc, qlr.model, compress));
    var next := AddPageCompression(qlr, compress);
    r := AfterCompressionStep(qlr, compression, next, planes, isLast);
  }

  /** The rows and the print command, unless the compression setting raised. */
  method AfterCompressionStep(qlr: R.BrotherQLRaster, ghost e: D.Effect, status: Status, planes: Planes, isLast: bool)
    returns (r: Result<seq<byte>, Error>)
    requires PlanesValid(planes) && qlr.model.bytesPerRow > 0 && qlr.Doc() == e.doc && status == e.status
    modifies qlr
    ensures var f := AfterCompression(e, qlr.model, qlr.packbits, planes, isLast);
      qlr.Doc() == f.doc && r == PageResult(f)
  {
    if status.Raised? {
      return Failure(status.error);
    }
    ghost var rows := Then(e, RasterStep(e.doc, qlr.model, qlr.packbits, planes));
    var next := AddPageRows(qlr, planes);
    r := AfterRowsStep(qlr, rows, next, isLast);
  }

  /** add_print(last_page) unless add_raster_data raised; the page's buffer is returned. */
  method AfterRowsStep(qlr: R.BrotherQLRaster, ghost e: D.Effect, status: Status, isLast: bool)
    returns (r: Result<seq<byte>, Error>)
    requires qlr.Doc() == e.doc && status == e.status
    modifies qlr
    ensures var f := AfterRows(e, isLast);
      qlr.Doc() == f.doc && r == PageResult(f)
  {
    if status.Raised? {
      return Failure(status.error);
    }
    qlr.AddPrint(isLast);
    r := Success(qlr.data);
  }

  /**
   * _rasterize_images: the label lookup and the red refusal before anything
   * is appended, then invalidate, initialize and the page loop, each
   * picture preprocessed and sent through add_print_page with its
   * is_last / is_first flags, each returned buffer kept in page_data.
   */
  method RasterizeImages(qlr: R.BrotherQLRaster, labels: map<string, LabelSpec>, labelName: string,
                         pics: seq<Picture>, copies: int, o: Options, queue: bool)
    returns (r: Result<Output, Error>)
    requires qlr.model.bytesPerRow > 0
    modifies qlr
    ensures var job := Jobs.RasterizeImages(old(qlr.Doc()), qlr.model, qlr.packbits, labels, labelName, pics, copies, o, queue);
      qlr.Doc() == job.doc && r == job.result
  {
    if labelName !in labels {
      return Failure(UnknownLabel);
    }
    var spec := labels[labelName];
    if o.red && !qlr.model.twoColor {
      return Failure(UnsupportedCmd);
    }
    qlr.AddInvalidate();
    qlr.AddInitialize();
    var todo := ToProcess(pics, copies);
    var pageData := PageLoop(qlr, spec, o, todo);
    if pageData.Failure? {
      return Failure(pageData.error);
    }
    if queue {
      r := Success(PageList(pageData.value));
    } else {
      r := Success(Joined(Join(pageData.value)));
    }
  }

  /** The loop over images_to_process: page_data, or the first exception a pass raises. */
  method PageLoop(qlr: R.BrotherQLRaster, spec: LabelSpec, o: Options, todo: seq<Picture>)
    returns (r: Result<seq<seq<byte>>, Error>)
    requires qlr.model.bytesPerRow > 0
    modifies qlr
    ensures var run := RunPages(old(qlr.Doc()), Pass(qlr.model, qlr.packbits, spec, o, todo), |todo|);
      qlr.Doc() == run.doc && r == (if run.status.Raised? then Failure(run.status.error) else Success(run.pages))
  {
    ghost var start := qlr.Doc();
    ghost var pass := Pass(qlr.model, qlr.packbits, spec, o, todo);
    var pageData: seq<seq<byte>> := [];
    var i := 0;
    while i < |todo|
      invariant 0 <= i <= |todo|
      invariant RunPages(start, pass, i) == Run(qlr.Doc(), pageData, Done)
    {
      ghost var before := qlr.Doc();
      ghost var page := pass(before, i);
      var data := PrintPass(qlr, spec, o, todo, i);
      LoopStep(start, pass, i, before, pageData, page);
      if data.Failure? {
        RaisedStays(start, pass, i + 1, |todo|);
        return Failure(data.error);
      }
      pageData := pageData + [data.value];
      i := i + 1;
    }
    r := Success(pageData);
  }

  /** Pass i of the loop: picture todo[i], the last page exactly when i is the last index and the first when i is 0. */
  method PrintPass(qlr: R.BrotherQLRaster, spec: LabelSpec, o: Options, todo: seq<Picture>, i: nat)
    returns (r: Result<seq<byte>, Error>)
    requires qlr.model.bytesPerRow > 0 && i < |todo|
    modifies qlr
    ensures var e := Pass(qlr.model, qlr.packbits, spec, o, todo)(old(qlr.Doc()), i);
      qlr.Doc() == e.doc && (e.status == Done || e.status.Raised?) && r == PageResult(e)
  {
    PassIsPageOf(qlr.model, qlr.packbits, spec, o, todo, qlr.Doc(), i);
    r := PrintOne(qlr, spec, o, todo[i], i == |todo| - 1, i == 0);
  }

  /** One pass of the loop: preprocess_image, then add_print_page with the page's flags. */
  method PrintOne(qlr: R.BrotherQLRaster, spec: LabelSpec, o: Options, pic: Picture, isLast: bool, isFirst: bool)
    returns (r: Result<seq<byte>, Error>)
    requires qlr.model.bytesPerRow > 0
    modifies qlr
    ensures var e := PageOf(old(qlr.Doc()), qlr.model, qlr.packbits, spec, o, pic, isLast, isFirst);
      qlr.Doc() == e.doc && (e.status == Done || e.status.Raised?) && r == PageResult(e)
  {
    var planes := PlanesOf(pic, qlr.model, spec, o);
    if planes.Failure? {
      return Failure(planes.error);
    }
    PreprocessFitsDevice(pic, spec, ImageOptionsOf(o), PixelWidth(qlr.model), spec.rightMarginDots + qlr.model.rightMarginAddition);
    PrintPageOutcome(qlr.Doc(), qlr.model, qlr.packbits, planes.value, spec, o, isLast, isFirst);
    r := AddPrintPage(qlr, planes.value, spec, o, isLast, isFirst);
  }

  /** Pass i is picture todo[i], the last page exactly when i is the last index and the first when i is 0. */
  lemma PassIsPageOf(m: Model, pack: seq<byte> -> seq<byte>, spec: LabelSpec, o: Options, todo: seq<Picture>,
                     doc: D.Document, i: nat)
    requires m.bytesPerRow > 0 && i < |todo|
    ensures Pass(m, pack, spec, o, todo)(doc, i) == PageOf(doc, m, pack, spec, o, todo[i], i == |todo| - 1, i == 0)
  {
  }

  /** One more pass of the loop, from a state in which every earlier pass returned. */
  lemma LoopStep(start: D.Document, pass: (D.Document, nat) -> D.Effect, i: nat, doc: D.Document,
                 pages: seq<seq<byte>>, page: D.Effect)
    requires RunPages(start, pass, i) == Run(doc, pages, Done) && page == pass(doc, i)
    ensures RunPages(start, pass, i + 1) == Extend(Run(doc, pages, Done), page)
  {
  }

  /** convert: invalidate and initialize, keep the buffer, clear it, then the pages joined behind what was kept. */
  method Convert(qlr: R.BrotherQLRaster, labels: map<string, LabelSpec>, labelName: string,
                 pics: seq<Picture>, copies: int, o: Options)
    returns (r: Result<Output, Error>)
    requires qlr.model.bytesPerRow > 0
    modifies qlr
    ensures var job := Jobs.Convert(old(qlr.Doc()), qlr.model, qlr.packbits, labels, labelName, pics, copies, o);
      qlr.Doc() == job.doc && r == job.result
  {
    qlr.AddInvalidate();
    qlr.AddInitialize();
    var setupData := qlr.data;
    qlr.Clear();
    var pages := RasterizeImages(qlr, labels, labelName, pics, copies, o, false);
    if pages.Failure? {
      return pages;
    }
    r := Success(Joined(setupData + pages.value.bytes));
  }

  /** queue_convert: _rasterize_images with queue=True. */
  method QueueConvert(qlr: R.BrotherQLRaster, labels: map<string, LabelSpec>, labelName: string,
                      pics: seq<Picture>, copies: int, o: Options)
    returns (r: Result<Output, Error>)
    requires qlr.model.bytesPerRow > 0
    modifies qlr
    ensures var job := Jobs.QueueConvert(old(qlr.Doc()), qlr.model, qlr.packbits, labels, labelName, pics, copies, o);
      qlr.Doc() == job.doc && r == job.result
  {
    r := RasterizeImages(qlr, labels, labelName, pics, copies, o, true);
  }
}
