/**
 * _rasterize_images, convert and queue_convert as functions of the
 * builder's document: the label lookup, the red refusal, the invalidate
 * and initialize commands, the copies expansion and the page loop with its
 * is_first / is_last flags, and the two shapes of the result (one buffer
 * per page, or the pages joined).
 */
module Jobs {
  import opened Wrappers
  import opened Errors
  import opened Protocol
  import opened Devices
  import opened Binarize
  import opened Geometry
  import opened Preprocess
  import opened Pages
  import opened PageContents
  import D = Document

  /** images_to_process: a single image repeated copies times, otherwise the images as given. */
  function ToProcess<T>(images: seq<T>, copies: int): (r: seq<T>)
    ensures |r| == if |images| == 1 && copies > 1 then copies else |images|
    ensures forall i :: 0 <= i < |r| ==> r[i] in images
    ensures !(|images| == 1 && copies > 1) ==> r == images
  {
    if |images| == 1 && copies > 1 then seq(copies, _ => images[0]) else images
  }

  /** The options dictionary handed to preprocess_image: the threshold rescaled to a level. */
  function ImageOptionsOf(o: Options): ImageOptions
  {
    ImageOptions(o.red, o.dither, o.rotate, o.dpi600, Threshold(o.threshold))
  }

  /** preprocess_image with the device's pixel width and the label's right margin plus the model's addition. */
  function PlanesOf(pic: Picture, m: Model, spec: LabelSpec, o: Options): Result<Planes, Error>
  {
    PreprocessImage(pic, spec, ImageOptionsOf(o), PixelWidth(m), spec.rightMarginDots + m.rightMarginAddition)
  }

  /** The image height add_print_page sends for a picture that preprocesses (0 for one that does not). */
  function PageHeight(pic: Picture, m: Model, spec: LabelSpec, o: Options): nat
  {
    var p := PlanesOf(pic, m, spec, o);
    if p.Success? then PlanesSize(p.value).h else 0
  }

  /** One pass of the page loop: preprocess_image, then add_print_page; an exception of either ends the pass. */
  function PageOf(d: D.Document, m: Model, pack: seq<byte> -> seq<byte>, spec: LabelSpec, o: Options,
                  pic: Picture, isLast: bool, isFirst: bool): D.Effect
    requires m.bytesPerRow > 0
  {
    var p := PlanesOf(pic, m, spec, o);
    if p.Failure? then D.Effect(d, [], Raised(p.error))
    else
      PreprocessFitsDevice(pic, spec, ImageOptionsOf(o), PixelWidth(m), spec.rightMarginDots + m.rightMarginAddition);
      PrintPage(d, m, pack, p.value, spec, o, isLast, isFirst)
  }

  /** The builder's document, the page_data list and how the loop ended. */
  datatype Run = Run(doc: D.Document, pages: seq<seq<byte>>, status: Status)

  /** One pass of the loop, for picture i of todo: picture 0 is the first page, picture |todo| - 1 the last. */
  function Pass(m: Model, pack: seq<byte> -> seq<byte>, spec: LabelSpec, o: Options, todo: seq<Picture>): (D.Document, nat) -> D.Effect
    requires m.bytesPerRow > 0
  {
    (doc: D.Document, i: nat) =>
      if i < |todo| then PageOf(doc, m, pack, spec, o, todo[i], i == |todo| - 1, i == 0) else D.Effect(doc, [], Done)
  }

  /** The loop's state after one more pass: the page's buffer joins page_data unless the pass raised. */
  function Extend(prev: Run, page: D.Effect): Run
  {
    if page.status.Raised? then Run(page.doc, prev.pages, page.status)
    else Run(page.doc, prev.pages + [page.doc.data], page.status)
  }

  /** The page loop after k passes of pass; the first exception ends it. */
  function RunPages(d: D.Document, pass: (D.Document, nat) -> D.Effect, k: nat): Run
  {
    if k == 0 then Run(d, [], Done)
    else
      var prev := RunPages(d, pass, k - 1);
      if prev.status.Raised? then prev else Extend(prev, pass(prev.doc, k - 1))
  }

  /** Once a pass raised, the later passes do not run: the loop's end is where it raised. */
  lemma {:induction false} RaisedStays(d: D.Document, pass: (D.Document, nat) -> D.Effect, j: nat, k: nat)
    requires j <= k && RunPages(d, pass, j).status.Raised?
    ensures RunPages(d, pass, k) == RunPages(d, pass, j)
    decreases k - j
  {
    if j < k {
      RaisedStays(d, pass, j, k - 1);
    }
  }

  /** add_invalidate() then add_initialize(). */
  function Setup(d: D.Document, m: Model): D.Document
  {
    D.AddInitialize(D.AddInvalidate(d, m).doc).doc
  }

  /** What the functions return: the list of page buffers, or one byte string. */
  datatype Output = PageList(pages: seq<seq<byte>>) | Joined(bytes: seq<byte>)

  /** The builder's document afterwards, and the result or the exception raised. */
  datatype Job = Job(doc: D.Document, result: Result<Output, Error>)

  /** b''.join of the page buffers. */
  function Join(pages: seq<seq<byte>>): seq<byte>
  {
    if pages == [] then [] else Join(pages[..|pages| - 1]) + pages[|pages| - 1]
  }

  /**
   * _rasterize_images: KeyError for a label missing from label_type_specs,
   * BrotherQLUnsupportedCmd for red on a model without two-colour support
   * (both before anything is appended), otherwise invalidate, initialize and
   * the page loop over images_to_process.
   */
  function RasterizeImages(d: D.Document, m: Model, pack: seq<byte> -> seq<byte>, labels: map<string, LabelSpec>,
                           labelName: string, pics: seq<Picture>, copies: int, o: Options, queue: bool): Job
    requires m.bytesPerRow > 0
  {
    if labelName !in labels then Job(d, Failure(UnknownLabel))
    else if o.red && !m.twoColor then Job(d, Failure(UnsupportedCmd))
    else
      var todo := ToProcess(pics, copies);
      var run := RunPages(Setup(d, m), Pass(m, pack, labels[labelName], o, todo), |todo|);
      Job(run.doc, Outcome(run, queue))
  }

  /** The exception that ended the loop, or page_data as a list (queue=True) or joined. */
  function Outcome(run: Run, queue: bool): Result<Output, Error>
  {
    if run.status.Raised? then Failure(run.status.error)
    else if queue then Success(PageList(run.pages))
    else Success(Joined(Join(run.pages)))
  }

  /** convert: invalidate and initialize, keep the buffer, clear it, then the pages joined after what was kept. */
  function Convert(d: D.Document, m: Model, pack: seq<byte> -> seq<byte>, labels: map<string, LabelSpec>,
                   labelName: string, pics: seq<Picture>, copies: int, o: Options): Job
    requires m.bytesPerRow > 0
  {
    var setup := Setup(d, m);
    var job := RasterizeImages(D.Clear(setup).doc, m, pack, labels, labelName, pics, copies, o, false);
    Job(job.doc, if job.result.Failure? then job.result else Success(Joined(setup.data + job.result.value.bytes)))
  }

  /** queue_convert: _rasterize_images with queue=True, one buffer per page. */
  function QueueConvert(d: D.Document, m: Model, pack: seq<byte> -> seq<byte>, labels: map<string, LabelSpec>,
                        labelName: string, pics: seq<Picture>, copies: int, o: Options): Job
    requires m.bytesPerRow > 0
  {
    RasterizeImages(d, m, pack, labels, labelName, pics, copies, o, true)
  }

  // ------------------------------------------------------------------
  // Properties
  // ------------------------------------------------------------------

  /** A page buffer that decodes into the commands of a page with these page-order facts. */
  predicate GoodPage(page: seq<byte>, pic: Picture, m: Model, spec: LabelSpec, o: Options, isFirst: bool, isLast: bool)
  {
    && Parse(page).Some?
    && Sequenced(Parse(page).value, m, o, isFirst, isLast,
                 MediaCommand(if isFirst then 0 else 1, spec, o.hq, PageHeight(pic, m, spec, o)))
  }

  /**
   * One pass of the loop: it returns or raises, and a pass that returns
   * leaves a buffer holding a good page and the page number 1.
   */
  lemma PageOfGood(d: D.Document, m: Model, pack: seq<byte> -> seq<byte>, spec: LabelSpec, o: Options,
                   pic: Picture, isLast: bool, isFirst: bool)
    requires m.bytesPerRow > 0 && d.pageNumber == (if isFirst then 0 else 1)
    ensures var r := PageOf(d, m, pack, spec, o, pic, isLast, isFirst);
      r.status == Done || r.status.Raised?
    ensures var r := PageOf(d, m, pack, spec, o, pic, isLast, isFirst);
      r.status == Done ==> r.doc.pageNumber == 1 && GoodPage(r.doc.data, pic, m, spec, o, isFirst, isLast)
  {
    var p := PlanesOf(pic, m, spec, o);
    if p.Success? {
      PreprocessFitsDevice(pic, spec, ImageOptionsOf(o), PixelWidth(m), spec.rightMarginDots + m.rightMarginAddition);
      PrintPageGood(d, m, pack, p.value, spec, o, isLast, isFirst);
      assert PageHeight(pic, m, spec, o) == PlanesSize(p.value).h;
      assert PageOf(d, m, pack, spec, o, pic, isLast, isFirst) == PrintPage(d, m, pack, p.value, spec, o, isLast, isFirst);
    }
  }

  /** Whether buffer p is a good page for picture i of todo. */
  function Goodness(todo: seq<Picture>, m: Model, spec: LabelSpec, o: Options): (seq<byte>, nat) -> bool
  {
    (p: seq<byte>, i: nat) => i < |todo| && GoodPage(p, todo[i], m, spec, o, i == 0, i == |todo| - 1)
  }

  /** What the loop promises after k passes from the document add_initialize leaves. */
  predicate RunGood(r: Run, k: nat, good: (seq<byte>, nat) -> bool)
  {
    && (r.status == Done || r.status.Raised?)
    && (r.status == Done ==>
          && |r.pages| == k
          && r.doc.pageNumber == (if k == 0 then 0 else 1)
          && forall i :: 0 <= i < k ==> good(r.pages[i], i))
  }

  /** Pass i, started from page number 0 for i == 0 and 1 otherwise, returns or raises, and returns a good page. */
  ghost predicate PassesGood(pass: (D.Document, nat) -> D.Effect, n: nat, good: (seq<byte>, nat) -> bool)
  {
    forall doc: D.Document, i: nat {:trigger pass(doc, i)} :: i < n && doc.pageNumber == (if i == 0 then 0 else 1) ==>
      && (pass(doc, i).status == Done || pass(doc, i).status.Raised?)
      && (pass(doc, i).status == Done ==> pass(doc, i).doc.pageNumber == 1 && good(pass(doc, i).doc.data, i))
  }

  lemma ExtendGood(prev: Run, page: D.Effect, k: nat, good: (seq<byte>, nat) -> bool)
    requires 0 < k && RunGood(prev, k - 1, good) && prev.status == Done
    requires page.status == Done || page.status.Raised?
    requires page.status == Done ==> page.doc.pageNumber == 1 && good(page.doc.data, k - 1)
    ensures RunGood(Extend(prev, page), k, good)
  {
    var r := Extend(prev, page);
    if r.status == Done {
      forall i | 0 <= i < k ensures good(r.pages[i], i) {
        if i < k - 1 {
          assert r.pages[i] == prev.pages[i];
        }
      }
    }
  }

  /** The loop keeps its promise pass after pass. */
  lemma {:induction false} RunPagesGood(d: D.Document, pass: (D.Document, nat) -> D.Effect, n: nat, k: nat,
                                        good: (seq<byte>, nat) -> bool)
    requires k <= n && d.pageNumber == 0 && PassesGood(pass, n, good)
    ensures RunGood(RunPages(d, pass, k), k, good)
  {
    if k > 0 {
      RunPagesGood(d, pass, n, k - 1, good);
      var prev := RunPages(d, pass, k - 1);
      if !prev.status.Raised? {
        ExtendGood(prev, pass(prev.doc, k - 1), k, good);
      }
    }
  }

  /** Every pass of the page loop keeps the promise. */
  lemma PassGood(m: Model, pack: seq<byte> -> seq<byte>, spec: LabelSpec, o: Options, todo: seq<Picture>)
    requires m.bytesPerRow > 0
    ensures PassesGood(Pass(m, pack, spec, o, todo), |todo|, Goodness(todo, m, spec, o))
  {
    var pass := Pass(m, pack, spec, o, todo);
    forall doc: D.Document, i: nat | i < |todo| && doc.pageNumber == (if i == 0 then 0 else 1)
      ensures && (pass(doc, i).status == Done || pass(doc, i).status.Raised?)
              && (pass(doc, i).status == Done ==>
                    pass(doc, i).doc.pageNumber == 1 && Goodness(todo, m, spec, o)(pass(doc, i).doc.data, i))
    {
      PageOfGood(doc, m, pack, spec, o, todo[i], i == |todo| - 1, i == 0);
    }
  }

  /**
   * queue_convert: a missing label raises KeyError and red on a model
   * without two-colour support raises BrotherQLUnsupportedCmd, both with the
   * builder untouched; a call that returns gives one buffer per image to
   * process (copies buffers for a single image with copies > 1), and each
   * buffer is a good page: only the first asks for status information and
   * has page flag 0, only the last ends with print, and no buffer holds the
   * invalidate or initialize commands.
   */
  lemma QueueConvertPages(d: D.Document, m: Model, pack: seq<byte> -> seq<byte>, labels: map<string, LabelSpec>,
                          labelName: string, pics: seq<Picture>, copies: int, o: Options)
    requires m.bytesPerRow > 0
    ensures labelName !in labels ==> QueueConvert(d, m, pack, labels, labelName, pics, copies, o) == Job(d, Failure(UnknownLabel))
    ensures labelName in labels && o.red && !m.twoColor ==>
      QueueConvert(d, m, pack, labels, labelName, pics, copies, o) == Job(d, Failure(UnsupportedCmd))
    ensures var r := QueueConvert(d, m, pack, labels, labelName, pics, copies, o).result;
      r.Success? ==>
        && r.value.PageList?
        && |r.value.pages| == (if |pics| == 1 && copies > 1 then copies else |pics|)
        && forall i :: 0 <= i < |r.value.pages| ==>
             GoodPage(r.value.pages[i], ToProcess(pics, copies)[i], m, labels[labelName], o, i == 0, i == |r.value.pages| - 1)
  {
    if labelName in labels && !(o.red && !m.twoColor) {
      LoopPagesGood(Setup(d, m), m, pack, labels[labelName], o, ToProcess(pics, copies));
    }
  }

  /** The page loop from the document add_initialize leaves returns or raises, and returns one good page per picture. */
  lemma LoopPagesGood(start: D.Document, m: Model, pack: seq<byte> -> seq<byte>, spec: LabelSpec, o: Options, todo: seq<Picture>)
    requires m.bytesPerRow > 0 && start.pageNumber == 0
    ensures var run := RunPages(start, Pass(m, pack, spec, o, todo), |todo|);
      && (run.status == Done || run.status.Raised?)
      && (run.status == Done ==>
            && |run.pages| == |todo|
            && forall i :: 0 <= i < |todo| ==> GoodPage(run.pages[i], todo[i], m, spec, o, i == 0, i == |todo| - 1))
  {
    PassGood(m, pack, spec, o, todo);
    RunPagesGood(start, Pass(m, pack, spec, o, todo), |todo|, |todo|, Goodness(todo, m, spec, o));
    var run := RunPages(start, Pass(m, pack, spec, o, todo), |todo|);
    if run.status == Done {
      forall i | 0 <= i < |todo|
        ensures GoodPage(run.pages[i], todo[i], m, spec, o, i == 0, i == |todo| - 1)
      {
        assert Goodness(todo, m, spec, o)(run.pages[i], i);
      }
    }
  }

  /** The bytes add_invalidate and add_initialize append, and the page number they leave. */
  lemma SetupBytes(d: D.Document, m: Model)
    ensures Setup(d, m) == d.(data := d.data + Zeros(m.invalidateBytes) + [0x1B, 0x40], pageNumber := 0)
  {
    var inv := D.AddInvalidate(d, m).doc;
    assert inv.data == d.data + Zeros(m.invalidateBytes);
  }

  /**
   * A pass whose outcome does not depend on what the buffer held: the same
   * status, the same fields, and the same buffer unless it raised.
   */
  ghost predicate IgnoresData(pass: (D.Document, nat) -> D.Effect, n: nat)
  {
    forall a: D.Document, b: D.Document, i: nat {:trigger pass(a, i), pass(b, i)} ::
      i < n && a.(data := []) == b.(data := []) ==>
        && pass(a, i).status == pass(b, i).status
        && pass(a, i).doc.(data := []) == pass(b, i).doc.(data := [])
        && (pass(a, i).status.Raised? || pass(a, i).doc.data == pass(b, i).doc.data)
  }

  /** preprocess_image then add_print_page does not depend on what the buffer held. */
  lemma PageOfIgnoresData(a: D.Document, b: D.Document, m: Model, pack: seq<byte> -> seq<byte>, spec: LabelSpec, o: Options,
                          pic: Picture, isLast: bool, isFirst: bool)
    requires m.bytesPerRow > 0 && a.(data := []) == b.(data := [])
    ensures var ra := PageOf(a, m, pack, spec, o, pic, isLast, isFirst);
      var rb := PageOf(b, m, pack, spec, o, pic, isLast, isFirst);
      && ra.status == rb.status
      && ra.doc.(data := []) == rb.doc.(data := [])
      && (ra.status.Raised? || ra.doc.data == rb.doc.data)
  {
    var p := PlanesOf(pic, m, spec, o);
    if p.Success? {
      PreprocessFitsDevice(pic, spec, ImageOptionsOf(o), PixelWidth(m), spec.rightMarginDots + m.rightMarginAddition);
      PrintPageIgnoresData(a, b, m, pack, p.value, spec, o, isLast, isFirst);
    }
  }

  /** Each pass of the page loop clears the buffer before it appends. */
  lemma PassIgnoresData(m: Model, pack: seq<byte> -> seq<byte>, spec: LabelSpec, o: Options, todo: seq<Picture>)
    requires m.bytesPerRow > 0
    ensures IgnoresData(Pass(m, pack, spec, o, todo), |todo|)
  {
    var pass := Pass(m, pack, spec, o, todo);
    forall a: D.Document, b: D.Document, i: nat | i < |todo| && a.(data := []) == b.(data := [])
      ensures && pass(a, i).status == pass(b, i).status
              && pass(a, i).doc.(data := []) == pass(b, i).doc.(data := [])
              && (pass(a, i).status.Raised? || pass(a, i).doc.data == pass(b, i).doc.data)
    {
      PageOfIgnoresData(a, b, m, pack, spec, o, todo[i], i == |todo| - 1, i == 0);
    }
  }

  /** Two loop states that agree, extended by two passes that agree, still agree. */
  lemma ExtendAgrees(ra: Run, rb: Run, ea: D.Effect, eb: D.Effect)
    requires ra.status == rb.status && ra.pages == rb.pages
    requires ea.status == eb.status && ea.doc.(data := []) == eb.doc.(data := [])
    requires ea.status.Raised? || ea.doc.data == eb.doc.data
    ensures Extend(ra, ea).status == Extend(rb, eb).status && Extend(ra, ea).pages == Extend(rb, eb).pages
    ensures Extend(ra, ea).doc.(data := []) == Extend(rb, eb).doc.(data := [])
  {
  }

  /** The page loop from two documents that differ only in their buffers gives the same pages and the same end. */
  lemma {:induction false} RunIgnoresData(a: D.Document, b: D.Document, pass: (D.Document, nat) -> D.Effect, n: nat, k: nat)
    requires k <= n && a.(data := []) == b.(data := []) && IgnoresData(pass, n)
    ensures RunPages(a, pass, k).status == RunPages(b, pass, k).status
    ensures RunPages(a, pass, k).pages == RunPages(b, pass, k).pages
    ensures RunPages(a, pass, k).doc.(data := []) == RunPages(b, pass, k).doc.(data := [])
  {
    if k > 0 {
      RunIgnoresData(a, b, pass, n, k - 1);
      var ra, rb := RunPages(a, pass, k - 1), RunPages(b, pass, k - 1);
      if !ra.status.Raised? {
        var ea, eb := pass(ra.doc, k - 1), pass(rb.doc, k - 1);
        ExtendAgrees(ra, rb, ea, eb);
      }
    }
  }

  /**
   * _rasterize_images from two builders whose documents differ only in
   * their buffers and page numbers gives the same result (add_initialize
   * resets the page number, and each page starts with clear()).
   */
  lemma RasterizeIgnoresData(a: D.Document, b: D.Document, m: Model, pack: seq<byte> -> seq<byte>, labels: map<string, LabelSpec>,
                             labelName: string, pics: seq<Picture>, copies: int, o: Options, queue: bool)
    requires m.bytesPerRow > 0 && a.(data := [], pageNumber := 0) == b.(data := [], pageNumber := 0)
    ensures RasterizeImages(a, m, pack, labels, labelName, pics, copies, o, queue).result
         == RasterizeImages(b, m, pack, labels, labelName, pics, copies, o, queue).result
  {
    if labelName in labels && !(o.red && !m.twoColor) {
      SetupAgrees(a, b, m);
      LoopAgrees(Setup(a, m), Setup(b, m), m, pack, labels[labelName], o, ToProcess(pics, copies));
    }
  }

  /** add_invalidate and add_initialize leave documents that differ only in their buffers. */
  lemma SetupAgrees(a: D.Document, b: D.Document, m: Model)
    requires a.(data := [], pageNumber := 0) == b.(data := [], pageNumber := 0)
    ensures Setup(a, m).(data := []) == Setup(b, m).(data := [])
  {
    SetupBytes(a, m);
    SetupBytes(b, m);
  }

  /** The page loop over todo from documents that differ only in their buffers gives the same outcome. */
  lemma LoopAgrees(a: D.Document, b: D.Document, m: Model, pack: seq<byte> -> seq<byte>, spec: LabelSpec, o: Options,
                   todo: seq<Picture>)
    requires m.bytesPerRow > 0 && a.(data := []) == b.(data := [])
    ensures var pass := Pass(m, pack, spec, o, todo);
      RunPages(a, pass, |todo|).status == RunPages(b, pass, |todo|).status
      && RunPages(a, pass, |todo|).pages == RunPages(b, pass, |todo|).pages
  {
    PassIgnoresData(m, pack, spec, o, todo);
    RunIgnoresData(a, b, Pass(m, pack, spec, o, todo), |todo|, |todo|);
  }

  /** With queue=False the same run gives its pages joined; with queue=True, the list. */
  lemma JoinedIsQueued(d: D.Document, m: Model, pack: seq<byte> -> seq<byte>, labels: map<string, LabelSpec>,
                       labelName: string, pics: seq<Picture>, copies: int, o: Options)
    requires m.bytesPerRow > 0
    ensures var j := RasterizeImages(d, m, pack, labels, labelName, pics, copies, o, false).result;
      var q := RasterizeImages(d, m, pack, labels, labelName, pics, copies, o, true).result;
      && (q.Failure? ==> j == q)
      && (q.Success? ==> q.value.PageList? && j == Success(Joined(Join(q.value.pages))))
  {
  }

  /**
   * The unpadded image reaches add_raster_data: on continuous media whose
   * printable width is not the device's pixel width, a first image that,
   * turned and halved, already has the printable width is not resized and
   * so not padded, and add_raster_data rejects it with
   * BrotherQLRasterError (wrong pixel width). The page loop stops there,
   * so queue_convert and convert raise it too. With 62 mm endless tape (696
   * printable dots) on a 90-byte, 720-dot head this is any 696-wide image.
   */
  lemma UnpaddedImageRejected(d: D.Document, m: Model, pack: seq<byte> -> seq<byte>, labels: map<string, LabelSpec>,
                              labelName: string, pics: seq<Picture>, copies: int, o: Options)
    requires m.bytesPerRow > 0 && !(o.red && !m.twoColor) && |pics| > 0
    requires labelName in labels && labels[labelName].kind in {Endless, PTouchEndless}
    requires labels[labelName].dotsPrintable.w != PixelWidth(m)
    requires var h := ContinuousInput(pics[0].size, o.rotate, o.dpi600, pics[0].tilt);
      h.Success? && h.value.w == labels[labelName].dotsPrintable.w && h.value.h < TwoTo32
    requires 0 <= labels[labelName].feedMargin < TwoTo16
    requires !(m.compressionSupport && !m.compression && d.exceptionOnWarning)
    ensures QueueConvert(d, m, pack, labels, labelName, pics, copies, o).result == Failure(RasterError)
    ensures Convert(d, m, pack, labels, labelName, pics, copies, o).result == Failure(RasterError)
  {
    var spec := labels[labelName];
    var todo := ToProcess(pics, copies);
    assert todo[0] == pics[0];
    var start := Setup(d, m);
    SetupBytes(d, m);
    var pass := Pass(m, pack, spec, o, todo);
    UnpaddedPageRejected(start, m, pack, spec, o, pics[0], 0 == |todo| - 1, true);
    assert pass(start, 0) == PageOf(start, m, pack, spec, o, todo[0], 0 == |todo| - 1, true);
    assert RunPages(start, pass, 1).status == Raised(RasterError);
    RaisedStays(start, pass, 1, |todo|);
    ConvertJoinsQueue(d, m, pack, labels, labelName, pics, copies, o);
  }

  /** One page of an image at the printable width that is not the device's: add_raster_data raises. */
  lemma UnpaddedPageRejected(d: D.Document, m: Model, pack: seq<byte> -> seq<byte>, spec: LabelSpec, o: Options,
                             pic: Picture, isLast: bool, isFirst: bool)
    requires m.bytesPerRow > 0 && spec.kind in {Endless, PTouchEndless} && spec.dotsPrintable.w != PixelWidth(m)
    requires var h := ContinuousInput(pic.size, o.rotate, o.dpi600, pic.tilt);
      h.Success? && h.value.w == spec.dotsPrintable.w && h.value.h < TwoTo32
    requires 0 <= spec.feedMargin < TwoTo16 && !(m.compressionSupport && !m.compression && d.exceptionOnWarning)
    ensures PageOf(d, m, pack, spec, o, pic, isLast, isFirst).status == Raised(RasterError)
  {
    var io := ImageOptionsOf(o);
    var margin := spec.rightMarginDots + m.rightMarginAddition;
    AsWrittenKeepsPrintableWidth(pic.size, spec.dotsPrintable, o.rotate, o.dpi600, PixelWidth(m), margin, pic.tilt);
    PreprocessFitsDevice(pic, spec, io, PixelWidth(m), margin);
    var p := PlanesOf(pic, m, spec, o);
    assert p.Success?;
    PrintPageSpec(d, m, pack, p.value, spec, o, isLast, isFirst);
    var e := PageDocument(d, m, spec, o, p.value.TwoColor?);
    match p.value
    case Mono(im) =>
      assert D.RasterCheck(m, im, None) == Raised(RasterError);
    case TwoColor(b, r) =>
      assert D.RasterCheck(m, b, Some(r)) == Raised(RasterError);
  }

  /**
   * convert is queue_convert joined behind the setup bytes: the two raise
   * the same exceptions, and when they return, convert's bytes are what the
   * buffer held, the invalidate bytes, ESC @ and then queue_convert's pages
   * one after another.
   */
  lemma ConvertJoinsQueue(d: D.Document, m: Model, pack: seq<byte> -> seq<byte>, labels: map<string, LabelSpec>,
                          labelName: string, pics: seq<Picture>, copies: int, o: Options)
    requires m.bytesPerRow > 0
    ensures var c := Convert(d, m, pack, labels, labelName, pics, copies, o).result;
      var q := QueueConvert(d, m, pack, labels, labelName, pics, copies, o).result;
      && (c.Failure? <==> q.Failure?)
      && (q.Failure? ==> c.error == q.error)
      && (q.Success? ==>
            && q.value.PageList?
            && c == Success(Joined(d.data + Zeros(m.invalidateBytes) + [0x1B, 0x40] + Join(q.value.pages))))
  {
    var setup := Setup(d, m);
    var cleared := D.Clear(setup).doc;
    SetupBytes(d, m);
    SetupBytes(cleared, m);
    RasterizeIgnoresData(cleared, d, m, pack, labels, labelName, pics, copies, o, false);
    JoinedIsQueued(d, m, pack, labels, labelName, pics, copies, o);
  }
}
