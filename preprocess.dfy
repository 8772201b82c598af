/**
 * preprocess_image as a whole: the geometry chosen by the label kind,
 * then the planes of the resulting canvas. Colour-mode conversions,
 * resampling and the HSV filters are the imaging library's; a picture
 * carries what they produce.
 */
module Preprocess {
  import opened Wrappers
  import opened Errors
  import opened Protocol
  import opened Devices
  import opened Bitmaps
  import opened Geometry
  import opened Binarize

  /**
   * An input image: its size, PIL's bounding box for a rotation by an
   * angle that is not a quarter turn, and the pixels of the canvas the
   * library produces for a given layout.
   */
  datatype Picture = Picture(size: Size, tilt: (Size, int) -> Size, paint: Layout -> ((nat, nat) -> Shade))

  /** The options preprocess_image reads. */
  datatype ImageOptions = ImageOptions(red: bool, dither: bool, rotate: Rotation, dpi600: bool, threshold: byte)

  /** The geometry of the label kind; continuous media follow the code as written. */
  function LayoutFor(pic: Picture, spec: LabelSpec, o: ImageOptions, deviceWidth: nat, rightMargin: int): Result<Layout, Error>
  {
    match spec.kind
    case Endless =>
      ContinuousLayoutAsWritten(pic.size, spec.dotsPrintable, o.rotate, o.dpi600, deviceWidth, rightMargin, pic.tilt)
    case PTouchEndless =>
      ContinuousLayoutAsWritten(pic.size, spec.dotsPrintable, o.rotate, o.dpi600, deviceWidth, rightMargin, pic.tilt)
    case DieCut =>
      DieCutLayout(pic.size, spec.dotsPrintable, o.rotate, o.dpi600, deviceWidth, rightMargin, pic.tilt)
    case RoundDieCut =>
      DieCutLayout(pic.size, spec.dotsPrintable, o.rotate, o.dpi600, deviceWidth, rightMargin, pic.tilt)
  }

  /** preprocess_image: the planes of the laid-out canvas, or the error the geometry raised. */
  function PreprocessImage(pic: Picture, spec: LabelSpec, o: ImageOptions, deviceWidth: nat, rightMargin: int): Result<Planes, Error>
  {
    var l := LayoutFor(pic, spec, o, deviceWidth, rightMargin);
    if l.Failure? then Failure(l.error)
    else Success(ToPlanes(Canvas(l.value.canvas, pic.paint(l.value)), o.threshold, o.dither, o.red))
  }

  /** Every plane is a well-formed bitmap, and the two planes of a two-colour result agree in size. */
  predicate PlanesValid(p: Planes)
  {
    match p
    case Mono(im) => Valid(im)
    case TwoColor(b, r) => Valid(b) && Valid(r) && b.width == r.width && b.height == r.height
  }

  /** The size of a result's planes. */
  function PlanesSize(p: Planes): Size
  {
    match p
    case Mono(im) => Size(im.width, im.height)
    case TwoColor(b, _) => Size(b.width, b.height)
  }

  lemma ToPlanesShape(c: Canvas, threshold: byte, dither: bool, red: bool)
    ensures var p := ToPlanes(c, threshold, dither, red);
      PlanesValid(p) && PlanesSize(p) == c.size && (p.TwoColor? <==> red)
  {
  }

  /**
   * What add_raster_data later relies on. Only ValueError and
   * ZeroDivisionError can be raised, the second for continuous media only
   * when the turned and halved image has no width. The two-colour form is
   * produced exactly in red mode. Die-cut planes are as wide as the device
   * and dots_expected high. Continuous planes have the printable width,
   * padded to the device width only when the image had to be resized: an
   * image already at the printable width keeps its size.
   */
  lemma PreprocessFitsDevice(pic: Picture, spec: LabelSpec, o: ImageOptions, deviceWidth: nat, rightMargin: int)
    ensures var r := PreprocessImage(pic, spec, o, deviceWidth, rightMargin);
      r.Failure? ==> r.error == ValueError || r.error == ZeroDivision
    ensures var r := PreprocessImage(pic, spec, o, deviceWidth, rightMargin);
      var h := ContinuousInput(pic.size, o.rotate, o.dpi600, pic.tilt);
      r.Failure? && spec.kind in {Endless, PTouchEndless} ==>
        (r.error == ZeroDivision <==> h.Success? && h.value.w == 0)
    ensures var r := PreprocessImage(pic, spec, o, deviceWidth, rightMargin);
      r.Success? ==> PlanesValid(r.value) && (r.value.TwoColor? <==> o.red)
    ensures var r := PreprocessImage(pic, spec, o, deviceWidth, rightMargin);
      r.Success? && spec.kind in {DieCut, RoundDieCut} ==>
        PlanesSize(r.value) == Size(deviceWidth, DotsExpected(spec.dotsPrintable, o.dpi600).h)
    ensures var r := PreprocessImage(pic, spec, o, deviceWidth, rightMargin);
      var h := ContinuousInput(pic.size, o.rotate, o.dpi600, pic.tilt);
      r.Success? && spec.kind in {Endless, PTouchEndless} ==>
        && h.Success?
        && (h.value.w == spec.dotsPrintable.w ==> PlanesSize(r.value) == h.value)
        && (h.value.w != spec.dotsPrintable.w ==>
              PlanesSize(r.value).w == if spec.dotsPrintable.w < deviceWidth then deviceWidth else spec.dotsPrintable.w)
  {
    var l := LayoutFor(pic, spec, o, deviceWidth, rightMargin);
    if spec.kind in {Endless, PTouchEndless} {
      ContinuousLayoutAsWrittenSpec(pic.size, spec.dotsPrintable, o.rotate, o.dpi600, deviceWidth, rightMargin, pic.tilt);
    } else {
      DieCutLayoutSpec(pic.size, spec.dotsPrintable, o.rotate, o.dpi600, deviceWidth, rightMargin, pic.tilt);
    }
    if l.Success? {
      ToPlanesShape(Canvas(l.value.canvas, pic.paint(l.value)), o.threshold, o.dither, o.red);
    }
  }
}
