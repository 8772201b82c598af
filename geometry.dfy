/**
 * The dimension rules of preprocess_image: the size the printer expects,
 * which way an image is turned, the die-cut aspect test, and where the
 * image lands on the canvas sent to the printer. Only sizes and offsets
 * are modelled; what the pixels become is left to the imaging library.
 */
module Geometry {
  import opened Wrappers
  import opened Errors
  import opened Devices

  /** The rotate option: 'auto' or a number of degrees, counter-clockwise as in PIL. */
  datatype Rotation = Auto | Degrees(angle: int)

  /**
   * Where the image ends up: the rotation applied to it, its size once
   * rotated and resized, the canvas it is pasted on, and the paste column.
   * When no canvas is made, canvas == content and x == 0.
   */
  datatype Layout = Layout(angle: int, content: Size, canvas: Size, x: int)

  function Abs(v: int): nat
  {
    if v < 0 then -v else v
  }

  /** dots_expected: the printable area, doubled in both directions at 600 dpi. */
  function DotsExpected(printable: Size, dpi600: bool): Size
  {
    if dpi600 then Size(2 * printable.w, 2 * printable.h) else printable
  }

  /**
   * Image.rotate(angle, expand=True) on a size. Quarter turns are exact
   * (PIL transposes); the bounding box of any other angle is computed by
   * PIL in floating point and is supplied as tilt.
   */
  function RotatedSize(s: Size, angle: int, tilt: (Size, int) -> Size): Size
  {
    if angle % 180 == 0 then s
    else if angle % 90 == 0 then Size(s.h, s.w)
    else tilt(s, angle)
  }

  /** Image.resize((w // 2, h)) under 600 dpi: the width is halved, rounding down. */
  function Halved(s: Size, dpi600: bool): Size
  {
    if dpi600 then Size(s.w / 2, s.h) else s
  }

  /**
   * The automatic rotation of a die-cut label: a landscape image for a
   * portrait label turns by +90, a portrait image for a landscape label by
   * -90; anything else stays.
   */
  function AutoAngle(expected: Size, img: Size): int
  {
    if expected.w < expected.h && img.w > img.h then 90
    else if expected.w > expected.h && img.w < img.h then -90
    else 0
  }

  /** The angle a die-cut label's image is turned by. */
  function DieCutAngle(rotate: Rotation, expected: Size, img: Size): int
  {
    match rotate
    case Auto => AutoAngle(expected, img)
    case Degrees(a) => a
  }

  /**
   * After automatic rotation the image is oriented like the label: never
   * landscape on a portrait label or portrait on a landscape one. An image
   * already oriented like the label, or a square label, is left as it is.
   */
  lemma AutoRotationOrients(expected: Size, img: Size, tilt: (Size, int) -> Size)
    ensures var r := RotatedSize(img, AutoAngle(expected, img), tilt);
      && (expected.w < expected.h ==> r.w <= r.h)
      && (expected.w > expected.h ==> r.w >= r.h)
      && (r.w == r.h <==> img.w == img.h)
    ensures AutoAngle(expected, img) != 0 <==>
      (expected.w < expected.h && img.w > img.h) || (expected.w > expected.h && img.w < img.h)
    ensures RotatedSize(img, AutoAngle(expected, img), tilt) in {img, Size(img.h, img.w)}
  {
    var a := AutoAngle(expected, img);
    assert a == 90 || a == -90 || a == 0;
    if a != 0 {
      assert a % 180 == 90 && a % 90 == 0;
    }
  }

  /**
   * The die-cut aspect test, in integers: abs(w / h - ew / eh) / (ew / eh)
   * < 0.01 is 100 * |w * eh - ew * h| < h * ew. Each of the three
   * divisions raises ZeroDivisionError when its divisor is zero.
   */
  function AspectWithin(img: Size, expected: Size): Result<bool, Error>
  {
    if img.h == 0 || expected.h == 0 || expected.w == 0 then Failure(ZeroDivision)
    else Success(100 * Abs(img.w * expected.h - expected.w * img.h) < img.h * expected.w)
  }

  /** The aspect test as the source states it, in exact rational arithmetic. */
  predicate RealAspectWithin(img: Size, expected: Size)
    requires img.h > 0 && expected.h > 0 && expected.w > 0
  {
    var input := img.w as real / img.h as real;
    var wanted := expected.w as real / expected.h as real;
    var diff := if input >= wanted then input - wanted else wanted - input;
    diff / wanted < 1.0 / 100.0
  }

  /** The integer test decides exactly the rational one. */
  lemma AspectWithinExact(img: Size, expected: Size)
    requires img.h > 0 && expected.h > 0 && expected.w > 0
    ensures AspectWithin(img, expected) == Success(RealAspectWithin(img, expected))
  {
    var d := img.w * expected.h - expected.w * img.h;
    var cross := Abs(d);
    assert (if d >= 0 then d else -d) == cross;
    assert (d as real >= 0.0) == (d >= 0);
    RealAspect(img.w as real, img.h as real, expected.w as real, expected.h as real, d as real);
    assert (img.h * expected.w) as real == img.h as real * expected.w as real;
    assert (100 * cross) as real == 100.0 * cross as real;
  }

  /** The rational form of the test is the cross-multiplied one. */
  lemma RealAspect(w: real, h: real, ew: real, eh: real, d: real)
    requires h > 0.0 && ew > 0.0 && eh > 0.0 && d == w * eh - ew * h
    ensures var input, wanted := w / h, ew / eh;
      var diff := if input >= wanted then input - wanted else wanted - input;
      diff / wanted < 1.0 / 100.0 <==> 100.0 * (if d >= 0.0 then d else -d) < h * ew
  {
    var cross := if d >= 0.0 then d else -d;
    ScaledDifference(w, h, ew, eh);
    RatioOfRatios(cross, h, ew, eh);
    ScaledBelow(cross, h * ew);
  }

  /** |w/h - ew/eh| = |w*eh - ew*h| / (h*eh). */
  lemma ScaledDifference(w: real, h: real, ew: real, eh: real)
    requires h > 0.0 && eh > 0.0
    ensures var input, wanted := w / h, ew / eh;
      (if input >= wanted then input - wanted else wanted - input)
      == (if w * eh - ew * h >= 0.0 then w * eh - ew * h else ew * h - w * eh) / (h * eh)
  {
    assert w / h - ew / eh == (w * eh - ew * h) / (h * eh);
    assert w / h >= ew / eh <==> w * eh - ew * h >= 0.0;
  }

  lemma RatioOfRatios(c: real, h: real, ew: real, eh: real)
    requires h > 0.0 && ew > 0.0 && eh > 0.0
    ensures (c / (h * eh)) / (ew / eh) == c / (h * ew)
  {
  }

  lemma ScaledBelow(c: real, d: real)
    requires d > 0.0
    ensures c / d < 1.0 / 100.0 <==> 100.0 * c < d
  {
  }


  /**
   * Image.resize(target) on a size: a target equal to the current size
   * gives a copy; any other target with a zero side raises ValueError
   * (height and width must be positive).
   */
  function Resize(cur: Size, target: Size): (r: Result<Size, Error>)
    ensures r.Success? ==> r.value == target
    ensures r.Failure? <==> target != cur && (target.w == 0 || target.h == 0)
    ensures r.Failure? ==> r.error == ValueError
  {
    if target == cur then Success(cur)
    else if target.w == 0 || target.h == 0 then Failure(ValueError)
    else Success(target)
  }

  /**
   * The 600 dpi step, Image.resize((w // 2, h)): it yields the halved size,
   * and raises ValueError exactly for an image one pixel wide, or a
   * zero-high image of positive width.
   */
  function HalveWidth(s: Size, dpi600: bool): (r: Result<Size, Error>)
    ensures r.Success? ==> r.value == Halved(s, dpi600)
    ensures r.Failure? <==> dpi600 && s.w > 0 && (s.w == 1 || s.h == 0)
    ensures r.Failure? ==> r.error == ValueError
  {
    if dpi600 then Resize(s, Size(s.w / 2, s.h)) else Success(s)
  }

  /**
   * The geometry of a die-cut or round die-cut label: rotate, resize to
   * dots_expected when the aspect test accepts a mismatching size (and
   * raise ValueError when it does not), halve the width at 600 dpi, then
   * paste onto a device-wide canvas of dots_expected's height at column
   * device_pixel_width - w - right_margin_dots.
   */
  function DieCutLayout(img: Size, printable: Size, rotate: Rotation, dpi600: bool,
                        deviceWidth: nat, rightMargin: int, tilt: (Size, int) -> Size): Result<Layout, Error>
  {
    var expected := DotsExpected(printable, dpi600);
    var angle := DieCutAngle(rotate, expected, img);
    var turned := RotatedSize(img, angle, tilt);
    var check := if turned == expected then Success(true) else AspectWithin(turned, expected);
    if check.Failure? then Failure(check.error)
    else if !check.value then Failure(ValueError)
    else
      var resized := Resize(turned, expected);
      if resized.Failure? then Failure(resized.error)
      else
        var content := HalveWidth(resized.value, dpi600);
        if content.Failure? then Failure(content.error)
        else Success(Layout(angle, content.value, Size(deviceWidth, expected.h), deviceWidth - content.value.w - rightMargin))
  }

  /**
   * What the die-cut geometry guarantees: it fails when the rotated image
   * differs from dots_expected and the aspect test rejects it or divides by
   * zero, and at 600 dpi when the label has printable width but no height
   * (halving then resizes to a zero height); only the division raises
   * ZeroDivisionError. Otherwise the image is placed at the printable
   * width and the expected height on a canvas as wide as the device.
   */
  lemma DieCutLayoutSpec(img: Size, printable: Size, rotate: Rotation, dpi600: bool,
                         deviceWidth: nat, rightMargin: int, tilt: (Size, int) -> Size)
    ensures var r := DieCutLayout(img, printable, rotate, dpi600, deviceWidth, rightMargin, tilt);
      var expected := DotsExpected(printable, dpi600);
      var turned := RotatedSize(img, DieCutAngle(rotate, expected, img), tilt);
      && (r.Failure? <==>
            (turned != expected && AspectWithin(turned, expected) != Success(true))
            || (dpi600 && printable.w > 0 && printable.h == 0))
      && (r.Failure? ==> (r.error == ZeroDivision <==> turned != expected && AspectWithin(turned, expected).Failure?))
      && (r.Failure? ==> r.error == ValueError || r.error == ZeroDivision)
      && (r.Success? ==>
            && r.value.canvas == Size(deviceWidth, expected.h)
            && r.value.content == Size(printable.w, expected.h)
            && r.value.x == deviceWidth - printable.w - rightMargin)
  {
    var expected := DotsExpected(printable, dpi600);
    var turned := RotatedSize(img, DieCutAngle(rotate, expected, img), tilt);
    if turned != expected && AspectWithin(turned, expected) == Success(true) {
      assert expected.w > 0 && expected.h > 0;
    }
  }

  /** The image on a device-wide canvas at column device_pixel_width - w - right_margin_dots when narrower than the device, as it is otherwise. */
  function Pad(angle: int, content: Size, deviceWidth: nat, rightMargin: int): Layout
  {
    if content.w < deviceWidth then Layout(angle, content, Size(deviceWidth, content.h), deviceWidth - content.w - rightMargin)
    else Layout(angle, content, content, 0)
  }

  /** The size the continuous branch compares with dots_printable[0]: the image turned as asked, its width halved at 600 dpi. */
  function ContinuousInput(img: Size, rotate: Rotation, dpi600: bool, tilt: (Size, int) -> Size): Result<Size, Error>
  {
    HalveWidth(RotatedSize(img, if rotate.Degrees? then rotate.angle else 0, tilt), dpi600)
  }

  /**
   * The continuous-media geometry as written: an explicit rotation, the
   * 600 dpi halving, and, only when the width differs from
   * dots_printable[0], a resize to that width (height scaled, rounding
   * down; ZeroDivisionError for a zero width) followed by the padding to
   * the device width. An image that already has the printable width is
   * left unpadded.
   */
  function ContinuousLayoutAsWritten(img: Size, printable: Size, rotate: Rotation, dpi600: bool,
                                     deviceWidth: nat, rightMargin: int, tilt: (Size, int) -> Size): Result<Layout, Error>
  {
    var angle := if rotate.Degrees? then rotate.angle else 0;
    var halved := ContinuousInput(img, rotate, dpi600, tilt);
    if halved.Failure? then Failure(halved.error)
    else if halved.value.w == printable.w then Success(Layout(angle, halved.value, halved.value, 0))
    else if halved.value.w == 0 then Failure(ZeroDivision)
    else
      var scaled := Resize(halved.value, Size(printable.w, printable.w * halved.value.h / halved.value.w));
      if scaled.Failure? then Failure(scaled.error)
      else Success(Pad(angle, scaled.value, deviceWidth, rightMargin))
  }

  /**
   * What the continuous geometry as written guarantees: the halving's
   * ValueError; otherwise failure exactly when a resize is needed and the
   * width is zero (ZeroDivisionError) or the target has a zero side
   * (ValueError). A result has the printable width; an image that needed
   * resizing has the scaled height and is padded to the device width when
   * narrower, and one that did not is left exactly as it was.
   */
  lemma ContinuousLayoutAsWrittenSpec(img: Size, printable: Size, rotate: Rotation, dpi600: bool,
                                      deviceWidth: nat, rightMargin: int, tilt: (Size, int) -> Size)
    ensures var r := ContinuousLayoutAsWritten(img, printable, rotate, dpi600, deviceWidth, rightMargin, tilt);
      var h := ContinuousInput(img, rotate, dpi600, tilt);
      && (h.Failure? ==> r == Failure(ValueError))
      && (h.Success? ==>
            (r.Failure? <==>
               h.value.w != printable.w
               && (h.value.w == 0 || printable.w == 0 || printable.w * h.value.h / h.value.w == 0)))
      && (r.Failure? ==> r.error == ValueError || r.error == ZeroDivision)
      && (r.Failure? ==> (r.error == ZeroDivision <==> h.Success? && h.value.w == 0))
    ensures var r := ContinuousLayoutAsWritten(img, printable, rotate, dpi600, deviceWidth, rightMargin, tilt);
      var h := ContinuousInput(img, rotate, dpi600, tilt);
      r.Success? ==>
        && h.Success?
        && r.value.content.w == printable.w
        && r.value.canvas.h == r.value.content.h
        && (h.value.w == printable.w ==> r.value.content == h.value && r.value.canvas == h.value && r.value.x == 0)
        && (h.value.w != printable.w ==>
              && r.value.content.h == printable.w * h.value.h / h.value.w
              && (printable.w < deviceWidth ==>
                    r.value.canvas.w == deviceWidth && r.value.x == deviceWidth - printable.w - rightMargin)
              && (printable.w >= deviceWidth ==> r.value.canvas == r.value.content && r.value.x == 0))
  {
  }

  /**
   * Continuous-media geometry with the padding applied whatever the
   * resize did: the image is brought to the printable width, then padded
   * to the device width when narrower.
   */
  function ContinuousLayout(img: Size, printable: Size, rotate: Rotation, dpi600: bool,
                            deviceWidth: nat, rightMargin: int, tilt: (Size, int) -> Size): Result<Layout, Error>
  {
    var angle := if rotate.Degrees? then rotate.angle else 0;
    var halved := ContinuousInput(img, rotate, dpi600, tilt);
    if halved.Failure? then Failure(halved.error)
    else if halved.value.w == printable.w then Success(Pad(angle, halved.value, deviceWidth, rightMargin))
    else if halved.value.w == 0 then Failure(ZeroDivision)
    else
      var scaled := Resize(halved.value, Size(printable.w, printable.w * halved.value.h / halved.value.w));
      if scaled.Failure? then Failure(scaled.error)
      else Success(Pad(angle, scaled.value, deviceWidth, rightMargin))
  }

  /**
   * With the padding outside the resize branch, every continuous image ends
   * up at the printable width, on a canvas exactly as wide as the device
   * whenever the printable width fits the device. It fails exactly when
   * the code as written does, with the same error and the same content,
   * and the two differ only for an image that already had the printable
   * width on a wider device.
   */
  lemma ContinuousLayoutSpec(img: Size, printable: Size, rotate: Rotation, dpi600: bool,
                             deviceWidth: nat, rightMargin: int, tilt: (Size, int) -> Size)
    ensures var r := ContinuousLayout(img, printable, rotate, dpi600, deviceWidth, rightMargin, tilt);
      r.Success? ==>
        && r.value.content.w == printable.w
        && r.value.canvas.h == r.value.content.h
        && (printable.w <= deviceWidth ==> r.value.canvas.w == deviceWidth)
        && (printable.w < deviceWidth ==> r.value.x == deviceWidth - printable.w - rightMargin)
    ensures var r := ContinuousLayout(img, printable, rotate, dpi600, deviceWidth, rightMargin, tilt);
      var w := ContinuousLayoutAsWritten(img, printable, rotate, dpi600, deviceWidth, rightMargin, tilt);
      var h := ContinuousInput(img, rotate, dpi600, tilt);
      && (r.Failure? <==> w.Failure?)
      && (r.Failure? ==> r.error == w.error)
      && (r.Success? ==> r.value.content == w.value.content)
      && (r != w ==> h.Success? && h.value.w == printable.w && printable.w < deviceWidth)
  {
    ContinuousLayoutAsWrittenSpec(img, printable, rotate, dpi600, deviceWidth, rightMargin, tilt);
  }

  /**
   * The code as written leaves an image that already has the printable
   * width narrower than the device: with 62 mm endless tape (696 printable
   * dots) on a 720-dot head, a 696-wide image keeps a 696-wide canvas, which
   * add_raster_data then rejects; the corrected geometry pads it to 720.
   */
  lemma ContinuousUnpaddedAsWritten(tilt: (Size, int) -> Size)
    ensures var r := ContinuousLayoutAsWritten(Size(696, 300), Size(696, 0), Auto, false, 720, 12, tilt);
      r.Success? && r.value.canvas.w == 696
    ensures var r := ContinuousLayout(Size(696, 300), Size(696, 0), Auto, false, 720, 12, tilt);
      r.Success? && r.value.canvas.w == 720 && r.value.x == 12
  {
  }

  /** In general, as written: an image at the printable width is never padded, whatever the device width. */
  lemma AsWrittenKeepsPrintableWidth(img: Size, printable: Size, rotate: Rotation, dpi600: bool,
                                     deviceWidth: nat, rightMargin: int, tilt: (Size, int) -> Size)
    requires var h := ContinuousInput(img, rotate, dpi600, tilt); h.Success? && h.value.w == printable.w
    ensures var r := ContinuousLayoutAsWritten(img, printable, rotate, dpi600, deviceWidth, rightMargin, tilt);
      r.Success? && r.value.canvas.w == printable.w && r.value.x == 0
  {
  }
}
