/**
 * The last stage of preprocess_image: the threshold option, the inverted
 * point operation that turns grey levels into ink, and the planes handed
 * to add_raster_data (one plane, or a black and a red plane with red ink
 * taken out of the black one).
 */
module Binarize {
  import opened Protocol
  import opened Devices
  import opened Bitmaps

  /** int() of a quotient: division truncating toward zero. */
  function TruncDiv(a: int, b: nat): int
    requires b > 0
  {
    if a >= 0 then a / b else -((-a) / b)
  }

  function Clamp(v: int, lo: int, hi: int): int
    requires lo <= hi
  {
    if v < lo then lo else if v > hi then hi else v
  }

  /**
   * The threshold option (a percentage of darkness) as a level:
   * int((100 - t) / 100 * 255), kept within 0 .. 255.
   */
  function Threshold(t: int): byte
  {
    Clamp(TruncDiv((100 - t) * 255, 100), 0, 255)
  }

  /**
   * The level is (100 - t) percent of 255 rounded down for t in 0 .. 100,
   * all 255 at or below 0, none at or above 100, and it falls as t rises;
   * the default of 70 gives 76.
   */
  lemma ThresholdScale(t: int, u: int)
    ensures 0 <= t <= 100 ==> 100 * Threshold(t) <= (100 - t) * 255 < 100 * (Threshold(t) + 1)
    ensures t <= 0 ==> Threshold(t) == 255
    ensures t >= 100 ==> Threshold(t) == 0
    ensures t <= u ==> Threshold(u) <= Threshold(t)
    ensures Threshold(70) == 76
  {
    if t <= u {
      if u < 100 {
        assert (100 - u) * 255 <= (100 - t) * 255;
        DivMonotone((100 - u) * 255, (100 - t) * 255, 100);
      }
    }
  }

  lemma DivMonotone(a: nat, b: nat, d: nat)
    requires a <= b && d > 0
    ensures a / d <= b / d
  {
    var qa, qb := a / d, b / d;
    assert qa * d <= b < (qb + 1) * d;
    MulBelow(qa, qb + 1, d);
  }

  lemma MulBelow(x: nat, y: nat, d: nat)
    requires x * d < y * d
    ensures x < y
  {
    if x >= y {
      MulAtLeast(x, y, d);
    }
  }

  lemma MulAtLeast(x: nat, y: nat, d: nat)
    requires x >= y
    ensures x * d >= y * d
  {
  }

  /**
   * ImageOps.invert followed by point(0 if x < threshold else 255): a
   * pixel of grey level v becomes ink exactly when 255 - v reaches the
   * threshold.
   */
  predicate Ink(level: byte, threshold: byte)
  {
    255 - level >= threshold
  }

  /** Darker pixels ink first: at threshold 0 every pixel is ink, at 255 only black. */
  lemma InkOrder(level: byte, darker: byte, threshold: byte)
    ensures darker <= level && Ink(level, threshold) ==> Ink(darker, threshold)
    ensures Ink(level, 0)
    ensures Ink(level, 255) <==> level == 0
  {
  }

  /**
   * What the imaging library computes for one pixel of the canvas: its
   * grey level (mode "L"), the Floyd-Steinberg bit of the inverted image,
   * and the grey levels of the red and the black HSV filter images.
   */
  datatype Shade = Shade(luma: byte, dithered: bool, redLevel: byte, blackLevel: byte)

  /** A canvas of the given size; at(x, y) is the pixel in column x of row y. */
  datatype Canvas = Canvas(size: Size, at: (nat, nat) -> Shade)

  /** The planes preprocess_image produces. */
  datatype Planes = Mono(im: Bitmap) | TwoColor(black: Bitmap, red: Bitmap)

  function MonoPixel(s: Shade, threshold: byte, dither: bool): bool
  {
    if dither then s.dithered else Ink(s.luma, threshold)
  }

  function MonoPlane(c: Canvas, threshold: byte, dither: bool): (b: Bitmap)
    ensures Valid(b) && b.width == c.size.w && b.height == c.size.h
    ensures forall y, x :: 0 <= y < b.height && 0 <= x < b.width ==>
      b.rows[y][x] == MonoPixel(c.at(x, y), threshold, dither)
  {
    Bitmap(c.size.w, c.size.h, seq(c.size.h, (y: int) requires 0 <= y => seq(c.size.w, (x: int) requires 0 <= x => MonoPixel(c.at(x, y), threshold, dither))))
  }

  function RedPlane(c: Canvas, threshold: byte): (b: Bitmap)
    ensures Valid(b) && b.width == c.size.w && b.height == c.size.h
    ensures forall y, x :: 0 <= y < b.height && 0 <= x < b.width ==>
      b.rows[y][x] == Ink(c.at(x, y).redLevel, threshold)
  {
    Bitmap(c.size.w, c.size.h, seq(c.size.h, (y: int) requires 0 <= y => seq(c.size.w, (x: int) requires 0 <= x => Ink(c.at(x, y).redLevel, threshold))))
  }

  function BlackPlane(c: Canvas, threshold: byte): (b: Bitmap)
    ensures Valid(b) && b.width == c.size.w && b.height == c.size.h
    ensures forall y, x :: 0 <= y < b.height && 0 <= x < b.width ==>
      b.rows[y][x] == Ink(c.at(x, y).blackLevel, threshold)
  {
    Bitmap(c.size.w, c.size.h, seq(c.size.h, (y: int) requires 0 <= y => seq(c.size.w, (x: int) requires 0 <= x => Ink(c.at(x, y).blackLevel, threshold))))
  }

  /** ImageChops.subtract on two mode "1" planes: 255 - 255 and 0 - 255 clip to 0, so a pixel stays only where b is clear. */
  function Subtract(a: Bitmap, b: Bitmap): (r: Bitmap)
    requires Valid(a) && Valid(b) && a.width == b.width && a.height == b.height
    ensures Valid(r) && r.width == a.width && r.height == a.height
  {
    Bitmap(a.width, a.height, seq(a.height, y requires 0 <= y < a.height =>
      seq(a.width, x requires 0 <= x < a.width => a.rows[y][x] && !b.rows[y][x])))
  }

  /**
   * Subtracting the red plane leaves black ink only where there is no red
   * ink; together the two planes still cover exactly the pixels either
   * filter inked.
   */
  lemma SubtractSeparates(a: Bitmap, b: Bitmap)
    requires Valid(a) && Valid(b) && a.width == b.width && a.height == b.height
    ensures var r := Subtract(a, b);
      forall y, x :: 0 <= y < a.height && 0 <= x < a.width ==>
        && !(r.rows[y][x] && b.rows[y][x])
        && (r.rows[y][x] ==> a.rows[y][x])
        && (r.rows[y][x] || b.rows[y][x] <==> a.rows[y][x] || b.rows[y][x])
  {
  }

  /**
   * The planes of one canvas: a single plane from the grey level or the
   * dithered bit, or, in red mode, the red filter's plane and the black
   * filter's plane with red removed.
   */
  function ToPlanes(c: Canvas, threshold: byte, dither: bool, red: bool): Planes
  {
    if red then
      var r := RedPlane(c, threshold);
      TwoColor(Subtract(BlackPlane(c, threshold), r), r)
    else Mono(MonoPlane(c, threshold, dither))
  }

  /** Every plane is a well-formed bitmap of the canvas size, pixel for pixel what the filters and the threshold say. */
  lemma ToPlanesSpec(c: Canvas, threshold: byte, dither: bool, red: bool)
    ensures var p := ToPlanes(c, threshold, dither, red);
      && (p.TwoColor? <==> red)
      && (p.Mono? ==>
            && Valid(p.im) && p.im.width == c.size.w && p.im.height == c.size.h
            && forall y, x :: 0 <= y < c.size.h && 0 <= x < c.size.w ==>
                 p.im.rows[y][x] == MonoPixel(c.at(x, y), threshold, dither))
      && (p.TwoColor? ==>
            && Valid(p.black) && Valid(p.red)
            && p.black.width == p.red.width == c.size.w && p.black.height == p.red.height == c.size.h
            && forall y, x :: 0 <= y < c.size.h && 0 <= x < c.size.w ==>
                 && (p.red.rows[y][x] <==> Ink(c.at(x, y).redLevel, threshold))
                 && (p.black.rows[y][x] <==> Ink(c.at(x, y).blackLevel, threshold) && !p.red.rows[y][x]))
  {
    if red {
      var r := RedPlane(c, threshold);
      var k := BlackPlane(c, threshold);
      var b := Subtract(k, r);
      assert forall y, x :: 0 <= y < c.size.h && 0 <= x < c.size.w ==>
        b.rows[y][x] == (k.rows[y][x] && !r.rows[y][x]);
    }
  }
}
