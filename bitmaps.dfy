/**
 * Two-level pixel planes and the row bytes the printer receives for them:
 * each row mirrored left to right and packed eight pixels per byte, first
 * pixel in the most significant bit (PIL's raw encoding of mode "1").
 */
module Bitmaps {
  import opened Protocol

  /** A 1-bit image; true is a set (ink) pixel. */
  datatype Bitmap = Bitmap(width: nat, height: nat, rows: seq<seq<bool>>)

  /** The rows agree with the stated size. */
  predicate Valid(b: Bitmap)
  {
    |b.rows| == b.height && forall y :: 0 <= y < b.height ==> |b.rows[y]| == b.width
  }

  /** A row flipped left to right (Image.FLIP_LEFT_RIGHT). */
  function Mirror(row: seq<bool>): (r: seq<bool>)
    ensures |r| == |row|
    ensures forall i :: 0 <= i < |row| ==> r[i] == row[|row| - 1 - i]
  {
    seq(|row|, i requires 0 <= i < |row| => row[|row| - 1 - i])
  }

  function Pow2(n: nat): (p: nat)
    ensures p > 0
  {
    if n == 0 then 1 else 2 * Pow2(n - 1)
  }

  /** The number whose binary digits, most significant first, are the given bits. */
  function BitsValue(bits: seq<bool>): (v: nat)
    ensures v < Pow2(|bits|)
  {
    if bits == [] then 0
    else 2 * BitsValue(bits[..|bits| - 1]) + (if bits[|bits| - 1] then 1 else 0)
  }

  /** The n lowest binary digits of v, most significant first. */
  function ValueBits(v: nat, n: nat): (bits: seq<bool>)
    ensures |bits| == n
  {
    if n == 0 then [] else ValueBits(v / 2, n - 1) + [v % 2 == 1]
  }

  lemma {:induction false} BitsValueRoundTrip(bits: seq<bool>)
    ensures ValueBits(BitsValue(bits), |bits|) == bits
  {
    if bits != [] {
      var init := bits[..|bits| - 1];
      var v := BitsValue(bits);
      assert v / 2 == BitsValue(init);
      BitsValueRoundTrip(init);
      assert bits == init + [bits[|bits| - 1]];
    }
  }

  lemma {:induction false} ValueBitsRoundTrip(v: nat, n: nat)
    requires v < Pow2(n)
    ensures BitsValue(ValueBits(v, n)) == v
  {
    if n > 0 {
      var bits := ValueBits(v, n);
      assert bits[..n - 1] == ValueBits(v / 2, n - 1);
      ValueBitsRoundTrip(v / 2, n - 1);
    }
  }

  /** Eight pixels per byte, first pixel in the most significant bit. */
  function PackRow(bits: seq<bool>): (r: seq<byte>)
    requires |bits| % 8 == 0
    ensures |r| == |bits| / 8
  {
    if bits == [] then [] else [BitsValue(bits[..8])] + PackRow(bits[8..])
  }

  /** The pixels of packed row bytes, eight per byte. */
  function UnpackRow(bytes: seq<byte>): (r: seq<bool>)
    ensures |r| == 8 * |bytes|
  {
    if bytes == [] then [] else ValueBits(bytes[0], 8) + UnpackRow(bytes[1..])
  }

  lemma {:induction false} UnpackPack(bits: seq<bool>)
    requires |bits| % 8 == 0
    ensures UnpackRow(PackRow(bits)) == bits
  {
    if bits != [] {
      BitsValueRoundTrip(bits[..8]);
      assert PackRow(bits)[1..] == PackRow(bits[8..]);
      UnpackPack(bits[8..]);
      assert bits == bits[..8] + bits[8..];
    }
  }

  lemma {:induction false} PackUnpack(bytes: seq<byte>)
    ensures PackRow(UnpackRow(bytes)) == bytes
  {
    if bytes != [] {
      var u := UnpackRow(bytes);
      assert u[..8] == ValueBits(bytes[0], 8);
      assert u[8..] == UnpackRow(bytes[1..]);
      ValueBitsRoundTrip(bytes[0], 8);
      PackUnpack(bytes[1..]);
      assert [bytes[0]] + bytes[1..] == bytes;
    }
  }

  /** The bytes transmitted for one image row: mirrored, then packed. */
  function RowBytes(row: seq<bool>): (r: seq<byte>)
    requires |row| % 8 == 0
    ensures |r| == |row| / 8
  {
    PackRow(Mirror(row))
  }

  /**
   * The transmitted row bytes give back the image row: pixel i of the
   * decoded bytes is pixel |row| - 1 - i of the image.
   */
  lemma RowBytesDecode(row: seq<bool>)
    requires |row| % 8 == 0
    ensures Mirror(UnpackRow(RowBytes(row))) == row
  {
    UnpackPack(Mirror(row));
  }

  /** Every row of the plane has width w and w is a whole number of bytes. */
  predicate RowsOfWidth(rows: seq<seq<bool>>, w: nat)
  {
    w % 8 == 0 && forall y :: 0 <= y < |rows| ==> |rows[y]| == w
  }

  /** The raw bytes of a mirrored mode-"1" image: its rows' bytes one after the other. */
  function Frame(rows: seq<seq<bool>>, w: nat): (f: seq<byte>)
    requires RowsOfWidth(rows, w)
    ensures |f| == |rows| * (w / 8)
  {
    if rows == [] then [] else RowBytes(rows[0]) + Frame(rows[1..], w)
  }

  /** Slicing the frame at row k gives row k's bytes. */
  lemma FrameSlice(rows: seq<seq<bool>>, w: nat, k: nat)
    requires RowsOfWidth(rows, w) && k < |rows|
    ensures k * (w / 8) + w / 8 <= |Frame(rows, w)|
    ensures Frame(rows, w)[k * (w / 8)..k * (w / 8) + w / 8] == RowBytes(rows[k])
  {
    FrameSliceAt(rows, w, w / 8, k, k * (w / 8));
  }

  /** FrameSlice with the row length n and the offset lo = k * n named. */
  lemma {:induction false} FrameSliceAt(rows: seq<seq<bool>>, w: nat, n: nat, k: nat, lo: nat)
    requires RowsOfWidth(rows, w) && n == w / 8 && k < |rows| && lo == k * n
    ensures lo + n <= |Frame(rows, w)|
    ensures Frame(rows, w)[lo..lo + n] == RowBytes(rows[k])
  {
    var head := RowBytes(rows[0]);
    if k == 0 {
      assert Frame(rows, w)[..n] == head;
    } else {
      ShiftByRow(k, n);
      var g := Frame(rows[1..], w);
      FrameSliceAt(rows[1..], w, n, k - 1, lo - n);
      assert Frame(rows, w) == head + g;
      SliceAfter(head, g, lo, lo + n);
    }
  }

  lemma ShiftByRow(k: nat, n: nat)
    requires k > 0
    ensures k * n >= n && k * n - n == (k - 1) * n
  {
  }

  /** A slice lying wholly in the second part of a concatenation. */
  lemma SliceAfter(a: seq<byte>, b: seq<byte>, lo: nat, hi: nat)
    requires |a| <= lo <= hi <= |a| + |b|
    ensures (a + b)[lo..hi] == b[lo - |a|..hi - |a|]
  {
  }
}
