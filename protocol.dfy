/**
 * The raster command language of the Brother QL and PT printers, as a value:
 * the commands the encoder emits, their exact byte encodings, the flag bytes
 * they carry, and a decoder that reads a byte stream back into commands.
 */
module Protocol {
  import opened Wrappers

  /** One byte of the instruction stream. */
  type byte = b: int | 0 <= b < 256

  const TwoTo16: int := 0x1_0000
  const TwoTo32: int := 0x1_0000_0000

  /** 2^i for a bit position i of a byte. */
  function BitWeight(i: nat): nat
    requires i < 8
  {
    [1, 2, 4, 8, 16, 32, 64, 128][i]
  }

  /** Bit i of a byte, bit 0 being the least significant. */
  function Bit(b: byte, i: nat): bool
    requires i < 8
  {
    ((b as bv8) >> i) & 1 == 1
  }

  /**
   * The value 1 << i when the condition holds, 0 otherwise (Python's
   * `cond << i`). The flag bytes below combine such values at distinct
   * positions, so their sum is their bitwise or.
   */
  function FlagBit(cond: bool, i: nat): nat
    requires i < 8
  {
    if cond then BitWeight(i) else 0
  }

  /**
   * The "valid flags" byte of ESC i z: bit 7 always set, bits 1, 2 and 3 for the
   * media type, width and length that are present, bit 6 for high print quality.
   */
  function MediaFlags(hasType: bool, hasWidth: bool, hasLength: bool, quality: bool): byte
  {
    0x80 + FlagBit(hasType, 1) + FlagBit(hasWidth, 2) + FlagBit(hasLength, 3) + FlagBit(quality, 6)
  }

  lemma MediaFlagsLayout(hasType: bool, hasWidth: bool, hasLength: bool, quality: bool)
    ensures var f := MediaFlags(hasType, hasWidth, hasLength, quality);
      && Bit(f, 7)
      && Bit(f, 1) == hasType && Bit(f, 2) == hasWidth && Bit(f, 3) == hasLength
      && Bit(f, 6) == quality
      && !Bit(f, 0) && !Bit(f, 4) && !Bit(f, 5)
  {
  }

  /** The flags byte of ESC i M: bit 4 the peeler, bit 6 automatic cutting. */
  function ModeFlags(autocut: bool, peeler: bool): byte
  {
    FlagBit(peeler, 4) + FlagBit(autocut, 6)
  }

  lemma ModeFlagsLayout(autocut: bool, peeler: bool)
    ensures var f := ModeFlags(autocut, peeler);
      && Bit(f, 4) == peeler && Bit(f, 6) == autocut
      && !Bit(f, 0) && !Bit(f, 1) && !Bit(f, 2) && !Bit(f, 3) && !Bit(f, 5) && !Bit(f, 7)
  {
  }

  /** The flags byte of ESC i K on P-touch models: bit 2 half cut, bit 3 no chain printing, bit 5 600 dpi. */
  function TapeExpandedFlags(halfCut: bool, noChainPrinting: bool, dpi600: bool): byte
  {
    FlagBit(halfCut, 2) + FlagBit(noChainPrinting, 3) + FlagBit(dpi600, 5)
  }

  lemma TapeExpandedFlagsLayout(halfCut: bool, noChainPrinting: bool, dpi600: bool)
    ensures var f := TapeExpandedFlags(halfCut, noChainPrinting, dpi600);
      && Bit(f, 2) == halfCut && Bit(f, 3) == noChainPrinting && Bit(f, 5) == dpi600
      && !Bit(f, 0) && !Bit(f, 1) && !Bit(f, 4) && !Bit(f, 6) && !Bit(f, 7)
  {
  }

  /** The flags byte of ESC i K on QL models: bit 0 two-colour printing, bit 3 cut at end, bit 6 600 dpi. */
  function LabelExpandedFlags(cutAtEnd: bool, dpi600: bool, twoColor: bool): byte
  {
    FlagBit(twoColor, 0) + FlagBit(cutAtEnd, 3) + FlagBit(dpi600, 6)
  }

  lemma LabelExpandedFlagsLayout(cutAtEnd: bool, dpi600: bool, twoColor: bool)
    ensures var f := LabelExpandedFlags(cutAtEnd, dpi600, twoColor);
      && Bit(f, 0) == twoColor && Bit(f, 3) == cutAtEnd && Bit(f, 6) == dpi600
      && !Bit(f, 1) && !Bit(f, 2) && !Bit(f, 4) && !Bit(f, 5) && !Bit(f, 7)
  {
  }

  /** Little-endian u16 (struct.pack('<H', v)); only meaningful below 2^16. */
  function LE16(v: nat): seq<byte>
  {
    [v % 256, (v / 256) % 256]
  }

  /** Little-endian u32 (struct.pack('<L', v)); only meaningful below 2^32. */
  function LE32(v: nat): seq<byte>
  {
    LE16(v % TwoTo16) + LE16((v / TwoTo16) % TwoTo16)
  }

  /** The number held by two little-endian bytes. */
  function U16(lo: byte, hi: byte): nat
  {
    lo + 256 * hi
  }

  /** The number held by four little-endian bytes. */
  function U32(s: seq<byte>): nat
    requires |s| == 4
  {
    U16(s[0], s[1]) + TwoTo16 * U16(s[2], s[3])
  }

  lemma LE16Decodes(v: nat)
    requires v < TwoTo16
    ensures |LE16(v)| == 2 && U16(LE16(v)[0], LE16(v)[1]) == v
  {
  }

  lemma LE32Decodes(v: nat)
    requires v < TwoTo32
    ensures |LE32(v)| == 4 && U32(LE32(v)) == v
  {
    var lo, hi := v % TwoTo16, v / TwoTo16;
    assert hi < TwoTo16;
    assert hi % TwoTo16 == hi;
    var s := LE32(v);
    assert s == LE16(lo) + LE16(hi);
    LE16Decodes(lo);
    LE16Decodes(hi);
    assert U16(s[0], s[1]) == lo && U16(s[2], s[3]) == hi;
    assert v == lo + TwoTo16 * hi;
  }

  /** n zero bytes. */
  function Zeros(n: nat): (z: seq<byte>)
    ensures |z| == n && forall i :: 0 <= i < n ==> z[i] == 0
  {
    seq(n, _ => 0)
  }

  /**
   * The commands of the instruction stream. Fields hold the very bytes the
   * command carries; Truncated stands for the bytes of a command whose
   * emission an exception cut short.
   */
  datatype Command =
    | Invalidate(count: nat)                           // count x 00
    | Initialize                                       // 1B 40
    | StatusRequest                                    // 1B 69 53
    | SwitchMode                                       // 1B 69 61 01
    | MediaQuality(flags: byte, mtype: byte, mwidth: byte, mlength: byte,
                   rasterLines: nat, startPage: byte)  // 1B 69 7A f t w l u32 p 00
    | ModeSetting(modeFlags: byte)                     // 1B 69 4D f
    | CutEvery(every: byte)                            // 1B 69 41 n
    | ExpandedMode(expandedFlags: byte)                // 1B 69 4B f
    | Wait(waitArg: byte)                              // 1B 69 77 a
    | Margins(dots: nat)                               // 1B 69 64 u16
    | Compression(compressionArg: byte)                // 4D a
    | TapeRow(payload: seq<byte>)                      // 47 u16 payload
    | MonoRow(payload: seq<byte>)                      // 67 00 n payload
    | ColorRow(plane: byte, payload: seq<byte>)        // 77 p n payload
    | Print                                            // 1A, end of the last page
    | FormFeed                                         // 0C, end of a page that has a successor
    | Truncated(fragment: seq<byte>)

  /** The bytes of one command. */
  function Encode(c: Command): seq<byte>
  {
    match c
    case Invalidate(n) => Zeros(n)
    case Initialize => [0x1B, 0x40]
    case StatusRequest => [0x1B, 0x69, 0x53]
    case SwitchMode => [0x1B, 0x69, 0x61, 0x01]
    case MediaQuality(f, t, w, l, lines, p) => [0x1B, 0x69, 0x7A, f, t, w, l] + LE32(lines) + [p, 0x00]
    case ModeSetting(f) => [0x1B, 0x69, 0x4D, f]
    case CutEvery(n) => [0x1B, 0x69, 0x41, n]
    case ExpandedMode(f) => [0x1B, 0x69, 0x4B, f]
    case Wait(a) => [0x1B, 0x69, 0x77, a]
    case Margins(d) => [0x1B, 0x69, 0x64] + LE16(d)
    case Compression(a) => [0x4D, a]
    case TapeRow(p) => [0x47] + LE16(|p|) + p
    case MonoRow(p) => [0x67, 0x00, |p| % 256] + p
    case ColorRow(plane, p) => [0x77, plane, |p| % 256] + p
    case Print => [0x1A]
    case FormFeed => [0x0C]
    case Truncated(b) => b
  }

  /** The bytes of a sequence of commands, one after the other. */
  function EncodeAll(cs: seq<Command>): seq<byte>
  {
    if cs == [] then [] else Encode(cs[0]) + EncodeAll(cs[1..])
  }

  lemma {:induction false} EncodeAllAppend(a: seq<Command>, b: seq<Command>)
    ensures EncodeAll(a + b) == EncodeAll(a) + EncodeAll(b)
  {
    if a == [] {
      assert a + b == b;
    } else {
      assert (a + b)[1..] == a[1..] + b;
      EncodeAllAppend(a[1..], b);
    }
  }

  lemma EncodeAllOne(c: Command)
    ensures EncodeAll([c]) == Encode(c)
  {
    assert [c][1..] == [];
  }

  /** A command whose fields fit the widths of its encoding (and that was not cut short). */
  predicate WellFormed(c: Command)
  {
    match c
    case Invalidate(n) => n > 0
    case MediaQuality(_, _, _, _, lines, _) => lines < TwoTo32
    case Margins(d) => d < TwoTo16
    case TapeRow(p) => |p| < TwoTo16
    case MonoRow(p) => |p| < 256
    case ColorRow(plane, p) => (plane == 1 || plane == 2) && |p| < 256
    case Truncated(_) => false
    case _ => true
  }

  /**
   * A stream the decoder can split unambiguously: every command well formed and
   * no two runs of invalidate bytes side by side.
   */
  predicate WellFormedStream(cs: seq<Command>)
  {
    && (forall i :: 0 <= i < |cs| ==> WellFormed(cs[i]))
    && (forall i :: 0 <= i < |cs| - 1 ==> !(cs[i].Invalidate? && cs[i + 1].Invalidate?))
  }

  /** The number of leading zero bytes. */
  function ZeroRun(s: seq<byte>): (n: nat)
    ensures n <= |s|
    ensures forall i :: 0 <= i < n ==> s[i] == 0
    ensures n < |s| ==> s[n] != 0
  {
    if s == [] || s[0] != 0 then 0 else 1 + ZeroRun(s[1..])
  }

  /** A row record: a header byte sequence of `header` bytes announcing `n` payload bytes. */
  function Payload(s: seq<byte>, header: nat, n: nat): Option<seq<byte>>
  {
    if |s| >= header + n then Some(s[header..header + n]) else None
  }

  /** Decodes the first command of a non-empty stream, with the number of bytes it occupies. */
  function ParseOne(s: seq<byte>): (r: Option<(Command, nat)>)
    requires |s| > 0
    ensures r.Some? ==> 0 < r.value.1 <= |s|
  {
    var b := s[0];
    if b == 0x00 then
      Some((Invalidate(ZeroRun(s)), ZeroRun(s)))
    else if b == 0x1B then
      if |s| >= 2 && s[1] == 0x40 then Some((Initialize, 2))
      else if |s| < 3 || s[1] != 0x69 then None
      else
        var op := s[2];
        if op == 0x53 then Some((StatusRequest, 3))
        else if op == 0x61 then (if |s| >= 4 && s[3] == 0x01 then Some((SwitchMode, 4)) else None)
        else if op == 0x7A then
          (if |s| >= 13 && s[12] == 0x00
           then Some((MediaQuality(s[3], s[4], s[5], s[6], U32(s[7..11]), s[11]), 13))
           else None)
        else if |s| < 4 then None
        else if op == 0x4D then Some((ModeSetting(s[3]), 4))
        else if op == 0x41 then Some((CutEvery(s[3]), 4))
        else if op == 0x4B then Some((ExpandedMode(s[3]), 4))
        else if op == 0x77 then Some((Wait(s[3]), 4))
        else if op == 0x64 then (if |s| >= 5 then Some((Margins(U16(s[3], s[4])), 5)) else None)
        else None
    else if b == 0x4D then
      if |s| >= 2 then Some((Compression(s[1]), 2)) else None
    else if b == 0x47 then
      if |s| < 3 then None
      else
        var n := U16(s[1], s[2]);
        match Payload(s, 3, n)
        case Some(p) => Some((TapeRow(p), 3 + n))
        case None => None
    else if b == 0x67 then
      if |s| < 3 || s[1] != 0x00 then None
      else
        var n: nat := s[2];
        match Payload(s, 3, n)
        case Some(p) => Some((MonoRow(p), 3 + n))
        case None => None
    else if b == 0x77 then
      if |s| < 3 || (s[1] != 0x01 && s[1] != 0x02) then None
      else
        var n: nat := s[2];
        match Payload(s, 3, n)
        case Some(p) => Some((ColorRow(s[1], p), 3 + n))
        case None => None
    else if b == 0x1A then Some((Print, 1))
    else if b == 0x0C then Some((FormFeed, 1))
    else None
  }

  /** Decodes a whole stream into commands, or None when some part is not a command. */
  function Parse(s: seq<byte>): Option<seq<Command>>
    decreases |s|
  {
    if s == [] then Some([])
    else
      match ParseOne(s)
      case None => None
      case Some((c, k)) =>
        match Parse(s[k..])
        case None => None
        case Some(cs) => Some([c] + cs)
  }

  /** Every encoding but that of an invalidate run starts with a non-zero byte. */
  lemma EncodeStartsNonZero(c: Command)
    requires WellFormed(c) && !c.Invalidate?
    ensures |Encode(c)| > 0 && Encode(c)[0] != 0
  {
  }

  /** A run of n zeros followed by a non-zero byte (or nothing) reads as one run of n. */
  lemma {:induction false} ZeroRunOfZeros(n: nat, t: seq<byte>)
    requires t == [] || t[0] != 0
    ensures ZeroRun(Zeros(n) + t) == n
  {
    if n > 0 {
      assert (Zeros(n) + t)[1..] == Zeros(n - 1) + t;
      ZeroRunOfZeros(n - 1, t);
    } else {
      assert Zeros(n) + t == t;
    }
  }

  /** The decoder reads back exactly one well formed command from the front of a stream. */
  lemma ParseOneEncode(c: Command, t: seq<byte>)
    requires WellFormed(c)
    requires c.Invalidate? ==> t == [] || t[0] != 0
    ensures |Encode(c) + t| > 0
    ensures ParseOne(Encode(c) + t) == Some((c, |Encode(c)|))
  {
    match c
    case Invalidate(n) => ZeroRunOfZeros(n, t);
    case MediaQuality(f, ty, w, l, lines, p) => ParseMediaQuality(f, ty, w, l, lines, p, t);
    case Margins(d) => ParseMargins(d, t);
    case TapeRow(p) => ParseTapeRow(p, t);
    case MonoRow(p) => ParseMonoRow(p, t);
    case ColorRow(plane, p) => ParseColorRow(plane, p, t);
    case Truncated(_) =>
    case _ => ParseShort(c, t);
  }

  lemma ParseMediaQuality(f: byte, ty: byte, w: byte, l: byte, lines: nat, p: byte, t: seq<byte>)
    requires lines < TwoTo32
    ensures ParseOne(Encode(MediaQuality(f, ty, w, l, lines, p)) + t) == Some((MediaQuality(f, ty, w, l, lines, p), 13))
  {
    var s := Encode(MediaQuality(f, ty, w, l, lines, p)) + t;
    LE32Decodes(lines);
    assert s[7..11] == LE32(lines);
  }

  lemma ParseMargins(d: nat, t: seq<byte>)
    requires d < TwoTo16
    ensures ParseOne(Encode(Margins(d)) + t) == Some((Margins(d), 5))
  {
    LE16Decodes(d);
  }

  lemma ParseTapeRow(p: seq<byte>, t: seq<byte>)
    requires |p| < TwoTo16
    ensures ParseOne(Encode(TapeRow(p)) + t) == Some((TapeRow(p), 3 + |p|))
  {
    var s := Encode(TapeRow(p)) + t;
    LE16Decodes(|p|);
    assert U16(s[1], s[2]) == |p|;
    assert s[3..3 + |p|] == p;
  }

  lemma ParseMonoRow(p: seq<byte>, t: seq<byte>)
    requires |p| < 256
    ensures ParseOne(Encode(MonoRow(p)) + t) == Some((MonoRow(p), 3 + |p|))
  {
    var s := Encode(MonoRow(p)) + t;
    assert s[3..3 + |p|] == p;
  }

  lemma ParseColorRow(plane: byte, p: seq<byte>, t: seq<byte>)
    requires (plane == 1 || plane == 2) && |p| < 256
    ensures ParseOne(Encode(ColorRow(plane, p)) + t) == Some((ColorRow(plane, p), 3 + |p|))
  {
    var s := Encode(ColorRow(plane, p)) + t;
    assert s[3..3 + |p|] == p;
  }

  /** The commands of one to four bytes without a length field. */
  lemma ParseShort(c: Command, t: seq<byte>)
    requires c.Initialize? || c.StatusRequest? || c.SwitchMode? || c.ModeSetting? || c.CutEvery?
          || c.ExpandedMode? || c.Wait? || c.Compression? || c.Print? || c.FormFeed?
    ensures |Encode(c) + t| > 0
    ensures ParseOne(Encode(c) + t) == Some((c, |Encode(c)|))
  {
  }

  /** Decoding undoes encoding on every well formed stream. */
  lemma {:induction false} ParseEncodeAll(cs: seq<Command>)
    requires WellFormedStream(cs)
    ensures Parse(EncodeAll(cs)) == Some(cs)
  {
    if cs != [] {
      var rest := cs[1..];
      var t := EncodeAll(rest);
      assert WellFormedStream(rest) by {
        forall i | 0 <= i < |rest| - 1 ensures !(rest[i].Invalidate? && rest[i + 1].Invalidate?) {
          assert rest[i] == cs[i + 1] && rest[i + 1] == cs[i + 2];
        }
      }
      if cs[0].Invalidate? && rest != [] {
        assert !rest[0].Invalidate?;
        EncodeStartsNonZero(rest[0]);
        assert t == Encode(rest[0]) + EncodeAll(rest[1..]);
      }
      ParseOneEncode(cs[0], t);
      var s := EncodeAll(cs);
      assert s == Encode(cs[0]) + t;
      assert s[|Encode(cs[0])|..] == t;
      ParseEncodeAll(rest);
      assert [cs[0]] + rest == cs;
    }
  }
}
