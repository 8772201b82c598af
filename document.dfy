/**
 * The raster document the builder accumulates (its byte buffer and its few
 * mutable fields) and, for every add_* operation of BrotherQLRaster, a pure
 * function giving the document after the call, the commands the call
 * appended and how the call returned. The BrotherQLRaster class is proved
 * against these functions; the page assembler is specified with them.
 */
module Document {
  import opened Wrappers
  import opened Errors
  import opened Protocol
  import opened Devices
  import opened Bitmaps

  /**
   * One media field (_mtype, _mwidth, _mlength): never assigned (reading it
   * raises AttributeError), Python None, or the byte the setter stored.
   */
  datatype MediaByte = Unset | Null | Value(b: byte)

  /** The builder's buffer and per-document fields. */
  datatype Document = Document(
    data: seq<byte>,
    pageNumber: int,
    mtype: MediaByte,
    mwidth: MediaByte,
    mlength: MediaByte,
    pquality: bool,
    compressionEnabled: bool,
    dpi600: bool,
    cutAtEnd: bool,
    twoColorPrinting: bool,
    halfCut: bool,
    noChainPrinting: bool,
    exceptionOnWarning: bool)

  /** The document of a newly constructed builder. */
  const NewDocument: Document :=
    Document([], 0, Unset, Unset, Unset, true, false, false, true, false, true, true, false)

  /** The document after a call, the commands the call appended, and how it returned. */
  datatype Effect = Effect(doc: Document, emitted: seq<Command>, status: Status)

  /** Appends the encodings of the given commands and returns normally. */
  function Emit(d: Document, cs: seq<Command>): Effect
  {
    Effect(d.(data := d.data + EncodeAll(cs)), cs, Done)
  }

  /** Appends the first bytes of a command, then raises. */
  function EmitThenRaise(d: Document, fragment: seq<byte>, e: Error): Effect
  {
    Effect(d.(data := d.data + fragment), [Truncated(fragment)], Raised(e))
  }

  /** _unsupported: raise BrotherQLUnsupportedCmd or log a warning, appending nothing either way. */
  function Unsupported(d: Document): Effect
  {
    Effect(d, [], if d.exceptionOnWarning then Raised(UnsupportedCmd) else Warned)
  }

  /** A refused call leaves the document alone and raises exactly under the raising policy. */
  predicate Refused(d: Document, r: Effect)
  {
    r.doc == d && r.emitted == [] && r.status != Done &&
    (r.status.Raised? <==> d.exceptionOnWarning) &&
    (r.status.Raised? ==> r.status.error == UnsupportedCmd)
  }

  /** Only the buffer grew, by exactly the given bytes. */
  predicate Appended(d: Document, r: Effect, bytes: seq<byte>)
  {
    r.doc == d.(data := d.data + bytes) && r.status == Done
  }

  function AddInitialize(d: Document): (r: Effect)
    ensures r.doc == d.(data := d.data + [0x1B, 0x40], pageNumber := 0) && r.status == Done
  {
    EncodeAllOne(Initialize);
    Emit(d.(pageNumber := 0), [Initialize])
  }

  function AddStatusInformation(d: Document): (r: Effect)
    ensures Appended(d, r, [0x1B, 0x69, 0x53])
  {
    EncodeAllOne(StatusRequest);
    Emit(d, [StatusRequest])
  }

  function AddSwitchMode(d: Document, m: Model): (r: Effect)
    ensures !m.switchMode ==> Refused(d, r)
    ensures m.switchMode ==> Appended(d, r, [0x1B, 0x69, 0x61, 0x01])
  {
    EncodeAllOne(SwitchMode);
    if !m.switchMode then Unsupported(d) else Emit(d, [SwitchMode])
  }

  function AddInvalidate(d: Document, m: Model): (r: Effect)
    ensures r.doc == d.(data := r.doc.data) && r.status == Done
    ensures |r.doc.data| == |d.data| + m.invalidateBytes && r.doc.data[..|d.data|] == d.data
    ensures forall i :: |d.data| <= i < |r.doc.data| ==> r.doc.data[i] == 0
  {
    EncodeAllOne(Invalidate(m.invalidateBytes));
    Emit(d, [Invalidate(m.invalidateBytes)])
  }

  /** The setters mtype, mwidth, mlength store value & 0xFF. */
  function SetMediaType(d: Document, value: int): Document
  {
    d.(mtype := Value(value % 256))
  }

  function SetMediaWidth(d: Document, value: int): Document
  {
    d.(mwidth := Value(value % 256))
  }

  function SetMediaLength(d: Document, value: int): Document
  {
    d.(mlength := Value(value % 256))
  }

  /** The pquality setter stores bool(value). */
  function SetPrintQuality(d: Document, value: int): Document
  {
    d.(pquality := value != 0)
  }

  /** The media byte sent for a field: 00 for None. */
  function MediaValue(f: MediaByte): byte
    requires !f.Unset?
  {
    if f.Null? then 0 else f.b
  }

  /** The page flag of ESC i z: 0 on the first page after initialisation, 1 on later pages. */
  function StartPageFlag(pageNumber: int): byte
  {
    if pageNumber == 0 then 0 else 1
  }

  /** ESC i z, the valid-flags byte and the three media bytes. */
  function MediaHeader(d: Document): seq<byte>
    requires !d.mtype.Unset? && !d.mwidth.Unset? && !d.mlength.Unset?
  {
    [0x1B, 0x69, 0x7A, MediaFlags(d.mtype.Value?, d.mwidth.Value?, d.mlength.Value?, d.pquality),
     MediaValue(d.mtype), MediaValue(d.mwidth), MediaValue(d.mlength)]
  }

  /**
   * add_media_and_quality(rnumber). The header is appended first; a field
   * never assigned then raises AttributeError, and a row count outside
   * 0 .. 2^32 - 1 raises struct.error after the flags and media bytes.
   */
  function AddMediaAndQuality(d: Document, rnumber: int): (r: Effect)
    ensures r.status == Done <==> !d.mtype.Unset? && !d.mwidth.Unset? && !d.mlength.Unset? && 0 <= rnumber < TwoTo32
  {
    var header := [0x1B, 0x69, 0x7A];
    if d.mtype.Unset? || d.mwidth.Unset? || d.mlength.Unset? then
      EmitThenRaise(d, header, AttributeError)
    else
      var c := MediaQuality(MediaFlags(d.mtype.Value?, d.mwidth.Value?, d.mlength.Value?, d.pquality),
                            MediaValue(d.mtype), MediaValue(d.mwidth), MediaValue(d.mlength),
                            if rnumber < 0 then 0 else rnumber, StartPageFlag(d.pageNumber));
      if !(0 <= rnumber < TwoTo32) then
        EmitThenRaise(d, MediaHeader(d), StructError)
      else
        Emit(d.(pageNumber := if d.pageNumber == 0 then 1 else d.pageNumber), [c])
  }

  /**
   * A successful add_media_and_quality appends exactly 13 bytes: ESC i z, the
   * valid-flags byte (bit 7 set, bits 1-3 for the fields that are not None,
   * bit 6 the print quality), the three media bytes (00 for None), the row
   * count as a little-endian u32, the page flag (0 on the first call after
   * add_initialize, 1 afterwards) and 00; page_number is then non-zero.
   */
  lemma MediaAndQualityBytes(d: Document, rnumber: int)
    requires AddMediaAndQuality(d, rnumber).status == Done
    ensures
      var n := |d.data|;
      var r := AddMediaAndQuality(d, rnumber);
      var s := r.doc.data;
      && |s| == n + 13 && s[..n] == d.data
      && s[n..n + 3] == [0x1B, 0x69, 0x7A]
      && Bit(s[n + 3], 7) && Bit(s[n + 3], 6) == d.pquality
      && Bit(s[n + 3], 1) == d.mtype.Value? && Bit(s[n + 3], 2) == d.mwidth.Value?
      && Bit(s[n + 3], 3) == d.mlength.Value?
      && s[n + 4] == MediaValue(d.mtype) && s[n + 5] == MediaValue(d.mwidth) && s[n + 6] == MediaValue(d.mlength)
      && U32(s[n + 7..n + 11]) == rnumber
      && s[n + 11] == (if d.pageNumber == 0 then 0 else 1) && s[n + 12] == 0
      && r.doc.pageNumber != 0
  {
    var r := AddMediaAndQuality(d, rnumber);
    var c := r.emitted[0];
    EncodeAllOne(c);
    MediaLayout(d.data, c.flags, c.mtype, c.mwidth, c.mlength, c.rasterLines, c.startPage);
    MediaFlagsLayout(d.mtype.Value?, d.mwidth.Value?, d.mlength.Value?, d.pquality);
  }

  /** A media field never assigned: AttributeError after the three header bytes. */
  lemma MediaAndQualityUnset(d: Document, rnumber: int)
    requires d.mtype.Unset? || d.mwidth.Unset? || d.mlength.Unset?
    ensures AddMediaAndQuality(d, rnumber) == EmitThenRaise(d, [0x1B, 0x69, 0x7A], AttributeError)
  {
  }

  /**
   * A row count outside 0 .. 2^32 - 1: struct.error after the header, the
   * flags and the three media bytes; page_number is left alone.
   */
  lemma MediaAndQualityOutOfRange(d: Document, rnumber: int)
    requires !d.mtype.Unset? && !d.mwidth.Unset? && !d.mlength.Unset? && !(0 <= rnumber < TwoTo32)
    ensures AddMediaAndQuality(d, rnumber) == EmitThenRaise(d, MediaHeader(d), StructError)
    ensures |MediaHeader(d)| == 7 && MediaHeader(d)[..3] == [0x1B, 0x69, 0x7A]
    ensures MediaHeader(d)[3] == MediaFlags(d.mtype.Value?, d.mwidth.Value?, d.mlength.Value?, d.pquality)
    ensures MediaHeader(d)[4..] == [MediaValue(d.mtype), MediaValue(d.mwidth), MediaValue(d.mlength)]
  {
  }

  /** The successful call in terms of the bytes it appends, piece by piece. */
  lemma MediaAndQualityDone(d: Document, rnumber: int)
    requires !d.mtype.Unset? && !d.mwidth.Unset? && !d.mlength.Unset? && 0 <= rnumber < TwoTo32
    ensures AddMediaAndQuality(d, rnumber).status == Done
    ensures AddMediaAndQuality(d, rnumber).doc
         == d.(data := d.data + (MediaHeader(d) + LE32(rnumber) + [StartPageFlag(d.pageNumber), 0x00]),
               pageNumber := if d.pageNumber == 0 then 1 else d.pageNumber)
  {
    var r := AddMediaAndQuality(d, rnumber);
    EncodeAllOne(r.emitted[0]);
  }

  /** Where each field of ESC i z sits in the stream. */
  lemma MediaLayout(prefix: seq<byte>, flags: byte, t: byte, w: byte, l: byte, lines: nat, page: byte)
    requires lines < TwoTo32
    ensures
      var n := |prefix|;
      var s := prefix + Encode(MediaQuality(flags, t, w, l, lines, page));
      && |s| == n + 13 && s[..n] == prefix && s[n..n + 3] == [0x1B, 0x69, 0x7A]
      && s[n + 3] == flags && s[n + 4] == t && s[n + 5] == w && s[n + 6] == l
      && U32(s[n + 7..n + 11]) == lines && s[n + 11] == page && s[n + 12] == 0
  {
    var n := |prefix|;
    var s := prefix + Encode(MediaQuality(flags, t, w, l, lines, page));
    LE32Decodes(lines);
    assert s[n + 7..n + 11] == LE32(lines);
  }

  function AddModeSetting(d: Document, m: Model, autocut: bool, peeler: bool): (r: Effect)
    ensures !m.cutting ==> Refused(d, r)
    ensures m.cutting ==> Appended(d, r, [0x1B, 0x69, 0x4D, ModeFlags(autocut, peeler)])
  {
    EncodeAllOne(ModeSetting(ModeFlags(autocut, peeler)));
    if !m.cutting then Unsupported(d) else Emit(d, [ModeSetting(ModeFlags(autocut, peeler))])
  }

  /** add_cut_every(n): refused without cutting support, silently nothing on P-touch models. */
  function AddCutEvery(d: Document, m: Model, n: int): (r: Effect)
    ensures !m.cutting ==> Refused(d, r)
    ensures m.cutting && m.isPTouch ==> Appended(d, r, [])
    ensures m.cutting && !m.isPTouch ==> Appended(d, r, [0x1B, 0x69, 0x41, n % 256])
  {
    EncodeAllOne(CutEvery(n % 256));
    if !m.cutting then Unsupported(d)
    else if m.isPTouch then Effect(d, [], Done)
    else Emit(d, [CutEvery(n % 256)])
  }

  /** The flags byte of ESC i K, whose layout depends on the model family. */
  function ExpandedFlags(d: Document, m: Model): byte
  {
    if m.isPTouch then TapeExpandedFlags(d.halfCut, d.noChainPrinting, d.dpi600)
    else LabelExpandedFlags(d.cutAtEnd, d.dpi600, d.twoColorPrinting)
  }

  function AddExpandedMode(d: Document, m: Model): (r: Effect)
    ensures !m.expanded || (d.twoColorPrinting && !m.twoColor) ==> Refused(d, r)
    ensures m.expanded && (d.twoColorPrinting ==> m.twoColor) ==>
      Appended(d, r, [0x1B, 0x69, 0x4B, ExpandedFlags(d, m)])
  {
    EncodeAllOne(ExpandedMode(ExpandedFlags(d, m)));
    if !m.expanded then Unsupported(d)
    else if d.twoColorPrinting && !m.twoColor then Unsupported(d)
    else Emit(d, [ExpandedMode(ExpandedFlags(d, m))])
  }

  /** add_wait(sec): the header is appended, then sec << 1 must fit in a byte. */
  function AddWait(d: Document, sec: int): (r: Effect)
    ensures 0 <= sec < 128 ==> Appended(d, r, [0x1B, 0x69, 0x77, 2 * sec])
    ensures !(0 <= sec < 128) ==> r.doc == d.(data := d.data + [0x1B, 0x69, 0x77]) && r.status == Raised(ValueError)
  {
    if 0 <= sec < 128 then EncodeAllOne(Wait(2 * sec)); Emit(d, [Wait(2 * sec)])
    else EmitThenRaise(d, [0x1B, 0x69, 0x77], ValueError)
  }

  /** add_margins(dots): the header is appended, then dots must fit a little-endian u16. */
  function AddMargins(d: Document, dots: int): (r: Effect)
    ensures 0 <= dots < TwoTo16 ==> Appended(d, r, [0x1B, 0x69, 0x64, dots % 256, dots / 256])
    ensures !(0 <= dots < TwoTo16) ==> r.doc == d.(data := d.data + [0x1B, 0x69, 0x64]) && r.status == Raised(StructError)
  {
    if 0 <= dots < TwoTo16 then EncodeAllOne(Margins(dots)); Emit(d, [Margins(dots)])
    else EmitThenRaise(d, [0x1B, 0x69, 0x64], StructError)
  }

  /** add_compression(c): refused (and compression_enabled kept) on models without the command. */
  function AddCompression(d: Document, m: Model, c: bool): (r: Effect)
    ensures !m.compression ==> Refused(d, r)
    ensures m.compression ==>
      r.doc == d.(data := d.data + [0x4D, if c then 2 else 0], compressionEnabled := c) && r.status == Done
  {
    EncodeAllOne(Compression(if c then 2 else 0));
    if !m.compression then Unsupported(d)
    else Emit(d.(compressionEnabled := c), [Compression(if c then 2 else 0)])
  }

  function AddPrint(d: Document, lastPage: bool): (r: Effect)
    ensures Appended(d, r, [if lastPage then 0x1A else 0x0C])
  {
    EncodeAllOne(if lastPage then Print else FormFeed);
    Emit(d, [if lastPage then Print else FormFeed])
  }

  /** clear(): empties the buffer and keeps every other field. */
  function Clear(d: Document): (r: Effect)
    ensures r.doc == d.(data := []) && r.emitted == [] && r.status == Done
  {
    Effect(d.(data := []), [], Done)
  }

  // ------------------------------------------------------------------
  // Row framing (add_raster_data)
  // ------------------------------------------------------------------

  /** Every frame holds the same number of whole rows of rowLen bytes. */
  predicate FramesOf(frames: seq<seq<byte>>, rowLen: nat, height: nat)
  {
    rowLen > 0 && forall i :: 0 <= i < |frames| ==> |frames[i]| == height * rowLen
  }

  lemma RowWithin(rowLen: nat, height: nat, k: nat)
    requires k < height
    ensures k * rowLen + rowLen <= height * rowLen
  {
    assert k * rowLen + rowLen == (k + 1) * rowLen;
  }

  /** The bytes transmitted for the row at offset start of a frame: the slice, or its packbits encoding. */
  function RowPayload(frame: seq<byte>, start: nat, rowLen: nat, compress: bool, pack: seq<byte> -> seq<byte>): seq<byte>
    requires start + rowLen <= |frame|
  {
    var row := frame[start..start + rowLen];
    if compress then pack(row) else row
  }

  /**
   * The record for plane i: header 47 and a u16 length on P-touch models,
   * 77 01 / 77 02 and a length byte with two planes, 67 00 and a length byte otherwise.
   */
  function Record(isPTouch: bool, twoPlanes: bool, i: nat, payload: seq<byte>): Command
  {
    if isPTouch then TapeRow(payload)
    else if twoPlanes then ColorRow(if i == 0 then 1 else 2, payload)
    else MonoRow(payload)
  }

  /** The framing choices of one add_raster_data call. */
  datatype Framing = Framing(isPTouch: bool, twoPlanes: bool, compress: bool, pack: seq<byte> -> seq<byte>)

  /** The records of row k for planes 0 .. n - 1. */
  function RowGroup(frames: seq<seq<byte>>, rowLen: nat, height: nat, k: nat, n: nat, f: Framing): (g: seq<Command>)
    requires FramesOf(frames, rowLen, height) && k < height && n <= |frames|
    ensures |g| == n
  {
    if n == 0 then []
    else
      RowWithin(rowLen, height, k);
      RowGroup(frames, rowLen, height, k, n - 1, f)
        + [Record(f.isPTouch, f.twoPlanes, n - 1, RowPayload(frames[n - 1], k * rowLen, rowLen, f.compress, f.pack))]
  }

  /** The records of rows 0 .. k - 1, row by row and, within a row, plane by plane. */
  function Records(frames: seq<seq<byte>>, rowLen: nat, height: nat, k: nat, f: Framing): (rs: seq<Command>)
    requires FramesOf(frames, rowLen, height) && k <= height
  {
    if k == 0 then []
    else Records(frames, rowLen, height, k - 1, f) + RowGroup(frames, rowLen, height, k - 1, |frames|, f)
  }

  /** The records of a call that fit their length fields. */
  predicate AllFit(rs: seq<Command>)
  {
    forall j :: 0 <= j < |rs| ==> WellFormed(rs[j])
  }

  /** The planes add_raster_data frames: the image, then the second image if given. */
  function Planes(first: Bitmap, second: Option<Bitmap>): seq<Bitmap>
  {
    if second.Some? then [first, second.value] else [first]
  }

  /** The checks add_raster_data makes before framing anything. */
  function RasterCheck(m: Model, first: Bitmap, second: Option<Bitmap>): Status
  {
    if first.width != PixelWidth(m) then Raised(RasterError)
    else if second.Some? && (second.value.width != first.width || second.value.height != first.height) then Raised(RasterError)
    else Done
  }

  /** The frames of the planes: each plane mirrored and packed. */
  function Frames(planes: seq<Bitmap>, w: nat): (fs: seq<seq<byte>>)
    requires forall i :: 0 <= i < |planes| ==> RowsOfWidth(planes[i].rows, w)
    ensures |fs| == |planes|
    ensures forall i :: 0 <= i < |planes| ==> fs[i] == Frame(planes[i].rows, w)
  {
    seq(|planes|, i requires 0 <= i < |planes| => Frame(planes[i].rows, w))
  }

  /** The records of a whole add_raster_data call whose checks passed. */
  function RasterRecords(d: Document, m: Model, pack: seq<byte> -> seq<byte>, first: Bitmap, second: Option<Bitmap>): seq<Command>
    requires Valid(first) && (second.Some? ==> Valid(second.value)) && m.bytesPerRow > 0
    requires RasterCheck(m, first, second) == Done
  {
    PlanesFrames(m, first, second);
    var planes := Planes(first, second);
    var w := first.width;
    Records(Frames(planes, w), w / 8, first.height, first.height, Framing(m.isPTouch, second.Some?, d.compressionEnabled, pack))
  }

  /** Once the checks pass, every plane has the first image's size and a whole number of bytes per row. */
  lemma PlanesFrames(m: Model, first: Bitmap, second: Option<Bitmap>)
    requires Valid(first) && (second.Some? ==> Valid(second.value)) && m.bytesPerRow > 0
    requires RasterCheck(m, first, second) == Done
    ensures first.width % 8 == 0 && first.width / 8 == m.bytesPerRow
    ensures forall j :: 0 <= j < |Planes(first, second)| ==>
      Planes(first, second)[j].width == first.width && Planes(first, second)[j].height == first.height
      && Valid(Planes(first, second)[j]) && RowsOfWidth(Planes(first, second)[j].rows, first.width)
    ensures FramesOf(Frames(Planes(first, second), first.width), first.width / 8, first.height)
  {
    var planes := Planes(first, second);
    var w := first.width;
    forall j | 0 <= j < |planes|
      ensures planes[j].width == w && planes[j].height == first.height && Valid(planes[j]) && RowsOfWidth(planes[j].rows, w)
    {
      if j == 1 {
        assert planes[j] == second.value;
      }
    }
    var frames := Frames(planes, w);
    forall j | 0 <= j < |frames| ensures |frames[j]| == first.height * (w / 8) {
      assert frames[j] == Frame(planes[j].rows, w);
    }
  }

  /**
   * add_raster_data. A wrong width or a size mismatch raises before anything
   * is framed; a row whose transmitted length does not fit its length field
   * raises ValueError; in both cases the buffer is unchanged, since the
   * records are collected apart and appended only at the end.
   */
  function AddRasterData(d: Document, m: Model, pack: seq<byte> -> seq<byte>, first: Bitmap, second: Option<Bitmap>): (r: Effect)
    requires Valid(first) && (second.Some? ==> Valid(second.value)) && m.bytesPerRow > 0
    ensures RasterCheck(m, first, second) != Done ==> r.doc == d && r.emitted == [] && r.status == Raised(RasterError)
    ensures r.status == Done ==> r.doc == d.(data := d.data + EncodeAll(r.emitted)) && AllFit(r.emitted)
    ensures r.status != Done ==> r.doc == d && r.emitted == [] && r.status.Raised?
  {
    var check := RasterCheck(m, first, second);
    if check != Done then Effect(d, [], check)
    else
      var rs := RasterRecords(d, m, pack, first, second);
      if AllFit(rs) then Emit(d, rs) else Effect(d, [], Raised(ValueError))
  }

  // ------------------------------------------------------------------
  // Properties of the row framing
  // ------------------------------------------------------------------

  /** Entry i of a row group is plane i's record of that row. */
  lemma {:induction false} RowGroupAt(frames: seq<seq<byte>>, rowLen: nat, height: nat, k: nat, n: nat, f: Framing, i: nat)
    requires FramesOf(frames, rowLen, height) && k < height && n <= |frames| && i < n
    ensures k * rowLen + rowLen <= |frames[i]|
    ensures RowGroup(frames, rowLen, height, k, n, f)[i]
         == Record(f.isPTouch, f.twoPlanes, i, RowPayload(frames[i], k * rowLen, rowLen, f.compress, f.pack))
  {
    RowWithin(rowLen, height, k);
    if i < n - 1 {
      RowGroupAt(frames, rowLen, height, k, n - 1, f, i);
    }
  }

  /** Rows 0 .. k - 1 give k records per plane. */
  lemma {:induction false} RecordsLength(frames: seq<seq<byte>>, rowLen: nat, height: nat, k: nat, f: Framing)
    requires FramesOf(frames, rowLen, height) && k <= height
    ensures |Records(frames, rowLen, height, k, f)| == k * |frames|
  {
    if k > 0 {
      RecordsLength(frames, rowLen, height, k - 1, f);
      assert k * |frames| == (k - 1) * |frames| + |frames|;
    }
  }

  /**
   * Record row * planes + i is plane i's record of row `row`: rows go in
   * order and, within a row, plane 0 comes before plane 1.
   */
  lemma {:induction false} RecordAt(frames: seq<seq<byte>>, rowLen: nat, height: nat, k: nat, f: Framing, row: nat, i: nat)
    requires FramesOf(frames, rowLen, height) && k <= height && row < k && i < |frames|
    ensures row * |frames| + i < |Records(frames, rowLen, height, k, f)|
    ensures row * rowLen + rowLen <= |frames[i]|
    ensures Records(frames, rowLen, height, k, f)[row * |frames| + i]
         == Record(f.isPTouch, f.twoPlanes, i, RowPayload(frames[i], row * rowLen, rowLen, f.compress, f.pack))
  {
    var n := |frames|;
    RecordsLength(frames, rowLen, height, k - 1, f);
    RecordsLength(frames, rowLen, height, k, f);
    var prev := Records(frames, rowLen, height, k - 1, f);
    var group := RowGroup(frames, rowLen, height, k - 1, n, f);
    assert Records(frames, rowLen, height, k, f) == prev + group;
    RowIndex(row, k, n, i);
    if row < k - 1 {
      RecordAt(frames, rowLen, height, k - 1, f, row, i);
    } else {
      RowGroupAt(frames, rowLen, height, k - 1, n, f, i);
    }
  }

  /** Where index row * n + i falls among k groups of n. */
  lemma RowIndex(row: nat, k: nat, n: nat, i: nat)
    requires row < k && i < n
    ensures row * n + i < k * n
    ensures row < k - 1 ==> row * n + i < (k - 1) * n
    ensures row == k - 1 ==> row * n + i == (k - 1) * n + i
  {
    assert (row + 1) * n == row * n + n;
    if row < k - 1 {
      assert (row + 1) * n <= (k - 1) * n;
    }
    assert (k - 1) * n + n == k * n;
  }

  /** The row at offset start = k * rowLen lies within every frame. */
  lemma RowInFrame(frames: seq<seq<byte>>, rowLen: nat, height: nat, k: nat, i: nat, start: nat)
    requires FramesOf(frames, rowLen, height) && k < height && i < |frames| && start == k * rowLen
    ensures start + rowLen <= |frames[i]|
  {
    RowWithin(rowLen, height, k);
  }

  /** A record of row k that does not fit its length field spoils the whole call. */
  lemma RowFails(frames: seq<seq<byte>>, rowLen: nat, height: nat, k: nat, i: nat, f: Framing, start: nat)
    requires FramesOf(frames, rowLen, height) && k < height && i < |frames| && start == k * rowLen
    requires start + rowLen <= |frames[i]|
    requires !WellFormed(Record(f.isPTouch, f.twoPlanes, i, RowPayload(frames[i], start, rowLen, f.compress, f.pack)))
    ensures !AllFit(Records(frames, rowLen, height, height, f))
  {
    RecordAt(frames, rowLen, height, height, f, k, i);
  }

  /**
   * The bytes of a row record: 47 and a u16 length whose high byte must stay
   * below 256, or a one-byte length that must itself stay below 256.
   */
  lemma RecordEncoding(isPTouch: bool, twoPlanes: bool, i: nat, p: seq<byte>)
    ensures WellFormed(Record(isPTouch, twoPlanes, i, p)) <==> if isPTouch then |p| / 256 < 256 else |p| < 256
    ensures WellFormed(Record(isPTouch, twoPlanes, i, p)) ==>
      Encode(Record(isPTouch, twoPlanes, i, p))
        == if isPTouch then [0x47, |p| % 256, |p| / 256] + p
           else (if !twoPlanes then [0x67, 0x00] else if i == 0 then [0x77, 0x01] else [0x77, 0x02]) + [|p|] + p
  {
    if isPTouch && |p| / 256 < 256 {
      assert [0x47] + LE16(|p|) + p == [0x47, |p| % 256, |p| / 256] + p;
    }
  }

  lemma AllFitAppend(a: seq<Command>, b: seq<Command>)
    requires AllFit(a) && AllFit(b)
    ensures AllFit(a + b)
  {
    forall j | 0 <= j < |a + b| ensures WellFormed((a + b)[j]) {
      if j >= |a| {
        assert (a + b)[j] == b[j - |a|];
      }
    }
  }

  /** Appending plane i's record of row k to the group of planes 0 .. i - 1. */
  lemma GroupStep(frames: seq<seq<byte>>, rowLen: nat, height: nat, k: nat, i: nat, f: Framing, start: nat)
    requires FramesOf(frames, rowLen, height) && k < height && i < |frames| && start == k * rowLen
    requires start + rowLen <= |frames[i]|
    requires AllFit(RowGroup(frames, rowLen, height, k, i, f))
    requires WellFormed(Record(f.isPTouch, f.twoPlanes, i, RowPayload(frames[i], start, rowLen, f.compress, f.pack)))
    ensures AllFit(RowGroup(frames, rowLen, height, k, i + 1, f))
    ensures EncodeAll(RowGroup(frames, rowLen, height, k, i + 1, f))
         == EncodeAll(RowGroup(frames, rowLen, height, k, i, f))
            + Encode(Record(f.isPTouch, f.twoPlanes, i, RowPayload(frames[i], start, rowLen, f.compress, f.pack)))
  {
    var group := RowGroup(frames, rowLen, height, k, i, f);
    var rec := Record(f.isPTouch, f.twoPlanes, i, RowPayload(frames[i], start, rowLen, f.compress, f.pack));
    assert RowGroup(frames, rowLen, height, k, i + 1, f) == group + [rec];
    EncodeAllAppend(group, [rec]);
    EncodeAllOne(rec);
  }

  /** Every record is a row record: a TapeRow, a MonoRow or a ColorRow. */
  predicate RowRecords(rs: seq<Command>)
  {
    forall j :: 0 <= j < |rs| ==> rs[j].TapeRow? || rs[j].MonoRow? || rs[j].ColorRow?
  }

  lemma {:induction false} RecordsAreRows(frames: seq<seq<byte>>, rowLen: nat, height: nat, k: nat, f: Framing)
    requires FramesOf(frames, rowLen, height) && k <= height
    ensures RowRecords(Records(frames, rowLen, height, k, f))
  {
    if k > 0 {
      RecordsAreRows(frames, rowLen, height, k - 1, f);
      var g := RowGroup(frames, rowLen, height, k - 1, |frames|, f);
      forall j | 0 <= j < |g| ensures g[j].TapeRow? || g[j].MonoRow? || g[j].ColorRow? {
        RowGroupAt(frames, rowLen, height, k - 1, |frames|, f, j);
      }
    }
  }

  /** The payload cut from a plane's frame at row k is that row's payload. */
  lemma FramePayload(rows: seq<seq<bool>>, w: nat, k: nat, compress: bool, pack: seq<byte> -> seq<byte>)
    requires RowsOfWidth(rows, w) && k < |rows|
    ensures k * (w / 8) + w / 8 <= |Frame(rows, w)|
    ensures RowPayload(Frame(rows, w), k * (w / 8), w / 8, compress, pack) == RowPayloadOf(rows[k], compress, pack)
  {
    FrameSlice(rows, w, k);
  }

  /** What add_raster_data transmits for one image row: its bytes, through packbits when compressing. */
  function RowPayloadOf(pixels: seq<bool>, compress: bool, pack: seq<byte> -> seq<byte>): seq<byte>
    requires |pixels| % 8 == 0
  {
    if compress then pack(RowBytes(pixels)) else RowBytes(pixels)
  }

  /**
   * The records of add_raster_data: height x planes of them, and record
   * row * planes + i carries plane i's row `row`, mirrored and packed (and
   * then passed through packbits when compression is enabled). Uncompressed,
   * the payload is width / 8 bytes and unpacks to the row itself.
   */
  lemma RasterRecordAt(d: Document, m: Model, pack: seq<byte> -> seq<byte>, first: Bitmap, second: Option<Bitmap>, row: nat, i: nat)
    requires Valid(first) && (second.Some? ==> Valid(second.value)) && m.bytesPerRow > 0
    requires RasterCheck(m, first, second) == Done
    requires row < first.height && i < |Planes(first, second)|
    ensures |RasterRecords(d, m, pack, first, second)| == first.height * |Planes(first, second)|
    ensures row * |Planes(first, second)| + i < |RasterRecords(d, m, pack, first, second)|
    ensures |Planes(first, second)[i].rows[row]| == first.width && first.width % 8 == 0
    ensures RasterRecords(d, m, pack, first, second)[row * |Planes(first, second)| + i]
         == Record(m.isPTouch, second.Some?, i, RowPayloadOf(Planes(first, second)[i].rows[row], d.compressionEnabled, pack))
    ensures |RowBytes(Planes(first, second)[i].rows[row])| == first.width / 8
    ensures Mirror(UnpackRow(RowBytes(Planes(first, second)[i].rows[row]))) == Planes(first, second)[i].rows[row]
  {
    PlanesFrames(m, first, second);
    var planes := Planes(first, second);
    var w := first.width;
    var frames := Frames(planes, w);
    var f := Framing(m.isPTouch, second.Some?, d.compressionEnabled, pack);
    var pixels := planes[i].rows[row];
    assert RasterRecords(d, m, pack, first, second) == Records(frames, w / 8, first.height, first.height, f);
    RecordsLength(frames, w / 8, first.height, first.height, f);
    RecordAt(frames, w / 8, first.height, first.height, f, row, i);
    assert frames[i] == Frame(planes[i].rows, w);
    FramePayload(planes[i].rows, w, row, d.compressionEnabled, pack);
    RowBytesDecode(pixels);
  }

  /** A successful add_raster_data emits row records and nothing else. */
  lemma RasterRows(d: Document, m: Model, pack: seq<byte> -> seq<byte>, first: Bitmap, second: Option<Bitmap>)
    requires Valid(first) && (second.Some? ==> Valid(second.value)) && m.bytesPerRow > 0
    requires AddRasterData(d, m, pack, first, second).status == Done
    ensures RowRecords(AddRasterData(d, m, pack, first, second).emitted)
  {
    RecordsAreRows(Frames(Planes(first, second), first.width), first.width / 8, first.height, first.height,
                   Framing(m.isPTouch, second.Some?, d.compressionEnabled, pack));
  }

  /**
   * The records of a successful add_raster_data are a well-formed stream:
   * the encoder's own decoder splits the appended bytes back into them.
   */
  lemma RasterDataParses(d: Document, m: Model, pack: seq<byte> -> seq<byte>, first: Bitmap, second: Option<Bitmap>)
    requires Valid(first) && (second.Some? ==> Valid(second.value)) && m.bytesPerRow > 0
    requires AddRasterData(d, m, pack, first, second).status == Done
    ensures var r := AddRasterData(d, m, pack, first, second);
      Parse(r.doc.data[|d.data|..]) == Some(r.emitted)
  {
    var r := AddRasterData(d, m, pack, first, second);
    var planes := Planes(first, second);
    var w := first.width;
    RecordsAreRows(Frames(planes, w), w / 8, first.height, first.height,
                   Framing(m.isPTouch, second.Some?, d.compressionEnabled, pack));
    assert r.doc.data[|d.data|..] == EncodeAll(r.emitted);
    ParseEncodeAll(r.emitted);
  }

  /**
   * Uncompressed rows always fit their length fields when a row is fewer
   * than 256 bytes (every model's bytes-per-row value is): add_raster_data
   * then fails only on its size checks.
   */
  lemma UncompressedRasterFits(d: Document, m: Model, pack: seq<byte> -> seq<byte>, first: Bitmap, second: Option<Bitmap>)
    requires Valid(first) && (second.Some? ==> Valid(second.value)) && 0 < m.bytesPerRow < 256
    requires !d.compressionEnabled
    ensures AddRasterData(d, m, pack, first, second).status == Done <==> RasterCheck(m, first, second) == Done
  {
    if RasterCheck(m, first, second) == Done {
      var rs := RasterRecords(d, m, pack, first, second);
      var planes := Planes(first, second);
      var n := |planes|;
      RecordsLength(Frames(planes, first.width), first.width / 8, first.height, first.height,
                    Framing(m.isPTouch, second.Some?, d.compressionEnabled, pack));
      forall j | 0 <= j < |rs| ensures WellFormed(rs[j]) {
        var row, i := SplitIndex(j, first.height, n);
        RasterRecordAt(d, m, pack, first, second, row, i);
      }
    }
  }

  /** Index j among h groups of n is entry i of group row. */
  lemma SplitIndex(j: nat, h: nat, n: nat) returns (row: nat, i: nat)
    requires j < h * n
    ensures row < h && i < n && j == row * n + i
  {
    row, i := j / n, j % n;
  }
}
