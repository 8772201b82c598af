/**
 * BrotherQLRaster: the append-only builder of a raster instruction stream.
 * Each method changes the builder's fields in place, as its Python
 * counterpart does, and is proved to leave the builder in exactly the
 * document state the matching function of module Document describes.
 */
module Raster {
  import opened Wrappers
  import opened Errors
  import opened Protocol
  import opened Devices
  import opened Bitmaps
  import D = Document

  class BrotherQLRaster {
    /** The resolved capabilities of the model the builder was created for. */
    const model: Model
    /** packbits.encode, the row compressor. */
    const packbits: seq<byte> -> seq<byte>

    var data: seq<byte>
    var pageNumber: int
    var mtype: D.MediaByte
    var mwidth: D.MediaByte
    var mlength: D.MediaByte
    var pquality: bool
    var compressionEnabled: bool
    var dpi600: bool
    var cutAtEnd: bool
    var twoColorPrinting: bool
    var halfCut: bool
    var noChainPrinting: bool
    var exceptionOnWarning: bool

    /** The builder's fields as a document value. */
    ghost function Doc(): D.Document
      reads this
    {
      D.Document(data, pageNumber, mtype, mwidth, mlength, pquality, compressionEnabled,
                 dpi600, cutAtEnd, twoColorPrinting, halfCut, noChainPrinting, exceptionOnWarning)
    }

    /** __init__ for a model already found in the models table. */
    constructor (caps: Model, pack: seq<byte> -> seq<byte>)
      ensures model == caps && packbits == pack
      ensures Doc() == D.NewDocument
    {
      model := caps;
      packbits := pack;
      data := [];
      pageNumber := 0;
      mtype, mwidth, mlength := D.Unset, D.Unset, D.Unset;
      pquality := true;
      compressionEnabled := false;
      dpi600 := false;
      cutAtEnd := true;
      twoColorPrinting := false;
      halfCut := true;
      noChainPrinting := true;
      exceptionOnWarning := false;
    }

    /** _warn: raise the given error under the raising policy, otherwise only log. */
    method Warn(kind: Error) returns (status: Status)
      ensures status == (if exceptionOnWarning then Raised(kind) else Warned)
    {
      if exceptionOnWarning {
        status := Raised(kind);
      } else {
        status := Warned;
      }
    }

    /** _unsupported: _warn with BrotherQLUnsupportedCmd. */
    method Unsupported() returns (status: Status)
      ensures status == D.Unsupported(Doc()).status
    {
      status := Warn(UnsupportedCmd);
    }

    method AddInitialize()
      modifies this
      ensures Doc() == D.AddInitialize(old(Doc())).doc
    {
      pageNumber := 0;
      data := data + [0x1B, 0x40];
    }

    method AddStatusInformation()
      modifies this
      ensures Doc() == D.AddStatusInformation(old(Doc())).doc
    {
      data := data + [0x1B, 0x69, 0x53];
    }

    method AddSwitchMode() returns (status: Status)
      modifies this
      ensures Doc() == D.AddSwitchMode(old(Doc()), model).doc
      ensures status == D.AddSwitchMode(old(Doc()), model).status
    {
      if !model.switchMode {
        status := Unsupported();
        return;
      }
      data := data + [0x1B, 0x69, 0x61, 0x01];
      status := Done;
    }

    method AddInvalidate()
      modifies this
      ensures Doc() == D.AddInvalidate(old(Doc()), model).doc
    {
      EncodeAllOne(Invalidate(model.invalidateBytes));
      data := data + Zeros(model.invalidateBytes);
    }

    method SetMtype(value: int)
      modifies this
      ensures Doc() == D.SetMediaType(old(Doc()), value)
    {
      mtype := D.Value(value % 256);
    }

    method SetMwidth(value: int)
      modifies this
      ensures Doc() == D.SetMediaWidth(old(Doc()), value)
    {
      mwidth := D.Value(value % 256);
    }

    method SetMlength(value: int)
      modifies this
      ensures Doc() == D.SetMediaLength(old(Doc()), value)
    {
      mlength := D.Value(value % 256);
    }

    method SetPquality(value: int)
      modifies this
      ensures Doc() == D.SetPrintQuality(old(Doc()), value)
    {
      pquality := value != 0;
    }

    method AddMediaAndQuality(rnumber: int) returns (status: Status)
      modifies this
      ensures Doc() == D.AddMediaAndQuality(old(Doc()), rnumber).doc
      ensures status == D.AddMediaAndQuality(old(Doc()), rnumber).status
    {
      if mtype.Unset? || mwidth.Unset? || mlength.Unset? {
        D.MediaAndQualityUnset(Doc(), rnumber);
        data := data + [0x1B, 0x69, 0x7A];
        return Raised(AttributeError);
      }
      var flags := MediaFlags(mtype.Value?, mwidth.Value?, mlength.Value?, pquality);
      var header := [0x1B, 0x69, 0x7A, flags, D.MediaValue(mtype), D.MediaValue(mwidth), D.MediaValue(mlength)];
      if !(0 <= rnumber < TwoTo32) {
        D.MediaAndQualityOutOfRange(Doc(), rnumber);
        data := data + header;
        return Raised(StructError);
      }
      D.MediaAndQualityDone(Doc(), rnumber);
      AppendMediaRecord(header, rnumber);
      status := Done;
    }

    /** The successful tail of add_media_and_quality: the row count, the page flag and 00. */
    method AppendMediaRecord(header: seq<byte>, rnumber: int)
      requires !mtype.Unset? && !mwidth.Unset? && !mlength.Unset? && 0 <= rnumber < TwoTo32
      requires header == D.MediaHeader(Doc())
      modifies this
      ensures Doc() == old(Doc()).(data := old(data) + (header + LE32(rnumber) + [D.StartPageFlag(old(pageNumber)), 0x00]),
                                   pageNumber := if old(pageNumber) == 0 then 1 else old(pageNumber))
    {
      data := data + (header + LE32(rnumber) + [D.StartPageFlag(pageNumber), 0x00]);
      pageNumber := if pageNumber == 0 then 1 else pageNumber;
    }

    method AddModeSetting(autocut: bool, peeler: bool) returns (status: Status)
      modifies this
      ensures Doc() == D.AddModeSetting(old(Doc()), model, autocut, peeler).doc
      ensures status == D.AddModeSetting(old(Doc()), model, autocut, peeler).status
    {
      if !model.cutting {
        status := Unsupported();
        return;
      }
      data := data + [0x1B, 0x69, 0x4D, ModeFlags(autocut, peeler)];
      status := Done;
    }

    method AddCutEvery(n: int) returns (status: Status)
      modifies this
      ensures Doc() == D.AddCutEvery(old(Doc()), model, n).doc
      ensures status == D.AddCutEvery(old(Doc()), model, n).status
    {
      if !model.cutting {
        status := Unsupported();
        return;
      }
      status := Done;
      if model.isPTouch {
        return;
      }
      data := data + [0x1B, 0x69, 0x41, n % 256];
    }

    method AddExpandedMode() returns (status: Status)
      modifies this
      ensures Doc() == D.AddExpandedMode(old(Doc()), model).doc
      ensures status == D.AddExpandedMode(old(Doc()), model).status
    {
      if !model.expanded {
        status := Unsupported();
        return;
      }
      if twoColorPrinting && !model.twoColor {
        status := Unsupported();
        return;
      }
      var flags: byte;
      if model.isPTouch {
        flags := TapeExpandedFlags(halfCut, noChainPrinting, dpi600);
      } else {
        flags := LabelExpandedFlags(cutAtEnd, dpi600, twoColorPrinting);
      }
      data := data + [0x1B, 0x69, 0x4B, flags];
      status := Done;
    }

    method AddWait(sec: int) returns (status: Status)
      modifies this
      ensures Doc() == D.AddWait(old(Doc()), sec).doc
      ensures status == D.AddWait(old(Doc()), sec).status
    {
      data := data + [0x1B, 0x69, 0x77];
      if !(0 <= sec < 128) {
        return Raised(ValueError);
      }
      data := data + [2 * sec];
      status := Done;
    }

    method AddMargins(dots: int) returns (status: Status)
      modifies this
      ensures Doc() == D.AddMargins(old(Doc()), dots).doc
      ensures status == D.AddMargins(old(Doc()), dots).status
    {
      data := data + [0x1B, 0x69, 0x64];
      if !(0 <= dots < TwoTo16) {
        return Raised(StructError);
      }
      data := data + LE16(dots);
      status := Done;
    }

    method AddCompression(compression: bool) returns (status: Status)
      modifies this
      ensures Doc() == D.AddCompression(old(Doc()), model, compression).doc
      ensures status == D.AddCompression(old(Doc()), model, compression).status
    {
      if !model.compression {
        status := Unsupported();
        return;
      }
      compressionEnabled := compression;
      data := data + [0x4D, if compression then 2 else 0];
      status := Done;
    }

    method AddRasterData(image: Bitmap, secondImage: Option<Bitmap>) returns (status: Status)
      requires Valid(image) && (secondImage.Some? ==> Valid(secondImage.value)) && model.bytesPerRow > 0
      modifies this
      ensures Doc() == D.AddRasterData(old(Doc()), model, packbits, image, secondImage).doc
      ensures status == D.AddRasterData(old(Doc()), model, packbits, image, secondImage).status
    {
      if image.width != PixelWidth(model) {
        return Raised(RasterError);
      }
      if secondImage.Some? && (secondImage.value.width != image.width || secondImage.value.height != image.height) {
        return Raised(RasterError);
      }
      D.PlanesFrames(model, image, secondImage);
      var planes := D.Planes(image, secondImage);
      var w := image.width;
      var frames := D.Frames(planes, w);
      var out, ok := FrameRows(frames, w / 8, image.height,
                               D.Framing(model.isPTouch, secondImage.Some?, compressionEnabled, packbits));
      if !ok {
        return Raised(ValueError);
      }
      data := data + out;
      status := Done;
    }

    method AddPrint(lastPage: bool)
      modifies this
      ensures Doc() == D.AddPrint(old(Doc()), lastPage).doc
    {
      if lastPage {
        data := data + [0x1A];
      } else {
        data := data + [0x0C];
      }
    }

    method Clear()
      modifies this
      ensures Doc() == D.Clear(old(Doc())).doc
    {
      data := [];
    }
  }

  /** BrotherQLRaster(model): BrotherQLUnknownModel for a name missing from the models table. */
  method NewRaster(t: Tables, name: string, pack: seq<byte> -> seq<byte>) returns (r: Result<BrotherQLRaster, Error>)
    ensures r.Failure? <==> name !in t.models
    ensures r.Failure? ==> r.error == UnknownModel
    ensures r.Success? ==> fresh(r.value) && r.value.model == Resolve(t, name).value
                           && r.value.packbits == pack && r.value.Doc() == D.NewDocument
  {
    var caps := Resolve(t, name);
    if caps.Failure? {
      return Failure(caps.error);
    }
    var q := new BrotherQLRaster(caps.value, pack);
    return Success(q);
  }

  /** When row k exists among height rows of rowLen bytes. */
  lemma RowsLeft(k: nat, height: nat, rowLen: nat)
    requires rowLen > 0 && k <= height
    ensures k * rowLen + rowLen == (k + 1) * rowLen
    ensures k * rowLen + rowLen <= height * rowLen <==> k < height
  {
    if k < height {
      assert (k + 1) * rowLen <= height * rowLen;
    } else {
      assert k == height;
    }
  }

  /**
   * The row loop of add_raster_data: for every row, for every plane, the
   * record header, the length of the bytes transmitted and those bytes.
   * It fails (ValueError in Python) at the first length that does not fit
   * its field; otherwise it yields the encoding of exactly the records.
   */
  method FrameRows(frames: seq<seq<byte>>, rowLen: nat, height: nat, f: D.Framing) returns (out: seq<byte>, ok: bool)
    requires D.FramesOf(frames, rowLen, height) && |frames| > 0
    ensures ok <==> D.AllFit(D.Records(frames, rowLen, height, height, f))
    ensures ok ==> out == EncodeAll(D.Records(frames, rowLen, height, height, f))
  {
    var frameLen := |frames[0]|;
    var start: nat := 0;
    ghost var k: nat := 0;
    out := [];
    while start + rowLen <= frameLen
      invariant k <= height && start == k * rowLen
      invariant D.AllFit(D.Records(frames, rowLen, height, k, f))
      invariant out == EncodeAll(D.Records(frames, rowLen, height, k, f))
      decreases height - k
    {
      RowsLeft(k, height, rowLen);
      var bytes, fits := FrameRow(frames, rowLen, height, k, start, f);
      if !fits {
        return out, false;
      }
      ghost var done := D.Records(frames, rowLen, height, k, f);
      ghost var group := D.RowGroup(frames, rowLen, height, k, |frames|, f);
      D.AllFitAppend(done, group);
      EncodeAllAppend(done, group);
      out := out + bytes;
      start := start + rowLen;
      k := k + 1;
    }
    RowsLeft(k, height, rowLen);
    ok := true;
  }

  /** One pass of the row loop: the records of row k, plane by plane. */
  method FrameRow(frames: seq<seq<byte>>, rowLen: nat, height: nat, ghost k: nat, start: nat, f: D.Framing)
    returns (bytes: seq<byte>, ok: bool)
    requires D.FramesOf(frames, rowLen, height) && k < height && start == k * rowLen
    ensures ok ==> D.AllFit(D.RowGroup(frames, rowLen, height, k, |frames|, f))
    ensures ok ==> bytes == EncodeAll(D.RowGroup(frames, rowLen, height, k, |frames|, f))
    ensures !ok ==> !D.AllFit(D.Records(frames, rowLen, height, height, f))
  {
    bytes := [];
    var i := 0;
    while i < |frames|
      invariant i <= |frames|
      invariant D.AllFit(D.RowGroup(frames, rowLen, height, k, i, f))
      invariant bytes == EncodeAll(D.RowGroup(frames, rowLen, height, k, i, f))
    {
      D.RowInFrame(frames, rowLen, height, k, i, start);
      var row := D.RowPayload(frames[i], start, rowLen, f.compress, f.pack);
      var record, fits := RowRecord(f.isPTouch, f.twoPlanes, i, row);
      if !fits {
        D.RowFails(frames, rowLen, height, k, i, f, start);
        return bytes, false;
      }
      D.GroupStep(frames, rowLen, height, k, i, f, start);
      bytes := bytes + record;
      i := i + 1;
    }
    ok := true;
  }

  /**
   * The bytes of one row record: 47 and the length as two bytes on P-touch
   * models, otherwise 77 01 / 77 02 (two planes) or 67 00 and the length as
   * one byte; then the row. A length that does not fit (bytes() refuses a
   * value of 256 or more) fails.
   */
  method RowRecord(isPTouch: bool, twoPlanes: bool, i: nat, row: seq<byte>) returns (record: seq<byte>, fits: bool)
    ensures fits <==> WellFormed(D.Record(isPTouch, twoPlanes, i, row))
    ensures fits ==> record == Encode(D.Record(isPTouch, twoPlanes, i, row))
  {
    D.RecordEncoding(isPTouch, twoPlanes, i, row);
    var translen := |row|;
    if isPTouch {
      if translen / 256 >= 256 {
        return [], false;
      }
      record := [0x47, translen % 256, translen / 256] + row;
    } else {
      if translen >= 256 {
        return [], false;
      }
      var header: seq<byte> := [0x67, 0x00];
      if twoPlanes {
        header := if i == 0 then [0x77, 0x01] else [0x77, 0x02];
      }
      record := header + [translen] + row;
    }
    fits := true;
  }
}
