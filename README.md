# brother_ql raster encoder, modelled in Dafny

brother_ql turns images into the raster instruction stream of Brother QL
label printers and PT tape printers. It has two parts.

`BrotherQLRaster` (brother_ql/raster.py) is an append-only builder. Its
byte buffer `data` and a few fields (page number, media type, width and
length, print quality, compression, 600 dpi, cut at end, two-colour
printing, half cut, no chain printing, the raising policy) change with
every `add_*` call. Each call appends one printer command:

- invalidate (a run of zero bytes) and initialize (ESC @);
- status request, switch mode and ESC i z (media and quality);
- mode setting, cut every, expanded mode, wait, margins and compression;
- the raster rows (mirrored, packed eight pixels per byte, optionally
  packbits-compressed);
- print or form feed.

A command the model lacks either raises `BrotherQLUnsupportedCmd` or is
skipped with a warning.

brother_ql/conversion.py drives the builder:

- `preprocess_image` turns, resizes and pads an image for the label and
  the device, and reduces it to one or two 1-bit planes.
- `add_print_page` emits one page.
- `_rasterize_images` checks the label and the red option, sends
  invalidate and initialize, expands copies and runs the page loop.
- `convert` returns one byte string.
- `queue_convert` returns one buffer per page.

The model has these modules, leaves first:

- `Wrappers` and `Errors`: option and result types, the exception classes
  and the way a call returns (normally, after a warning, or raising).
- `Protocol`: the commands as values, their exact bytes, the flag bytes,
  and a decoder proved to undo the encoder.
- `Devices`: the device tables as one value, and the per-model record the
  builder resolves.
- `Bitmaps`: 1-bit planes, mirroring and packing.
- `Binarize`: the threshold, ink and planes stage of `preprocess_image`.
- `Geometry`: sizes, rotation, the die-cut aspect test and the paste
  offset.
- `Preprocess`: `preprocess_image` as a whole.
- `Document`: the builder's state as a value, with one function per `add_*`
  giving the new state, the commands appended and how the call returned.
- `Raster`: the class `BrotherQLRaster`. Its fields change in place, and
  every method is proved to reach the state the matching `Document`
  function describes.
- `Pages` and `PageContents`: `add_print_page` as a function, and what a
  page consists of.
- `Jobs`: `_rasterize_images`, `convert` and `queue_convert` as functions
  of the builder's state.
- `Conversion`: the same operations as imperative methods on a
  `BrotherQLRaster`, each proved equal to its `Jobs`/`Pages` function. The
  page loop is a `while` loop with its invariant.

What the page-level and job-level lemmas establish:

- Only the first page asks for status information and carries page flag 0.
- Only the last page ends with print (1A); every other page ends with a
  form feed (0C).
- Autocut and cut every(1) appear only on the last page when cutting.
- A single image with copies > 1 gives `copies` pages.
- Every `queue_convert` buffer decodes to one page's commands, without the
  invalidate or initialize commands.
- `convert` is the setup bytes (what the buffer held, the invalidate run,
  ESC @) followed by `queue_convert`'s pages joined, and raises exactly
  what it raises.
- Red on a model without two-colour support raises before anything is
  appended.
- The media bytes of ESC i z follow the label kind.
- On continuous media, an image that already has the printable width is
  not padded, so when that width is not the device's pixel width the first
  page raises BrotherQLRasterError (see Findings).

## Model

| member | source | states |
|---|---|---|
| Devices.Resolve | brother_ql/raster.py:50-71 | the constructor's lookups and the checks the methods make against the tables (raster.py lines 98-99, 115, 179, 194, 200, 235, 242-247, and the right-margin addition at conversion.py:174): an unknown name fails with UnknownModel; mode switching, cutting, expanded mode, compression and two-colour support are each exactly membership of the name in its list; P-touch is the "PT" prefix; bytes per row is the model's entry or else the default entry; a model ModelsManager lists gets its invalidate count and compression support, any other 200 bytes and no support; the right-margin addition is the model's entry or else 0 |
| Devices.PixelWidth | brother_ql/raster.py:242-247 | the pixel width is a multiple of 8 and is eight pixels per byte of a row |
| Raster.BrotherQLRaster.constructor | brother_ql/raster.py:50-71 | a new builder holds the resolved model and the initial field values (empty buffer, page 0, media fields never assigned, print quality on, cut at end, half cut, no chain printing, no raising) |
| Raster.NewRaster | brother_ql/raster.py:50-53 | construction fails with BrotherQLUnknownModel exactly for a name missing from the models table; otherwise it yields a fresh builder for the resolved model in the initial state |
| Raster.BrotherQLRaster.Warn | brother_ql/raster.py:73-85 | raises the given error under the raising policy, otherwise only warns |
| Raster.BrotherQLRaster.Unsupported | brother_ql/raster.py:87-95 | raises BrotherQLUnsupportedCmd under the raising policy, otherwise warns, and appends nothing |
| Raster.BrotherQLRaster.AddInitialize | brother_ql/raster.py:101-103 | the builder's new state is Document.AddInitialize of the old one: ESC @ appended, page number 0 |
| Raster.BrotherQLRaster.AddStatusInformation | brother_ql/raster.py:105-107 | the new state is Document.AddStatusInformation: ESC i S appended, nothing else changed |
| Raster.BrotherQLRaster.AddSwitchMode | brother_ql/raster.py:109-118 | the new state and the outcome are Document.AddSwitchMode's: ESC i a 01 when the model supports mode switching, otherwise a refusal |
| Raster.BrotherQLRaster.AddInvalidate | brother_ql/raster.py:120-122 | the new state is Document.AddInvalidate's: the model's number of zero bytes appended |
| Raster.BrotherQLRaster.SetMtype | brother_ql/raster.py:136-138 | the media type becomes value & 0xFF |
| Raster.BrotherQLRaster.SetMwidth | brother_ql/raster.py:140-142 | the media width becomes value & 0xFF |
| Raster.BrotherQLRaster.SetMlength | brother_ql/raster.py:144-146 | the media length becomes value & 0xFF |
| Raster.BrotherQLRaster.SetPquality | brother_ql/raster.py:148-150 | the print quality becomes bool(value) |
| Raster.BrotherQLRaster.AddMediaAndQuality | brother_ql/raster.py:157-175 | the new state and the outcome are Document.AddMediaAndQuality's, including the partial appends before AttributeError and struct.error |
| Raster.BrotherQLRaster.AppendMediaRecord | brother_ql/raster.py:167-175 | the successful tail appends the header, the u32 row count, the page flag and 00, and turns page number 0 into 1 |
| Raster.BrotherQLRaster.AddModeSetting | brother_ql/raster.py:178-188 | the new state and the outcome are Document.AddModeSetting's |
| Raster.BrotherQLRaster.AddCutEvery | brother_ql/raster.py:190-197 | the new state and the outcome are Document.AddCutEvery's |
| Raster.BrotherQLRaster.AddExpandedMode | brother_ql/raster.py:199-216 | the new state and the outcome are Document.AddExpandedMode's |
| Raster.BrotherQLRaster.AddWait | brother_ql/raster.py:218-220 | the new state and the outcome are Document.AddWait's, including the header left behind by a ValueError |
| Raster.BrotherQLRaster.AddMargins | brother_ql/raster.py:222-224 | the new state and the outcome are Document.AddMargins's, including the header left behind by a struct.error |
| Raster.BrotherQLRaster.AddCompression | brother_ql/raster.py:226-240 | the new state and the outcome are Document.AddCompression's |
| Raster.BrotherQLRaster.AddRasterData | brother_ql/raster.py:249-294 | the new state and the outcome are Document.AddRasterData's: the size checks, then the records of every row appended at once or a ValueError with the buffer untouched |
| Raster.BrotherQLRaster.AddPrint | brother_ql/raster.py:296-300 | the new state is Document.AddPrint's: 1A on the last page, 0C otherwise |
| Raster.BrotherQLRaster.Clear | brother_ql/raster.py:302-303 | the buffer is emptied and every other field is kept |
| Raster.FrameRows | brother_ql/raster.py:277-293 | the row loop fails exactly when some record's length does not fit its field; otherwise it yields the encoding of exactly the records, rows in order and planes in order within a row |
| Raster.FrameRow | brother_ql/raster.py:278-292 | one pass of the row loop yields the encoded records of that row for every plane, or shows that the whole call cannot fit |
| Raster.RowRecord | brother_ql/raster.py:282-292 | the bytes of one record (47 and a two-byte length on P-touch models, 77 01 / 77 02 or 67 00 and a one-byte length otherwise, then the row); it fails exactly when the length does not fit |
| Document.AddInitialize | brother_ql/raster.py:101-103 | ESC @ is appended and the page number becomes 0; nothing else changes |
| Document.AddStatusInformation | brother_ql/raster.py:105-107 | only the buffer grows, by ESC i S |
| Document.AddSwitchMode | brother_ql/raster.py:109-118 | without mode switching the call is refused and the state is unchanged; with it, only the buffer grows, by ESC i a 01 |
| Document.AddInvalidate | brother_ql/raster.py:120-122 | the old buffer is kept as a prefix, followed by exactly the model's number of zero bytes; nothing else changes |
| Document.AddMediaAndQuality | brother_ql/raster.py:157-175 | the call returns exactly when all three media fields were assigned and the row count fits an unsigned 32-bit field |
| Document.MediaAndQualityBytes | brother_ql/raster.py:157-175 | a successful call appends 13 bytes: ESC i z, the valid-flags byte (bit 7; bits 1-3 for the fields that are not None; bit 6 the quality), the media bytes (00 for None), the little-endian row count, the page flag (0 only on the first call after initialize) and 00; the page number is then non-zero |
| Document.MediaAndQualityUnset | brother_ql/raster.py:158-165 | a media field never assigned raises AttributeError after the three header bytes |
| Document.MediaAndQualityOutOfRange | brother_ql/raster.py:158-167 | a row count outside 0 to 2^32 - 1 raises struct.error after the header, the flags and the media bytes, with the page number unchanged |
| Document.MediaAndQualityDone | brother_ql/raster.py:157-175 | a successful call appends the header, the row count, the page flag and 00, and sets page number 0 to 1 |
| Document.MediaLayout | brother_ql/raster.py:158-175 | where each field of ESC i z sits in the appended bytes |
| Document.AddModeSetting | brother_ql/raster.py:178-188 | refused without cutting support; otherwise only the buffer grows, by ESC i M and the flags byte |
| Document.AddCutEvery | brother_ql/raster.py:190-197 | refused without cutting support; nothing appended on P-touch models; otherwise ESC i A and n & 0xFF |
| Document.AddExpandedMode | brother_ql/raster.py:199-216 | refused on models without expanded mode, or with two-colour printing on a model without two-colour support; otherwise only the buffer grows, by ESC i K and the family's flags byte |
| Document.AddWait | brother_ql/raster.py:218-220 | for 0 <= sec < 128, ESC i w and sec << 1; otherwise the header stays and ValueError is raised |
| Document.AddMargins | brother_ql/raster.py:222-224 | for dots that fit a u16, ESC i d and the little-endian value; otherwise the header stays and struct.error is raised |
| Document.AddCompression | brother_ql/raster.py:226-240 | refused (compression_enabled kept) without the command; otherwise M and 02 or 00 are appended and compression_enabled records the choice |
| Document.AddPrint | brother_ql/raster.py:296-300 | only the buffer grows, by 1A for the last page and 0C otherwise |
| Document.Clear | brother_ql/raster.py:302-303 | the buffer is emptied, nothing is emitted and every other field is kept |
| Document.AddRasterData | brother_ql/raster.py:249-294 | a wrong pixel width or planes of different sizes raise BrotherQLRasterError with nothing appended; any failure leaves the state unchanged; success appends exactly the encoding of the emitted records, all of which fit their length fields |
| Document.PlanesFrames | brother_ql/raster.py:259-274 | once the checks pass, every plane has the first image's size, and the row length is the model's bytes per row |
| Document.RasterRecordAt | brother_ql/raster.py:268-293 | there are height x planes records: record row * planes + i is plane i's row `row`, mirrored and packed (then passed through packbits when compressing), and uncompressed it unpacks back to that row |
| Document.RasterRows | brother_ql/raster.py:277-293 | a successful call emits row records only |
| Document.RasterDataParses | brother_ql/raster.py:249-294 | the bytes a successful call appends decode back into exactly the records it emitted |
| Document.UncompressedRasterFits | brother_ql/raster.py:277-293 | without compression and with rows under 256 bytes, the call fails only on its size checks |
| Document.RecordEncoding | brother_ql/raster.py:282-292 | a record fits its field exactly when the length high byte (P-touch) or the length itself stays below 256, and its bytes are the header, the length and the row |
| Document.FramePayload | brother_ql/raster.py:277-281 | the payload cut from a plane's frame at row k is that row's bytes, through packbits when compressing |
| Document.RecordAt | brother_ql/raster.py:277-293 | record row * planes + i of the row loop is plane i's record of that row |
| Document.RowFails | brother_ql/raster.py:282-292 | one record that does not fit spoils the whole call |
| Protocol.MediaFlagsLayout | brother_ql/raster.py:159-164 | the valid-flags byte has bit 7 set, bits 1-3 for the present fields, bit 6 for the quality, and no other bit set |
| Protocol.ModeFlagsLayout | brother_ql/raster.py:183-188 | the mode byte has bit 4 for the peeler, bit 6 for autocut, and no other bit set |
| Protocol.TapeExpandedFlagsLayout | brother_ql/raster.py:207-211 | on P-touch models the expanded byte has bit 2 half cut, bit 3 no chain printing, bit 5 600 dpi, and nothing else |
| Protocol.LabelExpandedFlagsLayout | brother_ql/raster.py:212-216 | on QL models the expanded byte has bit 0 two-colour, bit 3 cut at end, bit 6 600 dpi, and nothing else |
| Protocol.LE16Decodes | brother_ql/raster.py:224 | the little-endian u16 encoding is two bytes that decode back to the value |
| Protocol.LE32Decodes | brother_ql/raster.py:167 | the little-endian u32 encoding is four bytes that decode back to the value |
| Protocol.Encode | brother_ql/raster.py:101-300 | the bytes each add_* method appends for its command; Protocol.ParseOneEncode proves them decodable |
| Protocol.Parse | brother_ql/raster.py:101-300 | a decoder for the command stream, the encoding's inverse partner; stated in Protocol.ParseEncodeAll |
| Protocol.ParseOneEncode | brother_ql/raster.py:101-300 | the decoder reads exactly one well-formed command back from the front of its encoding followed by anything else |
| Protocol.ParseEncodeAll | brother_ql/raster.py:101-300 | decoding undoes encoding on every well-formed command stream |
| Protocol.EncodeAllAppend | brother_ql/raster.py:101-300 | the bytes of two command sequences are the bytes of each, one after the other |
| Bitmaps.Mirror | brother_ql/raster.py:270 | flipping left to right keeps the length and sends pixel i to position n - 1 - i |
| Bitmaps.UnpackPack | brother_ql/raster.py:271-272 | packing eight pixels per byte, first pixel in the most significant bit, can be undone |
| Bitmaps.PackUnpack | brother_ql/raster.py:271-272 | unpacking bytes and repacking them gives the same bytes |
| Bitmaps.BitsValueRoundTrip | brother_ql/raster.py:271-272 | the bits of a byte's value, read most significant bit first, are the original bits |
| Bitmaps.ValueBitsRoundTrip | brother_ql/raster.py:271-272 | the value of a number's bits is the number |
| Bitmaps.RowBytesDecode | brother_ql/raster.py:268-272 | the bytes sent for a row unpack and mirror back to the image row |
| Bitmaps.FrameSlice | brother_ql/raster.py:277-279 | slicing the frame at row k gives exactly row k's bytes |
| Binarize.Threshold | brother_ql/conversion.py:185-187 | the threshold option turned into a grey level; its scale, bounds and monotonicity are Binarize.ThresholdScale |
| Binarize.ToPlanes | brother_ql/conversion.py:90-113 | the planes of a canvas: red and black planes in red mode, one grey or dithered plane otherwise; stated in Binarize.ToPlanesSpec |
| Binarize.ThresholdScale | brother_ql/conversion.py:185-187 | the threshold level is (100 - t)% of 255, rounded down, for t between 0 and 100; it is 255 at or below 0 and 0 at or above 100; it falls as t rises; the default 70 gives 76 |
| Binarize.InkOrder | brother_ql/conversion.py:107-112 | after inversion and thresholding, darker pixels ink first; threshold 0 inks everything and threshold 255 only black |
| Binarize.MonoPlane | brother_ql/conversion.py:106-112 | the single plane has the canvas size, and each pixel is the dithered bit or the thresholded inverted grey level |
| Binarize.RedPlane | brother_ql/conversion.py:90-97 | the red plane has the canvas size, and a pixel is inked exactly when the red filter's inverted level reaches the threshold |
| Binarize.BlackPlane | brother_ql/conversion.py:98-104 | the black plane has the canvas size, and a pixel is inked exactly when the black filter's inverted level reaches the threshold |
| Binarize.Subtract | brother_ql/conversion.py:105 | subtracting two planes of equal size gives a plane of that size |
| Binarize.SubtractSeparates | brother_ql/conversion.py:105 | after the subtraction no pixel is both black and red, black ink is only where the black filter inked, and together the planes cover exactly what either filter inked |
| Binarize.ToPlanesSpec | brother_ql/conversion.py:90-113 | two planes exactly in red mode, each of the canvas size; red from the red filter; black from the black filter minus red; otherwise one plane from the grey level or the dither bit |
| Geometry.AutoRotationOrients | brother_ql/conversion.py:64-71 | automatic rotation turns exactly a landscape image on a portrait label or a portrait image on a landscape label; afterwards the image is oriented like the label and keeps its two sides |
| Geometry.AspectWithinExact | brother_ql/conversion.py:75-83 | the integer aspect test decides exactly the rational test abs(w/h - ew/eh) / (ew/eh) < 0.01 |
| Geometry.RealAspect | brother_ql/conversion.py:77-80 | the rational aspect test is the cross-multiplied one |
| Geometry.DieCutLayoutSpec | brother_ql/conversion.py:63-88 | die-cut geometry fails exactly when the rotated image differs from dots_expected and the aspect test rejects it (ValueError) or divides by zero (ZeroDivisionError), or at 600 dpi when the label has printable width but no height (the halving resize raises ValueError); only the division raises ZeroDivisionError; otherwise the content is the printable width by the expected height, on a device-wide canvas, pasted at device width - width - right margin |
| Geometry.ContinuousLayoutAsWrittenSpec | brother_ql/conversion.py:51-62 | continuous geometry as written: a failing 600 dpi halving raises ValueError; otherwise it fails exactly when a resize is needed and the width is zero (ZeroDivisionError) or the target has a zero side (ValueError); a result has the printable width; a resized image has the scaled height and is padded to the device width at device width - width - right margin when narrower; an image that was not resized is left exactly as it was |
| Geometry.ContinuousLayoutSpec | brother_ql/conversion.py:51-62 | continuous geometry with the padding applied in every case: the content has the printable width and the canvas the device width when that fits, with the image pasted at device width - width - right margin; it fails exactly when the code as written does, with the same error and the same content, and differs from it only for an image already at the printable width on a wider device |
| Geometry.RotatedSize | brother_ql/conversion.py:64-73 | Image.rotate(angle, expand=True) on a size: half turns keep it, quarter turns swap the sides, any other angle takes PIL's bounding box; the die-cut orientation it yields is stated in Geometry.AutoRotationOrients |
| Geometry.DieCutAngle | brother_ql/conversion.py:64-73 | the angle a die-cut image turns by: the automatic choice for 'auto' (+90 landscape on portrait, -90 portrait on landscape, else 0), the given angle otherwise; proved to orient the image in Geometry.AutoRotationOrients |
| Geometry.AspectWithin | brother_ql/conversion.py:75-80 | the die-cut aspect test and its ZeroDivisionError for a zero height or a zero expected side; Geometry.AspectWithinExact proves it decides the rational test of the source |
| Geometry.Resize | brother_ql/conversion.py:55-58 | Image.resize in sizes (also at lines 81 and 85): the result has the target size; it raises ValueError exactly when the target differs from the current size and has a zero side |
| Geometry.HalveWidth | brother_ql/conversion.py:54-55 | the 600 dpi resize to half the width (also at lines 84-85): it gives the halved size and raises ValueError exactly for an image one pixel wide or a zero-high image of positive width |
| Geometry.DieCutLayout | brother_ql/conversion.py:63-88 | the die-cut branch of preprocess_image in sizes; its guarantees are Geometry.DieCutLayoutSpec |
| Geometry.ContinuousLayoutAsWritten | brother_ql/conversion.py:51-62 | the continuous branch of preprocess_image as written, padding only an image that was resized; its guarantees are Geometry.ContinuousLayoutAsWrittenSpec |
| Geometry.ContinuousLayout | brother_ql/conversion.py:51-62 | the continuous branch with the padding moved out of the resize branch; its guarantees, and where it differs from the code as written, are Geometry.ContinuousLayoutSpec |
| Geometry.ContinuousUnpaddedAsWritten | brother_ql/conversion.py:56-62 | as written, a 696-wide image on 62 mm endless tape and a 720-dot head keeps a 696-wide canvas; the corrected geometry pads it to 720 at column 12 |
| Geometry.AsWrittenKeepsPrintableWidth | brother_ql/conversion.py:56-62 | as written, an image already at the printable width is never padded, whatever the device width |
| Preprocess.LayoutFor | brother_ql/conversion.py:51-88 | the geometry chosen by the label kind: the continuous branch as written for endless and P-touch tape, the die-cut branch for die-cut and round die-cut labels |
| Preprocess.PreprocessImage | brother_ql/conversion.py:19-113 | preprocess_image: the planes of the laid-out canvas, or the error the geometry raised; its guarantees are Preprocess.PreprocessFitsDevice |
| Preprocess.ToPlanesShape | brother_ql/conversion.py:90-113 | the planes are well-formed bitmaps of the canvas size, two-coloured exactly in red mode |
| Preprocess.PreprocessFitsDevice | brother_ql/conversion.py:19-113 | preprocess_image raises only ValueError or ZeroDivisionError, the second on continuous media exactly when the turned and halved image has no width; its planes are well-formed and two-coloured exactly in red mode; die-cut planes are as wide as the device and dots_expected high; continuous planes keep an image already at the printable width as it is, and otherwise have the device width when the printable width is narrower and the printable width when not |
| Pages.PrintPage | brother_ql/conversion.py:115-165 | add_print_page on the builder's state, each stage after the previous one returned; its buffer, commands, outcome and fields are Pages.PrintPageSpec and Pages.PageStatusOk |
| Pages.MediaSetBySetters | brother_ql/conversion.py:127-139 | the media assignments by label kind and pquality = int(hq), run through the setters in add_print_page's order |
| Pages.PrintPageSpec | brother_ql/conversion.py:115-165 | whatever happens, the buffer holds exactly the bytes add_print_page appended after clear(); it raises what the first failing stage raises; a page that returns is exactly the page's command list and leaves the fields the page describes |
| Pages.PageStatusOk | brother_ql/conversion.py:115-165 | add_print_page returns exactly when the row count fits u32, the feed margin fits u16, compression is not refused under the raising policy and add_raster_data succeeds; otherwise it raises |
| Pages.PrintPageOutcome | brother_ql/conversion.py:115-165 | add_print_page either returns or raises; warnings are absorbed |
| Pages.PrintPageIgnoresData | brother_ql/conversion.py:116 | add_print_page starts with clear(), so what the buffer held before makes no difference |
| PageContents.MediaByKind | brother_ql/conversion.py:127-140 | ESC i z carries 0B, the tape width and the tape length for die-cut labels; 0A, the width and 0 for endless labels; 00, the width and 0 for P-touch tape; the row count is the image height and the page flag says whether this is the first page |
| PageContents.PageSequencing | brother_ql/conversion.py:121-164 | a returned page asks for status exactly when it is the first; it ends with print exactly when it is the last and with a form feed otherwise; autocut and cut every(1) appear only on the last page when cutting; it holds one ESC i z and no invalidate or initialize; its bytes decode back to its commands |
| PageContents.PrintPageGood | brother_ql/conversion.py:115-165 | add_print_page returns or raises; when it returns, its buffer decodes into a page with the page-order facts, and the page number becomes 1 |
| PageContents.PageCommandsParse | brother_ql/conversion.py:115-165 | a page whose row count, margin and rows fit their fields decodes back into its commands |
| Jobs.PlanesOf | brother_ql/conversion.py:208-210 | preprocess_image with the device's pixel width and the label's right margin plus the model's addition; its guarantees are Preprocess.PreprocessFitsDevice |
| Jobs.PageOf | brother_ql/conversion.py:209-215 | one pass: preprocess_image, then add_print_page with the page's is_last and is_first; stated in Jobs.PageOfGood and Jobs.UnpaddedPageRejected |
| Jobs.Setup | brother_ql/conversion.py:190-191 | add_invalidate then add_initialize; its bytes are Jobs.SetupBytes |
| Jobs.RasterizeImages | brother_ql/conversion.py:167-222 | _rasterize_images: label lookup, red refusal, setup and the page loop; stated in Jobs.QueueConvertPages, Jobs.JoinedIsQueued and Jobs.RasterizeIgnoresData |
| Jobs.Convert | brother_ql/conversion.py:224-234 | convert; its relation to queue_convert is Jobs.ConvertJoinsQueue |
| Jobs.QueueConvert | brother_ql/conversion.py:236-241 | queue_convert; its pages are Jobs.QueueConvertPages |
| Jobs.UnpaddedPageRejected | brother_ql/conversion.py:208-214 | on continuous media whose printable width is not the device's, a page whose image already has the printable width raises BrotherQLRasterError in add_raster_data (raster.py:259-261), given a row count and feed margin that fit and no compression refusal |
| Jobs.UnpaddedImageRejected | brother_ql/conversion.py:201-222 | under the same conditions for the first image, queue_convert and convert both raise BrotherQLRasterError |
| Jobs.ToProcess | brother_ql/conversion.py:196-199 | a single image with copies > 1 becomes copies images; otherwise the images are used as given; every entry is one of the images |
| Jobs.PageOfGood | brother_ql/conversion.py:208-215 | one pass of the loop returns or raises, and a pass that returns leaves a good page and page number 1 |
| Jobs.RunPagesGood | brother_ql/conversion.py:201-215 | a loop whose every pass keeps the promise keeps it as a whole: k good pages, one per pass, or an exception |
| Jobs.PassGood | brother_ql/conversion.py:201-215 | every pass of the page loop, picture i with is_first for i == 0 and is_last for the last index, keeps the promise |
| Jobs.LoopPagesGood | brother_ql/conversion.py:201-217 | the page loop starting from page number 0 returns or raises; when it returns, there is one good page per picture |
| Jobs.QueueConvertPages | brother_ql/conversion.py:167-222 | queue_convert raises KeyError for an unknown label, and BrotherQLUnsupportedCmd for red on a model without two-colour support, both with the builder untouched; otherwise it returns one buffer per image to process (copies for one image with copies > 1), each a good page: status request and page flag 0 only on the first, print only on the last |
| Jobs.SetupBytes | brother_ql/conversion.py:190-191 | invalidate then initialize append the model's zero bytes and ESC @, and leave page number 0 |
| Jobs.PageOfIgnoresData | brother_ql/conversion.py:209-214 | preprocess_image followed by add_print_page does not depend on what the buffer held |
| Jobs.RunIgnoresData | brother_ql/conversion.py:201-215 | the page loop from two states differing only in their buffers gives the same pages and the same end |
| Jobs.RasterizeIgnoresData | brother_ql/conversion.py:167-222 | _rasterize_images from states differing only in buffer and page number gives the same result |
| Jobs.JoinedIsQueued | brother_ql/conversion.py:217-222 | with queue=False the result is the queue=True list joined, or the same exception |
| Jobs.ConvertJoinsQueue | brother_ql/conversion.py:224-241 | convert and queue_convert raise the same exceptions; when they return, convert's bytes are the old buffer, the invalidate run, ESC @ and queue_convert's pages one after another |
| Conversion.AddPageHead | brother_ql/conversion.py:116-139 | the builder reaches Pages.PageHead's state: cleared; switch mode sent (a refusal ignored); status request on the first page; media fields and quality set for the label kind |
| Conversion.AddModeBlock | brother_ql/conversion.py:142-146 | the builder reaches Pages.ModeBlock's state and outcome: the mode setting, and cut every(1) after an autocut setting that did not raise |
| Conversion.AddExpandedBlock | brother_ql/conversion.py:150-153 | the builder reaches the state and outcome of add_expanded_mode after dpi_600, cut_at_end and two_color_printing are assigned |
| Conversion.AddPageSettings | brother_ql/conversion.py:141-157 | the builder reaches Pages.PageSettings' state and outcome: both try blocks swallowing BrotherQLUnsupportedCmd, then wait 0 and the feed margin |
| Conversion.AddPageCompression | brother_ql/conversion.py:158-160 | add_compression runs only when ModelsManager lists compression support |
| Conversion.AddPageRows | brother_ql/conversion.py:161-163 | add_raster_data gets the black and red planes in red mode, the single image otherwise |
| Conversion.AddPrintPage | brother_ql/conversion.py:115-165 | the builder ends in the state Pages.PrintPage describes, and the call returns its buffer or raises what PrintPage raises |
| Conversion.AfterMediaStep | brother_ql/conversion.py:141-165 | once ESC i z was attempted, the rest of the page runs only if it did not raise |
| Conversion.AfterSettingsStep | brother_ql/conversion.py:158-165 | once the settings were sent, compression, rows and print run only if add_margins did not raise |
| Conversion.AfterCompressionStep | brother_ql/conversion.py:161-165 | the rows and the closing command run unless the compression setting raised |
| Conversion.AfterRowsStep | brother_ql/conversion.py:164-165 | add_print runs unless add_raster_data raised, and the page's buffer is returned |
| Conversion.RasterizeImages | brother_ql/conversion.py:167-222 | the builder ends in the state and with the result of Jobs.RasterizeImages: label lookup, red check, invalidate, initialize, then the page loop over images_to_process, giving the list or the joined bytes |
| Conversion.PageLoop | brother_ql/conversion.py:201-217 | the loop ends in Jobs.RunPages' state: page_data with one buffer per pass, or the first exception raised |
| Conversion.PrintPass | brother_ql/conversion.py:201-215 | pass i handles picture i, last exactly at the last index and first exactly at 0 |
| Conversion.PrintOne | brother_ql/conversion.py:208-214 | one pass runs preprocess_image then add_print_page, as Jobs.PageOf says |
| Conversion.PassIsPageOf | brother_ql/conversion.py:210-211 | pass i is picture todo[i] with is_last == (i == last index) and is_first == (i == 0) |
| Conversion.LoopStep | brother_ql/conversion.py:201-215 | one more pass extends the loop's state by that pass |
| Jobs.RaisedStays | brother_ql/conversion.py:201-215 | once a pass raised, no later pass runs: the loop ends where it raised |
| Conversion.Convert | brother_ql/conversion.py:224-234 | the builder ends in the state and with the result of Jobs.Convert: setup bytes kept, buffer cleared, pages joined behind them |
| Conversion.QueueConvert | brother_ql/conversion.py:236-241 | the builder ends in the state and with the result of Jobs.QueueConvert: _rasterize_images with queue=True |

## Left out

- Reading images (`Image.open` and the NotImplementedError raised when it fails, conversion.py:202-207) is outside the model; pictures are given as values.
- Pixel operations of the imaging library are supplied by each picture (`Preprocess.Picture.paint`): the colour-mode conversions (alpha flattening, palette), LANCZOS resampling, the HSV filters of `filtered_hsv`, Floyd-Steinberg dithering and the white fill of the canvas. Sizes, rotations, offsets, thresholds and plane arithmetic are exact.
- A rotation that is not a quarter turn: its bounding box comes from PIL's floating-point arithmetic and is supplied as a parameter (`tilt`).
- Geometry.ContinuousLayoutAsWritten: computes the resized height (and its zero test) with exact integer arithmetic, as does Geometry.ContinuousLayout. `int((dots_printable[0] / w) * h)` in floating point can come out one lower, e.g. 927 instead of 928 for 696 / 300 * 400.
- Binarize.Threshold: computed exactly; floating-point rounding of `(100 - t) / 100 * 255` is not modelled.
- Geometry.AspectWithin: the aspect test is decided in exact rational arithmetic, not in floating point.
- Logging: a warning is the status Warned, with no message; `logger.info` and `logger.debug` calls are dropped. Exception messages are not modelled, only the exception classes.
- packbits.encode is a parameter of the builder (`packbits`), not a modelled algorithm.
- The tables of brother_ql.devicedependent and brother_ql.models are given as one value (`Devices.Tables`); devicedependent.py and models.py are not part of this model.
- Every operation that frames rows requires the model's bytes per row to be positive; every entry of the table is.
- The keyword options are one record (`Pages.Options`) whose defaults are `Pages.DefaultOptions`. The string form of `rotate` is taken as already converted by `int()`, so a string `int()` rejects is not modelled. Unknown keywords are not modelled.
- `add_device_information` (raster.py:151-156) appends nothing and is never called, so it is not modelled.
- The None state of a media field (`Document.MediaByte.Null`) can only come from assigning the private attribute directly; it is kept so that ESC i z's None branch is modelled.
- `exception_on_warning`, `half_cut` and `no_chain_printing` are never assigned by the core; the model keeps them as fields that may hold any value.
- Preprocess.PreprocessFitsDevice: does not promise device-wide planes for continuous media whose image already has the printable width, because the code as written leaves such an image unpadded (see Findings).
- A Python image in a boolean context (`if second_image:`) is taken to be true whenever it is present.

## Findings

| source | as written | input that shows it | evidently intended | confidence | as-written member | corrected member |
|---|---|---|---|---|---|---|
| brother_ql/conversion.py:56-62 | for continuous media, the padding to the device width sits inside the branch that resizes an image whose width differs from dots_printable[0] | 62 mm endless tape (696 printable dots) on a 720-dot head with a 696-wide image: the canvas stays 696 wide, and add_raster_data then raises "Wrong pixel width" | pad to the device width whenever the resized image is narrower, whether or not it was resized | not executed | Geometry.ContinuousLayoutAsWritten (shown by Geometry.ContinuousUnpaddedAsWritten and Geometry.AsWrittenKeepsPrintableWidth) | Geometry.ContinuousLayout (proved in Geometry.ContinuousLayoutSpec, which also shows it differs from the code as written only on such inputs); Preprocess.LayoutFor keeps the code as written, and Jobs.UnpaddedImageRejected states what that costs |
