/**
 * The device-dependent tables (models, capability lists, bytes per row,
 * label specifications) as one value, and the per-model record the raster
 * builder resolves from them once, at construction.
 */
module Devices {
  import opened Wrappers
  import opened Errors

  /** Width and height, in dots or pixels. */
  datatype Size = Size(w: nat, h: nat)

  /** The label kinds of devicedependent. */
  datatype LabelKind = Endless | DieCut | RoundDieCut | PTouchEndless

  /** One entry of label_type_specs. */
  datatype LabelSpec = LabelSpec(
    kind: LabelKind,
    dotsPrintable: Size,      // printable dots; height 0 for continuous media
    rightMarginDots: int,
    tapeSize: (int, int),     // physical width and length
    feedMargin: int)

  /** What ModelsManager knows about a model. */
  datatype ManagedModel = ManagedModel(numInvalidateBytes: nat, compressionSupport: bool)

  /** The tables of brother_ql.devicedependent and brother_ql.models, which the model takes as given. */
  datatype Tables = Tables(
    models: set<string>,
    modeSetting: set<string>,
    cuttingSupport: set<string>,
    expandedMode: set<string>,
    compressionSupport: set<string>,
    twoColorSupport: set<string>,
    bytesPerRow: map<string, nat>,
    defaultBytesPerRow: nat,
    managed: map<string, ManagedModel>,
    rightMarginAddition: map<string, int>,
    labels: map<string, LabelSpec>)

  /** Everything the builder needs to know about its model, looked up once. */
  datatype Model = Model(
    name: string,
    isPTouch: bool,            // the name starts with "PT"
    switchMode: bool,          // listed in modesetting
    cutting: bool,             // listed in cuttingsupport
    expanded: bool,            // listed in expandedmode
    compression: bool,         // listed in compressionsupport
    twoColor: bool,            // listed in two_color_support
    bytesPerRow: nat,          // number_bytes_per_row, or its default entry
    invalidateBytes: nat,      // ModelsManager's num_invalidate_bytes, 200 when unlisted
    compressionSupport: bool,  // ModelsManager's compression_support, false when unlisted
    rightMarginAddition: int)  // right_margin_addition, 0 when unlisted

  predicate HasPTouchPrefix(name: string)
  {
    |name| >= 2 && name[..2] == "PT"
  }

  /**
   * The constructor's lookups: an unknown name fails; each capability flag
   * is membership of the name in its list; a model ModelsManager does not
   * list gets 200 invalidate bytes and no compression support, a listed one
   * its own values; bytes per row and the right-margin addition come from
   * the model's entry, or the default entry and 0 when it has none.
   */
  function Resolve(t: Tables, name: string): (r: Result<Model, Error>)
    ensures r.Failure? <==> name !in t.models
    ensures r.Failure? ==> r.error == UnknownModel
    ensures r.Success? ==> r.value.name == name && r.value.isPTouch == HasPTouchPrefix(name)
    ensures r.Success? && name !in t.managed ==> r.value.invalidateBytes == 200 && !r.value.compressionSupport
    ensures r.Success? && name !in t.bytesPerRow ==> r.value.bytesPerRow == t.defaultBytesPerRow
    ensures r.Success? ==> (r.value.cutting <==> name in t.cuttingSupport)
    ensures r.Success? ==> (r.value.switchMode <==> name in t.modeSetting)
    ensures r.Success? ==> (r.value.expanded <==> name in t.expandedMode)
    ensures r.Success? ==> (r.value.compression <==> name in t.compressionSupport)
    ensures r.Success? ==> (r.value.twoColor <==> name in t.twoColorSupport)
    ensures r.Success? && name in t.bytesPerRow ==> r.value.bytesPerRow == t.bytesPerRow[name]
    ensures r.Success? && name in t.managed ==>
      r.value.invalidateBytes == t.managed[name].numInvalidateBytes
      && r.value.compressionSupport == t.managed[name].compressionSupport
    ensures r.Success? ==>
      r.value.rightMarginAddition == if name in t.rightMarginAddition then t.rightMarginAddition[name] else 0
  {
    if name !in t.models then Failure(UnknownModel)
    else
      var managed := if name in t.managed then t.managed[name] else ManagedModel(200, false);
      Success(Model(
        name,
        HasPTouchPrefix(name),
        name in t.modeSetting,
        name in t.cuttingSupport,
        name in t.expandedMode,
        name in t.compressionSupport,
        name in t.twoColorSupport,
        if name in t.bytesPerRow then t.bytesPerRow[name] else t.defaultBytesPerRow,
        managed.numInvalidateBytes,
        managed.compressionSupport,
        if name in t.rightMarginAddition then t.rightMarginAddition[name] else 0))
  }

  /** get_pixel_width: eight pixels per byte of a row. */
  function PixelWidth(m: Model): (w: nat)
    ensures w % 8 == 0 && w / 8 == m.bytesPerRow
  {
    m.bytesPerRow * 8
  }
}
