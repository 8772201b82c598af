/**
 * What one page of add_print_page consists of, read off its commands: the
 * status request only on the first page, the closing command, the autocut
 * setting and cut_every(1) only on the last page, exactly one ESC i z, and
 * a byte stream the decoder splits back into exactly those commands.
 */
module PageContents {
  import opened Wrappers
  import opened Errors
  import opened Protocol
  import opened Devices
  import opened Binarize
  import opened Preprocess
  import opened Pages
  import D = Document

  /**
   * The page-order facts about the commands of one page whose ESC i z is
   * media: neither the invalidate run nor the initialize command of the
   * job's start is among them.
   */
  predicate Sequenced(cs: seq<Command>, m: Model, o: Options, isFirst: bool, isLast: bool, media: Command)
  {
    && |cs| > 0 && cs[|cs| - 1] == PrintCommand(isLast)
    && (StatusRequest in cs <==> isFirst)
    && (Print in cs <==> isLast)
    && (FormFeed in cs <==> !isLast)
    && (CutEvery(1) in cs <==> m.cutting && !m.isPTouch && o.cut && isLast)
    && (forall c :: c in cs && c.CutEvery? ==> c == CutEvery(1))
    && (ModeSetting(ModeFlags(o.cut && isLast, o.peeler)) in cs <==> m.cutting)
    && (forall c :: c in cs && c.ModeSetting? ==> c == ModeSetting(ModeFlags(o.cut && isLast, o.peeler)))
    && media in cs
    && (forall c :: c in cs && c.MediaQuality? ==> c == media)
    && Initialize !in cs
    && (forall c :: c in cs ==> !c.Invalidate?)
  }

  /** Every command is well formed and none is a run of invalidate bytes. */
  predicate Clean(cs: seq<Command>)
  {
    forall c :: c in cs ==> WellFormed(c) && !c.Invalidate?
  }

  /** A clean sequence is a stream the decoder splits back into its commands. */
  lemma CleanParses(cs: seq<Command>)
    requires Clean(cs)
    ensures Parse(EncodeAll(cs)) == Some(cs)
  {
    assert WellFormedStream(cs) by {
      forall i | 0 <= i < |cs| ensures WellFormed(cs[i]) && !cs[i].Invalidate? {
        assert cs[i] in cs;
      }
    }
    ParseEncodeAll(cs);
  }

  /** Row records, by membership. */
  lemma RowsByMembership(rows: seq<Command>)
    requires D.RowRecords(rows)
    ensures forall c :: c in rows ==> c.TapeRow? || c.MonoRow? || c.ColorRow?
  {
    forall c | c in rows ensures c.TapeRow? || c.MonoRow? || c.ColorRow? {
      var j :| 0 <= j < |rows| && rows[j] == c;
    }
  }

  /** A command that bears on none of the page-order facts. */
  predicate Neutral(c: Command)
  {
    !(c.StatusRequest? || c.Print? || c.FormFeed? || c.CutEvery? || c.ModeSetting? || c.MediaQuality?
      || c.Invalidate? || c.Initialize? || c.Truncated?)
  }

  predicate AllNeutral(cs: seq<Command>)
  {
    forall c :: c in cs ==> Neutral(c)
  }

  /** The page-order facts of the commands up to ESC i z. */
  predicate StartShape(cs: seq<Command>, isFirst: bool, media: Command)
  {
    && (StatusRequest in cs <==> isFirst)
    && media in cs
    && (forall c :: c in cs ==> c == StatusRequest || c == media || Neutral(c))
  }

  /** The page-order facts of the mode block, the expanded mode, the wait and the margins. */
  predicate SettingsShape(cs: seq<Command>, m: Model, autocut: bool, peeler: bool)
  {
    && (CutEvery(1) in cs <==> m.cutting && !m.isPTouch && autocut)
    && (ModeSetting(ModeFlags(autocut, peeler)) in cs <==> m.cutting)
    && (forall c :: c in cs ==> c == CutEvery(1) || c == ModeSetting(ModeFlags(autocut, peeler)) || Neutral(c))
  }

  lemma StartCommandsShape(d: D.Document, m: Model, spec: LabelSpec, hq: bool, isFirst: bool, height: nat)
    ensures StartShape(StartCommands(d, m, spec, hq, isFirst, height), isFirst, MediaCommand(d.pageNumber, spec, hq, height))
    ensures height < TwoTo32 ==> Clean(StartCommands(d, m, spec, hq, isFirst, height))
  {
  }

  lemma SettingsCommandsShape(d: D.Document, m: Model, autocut: bool, peeler: bool, dpi600: bool, red: bool, feed: nat)
    ensures SettingsShape(SettingsCommands(d, m, autocut, peeler, dpi600, red, feed), m, autocut, peeler)
    ensures feed < TwoTo16 ==> Clean(SettingsCommands(d, m, autocut, peeler, dpi600, red, feed))
  {
    var mode, rest := ModeCommands(m, autocut, peeler), ExpandedCommands(d, m, dpi600, red) + [Wait(0), Margins(feed)];
    assert SettingsCommands(d, m, autocut, peeler, dpi600, red, feed) == mode + rest;
    ModeCommandsShape(m, autocut, peeler);
    RestNeutral(d, m, dpi600, red, feed);
    ShapeThenNeutral(mode, rest, m, autocut, peeler);
    if feed < TwoTo16 {
      CleanAppend(mode, rest);
    }
  }

  lemma ModeCommandsShape(m: Model, autocut: bool, peeler: bool)
    ensures SettingsShape(ModeCommands(m, autocut, peeler), m, autocut, peeler) && Clean(ModeCommands(m, autocut, peeler))
  {
  }

  lemma RestNeutral(d: D.Document, m: Model, dpi600: bool, red: bool, feed: nat)
    ensures AllNeutral(ExpandedCommands(d, m, dpi600, red) + [Wait(0), Margins(feed)])
    ensures feed < TwoTo16 ==> Clean(ExpandedCommands(d, m, dpi600, red) + [Wait(0), Margins(feed)])
  {
  }

  lemma ShapeThenNeutral(cs: seq<Command>, ns: seq<Command>, m: Model, autocut: bool, peeler: bool)
    requires SettingsShape(cs, m, autocut, peeler) && AllNeutral(ns)
    ensures SettingsShape(cs + ns, m, autocut, peeler)
  {
  }

  lemma CleanAppend(a: seq<Command>, b: seq<Command>)
    requires Clean(a) && Clean(b)
    ensures Clean(a + b)
  {
  }

  lemma CompressionCommandsShape(m: Model, compress: bool)
    ensures AllNeutral(CompressionCommands(m, compress)) && Clean(CompressionCommands(m, compress))
  {
  }

  /** The facts of each block give the facts of the page. */
  lemma Compose(start: seq<Command>, settings: seq<Command>, comp: seq<Command>, rows: seq<Command>,
                m: Model, o: Options, isFirst: bool, isLast: bool, media: Command)
    requires media.MediaQuality?
    requires StartShape(start, isFirst, media) && SettingsShape(settings, m, o.cut && isLast, o.peeler)
    requires AllNeutral(comp) && AllNeutral(rows)
    ensures Sequenced(start + settings + comp + rows + [PrintCommand(isLast)], m, o, isFirst, isLast, media)
  {
  }

  /**
   * The page-order facts of a page whose rows are row records: the commands
   * before the rows and the closing command after them decide all of them.
   */
  lemma PageCommandsSequenced(d: D.Document, m: Model, spec: LabelSpec, o: Options, isLast: bool, isFirst: bool,
                              height: nat, red: bool, rows: seq<Command>)
    requires 0 <= spec.feedMargin && D.RowRecords(rows)
    ensures Sequenced(PageCommandsOf(d, m, spec, o, isLast, isFirst, height, red, rows), m, o, isFirst, isLast,
                      MediaCommand(d.pageNumber, spec, o.hq, height))
  {
    StartCommandsShape(d, m, spec, o.hq, isFirst, height);
    SettingsCommandsShape(d, m, o.cut && isLast, o.peeler, o.dpi600, red, spec.feedMargin);
    CompressionCommandsShape(m, o.compress);
    RowsByMembership(rows);
    Compose(StartCommands(d, m, spec, o.hq, isFirst, height),
            SettingsCommands(d, m, o.cut && isLast, o.peeler, o.dpi600, red, spec.feedMargin),
            CompressionCommands(m, o.compress), rows, m, o, isFirst, isLast, MediaCommand(d.pageNumber, spec, o.hq, height));
  }

  /** A page whose row count, margin and rows fit their fields decodes back into its commands. */
  lemma PageCommandsParse(d: D.Document, m: Model, spec: LabelSpec, o: Options, isLast: bool, isFirst: bool,
                          height: nat, red: bool, rows: seq<Command>)
    requires 0 <= spec.feedMargin < TwoTo16 && height < TwoTo32 && D.RowRecords(rows) && D.AllFit(rows)
    ensures Parse(EncodeAll(PageCommandsOf(d, m, spec, o, isLast, isFirst, height, red, rows)))
         == Some(PageCommandsOf(d, m, spec, o, isLast, isFirst, height, red, rows))
  {
    StartCommandsShape(d, m, spec, o.hq, isFirst, height);
    SettingsCommandsShape(d, m, o.cut && isLast, o.peeler, o.dpi600, red, spec.feedMargin);
    CompressionCommandsShape(m, o.compress);
    RowsByMembership(rows);
    forall c | c in rows ensures WellFormed(c) {
      var j :| 0 <= j < |rows| && rows[j] == c;
    }
    CleanCompose(StartCommands(d, m, spec, o.hq, isFirst, height),
                 SettingsCommands(d, m, o.cut && isLast, o.peeler, o.dpi600, red, spec.feedMargin),
                 CompressionCommands(m, o.compress), rows, PrintCommand(isLast));
    CleanParses(PageCommandsOf(d, m, spec, o, isLast, isFirst, height, red, rows));
  }

  lemma CleanCompose(start: seq<Command>, settings: seq<Command>, comp: seq<Command>, rows: seq<Command>, last: Command)
    requires Clean(start) && Clean(settings) && Clean(comp) && Clean(rows) && WellFormed(last) && !last.Invalidate?
    ensures Clean(start + settings + comp + rows + [last])
  {
  }

  /** The rows of a page that returns are row records that fit their length fields. */
  lemma PageRowsFit(d: D.Document, m: Model, pack: seq<byte> -> seq<byte>, planes: Planes, spec: LabelSpec, o: Options)
    requires PlanesValid(planes) && m.bytesPerRow > 0
    requires PageRows(d, m, pack, planes, spec, o).status == Done
    ensures D.RowRecords(PageRows(d, m, pack, planes, spec, o).emitted) && D.AllFit(PageRows(d, m, pack, planes, spec, o).emitted)
  {
    var e := PageDocument(d, m, spec, o, planes.TwoColor?);
    match planes
    case Mono(im) => D.RasterRows(e, m, pack, im, None);
    case TwoColor(b, r) => D.RasterRows(e, m, pack, b, Some(r));
  }

  /**
   * A page add_print_page returns: only the first page asks for status
   * information, the last page ends with print and every other with a form
   * feed, autocut and cut_every(1) only on the last page when cutting, one
   * ESC i z carrying the kind's media bytes and the image height, and the
   * returned buffer decodes back into exactly these commands.
   */
  lemma PageSequencing(d: D.Document, m: Model, pack: seq<byte> -> seq<byte>, planes: Planes, spec: LabelSpec,
                       o: Options, isLast: bool, isFirst: bool)
    requires PlanesValid(planes) && m.bytesPerRow > 0 && PageOk(d, m, pack, planes, spec, o)
    ensures var cs := PageCommands(d, m, pack, planes, spec, o, isLast, isFirst);
      && Sequenced(cs, m, o, isFirst, isLast, MediaCommand(d.pageNumber, spec, o.hq, PlanesSize(planes).h))
      && Parse(EncodeAll(cs)) == Some(cs)
  {
    var rows := PageRows(d, m, pack, planes, spec, o).emitted;
    PageRowsFit(d, m, pack, planes, spec, o);
    PageCommandsSequenced(d, m, spec, o, isLast, isFirst, PlanesSize(planes).h, planes.TwoColor?, rows);
    PageCommandsParse(d, m, spec, o, isLast, isFirst, PlanesSize(planes).h, planes.TwoColor?, rows);
  }

  /**
   * add_print_page returns or raises; when it returns, the buffer decodes
   * into a page with the page-order facts, and the page number is 1 once
   * ESC i z has gone through on a fresh or already started document.
   */
  lemma PrintPageGood(d: D.Document, m: Model, pack: seq<byte> -> seq<byte>, planes: Planes, spec: LabelSpec,
                      o: Options, isLast: bool, isFirst: bool)
    requires PlanesValid(planes) && m.bytesPerRow > 0
    ensures var r := PrintPage(d, m, pack, planes, spec, o, isLast, isFirst);
      r.status == Done || r.status.Raised?
    ensures var r := PrintPage(d, m, pack, planes, spec, o, isLast, isFirst);
      r.status == Done ==>
        && r.doc.pageNumber == (if d.pageNumber == 0 then 1 else d.pageNumber)
        && Parse(r.doc.data).Some?
        && Sequenced(Parse(r.doc.data).value, m, o, isFirst, isLast, MediaCommand(d.pageNumber, spec, o.hq, PlanesSize(planes).h))
  {
    PrintPageSpec(d, m, pack, planes, spec, o, isLast, isFirst);
    PageStatusOk(d, m, pack, planes, spec, o);
    if PageOk(d, m, pack, planes, spec, o) {
      PageSequencing(d, m, pack, planes, spec, o, isLast, isFirst);
      PageNumberAfter(d, m, spec, o, planes.TwoColor?);
    }
  }

  /** The page number of a page's document: 1 once ESC i z has gone through. */
  lemma PageNumberAfter(d: D.Document, m: Model, spec: LabelSpec, o: Options, red: bool)
    ensures PageDocument(d, m, spec, o, red).pageNumber == if d.pageNumber == 0 then 1 else d.pageNumber
  {
  }

  /**
   * ESC i z by label kind: die-cut labels carry media type 0B, the tape
   * width and the tape length; endless labels 0A, the width and 0; P-touch
   * endless tape 00, the width and 0; in every case the row count is the
   * image height and the page flag says whether this is the first page after
   * initialisation.
   */
  lemma MediaByKind(pageNumber: int, spec: LabelSpec, hq: bool, height: nat)
    ensures var c := MediaCommand(pageNumber, spec, hq, height);
      && c.rasterLines == height && c.startPage == (if pageNumber == 0 then 0 else 1)
      && c.flags == MediaFlags(true, true, true, hq)
      && c.mwidth == spec.tapeSize.0 % 256
      && (spec.kind in {DieCut, RoundDieCut} ==> c.mtype == 0x0B && c.mlength == spec.tapeSize.1 % 256)
      && (spec.kind == Endless ==> c.mtype == 0x0A && c.mlength == 0)
      && (spec.kind == PTouchEndless ==> c.mtype == 0x00 && c.mlength == 0)
  {
  }
}
