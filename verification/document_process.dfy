/**
 * The document-process service: the two image preparers (full-height strips
 * and stored regions) and process_diagram, which OCRs the stored regions of
 * every scanned page of a file and stores the tables found under a fresh meta
 * table per page.
 *
 * The image itself plays no part: a prepared segment is the crop rectangle
 * and the size it is resized to, and the OCR service is a function from
 * segments to table fragments.
 */
module DocumentProcess {
  import opened Wrappers
  import opened Geometry
  import opened Tables
  import opened Strips
  import ImageSegments

  // ---------------------------------------------------------------------------
  // prepare_ocr_images: full-height strips

  datatype StripError = ZeroSection | NoStrips

  /** Strip i at full height: from x = s * i to the clipped right edge, y from 0 to h. */
  function FullStrip(w: nat, h: nat, s: nat, i: nat): Box
    requires s > 0
  {
    Box(s * i, 0, StripRight(w, s, i), h)
  }

  /** The strips of a w x h image for section size s; 0 for s divides by zero. */
  function FullStrips(w: nat, h: nat, s: nat): (r: Result<seq<Box>, StripError>)
    ensures r.Err? <==> s == 0 || w == 0
    ensures r.Err? ==> r.error == (if s == 0 then ZeroSection else NoStrips)
    ensures r.Ok? ==> |r.value| == ChunkCount(w, s)
  {
    if s == 0 then Err(ZeroSection)
    else
      PiecesIsCeiling(w, s);
      if Pieces(w, s) == 0 then Err(NoStrips)
      else Ok(seq(Pieces(w, s), i requires 0 <= i < Pieces(w, s) => FullStrip(w, h, s, i)))
  }

  /**
   * The strips of prepare_ocr_images are non-empty, at most s wide and span
   * the whole height; each starts where the previous one ends, the first at
   * x = 0 and the last ends at w.
   */
  lemma FullStripsTile(w: nat, h: nat, s: nat, i: nat)
    requires FullStrips(w, h, s).Ok? && i < |FullStrips(w, h, s).value|
    ensures var b := FullStrips(w, h, s).value[i];
      b.xMin < b.xMax <= b.xMin + s && b.yMin == 0 && b.yMax == h
    ensures i == 0 ==> FullStrips(w, h, s).value[i].xMin == 0
    ensures i + 1 < |FullStrips(w, h, s).value| ==>
      FullStrips(w, h, s).value[i + 1].xMin == FullStrips(w, h, s).value[i].xMax
    ensures i + 1 == |FullStrips(w, h, s).value| ==> FullStrips(w, h, s).value[i].xMax == w
  {
    PiecesIsCeiling(w, s);
    StripEdges(w, s, i);
  }

  /** Every column of the image lies in exactly the strip x / s. */
  lemma FullStripsCover(w: nat, h: nat, s: nat, x: int)
    requires FullStrips(w, h, s).Ok? && 0 <= x < w
    ensures x / s < |FullStrips(w, h, s).value|
    ensures FullStrips(w, h, s).value[x / s].xMin <= x < FullStrips(w, h, s).value[x / s].xMax
  {
    var i := x / s;
    assert i < Pieces(w, s) && s * i <= x < StripRight(w, s, i) by { StripsCoverWidth(w, s, x); }
    StripsAre(w, h, s, i);
  }

  /** Strip i of the list is FullStrip i. */
  lemma StripsAre(w: nat, h: nat, s: nat, i: nat)
    requires FullStrips(w, h, s).Ok? && i < Pieces(w, s)
    ensures i < |FullStrips(w, h, s).value| && FullStrips(w, h, s).value[i] == FullStrip(w, h, s, i)
  {
  }

  /** The strip loop of prepare_ocr_images, raising when it cut nothing. */
  method PrepareOcrImages(w: nat, h: nat, sectionSize: nat) returns (r: Result<seq<Box>, StripError>)
    ensures r == FullStrips(w, h, sectionSize)
  {
    if sectionSize == 0 {
      return Err(ZeroSection);
    }
    var pieces := w / sectionSize;
    pieces := pieces + if w % sectionSize > 0 then 1 else 0;
    var segments: seq<Box> := [];
    for i := 0 to pieces
      invariant |segments| == i
      invariant forall k :: 0 <= k < i ==> segments[k] == FullStrip(w, h, sectionSize, k)
    {
      var x := if sectionSize * (i + 1) > w then sectionSize * i + w % sectionSize else sectionSize * (i + 1);
      segments := segments + [Box(sectionSize * i, 0, x, h)];
    }
    PiecesIsCeiling(w, sectionSize);
    if |segments| == 0 {
      return Err(NoStrips);
    }
    assert segments == FullStrips(w, h, sectionSize).value;
    r := Ok(segments);
  }

  // ---------------------------------------------------------------------------
  // prepare_ocr_image_from_region: one resized crop per region

  /** A prepared image: the crop rectangle and the size the crop is resized to. */
  datatype Segment = Segment(crop: Box, width: nat, height: nat)

  /** The crop raises for a region whose right or lower edge lies before its left or upper edge. */
  datatype PrepareError = NoSegments | BadCrop(index: nat)

  /** Region k is the first whose corners are out of order. */
  predicate FirstUnordered(regions: seq<Box>, k: nat)
  {
    k < |regions| && !OrderedBox(regions[k])
    && forall k' :: 0 <= k' < k ==> OrderedBox(regions[k'])
  }

  /** floor(v * num / den) for the resolution factor num / den. */
  function Scale(v: nat, num: nat, den: nat): (r: nat)
    requires den > 0
    ensures r * den <= v * num < (r + 1) * den
  {
    (v * num) / den
  }

  /** With the factor 1 the size is unchanged. */
  lemma {:induction false} ScaleByOne(v: nat, n: nat)
    requires n > 0
    ensures Scale(v, n, n) == v
  {
    var r := Scale(v, n, n);
    assert r * n <= v * n < (r + 1) * n;
    ImageSegments.MulCancel(v, r + 1, n);
    if r > v {
      ImageSegments.MulMono(v + 1, r, n);
    }
  }

  function CropAndResize(b: Box, num: nat, den: nat): Segment
    requires den > 0 && OrderedBox(b)
  {
    Segment(b, Scale(b.Width(), num, den), Scale(b.Height(), num, den))
  }

  /** The first region (from i on) whose crop raises, if any. */
  function FirstBadRegion(regions: seq<Box>, i: nat): (r: Option<nat>)
    ensures r.Some? ==> (i <= r.value < |regions| && !OrderedBox(regions[r.value])
      && forall k :: i <= k < r.value ==> OrderedBox(regions[k]))
    ensures r.None? ==> forall k :: i <= k < |regions| ==> OrderedBox(regions[k])
    decreases |regions| - i
  {
    if i >= |regions| then None
    else if !OrderedBox(regions[i]) then Some(i)
    else FirstBadRegion(regions, i + 1)
  }

  /**
   * One segment per region, in region order, cropped to that region and
   * resized by the factor num / den; the first bad crop raises, and an empty
   * region list raises after the loop.
   */
  function PreparedRegions(regions: seq<Box>, num: nat, den: nat): (r: Result<seq<Segment>, PrepareError>)
    requires den > 0
    ensures r.Err? <==> |regions| == 0 || exists k :: 0 <= k < |regions| && !OrderedBox(regions[k])
    ensures r == Err(NoSegments) <==> |regions| == 0
    ensures r.Err? && r.error.BadCrop? ==> FirstUnordered(regions, r.error.index)
    ensures r.Ok? ==> |r.value| == |regions| && forall k :: 0 <= k < |regions| ==>
      r.value[k].crop == regions[k]
      && r.value[k].width * den <= regions[k].Width() * num < (r.value[k].width + 1) * den
      && r.value[k].height * den <= regions[k].Height() * num < (r.value[k].height + 1) * den
  {
    var bad := FirstBadRegion(regions, 0);
    if bad.Some? then Err(BadCrop(bad.value))
    else if |regions| == 0 then Err(NoSegments)
    else Ok(seq(|regions|, k requires 0 <= k < |regions| => CropAndResize(regions[k], num, den)))
  }

  /** With the default factor 1 every segment keeps its crop's size. */
  lemma DefaultFactorKeepsSize(regions: seq<Box>, k: nat)
    requires PreparedRegions(regions, 1, 1).Ok? && k < |regions|
    ensures PreparedRegions(regions, 1, 1).value[k].width == regions[k].Width()
    ensures PreparedRegions(regions, 1, 1).value[k].height == regions[k].Height()
  {
    ScaleByOne(regions[k].Width(), 1);
    ScaleByOne(regions[k].Height(), 1);
  }

  /** The region loop of prepare_ocr_image_from_region. */
  method PrepareOcrImageFromRegion(regions: seq<Box>, num: nat, den: nat) returns (r: Result<seq<Segment>, PrepareError>)
    requires den > 0
    ensures r == PreparedRegions(regions, num, den)
  {
    var segments: seq<Segment> := [];
    for k := 0 to |regions|
      invariant |segments| == k
      invariant forall k' :: 0 <= k' < k ==> OrderedBox(regions[k'])
      invariant forall k' :: 0 <= k' < k ==> segments[k'] == CropAndResize(regions[k'], num, den)
    {
      var region := regions[k];
      if region.xMax < region.xMin || region.yMax < region.yMin {
        assert FirstBadRegion(regions, 0) == Some(k);
        return Err(BadCrop(k));
      }
      var w := region.xMax - region.xMin;
      var h := region.yMax - region.yMin;
      segments := segments + [Segment(region, (w * num) / den, (h * num) / den)];
    }
    assert FirstBadRegion(regions, 0) == None;
    if |segments| == 0 {
      return Err(NoSegments);
    }
    assert segments == PreparedRegions(regions, num, den).value;
    r := Ok(segments);
  }

  // ---------------------------------------------------------------------------
  // Stored rows

  /** A stored region, its coordinates in the order the table declares them. */
  datatype StoredRegion = StoredRegion(xMin: int, xMax: int, yMin: int, yMax: int)

  /** The list process_diagram builds from a stored region: [x_min, y_min, x_max, y_max]. */
  function RegionList(r: StoredRegion): seq<int>
  {
    [r.xMin, r.yMin, r.xMax, r.yMax]
  }

  /** The preparer's unpacking `x_min, y_min, x_max, y_max = region`. */
  function Unpack(l: seq<int>): Box
    requires |l| == 4
  {
    Box(l[0], l[1], l[2], l[3])
  }

  /** Listing and unpacking put every stored coordinate at its own corner of the crop. */
  function RegionBox(r: StoredRegion): (b: Box)
    ensures b.xMin == r.xMin && b.xMax == r.xMax && b.yMin == r.yMin && b.yMax == r.yMax
    ensures b.Width() == r.xMax - r.xMin && b.Height() == r.yMax - r.yMin
  {
    Unpack(RegionList(r))
  }

  function RegionBoxes(rs: seq<StoredRegion>): (bs: seq<Box>)
    ensures |bs| == |rs| && forall k :: 0 <= k < |rs| ==> bs[k] == RegionBox(rs[k])
  {
    seq(|rs|, k requires 0 <= k < |rs| => RegionBox(rs[k]))
  }

  datatype StoredCell = StoredCell(
    kind: string, rowIndex: nat, colIndex: nat, colSpan: nat, rowSpan: nat, content: string, selectable: bool)

  datatype StoredTable = StoredTable(
    colCount: nat, rowCount: nat, polygon: seq<int>, metatableId: nat, cells: seq<StoredCell>)

  function StoreCell(c: TableCell): StoredCell
  {
    StoredCell(c.kind, c.rowIndex, c.colIndex, c.colSpan, c.rowSpan, c.content, false)
  }

  /** The cell a stored row stands for, read back without its selection flag. */
  function LoadCell(s: StoredCell): TableCell
  {
    TableCell(s.kind, s.rowIndex, s.colIndex, s.rowSpan, s.colSpan, s.content)
  }

  /** Storing keeps every field of a cell and starts it unselected. */
  lemma StoreCellRoundTrip(c: TableCell)
    ensures LoadCell(StoreCell(c)) == c
    ensures !StoreCell(c).selectable
  {
  }

  function StoredCells(cs: seq<TableCell>): (r: seq<StoredCell>)
    ensures |r| == |cs| && forall k :: 0 <= k < |cs| ==> r[k] == StoreCell(cs[k])
  {
    seq(|cs|, k requires 0 <= k < |cs| => StoreCell(cs[k]))
  }

  /** The row stored for an OCR table: its counts and cells, polygon [0, 0, 0, 0], under meta table id. */
  function StoreTable(t: TableData, id: nat): (s: StoredTable)
    ensures s.polygon == [0, 0, 0, 0] && s.metatableId == id
    ensures s.colCount == t.colCount && s.rowCount == t.rowCount
    ensures |s.cells| == |t.cells|
    ensures forall k :: 0 <= k < |t.cells| ==> LoadCell(s.cells[k]) == t.cells[k] && !s.cells[k].selectable
  {
    StoredTable(t.colCount, t.rowCount, [0, 0, 0, 0], id, StoredCells(t.cells))
  }

  /** The cell loop of process_diagram. */
  method CopyCells(cells: seq<TableCell>) returns (out: seq<StoredCell>)
    ensures out == StoredCells(cells)
  {
    out := [];
    for k := 0 to |cells|
      invariant out == StoredCells(cells[..k])
    {
      var cell := cells[k];
      out := out + [StoredCell(cell.kind, cell.rowIndex, cell.colIndex, cell.colSpan, cell.rowSpan, cell.content, false)];
    }
    assert cells[..|cells|] == cells;
  }

  /** Every table the OCR service finds in the segments, in order, stored under id. */
  function StoredFromSegments(ocr: Segment -> seq<TableData>, segs: seq<Segment>, id: nat): seq<StoredTable>
  {
    if segs == [] then []
    else
      var last := |segs| - 1;
      StoredFromSegments(ocr, segs[..last], id) + StoreAll(ocr(segs[last]), id)
  }

  function StoreAll(ts: seq<TableData>, id: nat): (r: seq<StoredTable>)
    ensures |r| == |ts| && forall k :: 0 <= k < |ts| ==> r[k] == StoreTable(ts[k], id)
  {
    seq(|ts|, k requires 0 <= k < |ts| => StoreTable(ts[k], id))
  }

  /** A stored table as process_diagram writes it: zero polygon, unselected cells, one of the given meta tables. */
  predicate WellStored(s: StoredTable, ids: nat)
  {
    s.polygon == [0, 0, 0, 0] && 1 <= s.metatableId <= ids
    && forall k :: 0 <= k < |s.cells| ==> !s.cells[k].selectable
  }

  /** Every stored table in the trace is well stored under its meta tables. */
  predicate AllWellStored(t: Trace)
  {
    forall k :: 0 <= k < |t.tables| ==> WellStored(t.tables[k], |t.metaTables|)
  }

  lemma {:induction false} StoredFromSegmentsWell(ocr: Segment -> seq<TableData>, segs: seq<Segment>, id: nat, ids: nat)
    requires 1 <= id <= ids
    ensures forall k :: 0 <= k < |StoredFromSegments(ocr, segs, id)| ==>
      WellStored(StoredFromSegments(ocr, segs, id)[k], ids) && StoredFromSegments(ocr, segs, id)[k].metatableId == id
  {
    if segs != [] {
      StoredFromSegmentsWell(ocr, segs[..|segs| - 1], id, ids);
    }
  }

  // ---------------------------------------------------------------------------
  // The meta-table store

  /**
   * The meta_table and table_data rows. Meta table ids are assigned in
   * creation order, so the meta table at position k has id k + 1.
   */
  class MetaTableStore {
    var metaTables: seq<nat>
    var tables: seq<StoredTable>

    constructor()
      ensures metaTables == [] && tables == []
    {
      metaTables := [];
      tables := [];
    }

    /** create_meta_table: a new meta table of the project; its id is returned. */
    method CreateMetaTable(projectId: nat) returns (id: nat)
      modifies this
      ensures metaTables == old(metaTables) + [projectId] && tables == old(tables)
      ensures id == |metaTables|
    {
      metaTables := metaTables + [projectId];
      id := |metaTables|;
    }

    /** insert_tables_in_meta_table: the tables and their cells, in list order. */
    method InsertTables(ts: seq<StoredTable>)
      modifies this
      ensures tables == old(tables) + ts && metaTables == old(metaTables)
    {
      tables := tables + ts;
    }
  }

  // ---------------------------------------------------------------------------
  // process_diagram

  /** A scanned page of a file with its stored regions. */
  datatype ScannedFile = ScannedFile(id: nat, fileName: string, regions: seq<StoredRegion>)

  datatype FileRecord = FileRecord(fileName: Option<string>, scannedFiles: seq<ScannedFile>)

  /** What process_diagram does: returns None, returns {"metatable_id": id}, or raises. */
  datatype Outcome = NoFile | Processed(metatableId: Option<nat>) | Raised

  /** The store and the loop variable metatable_id after some scanned files; `raised` once a crop failed. */
  datatype Trace = Trace(metaTables: seq<nat>, tables: seq<StoredTable>, last: Option<nat>, raised: bool)

  /** One scanned file: skipped without regions, else its regions OCRed under a new meta table. */
  function StepFile(t: Trace, f: ScannedFile, projectId: nat, ocr: Segment -> seq<TableData>): Trace
  {
    if t.raised || |f.regions| == 0 then t
    else
      var prepared := PreparedRegions(RegionBoxes(f.regions), 1, 1);
      if prepared.Err? then t.(raised := true)
      else
        var id := |t.metaTables| + 1;
        Trace(t.metaTables + [projectId], t.tables + StoredFromSegments(ocr, prepared.value, id), Some(id), false)
  }

  function RunFiles(files: seq<ScannedFile>, projectId: nat, ocr: Segment -> seq<TableData>, t: Trace): Trace
  {
    if files == [] then t
    else StepFile(RunFiles(files[..|files| - 1], projectId, ocr, t), files[|files| - 1], projectId, ocr)
  }

  function HasRegions(f: ScannedFile): bool
  {
    |f.regions| > 0
  }

  /** The scanned files that have at least one region, in order. */
  function WithRegions(files: seq<ScannedFile>): (r: seq<ScannedFile>)
    ensures |r| <= |files|
    ensures forall k :: 0 <= k < |r| ==> HasRegions(r[k])
    ensures forall f :: f in files && HasRegions(f) ==> f in r
    ensures forall f :: f in r ==> f in files
  {
    if files == [] then []
    else
      var last := |files| - 1;
      WithRegions(files[..last]) + (if HasRegions(files[last]) then [files[last]] else [])
  }
  /** The files with regions of a concatenation are those of each part, in order. */
  lemma {:induction false} WithRegionsConcat(a: seq<ScannedFile>, b: seq<ScannedFile>)
    decreases |b|
    ensures WithRegions(a + b) == WithRegions(a) + WithRegions(b)
  {
    if b == [] {
      assert a + b == a;
    } else {
      var last := |b| - 1;
      assert (a + b)[..|a + b| - 1] == a + b[..last];
      assert (a + b)[|a + b| - 1] == b[last];
      WithRegionsConcat(a, b[..last]);
    }
  }

  /** A single file is kept exactly when it has a region. */
  lemma WithRegionsOne(x: ScannedFile)
    ensures WithRegions([x]) == if HasRegions(x) then [x] else []
  {
    assert [x][..0] == [];
  }


  /** Files without regions change nothing: the run over all files is the run over those with regions. */
  lemma {:induction false} RunSkipsFilesWithoutRegions(
    files: seq<ScannedFile>, projectId: nat, ocr: Segment -> seq<TableData>, t: Trace)
    ensures RunFiles(files, projectId, ocr, t) == RunFiles(WithRegions(files), projectId, ocr, t)
  {
    if files != [] {
      var last := |files| - 1;
      RunSkipsFilesWithoutRegions(files[..last], projectId, ocr, t);
      if HasRegions(files[last]) {
        var w := WithRegions(files[..last]) + [files[last]];
        assert WithRegions(files) == w;
        assert w[..|w| - 1] == WithRegions(files[..last]) && w[|w| - 1] == files[last];
      } else {
        assert WithRegions(files) == WithRegions(files[..last]);
      }
    }
  }

  /**
   * Starting from metatable_id = None: the result is None exactly when no
   * file has regions (and nothing raised); otherwise it is the id of the
   * meta table created last, one per file with regions.
   */
  lemma {:induction false} RunLastIsLastCreated(
    files: seq<ScannedFile>, projectId: nat, ocr: Segment -> seq<TableData>, t: Trace)
    requires t.last.None? && !t.raised
    ensures var u := RunFiles(files, projectId, ocr, t);
      !u.raised ==> (u.last.None? <==> forall k :: 0 <= k < |files| ==> !HasRegions(files[k]))
    ensures var u := RunFiles(files, projectId, ocr, t);
      u.last.Some? ==> u.last.value == |u.metaTables| && |u.metaTables| > |t.metaTables|
    ensures var u := RunFiles(files, projectId, ocr, t);
      t.metaTables <= u.metaTables && t.tables <= u.tables
  {
    if files != [] {
      var last := |files| - 1;
      RunLastIsLastCreated(files[..last], projectId, ocr, t);
      var u := RunFiles(files[..last], projectId, ocr, t);
      var v := RunFiles(files, projectId, ocr, t);
      assert forall k :: 0 <= k < last ==> files[..last][k] == files[k];
      if !u.raised && HasRegions(files[last]) {
        var prepared := PreparedRegions(RegionBoxes(files[last].regions), 1, 1);
      }
    }
  }

  /** Every table a run stores has polygon [0, 0, 0, 0], unselected cells and the id of a meta table it created. */
  lemma {:induction false} RunStoresWell(files: seq<ScannedFile>, projectId: nat, ocr: Segment -> seq<TableData>, t: Trace)
    requires AllWellStored(t)
    ensures AllWellStored(RunFiles(files, projectId, ocr, t))
  {
    if files != [] {
      var last := |files| - 1;
      RunStoresWell(files[..last], projectId, ocr, t);
      var u := RunFiles(files[..last], projectId, ocr, t);
      if !u.raised && HasRegions(files[last]) {
        var prepared := PreparedRegions(RegionBoxes(files[last].regions), 1, 1);
        if prepared.Ok? {
          var id := |u.metaTables| + 1;
          StoredFromSegmentsWell(ocr, prepared.value, id, id);
          forall k | 0 <= k < |u.tables|
            ensures WellStored(u.tables[k], id)
          {
            assert WellStored(u.tables[k], |u.metaTables|);
          }
        }
      }
    }
  }

  /** The segment and table loops for one scanned file. */
  method OcrSegments(ocr: Segment -> seq<TableData>, segs: seq<Segment>, id: nat) returns (tableList: seq<StoredTable>)
    ensures tableList == StoredFromSegments(ocr, segs, id)
  {
    tableList := [];
    for index := 0 to |segs|
      invariant tableList == StoredFromSegments(ocr, segs[..index], id)
    {
      var response := ocr(segs[index]);
      var found: seq<StoredTable> := [];
      for t := 0 to |response|
        invariant found == StoreAll(response[..t], id)
      {
        var table := response[t];
        var cells := CopyCells(table.cells);
        found := found + [StoredTable(table.colCount, table.rowCount, [0, 0, 0, 0], id, cells)];
      }
      assert response[..|response|] == response;
      assert segs[..index + 1][..index] == segs[..index];
      tableList := tableList + found;
    }
    assert segs[..|segs|] == segs;
  }

  /**
   * process_diagram for the file the repository found (None when there is
   * none). The OCR service is the parameter `ocr`.
   */
  method ProcessDiagram(file: Option<FileRecord>, projectId: nat, ocr: Segment -> seq<TableData>, store: MetaTableStore)
    returns (out: Outcome)
    modifies store
    ensures file.None? || file.value.fileName.None? || |file.value.scannedFiles| == 0 ==>
      out == NoFile && store.metaTables == old(store.metaTables) && store.tables == old(store.tables)
    ensures file.Some? && file.value.fileName.Some? && |file.value.scannedFiles| > 0 ==>
      var u := RunFiles(file.value.scannedFiles, projectId, ocr,
        Trace(old(store.metaTables), old(store.tables), None, false));
      store.metaTables == u.metaTables && store.tables == u.tables
      && out == (if u.raised then Raised else Processed(u.last))
  {
    if file.None? || file.value.fileName.None? || |file.value.scannedFiles| == 0 {
      return NoFile;
    }
    var files := file.value.scannedFiles;
    ghost var t0 := Trace(store.metaTables, store.tables, None, false);
    var metatableId: Option<nat> := None;
    for k := 0 to |files|
      invariant RunFiles(files[..k], projectId, ocr, t0) == Trace(store.metaTables, store.tables, metatableId, false)
    {
      assert files[..k + 1][..k] == files[..k];
      var regions := files[k].regions;
      if |regions| == 0 {
        continue;
      }
      var boxes := seq(|regions|, i requires 0 <= i < |regions| => Unpack(RegionList(regions[i])));
      assert boxes == RegionBoxes(regions);
      var segments := PrepareOcrImageFromRegion(boxes, 1, 1);
      if segments.Err? {
        assert files[..|files|] == files;
        RunRaisedStays(files, k + 1, projectId, ocr, t0);
        return Raised;
      }
      var id := store.CreateMetaTable(projectId);
      metatableId := Some(id);
      var tableList := OcrSegments(ocr, segments.value, id);
      store.InsertTables(tableList);
    }
    assert files[..|files|] == files;
    out := Processed(metatableId);
  }

  /** Once a crop has raised, later files change nothing. */
  lemma {:induction false} RunRaisedStays(files: seq<ScannedFile>, k: nat, projectId: nat, ocr: Segment -> seq<TableData>, t: Trace)
    requires k <= |files| && RunFiles(files[..k], projectId, ocr, t).raised
    ensures RunFiles(files, projectId, ocr, t) == RunFiles(files[..k], projectId, ocr, t)
    decreases |files| - k
  {
    if k < |files| {
      assert files[..k + 1][..k] == files[..k];
      RunRaisedStays(files, k + 1, projectId, ocr, t);
    } else {
      assert files[..k] == files;
    }
  }
}
