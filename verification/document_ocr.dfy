/**
 * The document OCR route: the upload check, the strip tiling that feeds the
 * OCR service, and the post-OCR steps of process_document that turn table
 * fragments into normalised weld tables with a polygon each.
 *
 * An uncaught Python exception becomes the HTTP answer 500; every step that
 * can raise is modelled as an error result.
 */
module DocumentOcr {
  import opened Wrappers
  import opened Geometry
  import opened Text
  import opened Tables
  import AbsoluteBoxes
  import opened Strips
  import opened AzureDetection
  import opened WeldTables

  /** What the framework answers when the handler raises. */
  const InternalError := HttpError(500, "Internal Server Error")

  // ---------------------------------------------------------------------------
  // validate_document

  /** The text after the first '.' of name, up to the next '.' or the end, is ext. */
  predicate FirstExtensionIs(name: string, ext: string)
  {
    exists i :: 0 <= i < |name| && name[i] == '.' && '.' !in name[..i]
      && (name[i + 1..] == ext || StartsWith(name[i + 1..], ext + "."))
  }

  /**
   * validate_document: its guard holds for every name, so a missing name or a
   * name without a '.' raises; otherwise the second '.'-separated piece must be
   * exactly "pdf".
   */
  function ValidateDocument(filename: Option<string>): (r: Result<(), HttpError>)
    ensures r == Err(InternalError) <==> filename.None? || '.' !in filename.value
    ensures r.Ok? <==> filename.Some? && FirstExtensionIs(filename.value, "pdf")
    ensures r.Err? ==> r.error == InternalError || r.error == HttpError(400, "Bad request")
  {
    if filename.None? then Err(InternalError)
    else
      var parts := Split(filename.value, '.');
      if |parts| < 2 then Err(InternalError)
      else
        assert parts[1] == "pdf" <==> FirstExtensionIs(filename.value, "pdf") by {
          SecondPieceIs(filename.value, "pdf");
        }
        if parts[1] == "pdf" then Ok(()) else Err(HttpError(400, "Bad request"))
  }

  /** Split on '.' has a second piece exactly when the name contains a '.'. */
  lemma SplitHasSecond(s: string)
    ensures |Split(s, '.')| >= 2 <==> '.' in s
  {
  }

  /** The second piece of s.split('.') is ext exactly when ext follows the first '.'. */
  lemma SecondPieceIs(s: string, ext: string)
    requires '.' !in ext && '.' in s
    ensures Split(s, '.')[1] == ext <==> FirstExtensionIs(s, ext)
  {
    var i := IndexOf(s, '.');
    var t := s[i + 1..];
    assert Split(s, '.')[1] == Split(t, '.')[0];
    FirstPieceIs(t, ext);
  }

  /** The first piece of t.split('.') is ext exactly when t is ext or starts with ext + ".". */
  lemma FirstPieceIs(t: string, ext: string)
    requires '.' !in ext
    ensures Split(t, '.')[0] == ext <==> t == ext || StartsWith(t, ext + ".")
  {
    if '.' in t {
      var j := IndexOf(t, '.');
      assert Split(t, '.')[0] == t[..j];
      if t[..j] == ext {
        assert t[..|ext| + 1] == ext + ".";
      }
      if StartsWith(t, ext + ".") {
        assert t[..|ext| + 1] == ext + ".";
        assert t[|ext|] == '.' && t[..|ext|] == ext;
        IndexOfFirst(t, '.', |ext|);
      }
    } else {
      StartsWithDot(t, ext);
    }
  }

  lemma StartsWithDot(t: string, ext: string)
    ensures StartsWith(t, ext + ".") ==> '.' in t
  {
    if StartsWith(t, ext + ".") {
      assert t[|ext|] == (ext + ".")[|ext|];
    }
  }

  // ---------------------------------------------------------------------------
  // prepare_ocr_data: full-height strips of 4500 pixels

  const SectionSize: nat := 4500

  /** Pixels left off the bottom of every strip. */
  const BottomMargin: nat := 500

  /** The crop rectangle of strip i: 4500 wide at most, from the top to 500 pixels above the bottom. */
  function StripBox(w: nat, h: nat, i: nat): Box
  {
    Box(SectionSize * i, 0, StripRight(w, SectionSize, i), h - BottomMargin)
  }

  function StripBoxes(w: nat, h: nat): (r: seq<Box>)
    ensures |r| == Pieces(w, SectionSize) && forall i :: 0 <= i < |r| ==> r[i] == StripBox(w, h, i)
  {
    seq(Pieces(w, SectionSize), i requires 0 <= i < Pieces(w, SectionSize) => StripBox(w, h, i))
  }

  /**
   * There are ceil(w / 4500) strips; each is non-empty and at most 4500 wide,
   * neighbours share an edge, the last ends at the page width, and all span y
   * from 0 to h - 500.
   */
  lemma StripsAreContiguous(w: nat, h: nat, i: nat)
    requires i < Pieces(w, SectionSize)
    ensures Pieces(w, SectionSize) == ChunkCount(w, SectionSize)
    ensures StripBox(w, h, i).xMin < StripBox(w, h, i).xMax <= StripBox(w, h, i).xMin + SectionSize
    ensures i + 1 < Pieces(w, SectionSize) ==> StripBox(w, h, i + 1).xMin == StripBox(w, h, i).xMax
    ensures i + 1 == Pieces(w, SectionSize) ==> StripBox(w, h, i).xMax == w
    ensures StripBox(w, h, i).yMin == 0 && StripBox(w, h, i).yMax == h - BottomMargin
  {
    PiecesIsCeiling(w, SectionSize);
    StripEdges(w, SectionSize, i);
  }

  /** Every column x of the page lies in strip x / 4500. */
  lemma StripsCoverPage(w: nat, h: nat, x: int)
    requires 0 <= x < w
    ensures x / SectionSize < Pieces(w, SectionSize)
    ensures StripBox(w, h, x / SectionSize).xMin <= x < StripBox(w, h, x / SectionSize).xMax
  {
    StripsCoverWidth(w, SectionSize, x);
  }

  /** The offset get_absolute_bbox(row = i, col = 0) adds is the origin of strip i. */
  lemma RebaseIsStripOrigin(w: nat, h: nat, i: nat, b: Box)
    ensures AbsoluteBoxes.GetAbsoluteBbox(b, SectionSize, i, 0)
      == b.Shift(StripBox(w, h, i).xMin, StripBox(w, h, i).yMin)
  {
  }

  /**
   * The strip loop of prepare_ocr_data. Cropping to a rectangle whose lower
   * edge lies above its upper edge raises, so on a page shorter than the
   * 500-pixel margin the first crop fails (None).
   */
  method CutStrips(w: nat, h: nat) returns (segments: Option<seq<Box>>)
    ensures segments.None? <==> w > 0 && h < BottomMargin
    ensures segments.Some? ==> segments.value == StripBoxes(w, h)
  {
    var pieces := w / SectionSize;
    pieces := pieces + if w % SectionSize > 0 then 1 else 0;
    PiecesIsCeiling(w, SectionSize);
    var cut: seq<Box> := [];
    for i := 0 to pieces
      invariant cut == StripBoxes(w, h)[..i]
      invariant i > 0 ==> h >= BottomMargin
    {
      var right := if SectionSize * (i + 1) > w then SectionSize * i + w % SectionSize else SectionSize * (i + 1);
      var box := Box(SectionSize * i, 0, right, h - BottomMargin);
      StripsAreContiguous(w, h, i);
      if !OrderedBox(box) {
        return None;
      }
      cut := cut + [box];
    }
    return Some(cut);
  }

  /** A recognised word with its bounding box. */
  datatype Word = Word(content: string, polygon: Box)

  /** What the OCR service reports for one image: words and table fragments, boxes tile-local. */
  datatype OcrPage = OcrPage(words: seq<Word>, tables: seq<TableData>)

  datatype OcrDocument = OcrDocument(words: seq<Word>, tables: seq<TableData>)

  /** The words of strip i with their boxes moved from strip to page coordinates. */
  function RebaseWords(ws: seq<Word>, i: nat): (r: seq<Word>)
    ensures |r| == |ws|
    ensures forall k :: 0 <= k < |ws| ==>
      r[k] == ws[k].(polygon := AbsoluteBoxes.GetAbsoluteBbox(ws[k].polygon, SectionSize, i, 0))
  {
    seq(|ws|, k requires 0 <= k < |ws| =>
      ws[k].(polygon := AbsoluteBoxes.GetAbsoluteBbox(ws[k].polygon, SectionSize, i, 0)))
  }

  /**
   * The table fragments of strip i with their boxes moved the same way. Words
   * and table fragments are different records that the source shifts in two
   * separate loops, so each has its own function.
   */
  function RebaseTables(ts: seq<TableData>, i: nat): (r: seq<TableData>)
    ensures |r| == |ts|
    ensures forall k :: 0 <= k < |ts| ==>
      r[k] == ts[k].(polygon := AbsoluteBoxes.GetAbsoluteBbox(ts[k].polygon, SectionSize, i, 0))
  {
    seq(|ts|, k requires 0 <= k < |ts| =>
      ts[k].(polygon := AbsoluteBoxes.GetAbsoluteBbox(ts[k].polygon, SectionSize, i, 0)))
  }

  /** The words of all strips, each strip's rebased by its index, in strip order. */
  function WordsOf(ocr: Box -> OcrPage, segments: seq<Box>): seq<Word>
  {
    if segments == [] then []
    else
      var last := |segments| - 1;
      WordsOf(ocr, segments[..last]) + RebaseWords(ocr(segments[last]).words, last)
  }

  function TablesOf(ocr: Box -> OcrPage, segments: seq<Box>): seq<TableData>
  {
    if segments == [] then []
    else
      var last := |segments| - 1;
      TablesOf(ocr, segments[..last]) + RebaseTables(ocr(segments[last]).tables, last)
  }

  /** One tile's contribution: its tables, moved by that tile's origin. */
  lemma {:induction false} TablesOfCount(ocr: Box -> OcrPage, segments: seq<Box>, i: nat)
    requires i < |segments|
    ensures TablesOf(ocr, segments[..i + 1])
      == TablesOf(ocr, segments[..i]) + RebaseTables(ocr(segments[i]).tables, i)
  {
    assert segments[..i + 1][..i] == segments[..i];
  }

  /**
   * prepare_ocr_data for a rendered page of w x h pixels: cut the strips (a
   * page under 500 pixels high fails in the first crop, which the route
   * answers with 500), 404 when there are none, then OCR each strip and append its words and tables,
   * rebased to page coordinates. The OCR service is the parameter `ocr`.
   */
  method PrepareOcrData(w: nat, h: nat, ocr: Box -> OcrPage) returns (r: Result<OcrDocument, HttpError>)
    ensures r.Err? <==> w == 0 || h < BottomMargin
    ensures w == 0 ==> r == Err(HttpError(404, "image segments not available"))
    ensures w > 0 && h < BottomMargin ==> r == Err(InternalError)
    ensures r.Ok? ==> r.value == OcrDocument(WordsOf(ocr, StripBoxes(w, h)), TablesOf(ocr, StripBoxes(w, h)))
  {
    var cut := CutStrips(w, h);
    if cut.None? {
      return Err(InternalError);
    }
    var imageSegments := cut.value;
    PiecesIsCeiling(w, SectionSize);
    if |imageSegments| == 0 {
      return Err(HttpError(404, "image segments not available"));
    }
    var words: seq<Word> := [];
    var tables: seq<TableData> := [];
    for i := 0 to |imageSegments|
      invariant words == WordsOf(ocr, imageSegments[..i])
      invariant tables == TablesOf(ocr, imageSegments[..i])
    {
      var page := ocr(imageSegments[i]);
      var pageWords := page.words;
      for index := 0 to |pageWords|
        invariant |pageWords| == |page.words|
        invariant forall k :: 0 <= k < |pageWords| ==>
          pageWords[k] == (if k < index then RebaseWords(page.words, i)[k] else page.words[k])
      {
        var word := pageWords[index];
        pageWords := pageWords[index := word.(polygon := AbsoluteBoxes.GetAbsoluteBbox(word.polygon, SectionSize, i, 0))];
      }
      var pageTables := page.tables;
      for index := 0 to |pageTables|
        invariant |pageTables| == |page.tables|
        invariant forall k :: 0 <= k < |pageTables| ==>
          pageTables[k] == (if k < index then RebaseTables(page.tables, i)[k] else page.tables[k])
      {
        var table := pageTables[index];
        pageTables := pageTables[index := table.(polygon := AbsoluteBoxes.GetAbsoluteBbox(table.polygon, SectionSize, i, 0))];
      }
      assert imageSegments[..i + 1][..i] == imageSegments[..i];
      words := words + pageWords;
      tables := tables + pageTables;
    }
    assert imageSegments[..|imageSegments|] == imageSegments;
    return Ok(OcrDocument(words, tables));
  }

  // ---------------------------------------------------------------------------
  // process_document after the OCR call

  /** Every table box is grown by this much on each side before the merge test. */
  const Offset: nat := 20

  /** One entry of the route's answer. */
  datatype Emitted = Emitted(data: Grid, polygon: Box)

  /** The frames of all fragments; the first fragment that does not fit its frame raises. */
  function BuildAll(tables: seq<TableData>): (r: Result<seq<Frame>, CellError>)
    ensures r.Ok? <==> forall k :: 0 <= k < |tables| ==> StructuredFrame(tables[k]).Ok?
    ensures r.Ok? ==> |r.value| == |tables| && FreshFrames(r.value)
    ensures r.Ok? ==> forall k :: 0 <= k < |tables| ==> r.value[k] == StructuredFrame(tables[k]).value
  {
    if tables == [] then Ok([])
    else
      var last := |tables| - 1;
      var prefix := BuildAll(tables[..last]);
      var frame := StructuredFrame(tables[last]);
      if prefix.Err? then
        assert forall k :: 0 <= k < last ==> tables[..last][k] == tables[k];
        prefix
      else if frame.Err? then Err(frame.error)
      else Ok(prefix.value + [frame.value])
  }

  /** `df_tables`: one frame per fragment, in fragment order. */
  method BuildFrames(tables: seq<TableData>) returns (r: Result<seq<Frame>, CellError>)
    ensures r == BuildAll(tables)
  {
    var frames: seq<Frame> := [];
    for k := 0 to |tables|
      invariant BuildAll(tables[..k]) == Ok(frames)
    {
      assert tables[..k + 1][..k] == tables[..k];
      var frame := TabledataToStructuredDataframe(tables[k]);
      if frame.Err? {
        BuildAllStopsAtError(tables, k);
        return Err(frame.error);
      }
      frames := frames + [frame.value];
    }
    assert tables[..|tables|] == tables;
    return Ok(frames);
  }

  /** The first fragment that does not fit decides the error. */
  lemma {:induction false} BuildAllStopsAtError(tables: seq<TableData>, k: nat)
    requires k < |tables| && BuildAll(tables[..k]).Ok? && StructuredFrame(tables[k]).Err?
    ensures BuildAll(tables) == Err(StructuredFrame(tables[k]).error)
    decreases |tables| - k
  {
    if k + 1 < |tables| {
      var init := tables[..|tables| - 1];
      assert init[..k] == tables[..k] && init[k] == tables[k];
      BuildAllStopsAtError(init, k);
    } else {
      assert tables[..k] == tables[..|tables| - 1];
    }
  }

  function ExpandedBoxes(tables: seq<TableData>): (r: seq<Box>)
    ensures |r| == |tables|
    ensures forall k :: 0 <= k < |tables| ==> r[k] == Expand(tables[k].polygon, Offset)
  {
    seq(|tables|, k requires 0 <= k < |tables| => Expand(tables[k].polygon, Offset))
  }

  /** The expansion loop: every fragment's polygon is replaced by the box grown by 20 on each side. */
  method ExpandTables(tables: seq<TableData>) returns (expanded: seq<TableData>)
    ensures |expanded| == |tables|
    ensures forall k :: 0 <= k < |tables| ==>
      expanded[k] == tables[k].(polygon := ExpandedBoxes(tables)[k])
    ensures forall k :: 0 <= k < |tables| ==>
      expanded[k].polygon.Width() == tables[k].polygon.Width() + 2 * Offset
      && expanded[k].polygon.Height() == tables[k].polygon.Height() + 2 * Offset
  {
    expanded := tables;
    for k := 0 to |expanded|
      invariant |expanded| == |tables|
      invariant forall k' :: 0 <= k' < |tables| ==>
        expanded[k'] == if k' < k then tables[k'].(polygon := ExpandedBoxes(tables)[k']) else tables[k']
    {
      var p := expanded[k].polygon;
      expanded := expanded[k := expanded[k].(polygon := Box(p.xMin - Offset, p.yMin - Offset, p.xMax + Offset, p.yMax + Offset))];
    }
  }

  /** The polygon recorded for a merged pair: the top-left of the first box and the bottom-right of the second. */
  function MergedPolygon(boxes: seq<Box>, p: Pair): Box
    requires p.i < |boxes| && p.j < |boxes|
  {
    Box(boxes[p.i].xMin, boxes[p.i].yMin, boxes[p.j].xMax, boxes[p.j].yMax)
  }

  function NewPolygons(boxes: seq<Box>, pairs: seq<Pair>): (r: seq<Box>)
    requires PairsIn(pairs, |boxes|)
    ensures |r| == |pairs|
  {
    seq(|pairs|, k requires 0 <= k < |pairs| => MergedPolygon(boxes, pairs[k]))
  }

  /**
   * In terms of the fragments' own boxes, the polygon of merged pair (i, j) is
   * (x_min(i) - 20, y_min(i) - 20, x_max(j) + 20, y_max(j) + 20).
   */
  lemma MergedPolygonOfFragments(tables: seq<TableData>, pairs: seq<Pair>, k: nat)
    requires PairsIn(pairs, |tables|) && k < |pairs|
    ensures var a := tables[pairs[k].i].polygon; var b := tables[pairs[k].j].polygon;
      NewPolygons(ExpandedBoxes(tables), pairs)[k]
        == Box(a.xMin - Offset, a.yMin - Offset, b.xMax + Offset, b.yMax + Offset)
  {
  }

  /** The loop that records a polygon per merging pair. */
  method CollectNewPolygons(boxes: seq<Box>, pairs: seq<Pair>) returns (newPolygons: seq<Box>)
    requires PairsIn(pairs, |boxes|)
    ensures newPolygons == NewPolygons(boxes, pairs)
  {
    newPolygons := [];
    for k := 0 to |pairs|
      invariant newPolygons == NewPolygons(boxes, pairs)[..k]
    {
      var p := pairs[k];
      newPolygons := newPolygons + [Box(boxes[p.i].xMin, boxes[p.i].yMin, boxes[p.j].xMax, boxes[p.j].yMax)];
    }
  }

  function RenamedAll(frames: seq<Frame>): (r: seq<Frame>)
    ensures |r| == |frames| && forall k :: 0 <= k < |frames| ==> r[k] == WithRenamedColumns(frames[k])
  {
    seq(|frames|, k requires 0 <= k < |frames| => WithRenamedColumns(frames[k]))
  }

  /** The rename loop: each frame's repeated labels become "<label>_<position>". */
  method RenameColumns(frames: seq<Frame>) returns (out: seq<Frame>)
    ensures out == RenamedAll(frames)
  {
    out := frames;
    for k := 0 to |out|
      invariant |out| == |frames|
      invariant forall k' :: 0 <= k' < |frames| ==>
        out[k'] == if k' < k then WithRenamedColumns(frames[k']) else frames[k']
    {
      var df := out[k];
      out := out[k := Frame(RenameDuplicates(df.labels), df.rows)];
    }
  }

  /** The records of every frame, or None when some frame's labels repeat. */
  function RecordsAll(frames: seq<Frame>): (r: Option<seq<Grid>>)
    ensures r.Some? <==> forall k :: 0 <= k < |frames| ==> Distinct(frames[k].labels)
    ensures r.Some? ==> |r.value| == |frames| && forall k :: 0 <= k < |frames| ==> r.value[k] == frames[k].rows
  {
    if forall k :: 0 <= k < |frames| ==> Distinct(frames[k].labels) then
      Some(seq(|frames|, k requires 0 <= k < |frames| => frames[k].rows))
    else None
  }

  /** `new_json_data`: the records of each frame as lists of values. */
  method CollectRecords(frames: seq<Frame>) returns (r: Option<seq<Grid>>)
    ensures r == RecordsAll(frames)
  {
    var out: seq<Grid> := [];
    for k := 0 to |frames|
      invariant forall k' :: 0 <= k' < k ==> Distinct(frames[k'].labels)
      invariant out == seq(k, k' requires 0 <= k' < k => frames[k'].rows)
    {
      var records := ToRecords(frames[k]);
      if records.None? {
        return None;
      }
      out := out + [records.value];
    }
    return Some(out);
  }

  /**
   * The polygon given to output `index`: the merged polygon at the same
   * position when `len(new_polygons) - 1 > index`, otherwise the expanded box
   * of the fragment at that position; past the last fragment the lookup raises.
   */
  function ChoosePolygon(newPolygons: seq<Box>, boxes: seq<Box>, index: nat): Option<Box>
  {
    if |newPolygons| - 1 > index then Some(newPolygons[index])
    else if index < |boxes| then Some(boxes[index])
    else None
  }

  /** What the answer gets for one output frame. */
  datatype Step = Raise | Skip | Emit(e: Emitted)

  /** One pass of the answer loop: choose the polygon, filter, and emit only a non-empty table. */
  function EmitStep(records: Grid, newPolygons: seq<Box>, boxes: seq<Box>, index: nat): Step
  {
    var polygon := ChoosePolygon(newPolygons, boxes, index);
    var filtered := FilterSpec(records);
    if polygon.None? || filtered.None? then Raise
    else if |filtered.value| > 0 && |filtered.value[0]| > 0 then
      var data := UpdateSpec(filtered.value);
      if data.None? then Raise else Emit(Emitted(data.value, polygon.value))
    else Skip
  }

  /** The answer from a run of steps: the emitted tables in order; None once a step raises. */
  function Emits(steps: seq<Step>): (r: Option<seq<Emitted>>)
    ensures r.Some? ==> |r.value| <= |steps|
  {
    if steps == [] then Some([])
    else
      var prefix := Emits(steps[..|steps| - 1]);
      var step := steps[|steps| - 1];
      if prefix.None? || step.Raise? then None
      else if step.Emit? then Some(prefix.value + [step.e])
      else prefix
  }

  /** The step taken for each output, in output order. */
  function Steps(records: seq<Grid>, newPolygons: seq<Box>, boxes: seq<Box>): (r: seq<Step>)
    ensures |r| == |records|
  {
    seq(|records|, k requires 0 <= k < |records| => EmitStep(records[k], newPolygons, boxes, k))
  }

  /** One pass of the answer loop. */
  method EmitOne(records: Grid, newPolygons: seq<Box>, boxes: seq<Box>, index: nat) returns (step: Step)
    ensures step == EmitStep(records, newPolygons, boxes, index)
  {
    var polygon: Box;
    if |newPolygons| - 1 > index {
      polygon := newPolygons[index];
    } else if index < |boxes| {
      polygon := boxes[index];
    } else {
      return Raise;
    }
    var filterData := FilterTableData(records);
    if filterData.None? {
      return Raise;
    }
    if |filterData.value| > 0 && |filterData.value[0]| > 0 {
      var data := UpdateTableFormat(filterData.value);
      if data.None? {
        return Raise;
      }
      return Emit(Emitted(data.value, polygon));
    }
    return Skip;
  }

  /** The answer loop of process_document. */
  method EmitTables(records: seq<Grid>, newPolygons: seq<Box>, boxes: seq<Box>) returns (r: Option<seq<Emitted>>)
    ensures r == Emits(Steps(records, newPolygons, boxes))
  {
    ghost var steps := Steps(records, newPolygons, boxes);
    var resultList: seq<Emitted> := [];
    for index := 0 to |records|
      invariant Emits(steps[..index]) == Some(resultList)
    {
      var step := EmitOne(records[index], newPolygons, boxes, index);
      assert step == steps[index];
      EmitsNext(steps, index, resultList);
      if step.Raise? {
        EmitsStaysNone(steps, index + 1);
        return None;
      }
      if step.Emit? {
        resultList := resultList + [step.e];
      }
    }
    assert steps[..|records|] == steps;
    return Some(resultList);
  }

  /** The answer after one more step: raise, append, or skip. */
  lemma EmitsNext(steps: seq<Step>, n: nat, prefix: seq<Emitted>)
    requires n < |steps| && Emits(steps[..n]) == Some(prefix)
    ensures Emits(steps[..n + 1])
      == if steps[n].Raise? then None else if steps[n].Emit? then Some(prefix + [steps[n].e]) else Some(prefix)
  {
    assert steps[..n + 1][..n] == steps[..n];
  }

  /** Once a step has raised, the whole answer is an error. */
  lemma {:induction false} EmitsStaysNone(steps: seq<Step>, n: nat)
    requires 0 < n <= |steps| && Emits(steps[..n]).None?
    ensures Emits(steps).None?
    decreases |steps| - n
  {
    if n < |steps| {
      assert steps[..n + 1][..n] == steps[..n];
      EmitsStaysNone(steps, n + 1);
    } else {
      assert steps[..n] == steps;
    }
  }

  /** A table without '' cells: what the normaliser leaves. */
  predicate NoBlanks(g: Grid)
  {
    forall k :: 0 <= k < |g| ==> Text("") !in g[k]
  }

  /** When every emitting step emits a table without blanks, so does the whole answer. */
  lemma {:induction false} EmitsKeepNoBlanks(steps: seq<Step>)
    requires forall k :: 0 <= k < |steps| && steps[k].Emit? ==> NoBlanks(steps[k].e.data)
    ensures Emits(steps).Some? ==> forall e :: e in Emits(steps).value ==> NoBlanks(e.data)
  {
    if steps != [] {
      var init := steps[..|steps| - 1];
      assert forall k :: 0 <= k < |init| ==> init[k] == steps[k];
      EmitsKeepNoBlanks(init);
    }
  }

  /** An emitted table is the normalised form of the filtered records, so it has no '' cell. */
  lemma EmittedData(records: Grid, newPolygons: seq<Box>, boxes: seq<Box>, index: nat)
    requires EmitStep(records, newPolygons, boxes, index).Emit?
    ensures NoBlanks(EmitStep(records, newPolygons, boxes, index).e.data)
  {
    assert FilterSpec(records).Some? && UpdateSpec(FilterSpec(records).value)
      == Some(EmitStep(records, newPolygons, boxes, index).e.data);
    UpdateLeavesNoBlanks(FilterSpec(records).value);
  }

  /** Every emitted table is a normalised table: no '' cell is left in any of its rows. */
  lemma EmittedHaveNoBlanks(records: seq<Grid>, newPolygons: seq<Box>, boxes: seq<Box>)
    ensures var answer := Emits(Steps(records, newPolygons, boxes));
      answer.Some? ==> |answer.value| <= |records| && forall e :: e in answer.value ==> NoBlanks(e.data)
  {
    var steps := Steps(records, newPolygons, boxes);
    forall k | 0 <= k < |steps| && steps[k].Emit?
      ensures NoBlanks(steps[k].e.data)
    {
      EmittedData(records[k], newPolygons, boxes, k);
    }
    EmitsKeepNoBlanks(steps);
  }

  /** The frames after reconciliation: fragments that met no other, then one merged frame per pair. */
  function Reconciled(boxes: seq<Box>, frames: seq<Frame>): (r: seq<Frame>)
    requires |frames| == |boxes| && FreshFrames(frames)
  {
    MergingPairsIn(boxes);
    var pairs := MergingPairs(boxes);
    MergesBeforeMembers(boxes, |boxes|);
    assert Meeting(boxes, pairs) by {
      forall k | 0 <= k < |pairs|
        ensures Intersects(boxes[pairs[k].i], boxes[pairs[k].j])
      {
        assert pairs[k] in pairs;
      }
    }
    var survivors := SurvivorIndices(|frames|, Participants(pairs));
    Pick(frames, survivors) + MergedFrames(boxes, frames, pairs)
  }

  /** process_document from the OCR result on: 500 when any step raises. */
  function ProcessSpec(tables: seq<TableData>): Result<seq<Emitted>, HttpError>
  {
    var built := BuildAll(tables);
    if built.Err? then Err(InternalError)
    else
      var boxes := ExpandedBoxes(tables);
      var pairs := MergingPairs(boxes);
      MergingPairsIn(boxes);
      var records := RecordsAll(RenamedAll(Reconciled(boxes, built.value)));
      if records.None? then Err(InternalError)
      else
        var answer := Emits(Steps(records.value, NewPolygons(boxes, pairs), boxes));
        if answer.None? then Err(InternalError) else Ok(answer.value)
  }

  /**
   * The post-OCR steps of process_document: frames, expansion, merging, rename,
   * merged polygons, records, and the answer loop.
   */
  method ProcessTables(tables: seq<TableData>) returns (r: Result<seq<Emitted>, HttpError>)
    ensures r == ProcessSpec(tables)
  {
    var dfTables := BuildFrames(tables);
    if dfTables.Err? {
      return Err(InternalError);
    }
    var expanded := ExpandTables(tables);
    var boxes := seq(|expanded|, k requires 0 <= k < |expanded| => expanded[k].polygon);
    assert boxes == ExpandedBoxes(tables);
    var updated, intersectionIndexes := CheckIntersectionOfTables(boxes, dfTables.value);
    assert updated == Reconciled(boxes, dfTables.value);
    updated := RenameColumns(updated);
    var newPolygons := CollectNewPolygons(boxes, intersectionIndexes);
    var newJsonData := CollectRecords(updated);
    if newJsonData.None? {
      return Err(InternalError);
    }
    var resultList := EmitTables(newJsonData.value, newPolygons, boxes);
    if resultList.None? {
      return Err(InternalError);
    }
    return Ok(resultList.value);
  }

  /**
   * Every reconciled frame carries integer labels only, so after the rename its
   * labels are distinct and the records conversion never raises.
   */
  lemma RecordsNeverRaise(boxes: seq<Box>, frames: seq<Frame>)
    requires |frames| == |boxes| && FreshFrames(frames)
    ensures RecordsAll(RenamedAll(Reconciled(boxes, frames))).Some?
  {
    var reconciled := Reconciled(boxes, frames);
    var renamed := RenamedAll(reconciled);
    forall k | 0 <= k < |renamed|
      ensures Distinct(renamed[k].labels)
    {
      assert AllPlainLabels(reconciled[k].labels) by {
        MergingPairsIn(boxes);
        var pairs := MergingPairs(boxes);
        var survivors := SurvivorIndices(|frames|, Participants(pairs));
        if k >= |survivors| {
          var p := pairs[k - |survivors|];
          var a, b := frames[p.i], frames[p.j];
          assert a.labels == Cols(|a.labels|) && b.labels == Cols(|b.labels|);
        }
      }
    }
  }

  /**
   * process_document: check the upload, render and OCR the page (the renderer's
   * page size w x h and the service are parameters), then the post-OCR steps.
   */
  method ProcessDocument(filename: Option<string>, w: nat, h: nat, ocr: Box -> OcrPage)
    returns (r: Result<seq<Emitted>, HttpError>)
    ensures ValidateDocument(filename).Err? ==> r == Err(ValidateDocument(filename).error)
    ensures ValidateDocument(filename).Ok? && w == 0 ==> r == Err(HttpError(404, "image segments not available"))
    ensures ValidateDocument(filename).Ok? && w > 0 && h < BottomMargin ==> r == Err(InternalError)
    ensures ValidateDocument(filename).Ok? && w > 0 && h >= BottomMargin ==> r == ProcessSpec(TablesOf(ocr, StripBoxes(w, h)))
  {
    var valid := ValidateDocument(filename);
    if valid.Err? {
      return Err(valid.error);
    }
    var data := PrepareOcrData(w, h, ocr);
    if data.Err? {
      return Err(data.error);
    }
    r := ProcessTables(data.value.tables);
  }

  // ---------------------------------------------------------------------------
  // The polygon choice does not follow the merged frames

  /** Two boxes sharing an edge and a third far away. */
  const TouchingPairAndLoner: seq<Box> := [Box(0, 0, 10, 10), Box(10, 0, 20, 10), Box(100, 100, 110, 110)]

  /**
   * With fragments 0 and 1 merged and fragment 2 alone, the outputs are
   * [frame 2, merged 0+1]; but output 0 receives fragment 0's box and the
   * merged output receives fragment 1's box, never the recorded merged polygon.
   */
  lemma PolygonChoiceMisaligned()
    ensures MergingPairs(TouchingPairAndLoner) == [Pair(0, 1)]
    ensures SurvivorIndices(3, Participants(MergingPairs(TouchingPairAndLoner))) == [2]
    ensures ChoosePolygon(NewPolygons(TouchingPairAndLoner, [Pair(0, 1)]), TouchingPairAndLoner, 0)
      == Some(TouchingPairAndLoner[0])
    ensures ChoosePolygon(NewPolygons(TouchingPairAndLoner, [Pair(0, 1)]), TouchingPairAndLoner, 1)
      == Some(TouchingPairAndLoner[1])
    ensures NewPolygons(TouchingPairAndLoner, [Pair(0, 1)])[0] == Box(0, 0, 20, 10)
  {
    var boxes := TouchingPairAndLoner;
    assert RowMerges(boxes, 0, 3) == [Pair(0, 1)] by {
      assert RowMerges(boxes, 0, 1) == [];
      assert RowMerges(boxes, 0, 2) == [Pair(0, 1)];
    }
    assert RowMerges(boxes, 1, 3) == [] by {
      assert RowMerges(boxes, 1, 2) == [];
    }
    assert RowMerges(boxes, 2, 3) == [];
    assert MergesBefore(boxes, 1) == [Pair(0, 1)];
    assert MergesBefore(boxes, 2) == [Pair(0, 1)];
    assert Participants([Pair(0, 1)]) == {0, 1};
    assert SurvivorIndices(2, {0, 1}) == [];
  }

  /** Four boxes that all meet: six merging pairs and six outputs, and output 5 has no polygon. */
  const FourOverlapping: seq<Box> := [Box(0, 0, 10, 10), Box(0, 0, 10, 10), Box(0, 0, 10, 10), Box(0, 0, 10, 10)]

  /** The six pairs of four mutually meeting boxes, in visit order. */
  const SixPairs: seq<Pair> := [Pair(0, 1), Pair(0, 2), Pair(0, 3), Pair(1, 2), Pair(1, 3), Pair(2, 3)]

  lemma FourOverlappingPairs()
    ensures MergingPairs(FourOverlapping) == SixPairs
  {
    var boxes := FourOverlapping;
    assert RowMerges(boxes, 0, 4) == [Pair(0, 1), Pair(0, 2), Pair(0, 3)] by {
      assert RowMerges(boxes, 0, 2) == [Pair(0, 1)];
      assert RowMerges(boxes, 0, 3) == [Pair(0, 1), Pair(0, 2)];
    }
    assert RowMerges(boxes, 1, 4) == [Pair(1, 2), Pair(1, 3)] by {
      assert RowMerges(boxes, 1, 3) == [Pair(1, 2)];
    }
    assert RowMerges(boxes, 2, 4) == [Pair(2, 3)];
    assert MergesBefore(boxes, 2) == [Pair(0, 1), Pair(0, 2), Pair(0, 3), Pair(1, 2), Pair(1, 3)];
  }

  /**
   * Four mutually meeting fragments give six merged outputs and no survivor,
   * and choosing the polygon of the last output indexes past the four fragment
   * boxes: the request fails with 500.
   */
  lemma PolygonChoiceRaises()
    ensures MergingPairs(FourOverlapping) == SixPairs
    ensures SurvivorIndices(4, Participants(SixPairs)) == []
    ensures ChoosePolygon(NewPolygons(FourOverlapping, SixPairs), FourOverlapping, 5).None?
  {
    FourOverlappingPairs();
    FourOverlappingNoSurvivor();
  }

  lemma FourOverlappingNoSurvivor()
    ensures SurvivorIndices(4, Participants(SixPairs)) == []
  {
    var all := SixPairs;
    ParticipantsMembers(all);
    assert Pair(0, 1) in all && Pair(2, 3) in all;
    var excluded := Participants(all);
    assert 0 in excluded && 1 in excluded && 2 in excluded && 3 in excluded;
    assert SurvivorIndices(1, excluded) == [] && SurvivorIndices(2, excluded) == [];
    assert SurvivorIndices(3, excluded) == [];
  }
}
