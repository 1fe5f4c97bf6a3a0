# GEA sales: OCR table pipeline, region routes and grid builders

This project models the part of the GEA sales tool that turns scanned weld
drawings into clean tables. It has four parts.

- **Tiling.** A rendered page is cut into strips or tiles. The boxes the OCR
  service reports inside a tile are shifted back to page coordinates.
- **Reconciliation.** OCR table fragments become cell grids. Fragments whose
  boxes meet (touching included) are concatenated side by side or stacked.
  Duplicate column labels are renamed, and each grid is turned into records.
- **Weld-table normalisation.** The columns of interest are kept. Rows with
  two weld numbers are split, "(xN)" multipliers are stripped, the two
  overlap columns are summed, and every empty cell is dropped.
- **Routes and builders.** These are:
  - the upload and page validators;
  - the region batch route, which rescales, bounds-checks and stores regions;
  - the scan service, which stores OCR tables under meta tables;
  - the cell-edit dispatch;
  - the CSV header normaliser of the calculation engine;
  - the two frontend builders that lay a cell list out as a 2-D array or a
    spreadsheet with merges.

The OCR service is a function parameter: a crop rectangle goes in, words and
tables come out. A crop is modelled by its rectangle only. The database
tables the routes write are classes whose `seq` fields the methods extend.
pandas frames are `Tables.Frame`: column labels plus a grid of
`Value = Text(string) | Missing`. `Missing` stands for pandas' NaN, which
becomes Python's `None` after the records conversion. Loops of the source
are methods with loop invariants. Each method is proved equal to a
recursive specification function, and the properties are proved about that
function as lemmas.

Modules follow the source files:

| module | source |
|---|---|
| `Geometry`, `Text`, `Wrappers` | shared: boxes and ceilings, Python string operations, Option/Result |
| `Strips` | one-axis strip arithmetic shared by both strip cutters |
| `ImageSegments` | backend/src/utils/create_image_segments.py |
| `AbsoluteBoxes` | backend/src/utils/convert_absolute_bboxes.py |
| `PolygonBox` | backend/src/utils/polygon_to_bounding_box.py |
| `Tables` | the grid builder and the column rename shared by the OCR route, the detection service and the table route |
| `AzureDetection` | backend/src/services/azure_detection_service.py |
| `DocumentOcr` | backend/src/routes/document_ocr_route.py, except the weld-table steps |
| `WeldTables` | `filter_table_data` and `update_table_format` of the same route |
| `DocumentProcess` | backend/src/services/document_process_service.py |
| `FileRoute` | backend/src/routes/file_route.py |
| `TableRoute` | backend/src/routes/table_route.py |
| `ContourDetection` | backend/contour_detection.py |
| `Engine` | backend/src/calculation_engine/engine.py |
| `SheetGrid`, `XlsxData`, `JsonTable` | frontend/src/utils/generate-xlsx-data.ts and json-table-to-2d-array.ts |

## Model

| member | source | states |
|---|---|---|
| Geometry.ChunkCount | backend/src/utils/create_image_segments.py:9-10 | `(n + c - 1) // c` is the ceiling of n / c: (k - 1) c < n <= k c |
| Geometry.CeilDiv | backend/src/routes/file_route.py:232-237 | `math.ceil(a / b)` on integers: (q - 1) b < a <= q b |
| Geometry.Expand | backend/src/routes/document_ocr_route.py:54-57 | growing a box by d on every side adds 2d to its width and its height, and moves its top-left corner by (-d, -d) |
| Strips.PiecesIsCeiling | backend/src/services/document_process_service.py:89-90 | `w // s`, plus one for a remainder, is ceil(w / s) |
| Strips.StripRightIsClipped | backend/src/services/document_process_service.py:95 | the right edge the loop computes for strip i is min(s (i + 1), w) |
| Strips.StripEdges | backend/src/services/document_process_service.py:94-98 | every strip is non-empty and at most s wide; each strip starts where the previous one ends; the last one ends at w |
| Strips.StripsCoverWidth | backend/src/services/document_process_service.py:94-98 | every column x of the page lies in strip x / s |
| ImageSegments.CreateImageSegments | backend/src/utils/create_image_segments.py:4-28 | the array is ceil(W / c) by ceil(H / c), and entry [i, j] is the tile (i c, j c, min(i c + c, W), min(j c + c, H)) |
| ImageSegments.TileSize | backend/src/utils/create_image_segments.py:19-22 | every tile of the grid has positive area and is at most c on each side |
| ImageSegments.TilesAreContiguous | backend/src/utils/create_image_segments.py:19-22 | neighbouring tiles share an edge, and the last column and row end at W and H |
| ImageSegments.TilesCoverPage | backend/src/utils/create_image_segments.py:19-22 | every pixel of [0, W) x [0, H) lies in tile (x / c, y / c), which is inside the grid |
| ImageSegments.TilesAreDisjoint | backend/src/utils/create_image_segments.py:19-22 | a pixel of tile (i, j) is a page pixel, and (i, j) is (x / c, y / c), so no other tile has it: the tiles partition the page |
| ImageSegments.TileOriginIsRebaseOffset | backend/src/utils/create_image_segments.py:19-20 | the origin of tile (i, j) is exactly the offset `get_absolute_bbox(b, c, i, j)` adds |
| ImageSegments.EmptyPageHasNoTiles | backend/src/utils/create_image_segments.py:9-15 | a page of width 0 or height 0 gives no tiles along that axis |
| AbsoluteBoxes.GetAbsoluteBbox | backend/src/utils/convert_absolute_bboxes.py:21-26 | rebasing is the translation by (row x chunk, col x chunk) |
| AbsoluteBoxes.RebaseKeepsSize | backend/src/utils/convert_absolute_bboxes.py:25-26 | rebasing keeps width and height |
| AbsoluteBoxes.RebaseOriginTile | backend/src/utils/convert_absolute_bboxes.py:21-26 | tile (0, 0) returns its boxes unchanged |
| AbsoluteBoxes.RebasedGridAt | backend/src/utils/convert_absolute_bboxes.py:9-16 | the flat list has x_chunks y_chunks entries, and entry i y_chunks + j is bboxes[i][j] shifted by tile (i, j)'s offset |
| AbsoluteBoxes.ConvertToAbsoluteBboxes | backend/src/utils/convert_absolute_bboxes.py:4-18 | the nested loop appends exactly the rebased grid, in x-major order; it requires the bboxes rows the indexing reads |
| PolygonBox.Vertices | backend/src/utils/polygon_to_bounding_box.py:5 | consecutive entries pair into len(p) / 2 vertices (p[2k], p[2k + 1]) |
| PolygonBox.PolygonToBoundingBox | backend/src/utils/polygon_to_bounding_box.py:1-10 | the box has its corners in order, contains every vertex, and each side touches a vertex; it requires an even, non-empty list |
| PolygonBox.ExtremaAreTight | backend/src/utils/polygon_to_bounding_box.py:7-10 | the four extrema form a tight box of the vertices |
| PolygonBox.TightBoxUnique | backend/src/utils/polygon_to_bounding_box.py:7-10 | there is only one tight box for a vertex list |
| PolygonBox.PermutationInvariant | backend/src/utils/polygon_to_bounding_box.py:7-10 | listing the vertices in another order gives the same box |
| PolygonBox.ShiftCommutes | backend/src/utils/polygon_to_bounding_box.py:7-10 | boxing the shifted polygon equals shifting its box |
| Tables.StructuredFrame | backend/src/services/azure_detection_service.py:74-82 | the frame is row_count x col_count (no columns when there are no rows); position (i, j) holds the content of the last cell anchored there, or ""; spans play no part; an out-of-range anchor raises, and the error names the first such cell |
| Tables.TabledataToStructuredDataframe | backend/src/routes/table_route.py:101-109 | the cell-writing loop produces exactly that frame, or that error |
| Tables.UnanchoredIsBlank | backend/src/routes/table_route.py:102 | a position no cell is anchored at stays "" |
| Tables.AnchoredIsLastWrite | backend/src/routes/table_route.py:104-107 | the last cell anchored at a position decides its content |
| Tables.RenameDuplicates | backend/src/routes/table_route.py:72 | a label that occurred at an earlier position becomes "<label>_<position>"; the others are kept |
| Tables.RenameMakesDistinct | backend/src/routes/document_ocr_route.py:61-62 | renaming integer labels leaves no two columns with the same label |
| Tables.RenameIdentityOnDistinct | backend/src/routes/table_route.py:72 | labels that are already distinct are left alone |
| Tables.WithRenamedColumns | backend/src/routes/document_ocr_route.py:61-62 | the rename keeps the rows and makes the labels of a frame with integer labels distinct |
| Tables.ToRecords | backend/src/routes/document_ocr_route.py:69-76 | the records conversion succeeds exactly when the labels are distinct, and returns the rows with NaN as None |
| TableRoute.RenameKeepsFreshFrame | backend/src/routes/table_route.py:71-72 | a single table's labels 0..c-1 are distinct, so the rename is the identity |
| TableRoute.GetTableDataframe | backend/src/routes/table_route.py:59-73 | a missing table gives 404; a cell outside the table gives 500; otherwise the rows hold the content anchored at each position |
| TableRoute.ContentUpdated | backend/src/repository/meta_table_repository.py:56-70 | a cell of the named table takes the content of the last edit naming its id; every other cell and field is unchanged |
| TableRoute.SelectableUpdated | backend/src/repository/meta_table_repository.py:73-87 | the same, for the selectable flag |
| TableRoute.LastEditWins | backend/src/repository/meta_table_repository.py:58-70 | an edit that no later edit repeats decides the cell's content and flag |
| TableRoute.UneditedStays | backend/src/repository/meta_table_repository.py:58-70 | a cell that no edit names keeps its content and flag |
| TableRoute.CellStore.ChangeTableCellContent | backend/src/repository/meta_table_repository.py:56-70 | one update per edit leaves the cells equal to ContentUpdated of the old cells |
| TableRoute.CellStore.ChangeTableCellSelectable | backend/src/repository/meta_table_repository.py:73-87 | one update per edit leaves the cells equal to SelectableUpdated of the old cells |
| TableRoute.ChangeTableCellData | backend/src/routes/table_route.py:83-99 | "content" edits only contents and "selectable" edits only flags, in the given table only |
| AzureDetection.MapCellDefaults | backend/src/services/azure_detection_service.py:51-61 | an absent span becomes 1 and an absent kind becomes ""; indices and content are copied |
| AzureDetection.Intersection | backend/src/services/azure_detection_service.py:94-97 | the intersection's bounds cover exactly the points that lie in both boxes |
| AzureDetection.IntersectsIffSharedPoint | backend/src/services/azure_detection_service.py:94-96 | two boxes meet exactly when some point, edges and corners included, lies in both |
| AzureDetection.TouchingBoxesIntersect | backend/src/services/azure_detection_service.py:94-96 | boxes that only share an edge meet, with an intersection of width 0 |
| AzureDetection.Beside | backend/src/services/azure_detection_service.py:102 | concatenation on axis 1 keeps both label lists and max(r_a, r_b) rows aligned by index, padding with Missing |
| AzureDetection.Stack | backend/src/services/azure_detection_service.py:102 | concatenation on axis 0 gives r_a + r_b rows under the wider label list, each row padded on the right with Missing |
| AzureDetection.Concat | backend/src/services/azure_detection_service.py:97-102 | a tall intersection (width < height) concatenates side by side, and any other stacks |
| AzureDetection.MergingPairsIff | backend/src/services/azure_detection_service.py:86-96 | (i, j) is a merging pair exactly when i < j < n and the two boxes meet |
| AzureDetection.MergingPairsSorted | backend/src/services/azure_detection_service.py:86-88 | the pairs come in strictly increasing lexicographic order: each is visited once |
| AzureDetection.ParticipantIff | backend/src/services/azure_detection_service.py:106-110 | a fragment is excluded exactly when its box meets some other fragment's box |
| AzureDetection.SurvivorIff | backend/src/services/azure_detection_service.py:114-116 | a fragment is returned alone exactly when its box meets no other fragment's box |
| AzureDetection.CollectMerges | backend/src/services/azure_detection_service.py:85-104 | the pair loop returns the merging pairs in visit order and one concatenated frame for each |
| AzureDetection.ExclusionSet | backend/src/services/azure_detection_service.py:106-110 | the excluded set is every index named by a pair |
| AzureDetection.KeepSurvivors | backend/src/services/azure_detection_service.py:112-116 | the kept frames are those whose index is not excluded, in input order |
| AzureDetection.CheckIntersectionOfTables | backend/src/services/azure_detection_service.py:84-118 | the result is the frames that met no other, in input order, then one merged frame per merging pair in visit order; the second result is the merging pairs |
| AzureDetection.ResultCount | backend/src/services/azure_detection_service.py:106-118 | the fragments returned alone number n minus the fragments that took part in a merge |
| AzureDetection.NonEmpty | backend/src/services/azure_detection_service.py:123-128 | a list is in the result exactly when it is a non-empty list of the input; order and repetitions are stated by NonEmptyConcat |
| AzureDetection.NonEmptyConcat | backend/src/services/azure_detection_service.py:123-128 | the lists kept from a concatenation are those kept from each part, so order and repetitions are kept |
| AzureDetection.NonEmptyOne | backend/src/services/azure_detection_service.py:123-128 | a single list is kept exactly when it is non-empty |
| AzureDetection.GetAllPolygons | backend/src/services/azure_detection_service.py:121-130 | the non-empty word boxes in order, then the non-empty table boxes in order |
| DocumentOcr.ValidateDocument | backend/src/routes/document_ocr_route.py:170-175 | a missing name or a name without '.' raises (500); otherwise the name is accepted exactly when the text after the first '.', up to the next '.', is "pdf" |
| DocumentOcr.SplitHasSecond | backend/src/routes/document_ocr_route.py:174 | `split('.')` has a second piece exactly when the name contains a '.' |
| DocumentOcr.SecondPieceIs | backend/src/routes/document_ocr_route.py:174 | the second piece is ext exactly when ext follows the first '.' |
| DocumentOcr.StripBoxes | backend/src/routes/document_ocr_route.py:184-194 | there are ceil(w / 4500) crop boxes, and box i is strip i |
| DocumentOcr.StripsAreContiguous | backend/src/routes/document_ocr_route.py:184-194 | every strip is non-empty and at most 4500 wide; neighbours share an edge; the last ends at w; all span y from 0 to h - 500 |
| DocumentOcr.StripsCoverPage | backend/src/routes/document_ocr_route.py:184-194 | every column x lies in strip x / 4500 |
| DocumentOcr.RebaseIsStripOrigin | backend/src/routes/document_ocr_route.py:215-218 | `get_absolute_bbox(b, 4500, i, 0)` moves a box by exactly the origin of strip i |
| DocumentOcr.CutStrips | backend/src/routes/document_ocr_route.py:185-194 | the strip loop produces exactly the strip boxes; on a page less than 500 pixels high the first crop box is upside down and the loop fails |
| DocumentOcr.RebaseWords | backend/src/routes/document_ocr_route.py:214-216 | each word of strip i keeps its text, and its box is rebased by strip i |
| DocumentOcr.RebaseTables | backend/src/routes/document_ocr_route.py:217-219 | each table of strip i keeps its cells, and its box is rebased by strip i |
| DocumentOcr.TablesOfCount | backend/src/routes/document_ocr_route.py:202-221 | one more strip appends that strip's tables, rebased by its index, after those of the earlier strips |
| DocumentOcr.PrepareOcrData | backend/src/routes/document_ocr_route.py:177-223 | a page of width 0 gives 404; a page less than 500 pixels high fails in the crop, a 500; otherwise the words and tables of every strip are rebased to page coordinates and concatenated in strip order |
| DocumentOcr.BuildAll | backend/src/routes/document_ocr_route.py:52 | the frames are built exactly when every fragment fits its frame, one fresh frame per fragment |
| DocumentOcr.BuildFrames | backend/src/routes/document_ocr_route.py:52 | the comprehension builds exactly those frames, or the first error |
| DocumentOcr.BuildAllStopsAtError | backend/src/routes/document_ocr_route.py:52 | the first fragment that does not fit decides the error |
| DocumentOcr.ExpandedBoxes | backend/src/routes/document_ocr_route.py:54-57 | each fragment's box is grown by 20 on each side |
| DocumentOcr.ExpandTables | backend/src/routes/document_ocr_route.py:54-57 | every fragment keeps its cells and gets the expanded box, 40 wider and 40 taller |
| DocumentOcr.MergedPolygonOfFragments | backend/src/routes/document_ocr_route.py:64-67 | the polygon of merged pair (i, j) is (x_min(i) - 20, y_min(i) - 20, x_max(j) + 20, y_max(j) + 20) of the original boxes |
| DocumentOcr.CollectNewPolygons | backend/src/routes/document_ocr_route.py:64-67 | the loop records one polygon per merging pair, in pair order |
| DocumentOcr.RenamedAll | backend/src/routes/document_ocr_route.py:61-62 | every frame gets its repeated labels renamed |
| DocumentOcr.RenameColumns | backend/src/routes/document_ocr_route.py:61-62 | the rename loop produces exactly that |
| DocumentOcr.RecordsAll | backend/src/routes/document_ocr_route.py:69-76 | the records exist exactly when every frame's labels are distinct, and are each frame's rows |
| DocumentOcr.CollectRecords | backend/src/routes/document_ocr_route.py:69-76 | the records loop produces exactly that |
| DocumentOcr.RecordsNeverRaise | backend/src/routes/document_ocr_route.py:59-76 | after reconciliation and the rename, the records conversion never raises |
| DocumentOcr.EmitOne | backend/src/routes/document_ocr_route.py:88-103 | one pass chooses the polygon, filters, and emits the normalised table only when the filtered grid and its first row are non-empty |
| DocumentOcr.EmitTables | backend/src/routes/document_ocr_route.py:87-103 | the answer loop gives the emitted tables of every pass, in order, or raises at the first failing pass |
| DocumentOcr.EmitsNext | backend/src/routes/document_ocr_route.py:87-103 | one more pass raises, appends its table, or skips |
| DocumentOcr.EmitsStaysNone | backend/src/routes/document_ocr_route.py:87-103 | once a pass has raised, the whole answer is an error |
| DocumentOcr.EmittedData | backend/src/routes/document_ocr_route.py:96-100 | an emitted table is normalised, so it has no '' cell |
| DocumentOcr.EmittedHaveNoBlanks | backend/src/routes/document_ocr_route.py:87-103 | the answer has at most one table per output, and none of them holds a '' cell |
| DocumentOcr.ProcessTables | backend/src/routes/document_ocr_route.py:52-103 | the post-OCR steps give exactly the specified answer, with 500 when a step raises |
| DocumentOcr.ProcessDocument | backend/src/routes/document_ocr_route.py:38-106 | a rejected name gives its error; a page of width 0 gives 404; a page less than 500 pixels high gives 500; otherwise the answer is that of the OCR tables of the page's strips |
| DocumentOcr.PolygonChoiceMisaligned | backend/src/routes/document_ocr_route.py:89-94 | when fragments 0 and 1 merge and 2 stays alone, the outputs are [2, 0+1], yet output 0 gets fragment 0's box and the merged output gets fragment 1's box, never the merged polygon |
| DocumentOcr.PolygonChoiceRaises | backend/src/routes/document_ocr_route.py:89-94 | four mutually meeting fragments give six outputs, and the polygon lookup for the last output indexes past the four boxes, so the request fails |
| WeldTables.Kinds | backend/src/routes/document_ocr_route.py:239-241 | each header cell gets its keyword kind; a None cell gets none, since `lower()` raises on it |
| WeldTables.MaskFromMeaning | backend/src/routes/document_ocr_route.py:238-249 | a visited column is kept exactly when its header names a keyword; the neighbour of a paired header is always kept and never examined |
| WeldTables.MaskFromCrash | backend/src/routes/document_ocr_route.py:239-241 | the header scan raises exactly when it examines a None cell |
| WeldTables.BuildMask | backend/src/routes/document_ocr_route.py:236-249 | the while loop builds exactly that mask |
| WeldTables.KeepByMask | backend/src/routes/document_ocr_route.py:255-257 | a row keeps only entries whose mask bit is set; with every bit set it is unchanged; that every set position is kept, in order, is stated by KeepByMaskConcat and KeepByMaskOne |
| WeldTables.KeepByMaskConcat | backend/src/routes/document_ocr_route.py:255-257 | masking a concatenation masks each part with its own stretch of the mask, so order and repetitions are kept |
| WeldTables.KeepByMaskOne | backend/src/routes/document_ocr_route.py:255-257 | a single cell is kept exactly when its mask bit is set |
| WeldTables.MaskRows | backend/src/routes/document_ocr_route.py:253-258 | every row is cut down to its masked cells |
| WeldTables.KeepColumns | backend/src/routes/document_ocr_route.py:254-258 | a row longer than the mask raises; otherwise the row keeps its masked cells |
| WeldTables.KeepAllColumns | backend/src/routes/document_ocr_route.py:253-258 | the row loop raises exactly when some row is longer than the mask; otherwise every row keeps its masked cells |
| WeldTables.FilterTableData | backend/src/routes/document_ocr_route.py:226-260 | filter_table_data equals its specification: [] for [], else the header's mask applied to every row |
| WeldTables.FilterKeepsRows | backend/src/routes/document_ocr_route.py:253-260 | the filter keeps the row count, and no row grows |
| WeldTables.FilterCrash | backend/src/routes/document_ocr_route.py:239-256 | the filter raises exactly when an examined header cell is None, or a row outgrows the mask |
| WeldTables.FindFrom | backend/src/routes/document_ocr_route.py:270-274 | `find_col_index` finds the first column whose header contains the keyword, ignoring case; it reports none when no header does; it raises at a None header reached first |
| WeldTables.Piece | backend/src/routes/document_ocr_route.py:284-295 | a row with both weld cells filled becomes two rows, the first with the right weld blanked and the second with the left one blanked; any other row is kept |
| WeldTables.SplitAllLength | backend/src/routes/document_ocr_route.py:281-295 | the split adds one row per row that held two welds |
| WeldTables.SplitWeldRows | backend/src/routes/document_ocr_route.py:281-295 | the walk over the data rows, stepping over each inserted row, keeps the header and replaces every data row by its pieces, in order |
| WeldTables.DigitRun | backend/src/routes/document_ocr_route.py:304 | the digit run is the longest all-digit prefix |
| WeldTables.MultiplierAt | backend/src/routes/document_ocr_route.py:304 | a multiplier match is "(x", then digits, then ")" |
| WeldTables.NoParenUnchanged | backend/src/routes/document_ocr_route.py:304 | text without '(' loses nothing |
| WeldTables.TimesTwoRemoved | backend/src/routes/document_ocr_route.py:304 | "(x2)" is removed entirely |
| WeldTables.MultiplierAfterDigits | backend/src/routes/document_ocr_route.py:304 | "45(x2)" becomes "45" |
| WeldTables.MultiplierAfterSpace | backend/src/routes/document_ocr_route.py:304 | "121 (x2)" becomes "121 ", keeping the space |
| WeldTables.PlainNumberKept | backend/src/routes/document_ocr_route.py:304 | "100" is unchanged |
| WeldTables.StripSpec | backend/src/routes/document_ocr_route.py:299-306 | the multiplier strip keeps the row count |
| WeldTables.StripMultipliers | backend/src/routes/document_ocr_route.py:301-306 | the loop strips the multipliers from column c of every data row only |
| WeldTables.NoParenIsZero | backend/src/routes/document_ocr_route.py:308-311 | text without '(' reads as 0 |
| WeldTables.ParenNumberRoundTrip | backend/src/routes/document_ocr_route.py:308-311 | "(n)" reads back as n for every n |
| WeldTables.OverlapExamples | backend/src/routes/document_ocr_route.py:317 | "(3)" and "(4)" sum to "7", and "5" counts as 0 |
| WeldTables.SumSpec | backend/src/routes/document_ocr_route.py:316-321 | each data row's cell o becomes the sum of the numbers of cells o and o + 1, and cell o + 1 is deleted; the header keeps both |
| WeldTables.SumOverlaps | backend/src/routes/document_ocr_route.py:316-321 | computing every sum first, then rewriting the rows, gives exactly that |
| WeldTables.PruneRow | backend/src/routes/document_ocr_route.py:325 | the row keeps every cell other than '' (None included), and only those; order and repetitions are stated by PruneRowConcat |
| WeldTables.PruneRowConcat | backend/src/routes/document_ocr_route.py:325 | pruning a concatenation prunes each part, so order and repetitions are kept |
| WeldTables.PruneRowOne | backend/src/routes/document_ocr_route.py:325 | a single cell survives exactly when it is not '' |
| WeldTables.PruneAll | backend/src/routes/document_ocr_route.py:323-326 | every row is pruned, and the row count is kept |
| WeldTables.PruneEmpty | backend/src/routes/document_ocr_route.py:323-326 | the final loop prunes every row, the header included |
| WeldTables.UpdateTableFormat | backend/src/routes/document_ocr_route.py:263-328 | update_table_format equals its step-by-step specification, including each way it raises |
| WeldTables.UpdateKeepsHeader | backend/src/routes/document_ocr_route.py:279-326 | the header row is changed only by the final pruning |
| WeldTables.UpdateLeavesNoBlanks | backend/src/routes/document_ocr_route.py:323-326 | no '' cell survives, in any row |
| WeldTables.UpdateRowCount | backend/src/routes/document_ocr_route.py:279-295 | the result has one row fewer than the input, plus one per split row |
| DocumentProcess.FullStrips | backend/src/services/document_process_service.py:85-101 | a zero section size or an empty image raises; otherwise there are ceil(w / s) strips |
| DocumentProcess.FullStripsTile | backend/src/services/document_process_service.py:94-98 | every strip is non-empty, at most s wide and full height; the first starts at 0; each starts where the previous ends; the last ends at w |
| DocumentProcess.FullStripsCover | backend/src/services/document_process_service.py:94-98 | every column x lies in strip x / s |
| DocumentProcess.StripsAre | backend/src/services/document_process_service.py:94-98 | strip i of the list is the strip the loop cuts at i |
| DocumentProcess.PrepareOcrImages | backend/src/services/document_process_service.py:85-106 | the loop and the empty check give exactly FullStrips |
| DocumentProcess.Scale | backend/src/services/document_process_service.py:117 | `math.floor(v x factor)` for the factor num / den |
| DocumentProcess.ScaleByOne | backend/src/services/document_process_service.py:108-117 | with the factor 1 the size is unchanged |
| DocumentProcess.FirstBadRegion | backend/src/services/document_process_service.py:112-114 | finds the first region whose corners are out of order, or reports that there is none |
| DocumentProcess.PreparedRegions | backend/src/services/document_process_service.py:108-126 | one segment per region, in order, cropped to the region and resized by the factor; an empty list, or a crop with corners out of order, raises |
| DocumentProcess.DefaultFactorKeepsSize | backend/src/services/document_process_service.py:115-117 | with the default factor 1 each segment keeps its crop's size |
| DocumentProcess.PrepareOcrImageFromRegion | backend/src/services/document_process_service.py:108-126 | the loop produces exactly PreparedRegions |
| DocumentProcess.RegionBox | backend/src/services/document_process_service.py:42 | reordering into [x_min, y_min, x_max, y_max] and unpacking puts each stored coordinate at its own corner |
| DocumentProcess.RegionBoxes | backend/src/services/document_process_service.py:42 | one crop box per stored region, in order |
| DocumentProcess.StoreCellRoundTrip | backend/src/services/document_process_service.py:63-74 | storing keeps every field of a cell and starts it unselected |
| DocumentProcess.StoredCells | backend/src/services/document_process_service.py:62-74 | every cell is stored, in order |
| DocumentProcess.StoreTable | backend/src/services/document_process_service.py:54-77 | a stored table keeps its counts and cells, with polygon [0, 0, 0, 0], under the current meta table |
| DocumentProcess.CopyCells | backend/src/services/document_process_service.py:62-74 | the cell loop stores exactly those cells |
| DocumentProcess.StoreAll | backend/src/services/document_process_service.py:53-77 | every table of an OCR answer is stored, in order |
| DocumentProcess.StoredFromSegmentsWell | backend/src/services/document_process_service.py:50-77 | every table stored for a file is well formed and carries that file's meta table id |
| DocumentProcess.OcrSegments | backend/src/services/document_process_service.py:50-77 | the segment and table loops store every table of every segment, in order |
| DocumentProcess.MetaTableStore.CreateMetaTable | backend/src/repository/meta_table_repository.py:8-17 | one meta table is added for the project, and its id is returned |
| DocumentProcess.MetaTableStore.InsertTables | backend/src/repository/meta_table_repository.py:19-35 | the tables are appended in list order |
| DocumentProcess.WithRegions | backend/src/services/document_process_service.py:38-40 | a file is kept exactly when it is a scanned file with at least one region; order and repetitions are stated by WithRegionsConcat and WithRegionsOne |
| DocumentProcess.WithRegionsConcat | backend/src/services/document_process_service.py:38-40 | the files kept from a concatenation are those kept from each part, in order |
| DocumentProcess.WithRegionsOne | backend/src/services/document_process_service.py:38-40 | a single file is kept exactly when it has a region |
| DocumentProcess.RunSkipsFilesWithoutRegions | backend/src/services/document_process_service.py:38-40 | files without regions change nothing |
| DocumentProcess.RunLastIsLastCreated | backend/src/services/document_process_service.py:27-83 | the answer is None exactly when no file has regions; otherwise it is the id of the last meta table created, and the stored lists only grow |
| DocumentProcess.RunStoresWell | backend/src/services/document_process_service.py:44-79 | every table a run stores has polygon [0, 0, 0, 0], unselected cells and the id of a meta table it created |
| DocumentProcess.RunRaisedStays | backend/src/services/document_process_service.py:32-79 | once a crop has raised, later files change nothing |
| DocumentProcess.ProcessDiagram | backend/src/services/document_process_service.py:21-83 | a missing file, a missing name or no scanned files gives None and stores nothing; otherwise the store and the answer are those of the run over the scanned files |
| FileRoute.LastPieceStart | backend/src/routes/file_route.py:316 | `split('.')[-1]` is the text after the last '.', or the whole name when there is none |
| FileRoute.LastPieceIs | backend/src/routes/file_route.py:316-317 | the last piece is ext exactly when the name is ext or ends in "." + ext |
| FileRoute.GetDocumentPath | backend/src/routes/file_route.py:319-324 | a missing name raises; otherwise the extension holds no '.' and is the name or its ending after a '.' |
| FileRoute.ValidateDocument | backend/src/routes/file_route.py:311-317 | a missing name raises; otherwise the name is accepted exactly when it is "pdf" or "tif" or ends in ".pdf" or ".tif", case-sensitively |
| FileRoute.UploadBranch | backend/src/routes/file_route.py:113-132 | the pdf converter for a name ending in pdf, the tif converter for one ending in tif, and 400 for every other name |
| FileRoute.UploadTypeIsNeverInvalid | backend/src/routes/file_route.py:127-132 | the 500 "file type is invalid" branch is dead |
| FileRoute.CheckPages | backend/src/routes/file_route.py:167-169 | the pages pass exactly when every one lies in [0, page count) |
| FileRoute.SelectPagesToScan | backend/src/routes/file_route.py:156-171 | a missing file raises; a page outside [0, page count) gives 400; otherwise the pages are stored |
| FileRoute.RescaleIsCeiling | backend/src/routes/file_route.py:232-237 | the rescaled coordinate is ceil(v / s) for the scale factors 1, 2/5 and 1/10 |
| FileRoute.Accepted | backend/src/routes/file_route.py:239-253 | accepted regions carry the label "" and lie inside the image; that they are the rescaled passing request regions, in order, is stated by AcceptedConcat and AcceptedOne |
| FileRoute.Rejected | backend/src/routes/file_route.py:254-255 | rejected regions are the request regions whose rescaled form fails the bounds test; with the accepted ones they account for every region |
| FileRoute.AcceptedConcat | backend/src/routes/file_route.py:239-253 | the regions accepted from a concatenation are those accepted from each part, in request order |
| FileRoute.AcceptedOne | backend/src/routes/file_route.py:239-253 | a single region is stored, rescaled, exactly when its rescaled form passes the bounds test |
| FileRoute.RejectedConcat | backend/src/routes/file_route.py:254-255 | the regions rejected from a concatenation are those rejected from each part, in request order |
| FileRoute.RejectedOne | backend/src/routes/file_route.py:254-255 | a single region is rejected exactly when its rescaled form fails the bounds test |
| FileRoute.NothingRejected | backend/src/routes/file_route.py:247-257 | nothing is rejected exactly when every rescaled region lies inside the image |
| FileRoute.AllAccepted | backend/src/routes/file_route.py:247-263 | when nothing is rejected, the accepted regions are all the rescaled regions, in order |
| FileRoute.ClassifyRegions | backend/src/routes/file_route.py:230-255 | the loop splits the regions into exactly the accepted and the rejected ones |
| FileRoute.RegionStore.SaveRegion | backend/src/repository/file_repository.py:72-92 | an unknown scanned file or file returns false and stores nothing; otherwise the region is appended |
| FileRoute.CreateFileRegionBatch | backend/src/routes/file_route.py:204-268 | a missing scanned file raises; more than 10 regions gives 400; any rejected region gives 400 naming it, with nothing stored; otherwise every accepted region is stored in order, and a failed save gives 404 |
| ContourDetection.SeqMin | backend/contour_detection.py:85 | the smallest entry of the list |
| ContourDetection.SeqMax | backend/contour_detection.py:85 | the largest entry of the list |
| ContourDetection.AllX | backend/contour_detection.py:80-82 | the even entries, in order |
| ContourDetection.AllY | backend/contour_detection.py:80-83 | the odd entries, in order |
| ContourDetection.GetBoundingBox | backend/contour_detection.py:76-85 | the same box `polygon_to_bounding_box` computes |
| ContourDetection.ConvertTo2Dim | backend/contour_detection.py:87-91 | Python's divmod: index = q m + r, with r in [0, m) for m > 0 and in (m, 0] for m < 0; m = 0 raises |
| ContourDetection.ConvertInvertsFlattening | backend/contour_detection.py:87-91 | for 0 <= j < m, converting i m + j gives back (i, j) |
| ContourDetection.FlatteningInvertsConvert | backend/contour_detection.py:87-91 | the quotient and remainder flatten back to the index |
| ContourDetection.CreateImageSegments | backend/contour_detection.py:27-52 | the grid uses the local chunk size 3000, and tile (i, j) is (3000 i, 3000 j, min(3000 i + 3000, W), min(3000 j + 3000, H)) |
| ContourDetection.AbsoluteAt | backend/contour_detection.py:133-148 | each box of tile (i, j) appears moved by (i c, j c), right after the boxes of every earlier tile in i-major order |
| ContourDetection.Absolute | backend/contour_detection.py:137-146 | the output length is the sum of the per-tile box counts |
| ContourDetection.GetAbsoluteBboxes | backend/contour_detection.py:133-148 | a missing tile list raises; otherwise the result is every tile's boxes, rebased, in i-major order |
| ContourDetection.NormalizeLine | backend/contour_detection.py:173-180 | the endpoints come out in tuple order and are the same two points |
| ContourDetection.NormalizeIgnoresDirection | backend/contour_detection.py:173-180 | swapping the endpoints gives the same line |
| Engine.NormIsFilter | backend/src/calculation_engine/engine.py:16-26 | the normal form is the stripped, lower-cased header with exactly the deleted characters removed, the rest in order |
| Engine.NormHasNoDeleted | backend/src/calculation_engine/engine.py:16-26 | no space, no-break space, underscore, bracket or hyphen survives |
| Engine.NormIgnoresCase | backend/src/calculation_engine/engine.py:16-26 | headers that differ only in letter case normalise alike |
| Engine.NormIgnoresInnerDeleted | backend/src/calculation_engine/engine.py:16-26 | a deleted character inside a header does not change its normal form |
| Engine.NormIdempotentWhenTrimmed | backend/src/calculation_engine/engine.py:16-26 | normalising twice changes nothing when the normal form has no whitespace at its ends |
| Engine.NormNotIdempotent | backend/src/calculation_engine/engine.py:16-26 | "_\tx" normalises to "\tx" and only then to "x", so normalising is not idempotent |
| Engine.NormOfClean | backend/src/calculation_engine/engine.py:16-26 | a trimmed header with no deleted character normalises to its lower case |
| Engine.HeaderMap | backend/src/calculation_engine/engine.py:29-56 | each listed header is keyed by its normal form, in list order, and no two keys are equal, so no entry of the dict literal is lost to a repeated key |
| Engine.EveryFieldListed | backend/src/calculation_engine/engine.py:29-56 | every field of the machine record has a header in the table |
| Engine.KeysDistinct | backend/src/calculation_engine/engine.py:29-56 | no two listed headers share a normal form |
| Engine.NormAppend | backend/src/calculation_engine/engine.py:16-26 | a trimmed part, a run of deleted characters and a clean piece normalise to the part's normal form followed by the piece in lower case |
| Engine.NormAppendLast | backend/src/calculation_engine/engine.py:16-26 | a closing run of deleted characters does not change the normal form |
| Engine.KeyDmr | backend/src/calculation_engine/engine.py:39 | "SEP_SQLDMR" is keyed "sep" followed by "sqldmr" |
| Engine.KeySubApplication | backend/src/calculation_engine/engine.py:31 | "Sub Application" is keyed "sub" followed by "application" |
| Engine.KeyPowerConsumptionTotalKw | backend/src/calculation_engine/engine.py:55 | "power consumption TOTAL [kW]" is keyed "powerconsumptiontotalkw", piece by piece |
| Engine.HeaderIndex | backend/src/calculation_engine/engine.py:94 | each normal form maps to a file header that has it |
| Engine.HeaderIndexCoversFile | backend/src/calculation_engine/engine.py:94 | every header of the file is reachable through its normal form |
| Engine.LastHeaderWins | backend/src/calculation_engine/engine.py:94 | of several headers with one normal form, the last in the file is used |
| Engine.ColumnFeedsKey | backend/src/calculation_engine/engine.py:106-108 | a value read for a key comes from a column whose header normalises to that key, and such a column present in the row is read |
| Engine.StrippedOrEmpty | backend/src/calculation_engine/engine.py:119 | an absent value gives ""; the result has no whitespace at its ends |
| Engine.EfficiencyClass | backend/src/calculation_engine/engine.py:120-123 | the motor efficiency is none exactly when the stripped value is empty, a hyphen or a dash; otherwise it is the stripped value |
| Engine.EfficiencyClassAsWritten | backend/src/calculation_engine/engine.py:123 | the test as written treats as none only "", "-" and two mis-encoded dashes |
| Engine.EmDashSlipsThrough | backend/src/calculation_engine/engine.py:123 | a real em dash is kept as text by the written test and dropped by the intended one |
| Engine.Convert | backend/src/calculation_engine/engine.py:110-125 | text fields get the stripped value; the motor efficiency gets its class by the test as written; every other field keeps the raw value for the numeric conversion |
| Engine.RowFields | backend/src/calculation_engine/engine.py:105-125 | the keyword arguments hold exactly the fields the table names, each converted as written |
| Engine.RowFieldAt | backend/src/calculation_engine/engine.py:106-125 | a field named once takes the converted value of its own key's column |
| Engine.RowKwargs | backend/src/calculation_engine/engine.py:105-125 | the loop over the table builds exactly those arguments, with the efficiency test as written |
| Engine.EveryFieldConverted | backend/src/calculation_engine/engine.py:105-125 | with the loader's table every field of the record receives a value |
| Engine.LoaderKeepsEmDash | backend/src/calculation_engine/engine.py:120-125 | the loader keeps a real em dash in the efficiency column as the efficiency class, where the intended test gives none |
| Engine.LoadRows | backend/src/calculation_engine/engine.py:97-127 | one machine per row, in order, each built by the conversion as written |
| Engine.LoadMachinesFromCsv | backend/src/calculation_engine/engine.py:74-129 | a missing file gives the error naming the path; otherwise one machine per row, in order, with fields read through the normalised headers and converted as written |
| Engine.Keep | backend/src/calculation_engine/engine.py:20-25 | `replace(c, "")` leaves no deleted character and never lengthens the text |
| Engine.KeepKeep | backend/src/calculation_engine/engine.py:20-25 | filtering twice is filtering once by both sets, so the six replaces are one filter |
| Text.Lower | backend/src/calculation_engine/engine.py:19 | lower-casing keeps the length and maps each character |
| Text.Strip | backend/src/calculation_engine/engine.py:18 | the stripped text has no whitespace at either end |
| Text.Split | backend/src/routes/file_route.py:316 | `split` on one separator gives at least one piece, and no piece holds the separator |
| Text.SplitJoin | backend/src/routes/file_route.py:316 | joining the pieces with the separator gives back the string |
| Text.NatToStringRoundTrip | backend/src/routes/document_ocr_route.py:317 | reading back what `str` writes gives the number |
| SheetGrid.Blank | frontend/src/utils/generate-xlsx-data.ts:26-29 | rows x cols entries of '' |
| SheetGrid.SetAt | frontend/src/utils/generate-xlsx-data.ts:33 | a write replaces one entry, or appends at the row's end; all other entries are kept |
| XlsxData.Extent | frontend/src/utils/generate-xlsx-data.ts:50-66 | the largest last row (or column) of the cells, starting from 0 |
| XlsxData.FindTableDimensions | frontend/src/utils/generate-xlsx-data.ts:50-66 | the dimensions are one more than the largest last row and column |
| XlsxData.Fill | frontend/src/utils/generate-xlsx-data.ts:32-33 | writing throws exactly when some anchor row is missing; otherwise rows are kept and never shrink |
| XlsxData.FillContent | frontend/src/utils/generate-xlsx-data.ts:32-33 | each position ends with the content of the last cell anchored there, or keeps its own |
| XlsxData.Merges | frontend/src/utils/generate-xlsx-data.ts:35-43 | at most one merge per cell |
| XlsxData.MergesMatchSpanningCells | frontend/src/utils/generate-xlsx-data.ts:35-43 | exactly one merge per spanning cell; when the spans fit the grid, so do the merge ends |
| XlsxData.PositiveSpansFit | frontend/src/utils/generate-xlsx-data.ts:24-43 | with spans of at least 1, every anchor and every merge end lies inside the grid |
| XlsxData.WriteCells | frontend/src/utils/generate-xlsx-data.ts:32-44 | the forEach loop writes every content at its anchor and collects the merges in input order |
| XlsxData.GenerateXlsxData | frontend/src/utils/generate-xlsx-data.ts:18-47 | an empty input gives an empty sheet; a TypeError exactly when an anchor row lies past the grid; otherwise the filled grid and the merges |
| XlsxData.SheetContent | frontend/src/utils/generate-xlsx-data.ts:26-33 | each position of the grid holds the content of the last cell anchored there, or '' |
| JsonTable.Span | frontend/src/utils/json-table-to-2d-array.ts:13-14 | a span of 0 counts as 1; any other span is kept |
| JsonTable.MaxOf | frontend/src/utils/json-table-to-2d-array.ts:4-5 | the largest entry of the list |
| JsonTable.PaintCols | frontend/src/utils/json-table-to-2d-array.ts:17-19 | the columns in the span get the content, other entries are kept, and the row grows to reach the last column |
| JsonTable.PaintRect | frontend/src/utils/json-table-to-2d-array.ts:16-20 | every row of the span is painted; a missing row throws |
| JsonTable.PaintAll | frontend/src/utils/json-table-to-2d-array.ts:9-21 | painting throws exactly when some span reaches past the last row |
| JsonTable.PaintAllContent | frontend/src/utils/json-table-to-2d-array.ts:9-21 | each position holds the content of the last cell whose span covers it, or keeps its value |
| JsonTable.PaintAllWidth | frontend/src/utils/json-table-to-2d-array.ts:16-20 | when every column span ends within the grid, no row grows |
| JsonTable.PaintSpan | frontend/src/utils/json-table-to-2d-array.ts:9-21 | the body for one cell paints exactly its span |
| JsonTable.PaintRow | frontend/src/utils/json-table-to-2d-array.ts:17-19 | the inner loop paints exactly the span's columns |
| JsonTable.JsonTableTo2dArray | frontend/src/utils/json-table-to-2d-array.ts:3-24 | no cells gives []; a TypeError exactly when a row span passes the last row; otherwise the blank grid with every span painted in order |
| JsonTable.TableContent | frontend/src/utils/json-table-to-2d-array.ts:7-21 | each position holds the content of the last covering cell, and '' where no span covers it |
| JsonTable.TableShape | frontend/src/utils/json-table-to-2d-array.ts:4-7 | the array has max row_index + 1 rows; spans do not enlarge it unless a column span overruns |
| JsonTable.UnitSpansFit | frontend/src/utils/json-table-to-2d-array.ts:16-20 | a table whose spans are all 1 never throws |

## Left out

- OCR service: the document-analysis client and its network call (backend/src/services/azure_detection_service.py:17-47 and all of azure_detection_service_dup.py) are not modelled. The OCR answer is a function parameter.
- Raster and PDF work is not modelled: opening, cropping, resizing and encoding images, and rendering PDF pages. A crop is its rectangle. The rendered page size is a parameter. The preview resize in file_route.py:83-100 is left out.
- Persistence beyond the writes the routes make is not modelled. The meta table, table, cell and region stores are classes with sequences. Database ids are positions in those sequences, and the repository queries are inputs (found or not).
- HTTP plumbing is not modelled. An uncaught Python exception is a 500 error value or an error outcome. The process-wide `data_mem_df` cache is not modelled.
- The `/process/xlsx` endpoint and `/image` of the OCR route are not modelled. The first cannot run as written: it reads a name assigned later in the same function.
- Other CRUD routes are not modelled: listing, reading and deleting files, regions and meta tables. Their only logic is a repository call.
- The TCO simulation and `_to_float` in engine.py are not modelled: they are floating-point arithmetic. The numeric fields keep their raw text. The unused `cell` helper inside the row loop is not modelled.
- The computer-vision, plotting and file-output parts of backend/contour_detection.py are not modelled.
- Text: `str.lower()` is modelled on ASCII letters, and `\d` on the ASCII digits. `str.isspace()` is modelled on the common whitespace characters.
- FileRoute.Rescale: the float scale factors 0.4 and 0.1 are modelled as the exact rationals 2/5 and 1/10, and the ceiling is taken exactly. That the float division gives the same integer is argued, not proved, and only for non-negative coordinates. For a negative coordinate the model still gives the exact ceiling, which the float result need not match.
- PolygonBox.PolygonToBoundingBox requires an even, non-empty list, where the source raises on other lists.
- Cell indices and spans in the frontend builders are `nat`. The frontend's behaviour for negative indices (JavaScript property writes on arrays) is not modelled.
- The cell fields the builders do not read are left out: `id`, `kind` and `changed` in the frontend, and `kind` in the table builder.
- DocumentOcr.ChoosePolygon models the polygon choice literally, including its misalignment. No corrected choice is modelled, because the source gives no other rule to follow.

## Findings

| source | as written | input that shows it | evidently intended | confidence | as-written member | corrected member |
|---|---|---|---|---|---|---|
| backend/src/calculation_engine/engine.py:123 | the no-efficiency test compares the stripped value with "", "-" and two mis-encoded dashes (the UTF-8 bytes of an em or en dash read as cp1252 text) | a motor efficiency cell holding an em dash, U+2014 | an em dash or en dash in the cell means no efficiency class, like "-" | medium, not executed | Engine.LoaderKeepsEmDash | Engine.EfficiencyClass |
