/**
 * The spreadsheet export of a table: the grid of cell contents at their
 * anchors and one merge range per spanning cell.
 */
module XlsxData {
  import opened Wrappers
  import opened SheetGrid

  /** A sheet position. */
  datatype Position = Position(r: int, c: int)

  /** A merged range from its start to its end position, both inclusive. */
  datatype MergeRange = MergeRange(s: Position, e: Position)

  /** The export: the data rows and the merged ranges. */
  datatype Sheet = Sheet(data: Grid, merges: seq<MergeRange>)

  /** What assigning into a missing row throws. */
  const TypeError := "Cannot set properties of undefined"

  datatype Axis = RowAxis | ColAxis

  /** The last row (or column) a cell's span reaches: index + span - 1. */
  function Last(cell: SheetCell, axis: Axis): int
  {
    match axis
    case RowAxis => cell.rowIndex + cell.rowSpan - 1
    case ColAxis => cell.colIndex + cell.colSpan - 1
  }

  /** The largest last row (or column) of the cells, starting from 0. */
  function Extent(cells: seq<SheetCell>, axis: Axis): (m: nat)
    ensures forall k :: 0 <= k < |cells| ==> Last(cells[k], axis) <= m
    ensures m == 0 || exists k :: 0 <= k < |cells| && Last(cells[k], axis) == m
  {
    if cells == [] then 0
    else
      var init, last := cells[..|cells| - 1], cells[|cells| - 1];
      var m := Extent(init, axis);
      assert forall k :: 0 <= k < |init| ==> cells[k] == init[k];
      if Last(last, axis) > m then Last(last, axis) else m
  }

  /** findTableDimensions: one more than the largest last row and column. */
  method FindTableDimensions(cells: seq<SheetCell>) returns (rows: nat, cols: nat)
    ensures rows == Extent(cells, RowAxis) + 1 && cols == Extent(cells, ColAxis) + 1
  {
    var maxRow, maxCol := 0, 0;
    for k := 0 to |cells|
      invariant maxRow == Extent(cells[..k], RowAxis) && maxCol == Extent(cells[..k], ColAxis)
    {
      var lastRow := cells[k].rowIndex + cells[k].rowSpan - 1;
      var lastCol := cells[k].colIndex + cells[k].colSpan - 1;
      maxRow := if lastRow > maxRow then lastRow else maxRow;
      maxCol := if lastCol > maxCol then lastCol else maxCol;
      assert cells[..k + 1][..k] == cells[..k];
    }
    assert cells[..|cells|] == cells;
    return maxRow + 1, maxCol + 1;
  }

  /** Every anchor column is at most the column count (a column span is never negative). */
  lemma AnchorColumnsFit(cells: seq<SheetCell>)
    ensures forall k :: 0 <= k < |cells| ==> cells[k].colIndex <= Extent(cells, ColAxis) + 1
  {
  }

  /**
   * The grid after writing each cell's content at its anchor, in order; None
   * when a cell's row does not exist, where the source throws.
   */
  function Fill(g: Grid, cells: seq<SheetCell>, cols: nat): (r: Option<Grid>)
    requires forall i :: 0 <= i < |g| ==> |g[i]| >= cols
    requires forall k :: 0 <= k < |cells| ==> cells[k].colIndex <= cols
    ensures r.None? <==> exists k :: 0 <= k < |cells| && cells[k].rowIndex >= |g|
    ensures r.Some? ==> |r.value| == |g| && forall i :: 0 <= i < |g| ==> |r.value[i]| >= |g[i]|
  {
    if cells == [] then Some(g)
    else
      var init, last := cells[..|cells| - 1], cells[|cells| - 1];
      assert forall k :: 0 <= k < |init| ==> cells[k] == init[k];
      match Fill(g, init, cols)
      case None => None
      case Some(h) =>
        if last.rowIndex >= |h| then None
        else Some(h[last.rowIndex := SetAt(h[last.rowIndex], last.colIndex, last.content)])
  }

  /** The content of the last cell anchored at (i, j), or the given default. */
  function AnchoredAt(cells: seq<SheetCell>, i: nat, j: nat, default: string): string
  {
    if cells == [] then default
    else
      var last := cells[|cells| - 1];
      if last.rowIndex == i && last.colIndex == j then last.content
      else AnchoredAt(cells[..|cells| - 1], i, j, default)
  }

  /** Each position of the original grid ends with the content of the last cell anchored there, or keeps its own. */
  lemma {:induction false} FillContent(g: Grid, cells: seq<SheetCell>, cols: nat, i: nat, j: nat)
    requires forall i' :: 0 <= i' < |g| ==> |g[i']| >= cols
    requires forall k :: 0 <= k < |cells| ==> cells[k].colIndex <= cols
    requires Fill(g, cells, cols).Some? && i < |g| && j < |g[i]|
    ensures Fill(g, cells, cols).value[i][j] == AnchoredAt(cells, i, j, g[i][j])
  {
    if cells != [] {
      var init := cells[..|cells| - 1];
      assert forall k :: 0 <= k < |init| ==> cells[k] == init[k];
      FillContent(g, init, cols, i, j);
    }
  }

  /** The merge ranges of the spanning cells, in input order. */
  function Merges(cells: seq<SheetCell>): (ms: seq<MergeRange>)
    ensures |ms| <= |cells|
  {
    if cells == [] then []
    else
      var init, cell := cells[..|cells| - 1], cells[|cells| - 1];
      if cell.rowSpan > 1 || cell.colSpan > 1
      then Merges(init) + [MergeRange(Position(cell.rowIndex, cell.colIndex), Position(Last(cell, RowAxis), Last(cell, ColAxis)))]
      else Merges(init)
  }

  /** The number of cells spanning more than one row or column. */
  function SpanningCount(cells: seq<SheetCell>): nat
  {
    if cells == [] then 0
    else
      var last := cells[|cells| - 1];
      SpanningCount(cells[..|cells| - 1]) + (if last.rowSpan > 1 || last.colSpan > 1 then 1 else 0)
  }

  /**
   * One merge per spanning cell; when every cell's last row and column lie
   * inside the grid, so does every merge's end.
   */
  lemma {:induction false} MergesMatchSpanningCells(cells: seq<SheetCell>, rows: nat, cols: nat)
    requires forall k :: 0 <= k < |cells| ==> Last(cells[k], RowAxis) < rows && Last(cells[k], ColAxis) < cols
    ensures |Merges(cells)| == SpanningCount(cells)
    ensures forall m :: 0 <= m < |Merges(cells)| ==>
      var range := Merges(cells)[m];
      range.e.r < rows && range.e.c < cols
  {
    if cells != [] {
      var init := cells[..|cells| - 1];
      assert forall k :: 0 <= k < |init| ==> cells[k] == init[k];
      MergesMatchSpanningCells(init, rows, cols);
      var ms := Merges(init);
      assert forall m :: 0 <= m < |ms| ==> Merges(cells)[m] == ms[m];
    }
  }

  /**
   * With spans of at least one, no write misses its row: every anchor lies
   * inside the grid findTableDimensions measures, and so does every merge end.
   */
  lemma PositiveSpansFit(cells: seq<SheetCell>)
    requires forall k :: 0 <= k < |cells| ==> cells[k].rowSpan >= 1 && cells[k].colSpan >= 1
    ensures forall k :: 0 <= k < |cells| ==>
      cells[k].rowIndex < Extent(cells, RowAxis) + 1 && cells[k].colIndex < Extent(cells, ColAxis) + 1
    ensures forall m :: 0 <= m < |Merges(cells)| ==>
      var range := Merges(cells)[m];
      range.e.r < Extent(cells, RowAxis) + 1 && range.e.c < Extent(cells, ColAxis) + 1
  {
    MergesMatchSpanningCells(cells, Extent(cells, RowAxis) + 1, Extent(cells, ColAxis) + 1);
  }

  /** The forEach loop: each cell's content written at its anchor and its merge collected. */
  method WriteCells(g: Grid, cells: seq<SheetCell>, cols: nat) returns (data: Option<Grid>, merges: seq<MergeRange>)
    requires forall i :: 0 <= i < |g| ==> |g[i]| >= cols
    requires forall k :: 0 <= k < |cells| ==> cells[k].colIndex <= cols
    ensures data == Fill(g, cells, cols)
    ensures data.Some? ==> merges == Merges(cells)
  {
    var grid := g;
    merges := [];
    for k := 0 to |cells|
      invariant Fill(g, cells[..k], cols) == Some(grid)
      invariant merges == Merges(cells[..k])
    {
      var cell := cells[k];
      assert cells[..k + 1][..k] == cells[..k];
      if cell.rowIndex >= |grid| {
        return None, merges;
      }
      grid := grid[cell.rowIndex := SetAt(grid[cell.rowIndex], cell.colIndex, cell.content)];
      if cell.rowSpan > 1 || cell.colSpan > 1 {
        merges := merges + [MergeRange(Position(cell.rowIndex, cell.colIndex),
          Position(cell.rowIndex + cell.rowSpan - 1, cell.colIndex + cell.colSpan - 1))];
      }
    }
    assert cells[..|cells|] == cells;
    return Some(grid), merges;
  }

  /**
   * generateXlsxData: an empty sheet for no cells; otherwise the
   * rows x cols blank grid with each cell's content at its anchor, and the
   * merges, or the TypeError when a cell's anchor row is outside the grid.
   */
  method GenerateXlsxData(cells: seq<SheetCell>) returns (r: Result<Sheet, string>)
    ensures cells == [] ==> r == Ok(Sheet([], []))
    ensures cells != [] ==> (r.Err? <==> exists k :: 0 <= k < |cells| && cells[k].rowIndex > Extent(cells, RowAxis))
    ensures r.Err? ==> r.error == TypeError
    ensures cells != [] && r.Ok? ==>
      var rows, cols := Extent(cells, RowAxis) + 1, Extent(cells, ColAxis) + 1;
      Fill(Blank(rows, cols), cells, cols) == Some(r.value.data) && r.value.merges == Merges(cells)
  {
    if cells == [] {
      return Ok(Sheet([], []));
    }
    var rows, cols := FindTableDimensions(cells);
    AnchorColumnsFit(cells);
    var data, merges := WriteCells(Blank(rows, cols), cells, cols);
    if data.None? {
      return Err(TypeError);
    }
    return Ok(Sheet(data.value, merges));
  }

  /**
   * In the exported grid each position holds the content of the last cell
   * anchored there, and '' where no cell is anchored.
   */
  lemma SheetContent(cells: seq<SheetCell>, i: nat, j: nat)
    requires cells != []
    requires var cols := Extent(cells, ColAxis) + 1;
      Fill(Blank(Extent(cells, RowAxis) + 1, cols), cells, cols).Some?
    requires i <= Extent(cells, RowAxis) && j <= Extent(cells, ColAxis)
    ensures var rows, cols := Extent(cells, RowAxis) + 1, Extent(cells, ColAxis) + 1;
      Fill(Blank(rows, cols), cells, cols).value[i][j] == AnchoredAt(cells, i, j, "")
  {
    var rows, cols := Extent(cells, RowAxis) + 1, Extent(cells, ColAxis) + 1;
    AnchorColumnsFit(cells);
    FillContent(Blank(rows, cols), cells, cols, i, j);
  }
}
