/**
 * The conversion of a table's JSON cells into a two-dimensional array in
 * which every cell's content fills its whole row and column span.
 */
module JsonTable {
  import opened Wrappers
  import opened SheetGrid

  /** What assigning into a missing row throws. */
  const TypeError := "Cannot set properties of undefined"

  /** `span || 1`: a span of 0 counts as 1. */
  function Span(span: nat): (n: nat)
    ensures n >= 1 && (span >= 1 ==> n == span)
  {
    if span == 0 then 1 else span
  }

  /** The largest entry of a non-empty list. */
  function MaxOf(xs: seq<nat>): (m: nat)
    requires |xs| > 0
    ensures forall k :: 0 <= k < |xs| ==> xs[k] <= m
    ensures exists k :: 0 <= k < |xs| && xs[k] == m
  {
    if |xs| == 1 then xs[0]
    else
      var m := MaxOf(xs[..|xs| - 1]);
      assert forall k :: 0 <= k < |xs| - 1 ==> xs[..|xs| - 1][k] == xs[k];
      if xs[|xs| - 1] > m then xs[|xs| - 1] else m
  }

  function RowIndices(cells: seq<SheetCell>): (xs: seq<nat>)
    ensures |xs| == |cells| && forall k :: 0 <= k < |cells| ==> xs[k] == cells[k].rowIndex
  {
    seq(|cells|, k requires 0 <= k < |cells| => cells[k].rowIndex)
  }

  function ColIndices(cells: seq<SheetCell>): (xs: seq<nat>)
    ensures |xs| == |cells| && forall k :: 0 <= k < |cells| ==> xs[k] == cells[k].colIndex
  {
    seq(|cells|, k requires 0 <= k < |cells| => cells[k].colIndex)
  }

  /** Whether a cell's span covers position (i, j). */
  predicate Covers(cell: SheetCell, i: int, j: int)
  {
    cell.rowIndex <= i < cell.rowIndex + Span(cell.rowSpan)
    && cell.colIndex <= j < cell.colIndex + Span(cell.colSpan)
  }

  /**
   * Columns col .. col + n - 1 of a row set to v; a column at the row's end is
   * appended, so the row grows to reach the last one.
   */
  function PaintCols(row: seq<string>, col: nat, n: nat, v: string): (r: seq<string>)
    requires col <= |row|
    ensures |r| == if col + n > |row| then col + n else |row|
    ensures forall j :: 0 <= j < |r| ==>
      if col <= j < col + n then r[j] == v else j < |row| && r[j] == row[j]
  {
    if n == 0 then row
    else SetAt(PaintCols(row, col, n - 1, v), col + n - 1, v)
  }

  /**
   * The first n rows of a cell's span painted with its content across its
   * column span; None when one of those rows does not exist.
   */
  function PaintRect(g: Grid, cell: SheetCell, n: nat): (r: Option<Grid>)
    requires forall i :: 0 <= i < |g| ==> cell.colIndex <= |g[i]|
    ensures r.None? <==> n > 0 && cell.rowIndex + n > |g|
    ensures r.Some? ==> |r.value| == |g| && forall i :: 0 <= i < |g| ==> |r.value[i]| >= |g[i]|
    ensures r.Some? ==> forall i :: 0 <= i < |g| ==>
      r.value[i] == if cell.rowIndex <= i < cell.rowIndex + n
        then PaintCols(g[i], cell.colIndex, Span(cell.colSpan), cell.content) else g[i]
  {
    if n == 0 then Some(g)
    else
      match PaintRect(g, cell, n - 1)
      case None => None
      case Some(h) =>
        var i := cell.rowIndex + n - 1;
        if i >= |h| then None
        else Some(h[i := PaintCols(h[i], cell.colIndex, Span(cell.colSpan), cell.content)])
  }

  /** The grid after painting every cell's span in order; None at the first missing row. */
  function PaintAll(g: Grid, cells: seq<SheetCell>, cols: nat): (r: Option<Grid>)
    requires forall i :: 0 <= i < |g| ==> |g[i]| >= cols
    requires forall k :: 0 <= k < |cells| ==> cells[k].colIndex <= cols
    ensures r.None? <==> exists k :: 0 <= k < |cells| && cells[k].rowIndex + Span(cells[k].rowSpan) > |g|
    ensures r.Some? ==> |r.value| == |g| && forall i :: 0 <= i < |g| ==> |r.value[i]| >= |g[i]|
  {
    if cells == [] then Some(g)
    else
      var init, last := cells[..|cells| - 1], cells[|cells| - 1];
      assert forall k :: 0 <= k < |init| ==> cells[k] == init[k];
      match PaintAll(g, init, cols)
      case None => None
      case Some(h) => PaintRect(h, last, Span(last.rowSpan))
  }

  /** The content of the last cell covering (i, j), if any covers it. */
  function Painted(cells: seq<SheetCell>, i: int, j: int): Option<string>
  {
    if cells == [] then None
    else if Covers(cells[|cells| - 1], i, j) then Some(cells[|cells| - 1].content)
    else Painted(cells[..|cells| - 1], i, j)
  }

  /**
   * Each position of the result holds the content of the last cell whose span
   * covers it; a position no span covers was already in the grid and keeps its
   * value.
   */
  lemma {:induction false} PaintAllContent(g: Grid, cells: seq<SheetCell>, cols: nat, i: nat, j: nat)
    requires forall i' :: 0 <= i' < |g| ==> |g[i']| >= cols
    requires forall k :: 0 <= k < |cells| ==> cells[k].colIndex <= cols
    requires PaintAll(g, cells, cols).Some?
    requires i < |g| && j < |PaintAll(g, cells, cols).value[i]|
    ensures var r := PaintAll(g, cells, cols).value;
      match Painted(cells, i, j)
      case Some(v) => r[i][j] == v
      case None => j < |g[i]| && r[i][j] == g[i][j]
  {
    if cells != [] {
      var init, last := cells[..|cells| - 1], cells[|cells| - 1];
      assert forall k :: 0 <= k < |init| ==> cells[k] == init[k];
      var h := PaintAll(g, init, cols).value;
      if !Covers(last, i, j) {
        PaintAllContent(g, init, cols, i, j);
      }
    }
  }

  /** When every span ends within cols columns, every row of a cols-wide grid stays cols wide. */
  lemma {:induction false} PaintAllWidth(g: Grid, cells: seq<SheetCell>, cols: nat)
    requires forall i :: 0 <= i < |g| ==> |g[i]| == cols
    requires forall k :: 0 <= k < |cells| ==> cells[k].colIndex <= cells[k].colIndex + Span(cells[k].colSpan) <= cols
    requires PaintAll(g, cells, cols).Some?
    ensures forall i :: 0 <= i < |g| ==> |PaintAll(g, cells, cols).value[i]| == cols
  {
    if cells != [] {
      var init := cells[..|cells| - 1];
      assert forall k :: 0 <= k < |init| ==> cells[k] == init[k];
      PaintAllWidth(g, init, cols);
    }
  }

  /** The row count: one more than the largest anchor row. */
  function Rows(cells: seq<SheetCell>): nat
    requires |cells| > 0
  {
    MaxOf(RowIndices(cells)) + 1
  }

  /** The column count: one more than the largest anchor column. */
  function Cols(cells: seq<SheetCell>): nat
    requires |cells| > 0
  {
    MaxOf(ColIndices(cells)) + 1
  }

  /** The forEach body for one cell: the loops over its rows and, inside, its columns. */
  method PaintSpan(table: Grid, item: SheetCell) returns (r: Option<Grid>)
    requires forall i :: 0 <= i < |table| ==> item.colIndex <= |table[i]|
    ensures r == PaintRect(table, item, Span(item.rowSpan))
  {
    var row, col, content := item.rowIndex, item.colIndex, item.content;
    var rowSpan, colSpan := Span(item.rowSpan), Span(item.colSpan);
    var t := table;
    for i := row to row + rowSpan
      invariant PaintRect(table, item, i - row) == Some(t)
      invariant |t| == |table| && forall j :: 0 <= j < |t| ==> col <= |t[j]|
    {
      if i >= |t| {
        return None;
      }
      var painted := PaintRow(t[i], col, colSpan, content);
      assert PaintRect(table, item, i + 1 - row) == Some(t[i := painted]);
      t := t[i := painted];
    }
    return Some(t);
  }

  /** The inner loop: columns col .. col + n - 1 of one row set to v. */
  method PaintRow(row: seq<string>, col: nat, n: nat, v: string) returns (r: seq<string>)
    requires col <= |row|
    ensures r == PaintCols(row, col, n, v)
  {
    r := row;
    for c := col to col + n
      invariant r == PaintCols(row, col, c - col, v)
    {
      r := SetAt(r, c, v);
    }
  }

  /**
   * jsonTableTo2dArray: [] for no cells; otherwise the rows x cols grid of ''
   * with every cell's span painted in order, or the TypeError when a span
   * reaches below the last anchor row.
   */
  method JsonTableTo2dArray(cells: seq<SheetCell>) returns (r: Result<Grid, string>)
    ensures cells == [] ==> r == Ok([])
    ensures cells != [] ==> (r.Err? <==> exists k :: 0 <= k < |cells| && cells[k].rowIndex + Span(cells[k].rowSpan) > Rows(cells))
    ensures r.Err? ==> r.error == TypeError
    ensures cells != [] && r.Ok? ==>
      PaintAll(Blank(Rows(cells), Cols(cells)), cells, Cols(cells)) == Some(r.value)
  {
    if cells == [] {
      return Ok([]);
    }
    var maxRow := MaxOf(RowIndices(cells)) + 1;
    var maxCol := MaxOf(ColIndices(cells)) + 1;
    var blank := Blank(maxRow, maxCol);
    var table := blank;
    for k := 0 to |cells|
      invariant PaintAll(blank, cells[..k], maxCol) == Some(table)
    {
      assert cells[..k + 1][..k] == cells[..k];
      var painted := PaintSpan(table, cells[k]);
      if painted.None? {
        return Err(TypeError);
      }
      table := painted.value;
    }
    assert cells[..|cells|] == cells;
    return Ok(table);
  }

  /**
   * In the converted array each position holds the content of the last cell
   * whose span covers it, and '' where no span does.
   */
  lemma TableContent(cells: seq<SheetCell>, i: nat, j: nat)
    requires cells != []
    requires PaintAll(Blank(Rows(cells), Cols(cells)), cells, Cols(cells)).Some?
    requires i < Rows(cells) && j < |PaintAll(Blank(Rows(cells), Cols(cells)), cells, Cols(cells)).value[i]|
    ensures var r := PaintAll(Blank(Rows(cells), Cols(cells)), cells, Cols(cells)).value;
      r[i][j] == match Painted(cells, i, j) case Some(v) => v case None => ""
  {
    PaintAllContent(Blank(Rows(cells), Cols(cells)), cells, Cols(cells), i, j);
  }

  /**
   * The array has one row per anchor row up to the largest; when no column
   * span passes the last anchor column its rows are exactly that wide.
   */
  lemma TableShape(cells: seq<SheetCell>)
    requires cells != []
    requires PaintAll(Blank(Rows(cells), Cols(cells)), cells, Cols(cells)).Some?
    ensures |PaintAll(Blank(Rows(cells), Cols(cells)), cells, Cols(cells)).value| == Rows(cells)
    ensures (forall k :: 0 <= k < |cells| ==> cells[k].colIndex + Span(cells[k].colSpan) <= Cols(cells)) ==>
      forall i :: 0 <= i < Rows(cells) ==> |PaintAll(Blank(Rows(cells), Cols(cells)), cells, Cols(cells)).value[i]| == Cols(cells)
  {
    if forall k :: 0 <= k < |cells| ==> cells[k].colIndex + Span(cells[k].colSpan) <= Cols(cells) {
      PaintAllWidth(Blank(Rows(cells), Cols(cells)), cells, Cols(cells));
    }
  }

  /** A table whose spans are all 1 never throws. */
  lemma UnitSpansFit(cells: seq<SheetCell>)
    requires cells != []
    requires forall k :: 0 <= k < |cells| ==> Span(cells[k].rowSpan) == 1
    ensures forall k :: 0 <= k < |cells| ==> cells[k].rowIndex + Span(cells[k].rowSpan) <= Rows(cells)
  {
    forall k | 0 <= k < |cells|
      ensures cells[k].rowIndex + 1 <= Rows(cells)
    {
      assert RowIndices(cells)[k] == cells[k].rowIndex;
    }
  }
}
