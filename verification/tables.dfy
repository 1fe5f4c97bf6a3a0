/**
 * OCR table fragments and the data frames built from them.
 *
 * A frame cell is either a string or pandas' missing value (NaN, written to
 * JSON as null and read back in Python as None). Column labels are the
 * integers 0..c-1 of a fresh frame, or "<label>_<position>" once a duplicate
 * label has been renamed.
 */
module Tables {
  import opened Wrappers
  import opened Geometry

  datatype TableCell = TableCell(
    kind: string, rowIndex: nat, colIndex: nat, rowSpan: nat, colSpan: nat, content: string)

  datatype TableData = TableData(rowCount: nat, colCount: nat, polygon: Box, cells: seq<TableCell>)

  datatype Value = Text(s: string) | Missing

  type Row = seq<Value>

  type Grid = seq<Row>

  /**
   * A column label: the integer n, or the string "<base>_<pos>" a rename makes.
   * For integer bases the string form determines base and position, so equal
   * labels here are exactly equal label strings.
   */
  datatype Label = Col(n: nat) | Renamed(base: Label, pos: nat)

  datatype Frame = Frame(labels: seq<Label>, rows: Grid)

  datatype CellError = CellOutOfBounds(row: nat, col: nat)

  /** Every row has one entry per column label. */
  predicate WellShaped(f: Frame)
  {
    forall r :: 0 <= r < |f.rows| ==> |f.rows[r]| == |f.labels|
  }

  /** The default labels 0, 1, ..., n - 1 of a fresh frame. */
  function Cols(n: nat): (ls: seq<Label>)
    ensures |ls| == n && forall i :: 0 <= i < n ==> ls[i] == Col(i)
  {
    seq(n, i requires 0 <= i < n => Col(i))
  }

  /** A frame whose labels are still 0..c-1. */
  predicate Plain(f: Frame)
  {
    f.labels == Cols(|f.labels|)
  }

  function Blanks(n: nat): (r: Row)
    ensures |r| == n && forall i :: 0 <= i < n ==> r[i] == Text("")
  {
    seq(n, i requires 0 <= i < n => Text(""))
  }

  predicate AnchoredAt(cell: TableCell, r: nat, c: nat)
  {
    cell.rowIndex == r && cell.colIndex == c
  }

  /** What the grid holds at (r, c) after writing `cells` in order: the last write there wins. */
  function Anchored(cells: seq<TableCell>, r: nat, c: nat): Value
  {
    if cells == [] then Text("")
    else if AnchoredAt(cells[|cells| - 1], r, c) then Text(cells[|cells| - 1].content)
    else Anchored(cells[..|cells| - 1], r, c)
  }

  predicate InBounds(t: TableData, cell: TableCell)
  {
    cell.rowIndex < t.rowCount && cell.colIndex < t.colCount
  }

  /** Cell k is the first cell outside the frame. */
  predicate FirstOutOfBounds(t: TableData, k: nat)
  {
    k < |t.cells| && !InBounds(t, t.cells[k])
    && forall k' :: 0 <= k' < k ==> InBounds(t, t.cells[k'])
  }

  /** The first cell from position i on that lies outside the frame, if any. */
  function FirstOutside(t: TableData, i: nat): (r: Option<nat>)
    ensures r.Some? ==> (i <= r.value < |t.cells| && !InBounds(t, t.cells[r.value])
      && forall k :: i <= k < r.value ==> InBounds(t, t.cells[k]))
    ensures r.None? ==> forall k :: i <= k < |t.cells| ==> InBounds(t, t.cells[k])
    decreases |t.cells| - i
  {
    if i >= |t.cells| then None
    else if !InBounds(t, t.cells[i]) then Some(i)
    else FirstOutside(t, i + 1)
  }

  /**
   * tabledata_to_structured_dataframe: a rowCount x colCount frame of "" (a frame
   * with no rows has no columns either), then each cell's content written at its
   * anchor; spans play no part. The first cell outside the frame raises.
   */
  function StructuredFrame(t: TableData): (r: Result<Frame, CellError>)
    ensures r.Err? <==> exists k :: 0 <= k < |t.cells| && !InBounds(t, t.cells[k])
    ensures r.Err? ==> exists k: nat :: (FirstOutOfBounds(t, k)
      && r.error == CellOutOfBounds(t.cells[k].rowIndex, t.cells[k].colIndex))
    ensures r.Ok? ==> WellShaped(r.value) && Plain(r.value)
    ensures r.Ok? ==> |r.value.rows| == t.rowCount
    ensures r.Ok? ==> |r.value.labels| == (if t.rowCount == 0 then 0 else t.colCount)
    ensures r.Ok? ==> forall i, j :: 0 <= i < t.rowCount && 0 <= j < t.colCount ==>
      r.value.rows[i][j] == Anchored(t.cells, i, j)
  {
    var bad := FirstOutside(t, 0);
    if bad.Some? then
      var cell := t.cells[bad.value];
      assert FirstOutOfBounds(t, bad.value);
      Err(CellOutOfBounds(cell.rowIndex, cell.colIndex))
    else
      var width := if t.rowCount == 0 then 0 else t.colCount;
      Ok(Frame(Cols(width), seq(t.rowCount, i requires 0 <= i < t.rowCount =>
        seq(t.colCount, j requires 0 <= j < t.colCount => Anchored(t.cells, i, j)))))
  }

  /** The builder's loop: fill a blank grid cell by cell, stopping at the first cell outside it. */
  method TabledataToStructuredDataframe(t: TableData) returns (r: Result<Frame, CellError>)
    ensures r == StructuredFrame(t)
  {
    var grid := seq(t.rowCount, _ => Blanks(t.colCount));
    for k := 0 to |t.cells|
      invariant |grid| == t.rowCount
      invariant forall i :: 0 <= i < t.rowCount ==> |grid[i]| == t.colCount
      invariant forall k' :: 0 <= k' < k ==> InBounds(t, t.cells[k'])
      invariant forall i, j :: 0 <= i < t.rowCount && 0 <= j < t.colCount ==>
        grid[i][j] == Anchored(t.cells[..k], i, j)
    {
      var cell := t.cells[k];
      if cell.rowIndex >= t.rowCount || cell.colIndex >= t.colCount {
        assert FirstOutside(t, 0) == Some(k);
        return Err(CellOutOfBounds(cell.rowIndex, cell.colIndex));
      }
      grid := grid[cell.rowIndex := grid[cell.rowIndex][cell.colIndex := Text(cell.content)]];
      assert t.cells[..k + 1][..k] == t.cells[..k];
    }
    assert t.cells[..|t.cells|] == t.cells;
    assert FirstOutside(t, 0) == None;
    var width := if t.rowCount == 0 then 0 else t.colCount;
    r := Ok(Frame(Cols(width), grid));
    forall i | 0 <= i < t.rowCount
      ensures grid[i] == StructuredFrame(t).value.rows[i]
    {
      assert |grid[i]| == |StructuredFrame(t).value.rows[i]|;
    }
    assert grid == StructuredFrame(t).value.rows;
  }

  /** A position no cell is anchored at keeps its "". */
  lemma {:induction false} UnanchoredIsBlank(cells: seq<TableCell>, r: nat, c: nat)
    requires forall k :: 0 <= k < |cells| ==> !AnchoredAt(cells[k], r, c)
    ensures Anchored(cells, r, c) == Text("")
  {
    if cells != [] {
      UnanchoredIsBlank(cells[..|cells| - 1], r, c);
    }
  }

  /** The last cell anchored at a position decides its content: later writes win. */
  lemma {:induction false} AnchoredIsLastWrite(cells: seq<TableCell>, r: nat, c: nat, k: nat)
    requires k < |cells| && AnchoredAt(cells[k], r, c)
    requires forall k' :: k < k' < |cells| ==> !AnchoredAt(cells[k'], r, c)
    ensures Anchored(cells, r, c) == Text(cells[k].content)
  {
    if k < |cells| - 1 {
      AnchoredIsLastWrite(cells[..|cells| - 1], r, c, k);
    }
  }

  /** pandas' `columns.duplicated()`: label i occurred at an earlier position. */
  predicate DuplicatedAt(labels: seq<Label>, i: nat)
    requires i < |labels|
  {
    labels[i] in labels[..i]
  }

  predicate Distinct(labels: seq<Label>)
  {
    forall i, j :: 0 <= i < j < |labels| ==> labels[i] != labels[j]
  }

  predicate AllPlainLabels(labels: seq<Label>)
  {
    forall i :: 0 <= i < |labels| ==> labels[i].Col?
  }

  /** The comprehension that renames every repeated label to "<label>_<position>". */
  function RenameDuplicates(labels: seq<Label>): (r: seq<Label>)
    ensures |r| == |labels|
    ensures forall i :: 0 <= i < |labels| ==>
      r[i] == (if DuplicatedAt(labels, i) then Renamed(labels[i], i) else labels[i])
  {
    seq(|labels|, i requires 0 <= i < |labels| =>
      if DuplicatedAt(labels, i) then Renamed(labels[i], i) else labels[i])
  }

  /** Renaming integer labels leaves no two columns with the same label. */
  lemma RenameMakesDistinct(labels: seq<Label>)
    requires AllPlainLabels(labels)
    ensures Distinct(RenameDuplicates(labels))
  {
    var r := RenameDuplicates(labels);
    forall i, j | 0 <= i < j < |labels|
      ensures r[i] != r[j]
    {
      if !DuplicatedAt(labels, i) && !DuplicatedAt(labels, j) {
        assert labels[i] == labels[..j][i];
      }
    }
  }

  /** Labels that are already distinct are left alone. */
  lemma RenameIdentityOnDistinct(labels: seq<Label>)
    requires Distinct(labels)
    ensures RenameDuplicates(labels) == labels
  {
    forall i | 0 <= i < |labels|
      ensures !DuplicatedAt(labels, i)
    {
      assert forall k :: 0 <= k < i ==> labels[..i][k] != labels[i];
    }
  }

  /** The frame with its duplicate labels renamed. */
  function WithRenamedColumns(f: Frame): (g: Frame)
    ensures g.rows == f.rows && |g.labels| == |f.labels|
    ensures WellShaped(f) ==> WellShaped(g)
    ensures AllPlainLabels(f.labels) ==> Distinct(g.labels)
  {
    assert AllPlainLabels(f.labels) ==> Distinct(RenameDuplicates(f.labels)) by {
      if AllPlainLabels(f.labels) {
        RenameMakesDistinct(f.labels);
      }
    }
    Frame(RenameDuplicates(f.labels), f.rows)
  }

  /**
   * `to_json(orient='records')` read back as the value lists of each record:
   * the rows in column order, NaN as None. pandas refuses the records layout
   * for a frame whose labels repeat.
   */
  function ToRecords(f: Frame): (r: Option<Grid>)
    ensures r.Some? <==> Distinct(f.labels)
    ensures r.Some? ==> r.value == f.rows
  {
    if Distinct(f.labels) then Some(f.rows) else None
  }
}
