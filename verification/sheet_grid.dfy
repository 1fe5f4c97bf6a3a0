/**
 * The string grids the frontend builds from table cells: the cell fields
 * the two grid builders read, the blank grid, and a JavaScript array store.
 */
module SheetGrid {

  /**
   * A table cell as the frontend receives it, reduced to the fields the grid
   * builders read (the store's cell also has an id and two flags, the model's
   * a kind).
   */
  datatype SheetCell = SheetCell(rowIndex: nat, colIndex: nat, rowSpan: nat, colSpan: nat, content: string)

  /** An array of rows, each an array of strings. */
  type Grid = seq<seq<string>>

  /** `rows` rows of `cols` empty strings. */
  function Blank(rows: nat, cols: nat): (g: Grid)
    ensures |g| == rows
    ensures forall i :: 0 <= i < rows ==> |g[i]| == cols && forall j :: 0 <= j < cols ==> g[i][j] == ""
  {
    seq(rows, _ => seq(cols, _ => ""))
  }

  /**
   * `row[c] = v` on a JavaScript array with c at most its length: the entry is
   * replaced, or, at the length, appended.
   */
  function SetAt(row: seq<string>, c: nat, v: string): (r: seq<string>)
    requires c <= |row|
    ensures |r| == if c < |row| then |row| else |row| + 1
    ensures r[c] == v
    ensures forall j :: 0 <= j < |row| && j != c ==> r[j] == row[j]
  {
    if c < |row| then row[c := v] else row + [v]
  }
}
