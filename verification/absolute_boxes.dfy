/**
 * convert_absolute_bboxes: boxes detected in tile (row, col) of a chunked
 * image are moved back to page coordinates by that tile's origin.
 * `row` is the horizontal tile index, so it offsets x; `col` offsets y.
 */
module AbsoluteBoxes {
  import opened Geometry

  /** get_absolute_bbox: add row * chunk to both x and col * chunk to both y. */
  function GetAbsoluteBbox(b: Box, chunkSize: int, row: int, col: int): (r: Box)
    ensures r == b.Shift(row * chunkSize, col * chunkSize)
  {
    var offsetX := row * chunkSize;
    var offsetY := col * chunkSize;
    Box(offsetX + b.xMin, offsetY + b.yMin, offsetX + b.xMax, offsetY + b.yMax)
  }

  /** Rebasing is a translation: width and height are kept. */
  lemma RebaseKeepsSize(b: Box, chunkSize: int, row: int, col: int)
    ensures GetAbsoluteBbox(b, chunkSize, row, col).Width() == b.Width()
    ensures GetAbsoluteBbox(b, chunkSize, row, col).Height() == b.Height()
  {
  }

  /** Tile (0, 0) is the page origin: its boxes come back unchanged. */
  lemma RebaseOriginTile(b: Box, chunkSize: int)
    ensures GetAbsoluteBbox(b, chunkSize, 0, 0) == b
  {
  }

  /** Row i of the tile grid, rebased: entry j is bboxes[i][j] moved by (i * chunk, j * chunk). */
  function RebasedRow(row: seq<Box>, chunkSize: int, i: nat, yChunks: nat): (r: seq<Box>)
    requires |row| >= yChunks
    ensures |r| == yChunks
  {
    seq(yChunks, j requires 0 <= j < yChunks => GetAbsoluteBbox(row[j], chunkSize, i, j))
  }

  /** Tiles are visited x-major: all of tile column 0, then column 1, ... */
  function RebasedGrid(bboxes: seq<seq<Box>>, chunkSize: int, xChunks: nat, yChunks: nat): (r: seq<Box>)
    requires |bboxes| >= xChunks
    requires forall i :: 0 <= i < xChunks ==> |bboxes[i]| >= yChunks
  {
    if xChunks == 0 then []
    else RebasedGrid(bboxes, chunkSize, xChunks - 1, yChunks)
         + RebasedRow(bboxes[xChunks - 1], chunkSize, xChunks - 1, yChunks)
  }

  /** The flattened list has xChunks * yChunks entries and entry i * yChunks + j is tile (i, j)'s box. */
  lemma {:induction false} RebasedGridAt(bboxes: seq<seq<Box>>, chunkSize: int, xChunks: nat, yChunks: nat)
    requires |bboxes| >= xChunks
    requires forall i :: 0 <= i < xChunks ==> |bboxes[i]| >= yChunks
    ensures |RebasedGrid(bboxes, chunkSize, xChunks, yChunks)| == xChunks * yChunks
    ensures forall i, j :: 0 <= i < xChunks && 0 <= j < yChunks ==>
      RebasedGrid(bboxes, chunkSize, xChunks, yChunks)[i * yChunks + j]
        == GetAbsoluteBbox(bboxes[i][j], chunkSize, i, j)
  {
    if xChunks > 0 {
      var m := xChunks - 1;
      RebasedGridAt(bboxes, chunkSize, m, yChunks);
      var prefix := RebasedGrid(bboxes, chunkSize, m, yChunks);
      var last := RebasedRow(bboxes[m], chunkSize, m, yChunks);
      assert |prefix| == m * yChunks;
      forall i, j | 0 <= i < xChunks && 0 <= j < yChunks
        ensures (prefix + last)[i * yChunks + j] == GetAbsoluteBbox(bboxes[i][j], chunkSize, i, j)
      {
        if i < m {
          RowBefore(i, j, m, yChunks);
        }
      }
      NextRowEnd(m, yChunks);
    }
  }

  /** In row-major order, entry j of a row i before row m lies before m * y. */
  lemma RowBefore(i: nat, j: nat, m: nat, y: nat)
    requires i < m && j < y
    ensures i * y + j < m * y
  {
    var d := m - i - 1;
    assert m * y == i * y + y + d * y;
  }

  /** One more row of y entries. */
  lemma NextRowEnd(m: nat, y: nat)
    ensures (m + 1) * y == m * y + y
  {
  }

  /**
   * convert_to_absolute_bboxes: visit the ceil(width / chunk) x ceil(height / chunk)
   * tiles and append each tile's box, rebased, to a flat list.
   */
  method ConvertToAbsoluteBboxes(bboxes: seq<seq<Box>>, chunkSize: nat, width: nat, height: nat)
    returns (absolute: seq<Box>)
    requires chunkSize > 0
    requires |bboxes| >= ChunkCount(width, chunkSize)
    requires forall i :: 0 <= i < ChunkCount(width, chunkSize) ==> |bboxes[i]| >= ChunkCount(height, chunkSize)
    ensures absolute == RebasedGrid(bboxes, chunkSize, ChunkCount(width, chunkSize), ChunkCount(height, chunkSize))
  {
    var xChunks := (width + chunkSize - 1) / chunkSize;
    var yChunks := (height + chunkSize - 1) / chunkSize;
    absolute := [];
    for i := 0 to xChunks
      invariant absolute == RebasedGrid(bboxes, chunkSize, i, yChunks)
    {
      ghost var before := absolute;
      for j := 0 to yChunks
        invariant absolute == before + RebasedRow(bboxes[i], chunkSize, i, yChunks)[..j]
      {
        absolute := absolute + [GetAbsoluteBbox(bboxes[i][j], chunkSize, i, j)];
        assert RebasedRow(bboxes[i], chunkSize, i, yChunks)[..j + 1]
          == RebasedRow(bboxes[i], chunkSize, i, yChunks)[..j] + [GetAbsoluteBbox(bboxes[i][j], chunkSize, i, j)];
      }
      assert RebasedRow(bboxes[i], chunkSize, i, yChunks)[..yChunks] == RebasedRow(bboxes[i], chunkSize, i, yChunks);
    }
  }
}
