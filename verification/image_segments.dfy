/**
 * create_image_segments: the page is cut into a grid of square chunks of side
 * `chunkSize`; chunks on the right and bottom edges are clipped to the page.
 * Only the crop rectangles are modelled, not the pixels.
 */
module ImageSegments {
  import opened Geometry
  import AbsoluteBoxes

  /** The crop rectangle of tile (i, j): i counts columns along x, j rows along y. */
  function Tile(width: nat, height: nat, chunkSize: nat, i: nat, j: nat): Box
  {
    var left := i * chunkSize;
    var upper := j * chunkSize;
    Box(left, upper, Min(left + chunkSize, width), Min(upper + chunkSize, height))
  }

  /** Preallocate the ceil(W / c) x ceil(H / c) grid and fill entry [i][j] with tile (i, j). */
  method CreateImageSegments(width: nat, height: nat, chunkSize: nat) returns (chunks: array2<Box>)
    requires chunkSize > 0
    ensures chunks.Length0 == ChunkCount(width, chunkSize)
    ensures chunks.Length1 == ChunkCount(height, chunkSize)
    ensures forall i, j :: 0 <= i < chunks.Length0 && 0 <= j < chunks.Length1 ==>
      chunks[i, j] == Tile(width, height, chunkSize, i, j)
  {
    var xChunks := (width + chunkSize - 1) / chunkSize;
    var yChunks := (height + chunkSize - 1) / chunkSize;
    chunks := new Box[xChunks, yChunks]((_, _) => Box(0, 0, 0, 0));
    for i := 0 to xChunks
      invariant forall i', j' :: 0 <= i' < i && 0 <= j' < yChunks ==>
        chunks[i', j'] == Tile(width, height, chunkSize, i', j')
    {
      for j := 0 to yChunks
        invariant forall i', j' :: 0 <= i' < i && 0 <= j' < yChunks ==>
          chunks[i', j'] == Tile(width, height, chunkSize, i', j')
        invariant forall j' :: 0 <= j' < j ==> chunks[i, j'] == Tile(width, height, chunkSize, i, j')
      {
        var left := i * chunkSize;
        var upper := j * chunkSize;
        var right := Min(left + chunkSize, width);
        var lower := Min(upper + chunkSize, height);
        chunks[i, j] := Box(left, upper, right, lower);
      }
    }
  }

  /** For positive c, i * c < n * c only when i < n. */
  lemma MulCancel(i: int, n: int, c: int)
    requires c > 0 && i * c < n * c
    ensures i < n
  {
  }

  /** Multiplying by a non-negative c keeps order. */
  lemma MulMono(a: int, b: int, c: int)
    requires a <= b && c >= 0
    ensures a * c <= b * c
  {
    assert b * c - a * c == (b - a) * c;
  }

  /** One axis of the grid: chunk i of an extent n. */
  lemma AxisChunk(n: nat, c: nat, i: nat)
    requires c > 0 && i < ChunkCount(n, c)
    ensures i * c < n
    ensures i * c < Min(i * c + c, n) <= i * c + c
    ensures i + 1 < ChunkCount(n, c) ==> Min(i * c + c, n) == (i + 1) * c
    ensures i + 1 == ChunkCount(n, c) ==> Min(i * c + c, n) == n
  {
    var k := ChunkCount(n, c);
    MulMono(i, k - 1, c);
    MulMono(i + 1, k, c);
    assert (i + 1) * c == i * c + c;
    if i + 1 < k {
      MulMono(i + 1, k - 1, c);
    }
  }

  /** Inside the grid every tile has pixels and is at most chunkSize on each side. */
  lemma TileSize(width: nat, height: nat, chunkSize: nat, i: nat, j: nat)
    requires chunkSize > 0
    requires i < ChunkCount(width, chunkSize) && j < ChunkCount(height, chunkSize)
    ensures ProperBox(Tile(width, height, chunkSize, i, j))
    ensures Tile(width, height, chunkSize, i, j).Width() <= chunkSize
    ensures Tile(width, height, chunkSize, i, j).Height() <= chunkSize
  {
    AxisChunk(width, chunkSize, i);
    AxisChunk(height, chunkSize, j);
  }

  /** Neighbours share an edge, and the last column and row end exactly at the page border. */
  lemma TilesAreContiguous(width: nat, height: nat, chunkSize: nat, i: nat, j: nat)
    requires chunkSize > 0
    requires i < ChunkCount(width, chunkSize) && j < ChunkCount(height, chunkSize)
    ensures i + 1 < ChunkCount(width, chunkSize) ==>
      Tile(width, height, chunkSize, i + 1, j).xMin == Tile(width, height, chunkSize, i, j).xMax
    ensures j + 1 < ChunkCount(height, chunkSize) ==>
      Tile(width, height, chunkSize, i, j + 1).yMin == Tile(width, height, chunkSize, i, j).yMax
    ensures i + 1 == ChunkCount(width, chunkSize) ==> Tile(width, height, chunkSize, i, j).xMax == width
    ensures j + 1 == ChunkCount(height, chunkSize) ==> Tile(width, height, chunkSize, i, j).yMax == height
  {
    AxisChunk(width, chunkSize, i);
    AxisChunk(height, chunkSize, j);
  }

  /** Every page pixel lies in tile (x / c, y / c), which is inside the grid. */
  lemma TilesCoverPage(width: nat, height: nat, chunkSize: nat, x: int, y: int)
    requires chunkSize > 0
    requires 0 <= x < width && 0 <= y < height
    ensures x / chunkSize < ChunkCount(width, chunkSize) && y / chunkSize < ChunkCount(height, chunkSize)
    ensures Tile(width, height, chunkSize, x / chunkSize, y / chunkSize).HasPixel(x, y)
  {
    var i := x / chunkSize;
    assert i * chunkSize <= x < i * chunkSize + chunkSize;
    MulCancel(i, ChunkCount(width, chunkSize), chunkSize);
    var j := y / chunkSize;
    assert j * chunkSize <= y < j * chunkSize + chunkSize;
    MulCancel(j, ChunkCount(height, chunkSize), chunkSize);
  }

  /** A pixel lies in no other tile: the tiles partition [0, W) x [0, H). */
  lemma TilesAreDisjoint(width: nat, height: nat, chunkSize: nat, i: nat, j: nat, x: int, y: int)
    requires chunkSize > 0
    requires Tile(width, height, chunkSize, i, j).HasPixel(x, y)
    ensures i == x / chunkSize && j == y / chunkSize
    ensures 0 <= x < width && 0 <= y < height
  {
    DivBetween(x, chunkSize, i);
    DivBetween(y, chunkSize, j);
  }

  lemma DivBetween(x: int, c: nat, i: nat)
    requires c > 0 && i * c <= x < i * c + c
    ensures x / c == i
  {
    var q := x / c;
    assert q * c <= x < q * c + c;
    assert (i + 1) * c == i * c + c;
    assert (q + 1) * c == q * c + c;
    MulCancel(q, i + 1, c);
    MulCancel(i, q + 1, c);
  }

  /** Tile (i, j)'s origin is exactly the offset rebasing adds for tile (i, j). */
  lemma TileOriginIsRebaseOffset(width: nat, height: nat, chunkSize: nat, i: nat, j: nat, b: Box)
    ensures AbsoluteBoxes.GetAbsoluteBbox(b, chunkSize, i, j)
      == b.Shift(Tile(width, height, chunkSize, i, j).xMin, Tile(width, height, chunkSize, i, j).yMin)
  {
  }

  /** An empty page has no tiles. */
  lemma EmptyPageHasNoTiles(width: nat, height: nat, chunkSize: nat)
    requires chunkSize > 0
    ensures width == 0 ==> ChunkCount(width, chunkSize) == 0
    ensures height == 0 ==> ChunkCount(height, chunkSize) == 0
  {
  }
}
