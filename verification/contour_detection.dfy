/**
 * The geometric helpers of the contour-detection script: polygon boxes, the
 * flat-to-grid index conversion, the 3000-pixel tiling, rebasing the boxes
 * found in each tile to page coordinates, and line normalisation.
 */
module ContourDetection {
  import opened Wrappers
  import opened Geometry
  import PolygonBox
  import ImageSegments
  import AbsoluteBoxes

  // ---------------------------------------------------------------------------
  // get_bounding_box

  /** The smallest entry of a non-empty list. */
  function SeqMin(s: seq<int>): (m: int)
    requires |s| > 0
    ensures m in s && forall k :: 0 <= k < |s| ==> m <= s[k]
  {
    if |s| == 1 then s[0] else Min(SeqMin(s[..|s| - 1]), s[|s| - 1])
  }

  /** The largest entry of a non-empty list. */
  function SeqMax(s: seq<int>): (m: int)
    requires |s| > 0
    ensures m in s && forall k :: 0 <= k < |s| ==> s[k] <= m
  {
    if |s| == 1 then s[0] else Max(SeqMax(s[..|s| - 1]), s[|s| - 1])
  }

  /** `all_x`: the even entries of the flat list. */
  function AllX(p: seq<int>): (xs: seq<int>)
    requires |p| % 2 == 0
    ensures |xs| == |p| / 2 && forall k :: 0 <= k < |xs| ==> xs[k] == p[2 * k]
  {
    seq(|p| / 2, k requires 0 <= k < |p| / 2 => p[2 * k])
  }

  /** `all_y`: the odd entries of the flat list. */
  function AllY(p: seq<int>): (ys: seq<int>)
    requires |p| % 2 == 0
    ensures |ys| == |p| / 2 && forall k :: 0 <= k < |ys| ==> ys[k] == p[2 * k + 1]
  {
    seq(|p| / 2, k requires 0 <= k < |p| / 2 => p[2 * k + 1])
  }

  /** get_bounding_box: [min x, min y, max x, max y]; it is the box polygon_to_bounding_box computes. */
  function GetBoundingBox(p: seq<int>): (b: Box)
    requires PolygonBox.WellFormedPolygon(p)
    ensures b == PolygonBox.PolygonToBoundingBox(p)
  {
    var xs, ys := AllX(p), AllY(p);
    var b := Box(SeqMin(xs), SeqMin(ys), SeqMax(xs), SeqMax(ys));
    TightFromLists(p, b);
    PolygonBox.TightBoxUnique(PolygonBox.Vertices(p), b, PolygonBox.PolygonToBoundingBox(p));
    b
  }

  /** The extrema of the coordinate lists make a tight box of the vertices. */
  lemma TightFromLists(p: seq<int>, b: Box)
    requires PolygonBox.WellFormedPolygon(p)
    requires b == Box(SeqMin(AllX(p)), SeqMin(AllY(p)), SeqMax(AllX(p)), SeqMax(AllY(p)))
    ensures PolygonBox.TightBox(PolygonBox.Vertices(p), b)
  {
    var vs := PolygonBox.Vertices(p);
    var xs, ys := AllX(p), AllY(p);
    forall v | v in vs
      ensures b.xMin <= v.x <= b.xMax && b.yMin <= v.y <= b.yMax
    {
      var k :| 0 <= k < |vs| && vs[k] == v;
      assert xs[k] == v.x && ys[k] == v.y;
    }
    var k1 :| 0 <= k1 < |xs| && xs[k1] == b.xMin;
    assert vs[k1] in vs;
    var k2 :| 0 <= k2 < |ys| && ys[k2] == b.yMin;
    assert vs[k2] in vs;
    var k3 :| 0 <= k3 < |xs| && xs[k3] == b.xMax;
    assert vs[k3] in vs;
    var k4 :| 0 <= k4 < |ys| && ys[k4] == b.yMax;
    assert vs[k4] in vs;
  }

  // ---------------------------------------------------------------------------
  // convert_to_2dim

  /**
   * Python's divmod(index, m): the floor quotient and a remainder with the sign
   * of m; m = 0 raises.
   */
  function ConvertTo2Dim(index: int, m: int): (r: Option<(int, int)>)
    ensures r.None? <==> m == 0
    ensures r.Some? ==> index == r.value.0 * m + r.value.1
    ensures r.Some? && m > 0 ==> 0 <= r.value.1 < m
    ensures r.Some? && m < 0 ==> m < r.value.1 <= 0
  {
    if m == 0 then None
    else if m > 0 then Some((index / m, index % m))
    else
      var q := (-index) / (-m);
      var rem := (-index) % (-m);
      assert -index == q * (-m) + rem;
      Some((q, -rem))
  }

  /** For 0 <= j < m the conversion undoes the flattening i * m + j. */
  lemma ConvertInvertsFlattening(i: nat, j: int, m: int)
    requires 0 <= j < m
    ensures ConvertTo2Dim(i * m + j, m) == Some((i, j))
  {
    var r := ConvertTo2Dim(i * m + j, m).value;
    assert r.0 * m + r.1 == i * m + j;
    ImageSegments.DivBetween(i * m + j, m, i);
  }

  /** A quotient and remainder in range flatten back to the index. */
  lemma FlatteningInvertsConvert(index: int, m: int)
    requires m > 0
    ensures var r := ConvertTo2Dim(index, m).value; r.0 * m + r.1 == index && 0 <= r.1 < m
  {
  }

  // ---------------------------------------------------------------------------
  // create_image_segments, with its local chunk size

  const ChunkSize: nat := 3000

  /** create_image_segments with the chunk size 3000 it sets locally. */
  method CreateImageSegments(width: nat, height: nat) returns (chunks: array2<Box>)
    ensures chunks.Length0 == ChunkCount(width, ChunkSize)
    ensures chunks.Length1 == ChunkCount(height, ChunkSize)
    ensures forall i, j :: 0 <= i < chunks.Length0 && 0 <= j < chunks.Length1 ==>
      chunks[i, j] == Box(i * 3000, j * 3000, Min(i * 3000 + 3000, width), Min(j * 3000 + 3000, height))
  {
    chunks := ImageSegments.CreateImageSegments(width, height, ChunkSize);
  }

  // ---------------------------------------------------------------------------
  // get_absolute_bboxes

  /** Every box of one tile moved by that tile's offset. */
  function ShiftAll(bs: seq<Box>, dx: int, dy: int): (r: seq<Box>)
    ensures |r| == |bs| && forall k :: 0 <= k < |bs| ==> r[k] == bs[k].Shift(dx, dy)
  {
    seq(|bs|, k requires 0 <= k < |bs| => bs[k].Shift(dx, dy))
  }

  /**
   * The boxes of the first n tiles in flat order, each tile t's boxes moved by
   * the origin of tile (t div yChunks, t mod yChunks).
   */
  function Absolute(tiles: seq<seq<Box>>, c: nat, yChunks: nat, n: nat): (r: seq<Box>)
    requires (yChunks > 0 || n == 0) && n <= |tiles|
    ensures |r| == TotalBoxes(tiles, n)
  {
    if n == 0 then []
    else
      var t := n - 1;
      var ij := ConvertTo2Dim(t, yChunks).value;
      Absolute(tiles, c, yChunks, t) + ShiftAll(tiles[t], ij.0 * c, ij.1 * c)
  }

  /** The number of boxes in the first n tiles. */
  function TotalBoxes(tiles: seq<seq<Box>>, n: nat): nat
    requires n <= |tiles|
  {
    if n == 0 then 0 else TotalBoxes(tiles, n - 1) + |tiles[n - 1]|
  }

  /**
   * Each box of tile (i, j) appears, moved by (i c, j c), right after the boxes
   * of all the tiles before it in i-major order.
   */
  lemma AbsoluteAt(tiles: seq<seq<Box>>, c: nat, yChunks: nat, i: nat, j: nat, k: nat)
    requires 0 <= j < yChunks && i * yChunks + j < |tiles| && k < |tiles[i * yChunks + j]|
    ensures var t := i * yChunks + j;
      var r := Absolute(tiles, c, yChunks, t + 1);
      TotalBoxes(tiles, t) + k < |r|
      && r[TotalBoxes(tiles, t) + k] == AbsoluteBoxes.GetAbsoluteBbox(tiles[t][k], c, i, j)
  {
    var t := i * yChunks + j;
    ConvertInvertsFlattening(i, j, yChunks);
    assert Absolute(tiles, c, yChunks, t + 1)
      == Absolute(tiles, c, yChunks, t) + ShiftAll(tiles[t], i * c, j * c);
  }

  /**
   * get_absolute_bboxes for a W x H page and the per-tile box lists in flat
   * order: i-major over the ceil(W / 3000) x ceil(H / 3000) tiles, raising when a
   * tile has no list.
   */
  method GetAbsoluteBboxes(tiles: seq<seq<Box>>, width: nat, height: nat) returns (r: Option<seq<Box>>)
    ensures var xChunks, yChunks := ChunkCount(width, ChunkSize), ChunkCount(height, ChunkSize);
      r.None? <==> |tiles| < xChunks * yChunks
    ensures var xChunks, yChunks := ChunkCount(width, ChunkSize), ChunkCount(height, ChunkSize);
      r.Some? ==> r.value == Absolute(tiles, ChunkSize, yChunks, xChunks * yChunks)
  {
    var xChunks := (width + ChunkSize - 1) / ChunkSize;
    var yChunks := (height + ChunkSize - 1) / ChunkSize;
    if yChunks == 0 {
      return Some([]);
    }
    var absolute: seq<Box> := [];
    for i := 0 to xChunks
      invariant i * yChunks <= |tiles|
      invariant absolute == Absolute(tiles, ChunkSize, yChunks, i * yChunks)
    {
      for j := 0 to yChunks
        invariant i * yChunks + j <= |tiles|
        invariant absolute == Absolute(tiles, ChunkSize, yChunks, i * yChunks + j)
      {
        var offsetX := i * ChunkSize;
        var offsetY := j * ChunkSize;
        var t := i * yChunks + j;
        if t >= |tiles| {
          MulMonoNext(i, xChunks, yChunks);
          return None;
        }
        var bboxes := tiles[t];
        var added: seq<Box> := [];
        for b := 0 to |bboxes|
          invariant added == ShiftAll(bboxes[..b], offsetX, offsetY)
        {
          var bbox := bboxes[b];
          added := added + [Box(offsetX + bbox.xMin, offsetY + bbox.yMin, offsetX + bbox.xMax, offsetY + bbox.yMax)];
        }
        assert bboxes[..|bboxes|] == bboxes;
        ConvertInvertsFlattening(i, j, yChunks);
        absolute := absolute + added;
      }
      assert i * yChunks + yChunks == (i + 1) * yChunks;
    }
    return Some(absolute);
  }

  /** A flat index inside row i of the tile grid stays below the tile count. */
  lemma MulMonoNext(i: nat, xChunks: nat, yChunks: nat)
    requires i < xChunks
    ensures i * yChunks + yChunks <= xChunks * yChunks
  {
    ImageSegments.MulMono(i + 1, xChunks, yChunks);
  }

  // ---------------------------------------------------------------------------
  // normalize_line

  datatype Point = Point(x: int, y: int)

  /** Python's tuple order on (x, y). */
  predicate LexLeq(p: Point, q: Point)
  {
    p.x < q.x || (p.x == q.x && p.y <= q.y)
  }

  datatype Line = Line(start: Point, end: Point)

  /** normalize_line: the two endpoints in tuple order. */
  function NormalizeLine(x1: int, y1: int, x2: int, y2: int): (l: Line)
    ensures LexLeq(l.start, l.end)
    ensures multiset{l.start, l.end} == multiset{Point(x1, y1), Point(x2, y2)}
  {
    var p1, p2 := Point(x1, y1), Point(x2, y2);
    if LexLeq(p1, p2) then Line(p1, p2) else Line(p2, p1)
  }

  /** Swapping the endpoints yields the same normalised line. */
  lemma NormalizeIgnoresDirection(x1: int, y1: int, x2: int, y2: int)
    ensures NormalizeLine(x1, y1, x2, y2) == NormalizeLine(x2, y2, x1, y1)
  {
  }
}
