/**
 * Integer rectangles. A Box is the four-number list [x_min, y_min, x_max, y_max]
 * the backend uses both for OCR bounding boxes and for the (left, upper, right,
 * lower) rectangles it passes to the image crop.
 */
module Geometry {

  datatype Box = Box(xMin: int, yMin: int, xMax: int, yMax: int)
  {
    function Width(): int { xMax - xMin }

    function Height(): int { yMax - yMin }

    /** The same box moved by (dx, dy). */
    function Shift(dx: int, dy: int): Box
    {
      Box(xMin + dx, yMin + dy, xMax + dx, yMax + dy)
    }

    /** Closed-rectangle membership, the point set a shapely box covers. */
    predicate CoversClosed(x: int, y: int)
    {
      xMin <= x <= xMax && yMin <= y <= yMax
    }

    /** Half-open pixel membership, the pixels a crop (left, upper, right, lower) keeps. */
    predicate HasPixel(x: int, y: int)
    {
      xMin <= x < xMax && yMin <= y < yMax
    }
  }

  /** A box whose corners are in order and whose area is positive. */
  predicate ProperBox(b: Box)
  {
    b.xMin < b.xMax && b.yMin < b.yMax
  }

  /** A box whose corners are in order (zero width or height allowed). */
  predicate OrderedBox(b: Box)
  {
    b.xMin <= b.xMax && b.yMin <= b.yMax
  }

  function Min(a: int, b: int): int { if a <= b then a else b }

  function Max(a: int, b: int): int { if a >= b then a else b }

  /** The number of chunks `(n + c - 1) // c` the tilers compute. */
  function ChunkCount(n: nat, c: nat): (k: nat)
    requires c > 0
    ensures (k - 1) * c < n <= k * c
  {
    (n + c - 1) / c
  }

  /** ceil(a / b) for a positive divisor, on unbounded integers. */
  function CeilDiv(a: int, b: int): (q: int)
    requires b > 0
    ensures (q - 1) * b < a <= q * b
  {
    -((-a) / b)
  }

  /** A box grown outward by `d` on every side. */
  function Expand(b: Box, d: int): (e: Box)
    ensures e.Width() == b.Width() + 2 * d && e.Height() == b.Height() + 2 * d
    ensures e.xMin == b.xMin - d && e.yMin == b.yMin - d
  {
    Box(b.xMin - d, b.yMin - d, b.xMax + d, b.yMax + d)
  }
}
