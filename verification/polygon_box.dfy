/**
 * polygon_to_bounding_box: the flat vertex list [x0, y0, x1, y1, ...] the OCR
 * service reports becomes the axis-aligned box [min x, min y, max x, max y].
 */
module PolygonBox {
  import opened Geometry

  datatype Point = Point(x: int, y: int)

  /** A flat coordinate list that pairs up into at least one vertex. */
  predicate WellFormedPolygon(p: seq<int>)
  {
    |p| > 0 && |p| % 2 == 0
  }

  /** Consecutive entries paired into (x, y) vertices. */
  function Vertices(p: seq<int>): (vs: seq<Point>)
    requires |p| % 2 == 0
    ensures |vs| == |p| / 2
    ensures forall k :: 0 <= k < |vs| ==> vs[k] == Point(p[2 * k], p[2 * k + 1])
  {
    seq(|p| / 2, k requires 0 <= k < |p| / 2 => Point(p[2 * k], p[2 * k + 1]))
  }

  function MinX(vs: seq<Point>): int
    requires |vs| > 0
  {
    if |vs| == 1 then vs[0].x else Min(vs[0].x, MinX(vs[1..]))
  }

  function MinY(vs: seq<Point>): int
    requires |vs| > 0
  {
    if |vs| == 1 then vs[0].y else Min(vs[0].y, MinY(vs[1..]))
  }

  function MaxX(vs: seq<Point>): int
    requires |vs| > 0
  {
    if |vs| == 1 then vs[0].x else Max(vs[0].x, MaxX(vs[1..]))
  }

  function MaxY(vs: seq<Point>): int
    requires |vs| > 0
  {
    if |vs| == 1 then vs[0].y else Max(vs[0].y, MaxY(vs[1..]))
  }

  /** b contains every vertex (closed) and each of its four sides touches one. */
  ghost predicate TightBox(vs: seq<Point>, b: Box)
  {
    && (forall v :: v in vs ==> b.xMin <= v.x <= b.xMax && b.yMin <= v.y <= b.yMax)
    && (exists v :: v in vs && v.x == b.xMin)
    && (exists v :: v in vs && v.y == b.yMin)
    && (exists v :: v in vs && v.x == b.xMax)
    && (exists v :: v in vs && v.y == b.yMax)
  }

  lemma {:induction false} ExtremaAreTight(vs: seq<Point>)
    requires |vs| > 0
    ensures TightBox(vs, Box(MinX(vs), MinY(vs), MaxX(vs), MaxY(vs)))
  {
    if |vs| > 1 {
      ExtremaAreTight(vs[1..]);
      assert forall v :: v in vs[1..] ==> v in vs;
      assert vs == [vs[0]] + vs[1..];
    }
  }

  /** The four extrema over all vertices. */
  function PolygonToBoundingBox(p: seq<int>): (b: Box)
    requires WellFormedPolygon(p)
    ensures OrderedBox(b)
    ensures TightBox(Vertices(p), b)
  {
    var vs := Vertices(p);
    ExtremaAreTight(vs);
    assert vs[0] in vs;
    Box(MinX(vs), MinY(vs), MaxX(vs), MaxY(vs))
  }

  /** A tight box of a vertex list is unique. */
  lemma TightBoxUnique(vs: seq<Point>, a: Box, b: Box)
    requires TightBox(vs, a) && TightBox(vs, b)
    ensures a == b
  {
    var v1 :| v1 in vs && v1.x == a.xMin;
    var v2 :| v2 in vs && v2.x == b.xMin;
    var v3 :| v3 in vs && v3.y == a.yMin;
    var v4 :| v4 in vs && v4.y == b.yMin;
    var v5 :| v5 in vs && v5.x == a.xMax;
    var v6 :| v6 in vs && v6.x == b.xMax;
    var v7 :| v7 in vs && v7.y == a.yMax;
    var v8 :| v8 in vs && v8.y == b.yMax;
  }

  /** Listing the same vertices in another order gives the same box. */
  lemma PermutationInvariant(p: seq<int>, q: seq<int>)
    requires WellFormedPolygon(p) && WellFormedPolygon(q)
    requires multiset(Vertices(p)) == multiset(Vertices(q))
    ensures PolygonToBoundingBox(p) == PolygonToBoundingBox(q)
  {
    var vp, vq := Vertices(p), Vertices(q);
    forall v ensures v in vp <==> v in vq {
      assert v in vp <==> v in multiset(vp);
      assert v in vq <==> v in multiset(vq);
    }
    var bq := PolygonToBoundingBox(q);
    assert TightBox(vp, bq);
    TightBoxUnique(vp, PolygonToBoundingBox(p), bq);
  }

  /** Every x coordinate moved by dx and every y coordinate by dy. */
  function ShiftPolygon(p: seq<int>, dx: int, dy: int): (r: seq<int>)
    ensures |r| == |p|
    ensures forall i :: 0 <= i < |p| ==> r[i] == p[i] + (if i % 2 == 0 then dx else dy)
  {
    seq(|p|, i requires 0 <= i < |p| => p[i] + (if i % 2 == 0 then dx else dy))
  }

  function ShiftPoints(vs: seq<Point>, dx: int, dy: int): (ws: seq<Point>)
    ensures |ws| == |vs|
    ensures forall k :: 0 <= k < |vs| ==> ws[k] == Point(vs[k].x + dx, vs[k].y + dy)
  {
    seq(|vs|, k requires 0 <= k < |vs| => Point(vs[k].x + dx, vs[k].y + dy))
  }

  lemma VerticesOfShift(p: seq<int>, dx: int, dy: int)
    requires |p| % 2 == 0
    ensures Vertices(ShiftPolygon(p, dx, dy)) == ShiftPoints(Vertices(p), dx, dy)
  {
    var q := ShiftPolygon(p, dx, dy);
    forall k | 0 <= k < |p| / 2
      ensures Vertices(q)[k] == ShiftPoints(Vertices(p), dx, dy)[k]
    {
      assert (2 * k) % 2 == 0 && (2 * k + 1) % 2 == 1;
    }
  }

  lemma TightShift(vs: seq<Point>, b: Box, dx: int, dy: int)
    requires TightBox(vs, b)
    ensures TightBox(ShiftPoints(vs, dx, dy), b.Shift(dx, dy))
  {
    var ws := ShiftPoints(vs, dx, dy);
    forall w | w in ws
      ensures b.xMin + dx <= w.x <= b.xMax + dx && b.yMin + dy <= w.y <= b.yMax + dy
    {
      var k :| 0 <= k < |ws| && ws[k] == w;
      assert vs[k] in vs;
    }
    var v1 :| v1 in vs && v1.x == b.xMin;
    var v2 :| v2 in vs && v2.y == b.yMin;
    var v3 :| v3 in vs && v3.x == b.xMax;
    var v4 :| v4 in vs && v4.y == b.yMax;
    ShiftedMember(vs, v1, dx, dy);
    ShiftedMember(vs, v2, dx, dy);
    ShiftedMember(vs, v3, dx, dy);
    ShiftedMember(vs, v4, dx, dy);
  }

  lemma ShiftedMember(vs: seq<Point>, v: Point, dx: int, dy: int)
    requires v in vs
    ensures Point(v.x + dx, v.y + dy) in ShiftPoints(vs, dx, dy)
  {
    var k :| 0 <= k < |vs| && vs[k] == v;
    assert ShiftPoints(vs, dx, dy)[k] == Point(v.x + dx, v.y + dy);
  }

  /** Boxing commutes with translation: box the moved vertices = move the box. */
  lemma ShiftCommutes(p: seq<int>, dx: int, dy: int)
    requires WellFormedPolygon(p)
    ensures PolygonToBoundingBox(ShiftPolygon(p, dx, dy)) == PolygonToBoundingBox(p).Shift(dx, dy)
  {
    var q := ShiftPolygon(p, dx, dy);
    VerticesOfShift(p, dx, dy);
    TightShift(Vertices(p), PolygonToBoundingBox(p), dx, dy);
    TightBoxUnique(Vertices(q), PolygonToBoundingBox(q), PolygonToBoundingBox(p).Shift(dx, dy));
  }
}
