/**
 * The one-axis tiling both OCR preparers use: a page w pixels wide is cut
 * into `w // s` strips of width s plus one partial strip, and strip i spans
 * x from s * i to the right edge the loop computes.
 */
module Strips {
  import opened Geometry
  import ImageSegments

  /** `w // s`, plus one for a partial last strip. */
  function Pieces(w: nat, s: nat): nat
    requires s > 0
  {
    w / s + (if w % s > 0 then 1 else 0)
  }

  /** The right edge the loop computes for strip i: the page width for a strip that would overrun it. */
  function StripRight(w: nat, s: nat, i: nat): int
    requires s > 0
  {
    if s * (i + 1) > w then s * i + w % s else s * (i + 1)
  }

  /** The piece count is the ceiling of w / s. */
  lemma PiecesIsCeiling(w: nat, s: nat)
    requires s > 0
    ensures Pieces(w, s) == ChunkCount(w, s)
    ensures (Pieces(w, s) - 1) * s < w <= Pieces(w, s) * s
  {
    var q, k := w / s, ChunkCount(w, s);
    assert w == q * s + w % s;
    assert (k - 1) * s < w <= k * s;
    if w % s == 0 {
      ImageSegments.MulCancel(k - 1, q, s);
      ImageSegments.MulCancel(q - 1, k, s);
    } else {
      assert (q + 1) * s == q * s + s;
      ImageSegments.MulCancel(k - 1, q + 1, s);
      ImageSegments.MulCancel(q, k, s);
    }
  }

  /** Inside the strip range the right edge is s (i + 1) clipped to the page width. */
  lemma StripRightIsClipped(w: nat, s: nat, i: nat)
    requires s > 0 && i < Pieces(w, s)
    ensures StripRight(w, s, i) == Min(s * (i + 1), w)
  {
    if s * (i + 1) > w {
      var q := w / s;
      assert q * s <= w < q * s + s;
      ImageSegments.MulCancel(q, i + 1, s);
      ImageSegments.MulCancel(i, q + 1, s);
      assert i == q;
    }
  }

  /**
   * Strip i is non-empty and at most s wide, the next strip starts where it
   * ends, and the last one ends exactly at the page width.
   */
  lemma StripEdges(w: nat, s: nat, i: nat)
    requires s > 0 && i < Pieces(w, s)
    ensures s * i < StripRight(w, s, i) <= s * i + s
    ensures i + 1 < Pieces(w, s) ==> StripRight(w, s, i) == s * (i + 1)
    ensures i + 1 == Pieces(w, s) ==> StripRight(w, s, i) == w
  {
    PiecesIsCeiling(w, s);
    StripRightIsClipped(w, s, i);
    ImageSegments.AxisChunk(w, s, i);
    assert s * i == i * s && s * (i + 1) == (i + 1) * s;
  }

  /** Every column x of the page lies in strip x / s. */
  lemma StripsCoverWidth(w: nat, s: nat, x: int)
    requires s > 0 && 0 <= x < w
    ensures x / s < Pieces(w, s)
    ensures s * (x / s) <= x < StripRight(w, s, x / s)
  {
    PiecesIsCeiling(w, s);
    var i := x / s;
    assert i * s <= x < i * s + s;
    ImageSegments.MulCancel(i, Pieces(w, s), s);
    StripRightIsClipped(w, s, i);
  }
}
