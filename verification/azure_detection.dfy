/**
 * The post-OCR half of the detection service: the cell mapping of an OCR
 * result, pairwise merging of table fragments whose boxes meet, and the list
 * of all non-empty boxes. The OCR call itself is not modelled; its result is
 * an input value.
 */
module AzureDetection {
  import opened Wrappers
  import opened Geometry
  import opened Tables

  /** One table cell as the OCR result reports it; span and kind may be absent. */
  datatype RawCell = RawCell(
    columnIndex: nat, rowIndex: nat, columnSpan: Option<nat>, rowSpan: Option<nat>,
    content: string, kind: Option<string>)

  /** The cell mapping inside analyze_document. */
  function MapCell(raw: RawCell): TableCell
  {
    TableCell(
      if raw.kind.Some? then raw.kind.value else "",
      raw.rowIndex, raw.columnIndex,
      if raw.rowSpan.Some? then raw.rowSpan.value else 1,
      if raw.columnSpan.Some? then raw.columnSpan.value else 1,
      raw.content)
  }

  /** Absent spans default to 1 and an absent kind to ""; reported values are copied. */
  lemma MapCellDefaults(raw: RawCell)
    ensures MapCell(raw).rowSpan == (if raw.rowSpan.None? then 1 else raw.rowSpan.value)
    ensures MapCell(raw).colSpan == (if raw.columnSpan.None? then 1 else raw.columnSpan.value)
    ensures MapCell(raw).kind == (if raw.kind.None? then "" else raw.kind.value)
    ensures MapCell(raw).rowIndex == raw.rowIndex && MapCell(raw).colIndex == raw.columnIndex
    ensures MapCell(raw).content == raw.content
  {
  }

  // ---------------------------------------------------------------------------
  // Closed-box intersection

  /** The two closed boxes have a point in common (shapely's non-empty intersection). */
  predicate Intersects(a: Box, b: Box)
  {
    Max(a.xMin, b.xMin) <= Min(a.xMax, b.xMax) && Max(a.yMin, b.yMin) <= Min(a.yMax, b.yMax)
  }

  /** The bounds of the intersection of two meeting boxes. */
  function Intersection(a: Box, b: Box): (r: Box)
    requires Intersects(a, b)
    ensures OrderedBox(r)
    ensures forall x, y :: r.CoversClosed(x, y) <==> a.CoversClosed(x, y) && b.CoversClosed(x, y)
  {
    Box(Max(a.xMin, b.xMin), Max(a.yMin, b.yMin), Min(a.xMax, b.xMax), Min(a.yMax, b.yMax))
  }

  /** Two boxes intersect exactly when some point lies in both, touching edges and corners included. */
  lemma IntersectsIffSharedPoint(a: Box, b: Box)
    ensures Intersects(a, b) <==> exists x, y :: a.CoversClosed(x, y) && b.CoversClosed(x, y)
  {
    if Intersects(a, b) {
      var x, y := Max(a.xMin, b.xMin), Max(a.yMin, b.yMin);
      assert a.CoversClosed(x, y) && b.CoversClosed(x, y);
    }
  }

  /** Boxes that only share an edge still merge. */
  lemma TouchingBoxesIntersect(a: Box, b: Box)
    requires OrderedBox(a) && OrderedBox(b)
    requires a.xMax == b.xMin && a.yMin == b.yMin && a.yMax == b.yMax
    ensures Intersects(a, b) && Intersection(a, b).Width() == 0
  {
  }

  /** axis=1 puts the frames side by side, axis=0 stacks them. */
  datatype Axis = SideBySide | Stacked

  /** A tall intersection (narrower than high) means the fragments sit side by side. */
  function ChooseAxis(a: Box, b: Box): Axis
    requires Intersects(a, b)
  {
    var overlap := Intersection(a, b);
    if overlap.Width() < overlap.Height() then SideBySide else Stacked
  }

  // ---------------------------------------------------------------------------
  // pandas.concat of two frames

  function MissingRow(n: nat): (r: Row)
    ensures |r| == n && forall i :: 0 <= i < n ==> r[i] == Missing
  {
    seq(n, i requires 0 <= i < n => Missing)
  }

  /** Row k of f, or a row of NaN where f has no row k (alignment on the row index). */
  function RowOrMissing(f: Frame, k: nat): (r: Row)
    requires WellShaped(f)
    ensures |r| == |f.labels|
  {
    if k < |f.rows| then f.rows[k] else MissingRow(|f.labels|)
  }

  function PadRow(row: Row, width: nat): (r: Row)
    requires |row| <= width
    ensures |r| == width
    ensures forall c :: 0 <= c < width ==> r[c] == (if c < |row| then row[c] else Missing)
  {
    row + MissingRow(width - |row|)
  }

  function PadRows(rows: Grid, width: nat): (r: Grid)
    requires forall k :: 0 <= k < |rows| ==> |rows[k]| <= width
    ensures |r| == |rows| && forall k :: 0 <= k < |rows| ==> r[k] == PadRow(rows[k], width)
  {
    seq(|rows|, k requires 0 <= k < |rows| => PadRow(rows[k], width))
  }

  /**
   * pd.concat([a, b], axis): side by side the rows are aligned by index and the
   * labels of both are kept (repeats included); stacked, the labels 0..c-1 of
   * the wider frame are kept and each row is padded on the right.
   */
  function Concat(a: Frame, b: Frame, axis: Axis): (f: Frame)
    requires WellShaped(a) && WellShaped(b)
    requires axis == Stacked ==> Plain(a) && Plain(b)
    ensures WellShaped(f)
    ensures axis == SideBySide ==>
      f.labels == a.labels + b.labels && |f.rows| == Max(|a.rows|, |b.rows|)
    ensures axis == SideBySide ==> forall k, c :: 0 <= k < |f.rows| && 0 <= c < |a.labels| ==>
      f.rows[k][c] == (if k < |a.rows| then a.rows[k][c] else Missing)
    ensures axis == SideBySide ==> forall k, c :: 0 <= k < |f.rows| && 0 <= c < |b.labels| ==>
      f.rows[k][|a.labels| + c] == (if k < |b.rows| then b.rows[k][c] else Missing)
    ensures axis == Stacked ==>
      Plain(f) && |f.labels| == Max(|a.labels|, |b.labels|) && |f.rows| == |a.rows| + |b.rows|
    ensures axis == Stacked ==> forall k, c :: 0 <= k < |a.rows| && 0 <= c < |f.labels| ==>
      f.rows[k][c] == (if c < |a.labels| then a.rows[k][c] else Missing)
    ensures axis == Stacked ==> forall k, c :: 0 <= k < |b.rows| && 0 <= c < |f.labels| ==>
      f.rows[|a.rows| + k][c] == (if c < |b.labels| then b.rows[k][c] else Missing)
  {
    match axis
    case SideBySide => Beside(a, b)
    case Stacked => Stack(a, b)
  }

  /** pd.concat(axis=1): the rows of a and b aligned by index, a missing row read as all None. */
  function Beside(a: Frame, b: Frame): (f: Frame)
    requires WellShaped(a) && WellShaped(b)
    ensures WellShaped(f)
    ensures f.labels == a.labels + b.labels && |f.rows| == Max(|a.rows|, |b.rows|)
    ensures forall k, c :: 0 <= k < |f.rows| && 0 <= c < |a.labels| ==>
      f.rows[k][c] == (if k < |a.rows| then a.rows[k][c] else Missing)
    ensures forall k, c :: 0 <= k < |f.rows| && 0 <= c < |b.labels| ==>
      f.rows[k][|a.labels| + c] == (if k < |b.rows| then b.rows[k][c] else Missing)
  {
    var n := Max(|a.rows|, |b.rows|);
    Frame(a.labels + b.labels, seq(n, k requires 0 <= k < n => RowOrMissing(a, k) + RowOrMissing(b, k)))
  }

  /** pd.concat(axis=0) of unlabelled frames: the rows of a then b, padded to the wider one. */
  function Stack(a: Frame, b: Frame): (f: Frame)
    requires WellShaped(a) && WellShaped(b) && Plain(a) && Plain(b)
    ensures WellShaped(f)
    ensures Plain(f) && |f.labels| == Max(|a.labels|, |b.labels|) && |f.rows| == |a.rows| + |b.rows|
    ensures forall k, c :: 0 <= k < |a.rows| && 0 <= c < |f.labels| ==>
      f.rows[k][c] == (if c < |a.labels| then a.rows[k][c] else Missing)
    ensures forall k, c :: 0 <= k < |b.rows| && 0 <= c < |f.labels| ==>
      f.rows[|a.rows| + k][c] == (if c < |b.labels| then b.rows[k][c] else Missing)
  {
    var width := Max(|a.labels|, |b.labels|);
    Frame(Cols(width), PadRows(a.rows, width) + PadRows(b.rows, width))
  }

  // ---------------------------------------------------------------------------
  // check_intersection_of_tables

  datatype Pair = Pair(i: nat, j: nat)

  /** The merging pairs (i, j') with i < j' < j, in increasing j'. */
  function RowMerges(boxes: seq<Box>, i: nat, j: nat): seq<Pair>
    requires i < |boxes| && j <= |boxes|
  {
    if j <= i + 1 then []
    else RowMerges(boxes, i, j - 1) + (if Intersects(boxes[i], boxes[j - 1]) then [Pair(i, j - 1)] else [])
  }

  /** The merging pairs whose first index is below i, in the order combinations() visits them. */
  function MergesBefore(boxes: seq<Box>, i: nat): seq<Pair>
    requires i <= |boxes|
  {
    if i == 0 then [] else MergesBefore(boxes, i - 1) + RowMerges(boxes, i - 1, |boxes|)
  }

  function MergingPairs(boxes: seq<Box>): seq<Pair>
  {
    MergesBefore(boxes, |boxes|)
  }

  lemma {:induction false} RowMergesMembers(boxes: seq<Box>, i: nat, j: nat)
    requires i < |boxes| && j <= |boxes|
    ensures forall p :: p in RowMerges(boxes, i, j) <==>
      p.i == i && i < p.j < j && Intersects(boxes[i], boxes[p.j])
  {
    if j > i + 1 {
      RowMergesMembers(boxes, i, j - 1);
    }
  }

  lemma {:induction false} MergesBeforeMembers(boxes: seq<Box>, i: nat)
    requires i <= |boxes|
    ensures forall p :: p in MergesBefore(boxes, i) <==>
      p.i < i && p.i < p.j < |boxes| && Intersects(boxes[p.i], boxes[p.j])
  {
    if i > 0 {
      MergesBeforeMembers(boxes, i - 1);
      RowMergesMembers(boxes, i - 1, |boxes|);
    }
  }

  /** (i, j) is reported exactly when i < j and the two boxes meet. */
  lemma MergingPairsIff(boxes: seq<Box>, i: nat, j: nat)
    ensures Pair(i, j) in MergingPairs(boxes) <==> i < j < |boxes| && Intersects(boxes[i], boxes[j])
  {
    MergesBeforeMembers(boxes, |boxes|);
  }

  predicate LexLess(p: Pair, q: Pair)
  {
    p.i < q.i || (p.i == q.i && p.j < q.j)
  }

  predicate StrictlyLex(ps: seq<Pair>)
  {
    forall a, b :: 0 <= a < b < |ps| ==> LexLess(ps[a], ps[b])
  }

  /** Every pair of row i starts at i and ends between i and j. */
  lemma {:induction false} RowMergesBounds(boxes: seq<Box>, i: nat, j: nat)
    requires i < |boxes| && j <= |boxes|
    ensures forall p :: p in RowMerges(boxes, i, j) ==> p.i == i && i < p.j < j
  {
    if j > i + 1 {
      RowMergesBounds(boxes, i, j - 1);
    }
  }

  lemma {:induction false} RowMergesSorted(boxes: seq<Box>, i: nat, j: nat)
    requires i < |boxes| && j <= |boxes|
    ensures StrictlyLex(RowMerges(boxes, i, j))
  {
    if j > i + 1 {
      RowMergesSorted(boxes, i, j - 1);
      RowMergesBounds(boxes, i, j - 1);
      var prefix := RowMerges(boxes, i, j - 1);
      assert forall a :: 0 <= a < |prefix| ==> prefix[a] in prefix;
    }
  }

  /** Two sorted runs, every pair of the first below every pair of the second, make a sorted run. */
  lemma ConcatSorted(a: seq<Pair>, b: seq<Pair>)
    requires StrictlyLex(a) && StrictlyLex(b)
    requires forall x, y :: x in a && y in b ==> LexLess(x, y)
    ensures StrictlyLex(a + b)
  {
    var c := a + b;
    forall u, v | 0 <= u < v < |c|
      ensures LexLess(c[u], c[v])
    {
      if u < |a| && v >= |a| {
        assert c[u] == a[u] && a[u] in a;
        assert c[v] == b[v - |a|] && b[v - |a|] in b;
      }
    }
  }

  lemma {:induction false} MergesBeforeBelow(boxes: seq<Box>, i: nat)
    requires i <= |boxes|
    ensures forall x :: x in MergesBefore(boxes, i) ==> x.i < i
  {
    if i > 0 {
      MergesBeforeBelow(boxes, i - 1);
      RowMergesBounds(boxes, i - 1, |boxes|);
    }
  }

  lemma {:induction false} MergesBeforeSorted(boxes: seq<Box>, i: nat)
    requires i <= |boxes|
    ensures StrictlyLex(MergesBefore(boxes, i))
  {
    if i > 0 {
      var prefix, row := MergesBefore(boxes, i - 1), RowMerges(boxes, i - 1, |boxes|);
      assert StrictlyLex(prefix) by { MergesBeforeSorted(boxes, i - 1); }
      assert StrictlyLex(row) by { RowMergesSorted(boxes, i - 1, |boxes|); }
      assert forall x, y :: x in prefix && y in row ==> LexLess(x, y) by {
        MergesBeforeBelow(boxes, i - 1);
        RowMergesBounds(boxes, i - 1, |boxes|);
      }
      ConcatSorted(prefix, row);
    }
  }

  /** Each pair is visited once, in lexicographic order, so the pair list is strictly increasing. */
  lemma MergingPairsSorted(boxes: seq<Box>)
    ensures StrictlyLex(MergingPairs(boxes))
  {
    MergesBeforeSorted(boxes, |boxes|);
  }

  /** Every index that occurs in some pair: the fragments that were merged. */
  function Participants(pairs: seq<Pair>): set<nat>
  {
    if pairs == [] then {}
    else Participants(pairs[..|pairs| - 1]) + {pairs[|pairs| - 1].i, pairs[|pairs| - 1].j}
  }

  lemma {:induction false} ParticipantsMembers(pairs: seq<Pair>)
    ensures forall x :: x in Participants(pairs) <==> exists p :: p in pairs && (p.i == x || p.j == x)
  {
    if pairs != [] {
      ParticipantsMembers(pairs[..|pairs| - 1]);
      assert pairs == pairs[..|pairs| - 1] + [pairs[|pairs| - 1]];
    }
  }

  /** A fragment is merged exactly when its box meets some other fragment's box. */
  lemma ParticipantIff(boxes: seq<Box>, x: nat)
    ensures x in Participants(MergingPairs(boxes)) <==>
      exists y :: 0 <= y < |boxes| && y != x && x < |boxes| && Intersects(boxes[x], boxes[y])
  {
    var pairs := MergingPairs(boxes);
    ParticipantsMembers(pairs);
    MergesBeforeMembers(boxes, |boxes|);
    if exists y :: 0 <= y < |boxes| && y != x && x < |boxes| && Intersects(boxes[x], boxes[y]) {
      var y :| 0 <= y < |boxes| && y != x && x < |boxes| && Intersects(boxes[x], boxes[y]);
      if x < y {
        assert Pair(x, y) in pairs;
      } else {
        assert Pair(y, x) in pairs;
      }
    }
  }

  /** The indices below n that are not excluded, in increasing order. */
  function SurvivorIndices(n: nat, excluded: set<nat>): (r: seq<nat>)
    ensures forall k :: 0 <= k < |r| ==> r[k] < n
  {
    if n == 0 then [] else SurvivorIndices(n - 1, excluded) + (if n - 1 in excluded then [] else [n - 1])
  }

  lemma {:induction false} SurvivorIndicesMembers(n: nat, excluded: set<nat>)
    ensures forall x: nat :: x in SurvivorIndices(n, excluded) <==> x < n && x !in excluded
  {
    if n > 0 {
      SurvivorIndicesMembers(n - 1, excluded);
      var prefix := SurvivorIndices(n - 1, excluded);
      var tail: seq<nat> := if n - 1 in excluded then [] else [n - 1];
      assert SurvivorIndices(n, excluded) == prefix + tail;
      forall x: nat
        ensures x in prefix + tail <==> x < n && x !in excluded
      {
        assert x in prefix + tail <==> x in prefix || x in tail;
      }
    }
  }

  lemma {:induction false} SurvivorIndicesIncrease(n: nat, excluded: set<nat>)
    ensures forall a, b :: 0 <= a < b < |SurvivorIndices(n, excluded)| ==>
      SurvivorIndices(n, excluded)[a] < SurvivorIndices(n, excluded)[b]
  {
    if n > 0 {
      SurvivorIndicesIncrease(n - 1, excluded);
    }
  }

  /** The excluded indices below n. */
  function ExcludedBelow(n: nat, excluded: set<nat>): set<nat>
  {
    set x | 0 <= x < n && x in excluded
  }

  lemma {:induction false} SurvivorCount(n: nat, excluded: set<nat>)
    ensures |SurvivorIndices(n, excluded)| + |ExcludedBelow(n, excluded)| == n
  {
    if n > 0 {
      SurvivorCount(n - 1, excluded);
      if n - 1 in excluded {
        assert ExcludedBelow(n, excluded) == ExcludedBelow(n - 1, excluded) + {n - 1};
      } else {
        assert ExcludedBelow(n, excluded) == ExcludedBelow(n - 1, excluded);
      }
    }
  }

  function Pick(frames: seq<Frame>, idx: seq<nat>): (r: seq<Frame>)
    requires forall k :: 0 <= k < |idx| ==> idx[k] < |frames|
    ensures |r| == |idx| && forall k :: 0 <= k < |idx| ==> r[k] == frames[idx[k]]
  {
    seq(|idx|, k requires 0 <= k < |idx| => frames[idx[k]])
  }

  /** The fragments the merging can use: well shaped, with the labels 0..c-1 of a fresh frame. */
  predicate FreshFrames(frames: seq<Frame>)
  {
    forall k :: 0 <= k < |frames| ==> WellShaped(frames[k]) && Plain(frames[k])
  }

  predicate PairsIn(pairs: seq<Pair>, n: nat)
  {
    forall k :: 0 <= k < |pairs| ==> pairs[k].i < n && pairs[k].j < n
  }

  /** Every pair names two boxes that meet. */
  predicate Meeting(boxes: seq<Box>, pairs: seq<Pair>)
  {
    PairsIn(pairs, |boxes|)
    && forall k :: 0 <= k < |pairs| ==> Intersects(boxes[pairs[k].i], boxes[pairs[k].j])
  }

  lemma MergingPairsIn(boxes: seq<Box>)
    ensures PairsIn(MergingPairs(boxes), |boxes|)
  {
    var pairs := MergingPairs(boxes);
    MergesBeforeMembers(boxes, |boxes|);
    assert forall k :: 0 <= k < |pairs| ==> pairs[k] in pairs;
  }

  /** One concatenated frame per merging pair, in pair order. */
  function MergedFrames(boxes: seq<Box>, frames: seq<Frame>, pairs: seq<Pair>): (r: seq<Frame>)
    requires |frames| == |boxes| && FreshFrames(frames) && Meeting(boxes, pairs)
    ensures |r| == |pairs|
  {
    seq(|pairs|, k requires 0 <= k < |pairs| =>
      var p := pairs[k];
      Concat(frames[p.i], frames[p.j], ChooseAxis(boxes[p.i], boxes[p.j])))
  }

  lemma MergedFramesSnoc(boxes: seq<Box>, frames: seq<Frame>, pairs: seq<Pair>, p: Pair)
    requires |frames| == |boxes| && FreshFrames(frames) && Meeting(boxes, pairs)
    requires p.i < |boxes| && p.j < |boxes| && Intersects(boxes[p.i], boxes[p.j])
    ensures Meeting(boxes, pairs + [p])
    ensures MergedFrames(boxes, frames, pairs + [p]) == MergedFrames(boxes, frames, pairs)
      + [Concat(frames[p.i], frames[p.j], ChooseAxis(boxes[p.i], boxes[p.j]))]
  {
  }

  /** The pair loop: the merging pairs in visit order and one concatenated frame for each. */
  method CollectMerges(boxes: seq<Box>, frames: seq<Frame>) returns (merged: seq<Frame>, pairs: seq<Pair>)
    requires |frames| == |boxes| && FreshFrames(frames)
    ensures pairs == MergingPairs(boxes)
    ensures Meeting(boxes, pairs)
    ensures merged == MergedFrames(boxes, frames, pairs)
  {
    var n := |boxes|;
    merged, pairs := [], [];
    for i := 0 to n
      invariant pairs == MergesBefore(boxes, i)
      invariant Meeting(boxes, pairs)
      invariant merged == MergedFrames(boxes, frames, pairs)
    {
      ghost var before := pairs;
      for j := i + 1 to n
        invariant pairs == before + RowMerges(boxes, i, j)
        invariant Meeting(boxes, pairs)
        invariant merged == MergedFrames(boxes, frames, pairs)
      {
        if Intersects(boxes[i], boxes[j]) {
          MergedFramesSnoc(boxes, frames, pairs, Pair(i, j));
          merged := merged + [Concat(frames[i], frames[j], ChooseAxis(boxes[i], boxes[j]))];
          pairs := pairs + [Pair(i, j)];
        }
      }
    }
  }

  /** The set of every index named by a pair. */
  method ExclusionSet(pairs: seq<Pair>) returns (excluded: set<nat>)
    ensures excluded == Participants(pairs)
  {
    excluded := {};
    for k := 0 to |pairs|
      invariant excluded == Participants(pairs[..k])
    {
      excluded := excluded + {pairs[k].i, pairs[k].j};
      assert pairs[..k + 1][..k] == pairs[..k];
    }
    assert pairs[..|pairs|] == pairs;
  }

  /** A fragment is returned on its own exactly when its box meets no other fragment's box. */
  lemma SurvivorIff(boxes: seq<Box>, x: nat)
    ensures x in SurvivorIndices(|boxes|, Participants(MergingPairs(boxes))) <==>
      x < |boxes| && forall y :: 0 <= y < |boxes| && y != x ==> !Intersects(boxes[x], boxes[y])
  {
    SurvivorIndicesMembers(|boxes|, Participants(MergingPairs(boxes)));
    ParticipantIff(boxes, x);
  }

  /** The frames whose index is not excluded, in input order. */
  method KeepSurvivors(frames: seq<Frame>, excluded: set<nat>) returns (survivors: seq<Frame>)
    ensures survivors == Pick(frames, SurvivorIndices(|frames|, excluded))
  {
    survivors := [];
    for index := 0 to |frames|
      invariant survivors == Pick(frames, SurvivorIndices(index, excluded))
    {
      if index !in excluded {
        survivors := survivors + [frames[index]];
      }
    }
  }

  /**
   * check_intersection_of_tables: visit every pair i < j in lexicographic order,
   * concatenate the frames of each pair whose boxes meet, then return the
   * fragments that met no other, in input order, followed by the merged frames.
   */
  method CheckIntersectionOfTables(boxes: seq<Box>, frames: seq<Frame>)
    returns (result: seq<Frame>, pairs: seq<Pair>)
    requires |frames| == |boxes| && FreshFrames(frames)
    ensures pairs == MergingPairs(boxes)
    ensures Meeting(boxes, pairs)
    ensures result == Pick(frames, SurvivorIndices(|frames|, Participants(pairs)))
      + MergedFrames(boxes, frames, pairs)
  {
    var merged;
    merged, pairs := CollectMerges(boxes, frames);
    var excluded := ExclusionSet(pairs);
    var survivors := KeepSurvivors(frames, excluded);
    result := survivors + merged;
  }

  /** The fragments left alone number n minus the number of fragments that took part in a merge. */
  lemma ResultCount(boxes: seq<Box>, frames: seq<Frame>)
    requires |frames| == |boxes|
    ensures |Pick(frames, SurvivorIndices(|frames|, Participants(MergingPairs(boxes))))|
      + |Participants(MergingPairs(boxes))| == |frames|
  {
    var pairs := MergingPairs(boxes);
    MergesBeforeMembers(boxes, |boxes|);
    var ex := Participants(pairs);
    ParticipantsMembers(pairs);
    assert ExcludedBelow(|frames|, ex) == ex;
    SurvivorCount(|frames|, ex);
  }

  // ---------------------------------------------------------------------------
  // get_all_polygons

  /** The non-empty coordinate lists, in order. */
  function NonEmpty(polygons: seq<seq<int>>): (r: seq<seq<int>>)
    ensures forall k :: 0 <= k < |r| ==> r[k] != []
    ensures forall p :: p in polygons && p != [] ==> p in r
    ensures forall p :: p in r ==> p in polygons
  {
    if polygons == [] then []
    else
      var last := polygons[|polygons| - 1];
      NonEmpty(polygons[..|polygons| - 1]) + (if last != [] then [last] else [])
  }
  /** Keeping the non-empty lists of a concatenation keeps them from each part, in order. */
  lemma {:induction false} NonEmptyConcat(a: seq<seq<int>>, b: seq<seq<int>>)
    decreases |b|
    ensures NonEmpty(a + b) == NonEmpty(a) + NonEmpty(b)
  {
    if b == [] {
      assert a + b == a;
    } else {
      var last := |b| - 1;
      assert (a + b)[..|a + b| - 1] == a + b[..last];
      assert (a + b)[|a + b| - 1] == b[last];
      NonEmptyConcat(a, b[..last]);
    }
  }

  /** A single list is kept exactly when it is non-empty. */
  lemma NonEmptyOne(x: seq<int>)
    ensures NonEmpty([x]) == if x != [] then [x] else []
  {
    assert [x][..0] == [];
  }


  /** get_all_polygons: the non-empty word boxes, then the non-empty table boxes. */
  method GetAllPolygons(words: seq<seq<int>>, tables: seq<seq<int>>) returns (bboxes: seq<seq<int>>)
    ensures bboxes == NonEmpty(words) + NonEmpty(tables)
  {
    bboxes := [];
    for k := 0 to |words|
      invariant bboxes == NonEmpty(words[..k])
    {
      if |words[k]| > 0 {
        bboxes := bboxes + [words[k]];
      }
      assert words[..k + 1][..k] == words[..k];
    }
    assert words[..|words|] == words;
    ghost var fromWords := bboxes;
    for k := 0 to |tables|
      invariant bboxes == fromWords + NonEmpty(tables[..k])
    {
      if |tables[k]| > 0 {
        bboxes := bboxes + [tables[k]];
      }
      assert tables[..k + 1][..k] == tables[..k];
    }
    assert tables[..|tables|] == tables;
  }
}
