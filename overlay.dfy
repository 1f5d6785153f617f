/**
  What `updateVisualize` draws over the image (imageviewer.cpp), as lists
  rather than pixels: a point for every keypoint that was not skipped, then a
  line for every wireframe edge whose two keypoints have been entered and pass
  the test in `drawWireFrame`.
 */
module Overlay {
  import opened Keypoints

  datatype Segment = Segment(from: Keypoint, to: Keypoint)

  /** The marks over the image: points first, then lines, each in drawing order. */
  datatype Marks = Marks(points: seq<Keypoint>, segments: seq<Segment>)

  /**
    The test in `drawWireFrame`: the first end must not be the skip sentinel;
    of the second end only the x coordinate is compared with -1.
   */
  predicate EdgeDrawn(a: Keypoint, b: Keypoint) {
    !((a.x == -1 && a.y == -1) || (b.x == -1 && b.x == -1))
  }

  /** The points drawn for the entries, in entry order. */
  function DrawnPoints(kps: seq<Keypoint>): seq<Keypoint>
    decreases |kps|
  {
    if |kps| == 0 then []
    else
      var last := kps[|kps| - 1];
      DrawnPoints(kps[..|kps| - 1]) + (if IsSkipped(last) then [] else [last])
  }

  /** The loop that paints the points, collecting them instead. */
  method CollectPoints(kps: seq<Keypoint>) returns (pts: seq<Keypoint>)
    ensures pts == DrawnPoints(kps)
  {
    pts := [];
    for i := 0 to |kps|
      invariant pts == DrawnPoints(kps[..i])
    {
      assert kps[..i + 1][..i] == kps[..i];
      var x, y := kps[i].x, kps[i].y;
      if x == -1 && y == -1 {
        continue;
      }
      pts := pts + [Keypoint(x, y)];
    }
    assert kps[..|kps|] == kps;
  }

  /** The line from `p` to `q`, or nothing when the edge test blocks it. */
  function Line(p: Keypoint, q: Keypoint): seq<Segment> {
    if EdgeDrawn(p, q) then [Segment(p, q)] else []
  }

  /** What edge `j` contributes: its line once its larger index has an entry. */
  function EdgeLine(kps: seq<Keypoint>, j: nat): seq<Segment>
    requires j < EdgeCount
  {
    var (a, b) := Edge(j);
    if b < |kps| then Line(kps[a], kps[b]) else []
  }

  /** The lines of the first `n` edges, in table order. */
  function SegmentsUpTo(kps: seq<Keypoint>, n: nat): seq<Segment>
    requires n <= EdgeCount
  {
    if n == 0 then [] else SegmentsUpTo(kps, n - 1) + EdgeLine(kps, n - 1)
  }

  function DrawnSegments(kps: seq<Keypoint>): seq<Segment> {
    SegmentsUpTo(kps, EdgeCount)
  }

  /** The whole overlay, recomputed from the entries alone. */
  function MarksOf(kps: seq<Keypoint>): Marks {
    Marks(DrawnPoints(kps), DrawnSegments(kps))
  }

  /** `drawWireFrame`: one line from `kp1` to `kp2` unless the edge test blocks it. */
  method DrawWireFrame(segs: seq<Segment>, kp1: Keypoint, kp2: Keypoint) returns (r: seq<Segment>)
    ensures r == segs + Line(kp1, kp2)
  {
    if (kp1.x == -1 && kp1.y == -1) || (kp2.x == -1 && kp2.x == -1) {
      return segs;
    }
    r := segs + [Segment(kp1, kp2)];
  }

  /**
    The lines of `updateVisualize`: the edges in table order, each guarded by
    the number of entries it needs (the program draws the two edges needing
    nine entries under a single test).
   */
  method PaintWireFrame(kps: seq<Keypoint>) returns (segs: seq<Segment>)
    ensures segs == DrawnSegments(kps)
  {
    segs := [];
    segs := PaintEdge(kps, segs, 0, 1, 2);
    segs := PaintEdge(kps, segs, 1, 1, 3);
    segs := PaintEdge(kps, segs, 2, 2, 4);
    segs := PaintEdge(kps, segs, 3, 3, 5);
    segs := PaintEdge(kps, segs, 4, 4, 6);
    segs := PaintEdge(kps, segs, 5, 1, 7);
    segs := PaintEdge(kps, segs, 6, 2, 8);
    segs := PaintEdge(kps, segs, 7, 7, 8);
    segs := PaintEdge(kps, segs, 8, 7, 9);
    segs := PaintEdge(kps, segs, 9, 8, 10);
    segs := PaintEdge(kps, segs, 10, 9, 11);
    segs := PaintEdge(kps, segs, 11, 10, 12);
  }

  /** One guarded call of `drawWireFrame`: edge `k`, from keypoint `a` to keypoint `b`, once there are `b + 1` entries. */
  method PaintEdge(kps: seq<Keypoint>, segs: seq<Segment>, k: nat, a: nat, b: nat) returns (r: seq<Segment>)
    requires k < EdgeCount && Edge(k) == (a, b)
    requires segs == SegmentsUpTo(kps, k)
    ensures r == SegmentsUpTo(kps, k + 1)
  {
    r := segs;
    if |kps| >= b + 1 {
      r := DrawWireFrame(r, kps[a], kps[b]);
    }
    EdgeLineOf(kps, k, a, b);
  }

  lemma EdgeLineOf(kps: seq<Keypoint>, k: nat, a: nat, b: nat)
    requires k < EdgeCount && Edge(k) == (a, b)
    ensures a < b && EdgeLine(kps, k) == if b < |kps| then Line(kps[a], kps[b]) else []
  {
  }

  // ---------------------------------------------------------------------
  // Properties
  // ---------------------------------------------------------------------

  /**
    Each entry that is not the skip sentinel is drawn, as many times as it is
    entered, and nothing else is drawn.
   */
  lemma {:induction false} DrawnPointsExact(kps: seq<Keypoint>)
    ensures forall p :: IsSkipped(p) ==> p !in DrawnPoints(kps)
    ensures forall p :: !IsSkipped(p) ==> multiset(DrawnPoints(kps))[p] == multiset(kps)[p]
    decreases |kps|
  {
    if |kps| > 0 {
      var init, last := kps[..|kps| - 1], kps[|kps| - 1];
      DrawnPointsExact(init);
      assert kps == init + [last];
    }
  }

  /** A point is drawn exactly for the entries that are not the skip sentinel. */
  lemma DrawnPointsMembership(kps: seq<Keypoint>, p: Keypoint)
    ensures p in DrawnPoints(kps) <==> p in kps && !IsSkipped(p)
  {
    DrawnPointsExact(kps);
    if !IsSkipped(p) {
      assert p in DrawnPoints(kps) <==> multiset(DrawnPoints(kps))[p] > 0;
    }
  }

  /** Entering more keypoints never takes back a point already drawn. */
  lemma {:induction false} DrawnPointsPrefix(kps: seq<Keypoint>, more: seq<Keypoint>)
    ensures DrawnPoints(kps) <= DrawnPoints(kps + more)
    decreases |more|
  {
    if |more| > 0 {
      var init := more[..|more| - 1];
      DrawnPointsPrefix(kps, init);
      assert (kps + more)[..|kps + more| - 1] == kps + init;
      var p, q, r := DrawnPoints(kps), DrawnPoints(kps + init), DrawnPoints(kps + more);
      assert q <= r;
      assert p == q[..|p|] && q == r[..|q|];
      assert r[..|q|][..|p|] == r[..|p|];
    } else {
      assert kps + more == kps;
    }
  }

  /**
    The lines drawn for the first `n` edges are exactly those of the edges
    `(a, b)` with `b` below the number of entries that pass `EdgeDrawn`.
   */
  lemma {:induction false} SegmentsUpToExact(kps: seq<Keypoint>, n: nat, s: Segment)
    requires n <= EdgeCount
    ensures s in SegmentsUpTo(kps, n) <==>
      exists i :: 0 <= i < n && Edge(i).1 < |kps|
        && EdgeDrawn(kps[Edge(i).0], kps[Edge(i).1]) && s == Segment(kps[Edge(i).0], kps[Edge(i).1])
  {
    if n > 0 {
      SegmentsUpToExact(kps, n - 1, s);
    }
  }

  /**
    A line is drawn exactly for a wireframe edge (a, b) whose larger index is
    below the number of entries, whose first keypoint is not the skip
    sentinel, and whose second keypoint does not have x == -1.
   */
  lemma DrawnSegmentsExact(kps: seq<Keypoint>, s: Segment)
    ensures s in DrawnSegments(kps) <==>
      exists i :: 0 <= i < EdgeCount && Edge(i).1 < |kps|
        && !IsSkipped(kps[Edge(i).0]) && kps[Edge(i).1].x != -1
        && s == Segment(kps[Edge(i).0], kps[Edge(i).1])
  {
    SegmentsUpToExact(kps, EdgeCount, s);
  }

  /** At most one line per edge: up to twelve lines. */
  lemma {:induction false} SegmentsUpToBound(kps: seq<Keypoint>, n: nat)
    requires n <= EdgeCount
    ensures |SegmentsUpTo(kps, n)| <= n
  {
    if n > 0 {
      SegmentsUpToBound(kps, n - 1);
    }
  }

  /** Edges reaching past the entries contribute no line. */
  lemma {:induction false} SegmentsUpToPastEnd(kps: seq<Keypoint>, n: nat)
    requires n <= EdgeCount
    requires forall i :: 0 <= i < n ==> Edge(i).1 >= |kps|
    ensures SegmentsUpTo(kps, n) == []
  {
    if n > 0 {
      SegmentsUpToPastEnd(kps, n - 1);
    }
  }

  /** With fewer than three entries there is no line at all. */
  lemma NoSegmentsBeforeThirdEntry(kps: seq<Keypoint>)
    requires |kps| < 3
    ensures DrawnSegments(kps) == []
  {
    forall i | 0 <= i < EdgeCount ensures Edge(i).1 >= |kps| {
    }
    SegmentsUpToPastEnd(kps, EdgeCount);
  }

  /** With thirteen or more entries and none with x == -1, every edge gets its line. */
  lemma {:induction false} AllSegmentsDrawn(kps: seq<Keypoint>, n: nat)
    requires n <= EdgeCount && |kps| >= |JointNames|
    requires forall i :: 0 <= i < |kps| ==> kps[i].x != -1
    ensures |SegmentsUpTo(kps, n)| == n
  {
    if n > 0 {
      AllSegmentsDrawn(kps, n - 1);
    }
  }

  /**
    A second end with x == -1 and y != -1 blocks the line although it is not
    the skip sentinel; the same keypoint as first end does not block it.
   */
  lemma EdgeTestAsymmetry(p: Keypoint, q: Keypoint)
    requires p.x == -1 && p.y != -1 && !IsSkipped(q)
    ensures !IsSkipped(p) && !EdgeDrawn(q, p) && (q.x != -1 ==> EdgeDrawn(p, q))
  {
  }
}
