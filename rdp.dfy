/** `rdp(points, epsilonTolerance)`: the exported Ramer-Douglas-Peucker
    simplification, as written. Its chord runs from the SECOND point to the last,
    it splits the input into two disjoint pieces at the farthest point, and it
    returns the first and the last point of every piece it does not split. */
module RdpSimplifier {
  import opened Geometry
  import opened Polyline

  /** The squared distances the loop measures: entry j belongs to point j + 1 and
      is its distance to the segment from points[1] to the last point. Fewer than
      three points leave nothing to measure. */
  function ChordDistances(points: seq<Point>): (ds: seq<real>)
    ensures |ds| == if |points| >= 3 then |points| - 2 else 0
    ensures forall j :: 0 <= j < |ds| ==> ds[j] == PerpDistSq(points[j + 1], points[1], points[|points| - 1])
  {
    if |points| < 3 then []
    else seq(|points| - 2, j requires 0 <= j < |points| - 2 => PerpDistSq(points[j + 1], points[1], points[|points| - 1]))
  }

  /** What `rdp(points, eps)` does. On an empty input the loop does nothing; a
      negative eps then sends it back into `rdp([])` forever, and otherwise it
      returns two `undefined`s. A chosen point at index 0 (possible only when eps is
      negative) makes the left call `rdp([])`, which never returns. */
  function Rdp(points: seq<Point>, eps: real): (o: Outcome)
    ensures o != NonFinite
    ensures o.Returns? ==> |o.points| >= 2
    decreases |points|
  {
    if |points| == 0 then
      if eps < 0.0 then Loops else HoldsUndefined
    else
      var f := FarthestOf(ChordDistances(points));
      if Exceeds(f.dist, eps) then
        if f.index == 0 then Loops
        else Concat(Rdp(points[..f.index], eps), Rdp(points[f.index..], eps))
      else
        Returns([points[0], points[|points| - 1]])
  }

  /** The search loop of `rdp`: the first point farthest from the chord, with its
      squared distance, or index 0 and distance 0 when every distance is 0. */
  method FindFarthest(points: seq<Point>) returns (index: nat, maxDist: real)
    ensures Farthest(index, maxDist) == FarthestOf(ChordDistances(points))
  {
    ghost var ds := ChordDistances(points);
    index, maxDist := 0, 0.0;
    var i := 1;
    while i < |points| - 1
      invariant 1 <= i && i - 1 <= |ds|
      invariant Farthest(index, maxDist) == FarthestOf(ds[..i - 1])
      decreases |points| - i
    {
      var dist := PerpDistSq(points[i], points[1], points[|points| - 1]);
      assert dist == ds[i - 1];
      FarthestOfPrefix(ds, i);
      if dist > maxDist {
        index, maxDist := i, dist;
      }
      i := i + 1;
    }
    assert ds[..i - 1] == ds;
  }

  /** `rdp` itself, on the inputs where it returns an array of points. */
  method ComputeRdp(points: seq<Point>, eps: real) returns (r: seq<Point>)
    requires |points| >= 1 && eps >= 0.0
    ensures Rdp(points, eps) == Returns(r)
    decreases |points|
  {
    var index, maxDist := FindFarthest(points);
    if Exceeds(maxDist, eps) {
      var left := ComputeRdp(points[..index], eps);
      var right := ComputeRdp(points[index..], eps);
      r := left + right;
    } else {
      r := [points[0], points[|points| - 1]];
    }
  }

  /** The point chosen is never the second one, which lies on the chord: the
      index is 0, or between 2 and the last but one. */
  lemma SplitIndex(points: seq<Point>)
    requires |points| >= 3
    ensures var f := FarthestOf(ChordDistances(points));
            f.index == 0 || 2 <= f.index <= |points| - 2
  {
    var ds := ChordDistances(points);
    assert ds[0] == 0.0;
  }

  /** `rdp` returns an array of points exactly when the input is non-empty and the
      tolerance is not negative. */
  lemma {:induction false} RdpReturnsIff(points: seq<Point>, eps: real)
    ensures Rdp(points, eps).Returns? <==> |points| >= 1 && eps >= 0.0
    decreases |points|
  {
    if |points| >= 1 {
      var f := FarthestOf(ChordDistances(points));
      if eps < 0.0 {
        RdpLoopsOnNegativeTolerance(points, eps);
      } else if Exceeds(f.dist, eps) {
        SplitIndex(points);
        RdpReturnsIff(points[..f.index], eps);
        RdpReturnsIff(points[f.index..], eps);
      }
    }
  }

  /** With a negative tolerance every run ends in `rdp([])` re-entering itself. */
  lemma {:induction false} RdpLoopsOnNegativeTolerance(points: seq<Point>, eps: real)
    requires eps < 0.0
    ensures Rdp(points, eps) == Loops
    decreases |points|
  {
    if |points| >= 1 {
      var f := FarthestOf(ChordDistances(points));
      if f.index != 0 {
        RdpLoopsOnNegativeTolerance(points[..f.index], eps);
      }
    }
  }

  /** The output of a run that returns: the first and the last point of every piece
      left unsplit, so a subsequence of the input that keeps both its ends, of even
      length, and no longer than the input. */
  lemma {:induction false} RdpShape(points: seq<Point>, eps: real)
    requires |points| >= 2 && eps >= 0.0
    ensures Rdp(points, eps).Returns?
    ensures var r := Rdp(points, eps).points;
            && (exists idx :: SpansSubsequence(r, points, idx))
            && Even(|r|) && 2 <= |r| <= |points|
    decreases |points|, 1
  {
    if Exceeds(FarthestOf(ChordDistances(points)).dist, eps) {
      RdpSplitShape(points, eps);
    } else {
      assert SpansSubsequence(Rdp(points, eps).points, points, [0, |points| - 1]);
    }
  }

  /** RdpShape for a run that splits: the two pieces' outputs join. */
  lemma {:induction false} RdpSplitShape(points: seq<Point>, eps: real)
    requires |points| >= 2 && eps >= 0.0
    requires Exceeds(FarthestOf(ChordDistances(points)).dist, eps)
    ensures Rdp(points, eps).Returns?
    ensures var r := Rdp(points, eps).points;
            && (exists idx :: SpansSubsequence(r, points, idx))
            && Even(|r|) && 4 <= |r| <= |points|
    decreases |points|, 0
  {
    var cut := FarthestOf(ChordDistances(points)).index;
    SplitIndex(points);
    var left, right := points[..cut], points[cut..];
    RdpShape(left, eps);
    RdpShape(right, eps);
    var l, rr := Rdp(left, eps).points, Rdp(right, eps).points;
    assert Rdp(points, eps).points == l + rr;
    SpansJoinExists(l, rr, points, cut);
    PairsJoin(Rdp(points, eps).points, l, rr);
  }

  /** Two outputs made of pairs join into one made of pairs, of at least four points. */
  lemma PairsJoin(r: seq<Point>, l: seq<Point>, rr: seq<Point>)
    requires r == l + rr && Even(|l|) && Even(|rr|) && |l| >= 2 && |rr| >= 2
    ensures Even(|r|) && |r| >= 4
  {
    EvenSum(|r|, |l|, |rr|);
  }

  /** n is even: a number of pairs. */
  predicate Even(n: nat)
  {
    n % 2 == 0
  }

  /** A sum of even numbers is even. */
  lemma EvenSum(n: nat, a: nat, b: nat)
    requires n == a + b && Even(a) && Even(b)
    ensures Even(n)
  {
  }

  /** A single point comes back twice. */
  lemma RdpSinglePoint(p: Point, eps: real)
    requires eps >= 0.0
    ensures Rdp([p], eps) == Returns([p, p])
  {
  }

  /** For an input of at least two points and a tolerance that is not negative, the
      output is just the two end points exactly when no point is farther than eps
      from the chord. */
  lemma RdpEndsOnlyIff(points: seq<Point>, eps: real)
    requires |points| >= 2 && eps >= 0.0
    ensures Rdp(points, eps) == Returns([points[0], points[|points| - 1]])
            <==> !Exceeds(FarthestOf(ChordDistances(points)).dist, eps)
  {
    if Exceeds(FarthestOf(ChordDistances(points)).dist, eps) {
      RdpSplitShape(points, eps);
    }
  }

  /** Three points always come back as the two end points, whatever the tolerance:
      the only intermediate point is the chord's own start. */
  lemma RdpDropsMiddleOfThree(a: Point, b: Point, c: Point, eps: real)
    requires eps >= 0.0
    ensures Rdp([a, b, c], eps) == Returns([a, c])
  {
    var ds := ChordDistances([a, b, c]);
    assert ds == [PerpDistSq(b, b, c)];
    assert FarthestOf(ds[..0]) == Farthest(0, 0.0);
  }

  /** The input that shows the chord is wrong: the middle point of
      (0, 0), (1, 10), (2, 0) lies 10 away from the segment joining the two ends,
      far beyond a tolerance of 1, yet `rdp` drops it. */
  lemma RdpDropsFarPoint()
    ensures var points := [Point(0.0, 0.0), Point(1.0, 10.0), Point(2.0, 0.0)];
            && Rdp(points, 1.0) == Returns([points[0], points[2]])
            && Exceeds(PerpDistSq(points[1], points[0], points[2]), 1.0)
  {
    RdpDropsMiddleOfThree(Point(0.0, 0.0), Point(1.0, 10.0), Point(2.0, 0.0), 1.0);
    FarPointDistance();
  }

  /** The squared distance of (1, 10) to the segment from (0, 0) to (2, 0) is 100,
      more than the square of a tolerance of 1. */
  lemma FarPointDistance()
    ensures PerpDistSq(Point(1.0, 10.0), Point(0.0, 0.0), Point(2.0, 0.0)) == 100.0
    ensures Exceeds(100.0, 1.0)
  {
    assert Dot(Point(1.0, 10.0), Point(0.0, 0.0), Point(2.0, 0.0)) == 2.0;
    assert DistSq(Point(2.0, 0.0), Point(0.0, 0.0)) == 4.0;
    assert ProjectionParam(Point(1.0, 10.0), Point(0.0, 0.0), Point(2.0, 0.0)) == 0.5;
    assert Lerp(Point(0.0, 0.0), Point(2.0, 0.0), 0.5) == Point(1.0, 0.0);
    assert DistSq(Point(1.0, 10.0), Point(1.0, 0.0)) == 100.0;
    SquareIsProduct(1.0);
  }

  // ----- Tolerance order and repeated runs -----

  /** A larger tolerance never gives more points. The farthest point does not
      depend on the tolerance, so a run that splits at the larger one splits at
      the same point at the smaller one. */
  lemma {:induction false} RdpMonotone(points: seq<Point>, e1: real, e2: real)
    requires |points| >= 1 && 0.0 <= e1 <= e2
    ensures Rdp(points, e1).Returns? && Rdp(points, e2).Returns?
    ensures |Rdp(points, e2).points| <= |Rdp(points, e1).points|
    decreases |points|, 1
  {
    RdpReturnsIff(points, e1);
    RdpReturnsIff(points, e2);
    var f := FarthestOf(ChordDistances(points));
    if Exceeds(f.dist, e2) {
      ExceedsMonotone(f.dist, e1, e2);
      SplitIndex(points);
      RdpMonotonePieces(points, e1, e2, f.index);
    } else if Exceeds(f.dist, e1) {
      RdpSplitShape(points, e1);
    }
  }

  /** RdpMonotone for both pieces of a split at c. */
  lemma {:induction false} RdpMonotonePieces(points: seq<Point>, e1: real, e2: real, c: nat)
    requires 1 <= c < |points| && 0.0 <= e1 <= e2
    ensures Rdp(points[..c], e1).Returns? && Rdp(points[..c], e2).Returns?
    ensures Rdp(points[c..], e1).Returns? && Rdp(points[c..], e2).Returns?
    ensures |Rdp(points[..c], e2).points| <= |Rdp(points[..c], e1).points|
    ensures |Rdp(points[c..], e2).points| <= |Rdp(points[c..], e1).points|
    decreases |points|, 0
  {
    RdpMonotone(points[..c], e1, e2);
    RdpMonotone(points[c..], e1, e2);
  }

  /** Running rdp on its own output can drop more points: the chord of the second
      run starts at a point the first run kept. */
  lemma RdpNotIdempotent()
    ensures var a, b, c, d, e := Point(-20.0, 0.0), Point(0.0, 0.0), Point(100.0, 18.0), Point(100.0, 37.0), Point(200.0, 0.0);
            && Rdp([a, b, c, d, e], 20.0) == Returns([a, c, d, e])
            && Rdp([a, c, d, e], 20.0) == Returns([a, e])
  {
    RdpFirstPass();
    RdpSecondPass();
  }

  /** The first run: measured from b, d is 37 away from the chord and splits the
      input into [a, b, c], which keeps its two ends, and [d, e]. */
  lemma RdpFirstPass()
    ensures var a, b, c, d, e := Point(-20.0, 0.0), Point(0.0, 0.0), Point(100.0, 18.0), Point(100.0, 37.0), Point(200.0, 0.0);
            Rdp([a, b, c, d, e], 20.0) == Returns([a, c, d, e])
  {
    var a, b, c, d, e := Point(-20.0, 0.0), Point(0.0, 0.0), Point(100.0, 18.0), Point(100.0, 37.0), Point(200.0, 0.0);
    var points := [a, b, c, d, e];
    var ds := ChordDistances(points);
    FootDistance(c, b, e, Point(100.0, 0.0), 324.0);
    FootDistance(d, b, e, Point(100.0, 0.0), 1369.0);
    assert ds == [0.0, 324.0, 1369.0];
    FirstFarthestUnique(ds, FarthestOf(ds), Farthest(3, 1369.0));
    SquareIsProduct(20.0);
    assert points[..3] == [a, b, c] && points[3..] == [d, e];
    RdpDropsMiddleOfThree(a, b, c, 20.0);
    assert ChordDistances([d, e]) == [];
  }

  /** The squared distance from p to the segment from a to b, for the two first-run
      points: both project onto the middle of the chord, at foot. */
  lemma FootDistance(p: Point, a: Point, b: Point, foot: Point, dSq: real)
    requires a == Point(0.0, 0.0) && b == Point(200.0, 0.0) && p.x == 100.0 && foot == Point(100.0, 0.0)
    requires dSq == p.y * p.y
    ensures PerpDistSq(p, a, b) == dSq
  {
    assert DistSq(b, a) == 40000.0;
    assert Dot(p, a, b) == 20000.0;
    assert ProjectionParam(p, a, b) == 0.5;
    assert Lerp(a, b, 0.5) == foot;
  }

  /** The second run: measured from c, d projects before c, so its distance is the
      19 to c itself, within the tolerance, and only the two ends are kept. */
  lemma RdpSecondPass()
    ensures var a, c, d, e := Point(-20.0, 0.0), Point(100.0, 18.0), Point(100.0, 37.0), Point(200.0, 0.0);
            Rdp([a, c, d, e], 20.0) == Returns([a, e])
  {
    var a, c, d, e := Point(-20.0, 0.0), Point(100.0, 18.0), Point(100.0, 37.0), Point(200.0, 0.0);
    var points := [a, c, d, e];
    var ds := ChordDistances(points);
    assert Dot(d, c, e) == -342.0;
    assert DistSq(e, c) == 10324.0;
    QuotientSign(-342.0, 10324.0);
    assert PerpDistSq(d, c, e) == 361.0;
    assert ds == [0.0, 361.0];
    FirstFarthestUnique(ds, FarthestOf(ds), Farthest(2, 361.0));
    SquareIsProduct(20.0);
  }

  // ----- The chord as evidently intended -----

  /** The distances of the intermediate points to the segment from the FIRST point
      to the last, which is the chord of the Ramer-Douglas-Peucker algorithm. */
  function SegmentDistances(points: seq<Point>): (ds: seq<real>)
    ensures |ds| == if |points| >= 3 then |points| - 2 else 0
    ensures forall j :: 0 <= j < |ds| ==> ds[j] == PerpDistSq(points[j + 1], points[0], points[|points| - 1])
  {
    if |points| < 3 then []
    else seq(|points| - 2, j requires 0 <= j < |points| - 2 => PerpDistSq(points[j + 1], points[0], points[|points| - 1]))
  }

  /** Ramer-Douglas-Peucker with the chord from the first point: the two pieces
      share the farthest point, which the output keeps once. */
  function CorrectedRdp(points: seq<Point>, eps: real): (r: seq<Point>)
    requires |points| >= 1 && eps >= 0.0
    ensures |r| >= 2
    decreases |points|
  {
    var f := FarthestOf(SegmentDistances(points));
    if Exceeds(f.dist, eps) then
      DropLast(CorrectedRdp(points[..f.index + 1], eps)) + CorrectedRdp(points[f.index..], eps)
    else
      [points[0], points[|points| - 1]]
  }

  /** A run of CorrectedRdp that splits returns the left piece's output without its
      last point, followed by the right piece's output. */
  lemma CorrectedRdpSplits(points: seq<Point>, eps: real)
    requires |points| >= 1 && eps >= 0.0
    requires Exceeds(FarthestOf(SegmentDistances(points)).dist, eps)
    ensures CorrectedRdp(points, eps)
            == DropLast(CorrectedRdp(points[..FarthestOf(SegmentDistances(points)).index + 1], eps))
               + CorrectedRdp(points[FarthestOf(SegmentDistances(points)).index..], eps)
  {
  }

  /** The test the corrected output meets between kept points: within eps of the
      segment joining them. */
  function WithinSegment(eps: real): (close: (Point, Point, Point) -> bool)
  {
    (p: Point, a: Point, b: Point) => !Exceeds(PerpDistSq(p, a, b), eps)
  }

  /** The promise of the algorithm: the output keeps both ends of the input, and
      every dropped point lies within eps of the segment joining the kept points
      on either side of it. */
  lemma {:induction false} CorrectedRdpWithinTolerance(points: seq<Point>, eps: real)
    requires |points| >= 2 && eps >= 0.0
    ensures Simplification(CorrectedRdp(points, eps), points, WithinSegment(eps))
    decreases |points|, 1
  {
    var f := FarthestOf(SegmentDistances(points));
    if Exceeds(f.dist, eps) {
      CorrectedSplitWithinTolerance(points, eps);
    } else {
      CorrectedEndsWithinTolerance(points, eps);
    }
  }

  /** CorrectedRdpWithinTolerance for a run that keeps only the two ends. */
  lemma CorrectedEndsWithinTolerance(points: seq<Point>, eps: real)
    requires |points| >= 2 && eps >= 0.0
    requires !Exceeds(FarthestOf(SegmentDistances(points)).dist, eps)
    ensures SpansSubsequence(CorrectedRdp(points, eps), points, [0, |points| - 1])
    ensures Covered(points, [0, |points| - 1], WithinSegment(eps))
  {
    var ds := SegmentDistances(points);
    FarthestIsLargest(ds);
    forall m | 0 < m < |points| - 1
      ensures WithinSegment(eps)(points[m], points[0], points[|points| - 1])
    {
      assert ds[m - 1] <= FarthestOf(ds).dist;
    }
    CoveredByEnds(points, WithinSegment(eps));
  }

  /** CorrectedRdpWithinTolerance for a run that splits. */
  lemma {:induction false} CorrectedSplitWithinTolerance(points: seq<Point>, eps: real)
    requires |points| >= 2 && eps >= 0.0
    requires Exceeds(FarthestOf(SegmentDistances(points)).dist, eps)
    ensures Simplification(CorrectedRdp(points, eps), points, WithinSegment(eps))
    decreases |points|, 0
  {
    var c := FarthestOf(SegmentDistances(points)).index;
    CorrectedRdpWithinTolerance(points[..c + 1], eps);
    CorrectedRdpWithinTolerance(points[c..], eps);
    CoveredSharedJoin(CorrectedRdp(points[..c + 1], eps), CorrectedRdp(points[c..], eps), points, c,
                      points[..c + 1], points[c..], WithinSegment(eps));
    CorrectedRdpSplits(points, eps);
  }

  /** Three points come back whole from the corrected simplification when the
      middle one is farther than eps from the segment joining the other two; the
      input of RdpDropsFarPoint is one of them. */
  lemma CorrectedRdpKeepsFarMiddle(a: Point, b: Point, c: Point, eps: real)
    requires eps >= 0.0 && Exceeds(PerpDistSq(b, a, c), eps)
    ensures CorrectedRdp([a, b, c], eps) == [a, b, c]
  {
    var points := [a, b, c];
    var ds := SegmentDistances(points);
    assert ds == [PerpDistSq(b, a, c)];
    assert ds[..0] == [];
    assert FarthestOf(ds).index == 1;
    CorrectedRdpSplits(points, eps);
    CorrectedRdpOfTwo(points[..2], eps);
    CorrectedRdpOfTwo(points[1..], eps);
    assert DropLast(points[..2]) + points[1..] == points;
  }

  /** Two points come back as they are. */
  lemma CorrectedRdpOfTwo(s: seq<Point>, eps: real)
    requires |s| == 2 && eps >= 0.0
    ensures CorrectedRdp(s, eps) == s
  {
    assert SegmentDistances(s) == [];
    assert [s[0], s[1]] == s;
  }

  /** The corrected algorithm is idempotent: run again on its own output, it gives
      that output back. The chord has the same ends, the farthest point survives,
      every point kept before it is strictly nearer, so the second run splits at
      that point into the outputs of the two pieces. */
  lemma {:induction false} CorrectedRdpIdempotent(points: seq<Point>, eps: real)
    requires |points| >= 1 && eps >= 0.0
    ensures CorrectedRdp(CorrectedRdp(points, eps), eps) == CorrectedRdp(points, eps)
    decreases |points|, 1
  {
    var f := FarthestOf(SegmentDistances(points));
    if Exceeds(f.dist, eps) {
      var c := f.index;
      assert c != 0;
      CorrectedIdempotentSplit(points, eps, c, CorrectedRdp(points[..c + 1], eps), CorrectedRdp(points[c..], eps));
      CorrectedRdpSplits(points, eps);
    } else {
      CorrectedRdpOfTwo([points[0], points[|points| - 1]], eps);
    }
  }

  /** CorrectedRdpIdempotent for a run that splits at c, whose pieces return l and r. */
  lemma {:induction false} CorrectedIdempotentSplit(points: seq<Point>, eps: real, c: nat, l: seq<Point>, r: seq<Point>)
    requires |points| >= 3 && eps >= 0.0
    requires c == FarthestOf(SegmentDistances(points)).index && 1 <= c <= |points| - 2
    requires Exceeds(FarthestOf(SegmentDistances(points)).dist, eps)
    requires l == CorrectedRdp(points[..c + 1], eps) && r == CorrectedRdp(points[c..], eps)
    ensures CorrectedRdp(DropLast(l) + r, eps) == DropLast(l) + r
    decreases |points|, 0
  {
    CorrectedRdpIdempotent(points[..c + 1], eps);
    CorrectedRdpIdempotent(points[c..], eps);
    CorrectedRdpInner(points[..c + 1], eps);
    CorrectedRdpInner(points[c..], eps);
    CorrectedSplitJoin(points, eps, c, l, r);
  }

  /** The second run on the joined output of a split at c splits at the same point,
      back into l and r. */
  lemma CorrectedSplitJoin(points: seq<Point>, eps: real, c: nat, l: seq<Point>, r: seq<Point>)
    requires |points| >= 3 && eps >= 0.0
    requires c == FarthestOf(SegmentDistances(points)).index && 1 <= c <= |points| - 2
    requires Exceeds(FarthestOf(SegmentDistances(points)).dist, eps)
    requires KeepsEndsAndInner(l, points[..c + 1]) && KeepsEndsAndInner(r, points[c..])
    ensures CorrectedRdp(DropLast(l) + r, eps) == DropLast(CorrectedRdp(l, eps)) + CorrectedRdp(r, eps)
  {
    CorrectedJoinSplitsAt(points, eps, c, l, r);
    CorrectedRdpSplitsAt(DropLast(l) + r, eps, |l| - 1, l, r);
  }

  /** The search on the joined output of a split at c stops at position |l| - 1,
      and the joined output cut there gives back l and r. */
  lemma CorrectedJoinSplitsAt(points: seq<Point>, eps: real, c: nat, l: seq<Point>, r: seq<Point>)
    requires |points| >= 3 && eps >= 0.0
    requires c == FarthestOf(SegmentDistances(points)).index && 1 <= c <= |points| - 2
    requires Exceeds(FarthestOf(SegmentDistances(points)).dist, eps)
    requires KeepsEndsAndInner(l, points[..c + 1]) && KeepsEndsAndInner(r, points[c..])
    ensures var y := DropLast(l) + r;
            && |l| >= 2 && |y| >= 3
            && FarthestOf(SegmentDistances(y)).index == |l| - 1
            && Exceeds(FarthestOf(SegmentDistances(y)).dist, eps)
            && y[..|l|] == l && y[|l| - 1..] == r
  {
    CorrectedSplitsAtSame(points, c, l, r);
    SharedJoinAround(l, r);
  }

  /** CorrectedRdpSplits at a known split position k, whose pieces are given. */
  lemma CorrectedRdpSplitsAt(points: seq<Point>, eps: real, k: nat, left: seq<Point>, right: seq<Point>)
    requires |points| >= 1 && eps >= 0.0
    requires FarthestOf(SegmentDistances(points)).index == k
    requires Exceeds(FarthestOf(SegmentDistances(points)).dist, eps)
    requires left == points[..k + 1] && right == points[k..]
    ensures CorrectedRdp(points, eps) == DropLast(CorrectedRdp(left, eps)) + CorrectedRdp(right, eps)
  {
    CorrectedRdpSplits(points, eps);
  }

  /** DropLast(l) + r, where r starts with the last point of l, cut around that point. */
  lemma SharedJoinAround(l: seq<Point>, r: seq<Point>)
    requires |l| >= 1 && |r| >= 1 && l[|l| - 1] == r[0]
    ensures (DropLast(l) + r)[..|l|] == l
    ensures (DropLast(l) + r)[|l| - 1..] == r
  {
    var y := DropLast(l) + r;
    assert y[..|l|] == l;
    assert y[|l| - 1..] == r;
  }

  /** On the output of a corrected run that splits at c, the search finds the same
      point, now at position |l| - 1, at the same distance. */
  lemma CorrectedSplitsAtSame(points: seq<Point>, c: nat, l: seq<Point>, r: seq<Point>)
    requires |points| >= 3
    requires c == FarthestOf(SegmentDistances(points)).index && 1 <= c <= |points| - 2
    requires KeepsEndsAndInner(l, points[..c + 1]) && KeepsEndsAndInner(r, points[c..])
    ensures var y := DropLast(l) + r;
            && 2 <= |l| && l[|l| - 1] == r[0] && |y| >= 3
            && FarthestOf(SegmentDistances(y)) == Farthest(|l| - 1, FarthestOf(SegmentDistances(points)).dist)
  {
    var y := DropLast(l) + r;
    var d := FarthestOf(SegmentDistances(points)).dist;
    var dsY := SegmentDistances(y);
    CorrectedLeftKeepsInner(points, c, l);
    CorrectedRightKeepsInner(points, c, r);
    forall j | 0 <= j < |dsY|
      ensures dsY[j] <= d && (j + 1 < |l| - 1 ==> dsY[j] < d) && (j + 1 == |l| - 1 ==> dsY[j] == d)
    {
      CorrectedJoinDistanceAt(points, c, l, r, j);
    }
    SegmentDistancesAround(points);
    FirstFarthestAt(dsY, |l| - 1, d);
  }

  /** CorrectedSplitsAtSame at one position j + 1 of the joined output: the
      distance there is below the farthest distance d before the split point, d at
      it, and at most d after it. */
  lemma CorrectedJoinDistanceAt(points: seq<Point>, c: nat, l: seq<Point>, r: seq<Point>, j: nat)
    requires |points| >= 3
    requires c == FarthestOf(SegmentDistances(points)).index && 1 <= c <= |points| - 2
    requires KeepsEndsAndInner(l, points[..c + 1]) && KeepsEndsAndInner(r, points[c..])
    requires j + 2 < |DropLast(l) + r|
    ensures var dsY, d := SegmentDistances(DropLast(l) + r), FarthestOf(SegmentDistances(points)).dist;
            && dsY[j] <= d && (j + 1 < |l| - 1 ==> dsY[j] < d) && (j + 1 == |l| - 1 ==> dsY[j] == d)
  {
    var n := |points|;
    var y := DropLast(l) + r;
    var i := JoinedPointAt(points, c, l, r, j);
    SegmentDistanceOf(y, j, points[0], points[n - 1], points[i]);
    SegmentDistancesAround(points);
  }

  /** Point j + 1 of the joined output of a split at c is input point i, which lies
      before c, at c or after c as j + 1 lies before, at or after |l| - 1; the joined
      output has the input's ends. */
  lemma JoinedPointAt(points: seq<Point>, c: nat, l: seq<Point>, r: seq<Point>, j: nat) returns (i: int)
    requires |points| >= 3 && 1 <= c <= |points| - 2
    requires KeepsEndsAndInner(l, points[..c + 1]) && KeepsEndsAndInner(r, points[c..])
    requires j + 2 < |DropLast(l) + r|
    ensures var y, n := DropLast(l) + r, |points|;
            && 1 <= i <= n - 2 && y[j + 1] == points[i]
            && y[0] == points[0] && y[|y| - 1] == points[n - 1]
            && (j + 1 < |l| - 1 <==> i < c) && (j + 1 == |l| - 1 <==> i == c)
  {
    var n := |points|;
    var y := DropLast(l) + r;
    CorrectedLeftKeepsInner(points, c, l);
    CorrectedRightKeepsInner(points, c, r);
    assert y[0] == l[0] && y[|y| - 1] == r[|r| - 1];
    if j + 1 < |l| - 1 {
      assert y[j + 1] == l[j + 1];
      i :| 0 < i < c && 0 <= i < n && l[j + 1] == points[i];
    } else if j + 1 > |l| - 1 {
      var k := j + 2 - |l|;
      assert 1 <= k < |r| - 1 && y[j + 1] == r[k];
      i :| c < i < n - 1 && 0 <= i < n && r[k] == points[i];
    } else {
      i := c;
      assert y[j + 1] == points[c];
    }
  }

  /** Entry j of the segment distances is the distance of point j + 1 to the segment
      between the two ends. */
  lemma SegmentDistanceOf(y: seq<Point>, j: nat, a: Point, b: Point, p: Point)
    requires j + 2 < |y| && y[0] == a && y[|y| - 1] == b && y[j + 1] == p
    ensures SegmentDistances(y)[j] == PerpDistSq(p, a, b)
  {
  }

  /** The segment distances of an input, read off the search: none is above the
      farthest distance d, those before its position are below it, the one at that
      position is d, and d is positive once the position is. */
  lemma SegmentDistancesAround(points: seq<Point>)
    requires |points| >= 3
    ensures var f := FarthestOf(SegmentDistances(points));
            var a, b := points[0], points[|points| - 1];
            && (forall i :: 1 <= i <= |points| - 2 ==> PerpDistSq(points[i], a, b) <= f.dist)
            && (forall i :: 1 <= i < f.index ==> PerpDistSq(points[i], a, b) < f.dist)
            && (1 <= f.index ==> f.index <= |points| - 2 && PerpDistSq(points[f.index], a, b) == f.dist && f.dist > 0.0)
  {
    var ds := SegmentDistances(points);
    var f := FarthestOf(ds);
    forall i | 1 <= i <= |points| - 2
      ensures PerpDistSq(points[i], points[0], points[|points| - 1]) == ds[i - 1]
    {
    }
    if 1 <= f.index {
      var j :| 0 <= j < |ds| && ds[j] > 0.0;
      assert ds[j] <= f.dist;
    }
  }

  /** The points a corrected split at c keeps on the left: l runs from the first
      point to the one at c, and its inner points lie strictly between them. */
  lemma CorrectedLeftKeepsInner(points: seq<Point>, c: nat, l: seq<Point>)
    requires 1 <= c <= |points| - 2
    requires KeepsEndsAndInner(l, points[..c + 1])
    ensures 2 <= |l| && l[0] == points[0] && l[|l| - 1] == points[c]
    ensures forall k :: 1 <= k < |l| - 1 ==> PointBetween(l[k], points, 0, c)
  {
    var left := points[..c + 1];
    forall k | 1 <= k < |l| - 1
      ensures PointBetween(l[k], points, 0, c)
    {
      assert PointBetween(l[k], left, 0, |left| - 1);
      var i :| 0 < i < |left| - 1 && 0 <= i < |left| && l[k] == left[i];
      assert left[i] == points[i];
    }
  }

  /** The points a corrected split at c keeps on the right: r runs from the point
      at c to the last one, and its inner points lie strictly between them. */
  lemma CorrectedRightKeepsInner(points: seq<Point>, c: nat, r: seq<Point>)
    requires 1 <= c <= |points| - 2
    requires KeepsEndsAndInner(r, points[c..])
    ensures 2 <= |r| && r[0] == points[c] && r[|r| - 1] == points[|points| - 1]
    ensures forall k :: 1 <= k < |r| - 1 ==> PointBetween(r[k], points, c, |points| - 1)
  {
    var right := points[c..];
    forall k | 1 <= k < |r| - 1
      ensures PointBetween(r[k], points, c, |points| - 1)
    {
      assert PointBetween(r[k], right, 0, |right| - 1);
      var i :| 0 < i < |right| - 1 && 0 <= i < |right| && r[k] == right[i];
      assert right[i] == points[c + i];
    }
  }

  /** r keeps both ends of s, and every point of r between them is an intermediate
      point of s. */
  predicate KeepsEndsAndInner(r: seq<Point>, s: seq<Point>)
  {
    && |r| >= 2 && |s| >= 1 && r[0] == s[0] && r[|r| - 1] == s[|s| - 1]
    && (forall k :: 1 <= k < |r| - 1 ==> PointBetween(r[k], s, 0, |s| - 1))
  }

  /** A corrected output keeps both ends of the input, and every point between them
      is an intermediate point of the input. */
  lemma CorrectedRdpInner(points: seq<Point>, eps: real)
    requires |points| >= 2 && eps >= 0.0
    ensures KeepsEndsAndInner(CorrectedRdp(points, eps), points)
  {
    CorrectedRdpWithinTolerance(points, eps);
    var r := CorrectedRdp(points, eps);
    var idx :| SpansSubsequence(r, points, idx) && Covered(points, idx, WithinSegment(eps));
    SpanKeepsEndsAndInner(r, points, idx);
  }

  /** A subsequence of s that keeps both its ends keeps only inner points between
      them. */
  lemma SpanKeepsEndsAndInner(r: seq<Point>, s: seq<Point>, idx: seq<nat>)
    requires SpansSubsequence(r, s, idx)
    ensures KeepsEndsAndInner(r, s)
  {
    IndicesBelowLast(idx);
    forall k | 1 <= k < |r| - 1
      ensures PointBetween(r[k], s, 0, |s| - 1)
    {
      IndexGrowth(idx, k);
      assert 1 <= idx[k] <= |s| - 2 && r[k] == s[idx[k]];
    }
  }
}
