/** What both simplifiers share: the outcome of a run, the search for the farthest
    intermediate point, the tolerance tests on squared distances, and the
    description of an output as a subsequence of the input. */
module Polyline {
  import opened Geometry

  /** How a call ends. `Returns` carries the array returned. `Loops`: the call
      re-enters itself on the same input and never returns (in JavaScript, the
      stack overflows). `NonFinite`: a slope computed by division by zero makes the
      distances IEEE infinities or NaN, which the model does not follow.
      `HoldsUndefined`: the input is empty, and the returned array holds the
      `undefined` read from it. */
  datatype Outcome = Returns(points: seq<Point>) | Loops | NonFinite | HoldsUndefined

  /** `[...left, ...right]` where left is evaluated first: when the left call does
      not return an array, neither does the whole expression. A left
      `HoldsUndefined` would in JavaScript go on to evaluate the right call; no call
      site reaches that case, because both simplifiers pass only non-empty pieces. */
  function Concat(left: Outcome, right: Outcome): (o: Outcome)
    ensures o.Returns? <==> left.Returns? && right.Returns?
    ensures o.Returns? ==> o.points == left.points + right.points
    ensures !left.Returns? ==> o == left
  {
    if !left.Returns? then left
    else if !right.Returns? then right
    else Returns(left.points + right.points)
  }

  // ----- The farthest intermediate point -----

  /** The result of the search loop: the position of the point chosen and its
      distance. Position j + 1 belongs to ds[j], because the loops start at the
      second point; position 0 with distance 0 means no distance was positive. */
  datatype Farthest = Farthest(index: nat, dist: real)

  /** f is what a loop "start at 0, take every strictly larger distance" ends with:
      the largest distance, at the first position where it occurs, unless no
      distance is above 0. */
  predicate IsFirstFarthest(ds: seq<real>, f: Farthest)
  {
    if forall j :: 0 <= j < |ds| ==> ds[j] <= 0.0 then
      f == Farthest(0, 0.0)
    else
      && 1 <= f.index <= |ds|
      && f.dist == ds[f.index - 1]
      && (forall j :: 0 <= j < |ds| ==> ds[j] <= f.dist)
      && (forall j :: 0 <= j < f.index - 1 ==> ds[j] < f.dist)
  }

  /** The search over ds, one distance at a time from the front. */
  function FarthestOf(ds: seq<real>): (f: Farthest)
    ensures IsFirstFarthest(ds, f)
    ensures f.index <= |ds| && f.dist >= 0.0
    decreases |ds|
  {
    if |ds| == 0 then Farthest(0, 0.0)
    else
      var prev := FarthestOf(ds[..|ds| - 1]);
      assert forall j :: 0 <= j < |ds| - 1 ==> ds[..|ds| - 1][j] == ds[j];
      if ds[|ds| - 1] > prev.dist then Farthest(|ds|, ds[|ds| - 1]) else prev
  }

  /** One step of the search loop: the prefix of length i extends the prefix of
      length i - 1 by one comparison. */
  lemma FarthestOfPrefix(ds: seq<real>, i: nat)
    requires 1 <= i <= |ds|
    ensures FarthestOf(ds[..i]) == if ds[i - 1] > FarthestOf(ds[..i - 1]).dist then Farthest(i, ds[i - 1]) else FarthestOf(ds[..i - 1])
  {
    assert ds[..i][..i - 1] == ds[..i - 1];
  }

  /** A farthest distance that reaches a positive tolerance is positive, so it was
      found at a position of its own, never the initial index 0. */
  lemma ReachedIndexPositive(ds: seq<real>, tolerance: real)
    requires tolerance > 0.0 && Reaches(FarthestOf(ds).dist, tolerance)
    ensures 1 <= FarthestOf(ds).index <= |ds|
  {
    assert Square(tolerance) > 0.0;
  }

  /** Every distance is at most the one found. */
  lemma FarthestIsLargest(ds: seq<real>)
    ensures forall j :: 0 <= j < |ds| ==> ds[j] <= FarthestOf(ds).dist
  {
  }

  /** At most one result satisfies IsFirstFarthest: the loop's result is determined. */
  lemma FirstFarthestUnique(ds: seq<real>, f: Farthest, g: Farthest)
    requires IsFirstFarthest(ds, f) && IsFirstFarthest(ds, g)
    ensures f == g
  {
    if !(forall j :: 0 <= j < |ds| ==> ds[j] <= 0.0) {
      assert f.dist <= g.dist && g.dist <= f.dist;
    }
  }

  /** A positive distance at position k, below which every earlier distance lies
      and above which none lies, is what the search finds. */
  lemma FirstFarthestAt(ds: seq<real>, k: nat, d: real)
    requires 1 <= k <= |ds| && ds[k - 1] == d && d > 0.0
    requires forall j :: 0 <= j < |ds| ==> ds[j] <= d
    requires forall j :: 0 <= j < k - 1 ==> ds[j] < d
    ensures FarthestOf(ds) == Farthest(k, d)
  {
    assert IsFirstFarthest(ds, Farthest(k, d));
    FirstFarthestUnique(ds, FarthestOf(ds), Farthest(k, d));
  }

  // ----- Tolerance tests on squared distances -----

  /** `Math.sqrt(dSq) > eps`, for a squared distance dSq. */
  predicate Exceeds(dSq: real, eps: real)
  {
    eps < 0.0 || dSq > Square(eps)
  }

  /** `Math.sqrt(dSq) >= tolerance`, for a squared distance dSq. */
  predicate Reaches(dSq: real, tolerance: real)
  {
    tolerance <= 0.0 || dSq >= Square(tolerance)
  }

  /** On non-negative numbers, squaring keeps the order. */
  lemma SquaresKeepOrder(d: real, e: real)
    requires d >= 0.0 && e >= 0.0
    ensures Square(d) > Square(e) <==> d > e
  {
    if d > e {
      SquareGrows(e, d);
    } else if d < e {
      SquareGrows(d, e);
    }
  }

  /** Squaring strictly grows on non-negative numbers: b * b - a * a is the product
      of the positive numbers b - a and b + a. */
  lemma SquareGrows(a: real, b: real)
    requires 0.0 <= a < b
    ensures Square(a) < Square(b)
  {
    SquareIsProduct(a);
    SquareIsProduct(b);
    MulPositive(b - a, b + a);
    assert (b - a) * (b + a) == b * b - a * a;
  }

  /** Product of two positive reals. */
  lemma MulPositive(x: real, y: real)
    requires x > 0.0 && y > 0.0
    ensures x * y > 0.0
  {
  }

  /** Exceeds on the square of a distance d is the source's test `d > eps`. */
  lemma ExceedsMatchesDistance(d: real, eps: real)
    requires d >= 0.0
    ensures Exceeds(Square(d), eps) <==> d > eps
  {
    if eps >= 0.0 {
      SquaresKeepOrder(d, eps);
    }
  }

  /** Reaches on the square of a distance d is the source's test `d >= tolerance`. */
  lemma ReachesMatchesDistance(d: real, tolerance: real)
    requires d >= 0.0
    ensures Reaches(Square(d), tolerance) <==> d >= tolerance
  {
    if tolerance > 0.0 {
      SquaresKeepOrder(tolerance, d);
    }
  }

  /** A squared distance that exceeds a tolerance exceeds every smaller one. */
  lemma ExceedsMonotone(dSq: real, e1: real, e2: real)
    requires e1 <= e2 && Exceeds(dSq, e2)
    ensures Exceeds(dSq, e1)
  {
    if e1 >= 0.0 {
      SquaresKeepOrder(e1, e2);
    }
  }

  /** A squared distance that reaches a tolerance reaches every smaller one. */
  lemma ReachesMonotone(dSq: real, t1: real, t2: real)
    requires t1 <= t2 && Reaches(dSq, t2)
    ensures Reaches(dSq, t1)
  {
    if t1 > 0.0 {
      SquaresKeepOrder(t1, t2);
    }
  }

  /** The squares of ds, position by position. */
  function Squares(ds: seq<real>): (sq: seq<real>)
    ensures |sq| == |ds|
    ensures forall j :: 0 <= j < |ds| ==> sq[j] == Square(ds[j])
  {
    seq(|ds|, j requires 0 <= j < |ds| => Square(ds[j]))
  }

  /** Searching the squared distances picks the same point as searching the
      distances themselves, and finds the square of the largest distance; this is
      why the model may search squared distances where the source searches their
      square roots. */
  lemma {:induction false} FarthestOfSquares(ds: seq<real>)
    requires forall j :: 0 <= j < |ds| ==> ds[j] >= 0.0
    ensures FarthestOf(Squares(ds)).index == FarthestOf(ds).index
    ensures FarthestOf(Squares(ds)).dist == Square(FarthestOf(ds).dist)
    decreases |ds|
  {
    if |ds| > 0 {
      var front := ds[..|ds| - 1];
      SquaresOfFront(ds);
      FarthestOfSquares(front);
      var x, prev := ds[|ds| - 1], FarthestOf(front);
      var sq, prevSq := Squares(ds), FarthestOf(Squares(front));
      assert sq[|ds| - 1] == Square(x);
      assert prevSq == Farthest(prev.index, Square(prev.dist));
      SquaresKeepOrder(x, prev.dist);
      if x > prev.dist {
        assert FarthestOf(ds) == Farthest(|ds|, x);
        assert FarthestOf(sq) == Farthest(|ds|, Square(x));
      } else {
        assert FarthestOf(ds) == prev;
        assert FarthestOf(sq) == prevSq;
      }
    }
  }

  /** Squaring commutes with dropping the last distance. */
  lemma SquaresOfFront(ds: seq<real>)
    requires |ds| > 0
    ensures Squares(ds)[..|ds| - 1] == Squares(ds[..|ds| - 1])
  {
    var front := ds[..|ds| - 1];
    forall j | 0 <= j < |front|
      ensures Squares(ds)[..|ds| - 1][j] == Squares(front)[j]
    {
      assert front[j] == ds[j];
    }
  }

  // ----- Outputs as subsequences of the input -----

  /** Positions strictly increase. */
  predicate Increasing(idx: seq<nat>)
  {
    forall k :: 0 < k < |idx| ==> idx[k - 1] < idx[k]
  }

  /** r is the subsequence of s at the increasing positions idx. */
  predicate SubsequenceAt(r: seq<Point>, s: seq<Point>, idx: seq<nat>)
  {
    && |idx| == |r|
    && Increasing(idx)
    && (forall k :: 0 <= k < |idx| ==> idx[k] < |s| && r[k] == s[idx[k]])
  }

  /** r keeps the first and the last point of s and some points in between, in order. */
  predicate SpansSubsequence(r: seq<Point>, s: seq<Point>, idx: seq<nat>)
  {
    SubsequenceAt(r, s, idx) && |idx| >= 2 && idx[0] == 0 && idx[|idx| - 1] == |s| - 1
  }

  /** idx shifted by m: positions in s[m..] as positions in s. */
  function Shift(idx: seq<nat>, m: nat): (r: seq<nat>)
    ensures |r| == |idx|
    ensures forall k :: 0 <= k < |idx| ==> r[k] == idx[k] + m
  {
    seq(|idx|, k requires 0 <= k < |idx| => idx[k] + m)
  }

  /** Increasing positions grow at least one per step, so a subsequence is no
      longer than the sequence it is taken from. */
  lemma {:induction false} IndexGrowth(idx: seq<nat>, k: nat)
    requires Increasing(idx) && k < |idx|
    ensures idx[k] >= idx[0] + k
  {
    if k > 0 {
      IndexGrowth(idx, k - 1);
    }
  }

  /** A subsequence is no longer than the sequence it is taken from. */
  lemma SubsequenceLength(r: seq<Point>, s: seq<Point>, idx: seq<nat>)
    requires SubsequenceAt(r, s, idx)
    ensures |r| <= |s|
  {
    if |idx| > 0 {
      IndexGrowth(idx, |idx| - 1);
    }
  }

  /** The subsequences of two pieces of s join into a subsequence of s: the left
      one taken from the first len points, all its positions before cut, and the
      right one taken from s[cut..]. */
  lemma SubsequenceJoin(l: seq<Point>, r: seq<Point>, s: seq<Point>, cut: nat, len: nat,
                        il: seq<nat>, ir: seq<nat>)
    requires cut <= len <= |s|
    requires SubsequenceAt(l, s[..len], il) && SubsequenceAt(r, s[cut..], ir)
    requires |il| > 0 ==> il[|il| - 1] < cut
    ensures SubsequenceAt(l + r, s, il + Shift(ir, cut))
  {
    var idx := il + Shift(ir, cut);
    forall k | 0 < k < |idx|
      ensures idx[k - 1] < idx[k]
    {
      if k == |il| {
        assert idx[k - 1] == il[|il| - 1];
      }
    }
  }

  /** The end-keeping subsequences of s[..cut] and s[cut..] join into one of s. */
  lemma SpansJoin(l: seq<Point>, r: seq<Point>, s: seq<Point>, cut: nat, il: seq<nat>, ir: seq<nat>)
    requires 1 <= cut < |s|
    requires SpansSubsequence(l, s[..cut], il) && SpansSubsequence(r, s[cut..], ir)
    ensures SpansSubsequence(l + r, s, il + Shift(ir, cut))
  {
    SubsequenceJoin(l, r, s, cut, cut, il, ir);
  }

  /** SpansJoin, for subsequences given only by their existence. */
  lemma SpansJoinExists(l: seq<Point>, r: seq<Point>, s: seq<Point>, cut: nat)
    requires 1 <= cut < |s|
    requires exists il :: SpansSubsequence(l, s[..cut], il)
    requires exists ir :: SpansSubsequence(r, s[cut..], ir)
    ensures exists idx :: SpansSubsequence(l + r, s, idx)
    ensures |l + r| <= |s|
  {
    var il :| SpansSubsequence(l, s[..cut], il);
    var ir :| SpansSubsequence(r, s[cut..], ir);
    SpansJoin(l, r, s, cut, il, ir);
    SubsequenceLength(l + r, s, il + Shift(ir, cut));
  }

  /** The end-keeping subsequences of s[..cut + 1] and s[cut..], which share the
      point at cut, join into one of s that keeps that point once. */
  lemma SpansJoinShared(l: seq<Point>, r: seq<Point>, s: seq<Point>, cut: nat, il: seq<nat>, ir: seq<nat>)
    requires 1 <= cut < |s|
    requires SpansSubsequence(l, s[..cut + 1], il) && SpansSubsequence(r, s[cut..], ir)
    ensures SpansSubsequence(l[..|l| - 1] + r, s, il[..|il| - 1] + Shift(ir, cut))
  {
    SubsequenceDropLast(l, s[..cut + 1], il);
    IndicesBelowLast(il);
    SubsequenceJoin(l[..|l| - 1], r, s, cut, cut + 1, il[..|il| - 1], ir);
  }

  /** In increasing positions every entry before the last is below the last. */
  lemma IndicesBelowLast(idx: seq<nat>)
    requires Increasing(idx) && |idx| >= 1
    ensures forall k :: 0 <= k < |idx| - 1 ==> idx[k] < idx[|idx| - 1]
  {
    forall k | 0 <= k < |idx| - 1
      ensures idx[k] < idx[|idx| - 1]
    {
      IndexGrowth(idx[k..], |idx| - 1 - k);
    }
  }

  /** p is a point of s at a position strictly between lo and hi. */
  predicate PointBetween(p: Point, s: seq<Point>, lo: int, hi: int)
  {
    exists i :: lo < i < hi && 0 <= i < |s| && p == s[i]
  }

  /** Dropping the last point of a subsequence leaves a subsequence. */
  lemma SubsequenceDropLast(r: seq<Point>, s: seq<Point>, idx: seq<nat>)
    requires SubsequenceAt(r, s, idx) && |idx| > 0
    ensures SubsequenceAt(r[..|r| - 1], s, idx[..|idx| - 1])
  {
  }

  // ----- Tolerance between kept points -----

  /** Every point of s strictly between positions i and j passes the test against
      the straight piece from s[i] to s[j]. */
  predicate PieceClose(s: seq<Point>, i: nat, j: nat, close: (Point, Point, Point) -> bool)
  {
    forall m :: i < m < j < |s| ==> close(s[m], s[i], s[j])
  }

  /** Every point of s strictly between two consecutive kept positions of idx is
      close, by the given test, to the straight piece joining those two kept points. */
  predicate Covered(s: seq<Point>, idx: seq<nat>, close: (Point, Point, Point) -> bool)
    decreases |idx|
  {
    |idx| < 2 || (PieceClose(s, idx[0], idx[1], close) && Covered(s, idx[1..], close))
  }

  /** Keeping only the two ends covers s when every intermediate point is close to them. */
  lemma CoveredByEnds(s: seq<Point>, close: (Point, Point, Point) -> bool)
    requires |s| >= 1
    requires forall m :: 0 < m < |s| - 1 ==> close(s[m], s[0], s[|s| - 1])
    ensures Covered(s, [0, |s| - 1], close)
  {
    assert [0, |s| - 1][1..] == [|s| - 1];
  }

  /** Coverage by positions up to c reads the same in s[..c + 1] as in s. */
  lemma {:induction false} CoveredInPrefix(s: seq<Point>, c: nat, a: seq<nat>, close: (Point, Point, Point) -> bool)
    requires c < |s| && forall k :: 0 <= k < |a| ==> a[k] <= c
    ensures Covered(s[..c + 1], a, close) == Covered(s, a, close)
    decreases |a|
  {
    if |a| >= 2 {
      CoveredInPrefix(s, c, a[1..], close);
      assert PieceClose(s[..c + 1], a[0], a[1], close) == PieceClose(s, a[0], a[1], close);
    }
  }

  /** Coverage in s[c..] is coverage in s by the shifted positions. */
  lemma {:induction false} CoveredInSuffix(s: seq<Point>, c: nat, b: seq<nat>, close: (Point, Point, Point) -> bool)
    requires c <= |s|
    ensures Covered(s[c..], b, close) == Covered(s, Shift(b, c), close)
    decreases |b|
  {
    if |b| >= 2 {
      CoveredInSuffix(s, c, b[1..], close);
      assert Shift(b, c)[1..] == Shift(b[1..], c);
      var t := s[c..];
      if PieceClose(t, b[0], b[1], close) {
        forall m | b[0] + c < m < b[1] + c < |s|
          ensures close(s[m], s[b[0] + c], s[b[1] + c])
        {
          assert close(t[m - c], t[b[0]], t[b[1]]);
        }
      }
      if PieceClose(s, b[0] + c, b[1] + c, close) {
        forall m | b[0] < m < b[1] < |t|
          ensures close(t[m], t[b[0]], t[b[1]])
        {
          assert close(s[m + c], s[b[0] + c], s[b[1] + c]);
        }
      }
    }
  }

  /** Two covering position lists that meet at a shared position join into one. */
  lemma {:induction false} CoveredConcat(s: seq<Point>, a: seq<nat>, b: seq<nat>, close: (Point, Point, Point) -> bool)
    requires |a| >= 1 && |b| >= 1 && a[|a| - 1] == b[0]
    requires Covered(s, a, close) && Covered(s, b, close)
    ensures Covered(s, a[..|a| - 1] + b, close)
    decreases |a|
  {
    if |a| == 1 {
      assert a[..|a| - 1] + b == b;
    } else {
      CoveredConcat(s, a[1..], b, close);
      var x := a[..|a| - 1] + b;
      assert x[1..] == a[1..][..|a| - 2] + b;
      assert x[0] == a[0] && x[1] == a[1];
    }
  }

  /** The kept positions a of s[..c + 1], ending at c, and b of s[c..], starting at
      0, cover s together once the shared position c is kept once. */
  lemma CoveredJoin(s: seq<Point>, c: nat, a: seq<nat>, b: seq<nat>, close: (Point, Point, Point) -> bool)
    requires c < |s|
    requires |a| >= 1 && a[|a| - 1] == c && (forall k :: 0 <= k < |a| ==> a[k] <= c)
    requires |b| >= 1 && b[0] == 0
    requires Covered(s[..c + 1], a, close) && Covered(s[c..], b, close)
    ensures Covered(s, a[..|a| - 1] + Shift(b, c), close)
  {
    CoveredInPrefix(s, c, a, close);
    CoveredInSuffix(s, c, b, close);
    CoveredConcat(s, a, Shift(b, c), close);
  }

  /** r simplifies s under the test close: it keeps the first and the last point
      of s and some points in between, in order, and every dropped point passes
      close against the two kept points around it. */
  ghost predicate Simplification(r: seq<Point>, s: seq<Point>, close: (Point, Point, Point) -> bool)
  {
    exists idx :: SpansSubsequence(r, s, idx) && Covered(s, idx, close)
  }

  /** s without its last point. */
  function DropLast(s: seq<Point>): (r: seq<Point>)
    requires |s| >= 1
    ensures |r| == |s| - 1 && r == s[..|s| - 1]
  {
    s[..|s| - 1]
  }

  /** Covering end-keeping subsequences of s[..c + 1] and s[c..], which share the
      point at c, join into a covering end-keeping subsequence of s that keeps that
      point once. */
  lemma CoveredSharedJoin(l: seq<Point>, r: seq<Point>, s: seq<Point>, c: nat,
                          left: seq<Point>, right: seq<Point>, close: (Point, Point, Point) -> bool)
    requires 1 <= c < |s| && left == s[..c + 1] && right == s[c..]
    requires Simplification(l, left, close) && Simplification(r, right, close)
    ensures Simplification(DropLast(l) + r, s, close)
  {
    var il :| SpansSubsequence(l, left, il) && Covered(left, il, close);
    var ir :| SpansSubsequence(r, right, ir) && Covered(right, ir, close);
    SpansJoinShared(l, r, s, c, il, ir);
    IndicesBelowLast(il);
    CoveredJoin(s, c, il, ir, close);
    var idx := il[..|il| - 1] + Shift(ir, c);
    assert DropLast(l) + r == l[..|l| - 1] + r;
    SimplificationAt(DropLast(l) + r, s, idx, close);
  }

  /** A covering end-keeping subsequence at idx is a simplification. */
  lemma SimplificationAt(r: seq<Point>, s: seq<Point>, idx: seq<nat>, close: (Point, Point, Point) -> bool)
    requires SpansSubsequence(r, s, idx) && Covered(s, idx, close)
    ensures Simplification(r, s, close)
  {
  }

  /** CoveredSharedJoin for subsequences that leave out the last point of their
      piece, which the caller appends: l and r followed by the last point of their
      pieces join into their concatenation, whole, followed by the last point of s. */
  lemma CoveredClosedJoin(l: seq<Point>, r: seq<Point>, whole: seq<Point>, s: seq<Point>, c: nat,
                          left: seq<Point>, right: seq<Point>, close: (Point, Point, Point) -> bool)
    requires 1 <= c < |s| && left == s[..c + 1] && right == s[c..] && whole == l + r
    requires Simplification(l + [left[|left| - 1]], left, close)
    requires Simplification(r + [right[|right| - 1]], right, close)
    ensures Simplification(whole + [s[|s| - 1]], s, close)
  {
    var lc, rc := l + [left[|left| - 1]], r + [right[|right| - 1]];
    CoveredSharedJoin(lc, rc, s, c, left, right, close);
    AppendJoin(l, r, left[|left| - 1], s[|s| - 1]);
  }

  /** Dropping the appended x from l + [x] and appending y to r is appending y to l + r. */
  lemma AppendJoin(l: seq<Point>, r: seq<Point>, x: Point, y: Point)
    ensures DropLast(l + [x]) + (r + [y]) == l + r + [y]
  {
    assert DropLast(l + [x]) == l;
  }
}
