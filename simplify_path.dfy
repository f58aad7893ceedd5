/** `simplifyPath(points, tolerance)`: Douglas-Peucker simplification with a
    helper `Line` whose `distanceToPoint` measures against the infinite line
    through the chord's ends. Pieces share the split point; every unsplit piece
    contributes its first point, and the very last point is appended once at the end. */
module PathSimplifier {
  import opened Geometry
  import opened Polyline

  /** `new Line(p1, p2)`: the straight line through two points. */
  datatype Line = Line(p1: Point, p2: Point)
  {
    /** The slope `m` is a finite number: the two points differ in x. */
    predicate NonVertical()
    {
      p1.x != p2.x
    }

    /** The slope `m`: the rise from p1 to p2 per unit of x. */
    function Slope(): (m: real)
      requires NonVertical()
    {
      (p2.y - p1.y) / (p2.x - p1.x)
    }

    /** The y offset `b`: the line y = m x + b passes through p1. */
    function Offset(): (b: real)
      requires NonVertical()
    {
      p1.y - Slope() * p1.x
    }

    /** q lies on the line y = m x + b. */
    predicate Contains(q: Point)
      requires NonVertical()
    {
      q.y == Slope() * q.x + Offset()
    }

    /** The first candidate, squared: the distance from p to the line, which the
        source computes as |y - m x - b| / sqrt(m^2 + 1). */
    function LineDistSq(p: Point): (r: real)
      requires NonVertical()
      ensures r >= 0.0
    {
      QuotientNonNegative(Square(p.y - Slope() * p.x - Offset()), Square(Slope()) + 1.0);
      Square(p.y - Slope() * p.x - Offset()) / (Square(Slope()) + 1.0)
    }

    /** `distanceToPoint(p)`, squared: the three candidates (to the line, to p1, to
        p2) sorted numerically, and the first one taken, which is the least. */
    function DistanceToPointSq(p: Point): (r: real)
      requires NonVertical()
      ensures r <= LineDistSq(p) && r <= DistSq(p, p1) && r <= DistSq(p, p2)
      ensures r == LineDistSq(p) || r == DistSq(p, p1) || r == DistSq(p, p2)
    {
      var toLine, toP1, toP2 := LineDistSq(p), DistSq(p, p1), DistSq(p, p2);
      if toLine <= toP1 && toLine <= toP2 then toLine
      else if toP1 <= toP2 then toP1
      else toP2
    }
  }

  /** `distanceToPoint` itself: the three candidates pushed onto `d`, which is
      sorted ascending in place, and its first entry returned. */
  method DistanceToPoint(line: Line, p: Point) returns (r: real)
    requires line.NonVertical()
    ensures r == line.DistanceToPointSq(p)
  {
    var toLine, toP1, toP2 := line.LineDistSq(p), DistSq(p, line.p1), DistSq(p, line.p2);
    var d := new real[3];
    d[0], d[1], d[2] := toLine, toP1, toP2;
    SortThree(d);
    FirstOfSortedIsLeast(d[0], d[1], d[2], toLine, toP1, toP2);
    r := d[0];
  }

  /** `d.sort((a, b) => a - b)` on an array of three numbers: the entries are put
      in ascending order, and they are the same entries as before. */
  method SortThree(d: array<real>)
    requires d.Length == 3
    modifies d
    ensures d[0] <= d[1] <= d[2]
    ensures multiset{d[0], d[1], d[2]} == multiset{old(d[0]), old(d[1]), old(d[2])}
  {
    var a, b, c := d[0], d[1], d[2];
    if a > b {
      a, b := b, a;
    }
    if b > c {
      b, c := c, b;
    }
    if a > b {
      a, b := b, a;
    }
    d[0], d[1], d[2] := a, b, c;
  }

  /** The first of three sorted numbers is the least of the same three numbers
      given in any order, and it is one of them. */
  lemma FirstOfSortedIsLeast(a: real, b: real, c: real, x: real, y: real, z: real)
    requires a <= b <= c && multiset{a, b, c} == multiset{x, y, z}
    ensures a <= x && a <= y && a <= z
    ensures a == x || a == y || a == z
  {
    assert x in multiset{a, b, c} && y in multiset{a, b, c} && z in multiset{a, b, c};
    assert a in multiset{x, y, z};
  }

  /** A quotient of a non-negative number by a positive one is not negative. */
  lemma QuotientNonNegative(n: real, d: real)
    requires n >= 0.0 && d > 0.0
    ensures n / d >= 0.0
  {
    assert n == (n / d) * d;
  }

  /** A quotient by a positive number is at most D when the numerator is at most d * D. */
  lemma QuotientAtMost(n: real, d: real, bound: real)
    requires d > 0.0 && n <= d * bound
    ensures n / d <= bound
  {
    assert n == (n / d) * d;
  }

  /** Both defining points lie on the line, and so does every point between. */
  lemma LineContainsLerp(line: Line, t: real)
    requires line.NonVertical()
    ensures line.Contains(Lerp(line.p1, line.p2, t))
    ensures line.Contains(line.p1) && line.Contains(line.p2)
  {
    var dx, dy := line.p2.x - line.p1.x, line.p2.y - line.p1.y;
    var m := line.Slope();
    assert m * dx == dy;
    assert m * (line.p1.x + t * dx) == m * line.p1.x + t * (m * dx);
    assert m * (line.p1.x + 1.0 * dx) == m * line.p1.x + 1.0 * (m * dx);
    assert Lerp(line.p1, line.p2, 0.0) == line.p1;
    assert Lerp(line.p1, line.p2, 1.0) == line.p2;
  }

  /** The distance to the line is at most the distance to any point on it. */
  lemma LineDistBelowLinePoints(line: Line, p: Point, q: Point)
    requires line.NonVertical() && line.Contains(q)
    ensures line.LineDistSq(p) <= DistSq(p, q)
  {
    LinePointBound(p, q, line.Slope(), line.Offset(), line.LineDistSq(p), DistSq(p, q));
  }

  /** LineDistBelowLinePoints for the line y = m x + b, with the two distances named. */
  lemma LinePointBound(p: Point, q: Point, m: real, b: real, toLine: real, toPoint: real)
    requires q.y == m * q.x + b
    requires toLine == Square(p.y - m * p.x - b) / (Square(m) + 1.0)
    requires toPoint == DistSq(p, q)
    ensures toLine <= toPoint
  {
    var dx, dy := p.x - q.x, p.y - q.y;
    var v := p.y - m * p.x - b;
    assert v == dy - m * dx;
    DistSqAsSquares(p, q);
    LineDistBound(v, m, dx, dy, toPoint);
  }

  /** v^2 / (m^2 + 1) <= dx^2 + dy^2 when v = dy - m dx. */
  lemma LineDistBound(v: real, m: real, dx: real, dy: real, dist: real)
    requires v == dy - m * dx && dist == Square(dx) + Square(dy)
    ensures Square(v) / (Square(m) + 1.0) <= dist
  {
    LineDistAlgebra(m, dx, dy);
    QuotientAtMost(Square(v), Square(m) + 1.0, dist);
  }

  /** (dy - m dx)^2 <= (m^2 + 1) (dx^2 + dy^2): the difference is (m dy + dx)^2. */
  lemma LineDistAlgebra(m: real, dx: real, dy: real)
    ensures Square(dy - m * dx) <= (Square(m) + 1.0) * (Square(dx) + Square(dy))
  {
    SquareIsProduct(dy - m * dx);
    SquareIsProduct(m);
    SquareIsProduct(dx);
    SquareIsProduct(dy);
    SquareIsProduct(m * dy + dx);
    assert (m * m + 1.0) * (dx * dx + dy * dy) - (dy - m * dx) * (dy - m * dx) == (m * dy + dx) * (m * dy + dx);
  }

  /** The least of the three candidates is always the distance to the line: the
      other two are distances to points on the line. */
  lemma DistanceToPointIsLineDist(line: Line, p: Point)
    requires line.NonVertical()
    ensures line.DistanceToPointSq(p) == line.LineDistSq(p)
  {
    LineContainsLerp(line, 0.0);
    LineDistBelowLinePoints(line, p, line.p1);
    LineDistBelowLinePoints(line, p, line.p2);
  }

  /** The line distance is at most `getPerpDist`'s segment distance. */
  lemma LineDistAtMostSegmentDist(line: Line, p: Point)
    requires line.NonVertical()
    ensures line.LineDistSq(p) <= PerpDistSq(p, line.p1, line.p2)
  {
    var t := ClampedParam(p, line.p1, line.p2);
    PerpDistSqAttained(p, line.p1, line.p2);
    LineContainsLerp(line, t);
    LineDistBelowLinePoints(line, p, Lerp(line.p1, line.p2, t));
  }

  // ----- douglasPeucker -----

  /** The line from the first to the last point, which passes through both. */
  function Chord(points: seq<Point>): (l: Line)
    requires |points| >= 1
  {
    Line(points[0], points[|points| - 1])
  }

  /** The squared distances the loop measures: entry j belongs to point j + 1
      (LineDistanceAt). */
  function LineDistances(points: seq<Point>): (ds: seq<real>)
    requires |points| >= 3 && Chord(points).NonVertical()
    ensures |ds| == |points| - 2
  {
    Distances(Chord(points), points[1..|points| - 1])
  }

  /** distanceToPoint of every point of qs, in order. */
  function Distances(line: Line, qs: seq<Point>): (ds: seq<real>)
    requires line.NonVertical()
    ensures |ds| == |qs|
    decreases |qs|
  {
    if |qs| == 0 then [] else Distances(line, qs[..|qs| - 1]) + [line.DistanceToPointSq(qs[|qs| - 1])]
  }

  /** Entry j of Distances is the distance of point j. */
  lemma {:induction false} DistanceAt(line: Line, qs: seq<Point>, j: nat)
    requires line.NonVertical() && j < |qs|
    ensures Distances(line, qs)[j] == line.DistanceToPointSq(qs[j])
    decreases |qs|
  {
    if j < |qs| - 1 {
      DistanceAt(line, qs[..|qs| - 1], j);
    }
  }

  /** Entry j of LineDistances is the distance of point j + 1 to the chord. */
  lemma LineDistanceAt(points: seq<Point>, j: nat)
    requires |points| >= 3 && Chord(points).NonVertical() && j < |points| - 2
    ensures LineDistances(points)[j] == Chord(points).DistanceToPointSq(points[j + 1])
  {
    DistanceAt(Chord(points), points[1..|points| - 1], j);
  }

  /** What `douglasPeucker(points, tolerance)` does. Up to two points give the first
      point alone (`undefined` for none). A chord with the same x at both ends makes
      the slope a division by zero. A chosen point at index 0 (every distance 0 and
      a tolerance of at most 0) makes the right piece the whole input again. */
  function DouglasPeucker(points: seq<Point>, tolerance: real): (o: Outcome)
    decreases |points|
  {
    if |points| == 0 then HoldsUndefined
    else if |points| <= 2 then Returns([points[0]])
    else if !Chord(points).NonVertical() then NonFinite
    else
      var f := FarthestOf(LineDistances(points));
      if Reaches(f.dist, tolerance) then
        if f.index == 0 then Loops
        else Concat(DouglasPeucker(points[..f.index + 1], tolerance), DouglasPeucker(points[f.index..], tolerance))
      else
        Returns([points[0]])
  }

  /** What `simplifyPath(points, tolerance)` does: the last point pushed onto
      douglasPeucker's array. */
  function SimplifyPath(points: seq<Point>, tolerance: real): (o: Outcome)
    ensures o.Returns? ==> |points| >= 1 && |o.points| >= 1 && o.points[|o.points| - 1] == points[|points| - 1]
  {
    var inner := DouglasPeucker(points, tolerance);
    if |points| == 0 then HoldsUndefined
    else if inner.Returns? then Returns(inner.points + [points[|points| - 1]])
    else inner
  }

  /** The search loop of `douglasPeucker`. */
  method FindFarthest(points: seq<Point>, line: Line) returns (index: nat, maxDistance: real)
    requires |points| >= 3 && line == Chord(points) && line.NonVertical()
    ensures Farthest(index, maxDistance) == FarthestOf(LineDistances(points))
  {
    ghost var ds := LineDistances(points);
    index, maxDistance := 0, 0.0;
    var i := 1;
    while i <= |points| - 2
      invariant 1 <= i <= |points| - 1
      invariant Farthest(index, maxDistance) == FarthestOf(ds[..i - 1])
    {
      var distance := DistanceToPoint(line, points[i]);
      LineDistanceAt(points, i - 1);
      FarthestOfPrefix(ds, i);
      if distance > maxDistance {
        index, maxDistance := i, distance;
      }
      i := i + 1;
    }
    assert ds[..i - 1] == ds;
  }

  /** `douglasPeucker` itself, on the inputs where it returns an array of points. */
  method ComputeDouglasPeucker(points: seq<Point>, tolerance: real) returns (r: seq<Point>)
    requires DouglasPeucker(points, tolerance).Returns?
    ensures DouglasPeucker(points, tolerance) == Returns(r)
    decreases |points|, 1
  {
    if |points| <= 2 {
      return [points[0]];
    }
    var line := Line(points[0], points[|points| - 1]);
    var index, maxDistance := FindFarthest(points, line);
    DouglasPeuckerCases(points, tolerance);
    if Reaches(maxDistance, tolerance) {
      DouglasPeuckerSplits(points, tolerance, index);
      r := ComputePieces(points, tolerance, index);
    } else {
      r := [points[0]];
    }
  }

  /** The two recursive calls of a split at c, their arrays concatenated. */
  method ComputePieces(points: seq<Point>, tolerance: real, c: nat) returns (r: seq<Point>)
    requires 1 <= c <= |points| - 2
    requires DouglasPeucker(points[..c + 1], tolerance).Returns? && DouglasPeucker(points[c..], tolerance).Returns?
    ensures r == DouglasPeucker(points[..c + 1], tolerance).points + DouglasPeucker(points[c..], tolerance).points
    decreases |points|, 0
  {
    var left := ComputeDouglasPeucker(points[..c + 1], tolerance);
    var right := ComputeDouglasPeucker(points[c..], tolerance);
    r := left + right;
  }

  /** `simplifyPath` itself, on the inputs where it returns an array of points. */
  method ComputeSimplifyPath(points: seq<Point>, tolerance: real) returns (r: seq<Point>)
    requires SimplifyPath(points, tolerance).Returns?
    ensures SimplifyPath(points, tolerance) == Returns(r)
  {
    var arr := ComputeDouglasPeucker(points, tolerance);
    arr := arr + [points[|points| - 1]];
    r := arr;
  }

  // ----- Properties -----

  /** The test douglasPeucker applies to a dropped point p: the line through the
      kept points a and b has a finite slope and p is closer to it than the tolerance. */
  function WithinLine(tolerance: real): (Point, Point, Point) -> bool
  {
    (p: Point, a: Point, b: Point) => Line(a, b).NonVertical() && !Reaches(Line(a, b).DistanceToPointSq(p), tolerance)
  }

  /** A douglasPeucker result with the input's last point appended (what
      simplifyPath returns) keeps the first and last input points and some points in
      between, in order, and every dropped point lies within the tolerance of the
      line through the two kept points around it. */
  lemma DouglasPeuckerShape(points: seq<Point>, tolerance: real)
    requires |points| >= 2 && DouglasPeucker(points, tolerance).Returns?
    ensures Simplification(DouglasPeucker(points, tolerance).points + [points[|points| - 1]], points, WithinLine(tolerance))
    decreases |points|, 3
  {
    if |points| == 2 {
      CoveredByEnds(points, WithinLine(tolerance));
      assert SpansSubsequence([points[0], points[1]], points, [0, 1]);
    } else if Reaches(FarthestOf(LineDistances(points)).dist, tolerance) {
      DouglasPeuckerSplitShape(points, tolerance);
    } else {
      DouglasPeuckerEndsShape(points, tolerance);
    }
  }

  /** DouglasPeuckerShape when no point reaches the tolerance: only the ends are kept. */
  lemma DouglasPeuckerEndsShape(points: seq<Point>, tolerance: real)
    requires |points| >= 3 && Chord(points).NonVertical()
    requires !Reaches(FarthestOf(LineDistances(points)).dist, tolerance)
    ensures DouglasPeucker(points, tolerance) == Returns([points[0]])
    ensures Simplification([points[0]] + [points[|points| - 1]], points, WithinLine(tolerance))
  {
    DouglasPeuckerEndsCover(points, tolerance);
  }

  /** Every point between the ends lies within the tolerance of the chord, so the
      ends alone simplify the line. */
  lemma DouglasPeuckerEndsCover(points: seq<Point>, tolerance: real)
    requires |points| >= 3 && Chord(points).NonVertical()
    requires !Reaches(FarthestOf(LineDistances(points)).dist, tolerance)
    ensures Simplification([points[0]] + [points[|points| - 1]], points, WithinLine(tolerance))
  {
    var n := |points|;
    var ds := LineDistances(points);
    FarthestIsLargest(ds);
    forall m | 0 < m < n - 1
      ensures WithinLine(tolerance)(points[m], points[0], points[n - 1])
    {
      LineDistanceAt(points, m - 1);
      assert ds[m - 1] <= FarthestOf(ds).dist;
    }
    CoveredByEnds(points, WithinLine(tolerance));
    assert SpansSubsequence([points[0]] + [points[n - 1]], points, [0, n - 1]);
  }

  /** DouglasPeuckerShape when the farthest point reaches the tolerance: the two
      pieces, which share that point, join. */
  lemma DouglasPeuckerSplitShape(points: seq<Point>, tolerance: real)
    requires |points| >= 3 && Chord(points).NonVertical()
    requires Reaches(FarthestOf(LineDistances(points)).dist, tolerance)
    requires DouglasPeucker(points, tolerance).Returns?
    ensures Simplification(DouglasPeucker(points, tolerance).points + [points[|points| - 1]], points, WithinLine(tolerance))
    decreases |points|, 2
  {
    var c := FarthestOf(LineDistances(points)).index;
    DouglasPeuckerSplits(points, tolerance, c);
    DouglasPeuckerJoinShape(points, tolerance, c, DouglasPeucker(points[..c + 1], tolerance).points,
                            DouglasPeucker(points[c..], tolerance).points, DouglasPeucker(points, tolerance).points);
  }

  /** The shapes of the two pieces of a split at c, whose arrays are l and r,
      carry over to whole, their concatenation. */
  lemma DouglasPeuckerJoinShape(points: seq<Point>, tolerance: real, c: nat, l: seq<Point>, r: seq<Point>, whole: seq<Point>)
    requires 1 <= c <= |points| - 2
    requires DouglasPeucker(points[..c + 1], tolerance) == Returns(l) && DouglasPeucker(points[c..], tolerance) == Returns(r)
    requires whole == l + r
    ensures Simplification(whole + [points[|points| - 1]], points, WithinLine(tolerance))
    decreases |points|, 1
  {
    var left, right := points[..c + 1], points[c..];
    DouglasPeuckerLeftShape(points, tolerance, c, l);
    DouglasPeuckerRightShape(points, tolerance, c, r);
    assert left[|left| - 1] == points[c] && right[|right| - 1] == points[|points| - 1];
    CoveredClosedJoin(l, r, whole, points, c, left, right, WithinLine(tolerance));
  }

  /** DouglasPeuckerShape for the left piece of a split at c, whose array is l. */
  lemma DouglasPeuckerLeftShape(points: seq<Point>, tolerance: real, c: nat, l: seq<Point>)
    requires 1 <= c <= |points| - 2
    requires DouglasPeucker(points[..c + 1], tolerance) == Returns(l)
    ensures Simplification(l + [points[c]], points[..c + 1], WithinLine(tolerance))
    decreases |points|, 0
  {
    DouglasPeuckerShape(points[..c + 1], tolerance);
  }

  /** DouglasPeuckerShape for the right piece of a split at c, whose array is r. */
  lemma DouglasPeuckerRightShape(points: seq<Point>, tolerance: real, c: nat, r: seq<Point>)
    requires 1 <= c <= |points| - 2
    requires DouglasPeucker(points[c..], tolerance) == Returns(r)
    ensures Simplification(r + [points[|points| - 1]], points[c..], WithinLine(tolerance))
    decreases |points|, 0
  {
    DouglasPeuckerShape(points[c..], tolerance);
  }

  /** The three cases of DouglasPeucker on three or more points with a finite
      chord slope, unfolded. */
  lemma DouglasPeuckerCases(points: seq<Point>, tolerance: real)
    requires |points| >= 3 && Chord(points).NonVertical()
    ensures var f := FarthestOf(LineDistances(points));
            && (!Reaches(f.dist, tolerance) ==> DouglasPeucker(points, tolerance) == Returns([points[0]]))
            && (Reaches(f.dist, tolerance) && f.index == 0 ==> DouglasPeucker(points, tolerance) == Loops)
            && (Reaches(f.dist, tolerance) && f.index != 0 ==>
                  && 1 <= f.index <= |points| - 2
                  && DouglasPeucker(points, tolerance)
                     == Concat(DouglasPeucker(points[..f.index + 1], tolerance), DouglasPeucker(points[f.index..], tolerance)))
  {
  }

  /** The recursive case of DouglasPeucker, unfolded. */
  lemma DouglasPeuckerSplits(points: seq<Point>, tolerance: real, c: nat)
    requires |points| >= 3 && Chord(points).NonVertical()
    requires Reaches(FarthestOf(LineDistances(points)).dist, tolerance)
    requires DouglasPeucker(points, tolerance).Returns?
    requires c == FarthestOf(LineDistances(points)).index
    ensures 1 <= c <= |points| - 2
    ensures DouglasPeucker(points[..c + 1], tolerance).Returns? && DouglasPeucker(points[c..], tolerance).Returns?
    ensures DouglasPeucker(points, tolerance).points
            == DouglasPeucker(points[..c + 1], tolerance).points + DouglasPeucker(points[c..], tolerance).points
  {
  }

  /** A douglasPeucker array on two or more points starts with the first point and
      is shorter than the input: the input's last point is never part of it. */
  lemma DouglasPeuckerKeepsFirstNotLast(points: seq<Point>, tolerance: real)
    requires |points| >= 2 && DouglasPeucker(points, tolerance).Returns?
    ensures var r := DouglasPeucker(points, tolerance).points;
            && 1 <= |r| <= |points| - 1 && r[0] == points[0]
  {
    DouglasPeuckerShape(points, tolerance);
    var r := DouglasPeucker(points, tolerance).points;
    var idx :| SpansSubsequence(r + [points[|points| - 1]], points, idx) && Covered(points, idx, WithinLine(tolerance));
    SubsequenceLength(r + [points[|points| - 1]], points, idx);
    assert (r + [points[|points| - 1]])[0] == points[0];
  }

  /** simplifyPath keeps both ends and drops only points within the tolerance of
      the kept line around them; a single point comes back twice. */
  lemma SimplifyPathShape(points: seq<Point>, tolerance: real)
    requires |points| >= 1 && SimplifyPath(points, tolerance).Returns?
    ensures var r := SimplifyPath(points, tolerance).points;
            && (|points| == 1 ==> r == [points[0], points[0]])
            && (|points| >= 2 ==> 2 <= |r| <= |points|)
            && (|points| >= 2 ==> Simplification(r, points, WithinLine(tolerance)))
  {
    if |points| >= 2 {
      DouglasPeuckerShape(points, tolerance);
      var r := SimplifyPath(points, tolerance).points;
      var idx :| SpansSubsequence(r, points, idx) && Covered(points, idx, WithinLine(tolerance));
      SubsequenceLength(r, points, idx);
    }
  }

  /** With a positive tolerance douglasPeucker never re-enters itself forever. */
  lemma {:induction false} DouglasPeuckerNeverLoops(points: seq<Point>, tolerance: real)
    requires tolerance > 0.0
    ensures DouglasPeucker(points, tolerance) != Loops
    ensures SimplifyPath(points, tolerance) != Loops
    decreases |points|, 1
  {
    if |points| >= 3 && Chord(points).NonVertical() {
      var f := FarthestOf(LineDistances(points));
      DouglasPeuckerCases(points, tolerance);
      if Reaches(f.dist, tolerance) {
        ReachedIndexPositive(LineDistances(points), tolerance);
        PiecesNeverLoop(points, tolerance, f.index);
      }
    }
  }

  /** DouglasPeuckerNeverLoops for both pieces of a split at c. */
  lemma {:induction false} PiecesNeverLoop(points: seq<Point>, tolerance: real, c: nat)
    requires tolerance > 0.0 && 1 <= c <= |points| - 2
    ensures DouglasPeucker(points[..c + 1], tolerance) != Loops && DouglasPeucker(points[c..], tolerance) != Loops
    decreases |points|, 0
  {
    DouglasPeuckerNeverLoops(points[..c + 1], tolerance);
    DouglasPeuckerNeverLoops(points[c..], tolerance);
  }

  /** A larger tolerance never gives more points, wherever both runs return. The
      farthest point does not depend on the tolerance: a run that splits at the
      larger tolerance splits at the same point at the smaller one, and a run that
      splits returns at least two points where an unsplit one returns one. */
  lemma {:induction false} DouglasPeuckerMonotone(points: seq<Point>, t1: real, t2: real)
    requires t1 <= t2
    requires DouglasPeucker(points, t1).Returns? && DouglasPeucker(points, t2).Returns?
    ensures |DouglasPeucker(points, t2).points| <= |DouglasPeucker(points, t1).points|
    decreases |points|, 2
  {
    if |points| >= 3 {
      assert Chord(points).NonVertical();
      var f := FarthestOf(LineDistances(points));
      if Reaches(f.dist, t2) {
        DouglasPeuckerBothSplitMonotone(points, t1, t2);
      } else if Reaches(f.dist, t1) {
        DouglasPeuckerOneSplitMonotone(points, t1, t2);
      } else {
        DouglasPeuckerEndsShape(points, t1);
        DouglasPeuckerEndsShape(points, t2);
      }
    }
  }

  /** DouglasPeuckerMonotone when the run at the larger tolerance splits: the run
      at the smaller one splits at the same point. */
  lemma {:induction false} DouglasPeuckerBothSplitMonotone(points: seq<Point>, t1: real, t2: real)
    requires t1 <= t2 && |points| >= 3 && Chord(points).NonVertical()
    requires Reaches(FarthestOf(LineDistances(points)).dist, t2)
    requires DouglasPeucker(points, t1).Returns? && DouglasPeucker(points, t2).Returns?
    ensures |DouglasPeucker(points, t2).points| <= |DouglasPeucker(points, t1).points|
    decreases |points|, 1
  {
    var c := FarthestOf(LineDistances(points)).index;
    ReachesMonotone(FarthestOf(LineDistances(points)).dist, t1, t2);
    DouglasPeuckerSplits(points, t1, c);
    DouglasPeuckerSplits(points, t2, c);
    DouglasPeuckerSplitMonotone(points, t1, t2, c,
      DouglasPeucker(points[..c + 1], t1).points, DouglasPeucker(points[c..], t1).points,
      DouglasPeucker(points[..c + 1], t2).points, DouglasPeucker(points[c..], t2).points);
  }

  /** DouglasPeuckerMonotone when only the run at the smaller tolerance splits: it
      returns at least two points, the other run one. */
  lemma DouglasPeuckerOneSplitMonotone(points: seq<Point>, t1: real, t2: real)
    requires |points| >= 3 && Chord(points).NonVertical()
    requires Reaches(FarthestOf(LineDistances(points)).dist, t1)
    requires !Reaches(FarthestOf(LineDistances(points)).dist, t2)
    requires DouglasPeucker(points, t1).Returns?
    ensures |DouglasPeucker(points, t2).points| <= |DouglasPeucker(points, t1).points|
  {
    DouglasPeuckerEndsShape(points, t2);
    var c := FarthestOf(LineDistances(points)).index;
    DouglasPeuckerSplits(points, t1, c);
    DouglasPeuckerSplitLength(points, t1, c);
  }

  /** DouglasPeuckerMonotone for a split at c at both tolerances, whose pieces
      return l1, r1 at t1 and l2, r2 at t2. */
  lemma {:induction false} DouglasPeuckerSplitMonotone(points: seq<Point>, t1: real, t2: real, c: nat,
                                                        l1: seq<Point>, r1: seq<Point>, l2: seq<Point>, r2: seq<Point>)
    requires t1 <= t2 && 1 <= c <= |points| - 2
    requires DouglasPeucker(points[..c + 1], t1) == Returns(l1) && DouglasPeucker(points[c..], t1) == Returns(r1)
    requires DouglasPeucker(points[..c + 1], t2) == Returns(l2) && DouglasPeucker(points[c..], t2) == Returns(r2)
    ensures |l2 + r2| <= |l1 + r1|
    decreases |points|, 0
  {
    DouglasPeuckerMonotone(points[..c + 1], t1, t2);
    DouglasPeuckerMonotone(points[c..], t1, t2);
  }

  /** The two pieces of a split at c that both return give at least two points. */
  lemma DouglasPeuckerSplitLength(points: seq<Point>, tolerance: real, c: nat)
    requires 1 <= c <= |points| - 2
    requires DouglasPeucker(points[..c + 1], tolerance).Returns? && DouglasPeucker(points[c..], tolerance).Returns?
    ensures |DouglasPeucker(points[..c + 1], tolerance).points| + |DouglasPeucker(points[c..], tolerance).points| >= 2
  {
    DouglasPeuckerKeepsFirstNotLast(points[..c + 1], tolerance);
    DouglasPeuckerKeepsFirstNotLast(points[c..], tolerance);
  }

  /** simplifyPath never returns more points at a larger tolerance, wherever both
      runs return. */
  lemma SimplifyPathMonotone(points: seq<Point>, t1: real, t2: real)
    requires t1 <= t2
    requires SimplifyPath(points, t1).Returns? && SimplifyPath(points, t2).Returns?
    ensures |SimplifyPath(points, t2).points| <= |SimplifyPath(points, t1).points|
  {
    DouglasPeuckerMonotone(points, t1, t2);
  }

  /** simplifyPath is idempotent wherever it returns: run again on its own output,
      it gives that output back. */
  lemma SimplifyPathIdempotent(points: seq<Point>, tolerance: real)
    requires SimplifyPath(points, tolerance).Returns?
    ensures SimplifyPath(SimplifyPath(points, tolerance).points, tolerance) == SimplifyPath(points, tolerance)
  {
    DouglasPeuckerOfSimplified(points, tolerance, DouglasPeucker(points, tolerance).points, SimplifyPath(points, tolerance).points);
  }

  /** douglasPeucker on y, simplifyPath's output, returns a, the array it returned
      on the input: the chord is the same, the first farthest point survives and
      every point kept before it is strictly nearer, so the second run splits at
      that point into simplifyPath's outputs on the two pieces. */
  lemma {:induction false} DouglasPeuckerOfSimplified(points: seq<Point>, tolerance: real, a: seq<Point>, y: seq<Point>)
    requires |points| >= 1 && DouglasPeucker(points, tolerance) == Returns(a)
    requires y == a + [points[|points| - 1]]
    ensures DouglasPeucker(y, tolerance) == Returns(a)
    decreases |points|, 1
  {
    if |points| <= 2 {
      assert y == [points[0], points[|points| - 1]];
    } else {
      assert Chord(points).NonVertical();
      var c := FarthestOf(LineDistances(points)).index;
      if Reaches(FarthestOf(LineDistances(points)).dist, tolerance) {
        DouglasPeuckerSplits(points, tolerance, c);
        DouglasPeuckerOfSimplifiedSplit(points, tolerance, c,
          DouglasPeucker(points[..c + 1], tolerance).points, DouglasPeucker(points[c..], tolerance).points);
      } else {
        DouglasPeuckerEndsShape(points, tolerance);
        assert y == [points[0], points[|points| - 1]];
      }
    }
  }

  /** DouglasPeuckerOfSimplified for a run that splits at c, whose pieces return l
      and r. */
  lemma {:induction false} DouglasPeuckerOfSimplifiedSplit(points: seq<Point>, tolerance: real, c: nat,
                                                            l: seq<Point>, r: seq<Point>)
    requires |points| >= 3 && Chord(points).NonVertical()
    requires c == FarthestOf(LineDistances(points)).index && 1 <= c <= |points| - 2
    requires Reaches(FarthestOf(LineDistances(points)).dist, tolerance)
    requires DouglasPeucker(points[..c + 1], tolerance) == Returns(l) && DouglasPeucker(points[c..], tolerance) == Returns(r)
    ensures DouglasPeucker(l + r + [points[|points| - 1]], tolerance) == Returns(l + r)
    decreases |points|, 0
  {
    var left, right, last := points[..c + 1], points[c..], points[|points| - 1];
    assert left[|left| - 1] == points[c] && right[|right| - 1] == last;
    DouglasPeuckerOfSimplified(left, tolerance, l, l + [points[c]]);
    DouglasPeuckerOfSimplified(right, tolerance, r, r + [last]);
    DouglasPeuckerInner(left, tolerance);
    DouglasPeuckerInner(right, tolerance);
    SimplifiedSplitJoin(points, tolerance, c, l, r);
  }

  /** The second run on the output of a split at c splits at the same point, into
      simplifyPath's outputs on the two pieces, on which douglasPeucker returns l
      and r. */
  lemma SimplifiedSplitJoin(points: seq<Point>, tolerance: real, c: nat, l: seq<Point>, r: seq<Point>)
    requires |points| >= 3 && Chord(points).NonVertical()
    requires c == FarthestOf(LineDistances(points)).index && 1 <= c <= |points| - 2
    requires Reaches(FarthestOf(LineDistances(points)).dist, tolerance)
    requires StartsWithInner(l, points[..c + 1]) && StartsWithInner(r, points[c..])
    requires DouglasPeucker(l + [points[c]], tolerance) == Returns(l)
    requires DouglasPeucker(r + [points[|points| - 1]], tolerance) == Returns(r)
    ensures DouglasPeucker(l + r + [points[|points| - 1]], tolerance) == Returns(l + r)
  {
    var last := points[|points| - 1];
    SimplifiedSplitsAtSame(points, c, l, r);
    JoinAround(l, r, last);
    DouglasPeuckerSplitsAt(l + r + [last], tolerance, |l|, l + [points[c]], r + [last]);
  }

  /** The recursive case of DouglasPeucker at a known split position k, whose
      pieces are given. */
  lemma DouglasPeuckerSplitsAt(points: seq<Point>, tolerance: real, k: nat, left: seq<Point>, right: seq<Point>)
    requires |points| >= 3 && Chord(points).NonVertical()
    requires FarthestOf(LineDistances(points)).index == k && 1 <= k
    requires Reaches(FarthestOf(LineDistances(points)).dist, tolerance)
    requires left == points[..k + 1] && right == points[k..]
    ensures DouglasPeucker(points, tolerance) == Concat(DouglasPeucker(left, tolerance), DouglasPeucker(right, tolerance))
  {
  }

  /** l + r + [x] cut around the position of r's first point. */
  lemma JoinAround(l: seq<Point>, r: seq<Point>, x: Point)
    requires |r| >= 1
    ensures (l + r + [x])[..|l| + 1] == l + [r[0]]
    ensures (l + r + [x])[|l|..] == r + [x]
  {
    var y := l + r + [x];
    assert y[..|l| + 1] == l + [r[0]];
    assert y[|l|..] == r + [x];
  }

  /** r starts with the first point of s, and every later point of r is an
      intermediate point of s: the shape of a douglasPeucker array. */
  predicate StartsWithInner(r: seq<Point>, s: seq<Point>)
  {
    && |r| >= 1 && |s| >= 1 && r[0] == s[0]
    && (forall k :: 1 <= k < |r| ==> PointBetween(r[k], s, 0, |s| - 1))
  }

  /** A douglasPeucker array starts with the input's first point, and every later
      point of it is an intermediate point of the input. */
  lemma DouglasPeuckerInner(points: seq<Point>, tolerance: real)
    requires |points| >= 2 && DouglasPeucker(points, tolerance).Returns?
    ensures StartsWithInner(DouglasPeucker(points, tolerance).points, points)
  {
    DouglasPeuckerShape(points, tolerance);
    var r := DouglasPeucker(points, tolerance).points;
    var s := r + [points[|points| - 1]];
    var idx :| SpansSubsequence(s, points, idx) && Covered(points, idx, WithinLine(tolerance));
    IndicesBelowLast(idx);
    assert s[0] == points[0];
    forall k | 1 <= k < |r|
      ensures PointBetween(r[k], points, 0, |points| - 1)
    {
      IndexGrowth(idx, k);
      assert s[k] == points[idx[k]];
    }
  }

  /** On the output of a run that splits at c, the search finds the same point,
      now at position |l|, at the same distance: the chord has the same ends, the
      points kept before it lie strictly nearer and those after it no farther. */
  lemma SimplifiedSplitsAtSame(points: seq<Point>, c: nat, l: seq<Point>, r: seq<Point>)
    requires |points| >= 3 && Chord(points).NonVertical()
    requires c == FarthestOf(LineDistances(points)).index && 1 <= c <= |points| - 2
    requires StartsWithInner(l, points[..c + 1]) && StartsWithInner(r, points[c..])
    ensures var y := l + r + [points[|points| - 1]];
            && 1 <= |l| && 1 <= |r| && r[0] == points[c] && |y| >= 3 && Chord(y) == Chord(points)
            && FarthestOf(LineDistances(y)) == Farthest(|l|, FarthestOf(LineDistances(points)).dist)
  {
    var y := l + r + [points[|points| - 1]];
    var d := FarthestOf(LineDistances(points)).dist;
    assert y[0] == points[0] && y[|y| - 1] == points[|points| - 1];
    var dsY := LineDistances(y);
    forall j | 0 <= j < |dsY|
      ensures dsY[j] <= d && (j + 1 < |l| ==> dsY[j] < d) && (j + 1 == |l| ==> dsY[j] == d)
    {
      SimplifiedDistanceAt(points, c, l, r, j);
    }
    ChordDistancesAround(points);
    FirstFarthestAt(dsY, |l|, d);
  }

  /** SimplifiedSplitsAtSame at one position j + 1 of the output: the distance there
      is below the farthest distance d before the split point, d at it, and at most
      d after it. */
  lemma SimplifiedDistanceAt(points: seq<Point>, c: nat, l: seq<Point>, r: seq<Point>, j: nat)
    requires |points| >= 3 && Chord(points).NonVertical()
    requires c == FarthestOf(LineDistances(points)).index && 1 <= c <= |points| - 2
    requires StartsWithInner(l, points[..c + 1]) && StartsWithInner(r, points[c..])
    requires j + 2 < |l + r + [points[|points| - 1]]|
    ensures var y := l + r + [points[|points| - 1]];
            && Chord(y).NonVertical()
            && var dsY, d := LineDistances(y), FarthestOf(LineDistances(points)).dist;
               dsY[j] <= d && (j + 1 < |l| ==> dsY[j] < d) && (j + 1 == |l| ==> dsY[j] == d)
  {
    var y := l + r + [points[|points| - 1]];
    var p := y[j + 1];
    assert y[0] == points[0] && y[|y| - 1] == points[|points| - 1];
    LineDistanceAt(y, j);
    ChordDistancesAround(points);
    if j + 1 < |l| {
      assert p == l[j + 1];
      LeftKeepsInner(points, c, l, j + 1);
    } else if j + 1 > |l| {
      assert p == r[j + 1 - |l|];
      RightKeepsInner(points, c, r, j + 1 - |l|);
    } else {
      assert p == r[0];
    }
  }

  /** A later point k of l, the array of the left piece of a split at c, is a
      point of the input strictly between 0 and c. */
  lemma LeftKeepsInner(points: seq<Point>, c: nat, l: seq<Point>, k: nat)
    requires 1 <= c <= |points| - 2 && StartsWithInner(l, points[..c + 1]) && 1 <= k < |l|
    ensures PointBetween(l[k], points, 0, c)
  {
    var left := points[..c + 1];
    assert PointBetween(l[k], left, 0, |left| - 1);
    var i :| 0 < i < |left| - 1 && 0 <= i < |left| && l[k] == left[i];
    assert left[i] == points[i];
  }

  /** A later point k of r, the array of the right piece of a split at c, is a
      point of the input strictly between c and the last position. */
  lemma RightKeepsInner(points: seq<Point>, c: nat, r: seq<Point>, k: nat)
    requires 1 <= c <= |points| - 2 && StartsWithInner(r, points[c..]) && 1 <= k < |r|
    ensures PointBetween(r[k], points, c, |points| - 1)
  {
    var right := points[c..];
    assert PointBetween(r[k], right, 0, |right| - 1);
    var i :| 0 < i < |right| - 1 && 0 <= i < |right| && r[k] == right[i];
    assert right[i] == points[c + i];
  }

  /** The chord distances of an input, read off the search: none is above the
      farthest distance d, those before its position c are below it, the one at c
      is d, and d is positive once c is. */
  lemma ChordDistancesAround(points: seq<Point>)
    requires |points| >= 3 && Chord(points).NonVertical()
    ensures var f := FarthestOf(LineDistances(points));
            && (forall i :: 1 <= i <= |points| - 2 ==> Chord(points).DistanceToPointSq(points[i]) <= f.dist)
            && (forall i :: 1 <= i < f.index ==> Chord(points).DistanceToPointSq(points[i]) < f.dist)
            && (1 <= f.index ==> f.index <= |points| - 2 && Chord(points).DistanceToPointSq(points[f.index]) == f.dist && f.dist > 0.0)
  {
    var ds := LineDistances(points);
    var f := FarthestOf(ds);
    forall i | 1 <= i <= |points| - 2
      ensures Chord(points).DistanceToPointSq(points[i]) == ds[i - 1]
    {
      LineDistanceAt(points, i - 1);
    }
    if 1 <= f.index {
      var j :| 0 <= j < |ds| && ds[j] > 0.0;
      assert ds[j] <= f.dist;
    }
  }

  /** No two points share an x coordinate, so no line between two of them is vertical. */
  predicate DistinctX(points: seq<Point>)
  {
    forall i, j :: 0 <= i < j < |points| ==> XOf(points, i) != XOf(points, j)
  }

  /** The x coordinate of point i. */
  function XOf(points: seq<Point>, i: nat): real
    requires i < |points|
  {
    points[i].x
  }

  /** With a positive tolerance and distinct x coordinates simplifyPath returns
      an array of points. */
  lemma SimplifyPathReturnsOnDistinctX(points: seq<Point>, tolerance: real)
    requires tolerance > 0.0 && |points| >= 1 && DistinctX(points)
    ensures SimplifyPath(points, tolerance).Returns?
  {
    DouglasPeuckerReturnsOnDistinctX(points, tolerance);
  }

  /** With a positive tolerance and distinct x coordinates every chord has a finite
      slope, and douglasPeucker returns an array of points. */
  lemma {:induction false} DouglasPeuckerReturnsOnDistinctX(points: seq<Point>, tolerance: real)
    requires tolerance > 0.0 && |points| >= 1 && DistinctX(points)
    ensures DouglasPeucker(points, tolerance).Returns?
    decreases |points|, 1
  {
    if |points| >= 3 {
      assert XOf(points, 0) != XOf(points, |points| - 1);
      var f := FarthestOf(LineDistances(points));
      DouglasPeuckerCases(points, tolerance);
      if Reaches(f.dist, tolerance) {
        ReachedIndexPositive(LineDistances(points), tolerance);
        DistinctXPiecesReturn(points, tolerance, f.index);
      }
    }
  }

  /** DouglasPeuckerReturnsOnDistinctX for both pieces of a split at c. */
  lemma {:induction false} DistinctXPiecesReturn(points: seq<Point>, tolerance: real, c: nat)
    requires tolerance > 0.0 && DistinctX(points) && 1 <= c <= |points| - 2
    ensures DouglasPeucker(points[..c + 1], tolerance).Returns? && DouglasPeucker(points[c..], tolerance).Returns?
    decreases |points|, 0
  {
    DistinctXPieces(points, c);
    DouglasPeuckerReturnsOnDistinctX(points[..c + 1], tolerance);
    DouglasPeuckerReturnsOnDistinctX(points[c..], tolerance);
  }

  /** Both pieces of a split inherit distinct x coordinates. */
  lemma DistinctXPieces(points: seq<Point>, c: nat)
    requires DistinctX(points) && c < |points|
    ensures DistinctX(points[..c + 1]) && DistinctX(points[c..])
  {
    var left, right := points[..c + 1], points[c..];
    forall i, j | 0 <= i < j < |left|
      ensures XOf(left, i) != XOf(left, j)
    {
      assert XOf(left, i) == XOf(points, i) && XOf(left, j) == XOf(points, j);
    }
    forall i, j | 0 <= i < j < |right|
      ensures XOf(right, i) != XOf(right, j)
    {
      assert XOf(right, i) == XOf(points, c + i) && XOf(right, j) == XOf(points, c + j);
    }
  }

  /** A point on the line is at distance 0 from it. */
  lemma OnLineDistanceZero(line: Line, q: Point)
    requires line.NonVertical() && line.Contains(q)
    ensures line.DistanceToPointSq(q) == 0.0
  {
    DistanceToPointIsLineDist(line, q);
    assert q.y - line.Slope() * q.x - line.Offset() == 0.0;
  }

  /** With a tolerance of at most 0, points that all lie on their chord make every
      distance 0, the farthest index stays 0, and `0 >= tolerance` sends the whole
      input back into douglasPeucker: the recursion does not end. */
  lemma DouglasPeuckerLoopsOnFlatChord(points: seq<Point>, tolerance: real)
    requires |points| >= 3 && Chord(points).NonVertical() && tolerance <= 0.0
    requires forall m :: 0 < m < |points| - 1 ==> Chord(points).Contains(points[m])
    ensures DouglasPeucker(points, tolerance) == Loops
    ensures SimplifyPath(points, tolerance) == Loops
  {
    var ds := LineDistances(points);
    forall j | 0 <= j < |ds|
      ensures ds[j] <= 0.0
    {
      LineDistanceAt(points, j);
      OnLineDistanceZero(Chord(points), points[j + 1]);
    }
    assert FarthestOf(ds) == Farthest(0, 0.0);
  }

  /** simplifyPath keeps only the two ends of an input of three or more points
      exactly when no intermediate point reaches the tolerance. */
  lemma SimplifyPathEndsOnlyIff(points: seq<Point>, tolerance: real)
    requires |points| >= 3 && Chord(points).NonVertical()
    ensures SimplifyPath(points, tolerance) == Returns([points[0], points[|points| - 1]])
            <==> !Reaches(FarthestOf(LineDistances(points)).dist, tolerance)
  {
    var f := FarthestOf(LineDistances(points));
    if Reaches(f.dist, tolerance) && f.index != 0 && DouglasPeucker(points, tolerance).Returns? {
      DouglasPeuckerSplits(points, tolerance, f.index);
      var left, right := points[..f.index + 1], points[f.index..];
      DouglasPeuckerShape(left, tolerance);
      DouglasPeuckerShape(right, tolerance);
      var l, r := DouglasPeucker(left, tolerance).points, DouglasPeucker(right, tolerance).points;
      var il :| SpansSubsequence(l + [left[|left| - 1]], left, il);
      var ir :| SpansSubsequence(r + [right[|right| - 1]], right, ir);
      assert |SimplifyPath(points, tolerance).points| == |l| + |r| + 1;
    }
  }

  /** A middle point off the chord that reaches the tolerance is kept. */
  lemma SimplifyPathKeepsFarMiddle(a: Point, b: Point, c: Point, tolerance: real)
    requires a.x != c.x && Line(a, c).DistanceToPointSq(b) > 0.0
    requires Reaches(Line(a, c).DistanceToPointSq(b), tolerance)
    ensures SimplifyPath([a, b, c], tolerance) == Returns([a, b, c])
  {
    var points := [a, b, c];
    var ds := LineDistances(points);
    LineDistanceAt(points, 0);
    assert ds == [Line(a, c).DistanceToPointSq(b)];
    assert FarthestOf(ds[..0]) == Farthest(0, 0.0);
    FarthestOfPrefix(ds, 1);
    assert ds[..1] == ds;
    assert FarthestOf(ds) == Farthest(1, ds[0]);
    assert points[..2] == [a, b] && points[1..] == [b, c];
    DouglasPeuckerSplitsAt(points, tolerance, 1, [a, b], [b, c]);
    assert DouglasPeucker([a, b], tolerance) == Returns([a]);
    assert DouglasPeucker([b, c], tolerance) == Returns([b]);
    assert DouglasPeucker(points, tolerance) == Returns([a, b]);
    assert [a, b] + [c] == points;
  }

  // ----- Points given as [x, y] arrays -----

  /** douglasPeucker as written when each point is an `[x, y]` array, the shape
      `new Line` reads (`p1[0]`, `p1[1]`) and the rest of the code passes around.
      distanceToPoint reads `point.x` and `point.y` instead, which an array does not
      have, so every candidate distance is NaN and `distance > maxDistance` never
      holds: the loop leaves maxDistance at 0 and its index at 0. Points given as
      `{x, y}` objects fare no better: `new Line` then reads `p1[0]` as undefined
      and the slope is NaN, with the same outcome. `0 >= tolerance`
      then either sends the whole input back in (a tolerance of at most 0) or
      returns the first point alone. The ensures restate these branches outcome by
      outcome; what they mean for a far middle point is
      SimplifyPathOnArraysDropsFarMiddle. */
  function DouglasPeuckerOnArrays(points: seq<Point>, tolerance: real): (o: Outcome)
    ensures o.Returns? <==> 1 <= |points| && (|points| <= 2 || tolerance > 0.0)
    ensures o.Returns? ==> o.points == [points[0]]
    ensures o == Loops <==> |points| >= 3 && tolerance <= 0.0
  {
    if |points| == 0 then HoldsUndefined
    else if |points| <= 2 then Returns([points[0]])
    else if Reaches(0.0, tolerance) then Loops
    else Returns([points[0]])
  }

  /** simplifyPath as written on `[x, y]` arrays: the last point pushed onto
      DouglasPeuckerOnArrays's array. */
  function SimplifyPathOnArrays(points: seq<Point>, tolerance: real): (o: Outcome)
    ensures o.Returns? ==> |points| >= 1 && o.points == [points[0], points[|points| - 1]]
    ensures o == Loops <==> |points| >= 3 && tolerance <= 0.0
    ensures o == HoldsUndefined <==> |points| == 0
  {
    var inner := DouglasPeuckerOnArrays(points, tolerance);
    if |points| == 0 then HoldsUndefined
    else if inner.Returns? then Returns(inner.points + [points[|points| - 1]])
    else inner
  }

  /** On arrays every middle point is dropped, however far it lies from the chord,
      where reading the coordinates consistently keeps it. */
  lemma SimplifyPathOnArraysDropsFarMiddle(a: Point, b: Point, c: Point, tolerance: real)
    requires a.x != c.x && tolerance > 0.0
    requires Reaches(Line(a, c).DistanceToPointSq(b), tolerance)
    ensures SimplifyPathOnArrays([a, b, c], tolerance) == Returns([a, c])
    ensures SimplifyPath([a, b, c], tolerance) == Returns([a, b, c])
  {
    assert Square(tolerance) > 0.0;
    SimplifyPathKeepsFarMiddle(a, b, c, tolerance);
  }

  /** The input that shows it: (1, 10) lies 10 away from the line through (0, 0)
      and (2, 0), far beyond a tolerance of 1, yet on arrays simplifyPath drops it. */
  lemma SimplifyPathOnArraysDropsFarPoint()
    ensures var points := [Point(0.0, 0.0), Point(1.0, 10.0), Point(2.0, 0.0)];
            && SimplifyPathOnArrays(points, 1.0) == Returns([points[0], points[2]])
            && SimplifyPath(points, 1.0) == Returns(points)
            && Line(points[0], points[2]).DistanceToPointSq(points[1]) == 100.0
  {
    FarLineDistance();
    SimplifyPathOnArraysDropsFarMiddle(Point(0.0, 0.0), Point(1.0, 10.0), Point(2.0, 0.0), 1.0);
  }

  /** The squared distance of (1, 10) to the line through (0, 0) and (2, 0) is 100,
      which reaches the square of a tolerance of 1. */
  lemma FarLineDistance()
    ensures Line(Point(0.0, 0.0), Point(2.0, 0.0)).DistanceToPointSq(Point(1.0, 10.0)) == 100.0
    ensures Reaches(100.0, 1.0)
  {
    var line := Line(Point(0.0, 0.0), Point(2.0, 0.0));
    assert line.Slope() == 0.0;
    assert line.Offset() == 0.0;
    SquareIsProduct(10.0);
    SquareIsProduct(0.0);
    SquareIsProduct(1.0);
    assert line.LineDistSq(Point(1.0, 10.0)) == 100.0 / 1.0;
    DistanceToPointIsLineDist(line, Point(1.0, 10.0));
  }
}
