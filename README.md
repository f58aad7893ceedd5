# Polyline simplification in flowdirections.io

This project models the two polyline simplifiers in `src/utils.js` and proves
properties about them. Both are versions of the Ramer-Douglas-Peucker algorithm.

Both functions are exported. The application imports only `rdp`
(`src/App.js:52`). Its one call, at `src/App.js:324`, sits in the handler
`handleChangeSimplification`, and the slider that would trigger that handler is
commented out (`src/App.js:511-513`).

- `rdp(points, epsilonTolerance)` measures with `getPerpDist`, the distance
  from a point to a line segment.
- `simplifyPath(points, tolerance)` is a closure. It holds a helper `Vector`, a
  helper `Line` whose `distanceToPoint` measures against the infinite line through
  two points, and a recursive `douglasPeucker`.

Modules:

- `Geometry`: points, squared distances, and `getPerpDist` as `PerpDistSq`. It
  proves that `PerpDistSq` is the minimum distance over the segment.
- `Polyline`: the parts both simplifiers share:
  - the outcome of a run;
  - the "first farthest point" search loop, as a specification function;
  - tolerance tests on squared distances;
  - an output described as an end-keeping subsequence of the input;
  - coverage: what "every dropped point is within tolerance" means, and how
    coverage of two pieces joins.
- `RdpSimplifier`: `rdp` as written. It also holds the corrected algorithm with
  its tolerance guarantee.
- `PathSimplifier`: `Line`, `distanceToPoint`, `douglasPeucker` and `simplifyPath`.

Every distance is squared: the source takes `Math.sqrt` of exactly these
quantities. Lemmas justify comparing squares instead
(`Polyline.ExceedsMatchesDistance`, `Polyline.ReachesMatchesDistance`,
`Polyline.FarthestOfSquares`). A run's result is a `Polyline.Outcome`:

- `Returns(points)`: the run returns this array;
- `Loops`: the recursion re-enters itself on the same input and never ends;
- `NonFinite`: a slope is divided by zero;
- `HoldsUndefined`: an empty input yields an array holding `undefined`.

The search loops and the recursive drivers are methods: `FindFarthest`,
`ComputeRdp`, `ComputeDouglasPeucker` and `ComputeSimplifyPath`. Each is proved
equal to the function it implements. `distanceToPoint`, which sorts an array of
its three candidates in place, is the method `DistanceToPoint` over a three-entry
array sorted by `SortThree`.

Some behaviours of the code differ from the Ramer-Douglas-Peucker algorithm
that `src/utils.js:102` cites. The model follows the code:

- With a tolerance of 0 or less and every middle point on its chord,
  `douglasPeucker` recurses forever. Every distance is 0, so the test
  `maxDistance >= tolerance` at `src/utils.js:51` holds with the farthest index
  still 0. The right piece at `src/utils.js:57` is then the whole input again
  (`PathSimplifier.DouglasPeuckerLoopsOnFlatChord`).
- `rdp` does not reject a negative `epsilonTolerance`. Every run then reaches
  `rdp([])`, and that call recurses into itself forever (`src/utils.js:122-123`,
  `RdpSimplifier.RdpLoopsOnNegativeTolerance`).
- `rdp` splits at `src/utils.js:123` into pieces that do not share the farthest
  point. Around every split the output keeps both `points[index-1]` and
  `points[index]` (each unsplit piece contributes both of its ends), where the
  algorithm keeps the split point once (`RdpSimplifier.RdpShape`).

## Model

| member | source | states |
|---|---|---|
| Geometry.DistSq | src/utils.js:92 | the squared distance is never negative, and it is zero exactly when the two points coincide |
| Geometry.PerpDistSq | src/utils.js:82-98 | the squared distance to a segment is never negative; for a zero-length segment it is the distance to its endpoint; it is zero at either endpoint |
| Geometry.PerpDistSqAttained | src/utils.js:85-97 | the value equals the distance to the segment point at the clamped projection parameter |
| Geometry.PerpDistSqIsSegmentMinimum | src/utils.js:82-98 | no point of the segment is closer than the returned distance, so together with PerpDistSqAttained it is the distance to the segment |
| Geometry.BeforeStartIsNearest | src/utils.js:91-92 | when the projection falls before the start, the start is the nearest segment point |
| Geometry.BeyondEndIsNearest | src/utils.js:93-94 | when the projection falls beyond the end, the end is the nearest segment point |
| Geometry.FootIsNearest | src/utils.js:97 | when the projection falls inside the segment, the foot of the perpendicular is the nearest segment point |
| Geometry.ProjectionParam | src/utils.js:83-89 | the projection parameter `dot / len_sq`, or -1 for a zero-length segment; what it means is stated by ParamTimesLength |
| Geometry.ParamTimesLength | src/utils.js:87-88 | on a segment of non-zero length the parameter times the squared length is the dot product, so the parameter locates the foot of the perpendicular |
| Geometry.EndParam | src/utils.js:83-89 | the far end of a segment of non-zero length projects onto parameter 1 |
| Polyline.Concat | src/utils.js:123 | spreading two results returns an array exactly when both calls do; that array is the left one followed by the right one; a left call that fails decides the outcome |
| Polyline.FarthestOf | src/utils.js:110-120 | the search returns the largest distance at the first position where it occurs, or position 0 with distance 0 when no distance is positive |
| Polyline.FarthestOfPrefix | src/utils.js:116-119 | one more loop iteration adds exactly one strict comparison to the search |
| Polyline.FirstFarthestUnique | src/utils.js:110-120 | at most one result meets that description, so the loop's result is determined |
| Polyline.FarthestIsLargest | src/utils.js:116-119 | no distance is above the one found |
| Polyline.ReachedIndexPositive | src/utils.js:40-51 | a farthest distance that reaches a positive tolerance was found at a position of its own, never the initial 0 |
| Polyline.ExceedsMatchesDistance | src/utils.js:122 | the test on squared distances is `dist > epsilonTolerance` on the distances |
| Polyline.ReachesMatchesDistance | src/utils.js:51 | the test on squared distances is `maxDistance >= tolerance` on the distances |
| Polyline.ExceedsMonotone | src/utils.js:122 | a squared distance that exceeds a tolerance also exceeds every smaller one |
| Polyline.ReachesMonotone | src/utils.js:51 | a squared distance that reaches a tolerance also reaches every smaller one |
| Polyline.FarthestOfSquares | src/utils.js:113-120 | searching the squared distances chooses the same point as searching the distances, and finds the square of the largest one |
| Polyline.FirstFarthestAt | src/utils.js:110-120 | a positive distance at position k, with no larger one anywhere and only smaller ones before it, is what the search finds |
| Polyline.SquareGrows | src/utils.js:122 | squaring strictly grows on non-negative numbers |
| Polyline.SubsequenceLength | src/utils.js:123 | an output taken from the input at increasing positions is no longer than the input |
| Polyline.SpansJoinExists | src/utils.js:123 | end-keeping subsequences of two disjoint adjacent pieces concatenate into an end-keeping subsequence of the whole |
| Polyline.CoveredSharedJoin | src/utils.js:55-57 | covering simplifications of two pieces that share the split point join into a covering simplification of the whole that keeps that point once |
| Polyline.CoveredClosedJoin | src/utils.js:55-57 | the same join for douglasPeucker's results, which leave out their piece's last point until the end |
| Polyline.CoveredByEnds | src/utils.js:58-63 | keeping only the two ends covers the input when every intermediate point is close to them |
| RdpSimplifier.Rdp | src/utils.js:109-127 | the outcome of rdp: never a division by zero, because getPerpDist guards zero-length segments, and a returned array has at least two points; the lemmas below characterise when it returns and what |
| RdpSimplifier.ChordDistances | src/utils.js:113-114 | one squared distance per intermediate point, measured to the segment from points[1] to the last point |
| RdpSimplifier.FindFarthest | src/utils.js:110-120 | the loop ends with the first farthest index and its distance, as FarthestOf describes |
| RdpSimplifier.ComputeRdp | src/utils.js:109-127 | on a non-empty input with a tolerance that is not negative, the recursion returns exactly what Rdp describes |
| RdpSimplifier.SplitIndex | src/utils.js:114-120 | the chosen point is never points[1], which lies on the chord: the index is 0 or between 2 and the last but one |
| RdpSimplifier.RdpReturnsIff | src/utils.js:109-127 | rdp returns an array exactly when the input is non-empty and the tolerance is not negative |
| RdpSimplifier.RdpLoopsOnNegativeTolerance | src/utils.js:122-123 | with a negative tolerance every run ends in `rdp([])` re-entering itself |
| RdpSimplifier.RdpShape | src/utils.js:122-126 | a returned array keeps the first and last input points and some points in between, in order; it has an even length and is no longer than the input |
| RdpSimplifier.RdpSplitShape | src/utils.js:122-123 | a run that splits returns at least four points, in pairs, as an end-keeping subsequence |
| RdpSimplifier.RdpSinglePoint | src/utils.js:126 | a single point comes back twice |
| RdpSimplifier.RdpEndsOnlyIff | src/utils.js:122-126 | the output is just the two ends exactly when no point is farther than the tolerance from the chord |
| RdpSimplifier.RdpDropsMiddleOfThree | src/utils.js:113-114 | three points always come back as their two ends, whatever the tolerance |
| RdpSimplifier.RdpDropsFarPoint | src/utils.js:114 | on (0,0), (1,10), (2,0) with tolerance 1, rdp drops (1,10), although its squared distance to the segment between the ends is 100 |
| RdpSimplifier.FarPointDistance | src/utils.js:82-98 | the point (1,10) lies at squared distance 100 from the segment between (0,0) and (2,0), which exceeds a tolerance of 1 |
| RdpSimplifier.RdpMonotone | src/utils.js:109-127 | for a non-empty input and tolerances 0 <= e1 <= e2, rdp returns at both, and the larger tolerance never gives more points |
| RdpSimplifier.RdpMonotonePieces | src/utils.js:122-123 | the same for both pieces of a split: they return at both tolerances, and neither gets longer at the larger one |
| RdpSimplifier.RdpNotIdempotent | src/utils.js:109-127 | rdp is not idempotent: on (-20,0), (0,0), (100,18), (100,37), (200,0) with tolerance 20 it returns (-20,0), (100,18), (100,37), (200,0), and on that output it returns only (-20,0), (200,0) |
| RdpSimplifier.RdpFirstPass | src/utils.js:113-126 | the first run of that example: the chord from (0,0) puts (100,37) at distance 37, the split keeps the ends of both pieces |
| RdpSimplifier.RdpSecondPass | src/utils.js:113-126 | the second run: the chord from (100,18) puts (100,37) at distance 19, within 20, so only the two ends are kept |
| RdpSimplifier.FootDistance | src/utils.js:82-98 | a point above the middle of the segment from (0,0) to (200,0) lies at squared distance y * y from it |
| RdpSimplifier.SegmentDistances | src/utils.js:113-114 | the corrected chord: one squared distance per intermediate point, to the segment from the FIRST point to the last |
| RdpSimplifier.CorrectedRdp | src/utils.js:109-127 | the corrected algorithm returns at least two points |
| RdpSimplifier.CorrectedRdpSplits | src/utils.js:122-123 | a corrected run that splits returns the left piece without its last point, followed by the right piece |
| RdpSimplifier.CorrectedRdpWithinTolerance | src/utils.js:109-127 | the corrected output keeps both ends and some points in between, in order, and every dropped point lies within the tolerance of the segment joining the kept points around it |
| RdpSimplifier.CorrectedEndsWithinTolerance | src/utils.js:122-126 | when nothing exceeds the tolerance, the two ends cover every intermediate point |
| RdpSimplifier.CorrectedSplitWithinTolerance | src/utils.js:122-123 | when the farthest point exceeds the tolerance, the guarantee of the two pieces carries over to the whole |
| RdpSimplifier.CorrectedRdpKeepsFarMiddle | src/utils.js:122-123 | three points come back whole when the middle one is farther than the tolerance from the segment between the ends |
| RdpSimplifier.CorrectedRdpOfTwo | src/utils.js:122-126 | two points come back unchanged from the corrected algorithm |
| RdpSimplifier.CorrectedRdpIdempotent | src/utils.js:109-127 | running the corrected algorithm on its own output, with the same tolerance, returns that output unchanged |
| RdpSimplifier.CorrectedIdempotentSplit | src/utils.js:122-123 | the same for a run that splits: the second run on the joined output gives it back |
| RdpSimplifier.CorrectedSplitJoin | src/utils.js:113-123 | the second run on the joined output of a split splits at the same point, back into the two pieces' outputs |
| RdpSimplifier.CorrectedJoinSplitsAt | src/utils.js:113-123 | on the joined output the search stops at the old split point, whose distance still exceeds the tolerance, and cutting there gives back the two pieces' outputs |
| RdpSimplifier.CorrectedRdpSplitsAt | src/utils.js:122-123 | a run whose search stops at position k, above the tolerance, joins the corrected outputs of points[..k+1] and points[k..] |
| RdpSimplifier.SharedJoinAround | src/utils.js:123 | two outputs joined at their shared point are cut back into the two at that point |
| RdpSimplifier.CorrectedSplitsAtSame | src/utils.js:113-120 | on the joined output of a split, the search finds the old split point, at the same distance, because the chord has the same ends and every kept point is one of the input's |
| RdpSimplifier.CorrectedJoinDistanceAt | src/utils.js:113-120 | on the joined output, every distance is at most the old farthest distance, those before the split point are below it, and the split point's equals it |
| RdpSimplifier.JoinedPointAt | src/utils.js:123 | each intermediate point of the joined output is an intermediate input point, before, at or after the split point as its position is, and the joined output keeps the input's ends |
| RdpSimplifier.SegmentDistanceOf | src/utils.js:113-114 | the distance at loop position j is that of point j to the segment between the two ends |
| RdpSimplifier.SegmentDistancesAround | src/utils.js:113-120 | no intermediate point is farther than the farthest distance, those before its position are nearer, and the one at its position lies at that positive distance |
| RdpSimplifier.CorrectedLeftKeepsInner | src/utils.js:123 | the left piece's output runs from the first point to the split point, with only input points between them in between |
| RdpSimplifier.CorrectedRightKeepsInner | src/utils.js:123 | the right piece's output runs from the split point to the last point, with only input points between them in between |
| RdpSimplifier.CorrectedRdpInner | src/utils.js:109-127 | a corrected output keeps both ends and, in between, only intermediate input points |
| RdpSimplifier.SpanKeepsEndsAndInner | src/utils.js:123 | an end-keeping subsequence has only intermediate points between its ends |
| PathSimplifier.Line.Slope | src/utils.js:15 | the slope `m` of the line through p1 and p2, defined only when their x coordinates differ; LineContainsLerp states that the line it defines passes through both points |
| PathSimplifier.Line.Offset | src/utils.js:17 | the y offset `b` of that line |
| PathSimplifier.Line.LineDistSq | src/utils.js:15-20 | the squared distance to the line y = m x + b is never negative |
| PathSimplifier.Line.DistanceToPointSq | src/utils.js:13-29 | distanceToPoint returns the least of its three candidates: the distance to the line and the distances to p1 and p2 |
| PathSimplifier.DistanceToPoint | src/utils.js:13-29 | pushing the three candidates onto an array, sorting it and taking its first entry gives the least candidate, as DistanceToPointSq describes |
| PathSimplifier.SortThree | src/utils.js:26-28 | sorting the three-entry array numerically leaves it in ascending order and holding the same entries |
| PathSimplifier.FirstOfSortedIsLeast | src/utils.js:25-28 | the first entry of the sorted array is one of the three candidates and no candidate is smaller |
| PathSimplifier.LineContainsLerp | src/utils.js:15-17 | both defining points, and every point between them, lie on the line with slope m and offset b |
| PathSimplifier.LineDistBelowLinePoints | src/utils.js:20-24 | the distance to the line is at most the distance to any point on it |
| PathSimplifier.DistanceToPointIsLineDist | src/utils.js:20-28 | the least candidate is always the distance to the line, so the sort never picks an endpoint distance that is strictly smaller |
| PathSimplifier.LineDistAtMostSegmentDist | src/utils.js:20 | the line distance is at most getPerpDist's segment distance |
| PathSimplifier.OnLineDistanceZero | src/utils.js:20 | a point on the line is at distance 0 |
| PathSimplifier.Chord | src/utils.js:38 | the line from the first point to the last |
| PathSimplifier.Distances | src/utils.js:43-44 | one distanceToPoint value per point given, in order; DistanceAt states which value belongs to which point |
| PathSimplifier.LineDistances | src/utils.js:43-44 | the loop measures one distance per intermediate point |
| PathSimplifier.LineDistanceAt | src/utils.js:38-44 | the distance at loop position i is distanceToPoint of points[i] against the line from the first point to the last |
| PathSimplifier.DistanceAt | src/utils.js:43-44 | the distances are measured point by point, in order: entry j belongs to point j |
| PathSimplifier.DouglasPeucker | src/utils.js:32-65 | the outcome of douglasPeucker with consistent coordinate reads: the first point alone for up to two points, NonFinite for a vertical chord, Loops when the chosen index is 0, otherwise the two pieces concatenated; the lemmas below state what it returns |
| PathSimplifier.SimplifyPath | src/utils.js:66-69 | a returned array ends with the last input point, which is pushed onto douglasPeucker's array |
| PathSimplifier.FindFarthest | src/utils.js:40-49 | the loop ends with the first farthest index and its distance, as FarthestOf describes |
| PathSimplifier.ComputeDouglasPeucker | src/utils.js:32-65 | wherever douglasPeucker returns an array, the recursion returns exactly what DouglasPeucker describes |
| PathSimplifier.ComputePieces | src/utils.js:55-57 | the two recursive calls on the pieces of a split return their DouglasPeucker arrays, concatenated left then right |
| PathSimplifier.ComputeSimplifyPath | src/utils.js:66-69 | wherever simplifyPath returns an array, it is douglasPeucker's array with the last point pushed on |
| PathSimplifier.DouglasPeuckerShape | src/utils.js:32-65 | douglasPeucker's array followed by the last input point keeps both ends and some points in between, in order; every dropped point is within the tolerance of the non-vertical line through the kept points around it |
| PathSimplifier.DouglasPeuckerEndsShape | src/utils.js:58-63 | when no distance reaches the tolerance, only the first point is returned, and every intermediate point is within the tolerance of the chord |
| PathSimplifier.DouglasPeuckerEndsCover | src/utils.js:51-63 | when no distance reaches the tolerance, every intermediate point is within the tolerance of the chord, so the two ends alone are a simplification of the line |
| PathSimplifier.DouglasPeuckerSplitShape | src/utils.js:51-57 | when the farthest point reaches the tolerance, the shape of the two pieces carries over to the whole |
| PathSimplifier.DouglasPeuckerJoinShape | src/utils.js:55-57 | the shapes of the two pieces of a split, which share the split point, carry over to the concatenation of their arrays |
| PathSimplifier.DouglasPeuckerLeftShape | src/utils.js:55 | the left piece's array followed by the split point has the shape DouglasPeuckerShape describes on the left piece |
| PathSimplifier.DouglasPeuckerRightShape | src/utils.js:57 | the right piece's array followed by the last input point has that shape on the right piece |
| PathSimplifier.DouglasPeuckerSplits | src/utils.js:51-57 | a returning run that splits returns the left piece's array followed by the right piece's |
| PathSimplifier.DouglasPeuckerMonotone | src/utils.js:32-65 | when douglasPeucker returns at tolerances t1 <= t2, the larger tolerance never gives more points |
| PathSimplifier.DouglasPeuckerBothSplitMonotone | src/utils.js:51-57 | the same when the farthest point reaches both tolerances, so both runs split at it |
| PathSimplifier.DouglasPeuckerOneSplitMonotone | src/utils.js:51-63 | the same when the farthest point reaches only the smaller tolerance: the larger one keeps only the first point |
| PathSimplifier.DouglasPeuckerSplitMonotone | src/utils.js:55-57 | the joined arrays of the two pieces are no longer at the larger tolerance |
| PathSimplifier.DouglasPeuckerSplitLength | src/utils.js:55-57 | a split returns at least two points, one from each piece |
| PathSimplifier.SimplifyPathMonotone | src/utils.js:66-69 | when simplifyPath returns at tolerances t1 <= t2, the larger tolerance never gives more points |
| PathSimplifier.SimplifyPathIdempotent | src/utils.js:66-69 | running simplifyPath on its own output, with the same tolerance, returns that output unchanged |
| PathSimplifier.DouglasPeuckerOfSimplified | src/utils.js:32-65 | douglasPeucker on its own array followed by the last input point returns that array again |
| PathSimplifier.DouglasPeuckerOfSimplifiedSplit | src/utils.js:51-57 | the same for a run that splits, from the same fact on both pieces |
| PathSimplifier.SimplifiedSplitJoin | src/utils.js:43-57 | the second run on the output of a split splits at the same point, into the two pieces' outputs, which douglasPeucker gives back |
| PathSimplifier.DouglasPeuckerSplitsAt | src/utils.js:51-57 | a run whose search stops at position k, reaching the tolerance, concatenates the results on points[..k+1] and points[k..] |
| PathSimplifier.JoinAround | src/utils.js:55-57 | the joined output cut at the split point gives the left piece's array with the split point, and the right piece's array with the last point |
| PathSimplifier.DouglasPeuckerInner | src/utils.js:32-65 | a returned array starts with the first point and, after it, holds only intermediate input points |
| PathSimplifier.SimplifiedSplitsAtSame | src/utils.js:43-57 | on the output of a split the search finds the old split point, at the same distance, because the chord has the same ends and every kept point is one of the input's |
| PathSimplifier.SimplifiedDistanceAt | src/utils.js:43-48 | on that output every distance is at most the old farthest distance, those before the split point are below it, and the split point's equals it |
| PathSimplifier.LeftKeepsInner | src/utils.js:55 | a later point of the left piece's array is an input point strictly before the split point |
| PathSimplifier.RightKeepsInner | src/utils.js:57 | a later point of the right piece's array is an input point strictly between the split point and the last point |
| PathSimplifier.ChordDistancesAround | src/utils.js:43-48 | no intermediate point is farther from the chord than the farthest distance, those before its position are nearer, and the one at its position lies at that positive distance |
| PathSimplifier.DouglasPeuckerKeepsFirstNotLast | src/utils.js:32-65 | a returned array on two or more points starts with the first point and is shorter than the input, which is why simplifyPath pushes the last point |
| PathSimplifier.SimplifyPathShape | src/utils.js:1-70 | simplifyPath keeps both ends and drops only points within the tolerance of the line around them, and returns at most as many points as it was given; a single point comes back twice |
| PathSimplifier.DouglasPeuckerNeverLoops | src/utils.js:43-57 | with a positive tolerance the recursion never re-enters itself on the same input |
| PathSimplifier.PiecesNeverLoop | src/utils.js:55-57 | with a positive tolerance neither recursive call on the pieces of a split loops |
| PathSimplifier.DouglasPeuckerReturnsOnDistinctX | src/utils.js:15-65 | with a positive tolerance and no two points sharing an x coordinate, douglasPeucker returns an array |
| PathSimplifier.SimplifyPathReturnsOnDistinctX | src/utils.js:66-69 | under the same conditions simplifyPath returns an array |
| PathSimplifier.DistinctXPiecesReturn | src/utils.js:55-57 | under the same conditions both recursive calls on the pieces of a split return arrays |
| PathSimplifier.DistinctXPieces | src/utils.js:55-57 | both pieces of a split keep distinct x coordinates |
| PathSimplifier.DouglasPeuckerLoopsOnFlatChord | src/utils.js:40-57 | with a tolerance of at most 0, points on their chord make the recursion re-enter itself forever |
| PathSimplifier.SimplifyPathEndsOnlyIff | src/utils.js:51-68 | for three or more points, simplifyPath returns just the two ends exactly when no intermediate point reaches the tolerance |
| PathSimplifier.SimplifyPathKeepsFarMiddle | src/utils.js:51-57 | a middle point off the chord whose distance reaches the tolerance is kept |
| PathSimplifier.DouglasPeuckerOnArrays | src/utils.js:10-65 | douglasPeucker as written, where every distance is NaN: it returns an array exactly when the input is not empty and has at most two points or a positive tolerance, and that array is the first point alone; it loops exactly when there are three or more points and the tolerance is at most 0 |
| PathSimplifier.SimplifyPathOnArrays | src/utils.js:10-69 | simplifyPath as written: a returned array is just the first and last points; it loops exactly when there are three or more points and the tolerance is at most 0; an empty input holds `undefined` |
| PathSimplifier.SimplifyPathOnArraysDropsFarMiddle | src/utils.js:10-23 | when the coordinates are read as written, a middle point is dropped however far it lies from the chord; reading them consistently keeps it |
| PathSimplifier.SimplifyPathOnArraysDropsFarPoint | src/utils.js:10-23 | on [0,0], [1,10], [2,0] with tolerance 1, simplifyPath as written returns [0,0], [2,0], although the squared line distance of [1,10] is 100 |
| PathSimplifier.FarLineDistance | src/utils.js:13-29 | the point (1,10) lies at squared line distance 100 from the line through (0,0) and (2,0), which reaches a tolerance of 1 |

## Left out

- Floating point: coordinates and tolerances are reals. IEEE rounding, NaN and
  infinities are not followed. The one exception is the outcome of the NaN
  comparisons in `PathSimplifier.DouglasPeuckerOnArrays`.
- `Math.sqrt`: every distance is squared. Lemmas tie the squared tests to the
  source's tests on distances.
- PathSimplifier.DouglasPeucker: this function, `PathSimplifier.Line`, `SimplifyPath` and
  every lemma about them read the chord ends and the measured point in the same
  shape. The source does not: `new Line` reads `p1[0]`, `p1[1]`
  (`src/utils.js:10-11`), while `distanceToPoint` reads `point.x`, `point.y`
  (`src/utils.js:20-24`). These members model the reading the code evidently
  intends, the second row of "## Findings". The outcome as written is
  `DouglasPeuckerOnArrays` and `SimplifyPathOnArrays`. Under the consistent
  reading, a closed ring of three or more points (first point equal to last) has
  a vertical chord and always ends in `NonFinite` at the top level.
- PathSimplifier.DouglasPeucker: a vertical chord (equal x at both ends) divides
  by zero when it computes the slope. The model records this as `NonFinite` and
  does not follow the IEEE values that come out of it.
- PathSimplifier.DistanceToPoint: `d.sort(...)` is modelled by a three-entry
  sort that puts the entries in ascending order. It does not follow the
  comparator on NaN, which only finite reals rule out.
- The calls `line.distanceToPoint(p, true)` at `src/utils.js:53` and `src/utils.js:61`
  are not modelled. Their results are discarded and they change nothing.
- `Vector` (`src/utils.js:4-8`) is modelled as `Geometry.Point`.
- Non-termination is modelled as the outcome `Loops`. It occurs only where the
  source calls itself on an identical argument. A stack overflow is not
  distinguished from endless recursion.
- RdpSimplifier.ComputeRdp: it is stated only for the inputs where `rdp`
  returns an array, which `RdpReturnsIff` characterises. The looping and
  `undefined` cases are described by `Rdp`.
- PathSimplifier.ComputeDouglasPeucker: it is stated only where douglasPeucker
  returns an array. The other outcomes are described by `DouglasPeucker`.
- PathSimplifier.ComputeSimplifyPath: it is stated only where simplifyPath
  returns an array. The other outcomes are described by `SimplifyPath`.
- RdpSimplifier.CorrectedRdp: its own contract states only the output length.
  Its tolerance guarantee is `CorrectedRdpWithinTolerance`.
- Not modelled: the rest of the application (the map panes, sidebar, controls,
  downloads and URL state in `src/App.js` and `src/components`), and the
  application's loop that applies `rdp` to each ring.
- rdp as written is not idempotent (`RdpSimplifier.RdpNotIdempotent`): a second
  run measures from a different second point and can drop points the first kept.
  The corrected algorithm and simplifyPath are idempotent
  (`RdpSimplifier.CorrectedRdpIdempotent`, `PathSimplifier.SimplifyPathIdempotent`).
  Monotonicity in the tolerance is proved (`RdpSimplifier.RdpMonotone`,
  `PathSimplifier.DouglasPeuckerMonotone`, `PathSimplifier.SimplifyPathMonotone`).

## Findings

| source | as written | input that shows it | evidently intended | confidence | as-written member | corrected member |
|---|---|---|---|---|---|---|
| src/utils.js:114 | the chord used to measure distances runs from `points[1]`, the second point, to the last point, and the pieces are split disjointly | points (0,0), (1,10), (2,0) with epsilonTolerance 1: the only intermediate point is the chord's start, at distance 0, so (1,10) is dropped although it lies 10 away from the segment joining the ends; with this chord rdp is also not idempotent, since a second run measures from a different second point (`RdpSimplifier.RdpNotIdempotent`), while the corrected algorithm is (`RdpSimplifier.CorrectedRdpIdempotent`) | the chord runs from `points[0]`, and the two pieces share the farthest point | not executed | RdpSimplifier.RdpDropsFarPoint | RdpSimplifier.CorrectedRdpWithinTolerance |
| src/utils.js:10-23 | `new Line` reads coordinates as `p1[0]`, `p1[1]`, but `distanceToPoint` reads `point.x`, `point.y`; a point has only one of these shapes, so every distance is NaN, `distance > maxDistance` never holds, and only the ends survive (or, with a tolerance of at most 0, the recursion never ends) | points [0,0], [1,10], [2,0] with tolerance 1 return [0,0], [2,0], although the line distance of [1,10] is 10 | both accesses read the same coordinates, so distances are finite and far points are kept | not executed | PathSimplifier.SimplifyPathOnArraysDropsFarPoint | PathSimplifier.DouglasPeuckerShape |
