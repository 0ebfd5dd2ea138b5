# GraphFaceEnumeration in Dafny

A model of the planar-arrangement engine of GraphFaceEnumeration, with proofs
about it. Users draw line segments one at a time. The `Graph` keeps two sets:

- `lines`: pending segments, each of which may carry one confirmed `vertex`;
- `edges`: finished undirected edges between two vertices.

`add` intersects a new segment with every line and every edge in the graph.
It then cuts the new segment at those points (`divide(_:_:)`), cuts or marks
every line it met (`divide(lines:)`), and cuts every edge it met
(`divide(edges:)`). `findFaces` walks the edges, always taking the tightest
clockwise turn around the current vertex. It tags the ends of edges it has
crossed. A walk stops the first time it comes back to its start edge, and
`findFaces` records it as a `Face` when it then has more than two edges.
A face is classified as `inner`, `outer` or `unknown` by its edge count and
its total turning angle.

The modules follow the source files:

| module | file | what |
|---|---|---|
| `Vertices` | vertices.dfy | `Vertex`, exact `real` points, `+=`, squared distance |
| `HashedSets` | hashed_sets.dfy | Swift `Set` of elements with a custom `==`: `contains`, `insert`, `remove`, iteration orders |
| `Lines` | lines.dfy | `Line`, `init?`, `getIntersection`, undirected `==` |
| `Edges` | edges.dfy | `Edge`, `init?`, `==`, `hasVertex`, `opposite`, `commonVertex`, `tag`, `intesects`, the clockwise angle |
| `FaceTypes` | face_types.dfy | `FaceType` and its descriptions |
| `Faces` | faces.dfy | the `Face` class: `init`, `isFace`, `type` |
| `Arrangements` | arrangements.dfy | `add` and the three `divide`s as functions on the pair of sets: the functions the `Graph` methods are proved against |
| `Graphs` | graph.dfy | the `Graph` class: `reset`, `add`, the `divide`s, `nextEdgeClockwise` and `findFaces`, all updating the two set fields in place |
| `Scenarios` | scenarios.dfy | the `add` sequences of the test suite, computed on `AddSpec` |
| `Wrappers` | wrappers.dfy | `Option` |

Modelling decisions:

- Coordinates are exact `real`s, so the exact `==` comparisons the code relies on keep their meaning.
- `atan2` in degrees is a parameter `bearing` of the angle functions. Its range `(-180, 180]` is the predicate `Edges.IsAtan2Range`, which is required only where a bound depends on it.
- Distances are squared distances. `sqrt` is monotone, so sorting by squared distance gives the same order as `divide(_:_:)`.
- `Line` and `Edge` are classes in Swift, each with its own `==`. Here they are datatypes kept in Dafny sets. `HashedSets.Insert` keeps the old member when an equal one is present, as Swift's `insert` does. `HashedSets.Remove` removes the members equal to the argument.
- The source changes objects in place: the line's `vertex` at GraphFaceEnumeration/Graph.swift:232 and the edge tags in `findFaces`. The model replaces the element in the set.
- Swift visits a set in an order it does not specify. In the methods this order is a choice (`:|`). `Graph.Add` promises that, for some iteration order `lo` of `lines` and `eo` of `edges`, the new state is what `AddSpec` computes for that order.
- `fatalError` in `divide(edges:)` happens exactly when the added line meets an edge at one of its endpoints. There, `Add` returns `ok == false` and `AddSpec` returns `None`. The `fatalError` in `divide(lines:)` (GraphFaceEnumeration/Graph.swift:244-246) cannot happen: where it would be reached, both halves are proper lines. `LineStep` therefore has no failure case.
- The two nested `while true` loops of `findFaces` get a `fuel` bound on the number of walk steps. The outer loop ends because every round tags at least one more edge end.

Where the source's own comments and names say more than its code does, the model follows the code:

- The doc comment of `tag` (GraphFaceEnumeration/Edge.swift:104-107) says it tags the vertex "with the given tag". The code stores `1` on both branches and never the tag it is given (GraphFaceEnumeration/Edge.swift:111, 116).
- Restarting a walk, by contrast, writes the pass number itself (GraphFaceEnumeration/Graph.swift:87, 91).
- The doc comment of `isFace` (GraphFaceEnumeration/Face.swift:13-14) says the edges "form a circle". The code only asks that each edge shares some vertex with the one before it and that the last shares one with the first (GraphFaceEnumeration/Face.swift:18-36). It does not ask for exactly one shared vertex.
- The comment in `type` (GraphFaceEnumeration/Face.swift:51) says its test "should be equal". The code classifies as `inner` any total up to `180·(n−2)`, and the model does the same.
- The dead-end branch of `findFaces` (GraphFaceEnumeration/Graph.swift:47-50) cannot be reached. The edge being walked is always a candidate of `nextEdgeClockwise`, at 360 degrees, so a next edge always exists.
- `rounded()` follows Swift's default rule: halves are rounded away from zero. On non-negative numbers, such as sums of clockwise angles, this agrees with `floor(x + 1/2)`.

## Model

| member | source | states |
|---|---|---|
| Vertices.FromInts | GraphFaceEnumeration/Vertex.swift:11-13 | the vertex has whole-number coordinates whose integer parts are exactly `x` and `y` |
| Vertices.FromIntsInjective | GraphFaceEnumeration/Vertex.swift:11-13 | `init(x:y:)` gives the same vertex for two pairs of integers iff the pairs are equal |
| Vertices.VertexEqualityIsCoordinatewise | GraphFaceEnumeration/Vertex.swift:45-47 | two vertices are equal iff both coordinates are equal |
| Vertices.PointIs | GraphFaceEnumeration/Vertex.swift:41-43 | comparing a point with a vertex holds iff the vertex made from that point is the vertex |
| Vertices.Offset | GraphFaceEnumeration/Vertex.swift:49-52 | `+=` moves the vertex by the length of the offset, and leaves it in place iff the offset is zero |
| Vertices.OffsetKeepsDistance | GraphFaceEnumeration/Vertex.swift:49-52 | moving two vertices by the same offset keeps the distance between them |
| Vertices.OffsetTwice | GraphFaceEnumeration/Vertex.swift:49-52 | two `+=` in a row are one `+=` by the sum of the offsets |
| Vertices.OffsetInverse | GraphFaceEnumeration/Vertex.swift:49-52 | adding an offset and then its negation gives back the vertex |
| Vertices.DistanceSquared | GraphFaceEnumeration/Vertex.swift:19-27 | the (squared) distance is never negative |
| Vertices.DistanceSymmetric | GraphFaceEnumerationTests/VertexTests.swift:5-12 | distance from A to B equals distance from B to A |
| Vertices.DistanceToSelf | GraphFaceEnumerationTests/VertexTests.swift:5-12 | the distance from a vertex to itself is 0 |
| HashedSets.Insert | GraphFaceEnumeration/Graph.swift:151 | `insert` adds at most the element itself and removes nothing; with an equal member present the set is unchanged, and otherwise the element is in it |
| HashedSets.Remove | GraphFaceEnumeration/Graph.swift:228 | `remove` adds nothing, leaves no member equal to the argument, keeps every member not equal to it, and changes nothing when no member is equal |
| HashedSets.InsertContains | GraphFaceEnumerationTests/LineTests.swift:37-45 | after `insert(x)` the set contains `x` and everything it held before |
| HashedSets.InsertDistinct | GraphFaceEnumeration/Graph.swift:151 | insertion keeps a set free of equal members |
| HashedSets.RemoveDistinct | GraphFaceEnumeration/Graph.swift:228 | removal keeps a set free of equal members |
| HashedSets.RemoveMember | GraphFaceEnumerationTests/LineTests.swift:46-47 | in a set without equal members, removing a member removes exactly that member |
| HashedSets.InsertCardinality | GraphFaceEnumerationTests/LineTests.swift:42-45 | `insert` adds one to the count for a new element and nothing for one already contained |
| HashedSets.ContainsEqual | GraphFaceEnumeration/Line.swift:48-51 | `contains` (`HashedSets.Contains`) answers the same for equal elements |
| HashedSets.ContainsAfterInsert | GraphFaceEnumeration/Graph.swift:126 | `contains(y)` after `insert(x)` holds iff the set contained `y` before or `x == y` |
| HashedSets.ContainsAfterRemove | GraphFaceEnumeration/Graph.swift:126 | `contains(y)` after `remove(x)` holds iff some old member not equal to `x` is equal to `y` |
| HashedSets.ReplaceByTwo | GraphFaceEnumeration/Graph.swift:240-242 | inserting two pieces and removing the original leaves both pieces in, the original out, every other member kept, and nothing else new |
| HashedSets.ReplaceByTwoFrame | GraphFaceEnumeration/Graph.swift:256-258 | the same replacement keeps every member not equal to the original and adds only the two pieces, whatever the equality |
| HashedSets.SomeEnumeration | GraphFaceEnumeration/Graph.swift:134 | every finite set has an iteration order that lists each member exactly once |
| HashedSets.EnumerationSize | GraphFaceEnumeration/Graph.swift:134 | an iteration order is exactly as long as the set |
| Lines.Line.Intersection | GraphFaceEnumeration/Line.swift:25-46 | `getIntersection` is nil iff the denominator is 0 or `u` or `v` lies outside `[0, 1]` (endpoints count); otherwise it is `start + u·(end − start)` |
| Lines.NewLine | GraphFaceEnumeration/Line.swift:12-19 | `init?` fails iff `start == end`; otherwise it is the directed segment with those ends and no vertex |
| Lines.Reversed | GraphFaceEnumeration/Line.swift:48-51 | the reversed line is `==` to the line both ways, and is a different value exactly when the line is a proper segment |
| Lines.EqualIsEquivalence | GraphFaceEnumeration/Line.swift:48-51 | line `==` (`Lines.Equal`) is an equivalence, every line equals its reverse, and the confirmed vertex plays no part |
| Lines.EqualIffSameEnds | GraphFaceEnumeration/Line.swift:48-51 | `==` on lines (`Lines.Equal`) holds iff the two lines have the same pair of end points |
| Lines.EqualValid | GraphFaceEnumeration/Line.swift:48-51 | equal lines are both proper segments or both not |
| Lines.ContainsEitherDirection | GraphFaceEnumerationTests/LineTests.swift:37-48 | a set of lines contains a line iff it contains its reverse |
| Lines.IntersectionOnOther | GraphFaceEnumeration/Line.swift:33-45 | the intersection point also lies on the other line, at its parameter `v` |
| Lines.ParamsSwap | GraphFaceEnumeration/Line.swift:27-34 | swapping the lines negates the denominator and exchanges `u` and `v` |
| Lines.IntersectionSymmetric | GraphFaceEnumeration/Line.swift:25-46 | `a.getIntersection(b) == b.getIntersection(a)` in exact arithmetic |
| Lines.IntersectionParams | GraphFaceEnumeration/Line.swift:27-34 | the denominator, `u` and `v` are the cross products of the direction and offset vectors |
| Lines.ParallelLinesDoNotIntersect | GraphFaceEnumerationTests/LineTests.swift:5-10 | the two parallel lines of the test do not intersect |
| Lines.CrossingLinesIntersect | GraphFaceEnumerationTests/LineTests.swift:12-17 | the crossing diagonals of the test intersect |
| Lines.DisjointLinesDoNotIntersect | GraphFaceEnumerationTests/LineTests.swift:19-24 | the disjoint pair of the test does not intersect |
| Edges.Edge.Stripped | GraphFaceEnumeration/Graph.swift:20-23 | the same endpoints and vertices, proper iff the edge is, and no tag at either end |
| Edges.Edge.Opposite | GraphFaceEnumeration/Edge.swift:127-138 | `opposite(v)` is the other endpoint for either endpoint and nil iff `v` is not an endpoint |
| Edges.Edge.CommonVertex | GraphFaceEnumeration/Edge.swift:147-160 | nil iff the edges share no endpoint; otherwise an endpoint of both, `vertexA` first |
| Edges.Edge.Tag | GraphFaceEnumeration/Edge.swift:109-121 | `tag(v, t)` sets `tagA` to 1 when `v == vertexA`, else `tagB` to 1 when `v == vertexB`, else changes nothing; endpoints and the other tag stay |
| Edges.Edge.Intersects | GraphFaceEnumeration/Edge.swift:166-188 | `intesects` is nil iff the denominator is 0 or `u` or `v` lies outside `[0, 1]`; otherwise the vertex `vertexA + u·(vertexB − vertexA)` |
| Edges.NewEdge | GraphFaceEnumeration/Edge.swift:14-22 | `init?` fails iff `vertexA == vertexB`; otherwise the untagged edge between them |
| Edges.EqualIsEquivalence | GraphFaceEnumeration/Edge.swift:46-49 | edge `==` (`Edges.Equal`) is an equivalence, symmetric under swapping the endpoints, and ignores tags |
| Edges.EqualIffSameVertices | GraphFaceEnumeration/Edge.swift:46-53 | `==` on edges (`Edges.Equal`) holds iff `hasVertex` (`Edges.Edge.HasVertex`) answers the same for the two edges at every vertex |
| Edges.EqualEndpoints | GraphFaceEnumeration/Edge.swift:46-53 | equal edges have the same endpoints and are both proper or both not |
| Edges.HasVertexIffOpposite | GraphFaceEnumeration/Edge.swift:127-138 | `opposite(v)` is non-nil iff `hasVertex(v)` |
| Edges.OppositeInvolution | GraphFaceEnumeration/Edge.swift:127-138 | on a proper edge, `opposite(opposite(v)) == v` and the opposite differs from `v` |
| Edges.CommonVertexSelf | GraphFaceEnumeration/Edge.swift:147-153 | `e.commonVertex(e) == e.vertexA` |
| Edges.CommonVertexSymmetric | GraphFaceEnumeration/Edge.swift:147-160 | the edges share a vertex in one order iff in the other; distinct proper edges give the same common vertex both ways |
| Edges.TagIgnoresValue | GraphFaceEnumeration/Edge.swift:109-121 | the tag written does not depend on the pass number; tagging twice equals tagging once; tagging keeps the edge `==` to itself |
| Edges.TagMarksEnd | GraphFaceEnumeration/Edge.swift:109-121 | tagging at an endpoint sets a tag and keeps the endpoints |
| Edges.IntersectsOnLine | GraphFaceEnumeration/Edge.swift:174-187 | the intersection vertex also lies on the line, at its parameter `v` |
| Edges.ClockwiseDegrees | GraphFaceEnumeration/Edge.swift:100-102 | `toClockwiseDegrees(d)` is `-d` or `360 − d` and maps `(-180, 180]` into `[0, 360)` |
| Edges.ClockwiseDegreesInjective | GraphFaceEnumeration/Edge.swift:100-102 | on `(-180, 180]`, equal clockwise degrees come only from equal bearings |
| Edges.Sweep | GraphFaceEnumeration/Edge.swift:91 | the sweep from bearing `b` to `c` is `c − b`, or that plus 360; it lies in `(0, 360]`; it is 360 iff the bearings are equal |
| Edges.SweepComplement | GraphFaceEnumeration/Edge.swift:91 | sweeping there and back adds up to 360, or both are 360 |
| Edges.CalculateAngleClockwise | GraphFaceEnumeration/Edge.swift:60-94 | nil iff the edges share no vertex; 360 for an edge against an equal edge; in `(0, 360]` for a true `atan2` |
| Edges.AngleComplement | GraphFaceEnumeration/Edge.swift:60-94 | for distinct proper edges, the angles from `a` to `b` and from `b` to `a` add up to 360, or both are 360 |
| Edges.RightAngle | GraphFaceEnumerationTests/EdgeTests.swift:18-26 | the test's pair of edges turns by 270 degrees, given the bearings of its two directions |
| Edges.NoAngleWithoutCommonVertex | GraphFaceEnumerationTests/EdgeTests.swift:28-30 | the test's pair of edges without a common vertex has no angle |
| FaceTypes.FaceType.Description | GraphFaceEnumeration/FaceType.swift:23-32 | the description is "inner" iff the case is `inner`, "outer" iff `outer`, "unknown" iff `unknown`, whatever the payload |
| FaceTypes.FaceType.DebugDescription | GraphFaceEnumeration/FaceType.swift:12-21 | "FaceType." followed by the description |
| FaceTypes.DescriptionDeterminesCase | GraphFaceEnumeration/FaceType.swift:12-32 | two values have the same description iff they are the same case, and the same debug description iff the same description |
| FaceTypes.EqualityByPayload | GraphFaceEnumeration/FaceType.swift:4-10 | two `unknown` values are equal iff their payloads are, and the three cases are pairwise distinct |
| Faces.Rounded | GraphFaceEnumeration/Face.swift:51 | `rounded()` is within one half of its argument, with halves rounded away from zero |
| Faces.RoundedProperties | GraphFaceEnumeration/Face.swift:51-55 | rounding leaves whole numbers alone and is symmetric about zero |
| Faces.Face.constructor | GraphFaceEnumeration/Face.swift:8-11 | a new face has no edges and a total of 0 |
| Faces.Face.IsFace | GraphFaceEnumeration/Face.swift:17-38 | `isFace` holds iff there are at least 3 edges, each shares a vertex with the next, and the last shares one with the first |
| Faces.Face.Type | GraphFaceEnumeration/Face.swift:43-60 | `unknown(n, total)` unless the edges form a closed walk; `inner` iff they do and the rounded total is at most 180·(n−2); `outer` iff they do and it equals 180·(n+2) |
| Faces.TriangleTypes | GraphFaceEnumerationTests/GraphTests.swift:60-66 | a closed walk of three edges is `inner` at 180 degrees and `outer` at 900 |
| Faces.ShortWalkUnknown | GraphFaceEnumeration/Face.swift:18-20 | a face of fewer than three edges is `unknown`, whatever its total |
| Arrangements.LineHits | GraphFaceEnumeration/Graph.swift:134-140 | the lines met, in visiting order, are no more than the lines visited |
| Arrangements.EdgeHits | GraphFaceEnumeration/Graph.swift:142-148 | the edges met, in visiting order, are no more than the edges visited |
| Arrangements.LineHitsSnoc | GraphFaceEnumeration/Graph.swift:134-140 | visiting one more line appends its hit exactly when it meets the added line |
| Arrangements.EdgeHitsSnoc | GraphFaceEnumeration/Graph.swift:142-148 | visiting one more edge appends its hit exactly when it meets the added line |
| Arrangements.LineHitIsMeeting | GraphFaceEnumeration/Graph.swift:134-140 | every recorded line hit is a visited line with its true intersection point |
| Arrangements.MeetingIsLineHit | GraphFaceEnumeration/Graph.swift:134-140 | every visited line that meets the added line is recorded, with that point |
| Arrangements.EdgeHitIsMeeting | GraphFaceEnumeration/Graph.swift:142-148 | every recorded edge hit is a visited edge with its true intersection vertex |
| Arrangements.MeetingIsEdgeHit | GraphFaceEnumeration/Graph.swift:142-148 | every visited edge that meets the added line is recorded, with that vertex |
| Arrangements.LinePoints | GraphFaceEnumeration/Graph.swift:137 | the intersection points of the line hits, one per hit, in order |
| Arrangements.EdgePoints | GraphFaceEnumeration/Graph.swift:145 | the points of the edge hits' vertices, one per hit, in order |
| Arrangements.InsertBy | GraphFaceEnumeration/Graph.swift:164-166 | inserting one point into a sorted run adds exactly that point |
| Arrangements.InsertBySorted | GraphFaceEnumeration/Graph.swift:164-166 | inserting into a sorted sequence keeps it sorted |
| Arrangements.InsertByBound | GraphFaceEnumeration/Graph.swift:164-166 | insertion keeps every key above a common lower bound |
| Arrangements.ConsSorted | GraphFaceEnumeration/Graph.swift:164-166 | a least element put before a sorted sequence gives a sorted sequence |
| Arrangements.SortBy | GraphFaceEnumeration/Graph.swift:164-166 | the sort is a permutation of its input and sorted by the key |
| Arrangements.SortByDistance | GraphFaceEnumeration/Graph.swift:163-166 | the intersection points are permuted into non-decreasing distance from the start of the added line |
| Arrangements.SortedUnique | GraphFaceEnumeration/Graph.swift:163-166 | when the distances are all different, the sorted order is the only one, whatever order the points came in |
| Arrangements.CutStep | GraphFaceEnumeration/Graph.swift:169-188 | one point of the cut moves the cursor to that point and adds to the lines or to the edges, never both, and never removes anything |
| Arrangements.CutWalk | GraphFaceEnumeration/Graph.swift:169-188 | the loop of the cut ends at the last point (or stays put for none) and never removes a line or an edge |
| Arrangements.CutWalkSnoc | GraphFaceEnumeration/Graph.swift:169-188 | the cut over one point more is one more step of the loop |
| Arrangements.CutTail | GraphFaceEnumeration/Graph.swift:190-195 | the last leg adds no edge |
| Arrangements.DivideAdded | GraphFaceEnumeration/Graph.swift:162-196 | `divide(_:_:)` never removes a line or an edge |
| Arrangements.LineStep | GraphFaceEnumeration/Graph.swift:199-248 | one pass of `divide(lines:)` takes the line met out of the set, loses no line not `==` to it, marks every new line at the point, makes every new edge end at the point, removes no edge, and makes no edge from an unmarked line |
| Arrangements.DivideLines | GraphFaceEnumeration/Graph.swift:198-250 | `divide(lines:)` removes no edge and every line it adds is marked |
| Arrangements.EdgeStep | GraphFaceEnumeration/Graph.swift:253-262 | cutting an edge fails iff the point is one of its endpoints, and never touches the lines |
| Arrangements.DivideEdges | GraphFaceEnumeration/Graph.swift:252-264 | when `divide(edges:)` does not stop, no hit was at an endpoint of its edge and the lines are untouched |
| Arrangements.AddSpec | GraphFaceEnumeration/Graph.swift:121-160 | `add` stops only for a line not already in the graph (`add(nil)` and a line present never stop) |
| Arrangements.InsertLineValid | GraphFaceEnumeration/Graph.swift:151 | inserting a proper line keeps the graph free of equal members and of degenerate segments |
| Arrangements.InsertEdgeValid | GraphFaceEnumeration/Graph.swift:185 | inserting a proper edge keeps the graph valid |
| Arrangements.CutStepValid | GraphFaceEnumeration/Graph.swift:169-188 | one step of the cut keeps the graph valid |
| Arrangements.CutWalkValid | GraphFaceEnumeration/Graph.swift:169-188 | the whole loop of the cut keeps the graph valid |
| Arrangements.DivideAddedValid | GraphFaceEnumeration/Graph.swift:162-196 | `divide(_:_:)` keeps the graph valid |
| Arrangements.MarkDistinct | GraphFaceEnumeration/Graph.swift:231-232 | marking a line's vertex keeps the lines free of equal members |
| Arrangements.LineStepValid | GraphFaceEnumeration/Graph.swift:199-248 | one pass of `divide(lines:)` keeps the graph valid |
| Arrangements.DivideLinesValid | GraphFaceEnumeration/Graph.swift:198-250 | `divide(lines:)` keeps the graph valid |
| Arrangements.DivideLinesFrame | GraphFaceEnumeration/Graph.swift:198-250 | every line `divide(lines:)` loses is `==` to one of the lines it met |
| Arrangements.EdgeStepValid | GraphFaceEnumeration/Graph.swift:253-262 | one pass of `divide(edges:)` keeps the graph valid |
| Arrangements.DivideEdgesValid | GraphFaceEnumeration/Graph.swift:252-264 | `divide(edges:)` keeps the graph valid when it does not stop |
| Arrangements.DivideEdgesFrame | GraphFaceEnumeration/Graph.swift:252-264 | when `divide(edges:)` does not stop, it keeps every edge not `==` to one it met |
| Arrangements.AddValid | GraphFaceEnumeration/Graph.swift:121-160 | `add` of a proper line keeps the graph valid whenever it does not stop |
| Arrangements.AddUnchanged | GraphFaceEnumeration/Graph.swift:121-128 | `add(nil)` and adding a line already present, in either direction, change nothing |
| Arrangements.NoHitsIffIsolated | GraphFaceEnumeration/Graph.swift:130-150 | no intersection point is collected iff no line and no edge of the graph meets the added line |
| Arrangements.AddIsolatedInserts | GraphFaceEnumeration/Graph.swift:150-153 | a new line that meets nothing is inserted into the lines, and the edges are untouched |
| Arrangements.DivideEdgesFails | GraphFaceEnumeration/Graph.swift:252-264 | `divide(edges:)` stops iff some hit lies on an endpoint of its edge; otherwise it leaves the lines alone |
| Arrangements.EdgeHitAtEndpoint | GraphFaceEnumeration/Graph.swift:142-148 | a recorded edge hit lies on an endpoint iff some edge of the graph meets the added line at one of its endpoints |
| Arrangements.AddFailsIff | GraphFaceEnumeration/Graph.swift:121-160 | `add` stops with `fatalError` iff the line is new and meets some edge at one of its endpoints |
| Arrangements.EdgeStepReplaces | GraphFaceEnumeration/Graph.swift:254-258 | an edge `A-B` cut at `P` is replaced by `A-P` and `P-B` |
| Arrangements.EdgeStepKeepsOthers | GraphFaceEnumeration/Graph.swift:254-258 | cutting an edge keeps every other edge and adds only the two pieces |
| Arrangements.MarkAtEndpoint | GraphFaceEnumeration/Graph.swift:231-232 | an unmarked line met at an endpoint is marked there, not cut; the sets keep their size and contents up to `==` |
| Arrangements.SplitInterior | GraphFaceEnumeration/Graph.swift:234-243 | an unmarked line met inside is replaced by its two halves, both marked at the point |
| Arrangements.SplitMarkedAtStart | GraphFaceEnumeration/Graph.swift:200-213 | a line marked at its start and met at `P` gives the edge from the mark to `P` and the line from `P` to its end; the old line goes |
| Arrangements.SplitMarkedElsewhere | GraphFaceEnumeration/Graph.swift:214-228 | a line marked elsewhere and met at `P` gives the line from its start to `P` and the edge from `P` to its end; the old line goes |
| Arrangements.CutStepPiece | GraphFaceEnumeration/Graph.swift:169-188 | the first point adds the marked line from the cursor, any later one the edge from the cursor |
| Arrangements.CutStepOnlyPiece | GraphFaceEnumeration/Graph.swift:169-188 | one step of the cut adds nothing but that piece |
| Arrangements.CutWalkHasLinePiece | GraphFaceEnumeration/Graph.swift:170-179 | the leg up to the first point is a line marked at that point |
| Arrangements.CutWalkHasEdgePiece | GraphFaceEnumeration/Graph.swift:182-187 | each later leg between consecutive points is an edge |
| Arrangements.CutWalkOnlyPieces | GraphFaceEnumeration/Graph.swift:169-188 | the cut adds nothing but those legs |
| Arrangements.DivideAddedPieces | GraphFaceEnumeration/Graph.swift:162-196 | `divide(_:_:)` adds the first leg as a marked line, each interior leg as an edge and the last leg as a line marked at its start, and nothing else |
| Graphs.Graph.constructor | GraphFaceEnumeration/Graph.swift:8-9 | a new graph has no lines and no edges |
| Graphs.Graph.Reset | GraphFaceEnumeration/Graph.swift:11-14 | `reset` empties both sets, leaving a valid graph |
| Graphs.Graph.Add | GraphFaceEnumeration/Graph.swift:121-160 | for some iteration order of the two sets, the new sets are `AddSpec`'s result, and `ok` is false exactly where it stops; validity is kept |
| Graphs.Graph.DivideAdded | GraphFaceEnumeration/Graph.swift:162-196 | the loop of `divide(_:_:)` computes `Arrangements.DivideAdded` |
| Graphs.Graph.Cut | GraphFaceEnumeration/Graph.swift:169-188 | one pass of that loop is `CutStep` |
| Graphs.Graph.DivideLines | GraphFaceEnumeration/Graph.swift:198-250 | the loop of `divide(lines:)` computes `Arrangements.DivideLines` |
| Graphs.Graph.DivideEdges | GraphFaceEnumeration/Graph.swift:252-264 | the loop of `divide(edges:)` computes `Arrangements.DivideEdges`, `ok` false where it stops |
| Graphs.Graph.FindFaces | GraphFaceEnumeration/Graph.swift:19-96 | the tags are cleared first; no edges give no faces and at most one edge gives none either; the lines and the untagged edges stay; every face is a closed walk of more than two graph edges whose total is the sum of its clockwise turns, each of whose turns, the closing one included, is a tightest clockwise turn at its vertex, and after whose first edge no edge is `==` to it; when finished, every edge end is tagged |
| Graphs.Graph.ClearTags | GraphFaceEnumeration/Graph.swift:19-23 | after the tags are cleared the edges are the untagged copies of the old edges, none has a tag, the lines stay, and the graph stays valid |
| Graphs.Graph.Round | GraphFaceEnumeration/Graph.swift:37-93 | one round appends at most one face to the faces found and appends none when fuel runs out; every face is a found face; the next start, if any, has one more end tagged, and none means every end is tagged |
| Graphs.Graph.Restart | GraphFaceEnumeration/Graph.swift:74-92 | the next start is an edge with an untagged end whose `vertexA` end, if untagged, else its `vertexB` end, is tagged with the pass number, replacing it in the set; none and nothing changed when every end is tagged |
| Graphs.Graph.Advance | GraphFaceEnumeration/Graph.swift:61-71 | the face gets the next edge and its turn; the walk moves to the far end of that edge, which is tagged there and replaces it in the set |
| Graphs.Graph.Close | GraphFaceEnumeration/Graph.swift:52-57 | back at the start edge, after a walk that had not met it before, the last turn completes a face |
| Graphs.Graph.Walk | GraphFaceEnumeration/Graph.swift:38-72 | the face starts with the start edge and no later edge is `==` to it, since the walk stops at its first return; each step takes a tightest clockwise turn, and back at the start edge the closing turn is one too; a face is found iff the walk has more than two edges |
| Graphs.Graph.TagMember | GraphFaceEnumeration/Graph.swift:71 | tagging replaces the edge by its tagged copy and tags no end back out |
| Graphs.LineIntersections | GraphFaceEnumeration/Graph.swift:134-140 | the loop over the lines collects `LineHits` for the order in which it visits them |
| Graphs.EdgeIntersections | GraphFaceEnumeration/Graph.swift:142-148 | the loop over the edges collects `EdgeHits` for the order in which it visits them |
| Graphs.NextEdgeClockwise | GraphFaceEnumeration/Graph.swift:98-114 | an incident edge with the least clockwise angle from the working edge; nil iff no incident edge has an angle |
| Graphs.CollectTurns | GraphFaceEnumeration/Graph.swift:99-105 | every incident edge with an angle is collected, with that angle, and nothing else |
| Graphs.Smallest | GraphFaceEnumeration/Graph.swift:111-113 | the first turn after sorting by angle is one of least angle |
| Graphs.ScanIsTightest | GraphFaceEnumeration/Graph.swift:98-114 | the turn `nextEdgeClockwise` returns is a tightest clockwise turn from the working edge around the vertex, in the graph with its tags cleared |
| Graphs.TightestEqual | GraphFaceEnumeration/Graph.swift:52-53 | a tightest turn onto an edge is a tightest turn onto every edge `==` to it, as the test against the start edge needs |
| Graphs.ExtendTightest | GraphFaceEnumeration/Graph.swift:61-71 | a walk of tightest turns extended by one more tightest turn to the far end of the new edge is still one |
| Graphs.ExtendFirstReturn | GraphFaceEnumeration/Graph.swift:52-62 | appending an edge other than the start edge, as the walk does when the test `currentEdge == startEdge` fails, keeps the start edge at the front only |
| Graphs.SingleEdgeNoFaces | GraphFaceEnumeration/Graph.swift:52-58 | on a graph of at most one edge no face is found: the second edge of a walk would be `==` to its first, where the walk stops (GraphFaceEnumerationTests/GraphTests.swift:32-44 expects 0 faces for one edge) |
| Graphs.Strip | GraphFaceEnumeration/Graph.swift:20-23 | every edge has its untagged copy in the result |
| Graphs.StripMembers | GraphFaceEnumeration/Graph.swift:20-23 | every member of the result is untagged and is the untagged copy of some edge |
| Graphs.StripAtMostOne | GraphFaceEnumeration/Graph.swift:20-23 | clearing the tags of at most one edge leaves at most one edge |
| Graphs.FoundFacesAppend | GraphFaceEnumeration/Graph.swift:56 | appending a found face keeps every face a found face |
| Graphs.StripValid | GraphFaceEnumeration/Graph.swift:20-23 | clearing the tags keeps the edges distinct and proper, leaves no tag, and clearing twice is clearing once |
| Graphs.ReplaceMember | GraphFaceEnumeration/Graph.swift:71 | changing an edge's tags keeps the edges distinct and proper and the untagged graph the same |
| Graphs.ReplaceEnds | GraphFaceEnumeration/Graph.swift:85-91 | changing an edge's tags never brings back an untagged end, and a newly set tag removes that end from the untagged ones |
| Graphs.ExtendWalk | GraphFaceEnumeration/Graph.swift:61-62 | appending an adjacent graph edge extends the walk and adds the turn to it |
| Graphs.CloseWalk | GraphFaceEnumeration/Graph.swift:52-56 | a walk of more than two edges whose last edge meets the first is a closed walk, and its total gains the closing turn |
| Graphs.AngleIgnoresTags | GraphFaceEnumeration/Edge.swift:60-94 | the angle and the common vertex do not depend on the tags |
| Scenarios.TriangleFirst | GraphFaceEnumerationTests/GraphTests.swift:8 | the first side of the triangle goes into the empty graph as a line |
| Scenarios.AddFromEnd | GraphFaceEnumeration/Graph.swift:162-250 | a line drawn from the end of the only line leaves two lines, both marked at the shared point |
| Scenarios.TriangleSecond | GraphFaceEnumerationTests/GraphTests.swift:9 | the second side gives the two lines marked at (10,0) |
| Scenarios.TriangleThirdSort | GraphFaceEnumeration/Graph.swift:163-166 | whichever order the crossings of the third side were found in, sorted by distance they are (0,10), (0,0) |
| Scenarios.TriangleThirdCut | GraphFaceEnumeration/Graph.swift:162-196 | cut at those points, the third side becomes the edge (0,10)-(0,0) and leaves no line |
| Scenarios.TriangleThirdLines | GraphFaceEnumeration/Graph.swift:198-228 | visiting the first side and then the second, both marked lines become edges |
| Scenarios.TriangleThirdLinesReversed | GraphFaceEnumeration/Graph.swift:198-228 | visiting the second side first gives the same two edges |
| Scenarios.TriangleThirdForward | GraphFaceEnumerationTests/GraphTests.swift:5-17 | with the first side visited first, the third side gives no lines and the three edges of the triangle |
| Scenarios.TriangleThirdBackward | GraphFaceEnumerationTests/GraphTests.swift:5-17 | with the second side visited first, the result is the same |
| Scenarios.TriangleThird | GraphFaceEnumerationTests/GraphTests.swift:5-17 | in whichever order the graph's lines are visited, the third side gives no lines and the three edges of the triangle |
| Scenarios.TriangleEdges | GraphFaceEnumerationTests/GraphTests.swift:12-17 | the three edges are distinct under `==`, so the graph holds three |
| Scenarios.AddToEmpty | GraphFaceEnumeration/Graph.swift:150-153 | any line goes into the empty graph as a line, for every iteration order |
| Scenarios.AddBesideOne | GraphFaceEnumeration/Graph.swift:150-153 | a new line that misses the only line joins it, for every iteration order |
| Scenarios.AddBesideTwo | GraphFaceEnumeration/Graph.swift:150-153 | a new line that misses both lines joins them, for every iteration order |
| Scenarios.ParallelFirst | GraphFaceEnumerationTests/LineTests.swift:60-62 | the first line of the test gives 1 line and 0 edges |
| Scenarios.ParallelSecond | GraphFaceEnumerationTests/LineTests.swift:64-66 | the second gives 2 lines and 0 edges |
| Scenarios.ParallelThird | GraphFaceEnumerationTests/LineTests.swift:68-70 | the third gives 3 lines and 0 edges |
| Scenarios.AcrossHits | GraphFaceEnumeration/Graph.swift:134-140 | in whichever order the three lines are visited, the crossing line meets them in that order, at (2,2), (8,2) and (3,2) |
| Scenarios.AcrossSort | GraphFaceEnumeration/Graph.swift:163-166 | whichever order those crossings were found in, sorted by distance from (2,2) they are (2,2), (3,2), (8,2) |
| Scenarios.AcrossCut | GraphFaceEnumeration/Graph.swift:162-196 | cut at those points, found in any order, the crossing line becomes the edges (2,2)-(3,2) and (3,2)-(8,2) and leaves no line |
| Scenarios.SplitAmong | GraphFaceEnumeration/Graph.swift:234-243 | an unmarked line met strictly inside, among lines equal to neither it nor its halves, is replaced by its two halves |
| Scenarios.MarkAmong | GraphFaceEnumeration/Graph.swift:230-233 | an unmarked line met at its end is replaced by the same line marked there |
| Scenarios.AcrossStepA | GraphFaceEnumeration/Graph.swift:234-243 | whatever happened to the other two lines, the first is split at (2,2) |
| Scenarios.AcrossStepB | GraphFaceEnumeration/Graph.swift:230-233 | whatever happened to the other two lines, the second is marked at (8,2) |
| Scenarios.AcrossStepC | GraphFaceEnumeration/Graph.swift:234-243 | whatever happened to the other two lines, the third is split at (3,2) |
| Scenarios.AcrossLines | GraphFaceEnumeration/Graph.swift:198-250 | in whichever order the hits come, of the lines it crossed two are split in two and one is marked at its end |
| Scenarios.EnumerationOfThree | GraphFaceEnumeration/Graph.swift:134 | an iteration order of a set of three is one of its six orders |
| Scenarios.AcrossFourthIn | GraphFaceEnumerationTests/LineTests.swift:72-74 | for each order of visiting the three lines, the fourth line gives those five lines and two edges |
| Scenarios.AcrossFourth | GraphFaceEnumerationTests/LineTests.swift:72-74 | in whichever order the graph's lines are visited, the fourth line gives those five lines and two edges |
| Scenarios.AcrossCounts | GraphFaceEnumerationTests/LineTests.swift:72-74 | those are 5 distinct lines and 2 edges |

## Left out

- `sqrt` and `Edge.length`: distances are squared; `length` is never read by the core.
- `atan2` and `toDegrees` (GraphFaceEnumeration/Edge.swift:85-86, 96-98): the bearing in degrees is the parameter `bearing`.
- `CGFloat` rounding errors: coordinates are exact reals.
- `hashValue` of `Line`, `Edge` and `Vertex`: they are consistent with `==`, so a set by `==` describes the behaviour.
- `description`/`debugDescription` of `Line`, `Edge`, `Vertex` and `Face`, and `os_log`: output only.
- `assertionFailure` in `tag` and `opposite`: in the model these return the edge unchanged or nil, as a release build does.
- GraphFaceEnumeration/ViewController.swift is not part of this model. It is the UIKit host: touches, drawing and colours.
- The object identity of `Line` and `Edge`, and the aliasing between faces and the graph's edges: edges are values, and a tagged edge replaces its untagged copy in the set.
- Graphs.Graph.FindFaces: `fuel` bounds the number of walk steps. The model does not prove that a walk always returns to its start edge, and says `finished == false` when the fuel runs out.
- Graphs.Graph.FindFaces: on a graph of two or more edges it does not say how many faces there are or that they are distinct (GraphFaceEnumerationTests/GraphTests.swift:56-68 expects 2 for the triangle). Which walks close there depends on the values of `atan2`, which the model takes as the parameter `bearing`, and on the order in which Swift visits the set. For at most one edge the contract does give 0 faces.
- Graphs.Graph.Restart: the restart edge is any edge with an untagged end. Swift's `first(where:)` takes the first one in the set's iteration order, which it does not specify.
- Graphs.Graph.FindFaces: it does not say which walks are started or that each face is found once; each face it returns is stated to be a closed walk of tightest turns, not which of those walks appear.
- Graphs.NextEdgeClockwise: only "a least angle" is stated. Which one of several equal least angles is taken depends on how Swift's sort orders them.
- Vertex `init(CGPoint)`: the datatype constructor `Vertex(point)`. CGPoint `+=` is `Offset` on the point.
- `testLineCreation`, `testLinesFaceDetection` and `testRectangleWithCross` (GraphFaceEnumerationTests/GraphTests.swift:20-87): their sequences of `add` calls are not computed. The 0 faces `testLinesFaceDetection` expects of its one-edge graph follows from the contract of `Graphs.Graph.FindFaces`.
