/**
 * Edges of the graph (GraphFaceEnumeration/Edge.swift): undirected segments
 * between two vertices, each end carrying an optional walk tag.
 */
module Edges {
  import opened Wrappers
  import opened Vertices
  import opened Lines

  /**
   * An edge. `tagA`/`tagB` are the tags `findFaces` leaves at the end near
   * `vertexA`/`vertexB`. The Swift `length` is a square root that nothing in
   * the core reads, so it is not a field here.
   */
  datatype Edge = Edge(vertexA: Vertex, vertexB: Vertex, tagA: Option<nat>, tagB: Option<nat>)
  {
    /** What `init?` guarantees: the two endpoints differ. */
    predicate Valid()
    {
      vertexA != vertexB
    }

    /** `hasVertex`: `v` is one of the two endpoints. */
    predicate HasVertex(v: Vertex)
    {
      v == vertexA || v == vertexB
    }

    /**
     * The same edge with both tags cleared: it has the same endpoints, so it
     * is valid together with the edge, and it carries no tag.
     */
    function Stripped(): (r: Edge)
      ensures r.vertexA == vertexA && r.vertexB == vertexB
      ensures forall v :: r.HasVertex(v) <==> HasVertex(v)
      ensures r.Valid() <==> Valid()
      ensures r.tagA.None? && r.tagB.None?
    {
      Edge(vertexA, vertexB, None, None)
    }

    /**
     * `opposite`: the other endpoint; none for a vertex that is not an
     * endpoint (a debug-build assertion failure in Swift). `vertexA` is
     * checked first.
     */
    function Opposite(v: Vertex): (r: Option<Vertex>)
      ensures r.Some? <==> HasVertex(v)
      ensures v == vertexA ==> r == Some(vertexB)
      ensures v == vertexB ==> r == Some(vertexA)
    {
      if v == vertexA then Some(vertexB)
      else if v == vertexB then Some(vertexA)
      else None
    }

    /**
     * `commonVertex`: an endpoint both edges share, `vertexA` when it is
     * shared; none when they share no endpoint.
     */
    function CommonVertex(other: Edge): (r: Option<Vertex>)
      ensures r.None? <==> !other.HasVertex(vertexA) && !other.HasVertex(vertexB)
      ensures r.Some? ==> HasVertex(r.value) && other.HasVertex(r.value)
      ensures other.HasVertex(vertexA) ==> r == Some(vertexA)
    {
      if vertexA == other.vertexA || vertexA == other.vertexB then Some(vertexA)
      else if vertexB == other.vertexA || vertexB == other.vertexB then Some(vertexB)
      else None
    }

    /**
     * `tag(vertex:withTag:)`: marks the end at `v` with the tag 1, whatever
     * `t` is, checking `vertexA` first. A vertex that is not an endpoint
     * changes nothing (release-build behaviour of the assertion failure).
     */
    function Tag(v: Vertex, t: nat): (r: Edge)
      ensures r.vertexA == vertexA && r.vertexB == vertexB
      ensures v == vertexA ==> r.tagA == Some(1) && r.tagB == tagB
      ensures v != vertexA && v == vertexB ==> r.tagA == tagA && r.tagB == Some(1)
      ensures !HasVertex(v) ==> r == this
      ensures (r.tagA.None? ==> tagA.None?) && (r.tagB.None? ==> tagB.None?)
    {
      if v == vertexA then this.(tagA := Some(1))
      else if v == vertexB then this.(tagB := Some(1))
      else this
    }

    /** The edge as a segment from `vertexA` to `vertexB`. */
    function AsLine(): Line
    {
      Line(vertexA.point, vertexB.point, None)
    }

    /**
     * `intesects`: the point where the edge meets `line`, as a vertex. The
     * arithmetic is that of `Line.getIntersection` with the edge as the
     * first segment: none for parallel segments or a crossing outside either
     * of them, endpoints included; otherwise `vertexA + u * (vertexB - vertexA)`.
     */
    function Intersects(line: Line): (r: Option<Vertex>)
      ensures r.None? <==>
        || AsLine().Denominator(line) == 0.0
        || !(0.0 <= AsLine().ParamU(line) <= 1.0)
        || !(0.0 <= AsLine().ParamV(line) <= 1.0)
      ensures r.Some? ==>
        r.value.point == Along(vertexA.point, AsLine().ParamU(line), Minus(vertexB.point, vertexA.point))
    {
      match AsLine().Intersection(line)
      case None => None
      case Some(p) => Some(Vertex(p))
    }
  }

  /** `init?`: fails exactly when both vertices coincide; a new edge has no tags. */
  function NewEdge(a: Vertex, b: Vertex): (r: Option<Edge>)
    ensures r.None? <==> a == b
    ensures r.Some? ==> r.value == Edge(a, b, None, None) && r.value.Valid()
  {
    if a == b then None else Some(Edge(a, b, None, None))
  }

  /** `==`: edges are equal when they join the same two vertices, in either order. */
  predicate Equal(a: Edge, b: Edge)
  {
    (a.vertexA == b.vertexA && a.vertexB == b.vertexB) || (a.vertexA == b.vertexB && a.vertexB == b.vertexA)
  }

  /** Edge equality is an equivalence that ignores direction and tags. */
  lemma EqualIsEquivalence()
    ensures HashedSets.IsEquivalence(Equal)
    ensures forall e: Edge :: Equal(e, Edge(e.vertexB, e.vertexA, e.tagA, e.tagB))
    ensures forall a: Edge, b: Edge :: Equal(a, b) <==> Equal(a.Stripped(), b)
  {
  }

  /** Equal edges are valid together and have the same endpoints. */
  lemma EqualEndpoints(a: Edge, b: Edge)
    requires Equal(a, b)
    ensures a.Valid() <==> b.Valid()
    ensures forall v :: a.HasVertex(v) <==> b.HasVertex(v)
  {
  }

  /** `==` on edges is exactly having the same vertices in the sense of `hasVertex`. */
  lemma EqualIffSameVertices(a: Edge, b: Edge)
    ensures Equal(a, b) <==> forall v :: a.HasVertex(v) <==> b.HasVertex(v)
  {
    if forall v :: a.HasVertex(v) <==> b.HasVertex(v) {
      assert b.HasVertex(a.vertexA) && b.HasVertex(a.vertexB);
      assert a.HasVertex(b.vertexA) && a.HasVertex(b.vertexB);
    }
  }

  /** An endpoint has an opposite exactly when it is an endpoint of the edge. */
  lemma HasVertexIffOpposite(e: Edge, v: Vertex)
    ensures e.HasVertex(v) <==> e.Opposite(v).Some?
  {
  }

  /** Going to the opposite end twice comes back, and never stays at the same vertex. */
  lemma OppositeInvolution(e: Edge, v: Vertex)
    requires e.Valid() && e.HasVertex(v)
    ensures e.Opposite(v).value != v
    ensures e.HasVertex(e.Opposite(v).value)
    ensures e.Opposite(e.Opposite(v).value) == Some(v)
  {
  }

  /** The common vertex of an edge with itself is `vertexA`. */
  lemma CommonVertexSelf(e: Edge)
    ensures e.CommonVertex(e) == Some(e.vertexA)
  {
  }

  /** Sharing a vertex is symmetric, and two distinct valid edges share at most one. */
  lemma CommonVertexSymmetric(a: Edge, b: Edge)
    ensures a.CommonVertex(b).Some? <==> b.CommonVertex(a).Some?
    ensures a.Valid() && b.Valid() && !Equal(a, b) ==> a.CommonVertex(b) == b.CommonVertex(a)
  {
  }

  /** The tag value passed in is never stored, and tagging the same end twice changes nothing more. */
  lemma TagIgnoresValue(e: Edge, v: Vertex, t: nat, t': nat)
    ensures e.Tag(v, t) == e.Tag(v, t')
    ensures e.Tag(v, t).Tag(v, t') == e.Tag(v, t)
    ensures Equal(e.Tag(v, t), e)
  {
  }

  /** Tagging an endpoint leaves a tag on the edge and changes nothing but the tags. */
  lemma TagMarksEnd(e: Edge, v: Vertex, t: nat)
    requires e.HasVertex(v)
    ensures e.Tag(v, t).tagA.Some? || e.Tag(v, t).tagB.Some?
    ensures e.Tag(v, t).Stripped() == e.Stripped()
  {
  }

  /** The crossing point `Intersects` returns lies on the line as well. */
  lemma IntersectsOnLine(e: Edge, line: Line)
    requires e.Intersects(line).Some?
    ensures e.Intersects(line).value.point ==
      Along(line.start, e.AsLine().ParamV(line), Minus(line.end, line.start))
  {
    IntersectionOnOther(e.AsLine(), line);
  }

  // ---------------------------------------------------------------------
  // Clockwise angles (Edge.swift:60-102)
  // ---------------------------------------------------------------------

  /** `atan2` in degrees takes values in (-180, 180]. */
  ghost predicate IsAtan2Range(bearing: (real, real) -> real)
  {
    forall y, x :: -180.0 < bearing(y, x) <= 180.0
  }

  /** `toClockwiseDegrees`: a counter-clockwise bearing `d` as a clockwise one. */
  function ClockwiseDegrees(d: real): (r: real)
    ensures r + d == 0.0 || r + d == 360.0
    ensures -180.0 < d <= 180.0 ==> 0.0 <= r < 360.0
  {
    if d <= 0.0 then d * -1.0 else 360.0 - d
  }

  /** On (-180, 180] the conversion loses nothing: different bearings stay different. */
  lemma ClockwiseDegreesInjective(d: real, e: real)
    requires -180.0 < d <= 180.0 && -180.0 < e <= 180.0
    ensures ClockwiseDegrees(d) == ClockwiseDegrees(e) <==> d == e
  {
  }

  /** The clockwise sweep from bearing `b` to bearing `c` (Edge.swift:91). */
  function Sweep(b: real, c: real): (r: real)
    ensures r == c - b || r == c - b + 360.0
    ensures b == c ==> r == 360.0
    ensures 0.0 <= b < 360.0 && 0.0 <= c < 360.0 ==> 0.0 < r <= 360.0 && (r == 360.0 <==> b == c)
  {
    if b < c then c - b else (360.0 - b) + c
  }

  /** Sweeping there and back is a full turn, unless both bearings are equal. */
  lemma SweepComplement(b: real, c: real)
    ensures b != c ==> Sweep(b, c) + Sweep(c, b) == 360.0
    ensures b == c ==> Sweep(b, c) == Sweep(c, b) == 360.0
  {
  }

  /** The clockwise bearing of `v` seen from `centre` (Edge.swift:79-89). */
  function BearingFrom(centre: Vertex, v: Vertex, bearing: (real, real) -> real): real
  {
    var shifted := Offset(v, Point(centre.point.x * -1.0, centre.point.y * -1.0));
    ClockwiseDegrees(bearing(shifted.point.y, shifted.point.x))
  }

  /**
   * `calculateAngleClockwise`: the clockwise angle from `e` to `other` around
   * their common vertex, with `bearing(y, x)` standing for `atan2` in degrees.
   */
  function CalculateAngleClockwise(e: Edge, other: Edge, bearing: (real, real) -> real): (r: Option<real>)
    ensures r.None? <==> e.CommonVertex(other).None?
    ensures Equal(e, other) ==> r == Some(360.0)
    ensures IsAtan2Range(bearing) && r.Some? ==> 0.0 < r.value <= 360.0
  {
    match e.CommonVertex(other)
    case None => None
    case Some(centre) =>
      var b := if e.vertexA == centre then e.vertexB else e.vertexA;
      var c := if other.vertexA == centre then other.vertexB else other.vertexA;
      Some(Sweep(BearingFrom(centre, b, bearing), BearingFrom(centre, c, bearing)))
  }

  /**
   * Measured from the other edge, the angle between two distinct valid edges
   * is the rest of a full turn (EdgeTests.swift:38-68 check pairs summing to 360).
   */
  lemma AngleComplement(a: Edge, b: Edge, bearing: (real, real) -> real)
    requires a.Valid() && b.Valid() && !Equal(a, b)
    requires CalculateAngleClockwise(a, b, bearing).Some?
    ensures CalculateAngleClockwise(b, a, bearing).Some?
    ensures
      || CalculateAngleClockwise(a, b, bearing).value + CalculateAngleClockwise(b, a, bearing).value == 360.0
      || CalculateAngleClockwise(a, b, bearing).value == CalculateAngleClockwise(b, a, bearing).value == 360.0
  {
    CommonVertexSymmetric(a, b);
    var centre := a.CommonVertex(b).value;
    var x := if a.vertexA == centre then a.vertexB else a.vertexA;
    var y := if b.vertexA == centre then b.vertexB else b.vertexA;
    SweepComplement(BearingFrom(centre, x, bearing), BearingFrom(centre, y, bearing));
  }

  /**
   * The right angle of EdgeTests.swift:19-26: from (1,1)-(9,1) to
   * (1,1)-(1,13) the clockwise angle is 270 degrees, given that `atan2` puts
   * the shifted ends (8,0) and (0,12) at 0 and 90 degrees.
   */
  lemma RightAngle(bearing: (real, real) -> real)
    requires bearing(0.0, 8.0) == 0.0 && bearing(12.0, 0.0) == 90.0
    ensures CalculateAngleClockwise(
      Edge(FromInts(1, 1), FromInts(9, 1), None, None),
      Edge(FromInts(1, 1), FromInts(1, 13), None, None), bearing) == Some(270.0)
  {
    var centre := FromInts(1, 1);
    assert Offset(FromInts(9, 1), Point(centre.point.x * -1.0, centre.point.y * -1.0)) == Vertex(Point(8.0, 0.0));
    assert Offset(FromInts(1, 13), Point(centre.point.x * -1.0, centre.point.y * -1.0)) == Vertex(Point(0.0, 12.0));
  }

  /** Edges without a common vertex have no angle (EdgeTests.swift:28-30). */
  lemma NoAngleWithoutCommonVertex(bearing: (real, real) -> real)
    ensures CalculateAngleClockwise(
      Edge(FromInts(1, 1), FromInts(9, 1), None, None),
      Edge(FromInts(5, 2), FromInts(8, 7), None, None), bearing).None?
  {
  }
}
