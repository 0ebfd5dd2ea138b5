/**
 * Drawn lines (GraphFaceEnumeration/Line.swift): directed segments that are not
 * yet part of the graph, with their parametric intersection.
 */
module Lines {
  import opened Wrappers
  import opened Vertices
  import HashedSets

  /**
   * A line from `start` to `end`. The graph sets `vertex` to mark the endpoint
   * that is already a confirmed vertex of the arrangement.
   */
  datatype Line = Line(start: Point, end: Point, vertex: Option<Vertex>) {

    /** What `init?` guarantees of every line: it is not a single point. */
    predicate Valid()
    {
      start != end
    }

    /** The cross product of both directions; zero exactly for parallel lines. */
    function Denominator(other: Line): real
    {
      Cross(Minus(end, start), Minus(other.end, other.start))
    }

    /** Where the crossing lies along `this`: 0 at `start`, 1 at `end`. */
    function ParamU(other: Line): real
      requires Denominator(other) != 0.0
    {
      Cross(Minus(other.start, start), Minus(other.end, other.start)) / Denominator(other)
    }

    /** Where the crossing lies along `other`: 0 at its start, 1 at its end. */
    function ParamV(other: Line): real
      requires Denominator(other) != 0.0
    {
      Cross(Minus(other.start, start), Minus(end, start)) / Denominator(other)
    }

    /**
     * `getIntersection`: the crossing point of the two segments, endpoints
     * included; none for parallel lines or a crossing outside either segment.
     */
    function Intersection(other: Line): (r: Option<Point>)
      ensures r.None? <==>
        || Denominator(other) == 0.0
        || !(0.0 <= ParamU(other) <= 1.0)
        || !(0.0 <= ParamV(other) <= 1.0)
      ensures r.Some? ==> r.value == Along(start, ParamU(other), Minus(end, start))
    {
      var distance := Denominator(other);
      if distance == 0.0 then
        None
      else
        var u := ParamU(other);
        var v := ParamV(other);
        if u < 0.0 || u > 1.0 then
          None
        else if v < 0.0 || v > 1.0 then
          None
        else
          Some(Along(start, u, Minus(end, start)))
    }
  }

  /** `init?`: fails exactly when both points coincide; a new line has no vertex. */
  function NewLine(start: Point, end: Point): (r: Option<Line>)
    ensures r.None? <==> start == end
    ensures r.Some? ==> r.value.start == start && r.value.end == end && r.value.vertex.None?
    ensures r.Some? ==> r.value.Valid()
  {
    if start == end then None else Some(Line(start, end, None))
  }

  /** `==`: lines are equal when they join the same two points, in either direction. */
  predicate Equal(a: Line, b: Line)
  {
    (a.start == b.start && a.end == b.end) || (a.start == b.end && a.end == b.start)
  }

  /**
   * The same segment drawn the other way round: `==` to the line, yet a
   * different value unless the line is a single point.
   */
  function Reversed(l: Line): (r: Line)
    ensures Equal(l, r) && Equal(r, l)
    ensures r == l <==> !l.Valid()
  {
    Line(l.end, l.start, l.vertex)
  }

  /** `==` on lines is exactly having the same pair of end points. */
  lemma EqualIffSameEnds(a: Line, b: Line)
    ensures Equal(a, b) <==> {a.start, a.end} == {b.start, b.end}
  {
    if {a.start, a.end} == {b.start, b.end} {
      assert a.start in {b.start, b.end} && a.end in {b.start, b.end};
      assert b.start in {a.start, a.end} && b.end in {a.start, a.end};
    }
  }

  /** Line equality is an equivalence that ignores direction and the marked vertex. */
  lemma EqualIsEquivalence()
    ensures HashedSets.IsEquivalence(Equal)
    ensures forall l :: Equal(l, Reversed(l))
    ensures forall a, b :: Equal(a, b) <==> Equal(a.(vertex := None), b)
  {
  }

  /** Lines that are equal span the same two endpoints, so they are valid together. */
  lemma EqualValid(a: Line, b: Line)
    requires Equal(a, b)
    ensures a.Valid() <==> b.Valid()
  {
  }

  /** A set contains a line exactly when it contains the reversed line. */
  lemma ContainsEitherDirection(s: set<Line>, l: Line)
    ensures HashedSets.Contains(s, l, Equal) <==> HashedSets.Contains(s, Reversed(l), Equal)
  {
    if HashedSets.Contains(s, l, Equal) {
      var m :| m in s && Equal(m, l);
      assert Equal(m, Reversed(l));
    }
    if HashedSets.Contains(s, Reversed(l), Equal) {
      var m :| m in s && Equal(m, Reversed(l));
      assert Equal(m, l);
    }
  }

  /** The crossing point that `Intersection` returns lies on `other` as well, at parameter `ParamV`. */
  lemma IntersectionOnOther(a: Line, b: Line)
    requires a.Intersection(b).Some?
    ensures a.Intersection(b).value == Along(b.start, a.ParamV(b), Minus(b.end, b.start))
  {
    var d, d2, w := Minus(a.end, a.start), Minus(b.end, b.start), Minus(b.start, a.start);
    var den := a.Denominator(b);
    var u, v := a.ParamU(b), a.ParamV(b);
    assert u * den == Cross(w, d2);
    assert v * den == Cross(w, d);
    assert (u * d.x - v * d2.x) * den == w.x * den;
    assert (u * d.y - v * d2.y) * den == w.y * den;
  }

  /** The parameters of `b` against `a` are those of `a` against `b`, swapped. */
  lemma ParamsSwap(a: Line, b: Line)
    requires a.Denominator(b) != 0.0
    ensures b.Denominator(a) == -a.Denominator(b)
    ensures b.ParamU(a) == a.ParamV(b) && b.ParamV(a) == a.ParamU(b)
  {
    var den := a.Denominator(b);
    var w := Minus(b.start, a.start);
    var w' := Minus(a.start, b.start);
    assert Cross(w', Minus(a.end, a.start)) == -Cross(w, Minus(a.end, a.start));
    assert Cross(w', Minus(b.end, b.start)) == -Cross(w, Minus(b.end, b.start));
    assert b.ParamU(a) == (-Cross(w, Minus(a.end, a.start))) / (-den);
    assert b.ParamV(a) == (-Cross(w, Minus(b.end, b.start))) / (-den);
  }

  /** Intersecting two lines does not depend on which one asks. */
  lemma IntersectionSymmetric(a: Line, b: Line)
    ensures a.Intersection(b) == b.Intersection(a)
  {
    if a.Denominator(b) != 0.0 {
      ParamsSwap(a, b);
      if a.Intersection(b).Some? {
        IntersectionOnOther(a, b);
      }
    } else {
      assert b.Denominator(a) == -a.Denominator(b);
    }
  }

  /** Parallel lines do not intersect (LineTests.swift:5-10). */
  lemma ParallelLinesDoNotIntersect()
    ensures Line(Point(5.0, 0.0), Point(15.0, 0.0), None).Intersection(Line(Point(5.0, 1.0), Point(15.0, 1.0), None)).None?
  {
  }

  /** The intersection parameters of two lines, from their direction and offset vectors. */
  lemma IntersectionParams(a: Line, b: Line, d: Point, d2: Point, w: Point)
    requires Minus(a.end, a.start) == d && Minus(b.end, b.start) == d2 && Minus(b.start, a.start) == w
    requires Cross(d, d2) != 0.0
    ensures a.Denominator(b) == Cross(d, d2)
    ensures a.ParamU(b) == Cross(w, d2) / Cross(d, d2)
    ensures a.ParamV(b) == Cross(w, d) / Cross(d, d2)
  {
  }

  /** Two segments crossing inside both of them intersect (LineTests.swift:12-17). */
  lemma CrossingLinesIntersect()
    ensures Line(Point(1.0, 1.0), Point(50.0, 50.0), None).Intersection(Line(Point(25.0, 50.0), Point(50.0, 1.0), None)).Some?
  {
    calc { Cross(Point(49.0, 49.0), Point(25.0, -49.0)); -3626.0; }
    calc { Cross(Point(24.0, 49.0), Point(25.0, -49.0)); -2401.0; }
    calc { Cross(Point(24.0, 49.0), Point(49.0, 49.0)); -1225.0; }
    IntersectionParams(Line(Point(1.0, 1.0), Point(50.0, 50.0), None), Line(Point(25.0, 50.0), Point(50.0, 1.0), None),
      Point(49.0, 49.0), Point(25.0, -49.0), Point(24.0, 49.0));
  }

  /** Segments whose supporting lines cross outside one of them do not intersect (LineTests.swift:19-24). */
  lemma DisjointLinesDoNotIntersect()
    ensures Line(Point(0.0, 0.0), Point(5.0, 5.0), None).Intersection(Line(Point(3.0, 2.0), Point(5.0, 0.0), None)).None?
  {
    calc { Cross(Point(5.0, 5.0), Point(2.0, -2.0)); -20.0; }
    calc { Cross(Point(3.0, 2.0), Point(2.0, -2.0)); -10.0; }
    calc { Cross(Point(3.0, 2.0), Point(5.0, 5.0)); 5.0; }
    IntersectionParams(Line(Point(0.0, 0.0), Point(5.0, 5.0), None), Line(Point(3.0, 2.0), Point(5.0, 0.0), None),
      Point(5.0, 5.0), Point(2.0, -2.0), Point(3.0, 2.0));
  }
}
