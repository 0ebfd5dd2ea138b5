/**
 * The sequences of `add` calls in GraphTests.swift:5-17 and
 * LineTests.swift:50-75, computed on the model of `add` step by step, for
 * every iteration order of the graph's sets.
 */
module Scenarios {
  import opened Wrappers
  import opened Vertices
  import opened HashedSets
  import opened Lines
  import opened Edges
  import opened Arrangements

  function P(x: int, y: int): Point
  {
    Point(x as real, y as real)
  }

  function V(x: int, y: int): Vertex
  {
    Vertex(P(x, y))
  }

  /**
   * The crossing of two lines, from the directions `da` and `db` of both,
   * the offset `w` between their starts, and the denominator `d` and the
   * parameters `u` and `v` of the crossing, all given as numbers.
   */
  lemma MeetsAt(a: Line, b: Line, da: Point, db: Point, w: Point, d: real, u: real, v: real)
    requires Minus(a.end, a.start) == da && Minus(b.end, b.start) == db && Minus(b.start, a.start) == w
    requires Cross(da, db) == d != 0.0
    requires Cross(w, db) == u * d && Cross(w, da) == v * d
    requires 0.0 <= u <= 1.0 && 0.0 <= v <= 1.0
    ensures a.Intersection(b) == Some(Along(a.start, u, da))
  {
    assert a.Denominator(b) == d;
    assert a.ParamU(b) == u * d / d == u;
    assert a.ParamV(b) == v * d / d == v;
  }

  /** The first line of the triangle goes into an empty graph. */
  lemma TriangleFirst()
    ensures AddSpec(Arrangement({}, {}), NewLine(P(0, 0), P(10, 0)), [], []) ==
      Some(Arrangement({Line(P(0, 0), P(10, 0), None)}, {}))
  {
    var l := Line(P(0, 0), P(10, 0), None);
    assert !Contains({}, l, Lines.Equal);
    assert LineHits([], l) == [] && EdgeHits([], l) == [];
    assert LinePoints([]) + EdgePoints([]) == [];
    assert Insert({}, l, Lines.Equal) == {l};
  }

  /**
   * `add` of a line the graph does not contain yet, once its hits, their
   * points and the outcome of cutting are known.
   */
  lemma AddVia(s: Arrangement, l: Line, lo: seq<Line>, eo: seq<Edge>, lh: seq<LineHit>, eh: seq<EdgeHit>, pts: seq<Point>,
               r: Option<Arrangement>)
    requires !Contains(s.lines, l, Lines.Equal)
    requires LineHits(lo, l) == lh && EdgeHits(eo, l) == eh
    requires LinePoints(lh) + EdgePoints(eh) == pts != []
    requires DivideEdges(DivideLines(DivideAdded(s, l, pts), lh), eh) == r
    ensures AddSpec(s, Some(l), lo, eo) == r
  {
  }

  /** The points of one or two line hits and no edge hits. */
  lemma PointsOfHits(h1: LineHit, h2: LineHit)
    ensures LinePoints([h1]) + EdgePoints([]) == [h1.point]
    ensures LinePoints([h1, h2]) + EdgePoints([]) == [h1.point, h2.point]
  {
    assert [h1, h2][..1] == [h1];
  }

  /** The empty set is iterated as `[]`... */
  lemma EnumerationOfNone<T>(xs: seq<T>)
    requires Enumerates(xs, {})
    ensures xs == []
  {
    EnumerationSize(xs, {});
  }

  /** ...a set of one as that one... */
  lemma EnumerationOfOne<T>(xs: seq<T>, a: T)
    requires Enumerates(xs, {a})
    ensures xs == [a]
  {
    EnumerationSize(xs, {a});
    assert xs[0] in xs;
  }

  /** ...and a set of two in one of two orders. */
  lemma EnumerationOfTwo<T>(xs: seq<T>, a: T, b: T)
    requires a != b && Enumerates(xs, {a, b})
    ensures xs == [a, b] || xs == [b, a]
  {
    EnumerationSize(xs, {a, b});
    assert xs[0] in xs && xs[1] in xs;
  }

  /** No line of `order`, visited in that order, meets `l` when none of them does. */
  lemma NoLineHits(order: seq<Line>, l: Line)
    requires forall i :: 0 <= i < |order| ==> order[i].Intersection(l).None?
    ensures LineHits(order, l) == []
  {
    if order != [] {
      NoLineHits(order[..|order| - 1], l);
    }
  }

  /** What `add` does once no line and no edge meets the added line. */
  lemma AddMeetingNothing(s: Arrangement, line: Option<Line>, l: Line, lo: seq<Line>, r: Arrangement)
    requires line == Some(l) && !Contains(s.lines, l, Lines.Equal) && LineHits(lo, l) == []
    requires r == s.(lines := Insert(s.lines, l, Lines.Equal))
    ensures AddSpec(s, line, lo, []) == Some(r)
  {
    assert EdgeHits([], l) == [];
    assert LinePoints([]) + EdgePoints([]) == [];
  }

  /** Into an empty graph a line goes as it is, whatever the iteration order. */
  lemma AddToEmpty(line: Option<Line>, l: Line, lo: seq<Line>, eo: seq<Edge>)
    requires Enumerates(lo, {}) && Enumerates(eo, {}) && line == Some(l)
    ensures AddSpec(Arrangement({}, {}), line, lo, eo) == Some(Arrangement({l}, {}))
  {
    EnumerationOfNone(lo);
    EnumerationOfNone(eo);
    assert !Contains({}, l, Lines.Equal);
    assert Insert({}, l, Lines.Equal) == {l};
    AddMeetingNothing(Arrangement({}, {}), line, l, [], Arrangement({l}, {}));
  }

  /** A line that meets the only line `a` of an edgeless graph nowhere is added beside it. */
  lemma AddBesideOne(a: Line, line: Option<Line>, l: Line, lo: seq<Line>, eo: seq<Edge>)
    requires Enumerates(lo, {a}) && Enumerates(eo, {}) && line == Some(l)
    requires !Lines.Equal(a, l) && a.Intersection(l).None?
    ensures AddSpec(Arrangement({a}, {}), line, lo, eo) == Some(Arrangement({a, l}, {}))
  {
    EnumerationOfOne(lo, a);
    EnumerationOfNone(eo);
    NoLineHits([a], l);
    assert !Contains({a}, l, Lines.Equal);
    assert Insert({a}, l, Lines.Equal) == {a, l};
    AddMeetingNothing(Arrangement({a}, {}), line, l, [a], Arrangement({a, l}, {}));
  }

  /** A line that meets neither line of an edgeless graph of two is added beside them. */
  lemma AddBesideTwo(a: Line, b: Line, line: Option<Line>, l: Line, lo: seq<Line>, eo: seq<Edge>)
    requires a != b && Enumerates(lo, {a, b}) && Enumerates(eo, {}) && line == Some(l)
    requires !Lines.Equal(a, l) && !Lines.Equal(b, l)
    requires a.Intersection(l).None? && b.Intersection(l).None?
    ensures AddSpec(Arrangement({a, b}, {}), line, lo, eo) == Some(Arrangement({a, b, l}, {}))
  {
    EnumerationOfTwo(lo, a, b);
    EnumerationOfNone(eo);
    NoLineHits([a, b], l);
    NoLineHits([b, a], l);
    assert !Contains({a, b}, l, Lines.Equal);
    assert Insert({a, b}, l, Lines.Equal) == {a, b, l};
    AddMeetingNothing(Arrangement({a, b}, {}), line, l, lo, Arrangement({a, b, l}, {}));
  }

  /** `divide(_:_:)` once the sorted points and the outcome of the walk are known. */
  lemma DivideAddedVia(s: Arrangement, added: Line, pts: seq<Point>, sorted: seq<Point>, c: Cursor)
    requires SortByDistance(pts, added.start) == sorted && sorted != []
    requires CutWalk(Cursor(s, added.start), sorted, sorted[0]) == c && c.current == added.end
    ensures DivideAdded(s, added, pts) == c.arr
  {
  }

  /** A walk over the points `a`, `b`, starting at its first point `a`: one edge. */
  lemma CutTwo(s: Arrangement, a: Point, b: Point)
    requires a != b
    ensures CutWalk(Cursor(s, a), [a, b], a) ==
      Cursor(s.(edges := Insert(s.edges, Edge(Vertex(a), Vertex(b), None, None), Edges.Equal)), b)
  {
    var pts := [a, b];
    assert pts[..1] == [a] && pts[..2] == pts && pts[..1][..0] == [];
    CutWalkSnoc(Cursor(s, a), pts, 0, a);
    CutWalkSnoc(Cursor(s, a), pts, 1, a);
  }

  /** A walk over `a`, `b`, `c`, starting at its first point `a`: two edges. */
  lemma CutThree(s: Arrangement, a: Point, b: Point, c: Point)
    requires a != b && a != c && b != c
    ensures CutWalk(Cursor(s, a), [a, b, c], a) ==
      Cursor(s.(edges := Insert(Insert(s.edges, Edge(Vertex(a), Vertex(b), None, None), Edges.Equal),
                                Edge(Vertex(b), Vertex(c), None, None), Edges.Equal)), c)
  {
    var pts := [a, b, c];
    CutTwo(s, a, b);
    assert pts[..2] == [a, b] && pts[..3] == pts;
    CutWalkSnoc(Cursor(s, a), pts, 2, a);
  }

  /** Inserting into the empty set. */
  lemma InsertOne(e: Edge)
    ensures Insert({}, e, Edges.Equal) == {e}
  {
  }

  /** Without edge hits `divide(edges:)` changes nothing. */
  lemma NoEdgeHits(s: Arrangement)
    ensures DivideEdges(s, []) == Some(s)
  {
  }

  /** Cut only at its own start, a line stays whole and is marked there. */
  lemma CutAtStart(s: Arrangement, l: Line)
    requires l.Valid() && !Contains(s.lines, l.(vertex := Some(Vertex(l.start))), Lines.Equal)
    ensures DivideAdded(s, l, [l.start]) == s.(lines := s.lines + {l.(vertex := Some(Vertex(l.start)))})
  {
    var p := l.start;
    assert SortBy([], DistanceFrom(p)) == [];
    assert SortByDistance([p], p) == [p];
    var c0 := Cursor(s, p);
    assert [p][..0] == [];
    assert CutWalk(c0, [p], p) == CutStep(c0, p, p) == c0;
  }

  /** The only hit of `divide(lines:)` marks an unmarked line met at its end. */
  lemma MarkOnlyHit(s: Arrangement, l: Line)
    requires l in s.lines && l.vertex.None?
    ensures DivideLines(s, [LineHit(l, l.end)]) == s.(lines := (s.lines - {l}) + {l.(vertex := Some(Vertex(l.end)))})
  {
    assert [LineHit(l, l.end)][..0] == [];
  }

  /**
   * A line drawn from the end of the only line of the graph, meeting it
   * nowhere else, stays a line; both lines are marked at the shared point.
   */
  lemma AddFromEnd(l1: Line, l2: Line)
    requires l1.Valid() && l1.vertex.None? && l2.Valid() && l2.vertex.None?
    requires l2.start == l1.end && l2.end != l1.start
    requires l1.Intersection(l2) == Some(l1.end)
    ensures AddSpec(Arrangement({l1}, {}), Some(l2), [l1], []) ==
      Some(Arrangement({l1.(vertex := Some(Vertex(l1.end))), l2.(vertex := Some(Vertex(l1.end)))}, {}))
  {
    var p := l1.end;
    var l1m, l2m := l1.(vertex := Some(Vertex(p))), l2.(vertex := Some(Vertex(p)));
    var s1 := Arrangement({l1}, {});
    var hit := LineHit(l1, p);
    assert !Lines.Equal(l1, l2);
    LineHitsSnoc([], l1, l2, Some(p));
    assert [] + [l1] == [l1];
    assert LinePoints([hit]) + EdgePoints([]) == [p];
    assert !Lines.Equal(l1, l2m);
    CutAtStart(s1, l2);
    var d := Arrangement({l1, l2m}, {});
    MarkOnlyHit(d, l1);
    assert l1m != l2m;
    assert (d.lines - {l1}) + {l1m} == {l1m, l2m};
    assert DivideAdded(s1, l2, [p]) == d;
    assert DivideLines(d, [hit]) == Arrangement({l1m, l2m}, {});
    NoEdgeHits(Arrangement({l1m, l2m}, {}));
    AddVia(s1, l2, [l1], [], [hit], [], [p], Some(Arrangement({l1m, l2m}, {})));
  }

  /**
   * The second line of the triangle starts where the first ends: it is kept
   * as a line marked at (10,0), and the first line is marked there too.
   */
  lemma TriangleSecond()
    ensures AddSpec(Arrangement({Line(P(0, 0), P(10, 0), None)}, {}), NewLine(P(10, 0), P(0, 10)),
                    [Line(P(0, 0), P(10, 0), None)], []) ==
      Some(Arrangement({Line(P(0, 0), P(10, 0), Some(V(10, 0))), Line(P(10, 0), P(0, 10), Some(V(10, 0)))}, {}))
  {
    var l1, l2 := Line(P(0, 0), P(10, 0), None), Line(P(10, 0), P(0, 10), None);
    MeetsAt(l1, l2, P(10, 0), P(-10, 10), P(10, 0), 100.0, 1.0, 0.0);
    AddFromEnd(l1, l2);
  }

  /** Two lines visited, in this order, meeting `added` at `pa` and `pb`. */
  lemma HitsOfTwo(a: Line, b: Line, added: Line, pa: Point, pb: Point)
    requires a.Intersection(added) == Some(pa) && b.Intersection(added) == Some(pb)
    ensures LineHits([a, b], added) == [LineHit(a, pa), LineHit(b, pb)]
  {
    LineHitsSnoc([], a, added, Some(pa));
    assert [] + [a] == [a];
    LineHitsSnoc([a], b, added, Some(pb));
    assert [a] + [b] == [a, b];
  }

  /** The two sides drawn first, both marked at (10,0), the closing side, and the three edges. */
  const Marked1 := Line(P(0, 0), P(10, 0), Some(V(10, 0)))
  const Marked2 := Line(P(10, 0), P(0, 10), Some(V(10, 0)))
  const Closing := Line(P(0, 10), P(0, 0), None)
  const Side1 := Edge(V(0, 0), V(10, 0), None, None)
  const Side2 := Edge(V(10, 0), V(0, 10), None, None)
  const Side3 := Edge(V(0, 10), V(0, 0), None, None)

  /** The closing line meets the first line at (0,0), where the first line starts... */
  lemma TriangleThirdMeetsFirst()
    ensures Marked1.Intersection(Closing) == Some(P(0, 0))
  {
    assert Marked1.start == P(0, 0) && Marked1.end == P(10, 0) && Closing.start == P(0, 10) && Closing.end == P(0, 0);
    MeetsAt(Marked1, Closing, P(10, 0), P(0, -10), P(0, 10), -100.0, 0.0, 1.0);
  }

  /** ...and the second line at (0,10), where the second line ends. */
  lemma TriangleThirdMeetsSecond()
    ensures Marked2.Intersection(Closing) == Some(P(0, 10))
  {
    assert Marked2.start == P(10, 0) && Marked2.end == P(0, 10) && Closing.start == P(0, 10) && Closing.end == P(0, 0);
    MeetsAt(Marked2, Closing, P(-10, 10), P(0, -10), P(-10, 10), 100.0, 1.0, 0.0);
  }

  /** In whichever order the two points were found, (0,10) is nearer to (0,10) and comes first. */
  lemma TriangleThirdSort(pts: seq<Point>)
    requires multiset(pts) == multiset{P(0, 0), P(0, 10)}
    ensures SortByDistance(pts, P(0, 10)) == [P(0, 10), P(0, 0)]
  {
    var key, b := DistanceFrom(P(0, 10)), [P(0, 10), P(0, 0)];
    assert DistanceSquared(P(0, 10), P(0, 0)) == 0.0 * 0.0 + 10.0 * 10.0;
    assert DistanceSquared(P(0, 10), P(0, 10)) == 0.0 * 0.0 + 0.0 * 0.0;
    assert key(b[0]) < key(b[1]);
    assert multiset(b) == multiset{P(0, 0), P(0, 10)};
    SortedUnique(SortByDistance(pts, P(0, 10)), [P(0, 10), P(0, 0)], key);
  }

  /**
   * Cut at its start and at its end, the closing line leaves no line behind
   * it and becomes one edge.
   */
  lemma TriangleThirdCut(s: Arrangement, pts: seq<Point>)
    requires s.edges == {} && multiset(pts) == multiset{P(0, 0), P(0, 10)}
    ensures DivideAdded(s, Closing, pts) == s.(edges := {Side3})
  {
    TriangleThirdSort(pts);
    CutTwo(s, P(0, 10), P(0, 0));
    InsertOne(Side3);
    DivideAddedVia(s, Closing, pts, [P(0, 10), P(0, 0)], Cursor(s.(edges := {Side3}), P(0, 0)));
  }

  /**
   * Both lines are marked, at a point other than the one the closing line
   * meets them at: each becomes an edge from its mark to that point, and no
   * line is left. The first line is visited first here...
   */
  lemma TriangleThirdLines()
    ensures DivideLines(Arrangement({Marked1, Marked2}, {Side3}), [LineHit(Marked1, P(0, 0)), LineHit(Marked2, P(0, 10))]) ==
      Arrangement({}, {Side1, Side2, Side3})
  {
    var h1, h2 := LineHit(Marked1, P(0, 0)), LineHit(Marked2, P(0, 10));
    assert Marked1 == Line(P(0, 0), P(10, 0), Some(V(10, 0))) && Marked2 == Line(P(10, 0), P(0, 10), Some(V(10, 0)));
    assert Side1 == Edge(V(0, 0), V(10, 0), None, None) && Side2 == Edge(V(10, 0), V(0, 10), None, None);
    assert [h1, h2][..1] == [h1] && [h1][..0] == [];
    var d1 := LineStep(Arrangement({Marked1, Marked2}, {Side3}), h1);
    assert !Lines.Equal(Marked2, Marked1) && !Edges.Equal(Side3, Side1);
    assert Remove({Marked1, Marked2}, Marked1, Lines.Equal) == {Marked2};
    assert d1 == Arrangement({Marked2}, {Side3, Side1});
    assert !Edges.Equal(Side3, Side2) && !Edges.Equal(Side1, Side2);
    assert Remove({Marked2}, Marked2, Lines.Equal) == {};
    assert LineStep(d1, h2) == Arrangement({}, {Side3, Side1, Side2});
    assert DivideLines(Arrangement({Marked1, Marked2}, {Side3}), [h1]) == d1;
    assert DivideLines(Arrangement({Marked1, Marked2}, {Side3}), [h1, h2]) == LineStep(d1, h2);
  }

  /** ...and the second line first here, with the same outcome. */
  lemma TriangleThirdLinesReversed()
    ensures DivideLines(Arrangement({Marked1, Marked2}, {Side3}), [LineHit(Marked2, P(0, 10)), LineHit(Marked1, P(0, 0))]) ==
      Arrangement({}, {Side1, Side2, Side3})
  {
    var h1, h2 := LineHit(Marked1, P(0, 0)), LineHit(Marked2, P(0, 10));
    assert Marked1 == Line(P(0, 0), P(10, 0), Some(V(10, 0))) && Marked2 == Line(P(10, 0), P(0, 10), Some(V(10, 0)));
    assert Side1 == Edge(V(0, 0), V(10, 0), None, None) && Side2 == Edge(V(10, 0), V(0, 10), None, None);
    assert [h2, h1][..1] == [h2] && [h2][..0] == [];
    var d1 := LineStep(Arrangement({Marked1, Marked2}, {Side3}), h2);
    assert !Lines.Equal(Marked1, Marked2) && !Edges.Equal(Side3, Side2);
    assert Remove({Marked1, Marked2}, Marked2, Lines.Equal) == {Marked1};
    assert d1 == Arrangement({Marked1}, {Side3, Side2});
    assert !Edges.Equal(Side3, Side1) && !Edges.Equal(Side2, Side1);
    assert Remove({Marked1}, Marked1, Lines.Equal) == {};
    assert LineStep(d1, h1) == Arrangement({}, {Side3, Side2, Side1});
    assert DivideLines(Arrangement({Marked1, Marked2}, {Side3}), [h2]) == d1;
    assert DivideLines(Arrangement({Marked1, Marked2}, {Side3}), [h2, h1]) == LineStep(d1, h1);
  }

  /** The closing line is not yet in the graph. */
  lemma TriangleThirdNew()
    ensures NewLine(P(0, 10), P(0, 0)) == Some(Closing)
    ensures !Contains({Marked1, Marked2}, Closing, Lines.Equal)
  {
    assert !Lines.Equal(Marked1, Closing) && !Lines.Equal(Marked2, Closing);
  }

  /** The closing line is new, cutting it leaves one edge, and there are no edges to cut. */
  lemma TriangleThirdFacts(s: Arrangement, pts: seq<Point>)
    requires s == Arrangement({Marked1, Marked2}, {}) && multiset(pts) == multiset{P(0, 0), P(0, 10)}
    ensures NewLine(P(0, 10), P(0, 0)) == Some(Closing) && !Contains(s.lines, Closing, Lines.Equal)
    ensures DivideAdded(s, Closing, pts) == Arrangement({Marked1, Marked2}, {Side3})
    ensures EdgeHits([], Closing) == []
    ensures DivideEdges(Arrangement({}, {Side1, Side2, Side3}), []) == Some(Arrangement({}, {Side1, Side2, Side3}))
  {
    TriangleThirdNew();
    TriangleThirdCut(s, pts);
    NoEdgeHits(Arrangement({}, {Side1, Side2, Side3}));
  }

  /** The closing line with the first line visited first... */
  lemma TriangleThirdForward(lo: seq<Line>)
    requires lo == [Marked1, Marked2]
    ensures AddSpec(Arrangement({Marked1, Marked2}, {}), NewLine(P(0, 10), P(0, 0)), lo, []) ==
      Some(Arrangement({}, {Side1, Side2, Side3}))
  {
    var s, r := Arrangement({Marked1, Marked2}, {}), Arrangement({}, {Side1, Side2, Side3});
    var hits, pts := [LineHit(Marked1, P(0, 0)), LineHit(Marked2, P(0, 10))], [P(0, 0), P(0, 10)];
    assert && NewLine(P(0, 10), P(0, 0)) == Some(Closing) && !Contains(s.lines, Closing, Lines.Equal)
           && EdgeHits([], Closing) == [] && DivideEdges(DivideLines(DivideAdded(s, Closing, pts), hits), []) == Some(r) by {
      TriangleThirdFacts(s, pts);
      TriangleThirdLines();
    }
    assert LinePoints(hits) + EdgePoints([]) == pts by {
      PointsOfHits(hits[0], hits[1]);
    }
    assert LineHits(lo, Closing) == hits by {
      TriangleThirdMeetsFirst();
      TriangleThirdMeetsSecond();
      HitsOfTwo(Marked1, Marked2, Closing, P(0, 0), P(0, 10));
    }
    AddVia(s, Closing, lo, [], hits, [], pts, Some(r));
  }

  /** ...and second. */
  lemma TriangleThirdBackward(lo: seq<Line>)
    requires lo == [Marked2, Marked1]
    ensures AddSpec(Arrangement({Marked1, Marked2}, {}), NewLine(P(0, 10), P(0, 0)), lo, []) ==
      Some(Arrangement({}, {Side1, Side2, Side3}))
  {
    var s, r := Arrangement({Marked1, Marked2}, {}), Arrangement({}, {Side1, Side2, Side3});
    var hits, pts := [LineHit(Marked2, P(0, 10)), LineHit(Marked1, P(0, 0))], [P(0, 10), P(0, 0)];
    assert && NewLine(P(0, 10), P(0, 0)) == Some(Closing) && !Contains(s.lines, Closing, Lines.Equal)
           && EdgeHits([], Closing) == [] && DivideEdges(DivideLines(DivideAdded(s, Closing, pts), hits), []) == Some(r) by {
      TriangleThirdFacts(s, pts);
      TriangleThirdLinesReversed();
    }
    assert LinePoints(hits) + EdgePoints([]) == pts by {
      PointsOfHits(hits[0], hits[1]);
    }
    assert LineHits(lo, Closing) == hits by {
      TriangleThirdMeetsFirst();
      TriangleThirdMeetsSecond();
      HitsOfTwo(Marked2, Marked1, Closing, P(0, 10), P(0, 0));
    }
    AddVia(s, Closing, lo, [], hits, [], pts, Some(r));
  }

  /**
   * The closing line of the triangle, drawn from (0,10) to (0,0), turns the
   * two marked lines and itself into the three edges of the triangle, in
   * whichever order the two lines are visited.
   */
  lemma TriangleThird(lo: seq<Line>, eo: seq<Edge>)
    requires Enumerates(lo, {Marked1, Marked2}) && Enumerates(eo, {})
    ensures AddSpec(Arrangement({Marked1, Marked2}, {}), NewLine(P(0, 10), P(0, 0)), lo, eo) ==
      Some(Arrangement({}, {Side1, Side2, Side3}))
  {
    assert Marked1.end != Marked2.end;
    EnumerationOfTwo(lo, Marked1, Marked2);
    EnumerationOfNone(eo);
    if lo == [Marked1, Marked2] {
      TriangleThirdForward(lo);
    } else {
      TriangleThirdBackward(lo);
    }
  }

  /**
   * After the three lines of GraphTests.swift:5-17 the graph holds no line
   * and three edges, no two of them equal: one per side of the triangle.
   */
  lemma TriangleEdges()
    ensures |{Side1, Side2, Side3}| == 3 && Distinct({Side1, Side2, Side3}, Edges.Equal)
  {
  }

  // ---------------------------------------------------------------------
  // LineTests.swift:50-75: three parallel lines, then one across them
  // ---------------------------------------------------------------------

  const LineA := Line(P(2, 1), P(2, 3), None)
  const LineB := Line(P(8, 1), P(8, 2), None)
  const LineC := Line(P(3, 1), P(3, 3), None)
  const LineD := Line(P(2, 2), P(8, 2), None)
  const LineA1 := Line(P(2, 1), P(2, 2), Some(V(2, 2)))
  const LineA2 := Line(P(2, 2), P(2, 3), Some(V(2, 2)))
  const LineBm := Line(P(8, 1), P(8, 2), Some(V(8, 2)))
  const LineC1 := Line(P(3, 1), P(3, 2), Some(V(3, 2)))
  const LineC2 := Line(P(3, 2), P(3, 3), Some(V(3, 2)))

  /** Lines with parallel directions `da` and `db` do not intersect. */
  lemma ParallelTo(a: Line, b: Line, da: Point, db: Point)
    requires Minus(a.end, a.start) == da && Minus(b.end, b.start) == db && Cross(da, db) == 0.0
    ensures a.Intersection(b).None?
  {
    assert a.Denominator(b) == 0.0;
  }

  /** The first line goes into the empty graph, whatever the iteration order. */
  lemma ParallelFirst(lo: seq<Line>, eo: seq<Edge>)
    requires Enumerates(lo, {}) && Enumerates(eo, {})
    ensures AddSpec(Arrangement({}, {}), NewLine(P(2, 1), P(2, 3)), lo, eo) == Some(Arrangement({LineA}, {}))
  {
    assert NewLine(P(2, 1), P(2, 3)) == Some(LineA);
    AddToEmpty(NewLine(P(2, 1), P(2, 3)), LineA, lo, eo);
  }

  /** The second line, and how it differs from the first. */
  lemma ParallelSecondFacts()
    ensures NewLine(P(8, 1), P(8, 2)) == Some(LineB) && !Lines.Equal(LineA, LineB)
  {
  }

  /** The second line is parallel to the first: both stay lines, whatever the iteration order. */
  lemma ParallelSecond(lo: seq<Line>, eo: seq<Edge>)
    requires Enumerates(lo, {LineA}) && Enumerates(eo, {})
    ensures AddSpec(Arrangement({LineA}, {}), NewLine(P(8, 1), P(8, 2)), lo, eo) == Some(Arrangement({LineA, LineB}, {}))
  {
    ParallelSecondFacts();
    ParallelTo(LineA, LineB, P(0, 2), P(0, 1));
    AddBesideOne(LineA, NewLine(P(8, 1), P(8, 2)), LineB, lo, eo);
  }

  /** The third line, and how it differs from the first two. */
  lemma ParallelThirdFacts()
    ensures NewLine(P(3, 1), P(3, 3)) == Some(LineC) && !Lines.Equal(LineA, LineC) && !Lines.Equal(LineB, LineC)
    ensures LineA != LineB
  {
  }

  /** The third line is parallel to both: three lines, whatever the iteration order. */
  lemma ParallelThird(lo: seq<Line>, eo: seq<Edge>)
    requires Enumerates(lo, {LineA, LineB}) && Enumerates(eo, {})
    ensures AddSpec(Arrangement({LineA, LineB}, {}), NewLine(P(3, 1), P(3, 3)), lo, eo) ==
      Some(Arrangement({LineA, LineB, LineC}, {}))
  {
    ParallelThirdFacts();
    ParallelTo(LineA, LineC, P(0, 2), P(0, 2));
    ParallelTo(LineB, LineC, P(0, 1), P(0, 2));
    AddBesideTwo(LineA, LineB, NewLine(P(3, 1), P(3, 3)), LineC, lo, eo);
  }

  /** The fourth line crosses the first inside it, at (2,2), its own start... */
  lemma AcrossMeetsA()
    ensures LineA.Intersection(LineD) == Some(P(2, 2))
  {
    MeetsAt(LineA, LineD, P(0, 2), P(6, 0), P(0, 1), -12.0, 0.5, 0.0);
  }

  /** ...the second at (8,2), the second's end and its own... */
  lemma AcrossMeetsB()
    ensures LineB.Intersection(LineD) == Some(P(8, 2))
  {
    MeetsAt(LineB, LineD, P(0, 1), P(6, 0), P(-6, 1), -6.0, 1.0, 1.0);
  }

  /** ...and the third inside it, at (3,2). */
  lemma AcrossMeetsC()
    ensures LineC.Intersection(LineD) == Some(P(3, 2))
  {
    MeetsAt(LineC, LineD, P(0, 2), P(6, 0), P(-1, 1), -12.0, 0.5, 1.0 / 6.0);
  }

  /** Three lines visited, in this order, meeting `added` at `pa`, `pb` and `pc`. */
  lemma HitsOfThree(a: Line, b: Line, c: Line, added: Line, pa: Point, pb: Point, pc: Point)
    requires a.Intersection(added) == Some(pa) && b.Intersection(added) == Some(pb) && c.Intersection(added) == Some(pc)
    ensures LineHits([a, b, c], added) == [LineHit(a, pa), LineHit(b, pb), LineHit(c, pc)]
  {
    HitsOfTwo(a, b, added, pa, pb);
    LineHitsSnoc([a, b], c, added, Some(pc));
    assert [a, b] + [c] == [a, b, c];
  }

  /** The points of three line hits and no edge hits. */
  lemma PointsOfThree(hits: seq<LineHit>)
    requires |hits| == 3
    ensures LinePoints(hits) + EdgePoints([]) == [hits[0].point, hits[1].point, hits[2].point]
  {
    assert hits[..2] == [hits[0], hits[1]] && hits[..2][..1] == [hits[0]];
  }

  /** In whichever order they were found, the crossings sorted by distance from (2,2) are (2,2), (3,2), (8,2). */
  lemma AcrossSort(pts: seq<Point>)
    requires multiset(pts) == multiset{P(2, 2), P(8, 2), P(3, 2)}
    ensures SortByDistance(pts, P(2, 2)) == [P(2, 2), P(3, 2), P(8, 2)]
  {
    var key, b := DistanceFrom(P(2, 2)), [P(2, 2), P(3, 2), P(8, 2)];
    assert DistanceSquared(P(2, 2), P(2, 2)) == 0.0 * 0.0 + 0.0 * 0.0;
    assert DistanceSquared(P(2, 2), P(3, 2)) == -1.0 * -1.0 + 0.0 * 0.0;
    assert DistanceSquared(P(2, 2), P(8, 2)) == -6.0 * -6.0 + 0.0 * 0.0;
    assert key(b[0]) < key(b[1]) < key(b[2]);
    assert multiset(b) == multiset{P(2, 2), P(8, 2), P(3, 2)};
    SortedUnique(SortByDistance(pts, P(2, 2)), b, key);
  }

  /**
   * Cut at (2,2), (3,2) and (8,2), the fourth line becomes the two edges
   * between them and leaves no line behind.
   */
  lemma AcrossCut(s: Arrangement, pts: seq<Point>)
    requires s.edges == {} && multiset(pts) == multiset{P(2, 2), P(8, 2), P(3, 2)}
    ensures DivideAdded(s, LineD, pts) ==
      s.(edges := {Edge(V(2, 2), V(3, 2), None, None), Edge(V(3, 2), V(8, 2), None, None)})
  {
    AcrossSort(pts);
    CutThree(s, P(2, 2), P(3, 2), P(8, 2));
    AcrossEdges();
    DivideAddedVia(s, LineD, pts, [P(2, 2), P(3, 2), P(8, 2)],
                   Cursor(s.(edges := {Edge(V(2, 2), V(3, 2), None, None), Edge(V(3, 2), V(8, 2), None, None)}), P(8, 2)));
  }

  /** The two edges of the fourth line differ, so both are inserted. */
  lemma AcrossEdges()
    ensures Insert(Insert({}, Edge(V(2, 2), V(3, 2), None, None), Edges.Equal), Edge(V(3, 2), V(8, 2), None, None), Edges.Equal) ==
      {Edge(V(2, 2), V(3, 2), None, None), Edge(V(3, 2), V(8, 2), None, None)}
  {
    var e1, e2 := Edge(V(2, 2), V(3, 2), None, None), Edge(V(3, 2), V(8, 2), None, None);
    assert Insert({}, e1, Edges.Equal) == {e1};
    assert !Edges.Equal(e1, e2);
  }

  /** `divide(lines:)` over three hits is three steps. */
  lemma DivideThree(s: Arrangement, h1: LineHit, h2: LineHit, h3: LineHit)
    ensures DivideLines(s, [h1, h2, h3]) == LineStep(LineStep(LineStep(s, h1), h2), h3)
  {
    assert [h1, h2, h3][..2] == [h1, h2];
    assert [h1, h2][..1] == [h1];
    assert [h1][..0] == [];
    assert DivideLines(s, [h1]) == LineStep(s, h1);
    assert DivideLines(s, [h1, h2]) == LineStep(LineStep(s, h1), h2);
  }

  /**
   * An unmarked line met strictly inside, among lines none of which equals
   * it or either of its halves, is replaced by its two halves.
   */
  lemma SplitAmong(rest: set<Line>, l: Line, p: Point, edges: set<Edge>)
    requires l.vertex.None? && l.start != p && l.end != p && l.start != l.end
    requires forall m :: m in rest ==>
      !Lines.Equal(m, l) && !Lines.Equal(m, Line(l.start, p, Some(Vertex(p)))) && !Lines.Equal(m, Line(p, l.end, Some(Vertex(p))))
    ensures LineStep(Arrangement(rest + {l}, edges), LineHit(l, p)) ==
      Arrangement(rest + {Line(l.start, p, Some(Vertex(p))), Line(p, l.end, Some(Vertex(p)))}, edges)
  {
    var a, b := Line(l.start, p, Some(Vertex(p))), Line(p, l.end, Some(Vertex(p)));
    assert !Lines.Equal(l, a) && !Lines.Equal(l, b) && !Lines.Equal(a, b) && Lines.Equal(l, l);
    var t1 := Insert(rest + {l}, a, Lines.Equal);
    assert t1 == rest + {l, a};
    var t2 := Insert(t1, b, Lines.Equal);
    assert t2 == rest + {l, a, b};
    assert Remove(t2, l, Lines.Equal) == rest + {a, b};
  }

  /** An unmarked line met at one of its endpoints is marked there; the other lines stay. */
  lemma MarkAmong(rest: set<Line>, l: Line, p: Point, edges: set<Edge>)
    requires l.vertex.None? && (l.start == p || l.end == p) && l !in rest
    ensures LineStep(Arrangement(rest + {l}, edges), LineHit(l, p)) ==
      Arrangement(rest + {l.(vertex := Some(Vertex(p)))}, edges)
  {
    assert (rest + {l}) - {l} == rest;
  }

  /** What stands for each of the three lines once the fourth has (or has not yet) been through it. */
  function LinesForA(done: bool): set<Line>
  {
    if done then {LineA1, LineA2} else {LineA}
  }

  function LinesForB(done: bool): set<Line>
  {
    if done then {LineBm} else {LineB}
  }

  function LinesForC(done: bool): set<Line>
  {
    if done then {LineC1, LineC2} else {LineC}
  }

  function AcrossState(a: bool, b: bool, c: bool): set<Line>
  {
    LinesForA(a) + LinesForB(b) + LinesForC(c)
  }

  /** The first line, crossed inside at (2,2), is replaced by its two halves, whatever was done before. */
  lemma AcrossStepA(b: bool, c: bool, edges: set<Edge>)
    ensures LineStep(Arrangement(AcrossState(false, b, c), edges), LineHit(LineA, P(2, 2))) ==
      Arrangement(AcrossState(true, b, c), edges)
  {
    var rest := LinesForB(b) + LinesForC(c);
    assert LineA.start == P(2, 1) && LineA.end == P(2, 3) && LineA.vertex.None?;
    assert LineA1 == Line(LineA.start, P(2, 2), Some(Vertex(P(2, 2)))) && LineA2 == Line(P(2, 2), LineA.end, Some(Vertex(P(2, 2))));
    assert rest <= {LineB, LineBm, LineC, LineC1, LineC2};
    assert forall m :: m in {LineB, LineBm, LineC, LineC1, LineC2} ==>
      !Lines.Equal(m, LineA) && !Lines.Equal(m, LineA1) && !Lines.Equal(m, LineA2);
    SplitAmong(rest, LineA, P(2, 2), edges);
    assert AcrossState(false, b, c) == rest + {LineA};
    assert AcrossState(true, b, c) == rest + {LineA1, LineA2};
  }

  /** The second line, met at its end (8,2), is marked there, whatever was done before. */
  lemma AcrossStepB(a: bool, c: bool, edges: set<Edge>)
    ensures LineStep(Arrangement(AcrossState(a, false, c), edges), LineHit(LineB, P(8, 2))) ==
      Arrangement(AcrossState(a, true, c), edges)
  {
    var rest := LinesForA(a) + LinesForC(c);
    assert LineB.end == P(8, 2) && LineB.vertex.None? && LineBm == LineB.(vertex := Some(Vertex(P(8, 2))));
    assert rest <= {LineA, LineA1, LineA2, LineC, LineC1, LineC2};
    assert LineB !in {LineA, LineA1, LineA2, LineC, LineC1, LineC2};
    MarkAmong(rest, LineB, P(8, 2), edges);
    assert AcrossState(a, false, c) == rest + {LineB};
    assert AcrossState(a, true, c) == rest + {LineBm};
  }

  /** The third line, crossed inside at (3,2), is replaced by its two halves, whatever was done before. */
  lemma AcrossStepC(a: bool, b: bool, edges: set<Edge>)
    ensures LineStep(Arrangement(AcrossState(a, b, false), edges), LineHit(LineC, P(3, 2))) ==
      Arrangement(AcrossState(a, b, true), edges)
  {
    var rest := LinesForA(a) + LinesForB(b);
    assert LineC.start == P(3, 1) && LineC.end == P(3, 3) && LineC.vertex.None?;
    assert LineC1 == Line(LineC.start, P(3, 2), Some(Vertex(P(3, 2)))) && LineC2 == Line(P(3, 2), LineC.end, Some(Vertex(P(3, 2))));
    assert rest <= {LineA, LineA1, LineA2, LineB, LineBm};
    assert forall m :: m in {LineA, LineA1, LineA2, LineB, LineBm} ==>
      !Lines.Equal(m, LineC) && !Lines.Equal(m, LineC1) && !Lines.Equal(m, LineC2);
    SplitAmong(rest, LineC, P(3, 2), edges);
    assert AcrossState(a, b, false) == rest + {LineC};
    assert AcrossState(a, b, true) == rest + {LineC1, LineC2};
  }

  /** `xs` is `a`, `b`, `c` in one of the six orders. */
  predicate Permutes3<T(==)>(xs: seq<T>, a: T, b: T, c: T)
  {
    xs == [a, b, c] || xs == [a, c, b] || xs == [b, a, c] || xs == [b, c, a] || xs == [c, a, b] || xs == [c, b, a]
  }

  /** Three distinct members of `a`, `b`, `c` are them in one of the six orders. */
  lemma MembersPermute<T>(xs: seq<T>, a: T, b: T, c: T)
    requires a != b && a != c && b != c
    requires |xs| == 3 && forall i :: 0 <= i < 3 ==> xs[i] == a || xs[i] == b || xs[i] == c
    requires xs[0] != xs[1] && xs[0] != xs[2] && xs[1] != xs[2]
    ensures Permutes3(xs, a, b, c)
  {
    assert xs == [xs[0], xs[1], xs[2]];
  }

  /** An iteration order of a set of three is one of its six orders. */
  lemma EnumerationOfThree<T>(xs: seq<T>, a: T, b: T, c: T)
    requires a != b && a != c && b != c && Enumerates(xs, {a, b, c})
    ensures Permutes3(xs, a, b, c)
  {
    EnumerationSize(xs, {a, b, c});
    assert xs == [xs[0], xs[1], xs[2]];
    assert xs[0] in xs && xs[1] in xs && xs[2] in xs;
  }

  /** The hits of the fourth line with each of the three lines. */
  const HitA := LineHit(LineA, P(2, 2))
  const HitB := LineHit(LineB, P(8, 2))
  const HitC := LineHit(LineC, P(3, 2))

  /** Each of the three lines meets the fourth at the point of its hit. */
  lemma AcrossMeets(h: LineHit)
    requires h == HitA || h == HitB || h == HitC
    ensures h.line.Intersection(LineD) == Some(h.point)
  {
    if h == HitA {
      AcrossMeetsA();
    } else if h == HitB {
      AcrossMeetsB();
    } else {
      AcrossMeetsC();
    }
  }

  /** Three lines visited, each meeting `added` at the point of its hit: those are the hits. */
  lemma HitsOfThreeGiven(lo: seq<Line>, hits: seq<LineHit>, added: Line)
    requires |hits| == 3 && lo == [hits[0].line, hits[1].line, hits[2].line]
    requires forall i :: 0 <= i < 3 ==> hits[i].line.Intersection(added) == Some(hits[i].point)
    ensures LineHits(lo, added) == hits
  {
    HitsOfThree(lo[0], lo[1], lo[2], added, hits[0].point, hits[1].point, hits[2].point);
    assert hits == [LineHit(lo[0], hits[0].point), LineHit(lo[1], hits[1].point), LineHit(lo[2], hits[2].point)];
  }

  /** The fourth line meets the three lines in the order they are visited. */
  lemma AcrossHits(lo: seq<Line>, hits: seq<LineHit>)
    requires |hits| == 3 && lo == [hits[0].line, hits[1].line, hits[2].line]
    requires forall i :: 0 <= i < 3 ==> hits[i] == HitA || hits[i] == HitB || hits[i] == HitC
    ensures LineHits(lo, LineD) == hits
  {
    forall i | 0 <= i < 3
      ensures hits[i].line.Intersection(LineD) == Some(hits[i].point)
    {
      AcrossMeets(hits[i]);
    }
    HitsOfThreeGiven(lo, hits, LineD);
  }

  /** The three crossing points, in the order found, are (2,2), (8,2) and (3,2) in some order. */
  lemma AcrossPoints(hits: seq<LineHit>)
    requires Permutes3(hits, HitA, HitB, HitC)
    ensures multiset([hits[0].point, hits[1].point, hits[2].point]) == multiset{P(2, 2), P(8, 2), P(3, 2)}
  {
    assert HitA.point == P(2, 2) && HitB.point == P(8, 2) && HitC.point == P(3, 2);
  }

  /**
   * `divide(lines:)` for the fourth line, in whichever order the three lines
   * are visited: two lines split, one marked at its end.
   */
  lemma AcrossLines(edges: set<Edge>, hits: seq<LineHit>)
    requires Permutes3(hits, HitA, HitB, HitC)
    ensures DivideLines(Arrangement({LineA, LineB, LineC}, edges), hits) ==
      Arrangement({LineA1, LineA2, LineBm, LineC1, LineC2}, edges)
  {
    var s := Arrangement({LineA, LineB, LineC}, edges);
    assert {LineA, LineB, LineC} == AcrossState(false, false, false);
    assert AcrossState(true, true, true) == {LineA1, LineA2, LineBm, LineC1, LineC2};
    DivideThree(s, hits[0], hits[1], hits[2]);
    assert hits == [hits[0], hits[1], hits[2]];
    if hits == [HitA, HitB, HitC] {
      AcrossStepA(false, false, edges);
      AcrossStepB(true, false, edges);
      AcrossStepC(true, true, edges);
    } else if hits == [HitA, HitC, HitB] {
      AcrossStepA(false, false, edges);
      AcrossStepC(true, false, edges);
      AcrossStepB(true, true, edges);
    } else if hits == [HitB, HitA, HitC] {
      AcrossStepB(false, false, edges);
      AcrossStepA(true, false, edges);
      AcrossStepC(true, true, edges);
    } else if hits == [HitB, HitC, HitA] {
      AcrossStepB(false, false, edges);
      AcrossStepC(false, true, edges);
      AcrossStepA(true, true, edges);
    } else if hits == [HitC, HitA, HitB] {
      AcrossStepC(false, false, edges);
      AcrossStepA(false, true, edges);
      AcrossStepB(true, true, edges);
    } else {
      AcrossStepC(false, false, edges);
      AcrossStepB(false, true, edges);
      AcrossStepA(true, true, edges);
    }
  }

  /** The fourth line, new to the graph. */
  lemma AcrossNew()
    ensures NewLine(P(2, 2), P(8, 2)) == Some(LineD)
    ensures !Contains({LineA, LineB, LineC}, LineD, Lines.Equal)
  {
    assert !Lines.Equal(LineA, LineD) && !Lines.Equal(LineB, LineD) && !Lines.Equal(LineC, LineD);
  }

  /** Cutting the fourth line and then the lines it meets, in the order of `hits`. */
  lemma AcrossDivide(hits: seq<LineHit>)
    requires Permutes3(hits, HitA, HitB, HitC)
    ensures DivideEdges(DivideLines(DivideAdded(Arrangement({LineA, LineB, LineC}, {}), LineD,
                                                [hits[0].point, hits[1].point, hits[2].point]), hits), []) ==
      Some(Arrangement({LineA1, LineA2, LineBm, LineC1, LineC2},
                       {Edge(V(2, 2), V(3, 2), None, None), Edge(V(3, 2), V(8, 2), None, None)}))
  {
    var edges := {Edge(V(2, 2), V(3, 2), None, None), Edge(V(3, 2), V(8, 2), None, None)};
    AcrossPoints(hits);
    AcrossCut(Arrangement({LineA, LineB, LineC}, {}), [hits[0].point, hits[1].point, hits[2].point]);
    AcrossLines(edges, hits);
    NoEdgeHits(Arrangement({LineA1, LineA2, LineBm, LineC1, LineC2}, edges));
  }

  /** The fourth line with the three lines visited in the order of `hits`. */
  lemma AcrossFourthIn(lo: seq<Line>, hits: seq<LineHit>)
    requires |hits| == 3 && lo == [hits[0].line, hits[1].line, hits[2].line]
    requires forall i :: 0 <= i < 3 ==> hits[i] == HitA || hits[i] == HitB || hits[i] == HitC
    requires hits[0] != hits[1] && hits[0] != hits[2] && hits[1] != hits[2]
    ensures AddSpec(Arrangement({LineA, LineB, LineC}, {}), NewLine(P(2, 2), P(8, 2)), lo, []) ==
      Some(Arrangement({LineA1, LineA2, LineBm, LineC1, LineC2},
                       {Edge(V(2, 2), V(3, 2), None, None), Edge(V(3, 2), V(8, 2), None, None)}))
  {
    var s := Arrangement({LineA, LineB, LineC}, {});
    var r := Arrangement({LineA1, LineA2, LineBm, LineC1, LineC2},
                         {Edge(V(2, 2), V(3, 2), None, None), Edge(V(3, 2), V(8, 2), None, None)});
    var pts := [hits[0].point, hits[1].point, hits[2].point];
    PointsOfThree(hits);
    assert DivideEdges(DivideLines(DivideAdded(s, LineD, pts), hits), []) == Some(r) by {
      assert HitA != HitB && HitA != HitC && HitB != HitC;
      MembersPermute(hits, HitA, HitB, HitC);
      AcrossDivide(hits);
    }
    assert LineHits(lo, LineD) == hits by {
      AcrossHits(lo, hits);
    }
    assert NewLine(P(2, 2), P(8, 2)) == Some(LineD) && !Contains(s.lines, LineD, Lines.Equal) && EdgeHits([], LineD) == [] by {
      AcrossNew();
    }
    AddVia(s, LineD, lo, [], hits, [], pts, Some(r));
  }

  /**
   * The fourth line of LineTests.swift:50-75 crosses the three parallel
   * lines: it becomes two edges, and the three lines become five, marked
   * where it crossed them, in whichever order the lines are visited.
   */
  lemma AcrossFourth(lo: seq<Line>, eo: seq<Edge>)
    requires Enumerates(lo, {LineA, LineB, LineC}) && Enumerates(eo, {})
    ensures AddSpec(Arrangement({LineA, LineB, LineC}, {}), NewLine(P(2, 2), P(8, 2)), lo, eo) ==
      Some(Arrangement({LineA1, LineA2, LineBm, LineC1, LineC2},
                       {Edge(V(2, 2), V(3, 2), None, None), Edge(V(3, 2), V(8, 2), None, None)}))
  {
    assert LineA.start != LineB.start && LineA.start != LineC.start && LineB.start != LineC.start;
    assert HitA.line == LineA && HitB.line == LineB && HitC.line == LineC;
    EnumerationOfThree(lo, LineA, LineB, LineC);
    EnumerationOfNone(eo);
    if lo == [LineA, LineB, LineC] {
      AcrossFourthIn(lo, [HitA, HitB, HitC]);
    } else if lo == [LineA, LineC, LineB] {
      AcrossFourthIn(lo, [HitA, HitC, HitB]);
    } else if lo == [LineB, LineA, LineC] {
      AcrossFourthIn(lo, [HitB, HitA, HitC]);
    } else if lo == [LineB, LineC, LineA] {
      AcrossFourthIn(lo, [HitB, HitC, HitA]);
    } else if lo == [LineC, LineA, LineB] {
      AcrossFourthIn(lo, [HitC, HitA, HitB]);
    } else {
      AcrossFourthIn(lo, [HitC, HitB, HitA]);
    }
  }

  /** After the fourth line the graph holds five lines and two edges. */
  lemma AcrossCounts()
    ensures |{LineA1, LineA2, LineBm, LineC1, LineC2}| == 5
    ensures Distinct({LineA1, LineA2, LineBm, LineC1, LineC2}, Lines.Equal)
    ensures |{Edge(V(2, 2), V(3, 2), None, None), Edge(V(3, 2), V(8, 2), None, None)}| == 2
  {
  }
}
