/**
 * What `Graph.add` does to the graph's two sets (GraphFaceEnumeration/Graph.swift:121-264),
 * as functions of the sets before the call and of the order in which Swift
 * happens to iterate them. The methods of `Graph` are proved to compute
 * exactly these functions.
 */
module Arrangements {
  import opened Wrappers
  import opened Vertices
  import opened HashedSets
  import opened Lines
  import opened Edges

  /** The contents of a graph: pending lines and finished edges. */
  datatype Arrangement = Arrangement(lines: set<Line>, edges: set<Edge>)
  {
    /**
     * What every reachable graph satisfies: Swift sets hold no two equal
     * members, and every line and edge came out of a successful `init?`.
     */
    ghost predicate Valid()
    {
      && Distinct(lines, Lines.Equal)
      && Distinct(edges, Edges.Equal)
      && (forall l :: l in lines ==> l.Valid())
      && (forall e :: e in edges ==> e.Valid())
    }
  }

  /** A line of the graph that the added line meets, and where. */
  datatype LineHit = LineHit(line: Line, point: Point)

  /** An edge of the graph that the added line meets, and where. */
  datatype EdgeHit = EdgeHit(edge: Edge, vertex: Vertex)

  // ---------------------------------------------------------------------
  // Collecting the intersections (Graph.swift:130-148)
  // ---------------------------------------------------------------------

  /** The lines of `order` that meet `added`, in that order, with the meeting points. */
  function LineHits(order: seq<Line>, added: Line): (r: seq<LineHit>)
    ensures |r| <= |order|
  {
    if order == [] then []
    else
      var rest := LineHits(order[..|order| - 1], added);
      var l := order[|order| - 1];
      match l.Intersection(added)
      case None => rest
      case Some(p) => rest + [LineHit(l, p)]
  }

  /** The edges of `order` that meet `added`, in that order, with the meeting vertices. */
  function EdgeHits(order: seq<Edge>, added: Line): (r: seq<EdgeHit>)
    ensures |r| <= |order|
  {
    if order == [] then []
    else
      var rest := EdgeHits(order[..|order| - 1], added);
      var e := order[|order| - 1];
      match e.Intersects(added)
      case None => rest
      case Some(v) => rest + [EdgeHit(e, v)]
  }

  /** One more line visited: one more hit when it meets `added`. */
  lemma LineHitsSnoc(order: seq<Line>, l: Line, added: Line, meet: Option<Point>)
    requires meet == l.Intersection(added)
    ensures LineHits(order + [l], added) == LineHits(order, added) + (if meet.Some? then [LineHit(l, meet.value)] else [])
  {
    assert (order + [l])[..|order|] == order;
  }

  /** One more edge visited: one more hit when it meets `added`. */
  lemma EdgeHitsSnoc(order: seq<Edge>, e: Edge, added: Line, meet: Option<Vertex>)
    requires meet == e.Intersects(added)
    ensures EdgeHits(order + [e], added) == EdgeHits(order, added) + (if meet.Some? then [EdgeHit(e, meet.value)] else [])
  {
    assert (order + [e])[..|order|] == order;
  }

  /** Each line hit is a line of `order` with its meeting point. */
  lemma {:induction false} LineHitIsMeeting(order: seq<Line>, added: Line, h: LineHit)
    requires h in LineHits(order, added)
    ensures h.line in order && h.line.Intersection(added) == Some(h.point)
    decreases |order|
  {
    var init := order[..|order| - 1];
    if h in LineHits(init, added) {
      LineHitIsMeeting(init, added, h);
      assert h.line in order by { var i :| 0 <= i < |init| && init[i] == h.line; assert order[i] == h.line; }
    }
  }

  /** Every line of `order` that meets `added` is hit. */
  lemma {:induction false} MeetingIsLineHit(order: seq<Line>, added: Line, l: Line)
    requires l in order && l.Intersection(added).Some?
    ensures LineHit(l, l.Intersection(added).value) in LineHits(order, added)
    decreases |order|
  {
    var init := order[..|order| - 1];
    if l != order[|order| - 1] {
      var i :| 0 <= i < |order| && order[i] == l;
      assert init[i] == l;
      MeetingIsLineHit(init, added, l);
    }
  }

  /** Each edge hit is an edge of `order` with its meeting vertex. */
  lemma {:induction false} EdgeHitIsMeeting(order: seq<Edge>, added: Line, h: EdgeHit)
    requires h in EdgeHits(order, added)
    ensures h.edge in order && h.edge.Intersects(added) == Some(h.vertex)
    decreases |order|
  {
    var init := order[..|order| - 1];
    if h in EdgeHits(init, added) {
      EdgeHitIsMeeting(init, added, h);
      assert h.edge in order by { var i :| 0 <= i < |init| && init[i] == h.edge; assert order[i] == h.edge; }
    }
  }

  /** Every edge of `order` that meets `added` is hit. */
  lemma {:induction false} MeetingIsEdgeHit(order: seq<Edge>, added: Line, e: Edge)
    requires e in order && e.Intersects(added).Some?
    ensures EdgeHit(e, e.Intersects(added).value) in EdgeHits(order, added)
    decreases |order|
  {
    var init := order[..|order| - 1];
    if e != order[|order| - 1] {
      var i :| 0 <= i < |order| && order[i] == e;
      assert init[i] == e;
      MeetingIsEdgeHit(init, added, e);
    }
  }

  /** The meeting points of line hits, in order. */
  function LinePoints(hits: seq<LineHit>): (r: seq<Point>)
    ensures |r| == |hits|
    ensures forall i :: 0 <= i < |hits| ==> r[i] == hits[i].point
  {
    if hits == [] then [] else LinePoints(hits[..|hits| - 1]) + [hits[|hits| - 1].point]
  }

  /** The meeting points of edge hits, in order. */
  function EdgePoints(hits: seq<EdgeHit>): (r: seq<Point>)
    ensures |r| == |hits|
    ensures forall i :: 0 <= i < |hits| ==> r[i] == hits[i].vertex.point
  {
    if hits == [] then [] else EdgePoints(hits[..|hits| - 1]) + [hits[|hits| - 1].vertex.point]
  }

  // ---------------------------------------------------------------------
  // Sorting by distance from the start of the added line (Graph.swift:163-166)
  // ---------------------------------------------------------------------

  /** The keys of the points never decrease along the sequence. */
  predicate SortedBy(pts: seq<Point>, key: Point -> real)
  {
    forall i, j :: 0 <= i < j < |pts| ==> key(pts[i]) <= key(pts[j])
  }

  /** `p` inserted before the first point of `pts` whose key is at least its own. */
  function InsertBy(pts: seq<Point>, p: Point, key: Point -> real): (r: seq<Point>)
    ensures multiset(r) == multiset(pts) + multiset{p}
    ensures |r| == |pts| + 1
  {
    if pts == [] then [p]
    else if key(p) <= key(pts[0]) then [p] + pts
    else
      assert pts == [pts[0]] + pts[1..];
      [pts[0]] + InsertBy(pts[1..], p, key)
  }

  /** Inserting into a sorted sequence keeps it sorted. */
  lemma {:induction false} InsertBySorted(pts: seq<Point>, p: Point, key: Point -> real)
    requires SortedBy(pts, key)
    ensures SortedBy(InsertBy(pts, p, key), key)
    decreases |pts|
  {
    if pts != [] && key(p) > key(pts[0]) {
      InsertBySorted(pts[1..], p, key);
      InsertByBound(pts[1..], p, key, key(pts[0]));
      ConsSorted(pts[0], InsertBy(pts[1..], p, key), key);
    }
  }

  /** A lower bound on every key, and on the key of `p`, bounds every key after the insertion. */
  lemma {:induction false} InsertByBound(pts: seq<Point>, p: Point, key: Point -> real, b: real)
    requires forall k :: 0 <= k < |pts| ==> b <= key(pts[k])
    requires b <= key(p)
    ensures forall k :: 0 <= k < |InsertBy(pts, p, key)| ==> b <= key(InsertBy(pts, p, key)[k])
    decreases |pts|
  {
    if pts != [] && key(p) > key(pts[0]) {
      InsertByBound(pts[1..], p, key, b);
      var r := InsertBy(pts, p, key);
      assert r == [pts[0]] + InsertBy(pts[1..], p, key);
    }
  }

  /** A point whose key is at most every key of a sorted sequence can go in front of it. */
  lemma ConsSorted(x: Point, rest: seq<Point>, key: Point -> real)
    requires SortedBy(rest, key)
    requires forall k :: 0 <= k < |rest| ==> key(x) <= key(rest[k])
    ensures SortedBy([x] + rest, key)
  {
    var r := [x] + rest;
    forall i, j | 0 <= i < j < |r|
      ensures key(r[i]) <= key(r[j])
    {
      assert r[j] == rest[j - 1];
      if i > 0 {
        assert r[i] == rest[i - 1];
      }
    }
  }

  /** Insertion sort by `key`: a sorted permutation of `pts`. */
  function SortBy(pts: seq<Point>, key: Point -> real): (r: seq<Point>)
    ensures multiset(r) == multiset(pts)
    ensures SortedBy(r, key)
    ensures |r| == |pts|
  {
    if pts == [] then []
    else
      assert pts == [pts[0]] + pts[1..];
      InsertBySorted(SortBy(pts[1..], key), pts[0], key);
      InsertBy(SortBy(pts[1..], key), pts[0], key)
  }

  /** The squared distance from `origin`, as a sort key. */
  function DistanceFrom(origin: Point): Point -> real
  {
    p => DistanceSquared(origin, p)
  }

  /**
   * `sort` by `start.distance(_:)`. The square root drops out: it keeps the
   * order of squared distances.
   */
  function SortByDistance(pts: seq<Point>, origin: Point): (r: seq<Point>)
    ensures multiset(r) == multiset(pts)
    ensures forall i, j :: 0 <= i < j < |r| ==> DistanceSquared(origin, r[i]) <= DistanceSquared(origin, r[j])
  {
    SortBy(pts, DistanceFrom(origin))
  }

  /**
   * When no two points share a key, a sorted order is the only one: any
   * sorted permutation of a strictly sorted sequence is that sequence. So
   * the order `divide` cuts in does not depend on the order the points
   * were found in.
   */
  lemma {:induction false} SortedUnique(a: seq<Point>, b: seq<Point>, key: Point -> real)
    requires SortedBy(a, key) && multiset(a) == multiset(b)
    requires forall i, j :: 0 <= i < j < |b| ==> key(b[i]) < key(b[j])
    ensures a == b
    decreases |a|
  {
    assert |a| == |multiset(a)| == |multiset(b)| == |b|;
    if a != [] {
      SortedHead(a, b, key);
      TailMultiset(a, b);
      SortedTails(a, b, key);
      SortedUnique(a[1..], b[1..], key);
      assert a == [a[0]] + a[1..] && b == [b[0]] + b[1..];
    }
  }

  /** Dropping the first point keeps a sequence sorted, and strictly sorted. */
  lemma SortedTails(a: seq<Point>, b: seq<Point>, key: Point -> real)
    requires SortedBy(a, key) && a != [] && b != []
    requires forall i, j :: 0 <= i < j < |b| ==> key(b[i]) < key(b[j])
    ensures SortedBy(a[1..], key)
    ensures forall i, j :: 0 <= i < j < |b[1..]| ==> key(b[1..][i]) < key(b[1..][j])
  {
    var ta, tb := a[1..], b[1..];
    forall i, j | 0 <= i < j < |tb|
      ensures key(tb[i]) < key(tb[j])
    {
      assert tb[i] == b[i + 1] && tb[j] == b[j + 1];
    }
    forall i, j | 0 <= i < j < |ta|
      ensures key(ta[i]) <= key(ta[j])
    {
      assert ta[i] == a[i + 1] && ta[j] == a[j + 1];
    }
  }

  /** Sequences with the same multiset and the same first point have tails with the same multiset. */
  lemma TailMultiset(a: seq<Point>, b: seq<Point>)
    requires a != [] && b != [] && a[0] == b[0] && multiset(a) == multiset(b)
    ensures multiset(a[1..]) == multiset(b[1..])
  {
    assert a == [a[0]] + a[1..] && b == [b[0]] + b[1..];
    assert multiset(a) == multiset{a[0]} + multiset(a[1..]);
    assert multiset(b) == multiset{a[0]} + multiset(b[1..]);
    assert multiset(a[1..]) == multiset(a) - multiset{a[0]};
  }

  /** Under the same conditions, the two sequences start with the same point. */
  lemma SortedHead(a: seq<Point>, b: seq<Point>, key: Point -> real)
    requires SortedBy(a, key) && multiset(a) == multiset(b) && a != []
    requires forall i, j :: 0 <= i < j < |b| ==> key(b[i]) < key(b[j])
    ensures b != [] && a[0] == b[0]
  {
    assert a[0] in multiset(b);
    assert b != [] && b[0] in multiset(a);
    var k :| 0 <= k < |b| && b[k] == a[0];
    var m :| 0 <= m < |a| && a[m] == b[0];
    assert key(a[0]) <= key(b[0]) <= key(a[0]);
  }

  // ---------------------------------------------------------------------
  // divide(_:_:): cutting the added line (Graph.swift:162-196)
  // ---------------------------------------------------------------------

  /** The graph while the added line is cut, and the point the next piece starts from. */
  datatype Cursor = Cursor(arr: Arrangement, current: Point)

  /**
   * One pass of the loop over the sorted points. The first point (and any
   * copy of it) ends the leading piece, which becomes a line marked at that
   * point; every later point ends an edge from the current point.
   */
  function CutStep(c: Cursor, p: Point, first: Point): (r: Cursor)
    ensures r.current == p
    ensures r.arr.lines == c.arr.lines || r.arr.edges == c.arr.edges
    ensures c.arr.lines <= r.arr.lines && c.arr.edges <= r.arr.edges
  {
    if p == first then
      match NewLine(c.current, p)
      case Some(l) => Cursor(c.arr.(lines := Insert(c.arr.lines, l.(vertex := Some(Vertex(p))), Lines.Equal)), p)
      case None => c
    else
      match NewEdge(Vertex(c.current), Vertex(p))
      case Some(e) => Cursor(c.arr.(edges := Insert(c.arr.edges, e, Edges.Equal)), p)
      case None => Cursor(c.arr, p)
  }

  /**
   * The loop over `pts`, as a fold of `CutStep` over its prefixes. It ends
   * at the last point and only ever adds to the graph.
   */
  function CutWalk(c: Cursor, pts: seq<Point>, first: Point): (r: Cursor)
    ensures r.current == if pts == [] then c.current else pts[|pts| - 1]
    ensures c.arr.lines <= r.arr.lines && c.arr.edges <= r.arr.edges
  {
    if pts == [] then c else CutStep(CutWalk(c, pts[..|pts| - 1], first), pts[|pts| - 1], first)
  }

  /** The walk over one more point is one more step. */
  lemma CutWalkSnoc(c: Cursor, pts: seq<Point>, i: int, first: Point)
    requires 0 <= i < |pts|
    ensures CutWalk(c, pts[..i + 1], first) == CutStep(CutWalk(c, pts[..i], first), pts[i], first)
  {
    assert pts[..i + 1][..i] == pts[..i];
  }

  /** The trailing piece, from the last cut to the end, as a line marked where it starts. */
  function CutTail(c: Cursor, end: Point): (r: Arrangement)
    ensures r.edges == c.arr.edges
  {
    match NewLine(c.current, end)
    case Some(l) => c.arr.(lines := Insert(c.arr.lines, l.(vertex := Some(Vertex(c.current))), Lines.Equal))
    case None => c.arr
  }

  /**
   * `divide(_:_:)`: the added line cut at `pts`, sorted by distance from its
   * start. It only adds to the graph; what it adds is given by `DivideAddedPieces`.
   */
  function DivideAdded(s: Arrangement, added: Line, pts: seq<Point>): (r: Arrangement)
    ensures s.lines <= r.lines && s.edges <= r.edges
  {
    var sorted := SortByDistance(pts, added.start);
    var first := if sorted == [] then added.start else sorted[0];
    CutTail(CutWalk(Cursor(s, added.start), sorted, first), added.end)
  }

  // ---------------------------------------------------------------------
  // divide(lines:): cutting the lines the added line meets (Graph.swift:198-250)
  // ---------------------------------------------------------------------

  /** `insert` of an optional line or edge: nothing when `init?` failed. */
  function InsertLine(lines: set<Line>, l: Option<Line>, p: Point): set<Line>
  {
    match l
    case Some(x) => Insert(lines, x.(vertex := Some(Vertex(p))), Lines.Equal)
    case None => lines
  }

  function InsertEdge(edges: set<Edge>, e: Option<Edge>): set<Edge>
  {
    match e
    case Some(x) => Insert(edges, x, Edges.Equal)
    case None => edges
  }

  /**
   * One pass of the loop in `divide(lines:)`.
   * - A line marked at a vertex is cut at `p`: the part between the vertex
   *   and `p` becomes an edge, the part beyond `p` stays a line marked at
   *   `p`, and the line itself is removed. When the mark is not at `start`
   *   the code takes it to be at `end`.
   * - An unmarked line met at one of its endpoints is marked there, in place.
   * - An unmarked line met inside is replaced by its two halves, both marked
   *   at `p`. Both halves always exist there, so the `fatalError` branch is
   *   never taken.
   * In every case the line met does not stay as it was, the only lines lost
   * are `==` to it, new lines are marked at `p`, new edges end at `p`, and
   * an unmarked line makes no edge.
   */
  function LineStep(s: Arrangement, h: LineHit): (r: Arrangement)
    ensures h.line !in r.lines
    ensures forall m :: m in s.lines && m !in r.lines ==> Lines.Equal(m, h.line)
    ensures forall m :: m in r.lines && m !in s.lines ==> m.vertex == Some(Vertex(h.point))
    ensures s.edges <= r.edges && (h.line.vertex.None? ==> r.edges == s.edges)
    ensures forall e :: e in r.edges && e !in s.edges ==> e.HasVertex(Vertex(h.point))
  {
    var l, p := h.line, h.point;
    match l.vertex
    case Some(v) =>
      if PointIs(l.start, v) then
        Arrangement(
          Remove(InsertLine(s.lines, NewLine(p, l.end), p), l, Lines.Equal),
          InsertEdge(s.edges, NewEdge(v, Vertex(p))))
      else
        Arrangement(
          Remove(InsertLine(s.lines, NewLine(l.start, p), p), l, Lines.Equal),
          InsertEdge(s.edges, NewEdge(Vertex(p), Vertex(l.end))))
    case None =>
      if l.start == p || l.end == p then
        if l in s.lines then s.(lines := (s.lines - {l}) + {l.(vertex := Some(Vertex(p)))}) else s
      else
        var lineA := NewLine(l.start, p).value.(vertex := Some(Vertex(p)));
        var lineB := NewLine(p, l.end).value.(vertex := Some(Vertex(p)));
        s.(lines := Remove(Insert(Insert(s.lines, lineA, Lines.Equal), lineB, Lines.Equal), l, Lines.Equal))
  }

  /** `divide(lines:)`: `LineStep` for each hit in turn. It never removes an edge, and every line it adds is marked. */
  function DivideLines(s: Arrangement, hits: seq<LineHit>): (r: Arrangement)
    ensures s.edges <= r.edges
    ensures forall m :: m in r.lines && m !in s.lines ==> m.vertex.Some?
  {
    if hits == [] then s else LineStep(DivideLines(s, hits[..|hits| - 1]), hits[|hits| - 1])
  }

  // ---------------------------------------------------------------------
  // divide(edges:): cutting the edges the added line meets (Graph.swift:252-264)
  // ---------------------------------------------------------------------

  /**
   * One pass of the loop in `divide(edges:)`: the edge `A-B` is replaced by
   * `A-P` and `P-B`; none (the program stops with `fatalError`) when `P` is
   * an endpoint.
   */
  function EdgeStep(s: Arrangement, h: EdgeHit): (r: Option<Arrangement>)
    ensures r.None? <==> h.edge.HasVertex(h.vertex)
    ensures r.Some? ==> r.value.lines == s.lines
  {
    var e, v := h.edge, h.vertex;
    match (NewEdge(e.vertexA, v), NewEdge(v, e.vertexB))
    case (Some(a), Some(b)) =>
      Some(s.(edges := Remove(Insert(Insert(s.edges, a, Edges.Equal), b, Edges.Equal), e, Edges.Equal)))
    case _ => None
  }

  /**
   * `divide(edges:)`: `EdgeStep` for each hit in turn, stopping at the first
   * failure. When it does not stop, no hit was at an endpoint and the lines
   * are untouched.
   */
  function DivideEdges(s: Arrangement, hits: seq<EdgeHit>): (r: Option<Arrangement>)
    ensures r.Some? ==> r.value.lines == s.lines
    ensures r.Some? ==> forall i :: 0 <= i < |hits| ==> !hits[i].edge.HasVertex(hits[i].vertex)
  {
    if hits == [] then Some(s)
    else
      match DivideEdges(s, hits[..|hits| - 1])
      case None => None
      case Some(t) => EdgeStep(t, hits[|hits| - 1])
  }

  // ---------------------------------------------------------------------
  // add (Graph.swift:121-160)
  // ---------------------------------------------------------------------

  /**
   * `add`, when Swift iterates `lines` in the order `lo` and `edges` in the
   * order `eo`. None when the program stops in `divide(edges:)`, which
   * happens only for a new line (see `AddFailsIff` for exactly when).
   */
  function AddSpec(s: Arrangement, line: Option<Line>, lo: seq<Line>, eo: seq<Edge>): (r: Option<Arrangement>)
    ensures r.None? ==> line.Some? && !Contains(s.lines, line.value, Lines.Equal)
  {
    match line
    case None => Some(s)
    case Some(added) =>
      if Contains(s.lines, added, Lines.Equal) then Some(s)
      else
        var lh := LineHits(lo, added);
        var eh := EdgeHits(eo, added);
        var pts := LinePoints(lh) + EdgePoints(eh);
        if pts == [] then Some(s.(lines := Insert(s.lines, added, Lines.Equal)))
        else DivideEdges(DivideLines(DivideAdded(s, added, pts), lh), eh)
  }

  // ---------------------------------------------------------------------
  // Every step keeps the graph valid
  // ---------------------------------------------------------------------

  /** Inserting a valid line keeps the lines of a valid graph valid. */
  lemma InsertLineValid(s: Arrangement, l: Line)
    requires s.Valid() && l.Valid()
    ensures s.(lines := Insert(s.lines, l, Lines.Equal)).Valid()
  {
    Lines.EqualIsEquivalence();
    InsertDistinct(s.lines, l, Lines.Equal);
  }

  /** Inserting a valid edge keeps the edges of a valid graph valid. */
  lemma InsertEdgeValid(s: Arrangement, e: Edge)
    requires s.Valid() && e.Valid()
    ensures s.(edges := Insert(s.edges, e, Edges.Equal)).Valid()
  {
    Edges.EqualIsEquivalence();
    InsertDistinct(s.edges, e, Edges.Equal);
  }

  lemma CutStepValid(c: Cursor, p: Point, first: Point)
    requires c.arr.Valid()
    ensures CutStep(c, p, first).arr.Valid()
  {
    if p == first {
      if c.current != p {
        InsertLineValid(c.arr, Line(c.current, p, Some(Vertex(p))));
      }
    } else if Vertex(c.current) != Vertex(p) {
      InsertEdgeValid(c.arr, Edge(Vertex(c.current), Vertex(p), None, None));
    }
  }

  lemma {:induction false} CutWalkValid(c: Cursor, pts: seq<Point>, first: Point)
    requires c.arr.Valid()
    ensures CutWalk(c, pts, first).arr.Valid()
    decreases |pts|
  {
    if pts != [] {
      CutWalkValid(c, pts[..|pts| - 1], first);
      CutStepValid(CutWalk(c, pts[..|pts| - 1], first), pts[|pts| - 1], first);
    }
  }

  /** Cutting the added line keeps a valid graph valid. */
  lemma DivideAddedValid(s: Arrangement, added: Line, pts: seq<Point>)
    requires s.Valid()
    ensures DivideAdded(s, added, pts).Valid()
  {
    var sorted := SortByDistance(pts, added.start);
    var first := if sorted == [] then added.start else sorted[0];
    var c := CutWalk(Cursor(s, added.start), sorted, first);
    CutWalkValid(Cursor(s, added.start), sorted, first);
    if c.current != added.end {
      InsertLineValid(c.arr, Line(c.current, added.end, Some(Vertex(c.current))));
    }
  }

  /** Marking a member in place keeps the lines free of equal members. */
  lemma MarkDistinct(lines: set<Line>, l: Line, m: Line)
    requires Distinct(lines, Lines.Equal) && l in lines && Lines.Equal(l, m)
    ensures Distinct((lines - {l}) + {m}, Lines.Equal)
  {
    Lines.EqualIsEquivalence();
  }

  lemma LineStepValid(s: Arrangement, h: LineHit)
    requires s.Valid()
    ensures LineStep(s, h).Valid()
  {
    Lines.EqualIsEquivalence();
    Edges.EqualIsEquivalence();
    var l, p := h.line, h.point;
    match l.vertex
    case Some(v) =>
      var t: Arrangement;
      if PointIs(l.start, v) {
        t := Arrangement(InsertLine(s.lines, NewLine(p, l.end), p), s.edges);
        if p != l.end {
          InsertLineValid(s, Line(p, l.end, Some(Vertex(p))));
        }
        if v != Vertex(p) {
          InsertEdgeValid(t, Edge(v, Vertex(p), None, None));
        }
      } else {
        t := Arrangement(InsertLine(s.lines, NewLine(l.start, p), p), s.edges);
        if l.start != p {
          InsertLineValid(s, Line(l.start, p, Some(Vertex(p))));
        }
        if Vertex(p) != Vertex(l.end) {
          InsertEdgeValid(t, Edge(Vertex(p), Vertex(l.end), None, None));
        }
      }
      RemoveDistinct(t.lines, l, Lines.Equal);
    case None =>
      if l.start == p || l.end == p {
        if l in s.lines {
          MarkDistinct(s.lines, l, l.(vertex := Some(Vertex(p))));
        }
      } else {
        var lineA := Line(l.start, p, Some(Vertex(p)));
        var lineB := Line(p, l.end, Some(Vertex(p)));
        InsertLineValid(s, lineA);
        var t := s.(lines := Insert(s.lines, lineA, Lines.Equal));
        InsertLineValid(t, lineB);
        RemoveDistinct(Insert(t.lines, lineB, Lines.Equal), l, Lines.Equal);
      }
  }

  lemma {:induction false} DivideLinesValid(s: Arrangement, hits: seq<LineHit>)
    requires s.Valid()
    ensures DivideLines(s, hits).Valid()
    decreases |hits|
  {
    if hits != [] {
      DivideLinesValid(s, hits[..|hits| - 1]);
      LineStepValid(DivideLines(s, hits[..|hits| - 1]), hits[|hits| - 1]);
    }
  }

  lemma EdgeStepValid(s: Arrangement, h: EdgeHit)
    requires s.Valid() && EdgeStep(s, h).Some?
    ensures EdgeStep(s, h).value.Valid()
  {
    var e, v := h.edge, h.vertex;
    var a, b := Edge(e.vertexA, v, None, None), Edge(v, e.vertexB, None, None);
    InsertEdgeValid(s, a);
    var t := s.(edges := Insert(s.edges, a, Edges.Equal));
    InsertEdgeValid(t, b);
    RemoveDistinct(Insert(t.edges, b, Edges.Equal), e, Edges.Equal);
  }

  lemma {:induction false} DivideEdgesValid(s: Arrangement, hits: seq<EdgeHit>)
    requires s.Valid() && DivideEdges(s, hits).Some?
    ensures DivideEdges(s, hits).value.Valid()
    decreases |hits|
  {
    if hits != [] {
      DivideEdgesValid(s, hits[..|hits| - 1]);
      EdgeStepValid(DivideEdges(s, hits[..|hits| - 1]).value, hits[|hits| - 1]);
    }
  }

  /** `add` of a line made by `init?` keeps a valid graph valid. */
  lemma AddValid(s: Arrangement, line: Option<Line>, lo: seq<Line>, eo: seq<Edge>)
    requires s.Valid() && (line.Some? ==> line.value.Valid())
    requires AddSpec(s, line, lo, eo).Some?
    ensures AddSpec(s, line, lo, eo).value.Valid()
  {
    if line.Some? && !Contains(s.lines, line.value, Lines.Equal) {
      var added := line.value;
      var lh, eh := LineHits(lo, added), EdgeHits(eo, added);
      if LinePoints(lh) + EdgePoints(eh) == [] {
        InsertLineValid(s, added);
      } else {
        var pts := LinePoints(lh) + EdgePoints(eh);
        DivideAddedValid(s, added, pts);
        DivideLinesValid(DivideAdded(s, added, pts), lh);
        DivideEdgesValid(DivideLines(DivideAdded(s, added, pts), lh), eh);
      }
    }
  }

  // ---------------------------------------------------------------------
  // What add does
  // ---------------------------------------------------------------------

  /** `add(nil)` and `add` of a line already present, in either direction, change nothing. */
  lemma AddUnchanged(s: Arrangement, l: Line, lo: seq<Line>, eo: seq<Edge>)
    ensures AddSpec(s, None, lo, eo) == Some(s)
    ensures Contains(s.lines, l, Lines.Equal) || Contains(s.lines, Reversed(l), Lines.Equal) ==>
      AddSpec(s, Some(l), lo, eo) == Some(s)
  {
    ContainsEitherDirection(s.lines, l);
  }

  /** The added line meets nothing exactly when no line and no edge of the graph meets it. */
  lemma NoHitsIffIsolated(s: Arrangement, l: Line, lo: seq<Line>, eo: seq<Edge>)
    requires Enumerates(lo, s.lines) && Enumerates(eo, s.edges)
    ensures LinePoints(LineHits(lo, l)) + EdgePoints(EdgeHits(eo, l)) == [] <==>
      (forall m :: m in s.lines ==> m.Intersection(l).None?) && (forall e :: e in s.edges ==> e.Intersects(l).None?)
  {
    var lh, eh := LineHits(lo, l), EdgeHits(eo, l);
    if lh != [] {
      LineHitIsMeeting(lo, l, lh[0]);
    }
    if eh != [] {
      EdgeHitIsMeeting(eo, l, eh[0]);
    }
    if exists m :: m in s.lines && m.Intersection(l).Some? {
      var m :| m in s.lines && m.Intersection(l).Some?;
      MeetingIsLineHit(lo, l, m);
    }
    if exists e :: e in s.edges && e.Intersects(l).Some? {
      var e :| e in s.edges && e.Intersects(l).Some?;
      MeetingIsEdgeHit(eo, l, e);
    }
  }

  /** A new line that meets nothing is simply inserted; the edges stay as they are. */
  lemma AddIsolatedInserts(s: Arrangement, l: Line, lo: seq<Line>, eo: seq<Edge>)
    requires Enumerates(lo, s.lines) && Enumerates(eo, s.edges)
    requires !Contains(s.lines, l, Lines.Equal)
    requires forall m :: m in s.lines ==> m.Intersection(l).None?
    requires forall e :: e in s.edges ==> e.Intersects(l).None?
    ensures AddSpec(s, Some(l), lo, eo) == Some(Arrangement(s.lines + {l}, s.edges))
  {
    NoHitsIffIsolated(s, l, lo, eo);
  }

  /** `divide(edges:)` stops exactly when some hit lies on an endpoint of its edge. */
  lemma {:induction false} DivideEdgesFails(s: Arrangement, hits: seq<EdgeHit>)
    ensures DivideEdges(s, hits).None? <==> exists i :: 0 <= i < |hits| && hits[i].edge.HasVertex(hits[i].vertex)
    ensures DivideEdges(s, hits).Some? ==> DivideEdges(s, hits).value.lines == s.lines
    decreases |hits|
  {
    if hits != [] {
      var init := hits[..|hits| - 1];
      DivideEdgesFails(s, init);
      if exists i :: 0 <= i < |init| && init[i].edge.HasVertex(init[i].vertex) {
        var i :| 0 <= i < |init| && init[i].edge.HasVertex(init[i].vertex);
        assert hits[i] == init[i];
      }
      if exists i :: 0 <= i < |hits| && hits[i].edge.HasVertex(hits[i].vertex) {
        var i :| 0 <= i < |hits| && hits[i].edge.HasVertex(hits[i].vertex);
        if i < |init| {
          assert init[i] == hits[i];
        }
      }
    }
  }

  /** Some edge hit lies on an endpoint exactly when some edge of the graph meets the line at an endpoint. */
  lemma EdgeHitAtEndpoint(s: Arrangement, l: Line, eo: seq<Edge>)
    requires Enumerates(eo, s.edges)
    ensures (exists i :: 0 <= i < |EdgeHits(eo, l)| && EdgeHits(eo, l)[i].edge.HasVertex(EdgeHits(eo, l)[i].vertex)) <==>
      exists e :: e in s.edges && e.Intersects(l).Some? && e.HasVertex(e.Intersects(l).value)
  {
    var eh := EdgeHits(eo, l);
    if exists e :: e in s.edges && e.Intersects(l).Some? && e.HasVertex(e.Intersects(l).value) {
      var e :| e in s.edges && e.Intersects(l).Some? && e.HasVertex(e.Intersects(l).value);
      MeetingIsEdgeHit(eo, l, e);
      var i :| 0 <= i < |eh| && eh[i] == EdgeHit(e, e.Intersects(l).value);
      assert eh[i].edge.HasVertex(eh[i].vertex);
    }
    if exists i :: 0 <= i < |eh| && eh[i].edge.HasVertex(eh[i].vertex) {
      var i :| 0 <= i < |eh| && eh[i].edge.HasVertex(eh[i].vertex);
      EdgeHitIsMeeting(eo, l, eh[i]);
      var e := eh[i].edge;
      assert e in s.edges && e.Intersects(l).Some? && e.HasVertex(e.Intersects(l).value);
    }
  }

  /**
   * `add` stops the program exactly when the new line is not yet present and
   * meets some edge of the graph at one of that edge's endpoints, whatever the
   * iteration order.
   */
  lemma AddFailsIff(s: Arrangement, l: Line, lo: seq<Line>, eo: seq<Edge>)
    requires Enumerates(eo, s.edges)
    ensures AddSpec(s, Some(l), lo, eo).None? <==>
      && !Contains(s.lines, l, Lines.Equal)
      && exists e :: e in s.edges && e.Intersects(l).Some? && e.HasVertex(e.Intersects(l).value)
  {
    if !Contains(s.lines, l, Lines.Equal) {
      var lh, eh := LineHits(lo, l), EdgeHits(eo, l);
      var pts := LinePoints(lh) + EdgePoints(eh);
      EdgeHitAtEndpoint(s, l, eo);
      if pts == [] {
        assert |pts| == |lh| + |eh|;
        assert AddSpec(s, Some(l), lo, eo).Some?;
      } else {
        var d := DivideLines(DivideAdded(s, l, pts), lh);
        assert AddSpec(s, Some(l), lo, eo) == DivideEdges(d, eh);
        DivideEdgesFails(d, eh);
        ghost var atEnd := exists i :: 0 <= i < |eh| && eh[i].edge.HasVertex(eh[i].vertex);
        assert DivideEdges(d, eh).None? <==> atEnd;
      }
    }
  }

  /** Cutting an edge at an inner point replaces it by its two pieces. */
  lemma EdgeStepReplaces(s: Arrangement, h: EdgeHit)
    requires !h.edge.HasVertex(h.vertex)
    ensures EdgeStep(s, h).Some?
    ensures Contains(EdgeStep(s, h).value.edges, Edge(h.edge.vertexA, h.vertex, None, None), Edges.Equal)
    ensures Contains(EdgeStep(s, h).value.edges, Edge(h.vertex, h.edge.vertexB, None, None), Edges.Equal)
    ensures !Contains(EdgeStep(s, h).value.edges, h.edge, Edges.Equal)
  {
    Edges.EqualIsEquivalence();
    var e, v := h.edge, h.vertex;
    var a, b := Edge(e.vertexA, v, None, None), Edge(v, e.vertexB, None, None);
    assert EdgeStep(s, h) == Some(s.(edges := Remove(Insert(Insert(s.edges, a, Edges.Equal), b, Edges.Equal), e, Edges.Equal)));
    ReplaceByTwo(s.edges, e, a, b, Edges.Equal);
  }

  /** Cutting an edge at an inner point keeps every other edge and adds nothing but the two pieces. */
  lemma EdgeStepKeepsOthers(s: Arrangement, h: EdgeHit)
    requires !h.edge.HasVertex(h.vertex)
    ensures EdgeStep(s, h).Some?
    ensures forall f :: f in s.edges && !Edges.Equal(f, h.edge) ==> f in EdgeStep(s, h).value.edges
    ensures forall f :: f in EdgeStep(s, h).value.edges ==>
      f in s.edges || f == Edge(h.edge.vertexA, h.vertex, None, None) || f == Edge(h.vertex, h.edge.vertexB, None, None)
  {
    var e, v := h.edge, h.vertex;
    var a, b := Edge(e.vertexA, v, None, None), Edge(v, e.vertexB, None, None);
    assert EdgeStep(s, h) == Some(s.(edges := Remove(Insert(Insert(s.edges, a, Edges.Equal), b, Edges.Equal), e, Edges.Equal)));
    ReplaceByTwoFrame(s.edges, e, a, b, Edges.Equal);
  }

  /** `divide(lines:)` loses only lines that are `==` to one of the lines it met. */
  lemma {:induction false} DivideLinesFrame(s: Arrangement, hits: seq<LineHit>, m: Line)
    requires m in s.lines && m !in DivideLines(s, hits).lines
    ensures exists i :: 0 <= i < |hits| && Lines.Equal(m, hits[i].line)
    decreases |hits|
  {
    var init := hits[..|hits| - 1];
    var t := DivideLines(s, init);
    if m in t.lines {
      assert Lines.Equal(m, hits[|hits| - 1].line);
    } else {
      DivideLinesFrame(s, init, m);
      var i :| 0 <= i < |init| && Lines.Equal(m, init[i].line);
      assert hits[i] == init[i];
    }
  }

  /** `divide(edges:)`, when it does not stop, keeps every edge that is not `==` to an edge it met. */
  lemma {:induction false} DivideEdgesFrame(s: Arrangement, hits: seq<EdgeHit>, f: Edge)
    requires DivideEdges(s, hits).Some? && f in s.edges
    requires forall i :: 0 <= i < |hits| ==> !Edges.Equal(f, hits[i].edge)
    ensures f in DivideEdges(s, hits).value.edges
    decreases |hits|
  {
    if hits != [] {
      var init := hits[..|hits| - 1];
      assert forall i :: 0 <= i < |init| ==> init[i] == hits[i];
      var t := DivideEdges(s, init);
      DivideEdgesFrame(s, init, f);
      EdgeStepKeepsOthers(t.value, hits[|hits| - 1]);
    }
  }

  /**
   * An unmarked line met at one of its endpoints is marked there and not cut:
   * the same lines up to equality, the same number of them, the same edges.
   */
  lemma MarkAtEndpoint(s: Arrangement, h: LineHit)
    requires Distinct(s.lines, Lines.Equal) && h.line in s.lines
    requires h.line.vertex.None? && (h.line.start == h.point || h.line.end == h.point)
    ensures LineStep(s, h).edges == s.edges
    ensures forall m :: Contains(LineStep(s, h).lines, m, Lines.Equal) <==> Contains(s.lines, m, Lines.Equal)
    ensures |LineStep(s, h).lines| == |s.lines|
    ensures h.line.(vertex := Some(Vertex(h.point))) in LineStep(s, h).lines
  {
    Lines.EqualIsEquivalence();
    var l := h.line;
    var m := l.(vertex := Some(Vertex(h.point)));
    assert m !in s.lines - {l};
    forall x | Contains(s.lines, x, Lines.Equal)
      ensures Contains(LineStep(s, h).lines, x, Lines.Equal)
    {
      var y :| y in s.lines && Lines.Equal(y, x);
      if y == l {
        assert m in LineStep(s, h).lines && Lines.Equal(m, x);
      } else {
        assert y in LineStep(s, h).lines;
      }
    }
  }

  /** An unmarked line met inside is replaced by its two halves, both marked at the meeting point. */
  lemma SplitInterior(s: Arrangement, h: LineHit)
    requires h.line.vertex.None? && h.line.start != h.point && h.line.end != h.point
    ensures LineStep(s, h).edges == s.edges
    ensures Contains(LineStep(s, h).lines, Line(h.line.start, h.point, None), Lines.Equal)
    ensures Contains(LineStep(s, h).lines, Line(h.point, h.line.end, None), Lines.Equal)
    ensures !Contains(LineStep(s, h).lines, h.line, Lines.Equal)
    ensures forall m :: m in LineStep(s, h).lines ==> m in s.lines || m.vertex == Some(Vertex(h.point))
  {
    Lines.EqualIsEquivalence();
    var l, p := h.line, h.point;
    var a, b := Line(l.start, p, Some(Vertex(p))), Line(p, l.end, Some(Vertex(p)));
    assert LineStep(s, h) == s.(lines := Remove(Insert(Insert(s.lines, a, Lines.Equal), b, Lines.Equal), l, Lines.Equal));
    ReplaceByTwo(s.lines, l, a, b, Lines.Equal);
    var r := LineStep(s, h).lines;
    ContainsEqual(r, a, Line(l.start, p, None), Lines.Equal);
    ContainsEqual(r, b, Line(p, l.end, None), Lines.Equal);
  }

  /**
   * A line marked at its start, met at `p`: the piece from the mark to `p`
   * becomes an edge, the piece beyond `p` stays a line marked at `p`, and no
   * line equal to the old one is left.
   */
  lemma SplitMarkedAtStart(s: Arrangement, h: LineHit)
    requires h.line.vertex.Some? && h.line.vertex.value.point == h.line.start
    requires h.point != h.line.start
    ensures Contains(LineStep(s, h).edges, Edge(h.line.vertex.value, Vertex(h.point), None, None), Edges.Equal)
    ensures h.point != h.line.end ==> Contains(LineStep(s, h).lines, Line(h.point, h.line.end, None), Lines.Equal)
    ensures !Contains(LineStep(s, h).lines, h.line, Lines.Equal)
  {
    Lines.EqualIsEquivalence();
    Edges.EqualIsEquivalence();
    var l, p, v := h.line, h.point, h.line.vertex.value;
    InsertContains(s.edges, Edge(v, Vertex(p), None, None), Edges.Equal);
    if p != l.end {
      var b := Line(p, l.end, Some(Vertex(p)));
      InsertContains(s.lines, b, Lines.Equal);
      var rb :| rb in Insert(s.lines, b, Lines.Equal) && Lines.Equal(rb, b);
      assert rb in LineStep(s, h).lines && Lines.Equal(rb, Line(p, l.end, None));
    }
  }

  /**
   * A line marked elsewhere than at its start, met at `p`: the piece from
   * the start to `p` stays a line marked at `p`, the piece from `p` to the
   * end becomes an edge, and no line equal to the old one is left.
   */
  lemma SplitMarkedElsewhere(s: Arrangement, h: LineHit)
    requires h.line.vertex.Some? && h.line.vertex.value.point != h.line.start
    requires h.point != h.line.end
    ensures Contains(LineStep(s, h).edges, Edge(Vertex(h.point), Vertex(h.line.end), None, None), Edges.Equal)
    ensures h.point != h.line.start ==> Contains(LineStep(s, h).lines, Line(h.line.start, h.point, None), Lines.Equal)
    ensures !Contains(LineStep(s, h).lines, h.line, Lines.Equal)
  {
    Lines.EqualIsEquivalence();
    Edges.EqualIsEquivalence();
    var l, p := h.line, h.point;
    InsertContains(s.edges, Edge(Vertex(p), Vertex(l.end), None, None), Edges.Equal);
    if p != l.start {
      var a := Line(l.start, p, Some(Vertex(p)));
      InsertContains(s.lines, a, Lines.Equal);
      var ra :| ra in Insert(s.lines, a, Lines.Equal) && Lines.Equal(ra, a);
      assert ra in LineStep(s, h).lines && Lines.Equal(ra, Line(l.start, p, None));
    }
  }

  // ---------------------------------------------------------------------
  // The pieces of the added line
  // ---------------------------------------------------------------------

  /** Where the piece ending at `pts[i]` starts: the previous point, or `origin` for the first. */
  function PieceStart(origin: Point, pts: seq<Point>, i: int): Point
    requires 0 <= i < |pts|
  {
    if i == 0 then origin else pts[i - 1]
  }

  /** The piece ending at `pts[i]` as a line marked at its end. */
  function LinePiece(origin: Point, pts: seq<Point>, i: int): Line
    requires 0 <= i < |pts|
  {
    Line(PieceStart(origin, pts, i), pts[i], Some(Vertex(pts[i])))
  }

  /** The piece ending at `pts[i]` as an edge. */
  function EdgePiece(origin: Point, pts: seq<Point>, i: int): Edge
    requires 0 <= i < |pts|
  {
    Edge(Vertex(PieceStart(origin, pts, i)), Vertex(pts[i]), None, None)
  }

  /** The pieces of a prefix are pieces of the whole. */
  lemma PiecesOfPrefix(origin: Point, pts: seq<Point>, n: int, i: int)
    requires 0 <= i < n <= |pts|
    ensures pts[..n][i] == pts[i]
    ensures LinePiece(origin, pts[..n], i) == LinePiece(origin, pts, i)
    ensures EdgePiece(origin, pts[..n], i) == EdgePiece(origin, pts, i)
  {
  }

  /** A set that contains `x` still does after growing. */
  lemma ContainsGrows<T>(a: set<T>, b: set<T>, x: T, eq: (T, T) -> bool)
    requires a <= b && Contains(a, x, eq)
    ensures Contains(b, x, eq)
  {
    var m :| m in a && eq(m, x);
    assert m in b;
  }

  /** One step of the cut: the piece from the current point to `p` is a line or an edge, and nothing is lost. */
  lemma CutStepPiece(c: Cursor, p: Point, first: Point)
    ensures c.arr.lines <= CutStep(c, p, first).arr.lines && c.arr.edges <= CutStep(c, p, first).arr.edges
    ensures c.current != p && p == first ==>
      Contains(CutStep(c, p, first).arr.lines, Line(c.current, p, Some(Vertex(p))), Lines.Equal)
    ensures c.current != p && p != first ==>
      Contains(CutStep(c, p, first).arr.edges, Edge(Vertex(c.current), Vertex(p), None, None), Edges.Equal)
  {
    Lines.EqualIsEquivalence();
    Edges.EqualIsEquivalence();
    if p == first && c.current != p {
      InsertContains(c.arr.lines, Line(c.current, p, Some(Vertex(p))), Lines.Equal);
    } else if p != first && c.current != p {
      InsertContains(c.arr.edges, Edge(Vertex(c.current), Vertex(p), None, None), Edges.Equal);
    }
  }

  /** One step of the cut adds nothing but the piece from the current point to `p`. */
  lemma CutStepOnlyPiece(c: Cursor, p: Point, first: Point)
    ensures forall m :: m in CutStep(c, p, first).arr.lines ==>
      m in c.arr.lines || (p == first && m == Line(c.current, p, Some(Vertex(p))))
    ensures forall e :: e in CutStep(c, p, first).arr.edges ==>
      e in c.arr.edges || (p != first && e == Edge(Vertex(c.current), Vertex(p), None, None))
  {
  }

  /** The piece of the added line that ends at the first point, unless it is a single point, is among the lines after the loop. */
  lemma {:induction false} CutWalkHasLinePiece(c: Cursor, pts: seq<Point>, first: Point, i: int)
    requires 0 <= i < |pts| && PieceStart(c.current, pts, i) != pts[i] && pts[i] == first
    ensures Contains(CutWalk(c, pts, first).arr.lines, LinePiece(c.current, pts, i), Lines.Equal)
    decreases |pts|
  {
    var n := |pts| - 1;
    var w := CutWalk(c, pts[..n], first);
    CutStepPiece(w, pts[n], first);
    if i < n {
      PiecesOfPrefix(c.current, pts, n, i);
      CutWalkHasLinePiece(c, pts[..n], first, i);
      ContainsGrows(w.arr.lines, CutWalk(c, pts, first).arr.lines, LinePiece(c.current, pts, i), Lines.Equal);
    }
  }

  /** A piece of the added line that ends at a later point, unless it is a single point, is among the edges after the loop. */
  lemma {:induction false} CutWalkHasEdgePiece(c: Cursor, pts: seq<Point>, first: Point, i: int)
    requires 0 <= i < |pts| && PieceStart(c.current, pts, i) != pts[i] && pts[i] != first
    ensures Contains(CutWalk(c, pts, first).arr.edges, EdgePiece(c.current, pts, i), Edges.Equal)
    decreases |pts|
  {
    var n := |pts| - 1;
    var w := CutWalk(c, pts[..n], first);
    CutStepPiece(w, pts[n], first);
    if i < n {
      PiecesOfPrefix(c.current, pts, n, i);
      CutWalkHasEdgePiece(c, pts[..n], first, i);
      ContainsGrows(w.arr.edges, CutWalk(c, pts, first).arr.edges, EdgePiece(c.current, pts, i), Edges.Equal);
    }
  }

  /** The only lines and edges the loop adds are pieces of the added line. */
  lemma {:induction false} CutWalkOnlyPieces(c: Cursor, pts: seq<Point>, first: Point)
    ensures forall m :: m in CutWalk(c, pts, first).arr.lines ==>
      (m in c.arr.lines || exists i :: 0 <= i < |pts| && pts[i] == first && m == LinePiece(c.current, pts, i))
    ensures forall e :: e in CutWalk(c, pts, first).arr.edges ==>
      (e in c.arr.edges || exists i :: 0 <= i < |pts| && pts[i] != first && e == EdgePiece(c.current, pts, i))
    decreases |pts|
  {
    if pts != [] {
      var n := |pts| - 1;
      var w := CutWalk(c, pts[..n], first);
      var r := CutWalk(c, pts, first);
      CutWalkOnlyPieces(c, pts[..n], first);
      CutStepOnlyPiece(w, pts[n], first);
      forall m | m in r.arr.lines && m !in c.arr.lines
        ensures exists i :: 0 <= i < |pts| && pts[i] == first && m == LinePiece(c.current, pts, i)
      {
        if m in w.arr.lines {
          var i :| 0 <= i < n && pts[..n][i] == first && m == LinePiece(c.current, pts[..n], i);
          PiecesOfPrefix(c.current, pts, n, i);
        } else {
          assert m == LinePiece(c.current, pts, n);
        }
      }
      forall e | e in r.arr.edges && e !in c.arr.edges
        ensures exists i :: 0 <= i < |pts| && pts[i] != first && e == EdgePiece(c.current, pts, i)
      {
        if e in w.arr.edges {
          var i :| 0 <= i < n && pts[..n][i] != first && e == EdgePiece(c.current, pts[..n], i);
          PiecesOfPrefix(c.current, pts, n, i);
        } else {
          assert e == EdgePiece(c.current, pts, n);
        }
      }
    }
  }

  /**
   * `divide(_:_:)`: with the points sorted by distance from the start, the
   * piece up to the first point is a line marked there, each later piece
   * between consecutive points is an edge, the piece from the last point to
   * the end is a line marked at the last point (each only when it is not a
   * single point), and nothing else is added to the graph.
   */
  lemma DivideAddedPieces(s: Arrangement, added: Line, pts: seq<Point>)
    requires pts != []
    ensures
      var sorted := SortByDistance(pts, added.start);
      var last := sorted[|sorted| - 1];
      var r := DivideAdded(s, added, pts);
      && s.lines <= r.lines && s.edges <= r.edges
      && (forall i :: 0 <= i < |sorted| && PieceStart(added.start, sorted, i) != sorted[i] && sorted[i] == sorted[0] ==>
            Contains(r.lines, LinePiece(added.start, sorted, i), Lines.Equal))
      && (forall i :: 0 <= i < |sorted| && PieceStart(added.start, sorted, i) != sorted[i] && sorted[i] != sorted[0] ==>
            Contains(r.edges, EdgePiece(added.start, sorted, i), Edges.Equal))
      && (last != added.end ==> Contains(r.lines, Line(last, added.end, Some(Vertex(last))), Lines.Equal))
      && (forall m :: m in r.lines ==>
            || m in s.lines
            || m == Line(last, added.end, Some(Vertex(last)))
            || exists i :: 0 <= i < |sorted| && sorted[i] == sorted[0] && m == LinePiece(added.start, sorted, i))
      && (forall e :: e in r.edges ==>
            e in s.edges || exists i :: 0 <= i < |sorted| && sorted[i] != sorted[0] && e == EdgePiece(added.start, sorted, i))
  {
    Lines.EqualIsEquivalence();
    var sorted := SortByDistance(pts, added.start);
    var c0 := Cursor(s, added.start);
    var w := CutWalk(c0, sorted, sorted[0]);
    forall i | 0 <= i < |sorted| && PieceStart(added.start, sorted, i) != sorted[i] && sorted[i] == sorted[0]
      ensures Contains(w.arr.lines, LinePiece(added.start, sorted, i), Lines.Equal)
    {
      CutWalkHasLinePiece(c0, sorted, sorted[0], i);
    }
    forall i | 0 <= i < |sorted| && PieceStart(added.start, sorted, i) != sorted[i] && sorted[i] != sorted[0]
      ensures Contains(w.arr.edges, EdgePiece(added.start, sorted, i), Edges.Equal)
    {
      CutWalkHasEdgePiece(c0, sorted, sorted[0], i);
    }
    CutWalkOnlyPieces(c0, sorted, sorted[0]);
    var last := sorted[|sorted| - 1];
    var tail := Line(last, added.end, Some(Vertex(last)));
    if last != added.end {
      InsertContains(w.arr.lines, tail, Lines.Equal);
      forall i | 0 <= i < |sorted| && PieceStart(added.start, sorted, i) != sorted[i] && sorted[i] == sorted[0]
        ensures Contains(DivideAdded(s, added, pts).lines, LinePiece(added.start, sorted, i), Lines.Equal)
      {
        ContainsGrows(w.arr.lines, DivideAdded(s, added, pts).lines, LinePiece(added.start, sorted, i), Lines.Equal);
      }
    }
  }
}
