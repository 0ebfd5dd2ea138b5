/**
 * The graph (GraphFaceEnumeration/Graph.swift): a set of pending lines and a
 * set of finished edges, updated in place as lines are added, and the face
 * search over the edges.
 */
module Graphs {
  import opened Wrappers
  import opened Vertices
  import opened HashedSets
  import opened Lines
  import opened Edges
  import opened Faces
  import opened Arrangements

  class Graph {
    var lines: set<Line>
    var edges: set<Edge>

    /** A new graph has no lines and no edges. */
    constructor()
      ensures lines == {} && edges == {}
    {
      lines := {};
      edges := {};
    }

    /** The two sets as a value. */
    function State(): Arrangement
      reads this
    {
      Arrangement(lines, edges)
    }

    /** No equal members in either set, and every line and edge is a proper segment. */
    ghost predicate Valid()
      reads this
    {
      State().Valid()
    }

    /** `reset`: empties both sets. */
    method Reset()
      modifies this
      ensures lines == {} && edges == {}
      ensures Valid()
    {
      lines := {};
      edges := {};
    }

    /**
     * `add`. Swift iterates the two sets in some order, `lo` and `eo`; whatever
     * the order, the new sets are those `AddSpec` gives for it. `ok` is false
     * where the program stops with `fatalError` in `divide(edges:)`.
     */
    method Add(line: Option<Line>) returns (ok: bool)
      requires line.Some? ==> line.value.Valid()
      modifies this
      ensures exists lo, eo ::
        && Enumerates(lo, old(lines)) && Enumerates(eo, old(edges))
        && AddSpec(old(State()), line, lo, eo) == if ok then Some(State()) else None
      ensures old(Valid()) && ok ==> Valid()
    {
      ghost var s := State();
      if line.None? {
        ok := true;
        var lo := SomeEnumeration(lines);
        var eo := SomeEnumeration(edges);
        assert AddSpec(s, line, lo, eo) == Some(State());
        return;
      }
      var addedLine := line.value;
      if Contains(lines, addedLine, Lines.Equal) {
        ok := true;
        var lo := SomeEnumeration(lines);
        var eo := SomeEnumeration(edges);
        assert AddSpec(s, line, lo, eo) == Some(State());
        return;
      }

      var linesIntersections, lo := LineIntersections(lines, addedLine);
      var edgesIntersections, eo := EdgeIntersections(edges, addedLine);
      var addedLineIntersectionPoints := LinePoints(linesIntersections) + EdgePoints(edgesIntersections);

      if |addedLineIntersectionPoints| == 0 {
        lines := Insert(lines, addedLine, Lines.Equal);
        ok := true;
        if old(Valid()) {
          AddValid(s, line, lo, eo);
        }
        return;
      }

      DivideAdded(addedLine, addedLineIntersectionPoints);
      DivideLines(linesIntersections);
      ok := DivideEdges(edgesIntersections);
      assert AddSpec(s, line, lo, eo) == if ok then Some(State()) else None;
      if old(Valid()) && ok {
        AddValid(s, line, lo, eo);
      }
    }

    /**
     * `divide(_:_:)`: cuts the added line at the points, sorted by distance
     * from its start.
     */
    method DivideAdded(addedLine: Line, addedLineIntersectionPoints: seq<Point>)
      modifies this
      ensures State() == Arrangements.DivideAdded(old(State()), addedLine, addedLineIntersectionPoints)
    {
      var intersectionPoints := SortByDistance(addedLineIntersectionPoints, addedLine.start);
      ghost var first := if intersectionPoints == [] then addedLine.start else intersectionPoints[0];
      var currentPoint := addedLine.start;
      for i := 0 to |intersectionPoints|
        invariant Cursor(State(), currentPoint) == CutWalk(Cursor(old(State()), addedLine.start), intersectionPoints[..i], first)
      {
        CutWalkSnoc(Cursor(old(State()), addedLine.start), intersectionPoints, i, first);
        currentPoint := Cut(currentPoint, intersectionPoints[i], intersectionPoints[0]);
      }
      assert intersectionPoints[..|intersectionPoints|] == intersectionPoints;
      match NewLine(currentPoint, addedLine.end) {
        case Some(l) =>
          lines := Insert(lines, l.(vertex := Some(Vertex(currentPoint))), Lines.Equal);
        case None =>
      }
    }

    /**
     * One pass of the loop of `divide(_:_:)`: the first point ends the
     * leading piece, which becomes a line marked there; a later point ends an
     * edge from `currentPoint`.
     */
    method Cut(currentPoint: Point, intersectionPoint: Point, first: Point) returns (next: Point)
      modifies this
      ensures Cursor(State(), next) == CutStep(Cursor(old(State()), currentPoint), intersectionPoint, first)
    {
      next := currentPoint;
      if intersectionPoint == first {
        match NewLine(currentPoint, intersectionPoint) {
          case Some(l) =>
            lines := Insert(lines, l.(vertex := Some(Vertex(intersectionPoint))), Lines.Equal);
            next := intersectionPoint;
          case None =>
        }
      } else {
        match NewEdge(Vertex(currentPoint), Vertex(intersectionPoint)) {
          case Some(edge) =>
            edges := Insert(edges, edge, Edges.Equal);
          case None =>
        }
        next := intersectionPoint;
      }
    }

    /** `divide(lines:)`: cuts or marks each line the added line meets. */
    method DivideLines(intersectionPoints: seq<LineHit>)
      modifies this
      ensures State() == Arrangements.DivideLines(old(State()), intersectionPoints)
    {
      for k := 0 to |intersectionPoints|
        invariant State() == Arrangements.DivideLines(old(State()), intersectionPoints[..k])
      {
        var intersection := intersectionPoints[k];
        var l, p := intersection.line, intersection.point;
        match l.vertex {
          case Some(vertex) =>
            if PointIs(l.start, vertex) {
              match NewEdge(vertex, Vertex(p)) {
                case Some(edge) => edges := Insert(edges, edge, Edges.Equal);
                case None =>
              }
              match NewLine(p, l.end) {
                case Some(piece) => lines := Insert(lines, piece.(vertex := Some(Vertex(p))), Lines.Equal);
                case None =>
              }
            } else {
              match NewLine(l.start, p) {
                case Some(piece) => lines := Insert(lines, piece.(vertex := Some(Vertex(p))), Lines.Equal);
                case None =>
              }
              match NewEdge(Vertex(p), Vertex(l.end)) {
                case Some(edge) => edges := Insert(edges, edge, Edges.Equal);
                case None =>
              }
            }
            lines := Remove(lines, l, Lines.Equal);
          case None =>
            if l.start == p || l.end == p {
              // the line object itself is marked, where it sits in the set
              if l in lines {
                lines := (lines - {l}) + {l.(vertex := Some(Vertex(p)))};
              }
            } else {
              match (NewLine(l.start, p), NewLine(p, l.end)) {
                case (Some(lineA), Some(lineB)) =>
                  lines := Insert(lines, lineA.(vertex := Some(Vertex(p))), Lines.Equal);
                  lines := Insert(lines, lineB.(vertex := Some(Vertex(p))), Lines.Equal);
                  lines := Remove(lines, l, Lines.Equal);
                case _ =>
                  assert false;
              }
            }
        }
        assert intersectionPoints[..k + 1][..k] == intersectionPoints[..k];
      }
      assert intersectionPoints[..|intersectionPoints|] == intersectionPoints;
    }

    /**
     * `divide(edges:)`: replaces each edge the added line meets by its two
     * pieces. `ok` is false where the program stops with `fatalError`: the
     * meeting point is an endpoint of the edge.
     */
    method DivideEdges(intersectionVertices: seq<EdgeHit>) returns (ok: bool)
      modifies this
      ensures Arrangements.DivideEdges(old(State()), intersectionVertices) == if ok then Some(State()) else None
    {
      for k := 0 to |intersectionVertices|
        invariant Arrangements.DivideEdges(old(State()), intersectionVertices[..k]) == Some(State())
      {
        var intersection := intersectionVertices[k];
        assert intersectionVertices[..k + 1][..k] == intersectionVertices[..k];
        match (NewEdge(intersection.edge.vertexA, intersection.vertex), NewEdge(intersection.vertex, intersection.edge.vertexB)) {
          case (Some(edgeA), Some(edgeB)) =>
            edges := Insert(edges, edgeA, Edges.Equal);
            edges := Insert(edges, edgeB, Edges.Equal);
            edges := Remove(edges, intersection.edge, Edges.Equal);
          case _ =>
            assert intersection.edge.HasVertex(intersection.vertex);
            DivideEdgesFails(old(State()), intersectionVertices);
            return false;
        }
      }
      assert intersectionVertices[..|intersectionVertices|] == intersectionVertices;
      return true;
    }

    /**
     * `findFaces`. Clears every tag, then walks from an untagged end of an
     * edge, always turning to the next edge clockwise, until the walk comes
     * back to the edge it started from; a walk of more than two edges is a
     * face. It starts again from the next untagged end until none is left.
     * `fuel` bounds the total number of steps of all walks; `finished` is
     * false when it ran out first. Each face found is a closed walk over
     * the graph's edges whose total is the sum of its clockwise turns.
     */
    method FindFaces(bearing: (real, real) -> real, fuel: nat) returns (faces: seq<Face>, finished: bool)
      requires Valid()
      modifies this
      ensures Valid()
      ensures lines == old(lines) && Strip(edges) == Strip(old(edges))
      ensures old(edges) == {} ==> faces == [] && finished
      ensures |old(edges)| <= 1 ==> faces == []
      ensures FoundFaces(faces, Strip(old(edges)), bearing)
      ensures finished ==> forall e :: e in edges ==> e.tagA.Some? && e.tagB.Some?
    {
      ghost var graph := Strip(edges);
      if |edges| <= 1 {
        StripAtMostOne(edges);
      }
      ClearTags();
      faces := [];
      if edges == {} {
        return faces, true;
      }
      var currentEdge :| currentEdge in edges;
      var currentVertex := currentEdge.vertexA;
      var currentTag: nat := 1;
      currentEdge := TagMember(currentEdge, currentEdge.Tag(currentVertex, currentTag));
      var startEdge := currentEdge;
      var remaining := fuel;

      while true
        invariant Valid() && lines == old(lines) && Strip(edges) == graph
        invariant startEdge in edges && startEdge.HasVertex(currentVertex)
        invariant FoundFaces(faces, graph, bearing)
        invariant |graph| <= 1 ==> faces == []
        decreases Ends(edges)
      {
        var next, exhausted;
        faces, next, exhausted, remaining := Round(faces, startEdge, currentVertex, currentTag, bearing, remaining);
        if |graph| <= 1 {
          SingleEdgeNoFaces(faces, graph, bearing);
        }
        if exhausted {
          return faces, false;
        }
        currentTag := currentTag + 1;
        match next {
          case None => return faces, true;
          case Some((edge, vertex)) => startEdge, currentVertex := edge, vertex;
        }
      }
    }

    /** The `forEach` at the start of `findFaces`: every tag is cleared, nothing else changes. */
    method ClearTags()
      requires Valid()
      modifies this
      ensures edges == Strip(old(edges)) && lines == old(lines)
      ensures Valid() && forall e :: e in edges ==> e.tagA.None? && e.tagB.None?
      ensures Strip(edges) == Strip(old(edges))
    {
      StripValid(edges);
      edges := Strip(edges);
    }

    /**
     * One pass of the outer loop of `findFaces`: the walk from `startEdge`,
     * its face appended when it is one, and the next start (none when every
     * end is tagged), tagged with `currentTag + 1`.
     */
    method Round(faces: seq<Face>, startEdge: Edge, startVertex: Vertex, currentTag: nat, bearing: (real, real) -> real, fuel: nat)
      returns (faces': seq<Face>, next: Option<(Edge, Vertex)>, exhausted: bool, remaining: nat)
      requires Valid() && startEdge in edges && startEdge.HasVertex(startVertex)
      requires FoundFaces(faces, Strip(edges), bearing)
      modifies this
      ensures Valid() && lines == old(lines) && Strip(edges) == Strip(old(edges))
      ensures FoundFaces(faces', Strip(old(edges)), bearing)
      ensures faces' == faces || (|faces'| == |faces| + 1 && faces'[..|faces|] == faces)
      ensures exhausted ==> faces' == faces
      ensures !exhausted && next.Some? ==> Ends(edges) < Ends(old(edges)) && next.value.0 in edges && next.value.0.HasVertex(next.value.1)
      ensures !exhausted && next.None? ==> forall e :: e in edges ==> e.tagA.Some? && e.tagB.Some?
    {
      var currentFace, found;
      currentFace, found, exhausted, remaining := Walk(startEdge, startVertex, currentTag, bearing, fuel);
      faces' := faces;
      if exhausted {
        return faces', None, true, remaining;
      }
      if found {
        FoundFacesAppend(faces, currentFace, Strip(old(edges)), bearing);
        faces' := faces + [currentFace];
        assert faces'[..|faces|] == faces;
      }
      next := Restart(currentTag + 1);
    }

    /**
     * The end of the outer loop of `findFaces`: an edge with an untagged end,
     * that end tagged with `currentTag`, and its vertex; none when
     * every end is tagged.
     */
    method Restart(currentTag: nat) returns (start: Option<(Edge, Vertex)>)
      requires Valid()
      modifies this
      ensures Valid() && lines == old(lines) && Strip(edges) == Strip(old(edges))
      ensures start.None? ==> edges == old(edges) && forall e :: e in edges ==> e.tagA.Some? && e.tagB.Some?
      ensures start.Some? ==> Ends(edges) < Ends(old(edges)) && start.value.0 in edges && start.value.0.HasVertex(start.value.1)
      ensures start.Some? ==>
        exists e :: e in old(edges) && (e.tagA.None? || e.tagB.None?) &&
          edges == (old(edges) - {e}) + {start.value.0} &&
          start.value == (if e.tagA.None? then (e.(tagA := Some(currentTag)), e.vertexA) else (e.(tagB := Some(currentTag)), e.vertexB))
    {
      var currentEdge;
      if exists e :: e in edges && (e.tagA.None? || e.tagB.None?) {
        currentEdge :| currentEdge in edges && (currentEdge.tagA.None? || currentEdge.tagB.None?);
      } else {
        return None;
      }
      ghost var e := currentEdge;
      var currentVertex;
      if currentEdge.tagA.None? {
        currentVertex := currentEdge.vertexA;
        currentEdge := TagMember(currentEdge, currentEdge.(tagA := Some(currentTag)));
      } else {
        currentVertex := currentEdge.vertexB;
        currentEdge := TagMember(currentEdge, currentEdge.(tagB := Some(currentTag)));
      }
      return Some((currentEdge, currentVertex));
    }

    /**
     * One step of the walk in `findFaces`: append the chosen edge and its
     * turning angle to the face, cross the edge to its far end, and tag the
     * edge at that end.
     */
    method Advance(face: Face, ghost previous: Edge, next: Edge, vertex: Vertex, angle: real, currentTag: nat,
                   ghost graph: set<Edge>, bearing: (real, real) -> real)
      returns (edge: Edge, opposite: Vertex)
      requires Valid() && Strip(edges) == graph
      requires next in edges && next.HasVertex(vertex)
      requires CalculateAngleClockwise(previous, next, bearing) == Some(angle)
      requires OpenWalk(face.edges, graph) && Last(face.edges).Stripped() == previous.Stripped()
      requires face.totalDegrees == Turns(face.edges, bearing)
      modifies this, face
      ensures Valid() && lines == old(lines) && Strip(edges) == graph
      ensures Ends(edges) <= Ends(old(edges))
      ensures face.edges == old(face.edges) + [next]
      ensures OpenWalk(face.edges, graph) && Last(face.edges).Stripped() == edge.Stripped()
      ensures face.totalDegrees == Turns(face.edges, bearing)
      ensures next.Opposite(vertex) == Some(opposite) && edge == next.Tag(opposite, currentTag)
      ensures edges == (old(edges) - {next}) + {edge} && edge in edges && edge.HasVertex(opposite)
    {
      AngleIgnoresTags(previous, Last(face.edges), next, next, bearing);
      ExtendWalk(face.edges, next, graph, bearing);
      face.edges := face.edges + [next];
      face.totalDegrees := face.totalDegrees + angle;
      match next.Opposite(vertex) {
        case Some(v) =>
          opposite := v;
        case None =>
          assert false;
      }
      edge := TagMember(next, next.Tag(opposite, currentTag));
    }

    /**
     * The end of a walk in `findFaces`: the chosen edge is the start edge
     * again, so its turning angle is the last one the face adds up.
     */
    method Close(face: Face, ghost previous: Edge, next: Edge, angle: real,
                 ghost graph: set<Edge>, bearing: (real, real) -> real)
      requires OpenWalk(face.edges, graph) && |face.edges| > 2 && Edges.Equal(next, face.edges[0])
      requires ClosesClockwise(face.edges, graph, bearing) && FirstReturn(face.edges)
      requires Last(face.edges).Stripped() == previous.Stripped()
      requires CalculateAngleClockwise(previous, next, bearing) == Some(angle)
      requires face.totalDegrees == Turns(face.edges, bearing)
      modifies face
      ensures face.edges == old(face.edges)
      ensures FoundFace(face, graph, bearing)
    {
      AngleIgnoresTags(previous, Last(face.edges), next, face.edges[0], bearing);
      CloseWalk(face.edges, graph, bearing);
      face.totalDegrees := face.totalDegrees + angle;
    }

    /**
     * The inner loop of `findFaces`: a new face holding `startEdge`, extended
     * by the next edge clockwise at the current vertex, whose far end is then
     * tagged, until the next edge is `startEdge` again. `found` says the walk
     * has more than two edges and is appended to the faces. `exhausted` says
     * the fuel ran out first.
     */
    method Walk(startEdge: Edge, startVertex: Vertex, currentTag: nat, bearing: (real, real) -> real, fuel: nat)
      returns (currentFace: Face, found: bool, exhausted: bool, remaining: nat)
      requires Valid() && startEdge in edges && startEdge.HasVertex(startVertex)
      modifies this
      ensures Valid() && lines == old(lines) && Strip(edges) == Strip(old(edges))
      ensures Ends(edges) <= Ends(old(edges))
      ensures fresh(currentFace) && currentFace.edges != [] && currentFace.edges[0] == startEdge
      ensures found ==> FoundFace(currentFace, Strip(old(edges)), bearing)
      ensures !exhausted ==> ClosesClockwise(currentFace.edges, Strip(old(edges)), bearing)
      ensures !exhausted ==> (found <==> |currentFace.edges| > 2)
      ensures FirstReturn(currentFace.edges)
    {
      ghost var graph := Strip(edges);
      var currentEdge, currentVertex := startEdge, startVertex;
      currentFace := new Face();
      currentFace.edges := currentFace.edges + [startEdge];
      ghost var ws := [startVertex];
      remaining := fuel;

      while true
        invariant Valid() && lines == old(lines) && Strip(edges) == graph
        invariant Ends(edges) <= Ends(old(edges))
        invariant currentEdge in edges && currentEdge.HasVertex(currentVertex)
        invariant startEdge.Stripped() in graph
        invariant fresh(currentFace)
        invariant OpenWalk(currentFace.edges, graph) && currentFace.edges[0] == startEdge
        invariant Last(currentFace.edges).Stripped() == currentEdge.Stripped()
        invariant currentFace.totalDegrees == Turns(currentFace.edges, bearing)
        invariant TightestWalk(currentFace.edges, ws, graph, bearing) && ws[|ws| - 1] == currentVertex
        invariant FirstReturn(currentFace.edges)
        decreases remaining
      {
        if remaining == 0 {
          return currentFace, false, true, remaining;
        }
        remaining := remaining - 1;
        // the working edge itself is always a candidate, at 360 degrees
        assert CalculateAngleClockwise(currentEdge, currentEdge, bearing) == Some(360.0);
        var clockwiseAngle := NextEdgeClockwise(currentVertex, currentEdge, edges, bearing);
        assert clockwiseAngle.Some?;
        ghost var previous := currentEdge;
        currentEdge := clockwiseAngle.value.edge;
        var currentAngle := clockwiseAngle.value.degrees;
        ScanIsTightest(previous, Last(currentFace.edges), clockwiseAngle.value, currentVertex, edges, bearing);

        if Edges.Equal(currentEdge, startEdge) {
          TightestEqual(Last(currentFace.edges), currentEdge, startEdge, currentVertex, graph, bearing);
          assert ClosesClockwise(currentFace.edges, graph, bearing);
          if |currentFace.edges| > 2 {
            Close(currentFace, previous, currentEdge, currentAngle, graph, bearing);
            return currentFace, true, false, remaining;
          }
          return currentFace, false, false, remaining;
        }

        ghost var walk := currentFace.edges;
        ghost var at := currentVertex;
        currentEdge, currentVertex := Advance(currentFace, previous, currentEdge, currentVertex, currentAngle, currentTag, graph, bearing);
        ExtendTightest(walk, ws, clockwiseAngle.value.edge, currentVertex, graph, bearing);
        ExtendFirstReturn(walk, clockwiseAngle.value.edge);
        ws := ws + [currentVertex];
      }
    }

    /**
     * Changes the member `e` of `edges` into `e'`, the same edge with other
     * tags, and returns `e'`: the Swift code changes the edge object in place.
     */
    method TagMember(e: Edge, e': Edge) returns (r: Edge)
      requires Valid() && e in edges && e'.Stripped() == e.Stripped()
      modifies this
      ensures r == e' && edges == (old(edges) - {e}) + {e'} && lines == old(lines)
      ensures Valid() && r in edges && Strip(edges) == Strip(old(edges))
      ensures (e'.tagA.None? ==> e.tagA.None?) && (e'.tagB.None? ==> e.tagB.None?) ==> Ends(edges) <= Ends(old(edges))
      ensures e.tagA.None? && e'.tagA.Some? ==> (e.Stripped(), true) in Ends(old(edges)) - Ends(edges)
      ensures e.tagB.None? && e'.tagB.Some? ==> (e.Stripped(), false) in Ends(old(edges)) - Ends(edges)
    {
      ReplaceMember(edges, e, e');
      ReplaceEnds(edges, e, e');
      edges := (edges - {e}) + {e'};
      r := e';
    }
  }

  /**
   * The first loop of `add`: the lines that meet the added line, with the
   * points, in the order `lo` in which the set is visited.
   */
  method LineIntersections(lines: set<Line>, addedLine: Line) returns (hits: seq<LineHit>, ghost lo: seq<Line>)
    ensures Enumerates(lo, lines)
    ensures hits == LineHits(lo, addedLine)
  {
    hits := [];
    lo := [];
    var rest := lines;
    while rest != {}
      invariant rest <= lines
      invariant forall x :: x in lo <==> x in lines && x !in rest
      invariant forall i, j :: 0 <= i < j < |lo| ==> lo[i] != lo[j]
      invariant hits == LineHits(lo, addedLine)
      decreases rest
    {
      var line :| line in rest;
      var intersectionPoint := line.Intersection(addedLine);
      LineHitsSnoc(lo, line, addedLine, intersectionPoint);
      if intersectionPoint.Some? {
        hits := hits + [LineHit(line, intersectionPoint.value)];
      }
      rest := rest - {line};
      lo := lo + [line];
    }
  }

  /**
   * The second loop of `add`: the edges that meet the added line, with the
   * vertices, in the order `eo` in which the set is visited.
   */
  method EdgeIntersections(edges: set<Edge>, addedLine: Line) returns (hits: seq<EdgeHit>, ghost eo: seq<Edge>)
    ensures Enumerates(eo, edges)
    ensures hits == EdgeHits(eo, addedLine)
  {
    hits := [];
    eo := [];
    var rest := edges;
    while rest != {}
      invariant rest <= edges
      invariant forall x :: x in eo <==> x in edges && x !in rest
      invariant forall i, j :: 0 <= i < j < |eo| ==> eo[i] != eo[j]
      invariant hits == EdgeHits(eo, addedLine)
      decreases rest
    {
      var edge :| edge in rest;
      var intersectionVertex := edge.Intersects(addedLine);
      EdgeHitsSnoc(eo, edge, addedLine, intersectionVertex);
      if intersectionVertex.Some? {
        hits := hits + [EdgeHit(edge, intersectionVertex.value)];
      }
      rest := rest - {edge};
      eo := eo + [edge];
    }
  }

  /** A candidate turn of `nextEdgeClockwise`: the next edge and the clockwise angle to it. */
  datatype Turn = Turn(edge: Edge, degrees: real)

  /**
   * `nextEdgeClockwise`: of the edges at `workingVertex` that share a vertex
   * with `workingEdge`, one with the smallest clockwise angle from
   * `workingEdge`; none when there is no such edge. Swift sorts the
   * candidates by angle and takes the first; the scan below keeps the first
   * smallest one in the order the set is visited.
   */
  method NextEdgeClockwise(workingVertex: Vertex, workingEdge: Edge, edges: set<Edge>, bearing: (real, real) -> real)
    returns (r: Option<Turn>)
    ensures r.None? <==> forall e :: e in edges && e.HasVertex(workingVertex) ==> CalculateAngleClockwise(workingEdge, e, bearing).None?
    ensures r.Some? ==> r.value.edge in edges && r.value.edge.HasVertex(workingVertex)
    ensures r.Some? ==> CalculateAngleClockwise(workingEdge, r.value.edge, bearing) == Some(r.value.degrees)
    ensures r.Some? ==> forall e :: e in edges && e.HasVertex(workingVertex) && CalculateAngleClockwise(workingEdge, e, bearing).Some? ==>
      r.value.degrees <= CalculateAngleClockwise(workingEdge, e, bearing).value
  {
    var foundEdges := CollectTurns(workingVertex, workingEdge, edges, bearing);
    if |foundEdges| == 0 {
      return None;
    }
    var best := Smallest(foundEdges);
    return Some(best);
  }

  /** The loop of `nextEdgeClockwise`: the turn to every edge at `workingVertex` that has an angle. */
  method CollectTurns(workingVertex: Vertex, workingEdge: Edge, edges: set<Edge>, bearing: (real, real) -> real)
    returns (foundEdges: seq<Turn>)
    ensures forall t :: t in foundEdges ==> Candidate(t, workingVertex, workingEdge, edges, bearing)
    ensures forall e :: e in edges && e.HasVertex(workingVertex) && CalculateAngleClockwise(workingEdge, e, bearing).Some? ==>
      Turn(e, CalculateAngleClockwise(workingEdge, e, bearing).value) in foundEdges
  {
    foundEdges := [];
    var rest := edges;
    while rest != {}
      invariant rest <= edges
      invariant forall t :: t in foundEdges ==> Candidate(t, workingVertex, workingEdge, edges, bearing)
      invariant forall e :: e in edges && e !in rest && e.HasVertex(workingVertex) && CalculateAngleClockwise(workingEdge, e, bearing).Some? ==>
        Turn(e, CalculateAngleClockwise(workingEdge, e, bearing).value) in foundEdges
      decreases rest
    {
      var edge :| edge in rest;
      if edge.HasVertex(workingVertex) {
        match CalculateAngleClockwise(workingEdge, edge, bearing) {
          case Some(degree) => foundEdges := foundEdges + [Turn(edge, degree)];
          case None =>
        }
      }
      rest := rest - {edge};
    }
  }

  /** The first element after sorting by angle: a turn of least angle. */
  method Smallest(turns: seq<Turn>) returns (best: Turn)
    requires |turns| > 0
    ensures best in turns
    ensures forall t :: t in turns ==> best.degrees <= t.degrees
  {
    best := turns[0];
    for i := 1 to |turns|
      invariant best in turns
      invariant forall j :: 0 <= j < i ==> best.degrees <= turns[j].degrees
    {
      if turns[i].degrees < best.degrees {
        best := turns[i];
      }
    }
  }

  /** `t` turns from `workingEdge` to an edge at `workingVertex`, by the clockwise angle between them. */
  predicate Candidate(t: Turn, workingVertex: Vertex, workingEdge: Edge, edges: set<Edge>, bearing: (real, real) -> real)
  {
    && t.edge in edges && t.edge.HasVertex(workingVertex)
    && CalculateAngleClockwise(workingEdge, t.edge, bearing) == Some(t.degrees)
  }

  // ---------------------------------------------------------------------
  // What findFaces promises about the faces it returns
  // ---------------------------------------------------------------------

  /** The edges with their tags cleared: the graph as `findFaces` leaves it apart from the tags. */
  function Strip(edges: set<Edge>): (r: set<Edge>)
    ensures forall e :: e in edges ==> e.Stripped() in r
  {
    set e | e in edges :: e.Stripped()
  }

  /** Clearing the tags adds nothing but the untagged copies of the edges. */
  lemma StripMembers(edges: set<Edge>, e': Edge)
    requires e' in Strip(edges)
    ensures e'.tagA.None? && e'.tagB.None?
    ensures exists e :: e in edges && e.Stripped() == e'
  {
  }

  /** The ends of the edges that are not tagged yet; `true` stands for `vertexA`. */
  ghost function Ends(edges: set<Edge>): set<(Edge, bool)>
  {
    set e, atA: bool | e in edges && (if atA then e.tagA.None? else e.tagB.None?) :: (e.Stripped(), atA)
  }

  function Last(edges: seq<Edge>): Edge
    requires edges != []
  {
    edges[|edges| - 1]
  }

  /** The clockwise angle from `a` to `b`, none counting as 0. */
  function TurnAngle(a: Edge, b: Edge, bearing: (real, real) -> real): real
  {
    match CalculateAngleClockwise(a, b, bearing)
    case Some(d) => d
    case None => 0.0
  }

  /** The sum of the turns along a walk, from each edge to the next. */
  function Turns(edges: seq<Edge>, bearing: (real, real) -> real): real
  {
    if |edges| <= 1 then 0.0
    else Turns(edges[..|edges| - 1], bearing) + TurnAngle(edges[|edges| - 2], edges[|edges| - 1], bearing)
  }

  /** The sum of the turns around a closed walk, including the turn from the last edge back to the first. */
  function ClosedTurns(edges: seq<Edge>, bearing: (real, real) -> real): real
  {
    if edges == [] then 0.0 else Turns(edges, bearing) + TurnAngle(Last(edges), edges[0], bearing)
  }

  /** A walk in progress: each edge shares a vertex with the next, and every edge is one of `graph`'s. */
  predicate OpenWalk(edges: seq<Edge>, graph: set<Edge>)
  {
    && edges != []
    && (forall i :: 0 <= i < |edges| - 1 ==> Adjacent(edges[i], edges[i + 1]))
    && (forall e :: e in edges ==> e.Stripped() in graph)
  }

  /** A face as `findFaces` returns it. */
  ghost predicate FoundFace(f: Face, graph: set<Edge>, bearing: (real, real) -> real)
    reads f
  {
    && |f.edges| > 2
    && IsClosedWalk(f.edges)
    && (forall e :: e in f.edges ==> e.Stripped() in graph)
    && f.totalDegrees == ClosedTurns(f.edges, bearing)
    && ClosesClockwise(f.edges, graph, bearing)
    && FirstReturn(f.edges)
  }

  /** The walk ends the first time it comes back to its start edge: no later edge is `==` to it. */
  predicate FirstReturn(walk: seq<Edge>)
  {
    forall i :: 0 < i < |walk| ==> !Edges.Equal(walk[i], walk[0])
  }

  /** One more edge not `==` to the start edge keeps the start edge at position 0 only. */
  lemma ExtendFirstReturn(walk: seq<Edge>, e: Edge)
    requires walk != [] && FirstReturn(walk) && !Edges.Equal(e, walk[0])
    ensures FirstReturn(walk + [e])
  {
    var w := walk + [e];
    forall i | 0 < i < |w|
      ensures !Edges.Equal(w[i], w[0])
    {
      if i < |walk| {
        assert w[i] == walk[i];
      }
    }
  }

  /** Two members of a set of at most one element are the same. */
  lemma AtMostOneMember<T>(s: set<T>, a: T, b: T)
    requires |s| <= 1 && a in s && b in s
    ensures a == b
  {
    assert |s - {a}| == |s| - 1;
    assert s - {a} == {};
  }

  /**
   * A graph of at most one edge has no face: every walk over it runs that
   * edge again at its second step, where the walk stops.
   */
  lemma SingleEdgeNoFaces(faces: seq<Face>, graph: set<Edge>, bearing: (real, real) -> real)
    requires |graph| <= 1 && FoundFaces(faces, graph, bearing)
    ensures faces == []
  {
    if faces != [] {
      var f := faces[0];
      assert FoundFace(f, graph, bearing);
      AtMostOneMember(graph, f.edges[0].Stripped(), f.edges[1].Stripped());
      assert Edges.Equal(f.edges[1], f.edges[0]);
      assert false;
    }
  }

  /** Clearing the tags of at most one edge leaves at most one edge. */
  lemma StripAtMostOne(edges: set<Edge>)
    requires |edges| <= 1
    ensures |Strip(edges)| <= 1
  {
    if edges != {} {
      var e :| e in edges;
      assert edges == {e} by {
        forall x | x in edges ensures x == e { AtMostOneMember(edges, x, e); }
      }
      assert Strip(edges) == {e.Stripped()};
    }
  }

  /**
   * The turn from `a` to `b` at vertex `w` is the one `nextEdgeClockwise`
   * takes: `b` ends at `w`, has an angle from `a`, and no edge of `graph` at
   * `w` has a smaller one.
   */
  ghost predicate TightestTurn(a: Edge, b: Edge, w: Vertex, graph: set<Edge>, bearing: (real, real) -> real)
  {
    && b.HasVertex(w)
    && CalculateAngleClockwise(a, b, bearing).Some?
    && forall e :: e in graph && e.HasVertex(w) && CalculateAngleClockwise(a, e, bearing).Some? ==>
         CalculateAngleClockwise(a, b, bearing).value <= CalculateAngleClockwise(a, e, bearing).value
  }

  /**
   * The walk stands at vertex `ws[i]` on edge `walk[i]`: it starts at an end
   * of the first edge, every next edge is the tightest clockwise turn at the
   * current vertex, and the walk crosses that edge to its far end.
   */
  ghost predicate TightestWalk(walk: seq<Edge>, ws: seq<Vertex>, graph: set<Edge>, bearing: (real, real) -> real)
  {
    && |ws| == |walk| > 0
    && walk[0].HasVertex(ws[0])
    && forall i :: 0 <= i < |walk| - 1 ==>
         TightestTurn(walk[i], walk[i + 1], ws[i], graph, bearing) && walk[i + 1].Opposite(ws[i]) == Some(ws[i + 1])
  }

  /** A walk by tightest clockwise turns whose next tightest turn leads back to its first edge. */
  ghost predicate ClosesClockwise(walk: seq<Edge>, graph: set<Edge>, bearing: (real, real) -> real)
  {
    exists ws :: TightestWalk(walk, ws, graph, bearing) && TightestTurn(Last(walk), walk[0], ws[|ws| - 1], graph, bearing)
  }

  /**
   * The edge `nextEdgeClockwise` picks from the tagged edges is the tightest
   * turn in the graph without tags, from any copy of the working edge.
   */
  lemma ScanIsTightest(previous: Edge, last: Edge, t: Turn, w: Vertex, edges: set<Edge>, bearing: (real, real) -> real)
    requires last.Stripped() == previous.Stripped()
    requires t.edge in edges && t.edge.HasVertex(w) && CalculateAngleClockwise(previous, t.edge, bearing) == Some(t.degrees)
    requires forall e :: e in edges && e.HasVertex(w) && CalculateAngleClockwise(previous, e, bearing).Some? ==>
      t.degrees <= CalculateAngleClockwise(previous, e, bearing).value
    ensures TightestTurn(last, t.edge, w, Strip(edges), bearing)
  {
    AngleIgnoresTags(previous, last, t.edge, t.edge, bearing);
    forall e | e in Strip(edges) && e.HasVertex(w) && CalculateAngleClockwise(last, e, bearing).Some?
      ensures CalculateAngleClockwise(last, t.edge, bearing).value <= CalculateAngleClockwise(last, e, bearing).value
    {
      var x :| x in edges && x.Stripped() == e;
      AngleIgnoresTags(previous, last, x, e, bearing);
    }
  }

  /** A tightest turn to an edge is a tightest turn to any edge `==` to it. */
  lemma TightestEqual(a: Edge, b: Edge, b': Edge, w: Vertex, graph: set<Edge>, bearing: (real, real) -> real)
    requires TightestTurn(a, b, w, graph, bearing) && Edges.Equal(b, b')
    ensures TightestTurn(a, b', w, graph, bearing)
  {
    AngleIgnoresTags(a, a, b, b', bearing);
  }

  /** One more tightest turn, crossed to the far end, extends a walk by tightest turns. */
  lemma ExtendTightest(walk: seq<Edge>, ws: seq<Vertex>, e: Edge, v: Vertex, graph: set<Edge>, bearing: (real, real) -> real)
    requires TightestWalk(walk, ws, graph, bearing)
    requires TightestTurn(Last(walk), e, ws[|ws| - 1], graph, bearing) && e.Opposite(ws[|ws| - 1]) == Some(v)
    ensures TightestWalk(walk + [e], ws + [v], graph, bearing)
  {
    var w, vs := walk + [e], ws + [v];
    forall i | 0 <= i < |w| - 1
      ensures TightestTurn(w[i], w[i + 1], vs[i], graph, bearing) && w[i + 1].Opposite(vs[i]) == Some(vs[i + 1])
    {
      if i < |walk| - 1 {
        assert w[i] == walk[i] && w[i + 1] == walk[i + 1] && vs[i] == ws[i] && vs[i + 1] == ws[i + 1];
      } else {
        assert w[i] == Last(walk) && w[i + 1] == e && vs[i] == ws[|ws| - 1] && vs[i + 1] == v;
      }
    }
  }

  /** Every face of the sequence is one `findFaces` returns. */
  ghost predicate FoundFaces(faces: seq<Face>, graph: set<Edge>, bearing: (real, real) -> real)
    reads faces
  {
    forall i :: 0 <= i < |faces| ==> FoundFace(faces[i], graph, bearing)
  }

  lemma FoundFacesAppend(faces: seq<Face>, f: Face, graph: set<Edge>, bearing: (real, real) -> real)
    requires FoundFaces(faces, graph, bearing) && FoundFace(f, graph, bearing)
    ensures FoundFaces(faces + [f], graph, bearing)
  {
  }

  /** Clearing the tags keeps the edges distinct and valid, and clears every end. */
  lemma StripValid(edges: set<Edge>)
    requires Distinct(edges, Edges.Equal) && forall e :: e in edges ==> e.Valid()
    ensures Distinct(Strip(edges), Edges.Equal) && forall e :: e in Strip(edges) ==> e.Valid()
    ensures forall e :: e in Strip(edges) ==> e.tagA.None? && e.tagB.None?
    ensures Strip(Strip(edges)) == Strip(edges)
  {
    forall a, b | a in Strip(edges) && b in Strip(edges) && Edges.Equal(a, b)
      ensures a == b
    {
      var x :| x in edges && x.Stripped() == a;
      var y :| y in edges && y.Stripped() == b;
      assert Edges.Equal(x, y);
    }
  }

  /** Retagging a member keeps the edges distinct and valid, and the graph without its tags the same. */
  lemma ReplaceMember(edges: set<Edge>, e: Edge, e': Edge)
    requires Distinct(edges, Edges.Equal) && forall x :: x in edges ==> x.Valid()
    requires e in edges && e'.Stripped() == e.Stripped()
    ensures Distinct((edges - {e}) + {e'}, Edges.Equal)
    ensures forall x :: x in (edges - {e}) + {e'} ==> x.Valid()
    ensures Strip((edges - {e}) + {e'}) == Strip(edges)
  {
    var n := (edges - {e}) + {e'};
    forall a, b | a in n && b in n && Edges.Equal(a, b)
      ensures a == b
    {
      var a0 := if a == e' then e else a;
      var b0 := if b == e' then e else b;
      assert Edges.Equal(a0, b0);
    }
    forall x | x in Strip(edges)
      ensures x in Strip(n)
    {
      var y :| y in edges && y.Stripped() == x;
      if y == e {
        assert e'.Stripped() == x;
      }
    }
  }

  /**
   * Tagging an end of a member never brings back an untagged end, and when
   * an untagged end is tagged it is no longer untagged.
   */
  lemma ReplaceEnds(edges: set<Edge>, e: Edge, e': Edge)
    requires Distinct(edges, Edges.Equal)
    requires e in edges && e'.Stripped() == e.Stripped()
    ensures (e'.tagA.None? ==> e.tagA.None?) && (e'.tagB.None? ==> e.tagB.None?) ==> Ends((edges - {e}) + {e'}) <= Ends(edges)
    ensures e.tagA.None? && e'.tagA.Some? ==> (e.Stripped(), true) in Ends(edges) - Ends((edges - {e}) + {e'})
    ensures e.tagB.None? && e'.tagB.Some? ==> (e.Stripped(), false) in Ends(edges) - Ends((edges - {e}) + {e'})
  {
    var n := (edges - {e}) + {e'};
    forall x | x in n
      ensures x != e' ==> x in edges && x.Stripped() != e.Stripped()
    {
      if x != e' {
        assert x in edges && x != e;
        assert x.Stripped() == e.Stripped() ==> Edges.Equal(x, e);
      }
    }
    if e.tagA.None? {
      assert (e.Stripped(), true) in Ends(edges);
    }
    if e.tagB.None? {
      assert (e.Stripped(), false) in Ends(edges);
    }
  }

  /** One more edge at the end of a walk: one more turn. */
  lemma ExtendWalk(walk: seq<Edge>, e: Edge, graph: set<Edge>, bearing: (real, real) -> real)
    requires OpenWalk(walk, graph) && Adjacent(Last(walk), e) && e.Stripped() in graph
    ensures OpenWalk(walk + [e], graph) && Last(walk + [e]) == e
    ensures Turns(walk + [e], bearing) == Turns(walk, bearing) + TurnAngle(Last(walk), e, bearing)
  {
    var w := walk + [e];
    assert w[..|walk|] == walk;
    assert w[|w| - 2] == Last(walk) && w[|w| - 1] == e;
    forall i | 0 <= i < |w| - 1
      ensures Adjacent(w[i], w[i + 1])
    {
      if i < |walk| - 1 {
        assert w[i] == walk[i] && w[i + 1] == walk[i + 1];
      }
    }
    forall x | x in w
      ensures x.Stripped() in graph
    {
      if x != e {
        assert x in walk;
      }
    }
  }

  /** A walk of more than two edges whose last edge meets the first is closed. */
  lemma CloseWalk(walk: seq<Edge>, graph: set<Edge>, bearing: (real, real) -> real)
    requires OpenWalk(walk, graph) && |walk| > 2 && Adjacent(Last(walk), walk[0])
    ensures IsClosedWalk(walk) && forall e :: e in walk ==> e.Stripped() in graph
    ensures ClosedTurns(walk, bearing) == Turns(walk, bearing) + TurnAngle(Last(walk), walk[0], bearing)
  {
  }

  /**
   * The clockwise angle depends only on the endpoints: not on the tags of
   * the first edge, nor on the direction or the tags of the second.
   */
  lemma AngleIgnoresTags(a: Edge, a': Edge, b: Edge, b': Edge, bearing: (real, real) -> real)
    requires a.Stripped() == a'.Stripped() && Edges.Equal(b, b')
    ensures CalculateAngleClockwise(a, b, bearing) == CalculateAngleClockwise(a', b', bearing)
    ensures a.CommonVertex(b) == a'.CommonVertex(b')
  {
  }
}
