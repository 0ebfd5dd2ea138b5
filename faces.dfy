/** Graph faces (GraphFaceEnumeration/Face.swift). */
module Faces {
  import opened Edges
  import opened FaceTypes

  /** Two edges follow each other in a walk when they share an endpoint. */
  predicate Adjacent(e: Edge, f: Edge)
  {
    e.CommonVertex(f).Some?
  }

  /**
   * The edges form a circle: at least three of them, each sharing a vertex
   * with the next, and the last sharing one with the first.
   */
  predicate IsClosedWalk(edges: seq<Edge>)
  {
    && |edges| >= 3
    && (forall i :: 0 <= i < |edges| - 1 ==> Adjacent(edges[i], edges[i + 1]))
    && Adjacent(edges[|edges| - 1], edges[0])
  }

  /**
   * `Int(x.rounded())`: the nearest integer, halves rounded away from zero
   * (Swift's default rounding rule).
   */
  function Rounded(x: real): (r: int)
    ensures x >= 0.0 ==> -0.5 <= x - r as real < 0.5
    ensures x < 0.0 ==> -0.5 < x - r as real <= 0.5
  {
    if x >= 0.0 then (x + 0.5).Floor else -((-x + 0.5).Floor)
  }

  /** Rounding leaves whole numbers alone and is symmetric about zero. */
  lemma RoundedProperties(x: real, n: int)
    ensures Rounded(n as real) == n
    ensures Rounded(-x) == -Rounded(x)
  {
  }

  /**
   * A face found by `findFaces`: the edges of a walk in walk order, and the
   * sum of the clockwise turning angles along it. `findFaces` appends to
   * both fields in place.
   */
  class Face {
    var edges: seq<Edge>
    var totalDegrees: real

    /** `init`: no edges, no angle yet. */
    constructor()
      ensures edges == [] && totalDegrees == 0.0
    {
      edges := [];
      totalDegrees := 0.0;
    }

    /** `isFace`: whether the edges form a circle. */
    method IsFace() returns (b: bool)
      ensures b == IsClosedWalk(edges)
      ensures |edges| < 3 ==> !b
    {
      if |edges| < 3 {
        return false;
      }
      var startEdge := edges[0];
      var lastEdge := startEdge;
      for i := 1 to |edges|
        invariant lastEdge == edges[i - 1]
        invariant forall j :: 0 <= j < i - 1 ==> Adjacent(edges[j], edges[j + 1])
      {
        if lastEdge.CommonVertex(edges[i]).Some? {
          lastEdge := edges[i];
        } else {
          return false;
        }
      }
      if lastEdge.CommonVertex(startEdge).None? {
        return false;
      }
      return true;
    }

    /**
     * `type`: `unknown` unless the edges form a circle; `inner` when the
     * rounded total is at most 180·(n−2); `outer` when it is exactly
     * 180·(n+2); `unknown` otherwise.
     */
    function Type(): (r: FaceType)
      reads this
      ensures !IsClosedWalk(edges) ==> r == Unknown(|edges|, totalDegrees)
      ensures r == Inner <==> IsClosedWalk(edges) && Rounded(totalDegrees) <= 180 * (|edges| - 2)
      ensures r == Outer <==> IsClosedWalk(edges) && Rounded(totalDegrees) == 180 * (|edges| + 2)
      ensures r.Unknown? ==> r == Unknown(|edges|, totalDegrees)
    {
      if !IsClosedWalk(edges) then
        Unknown(|edges|, totalDegrees)
      else
        var innerFace := 180 * (|edges| - 2);
        var outerFace := 180 * (|edges| + 2);
        if Rounded(totalDegrees) <= innerFace then
          Inner
        else if Rounded(totalDegrees) == outerFace then
          Outer
        else
          Unknown(|edges|, totalDegrees)
    }
  }

  /**
   * The triangle of GraphTests.swift:46-69: a closed walk of three edges is
   * `inner` with a total of 180 degrees and `outer` with 900.
   */
  lemma TriangleTypes(f: Face)
    requires IsClosedWalk(f.edges) && |f.edges| == 3
    ensures f.totalDegrees == 180.0 ==> f.Type() == Inner
    ensures f.totalDegrees == 900.0 ==> f.Type() == Outer
  {
    RoundedProperties(0.0, 180);
    RoundedProperties(0.0, 900);
  }

  /** Fewer than three edges are never a face, whatever the angle. */
  lemma ShortWalkUnknown(f: Face)
    requires |f.edges| < 3
    ensures f.Type() == Unknown(|f.edges|, f.totalDegrees)
  {
  }
}
