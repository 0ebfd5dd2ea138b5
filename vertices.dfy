/**
 * Points and vertices (GraphFaceEnumeration/Vertex.swift). Coordinates are
 * exact reals instead of CGFloat, so the exact `==` comparisons the Swift code
 * relies on mean what they say.
 */
module Vertices {

  /** A CGPoint. Its `==` (ViewController.swift:207-209) is coordinatewise,
      which is Dafny's structural equality on this datatype. */
  datatype Point = Point(x: real, y: real)

  /** A vertex is an endpoint of an edge; it wraps one point. */
  datatype Vertex = Vertex(point: Point)

  /**
   * `Vertex.init(x:y:)`: the vertex at integer coordinates. It lies on the
   * integer grid, and its coordinates read back as `x` and `y`.
   */
  function FromInts(x: int, y: int): (v: Vertex)
    ensures v.point.x.Floor == x && v.point.y.Floor == y
    ensures v.point.x == v.point.x.Floor as real && v.point.y == v.point.y.Floor as real
  {
    Vertex(Point(x as real, y as real))
  }

  /** Different integer coordinates give different vertices. */
  lemma FromIntsInjective(x: int, y: int, x': int, y': int)
    ensures FromInts(x, y) == FromInts(x', y') <==> x == x' && y == y'
  {
    if FromInts(x, y) == FromInts(x', y') {
      assert FromInts(x, y).point.x.Floor == x && FromInts(x', y').point.x.Floor == x';
    }
  }

  /** `Vertex == Vertex` compares the coordinates and nothing else. */
  lemma VertexEqualityIsCoordinatewise(a: Vertex, b: Vertex)
    ensures a == b <==> (a.point.x == b.point.x && a.point.y == b.point.y)
  {
  }

  /**
   * `CGPoint == Vertex` compares the point with the vertex's point: it
   * agrees with `Vertex == Vertex` applied to the vertex at `p`.
   */
  predicate PointIs(p: Point, v: Vertex)
    ensures PointIs(p, v) <==> Vertex(p) == v
  {
    p == v.point
  }

  /** Componentwise difference `a - b` of two points. */
  function Minus(a: Point, b: Point): Point
  {
    Point(a.x - b.x, a.y - b.y)
  }

  /** The cross product (z-component) `a.x * b.y - a.y * b.x`. */
  function Cross(a: Point, b: Point): real
  {
    a.x * b.y - a.y * b.x
  }

  /** The point `p + t * d`. */
  function Along(p: Point, t: real, d: Point): Point
  {
    Point(p.x + t * d.x, p.y + t * d.y)
  }

  /**
   * `Vertex += CGPoint`: the vertex moved by `offset`, componentwise. It
   * moves as far as `offset` is long, and only a zero offset leaves it in place.
   */
  function Offset(v: Vertex, offset: Point): (r: Vertex)
    ensures DistanceSquared(r.point, v.point) == DistanceSquared(offset, Point(0.0, 0.0))
    ensures r == v <==> offset == Point(0.0, 0.0)
  {
    var r := Vertex(Point(v.point.x + offset.x, v.point.y + offset.y));
    assert r.point.x - v.point.x == offset.x - 0.0 && r.point.y - v.point.y == offset.y - 0.0;
    r
  }

  /** Moving two vertices by the same offset keeps their distance. */
  lemma OffsetKeepsDistance(v: Vertex, w: Vertex, offset: Point)
    ensures DistanceSquared(Offset(v, offset).point, Offset(w, offset).point) == DistanceSquared(v.point, w.point)
  {
    var a, b := Offset(v, offset).point, Offset(w, offset).point;
    assert a.x - b.x == v.point.x - w.point.x && a.y - b.y == v.point.y - w.point.y;
  }

  /** Two moves in a row are one move by the sum of the offsets. */
  lemma OffsetTwice(v: Vertex, a: Point, b: Point)
    ensures Offset(Offset(v, a), b) == Offset(v, Point(a.x + b.x, a.y + b.y))
  {
  }

  /** Moving by an offset and then by its negation returns to the start. */
  lemma OffsetInverse(v: Vertex, offset: Point)
    ensures Offset(Offset(v, offset), Point(-offset.x, -offset.y)) == v
  {
  }

  /**
   * The square of `distance` (Vertex.swift:19-27). The Swift function is the
   * square root of this; the model keeps the square, which orders points
   * the same way and needs no square root.
   */
  function DistanceSquared(a: Point, b: Point): (r: real)
    ensures r >= 0.0
  {
    var dx := a.x - b.x;
    var dy := a.y - b.y;
    dx * dx + dy * dy
  }

  /** Distance is symmetric. */
  lemma DistanceSymmetric(a: Point, b: Point)
    ensures DistanceSquared(a, b) == DistanceSquared(b, a)
  {
  }

  /** The distance of a point to itself is zero. */
  lemma DistanceToSelf(a: Point)
    ensures DistanceSquared(a, a) == 0.0
  {
  }
}
