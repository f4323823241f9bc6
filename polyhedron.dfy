/** The mesh pieces that the convex polyhedral region is built from: points with integer
    coordinates (the `Vector3d` values the region creates from block positions are always
    lattice points, so exact integers stand for them), triangles with their "above" test,
    and edges. */
module Polyhedron {
  import opened Vector3

  /** A `Vector3d` whose three components are integers. */
  datatype Point = Point(x: int, y: int, z: int)

  /** `BlockVector3d.toVector3d`: exact, since every `int` is a `double`. */
  function ToPoint(v: BlockVector3d): (r: Point)
    ensures r.x == v.x && r.y == v.y && r.z == v.z
  {
    Point(v.x, v.y, v.z)
  }

  function Plus(a: Point, b: Point): Point {
    Point(a.x + b.x, a.y + b.y, a.z + b.z)
  }

  function Minus(a: Point, b: Point): Point {
    Point(a.x - b.x, a.y - b.y, a.z - b.z)
  }

  function CrossP(a: Point, b: Point): Point {
    Point(a.y * b.z - a.z * b.y, a.z * b.x - a.x * b.z, a.x * b.y - a.y * b.x)
  }

  function DotP(a: Point, b: Point): int {
    a.x * b.x + a.y * b.y + a.z * b.z
  }

  /** A face of the mesh, wound so that its normal points out of the hull. */
  datatype Triangle = Triangle(v0: Point, v1: Point, v2: Point)

  /** A directed side of a triangle. */
  datatype Edge = Edge(start: Point, end: Point)

  function Normal(t: Triangle): Point {
    CrossP(Minus(t.v1, t.v0), Minus(t.v2, t.v0))
  }

  /** `Triangle.above`: the point lies strictly on the outer side of the triangle's plane.
      A degenerate triangle (zero normal) has nothing above it. */
  predicate Above(t: Triangle, p: Point) {
    DotP(Normal(t), p) > DotP(Normal(t), t.v0)
  }

  /** A triangle whose corners are collinear sees no point. */
  lemma AboveDegenerate(t: Triangle, p: Point)
    requires Normal(t) == Point(0, 0, 0)
    ensures !Above(t, p)
  {
  }

  /** `Triangle.getEdge(i)`: the side from corner i to the next corner, wrapping after the last. */
  function GetEdge(t: Triangle, i: nat): (e: Edge)
    requires i < 3
    ensures i == 0 ==> e == Edge(t.v0, t.v1)
    ensures i == 1 ==> e == Edge(t.v1, t.v2)
    ensures i == 2 ==> e == Edge(t.v2, t.v0)
  {
    if i == 0 then Edge(t.v0, t.v1) else if i == 1 then Edge(t.v1, t.v2) else Edge(t.v2, t.v0)
  }

  /** `Edge.createTriangle(p)`: the triangle that keeps the edge's direction and ends in p. */
  function CreateTriangle(e: Edge, p: Point): (t: Triangle)
    ensures GetEdge(t, 0) == e && t.v2 == p
  {
    Triangle(e.start, e.end, p)
  }

  /** `Edge.equals`: the same two endpoints, in either direction. */
  predicate SameEdge(a: Edge, b: Edge) {
    (a.start == b.start && a.end == b.end) || (a.start == b.end && a.end == b.start)
  }

  /** Edge equality is an equivalence relation, as a `LinkedHashSet<Edge>` needs. */
  lemma SameEdgeIsEquivalence(a: Edge, b: Edge, c: Edge)
    ensures SameEdge(a, a)
    ensures SameEdge(a, b) ==> SameEdge(b, a)
    ensures SameEdge(a, b) && SameEdge(b, c) ==> SameEdge(a, c)
  {
  }

  /** The triangle moved by d, corner by corner (`Vector3d.add`, exact on lattice points). */
  function Translate(t: Triangle, d: Point): (r: Triangle)
    ensures r.v0 == Plus(t.v0, d) && r.v1 == Plus(t.v1, d) && r.v2 == Plus(t.v2, d)
    ensures Minus(r.v1, r.v0) == Minus(t.v1, t.v0) && Minus(r.v2, r.v0) == Minus(t.v2, t.v0)
  {
    Triangle(Plus(t.v0, d), Plus(t.v1, d), Plus(t.v2, d))
  }

  lemma DotDistributes(n: Point, a: Point, d: Point)
    ensures DotP(n, Plus(a, d)) == DotP(n, a) + DotP(n, d)
  {
    assert n.x * (a.x + d.x) == n.x * a.x + n.x * d.x;
    assert n.y * (a.y + d.y) == n.y * a.y + n.y * d.y;
    assert n.z * (a.z + d.z) == n.z * a.z + n.z * d.z;
  }

  /** Moving a triangle and a point by the same offset does not change whether the point is
      above the triangle. */
  lemma {:induction false} AboveTranslate(t: Triangle, p: Point, d: Point)
    ensures Above(Translate(t, d), Plus(p, d)) <==> Above(t, p)
  {
    var n := Normal(t);
    assert Normal(Translate(t, d)) == n;
    DotDistributes(n, p, d);
    DotDistributes(n, t.v0, d);
  }

  /** A triangle's own corners lie in its plane, so none of them is above it. */
  lemma CornersNotAbove(t: Triangle)
    ensures !Above(t, t.v0) && !Above(t, t.v1) && !Above(t, t.v2)
  {
    var u, w := Minus(t.v1, t.v0), Minus(t.v2, t.v0);
    var n := Normal(t);
    assert n == CrossP(u, w);
    assert DotP(n, t.v1) - DotP(n, t.v0) == DotP(n, u);
    assert DotP(n, t.v2) - DotP(n, t.v0) == DotP(n, w);
    assert DotP(CrossP(u, w), u) == 0;
    assert DotP(CrossP(u, w), w) == 0;
  }
}
