/** `ConvexPolyhedralRegion`: a convex hull grown one vertex at a time. Every method is proved to
    move the object's state exactly as the matching function of `HullSpec` (corrected revision)
    moves a `Hull` value; what those functions guarantee is proved in `HullLemmas` and
    `HullShift`. */
module ConvexPolyhedral {
  import opened JavaInt
  import opened Wrappers
  import opened Vector3
  import opened Polyhedron
  import opened Regions
  import H = HullSpec
  import HullLemmas
  import HullShift

  /** `shiftCollection`: the moved elements re-added one by one to the emptied set. */
  method ShiftCollection(collection: seq<BlockVector3d>, change: BlockVector3d) returns (r: seq<BlockVector3d>)
    ensures r == H.ShiftSet(collection, change)
  {
    var tmp := collection;
    r := [];
    for i := 0 to |tmp|
      invariant r == H.ShiftSet(tmp[..i], change)
    {
      assert tmp[..i + 1][..i] == tmp[..i];
      r := H.Insert(r, Vector3.Add(change, tmp[i]));
    }
    assert tmp[..|tmp|] == tmp;
  }

  /** The edge loop of `addVertex`: each edge of the removed triangle leaves the border set if
      an equal edge is there, and joins it otherwise. */
  method ToggleBorder(borderEdges: seq<Edge>, triangle: Triangle) returns (r: seq<Edge>)
    ensures r == H.ToggleEdges(borderEdges, triangle, 3)
  {
    r := borderEdges;
    for i := 0 to 3
      invariant r == H.ToggleEdges(borderEdges, triangle, i)
    {
      var edge := GetEdge(triangle, i);
      if H.CountSame(r, edge) > 0 {
        r := H.RemoveSame(r, edge);
        continue;
      }
      r := r + [edge];
    }
  }

  /** One step of the removal loop on a list whose first j triangles have been visited: the
      current triangle sits right after the kept ones, and removing or passing it gives the
      list for j + 1. */
  lemma RemovalStep(tris: seq<Triangle>, j: nat, p: Point)
    requires j < |tris|
    ensures var kept := H.Kept(tris[..j], p);
      var list := kept + tris[j..];
      && |kept| < |list| && list[|kept|] == tris[j]
      && (Above(tris[j], p) ==>
            list[..|kept|] + list[|kept| + 1..] == H.Kept(tris[..j + 1], p) + tris[j + 1..])
      && (!Above(tris[j], p) ==>
            && list == H.Kept(tris[..j + 1], p) + tris[j + 1..]
            && |H.Kept(tris[..j + 1], p)| == |kept| + 1)
  {
    var kept, rest := H.Kept(tris[..j], p), tris[j + 1..];
    assert H.Kept(tris[..j + 1], p) == if Above(tris[j], p) then kept else kept + [tris[j]] by {
      assert tris[..j + 1][..j] == tris[..j];
    }
    var list := kept + tris[j..];
    assert list == (kept + [tris[j]]) + rest by {
      assert tris[j..] == [tris[j]] + rest;
    }
    assert list[..|kept|] + list[|kept| + 1..] == kept + rest;
  }

  lemma BorderStep(tris: seq<Triangle>, j: nat, p: Point)
    requires j < |tris|
    ensures H.Border(tris[..j + 1], p)
      == if Above(tris[j], p) then H.ToggleEdges(H.Border(tris[..j], p), tris[j], 3) else H.Border(tris[..j], p)
  {
    assert tris[..j + 1][..j] == tris[..j];
  }

  /** The accepting branch of the corrected `addVertex` on a region of fewer than three
      vertices: the vertex is recorded and, when it is the third, the two opening faces are
      laid. */
  lemma AcceptSmall(h: H.Hull, v: BlockVector3d, h2: H.Hull)
    requires H.Paired(h) && v !in h.vertices && v !in h.backlog && |h.vertices| < 3
    requires h2 == H.Accept(h.(lastTriangle := None), v)
    ensures |h2.vertices| <= 2 ==> H.AddVertex(h, v, H.Corrected) == H.Step(h2, true)
    ensures |h2.vertices| == 3 ==> H.AddVertex(h, v, H.Corrected) == H.Step(H.Bootstrap(h2), true)
  {
  }

  class ConvexPolyhedralRegion {
    var world: Option<World>
    var vertices: seq<BlockVector3d>
    var triangles: seq<Triangle>
    var vertexBacklog: seq<BlockVector3d>
    var minimumPoint: Option<BlockVector3d>
    var maximumPoint: Option<BlockVector3d>
    var centerAccum: BlockVector3d
    var lastTriangle: Option<Triangle>

    /** The fields other than the world, as a value. */
    function State(): H.Hull
      reads this
    {
      H.Hull(vertices, triangles, vertexBacklog, minimumPoint, maximumPoint, centerAccum, lastTriangle)
    }

    /** The region's invariant: box and accumulator match the vertices, the cache is empty or a
        current triangle. */
    ghost predicate Valid()
      reads this
    {
      HullLemmas.Inv(State())
    }

    /** An empty mesh. */
    constructor(world: Option<World>)
      ensures State() == H.Empty && this.world == world && Valid()
    {
      this.world := world;
      vertices, triangles, vertexBacklog := [], [], [];
      minimumPoint, maximumPoint := None, None;
      centerAccum := Vector3.Zero;
      lastTriangle := None;
    }

    /** An independent copy: the collections are values, so later changes to either region do
        not reach the other. */
    constructor Copy(region: ConvexPolyhedralRegion)
      ensures State() == region.State() && world == region.world
    {
      world := region.world;
      vertices := region.vertices;
      triangles := region.triangles;
      vertexBacklog := region.vertexBacklog;
      minimumPoint := region.minimumPoint;
      maximumPoint := region.maximumPoint;
      centerAccum := region.centerAccum;
      lastTriangle := region.lastTriangle;
    }

    /** `setWorld`, inherited from the abstract region: only the world changes. */
    method SetWorld(world: Option<World>)
      modifies this
      ensures this.world == world && State() == old(State())
    {
      this.world := world;
    }

    /** `clear`: back to the empty state, which satisfies the invariant. */
    method Clear()
      modifies this
      ensures State() == H.Empty && world == old(world) && Valid()
    {
      vertices, triangles, vertexBacklog := [], [], [];
      minimumPoint, maximumPoint := None, None;
      centerAccum := Vector3.Zero;
      lastTriangle := None;
    }

    function IsDefined(): (r: bool)
      reads this
      ensures r <==> |triangles| > 0
    {
      triangles != []
    }

    function GetMinimumPoint(): Option<BlockVector3d>
      reads this
    {
      minimumPoint
    }

    function GetMaximumPoint(): Option<BlockVector3d>
      reads this
    {
      maximumPoint
    }

    /** `getVertices`: the accepted vertices followed by the held-back ones. */
    function GetVertices(): (r: seq<BlockVector3d>)
      reads this
      ensures r == vertices + vertexBacklog
    {
      if vertexBacklog == [] then vertices else vertices + vertexBacklog
    }

    /** `expand` and `contract` do nothing for this region. */
    method Expand(changes: seq<BlockVector3d>) returns (outcome: Outcome)
      ensures outcome == Done
    {
      outcome := Done;
    }

    method Contract(changes: seq<BlockVector3d>) returns (outcome: Outcome)
      ensures outcome == Done
    {
      outcome := Done;
    }

    /** `containsRaw`: the cached triangle first, then every other triangle in order; the first
        one the point is above becomes the cache. */
    method ContainsRaw(pt: Point) returns (inside: bool)
      modifies this
      ensures H.Query(inside, lastTriangle) == H.ContainsRaw(triangles, old(lastTriangle), pt)
      ensures State() == old(State()).(lastTriangle := lastTriangle) && world == old(world)
    {
      if lastTriangle.Some? && Above(lastTriangle.value, pt) {
        return false;
      }
      for i := 0 to |triangles|
        invariant H.Scan(triangles[i..], lastTriangle, pt) == H.Scan(triangles, lastTriangle, pt)
      {
        assert triangles[i..][1..] == triangles[i + 1..];
        if lastTriangle == Some(triangles[i]) {
          continue;
        }
        if Above(triangles[i], pt) {
          lastTriangle := Some(triangles[i]);
          return false;
        }
      }
      return true;
    }

    /** `contains`: false for an undefined region and outside the bounding box on any axis,
        otherwise `containsRaw`. */
    method Contains(position: BlockVector3d) returns (inside: bool)
      requires triangles != [] ==> minimumPoint.Some? && maximumPoint.Some?
      modifies this
      ensures H.Query(inside, lastTriangle) == H.Contains(old(State()), position)
      ensures State() == old(State()).(lastTriangle := lastTriangle) && world == old(world)
    {
      if !IsDefined() {
        return false;
      }
      var x, y, z := position.x, position.y, position.z;
      var min, max := minimumPoint.value, maximumPoint.value;
      if x < min.x { return false; }
      if x > max.x { return false; }
      if y < min.y { return false; }
      if y > max.y { return false; }
      if z < min.z { return false; }
      if z > max.z { return false; }
      inside := ContainsRaw(ToPoint(position));
    }

    /** The removal loop of `addVertex`: every triangle that p is above leaves the list, and
        its edges are toggled in the border set. */
    method RemoveVisible(p: Point) returns (borderEdges: seq<Edge>)
      modifies this
      ensures State() == old(State()).(triangles := H.Kept(old(triangles), p))
      ensures borderEdges == H.Border(old(triangles), p) && world == old(world)
    {
      ghost var tris := triangles;
      borderEdges := [];
      var pos, count := 0, |triangles|;
      for j := 0 to count
        invariant pos == |H.Kept(tris[..j], p)|
        invariant triangles == H.Kept(tris[..j], p) + tris[j..]
        invariant borderEdges == H.Border(tris[..j], p)
        invariant State() == old(State()).(triangles := triangles) && world == old(world)
      {
        pos, borderEdges := RemovalVisit(tris, j, pos, p, borderEdges);
      }
      assert tris[..|tris|] == tris;
    }

    /** One turn of the removal loop: the j-th original triangle, now at `pos`, is dropped and
        its edges toggled on the border when p is above it, and kept otherwise. */
    method RemovalVisit(ghost tris: seq<Triangle>, j: nat, pos: nat, p: Point, borderEdges: seq<Edge>)
      returns (pos': nat, border': seq<Edge>)
      requires j < |tris| && pos == |H.Kept(tris[..j], p)|
      requires triangles == H.Kept(tris[..j], p) + tris[j..] && borderEdges == H.Border(tris[..j], p)
      modifies this
      ensures pos' == |H.Kept(tris[..j + 1], p)| && triangles == H.Kept(tris[..j + 1], p) + tris[j + 1..]
      ensures border' == H.Border(tris[..j + 1], p)
      ensures State() == old(State()).(triangles := triangles) && world == old(world)
    {
      RemovalStep(tris, j, p);
      BorderStep(tris, j, p);
      var triangle := triangles[pos];
      if !Above(triangle, p) {
        pos', border' := pos + 1, borderEdges;
      } else {
        triangles := triangles[..pos] + triangles[pos + 1..];
        pos' := pos;
        border' := ToggleBorder(borderEdges, triangle);
      }
    }

    /** One new triangle per border edge, closing the edge onto p, appended in border order. */
    method AddFan(borderEdges: seq<Edge>, p: Point)
      modifies this
      ensures State() == old(State()).(triangles := old(triangles) + H.Fan(borderEdges, p))
      ensures world == old(world)
    {
      for i := 0 to |borderEdges|
        invariant State() == old(State()).(triangles := old(triangles) + H.Fan(borderEdges[..i], p))
        invariant world == old(world)
      {
        assert borderEdges[..i + 1][..i] == borderEdges[..i];
        triangles := triangles + [CreateTriangle(borderEdges[i], p)];
      }
      assert borderEdges[..|borderEdges|] == borderEdges;
    }

    /** `addVertex`, with the backlog consulted at every size and the cache cleared at the end
        (the corrected revision; the code as written is `H.AddVertex(_, _, H.AsWritten)`). */
    method AddVertex(vertex: BlockVector3d) returns (changed: bool)
      requires H.Paired(State())
      modifies this
      ensures H.Step(State(), changed) == H.AddVertex(old(State()), vertex, H.Corrected)
      ensures world == old(world)
      ensures old(Valid()) ==> Valid()
      decreases |vertexBacklog|, 3
    {
      ghost var h := State();
      if HullLemmas.Inv(h) {
        HullLemmas.AddPreservesInv(h, vertex);
      }
      lastTriangle := None;
      if vertex in vertices {
        return false;
      }
      if vertex in vertexBacklog {
        return false;
      }
      if |vertices| == 3 {
        var inside := ContainsRaw(ToPoint(vertex));
        if inside {
          vertexBacklog := vertexBacklog + [vertex];
          return true;
        }
      }
      AcceptVertex(vertex, h);
      return true;
    }

    /** The part of `addVertex` after the early returns: the vertex is recorded, and the mesh
        is started (third vertex) or rebuilt (later vertices). `h` is the state on entry to
        `addVertex`. */
    method AcceptVertex(vertex: BlockVector3d, ghost h: H.Hull)
      requires H.Paired(h) && vertex !in h.vertices && vertex !in h.backlog
      requires |h.vertices| == 3 ==> !H.ContainsRaw(h.triangles, None, ToPoint(vertex)).inside
      requires State() == h.(lastTriangle :=
        if |h.vertices| == 3 then H.ContainsRaw(h.triangles, None, ToPoint(vertex)).cache else None)
      modifies this
      ensures H.Step(State(), true) == H.AddVertex(h, vertex, H.Corrected) && world == old(world)
      decreases |vertexBacklog|, 2
    {
      ghost var h2 := H.Accept(State(), vertex);
      vertices := vertices + [vertex];
      centerAccum := Vector3.Add(centerAccum, vertex);
      if minimumPoint.None? {
        minimumPoint, maximumPoint := Some(vertex), Some(vertex);
      } else {
        minimumPoint, maximumPoint := Some(GetMinimum(minimumPoint.value, vertex)), Some(GetMaximum(maximumPoint.value, vertex));
      }
      assert State() == h2;
      if |vertices| <= 2 {
        AcceptSmall(h, vertex, h2);
        return;
      }
      if |vertices| == 3 {
        AcceptSmall(h, vertex, h2);
        var v0, v1, v2 := ToPoint(vertices[0]), ToPoint(vertices[1]), ToPoint(vertices[2]);
        triangles := triangles + [Triangle(v0, v1, v2)];
        triangles := triangles + [Triangle(v0, v2, v1)];
        assert State() == H.Bootstrap(h2);
        return;
      }
      Rebuild(vertex, h);
    }

    /** The general case of `addVertex`, once the new vertex has been accepted into a region of
        three or more: the mesh is rebuilt around it, the backlog is replayed, and the cache is
        cleared. `h` is the state on entry to `addVertex`. */
    method Rebuild(vertex: BlockVector3d, ghost h: H.Hull)
      requires H.Paired(h) && vertex !in h.vertices && vertex !in h.backlog && |h.vertices| >= 3
      requires |h.vertices| == 3 ==> !H.ContainsRaw(h.triangles, None, ToPoint(vertex)).inside
      requires State() == H.Accept(h.(lastTriangle :=
        if |h.vertices| == 3 then H.ContainsRaw(h.triangles, None, ToPoint(vertex)).cache else None), vertex)
      modifies this
      ensures H.Step(State(), true) == H.AddVertex(h, vertex, H.Corrected) && world == old(world)
      decreases |vertexBacklog|, 1
    {
      ghost var h2 := State();
      var p := ToPoint(vertex);
      var borderEdges := RemoveVisible(p);
      AddFan(borderEdges, p);
      assert State() == H.Reshape(h2, p);
      if vertexBacklog != [] {
        vertices := H.Erase(vertices, vertex);
        var backlogCopy := vertexBacklog;
        vertexBacklog := [];
        ReplayBacklog(backlogCopy);
        vertices := H.Insert(vertices, vertex);
      }
      lastTriangle := None;
    }

    /** Works through a copy of the backlog, adding its vertices in their original order. */
    method ReplayBacklog(backlogCopy: seq<BlockVector3d>)
      requires H.Paired(State()) && vertexBacklog == []
      modifies this
      ensures State() == H.Replay(old(State()), backlogCopy, 0, H.Corrected) && world == old(world)
      decreases |backlogCopy|, 0
    {
      for i := 0 to |backlogCopy|
        invariant H.Paired(State()) && |vertexBacklog| <= i
        invariant H.Replay(State(), backlogCopy, i, H.Corrected) == H.Replay(old(State()), backlogCopy, 0, H.Corrected)
        invariant world == old(world)
      {
        var _ := AddVertex(backlogCopy[i]);
      }
    }

    /** The triangle loop of `shift`: every corner moved by `vec`, in place. */
    method TranslateTriangles(vec: Point)
      modifies this
      ensures State() == old(State()).(triangles := H.ShiftTriangles(old(triangles), vec))
      ensures world == old(world)
    {
      for i := 0 to |triangles|
        invariant |triangles| == |old(triangles)|
        invariant forall k :: 0 <= k < i ==> triangles[k] == Translate(old(triangles)[k], vec)
        invariant forall k :: i <= k < |triangles| ==> triangles[k] == old(triangles)[k]
        invariant State() == old(State()).(triangles := triangles) && world == old(world)
      {
        var triangle := triangles[i];
        triangles := triangles[i := Translate(triangle, vec)];
      }
    }

    /** The box, accumulator and cache update that ends `shift`. */
    method MoveCorners(change: BlockVector3d) returns (outcome: Outcome)
      modifies this
      ensures (State(), outcome) == H.MoveCorners(old(State()), change) && world == old(world)
    {
      if minimumPoint.None? {
        return Raised(NullPointer);
      }
      minimumPoint := Some(Vector3.Add(change, minimumPoint.value));
      if maximumPoint.None? {
        return Raised(NullPointer);
      }
      maximumPoint := Some(Vector3.Add(change, maximumPoint.value));
      centerAccum := Vector3.Add(Scale(change, H.Size(vertices)), centerAccum);
      lastTriangle := None;
      outcome := Done;
    }

    /** `shift`: vertices and backlog re-added moved by `change`, every triangle corner moved,
        then the box, the accumulator and the cache. With no bounding box the box update
        dereferences null after the collections have moved. */
    method Shift(change: BlockVector3d) returns (outcome: Outcome)
      modifies this
      ensures (State(), outcome) == H.Shift(old(State()), change) && world == old(world)
      ensures old(Valid()) && |old(vertices)| <= MaxInt && HullShift.NoWrap(old(vertices), change) ==> Valid()
    {
      ghost var h := State();
      if HullLemmas.Inv(h) && |h.vertices| <= MaxInt && HullShift.NoWrap(h.vertices, change) {
        HullShift.ShiftPreservesInv(h, change);
      }
      var vec := ToPoint(change);
      vertices := ShiftCollection(vertices, change);
      vertexBacklog := ShiftCollection(vertexBacklog, change);
      TranslateTriangles(vec);
      outcome := MoveCorners(change);
    }
  }
}
