/** The state of a `ConvexPolyhedralRegion` as a value, and what each of its operations does
    to that value. The class in `ConvexPolyhedral` is proved to follow these functions; the
    lemmas below state what the functions guarantee. */
module HullSpec {
  import opened JavaInt
  import opened Wrappers
  import opened Vector3
  import opened Polyhedron

  // ---------------------------------------------------------------------------------------
  // Insertion-ordered sets (`LinkedHashSet`) as duplicate-free sequences.

  predicate Distinct<T(==)>(s: seq<T>) {
    forall i, j :: 0 <= i < j < |s| ==> s[i] != s[j]
  }

  function Elems<T>(s: seq<T>): set<T> {
    set x | x in s
  }

  /** `LinkedHashSet.add`: appends the element unless it is already there. */
  function Insert<T(==)>(s: seq<T>, x: T): seq<T> {
    if x in s then s else s + [x]
  }

  /** `LinkedHashSet.remove`: drops the element, keeping the order of the others. */
  function Erase(s: seq<BlockVector3d>, x: BlockVector3d): (r: seq<BlockVector3d>)
    ensures forall y :: y in r <==> y in s && y != x
    ensures |r| <= |s|
    decreases |s|
  {
    if s == [] then []
    else
      var init := Erase(s[..|s| - 1], x);
      if s[|s| - 1] == x then init else init + [s[|s| - 1]]
  }

  // ---------------------------------------------------------------------------------------
  // The region's fields.

  /** `AsWritten` follows the source line by line; `Corrected` checks the backlog at every size
      and clears the cached triangle once the mesh has been rebuilt (see the findings). */
  datatype Revision = AsWritten | Corrected

  datatype Hull = Hull(
    vertices: seq<BlockVector3d>,       // accepted vertices, in insertion order
    triangles: seq<Triangle>,           // the mesh
    backlog: seq<BlockVector3d>,        // vertices held back while the mesh is flat
    minimumPoint: Option<BlockVector3d>,
    maximumPoint: Option<BlockVector3d>,
    centerAccum: BlockVector3d,         // running 32-bit sum of the accepted vertices
    lastTriangle: Option<Triangle>)     // the cache of `contains`

  /** A new or cleared region. */
  const Empty := Hull([], [], [], None, None, Zero, None)

  /** The two corners of the bounding box are set and cleared together. */
  predicate Paired(h: Hull) {
    h.minimumPoint.None? <==> h.maximumPoint.None?
  }

  /** The state after `addVertex` and the value it returns. */
  datatype Step = Step(hull: Hull, changed: bool)

  /** The answer of `containsRaw` and the cache it leaves behind. */
  datatype Query = Query(inside: bool, cache: Option<Triangle>)

  // ---------------------------------------------------------------------------------------
  // containsRaw

  /** The loop of `containsRaw`: the first triangle, other than the cached one, that p is above. */
  function Scan(tris: seq<Triangle>, last: Option<Triangle>, p: Point): (r: Query)
    ensures r.inside ==> r.cache == last && forall t :: t in tris && Some(t) != last ==> !Above(t, p)
    ensures !r.inside ==> r.cache.Some? && r.cache.value in tris && Above(r.cache.value, p)
    decreases |tris|
  {
    if tris == [] then Query(true, last)
    else if last == Some(tris[0]) then Scan(tris[1..], last, p)
    else if Above(tris[0], p) then Query(false, Some(tris[0]))
    else Scan(tris[1..], last, p)
  }

  /** `containsRaw`: the cached triangle is tried first. The answer is exact only when the cache
      is empty or one of the current triangles; a false answer always leaves in the cache a
      triangle that p is above. */
  function ContainsRaw(tris: seq<Triangle>, last: Option<Triangle>, p: Point): (r: Query)
    ensures !r.inside ==> r.cache.Some? && Above(r.cache.value, p)
    ensures r.cache != last ==> r.cache.Some? && r.cache.value in tris
    ensures last.None? || last.value in tris ==>
      (r.inside <==> forall t :: t in tris ==> !Above(t, p))
  {
    if last.Some? && Above(last.value, p) then Query(false, last) else Scan(tris, last, p)
  }

  /** `contains`: false for an undefined region and outside the bounding box, otherwise
      `containsRaw`. */
  function Contains(h: Hull, pos: BlockVector3d): (r: Query)
    requires h.triangles != [] ==> h.minimumPoint.Some? && h.maximumPoint.Some?
    ensures h.triangles == [] ==> !r.inside && r.cache == h.lastTriangle
    ensures h.triangles != [] && !ContainedWithin(pos, h.minimumPoint.value, h.maximumPoint.value) ==>
      !r.inside && r.cache == h.lastTriangle
    ensures h.triangles != [] && ContainedWithin(pos, h.minimumPoint.value, h.maximumPoint.value) ==>
      r == ContainsRaw(h.triangles, h.lastTriangle, ToPoint(pos))
  {
    if h.triangles == [] then Query(false, h.lastTriangle)
    else
      var min, max := h.minimumPoint.value, h.maximumPoint.value;
      if pos.x < min.x || pos.x > max.x || pos.y < min.y || pos.y > max.y || pos.z < min.z || pos.z > max.z
      then Query(false, h.lastTriangle)
      else ContainsRaw(h.triangles, h.lastTriangle, ToPoint(pos))
  }

  // ---------------------------------------------------------------------------------------
  // The steps of addVertex.

  /** Records an accepted vertex: appended to `vertices`, added to the accumulator, and the
      bounding box widened to include it. */
  function Accept(h: Hull, v: BlockVector3d): (r: Hull)
    requires Paired(h)
    ensures Paired(r) && r.minimumPoint.Some?
  {
    h.(vertices := h.vertices + [v],
       centerAccum := Vector3.Add(h.centerAccum, v),
       minimumPoint := Some(if h.minimumPoint.None? then v else GetMinimum(h.minimumPoint.value, v)),
       maximumPoint := Some(if h.minimumPoint.None? then v else GetMaximum(h.maximumPoint.value, v)))
  }

  /** The two opposite faces through the first three vertices. */
  function Bootstrap(h: Hull): Hull
    requires |h.vertices| == 3
  {
    var p0, p1, p2 := ToPoint(h.vertices[0]), ToPoint(h.vertices[1]), ToPoint(h.vertices[2]);
    h.(triangles := h.triangles + [Triangle(p0, p1, p2), Triangle(p0, p2, p1)])
  }

  /** The triangles that p is not above, in their original order. */
  function Kept(tris: seq<Triangle>, p: Point): (r: seq<Triangle>)
    ensures forall t :: t in r <==> t in tris && !Above(t, p)
    ensures |r| <= |tris|
    decreases |tris|
  {
    if tris == [] then []
    else
      var init, t := Kept(tris[..|tris| - 1], p), tris[|tris| - 1];
      if Above(t, p) then init else init + [t]
  }

  /** The edges of the triangles that p is above, three per triangle, in visiting order. */
  function RemovedEdges(tris: seq<Triangle>, p: Point): seq<Edge>
    decreases |tris|
  {
    if tris == [] then []
    else
      var es, t := RemovedEdges(tris[..|tris| - 1], p), tris[|tris| - 1];
      if Above(t, p) then es + [GetEdge(t, 0), GetEdge(t, 1), GetEdge(t, 2)] else es
  }

  /** How many edges of `es` equal e. */
  function CountSame(es: seq<Edge>, e: Edge): nat
    decreases |es|
  {
    if es == [] then 0
    else CountSame(es[..|es| - 1], e) + (if SameEdge(es[|es| - 1], e) then 1 else 0)
  }

  /** `borderEdges.remove(e)`. */
  function RemoveSame(b: seq<Edge>, e: Edge): seq<Edge>
    decreases |b|
  {
    if b == [] then []
    else
      var init := RemoveSame(b[..|b| - 1], e);
      if SameEdge(b[|b| - 1], e) then init else init + [b[|b| - 1]]
  }

  /** One pass of the inner edge loop: remove e if it is there, otherwise add it. */
  function Toggle(b: seq<Edge>, e: Edge): seq<Edge> {
    if CountSame(b, e) > 0 then RemoveSame(b, e) else b + [e]
  }

  /** The first k edges of t toggled into b. */
  function ToggleEdges(b: seq<Edge>, t: Triangle, k: nat): seq<Edge>
    requires k <= 3
    decreases k
  {
    if k == 0 then b else Toggle(ToggleEdges(b, t, k - 1), GetEdge(t, k - 1))
  }

  /** `borderEdges` after the removal loop. */
  function Border(tris: seq<Triangle>, p: Point): seq<Edge>
    decreases |tris|
  {
    if tris == [] then []
    else
      var b, t := Border(tris[..|tris| - 1], p), tris[|tris| - 1];
      if Above(t, p) then ToggleEdges(b, t, 3) else b
  }

  /** One new triangle per border edge, closing the edge onto p. */
  function Fan(border: seq<Edge>, p: Point): (r: seq<Triangle>)
    ensures |r| == |border|
    ensures forall i :: 0 <= i < |r| ==> r[i] == CreateTriangle(border[i], p)
    decreases |border|
  {
    if border == [] then []
    else Fan(border[..|border| - 1], p) + [CreateTriangle(border[|border| - 1], p)]
  }

  /** The general case: drop the faces that see p and cover the hole with a fan to p. */
  function Reshape(h: Hull, p: Point): Hull {
    h.(triangles := Kept(h.triangles, p) + Fan(Border(h.triangles, p), p))
  }

  /** `addVertex`. The backlog replay calls `addVertex` again for every held-back vertex. */
  function AddVertex(h: Hull, v: BlockVector3d, rev: Revision): (r: Step)
    requires Paired(h)
    ensures |r.hull.backlog| <= |h.backlog| + 1 && Paired(r.hull)
    decreases |h.backlog|, 1, 0
  {
    var h1 := h.(lastTriangle := None);
    if v in h1.vertices then Step(h1, false)
    else if (rev == Corrected || |h1.vertices| == 3) && v in h1.backlog then Step(h1, false)
    else if |h1.vertices| == 3 && ContainsRaw(h1.triangles, None, ToPoint(v)).inside then
      Step(h1.(backlog := h1.backlog + [v]), true)
    else
      var cache := if |h1.vertices| == 3 then ContainsRaw(h1.triangles, None, ToPoint(v)).cache else None;
      var h2 := Accept(h1.(lastTriangle := cache), v);
      if |h2.vertices| <= 2 then Step(h2, true)
      else if |h2.vertices| == 3 then Step(Bootstrap(h2), true)
      else
        var h3 := Reshape(h2, ToPoint(v));
        var h4 :=
          if h3.backlog == [] then h3
          else
            var h5 := Replay(h3.(vertices := Erase(h3.vertices, v), backlog := []), h3.backlog, 0, rev);
            h5.(vertices := Insert(h5.vertices, v));
        Step(Finish(h4, rev), true)
  }

  /** The corrected revision drops the cached triangle once the mesh has been rebuilt. */
  function Finish(h: Hull, rev: Revision): Hull {
    if rev == Corrected then h.(lastTriangle := None) else h
  }

  /** Adds `snap[i..]` one after another. */
  function Replay(h: Hull, snap: seq<BlockVector3d>, i: nat, rev: Revision): (r: Hull)
    requires |h.backlog| <= i <= |snap| && Paired(h)
    ensures |r.backlog| <= |snap| && Paired(r)
    decreases |snap|, 0, |snap| - i
  {
    if i == |snap| then h else Replay(AddVertex(h, snap[i], rev).hull, snap, i + 1, rev)
  }

  // ---------------------------------------------------------------------------------------
  // shift

  /** Every element moved by d with a 32-bit add, in the same order. */
  function Moved(s: seq<BlockVector3d>, d: BlockVector3d): (r: seq<BlockVector3d>)
    ensures |r| == |s| && forall i :: 0 <= i < |s| ==> r[i] == Vector3.Add(d, s[i])
  {
    seq(|s|, i requires 0 <= i < |s| => Vector3.Add(d, s[i]))
  }

  /** `shiftCollection`: the moved elements re-added one by one to the cleared set. */
  function ShiftSet(s: seq<BlockVector3d>, d: BlockVector3d): seq<BlockVector3d>
    decreases |s|
  {
    if s == [] then [] else Insert(ShiftSet(s[..|s| - 1], d), Vector3.Add(d, s[|s| - 1]))
  }

  function AsPoint(d: BlockVector3d): Point {
    ToPoint(d)
  }

  /** Every triangle corner moved by d, exactly (the corners are doubles). */
  function ShiftTriangles(ts: seq<Triangle>, d: Point): (r: seq<Triangle>)
    ensures |r| == |ts| && forall i :: 0 <= i < |ts| ==> r[i] == Translate(ts[i], d)
  {
    seq(|ts|, i requires 0 <= i < |ts| => Translate(ts[i], d))
  }

  /** `Collection.size()`: the element count, saturated at `Integer.MAX_VALUE`. */
  function Size<T>(s: seq<T>): (n: Int32)
    ensures n >= 0 && (|s| <= MaxInt ==> n == |s|)
  {
    if |s| <= MaxInt then |s| else MaxInt
  }

  /** `shift`. With no bounding box the corner update dereferences null after the vertices
      and triangles have already moved. */
  function Shift(h: Hull, d: BlockVector3d): (r: (Hull, Outcome))
    ensures r.1 == Done <==> h.minimumPoint.Some? && h.maximumPoint.Some?
    ensures r.1 != Done ==> r.1 == Raised(NullPointer)
    ensures r.0.vertices == ShiftSet(h.vertices, d) && r.0.backlog == ShiftSet(h.backlog, d)
    ensures r.0.triangles == ShiftTriangles(h.triangles, ToPoint(d))
  {
    MoveCorners(h.(vertices := ShiftSet(h.vertices, d), backlog := ShiftSet(h.backlog, d),
                   triangles := ShiftTriangles(h.triangles, ToPoint(d))), d)
  }

  /** The second half of `shift`, on a hull whose collections have already moved: the box
      corners move, the accumulator gains `d` once per vertex and the cache is dropped; a
      missing corner is dereferenced as null. */
  function MoveCorners(h: Hull, d: BlockVector3d): (r: (Hull, Outcome))
    ensures r.1 == Done <==> h.minimumPoint.Some? && h.maximumPoint.Some?
    ensures r.1 != Done ==> r.1 == Raised(NullPointer)
    ensures r.0.vertices == h.vertices && r.0.backlog == h.backlog && r.0.triangles == h.triangles
    ensures h.minimumPoint.Some? ==> r.0.minimumPoint == Some(Vector3.Add(d, h.minimumPoint.value))
    ensures h.minimumPoint.None? ==> r.0 == h
    ensures r.1 == Done ==> r.0.maximumPoint == Some(Vector3.Add(d, h.maximumPoint.value))
                            && r.0.centerAccum == Vector3.Add(Scale(d, Size(h.vertices)), h.centerAccum)
                            && r.0.lastTriangle == None
    ensures r.1 != Done ==> r.0.maximumPoint == h.maximumPoint && r.0.centerAccum == h.centerAccum
                            && r.0.lastTriangle == h.lastTriangle
  {
    if h.minimumPoint.None? then (h, Raised(NullPointer))
    else if h.maximumPoint.None? then
      (h.(minimumPoint := Some(Vector3.Add(d, h.minimumPoint.value))), Raised(NullPointer))
    else
      (h.(minimumPoint := Some(Vector3.Add(d, h.minimumPoint.value)),
          maximumPoint := Some(Vector3.Add(d, h.maximumPoint.value)),
          centerAccum := Vector3.Add(Scale(d, Size(h.vertices)), h.centerAccum),
          lastTriangle := None),
       Done)
  }
}
