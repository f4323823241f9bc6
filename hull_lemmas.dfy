/** What `addVertex`, `contains` and `shift` guarantee: the invariant of the region's fields
    (exact bounding box, accumulator equal to the vertex sum, a cache that is empty or a
    current face), the odd-count rule of the border edges, and the shapes of the first steps. */
module HullLemmas {
  import opened JavaInt
  import opened Wrappers
  import opened Vector3
  import opened Polyhedron
  import opened HullSpec

  // ---------------------------------------------------------------------------------------
  // Border edges: exactly the edges seen an odd number of times.

  lemma {:induction false} CountSameAppend(b: seq<Edge>, e: Edge, f: Edge)
    ensures CountSame(b + [e], f) == CountSame(b, f) + (if SameEdge(e, f) then 1 else 0)
  {
    assert (b + [e])[..|b|] == b;
  }

  lemma {:induction false} CountSameEquiv(b: seq<Edge>, e: Edge, f: Edge)
    requires SameEdge(e, f)
    ensures CountSame(b, e) == CountSame(b, f)
    decreases |b|
  {
    if b != [] {
      CountSameEquiv(b[..|b| - 1], e, f);
    }
  }

  lemma {:induction false} CountSameRemove(b: seq<Edge>, e: Edge, f: Edge)
    ensures CountSame(RemoveSame(b, e), f) == if SameEdge(e, f) then 0 else CountSame(b, f)
    decreases |b|
  {
    if b != [] {
      var init, last := b[..|b| - 1], b[|b| - 1];
      CountSameRemove(init, e, f);
      if !SameEdge(last, e) {
        CountSameAppend(RemoveSame(init, e), last, f);
      }
    }
  }

  /** Toggling e flips the parity of the count of every edge equal to e, and of no other. */
  lemma {:induction false} ToggleParity(b: seq<Edge>, e: Edge, f: Edge, n: nat)
    requires CountSame(b, f) == n % 2
    ensures CountSame(Toggle(b, e), f) == (n + if SameEdge(e, f) then 1 else 0) % 2
  {
    CountSameRemove(b, e, f);
    CountSameAppend(b, e, f);
    if SameEdge(e, f) {
      CountSameEquiv(b, e, f);
    }
  }

  lemma {:induction false} RemovedEdgesAppend(es: seq<Edge>, t: Triangle, f: Edge)
    ensures CountSame(es + [GetEdge(t, 0), GetEdge(t, 1), GetEdge(t, 2)], f)
      == CountSame(es, f) + (if SameEdge(GetEdge(t, 0), f) then 1 else 0)
         + (if SameEdge(GetEdge(t, 1), f) then 1 else 0) + (if SameEdge(GetEdge(t, 2), f) then 1 else 0)
  {
    var e0, e1, e2 := GetEdge(t, 0), GetEdge(t, 1), GetEdge(t, 2);
    CountSameAppend(es, e0, f);
    CountSameAppend(es + [e0], e1, f);
    CountSameAppend(es + [e0, e1], e2, f);
    assert es + [e0] + [e1] == es + [e0, e1];
    assert es + [e0, e1] + [e2] == es + [e0, e1, e2];
  }

  /** Toggling the three edges of one triangle. */
  lemma {:induction false} ToggleTriangleParity(b: seq<Edge>, t: Triangle, f: Edge, n: nat)
    requires CountSame(b, f) == n % 2
    ensures CountSame(ToggleEdges(b, t, 3), f)
      == (n + (if SameEdge(GetEdge(t, 0), f) then 1 else 0)
           + (if SameEdge(GetEdge(t, 1), f) then 1 else 0) + (if SameEdge(GetEdge(t, 2), f) then 1 else 0)) % 2
  {
    var i0, i1, i2 := (if SameEdge(GetEdge(t, 0), f) then 1 else 0),
      (if SameEdge(GetEdge(t, 1), f) then 1 else 0), (if SameEdge(GetEdge(t, 2), f) then 1 else 0);
    var b1 := Toggle(b, GetEdge(t, 0));
    var b2 := Toggle(b1, GetEdge(t, 1));
    var b3 := Toggle(b2, GetEdge(t, 2));
    assert ToggleEdges(b, t, 3) == b3 by {
      assert ToggleEdges(b, t, 1) == b1;
      assert ToggleEdges(b, t, 2) == b2;
    }
    ToggleParity(b, GetEdge(t, 0), f, n);
    ToggleParity(b1, GetEdge(t, 1), f, n + i0);
    ToggleParity(b2, GetEdge(t, 2), f, n + i0 + i1);
  }

  /** The removal loop visits three edges of every face the point sees. */
  lemma {:induction false} RemovedEdgesCount(tris: seq<Triangle>, p: Point)
    ensures |RemovedEdges(tris, p)| == 3 * (|tris| - |Kept(tris, p)|)
    decreases |tris|
  {
    if tris != [] {
      RemovedEdgesCount(tris[..|tris| - 1], p);
    }
  }

  /** After the removal loop, `borderEdges` holds an edge exactly when that edge occurs an
      odd number of times among the edges of the removed triangles, and then once. */
  lemma {:induction false} BorderOddCount(tris: seq<Triangle>, p: Point, f: Edge)
    ensures CountSame(Border(tris, p), f) == CountSame(RemovedEdges(tris, p), f) % 2
    decreases |tris|
  {
    if tris != [] {
      var init, t := tris[..|tris| - 1], tris[|tris| - 1];
      BorderOddCount(init, p, f);
      if Above(t, p) {
        var b, es := Border(init, p), RemovedEdges(init, p);
        assert Border(tris, p) == ToggleEdges(b, t, 3);
        assert RemovedEdges(tris, p) == es + [GetEdge(t, 0), GetEdge(t, 1), GetEdge(t, 2)];
        ToggleTriangleParity(b, t, f, CountSame(es, f));
        RemovedEdgesAppend(es, t, f);
      }
    }
  }

  /** Every triangle of the fan closes one border edge onto the new point, and every triangle
      that stays was not seen by it. */
  lemma MeshAfterReshape(h: Hull, p: Point)
    ensures var r := Reshape(h, p);
      (forall t :: t in h.triangles && !Above(t, p) ==> t in r.triangles)
      && (forall t :: t in r.triangles ==>
            (t in h.triangles && !Above(t, p)) || (t.v2 == p && GetEdge(t, 0) in Border(h.triangles, p)))
      && |r.triangles| == |Kept(h.triangles, p)| + |Border(h.triangles, p)|
  {
    var k, b := Kept(h.triangles, p), Border(h.triangles, p);
    var fan := Fan(b, p);
    forall t | t in k + fan
      ensures (t in h.triangles && !Above(t, p)) || (t.v2 == p && GetEdge(t, 0) in b)
    {
      if t !in k {
        var i :| 0 <= i < |fan| && fan[i] == t;
        assert t == CreateTriangle(b[i], p);
      }
    }
  }

  lemma {:induction false} InteriorKeepsAll(tris: seq<Triangle>, p: Point)
    requires forall t :: t in tris ==> !Above(t, p)
    ensures Kept(tris, p) == tris && Border(tris, p) == []
    decreases |tris|
  {
    if tris != [] {
      var init := tris[..|tris| - 1];
      assert forall t :: t in init ==> t in tris;
      InteriorKeepsAll(init, p);
      assert tris == init + [tris[|tris| - 1]];
    }
  }

  /** A point that no face sees leaves the mesh exactly as it was: nothing is removed, the
      border is empty and no triangle is added. */
  lemma ReshapeInterior(h: Hull, p: Point)
    requires forall t :: t in h.triangles ==> !Above(t, p)
    ensures Reshape(h, p) == h
  {
    InteriorKeepsAll(h.triangles, p);
    assert h.triangles + [] == h.triangles;
  }

  lemma KeptBorderAppend(tris: seq<Triangle>, t: Triangle, p: Point)
    ensures Kept(tris + [t], p) == if Above(t, p) then Kept(tris, p) else Kept(tris, p) + [t]
    ensures Border(tris + [t], p) == if Above(t, p) then ToggleEdges(Border(tris, p), t, 3) else Border(tris, p)
  {
    assert (tris + [t])[..|tris|] == tris;
  }

  // ---------------------------------------------------------------------------------------
  // The bounding box.

  /** Every point of S lies in [lo, hi]. */
  ghost predicate Bounds(S: set<BlockVector3d>, lo: BlockVector3d, hi: BlockVector3d) {
    forall w :: w in S ==> ContainedWithin(w, lo, hi)
  }

  /** Each face of [lo, hi] touches a point of S. */
  ghost predicate Attained(S: set<BlockVector3d>, lo: BlockVector3d, hi: BlockVector3d) {
    (exists w :: w in S && w.x == lo.x) && (exists w :: w in S && w.y == lo.y) &&
    (exists w :: w in S && w.z == lo.z) && (exists w :: w in S && w.x == hi.x) &&
    (exists w :: w in S && w.y == hi.y) && (exists w :: w in S && w.z == hi.z)
  }

  /** The box is absent for no points, and otherwise the component-wise minimum and maximum. */
  ghost predicate BoxExact(S: set<BlockVector3d>, lo: Option<BlockVector3d>, hi: Option<BlockVector3d>) {
    if S == {} then lo.None? && hi.None?
    else lo.Some? && hi.Some? && Bounds(S, lo.value, hi.value) && Attained(S, lo.value, hi.value)
  }

  lemma {:induction false} BoxExtend(S: set<BlockVector3d>, h: Hull, v: BlockVector3d)
    requires Paired(h) && BoxExact(S, h.minimumPoint, h.maximumPoint)
    ensures BoxExact(S + {v}, Accept(h, v).minimumPoint, Accept(h, v).maximumPoint)
  {
    var r := Accept(h, v);
    var lo, hi := r.minimumPoint.value, r.maximumPoint.value;
    if S == {} {
      assert lo == v && hi == v;
      assert v in S + {v};
    } else {
      var lo0, hi0 := h.minimumPoint.value, h.maximumPoint.value;
      assert Bounds(S + {v}, lo, hi);
      var ax :| ax in S && ax.x == lo0.x;
      var ay :| ay in S && ay.y == lo0.y;
      var az :| az in S && az.z == lo0.z;
      var bx :| bx in S && bx.x == hi0.x;
      var cy :| cy in S && cy.y == hi0.y;
      var bz :| bz in S && bz.z == hi0.z;
      var T := S + {v};
      assert (if lo.x == v.x then v else ax) in T;
      assert (if lo.y == v.y then v else ay) in T;
      assert (if lo.z == v.z then v else az) in T;
      assert (if hi.x == v.x then v else bx) in T;
      assert (if hi.y == v.y then v else cy) in T;
      assert (if hi.z == v.z then v else bz) in T;
    }
  }

  // ---------------------------------------------------------------------------------------
  // The accumulator.

  function TPlus(a: Triple, b: Triple): Triple {
    Triple(a.x + b.x, a.y + b.y, a.z + b.z)
  }

  function OfVector(v: BlockVector3d): Triple {
    Triple(v.x, v.y, v.z)
  }

  /** The `BlockVector3d` holding an exact sum, each component wrapped to 32 bits. */
  function Wrap3(t: Triple): BlockVector3d {
    BlockVector3d(Wrap(t.x), Wrap(t.y), Wrap(t.z))
  }

  const NoOffset := Triple(0, 0, 0)

  lemma SumAppend(vs: seq<BlockVector3d>, w: BlockVector3d)
    ensures Sum(vs + [w]) == TPlus(Sum(vs), OfVector(w))
  {
    assert (vs + [w])[..|vs|] == vs;
  }

  /** Adding a vertex to a wrapped running sum wraps the exact sum that includes it. */
  lemma {:induction false} AccAppend(vs: seq<BlockVector3d>, c: Triple, w: BlockVector3d)
    ensures Vector3.Add(Wrap3(TPlus(Sum(vs), c)), w) == Wrap3(TPlus(Sum(vs + [w]), c))
  {
    SumAppend(vs, w);
    var t := TPlus(Sum(vs), c);
    assert TPlus(Sum(vs + [w]), c) == TPlus(t, OfVector(w));
    Wrap3Add(t, w);
  }

  /** Adding a vector to a wrapped total is wrapping the total with the vector added. */
  lemma Wrap3Add(t: Triple, w: BlockVector3d)
    ensures Vector3.Add(Wrap3(t), w) == Wrap3(TPlus(t, OfVector(w)))
  {
    WrapAbsorbSum(t.x, w.x);
    WrapAbsorbSum(t.y, w.y);
    WrapAbsorbSum(t.z, w.z);
  }

  // ---------------------------------------------------------------------------------------
  // The invariant.

  /** What the region's fields promise: sets without duplicates, a box that is exactly that of
      the accepted vertices, an accumulator that is their sum, a mesh only once three vertices
      are accepted, and a cache that is empty or one of the current triangles. */
  ghost predicate Inv(h: Hull) {
    && Distinct(h.vertices) && Distinct(h.backlog)
    && BoxExact(Elems(h.vertices), h.minimumPoint, h.maximumPoint)
    && h.centerAccum == Wrap3(Sum(h.vertices))
    && (h.triangles != [] ==> |h.vertices| >= 3)
    && (h.lastTriangle.None? || h.lastTriangle.value in h.triangles)
  }

  /** The invariant while the backlog is replayed: the vertex taken out for the replay still
      counts for the box (through X) and for the accumulator (through c). */
  ghost predicate Keeps(h: Hull, X: set<BlockVector3d>, c: Triple) {
    && Distinct(h.vertices) && Distinct(h.backlog)
    && BoxExact(Elems(h.vertices) + X, h.minimumPoint, h.maximumPoint)
    && h.centerAccum == Wrap3(TPlus(Sum(h.vertices), c))
    && (h.triangles != [] ==> |h.vertices| >= 3)
  }

  lemma InvIsKeeps(h: Hull)
    ensures Inv(h) <==> Keeps(h, {}, NoOffset) && (h.lastTriangle.None? || h.lastTriangle.value in h.triangles)
  {
    assert Elems(h.vertices) + {} == Elems(h.vertices);
    assert TPlus(Sum(h.vertices), NoOffset) == Sum(h.vertices);
  }

  lemma EraseAbsent(s: seq<BlockVector3d>, x: BlockVector3d)
    requires x !in s
    ensures Erase(s, x) == s
    decreases |s|
  {
    if s != [] {
      EraseAbsent(s[..|s| - 1], x);
    }
  }

  /** Removing a vertex that was just appended gives back the vertices before it. */
  lemma EraseAppended(s: seq<BlockVector3d>, x: BlockVector3d)
    requires x !in s
    ensures Erase(s + [x], x) == s
  {
    assert (s + [x])[..|s|] == s;
    EraseAbsent(s, x);
  }

  lemma ElemsAppend<T>(s: seq<T>, x: T)
    ensures Elems(s + [x]) == Elems(s) + {x}
  {
  }

  lemma ElemsSuffix<T>(s: seq<T>, i: nat)
    requires i < |s|
    ensures Elems(s[i..]) == {s[i]} + Elems(s[i + 1..])
  {
    assert s[i..] == [s[i]] + s[i + 1..];
  }

  lemma DistinctAppend<T>(s: seq<T>, x: T)
    requires Distinct(s) && x !in s
    ensures Distinct(s + [x])
  {
  }

  /** `LinkedHashSet.add`: the element is there afterwards, nothing else is added, the old
      elements keep their order in front, and the set stays duplicate-free. */
  lemma InsertMembers<T>(s: seq<T>, x: T)
    ensures forall y :: y in Insert(s, x) <==> y in s || y == x
    ensures Insert(s, x)[..|s|] == s && |s| <= |Insert(s, x)| <= |s| + 1
    ensures Distinct(s) ==> Distinct(Insert(s, x))
  {
    if x !in s {
      assert (s + [x])[..|s|] == s;
    }
  }

  // ---------------------------------------------------------------------------------------
  // Where the vertices of a step come from.

  /** Every vertex and backlog entry of r was a vertex or backlog entry of h, or is in `extra`. */
  ghost predicate ComesFrom(r: Hull, h: Hull, extra: seq<BlockVector3d>) {
    && (forall x :: x in r.vertices ==> x in h.vertices || x in h.backlog || x in extra)
    && (forall x :: x in r.backlog ==> x in h.vertices || x in h.backlog || x in extra)
  }

  /** `addVertex` loses no vertex and brings in none but v. */
  lemma {:induction false} AddFootprint(h: Hull, v: BlockVector3d, rev: Revision)
    requires Paired(h)
    ensures var r := AddVertex(h, v, rev).hull;
      ComesFrom(r, h, [v]) && |r.vertices| >= |h.vertices|
    decreases |h.backlog|, 1, 0
  {
    var h1 := h.(lastTriangle := None);
    if v in h1.vertices || ((rev == Corrected || |h1.vertices| == 3) && v in h1.backlog) {
      assert AddVertex(h, v, rev).hull == h1;
    } else if |h1.vertices| == 3 && ContainsRaw(h1.triangles, None, ToPoint(v)).inside {
      assert AddVertex(h, v, rev).hull == h1.(backlog := h1.backlog + [v]);
    } else {
      var cache := if |h1.vertices| == 3 then ContainsRaw(h1.triangles, None, ToPoint(v)).cache else None;
      var h2 := Accept(h1.(lastTriangle := cache), v);
      if |h2.vertices| > 3 {
        var h3 := Reshape(h2, ToPoint(v));
        if h3.backlog != [] {
          var h5in := h3.(vertices := Erase(h3.vertices, v), backlog := []);
          var h5 := Replay(h5in, h3.backlog, 0, rev);
          var h6 := h5.(vertices := Insert(h5.vertices, v));
          assert AddVertex(h, v, rev).hull == Finish(h6, rev);
          ReplayBranchFootprint(h, v, h5in, rev);
        } else {
          assert AddVertex(h, v, rev).hull == Finish(h3, rev);
        }
      } else if |h2.vertices| == 3 {
        assert AddVertex(h, v, rev).hull == Bootstrap(h2);
      } else {
        assert AddVertex(h, v, rev).hull == h2;
      }
    }
  }

  /** The replay branch: v is taken out, the backlog replayed, v put back. */
  lemma {:induction false} ReplayBranchFootprint(h: Hull, v: BlockVector3d, h5in: Hull, rev: Revision)
    requires v !in h.vertices && h5in.vertices == Erase(h.vertices + [v], v) && h5in.backlog == []
    requires Paired(h5in)
    ensures var h5 := Replay(h5in, h.backlog, 0, rev);
      var h6 := h5.(vertices := Insert(h5.vertices, v));
      ComesFrom(Finish(h6, rev), h, [v]) && |h6.vertices| >= |h.vertices|
    decreases |h.backlog|, 0, |h.backlog| + 1
  {
    EraseAppended(h.vertices, v);
    ReplayFootprint(h5in, h.backlog, 0, rev);
    assert h.backlog[0..] == h.backlog;
    var h5 := Replay(h5in, h.backlog, 0, rev);
    var h6 := h5.(vertices := Insert(h5.vertices, v));
    assert forall x :: x in h6.vertices ==> x in h5.vertices || x == v;
  }

  lemma {:induction false} ReplayFootprint(h: Hull, snap: seq<BlockVector3d>, i: nat, rev: Revision)
    requires |h.backlog| <= i <= |snap| && Paired(h)
    ensures var r := Replay(h, snap, i, rev);
      ComesFrom(r, h, snap[i..]) && |r.vertices| >= |h.vertices|
    decreases |snap|, 0, |snap| - i
  {
    if i < |snap| {
      var h' := AddVertex(h, snap[i], rev).hull;
      AddFootprint(h, snap[i], rev);
      ReplayFootprint(h', snap, i + 1, rev);
      assert snap[i..] == [snap[i]] + snap[i + 1..];
    }
  }

  // ---------------------------------------------------------------------------------------
  // The corrected addVertex keeps the invariant.

  lemma {:induction false} AcceptKeeps(h: Hull, v: BlockVector3d, X: set<BlockVector3d>, c: Triple)
    requires Paired(h) && Keeps(h, X, c) && v !in h.vertices
    ensures Keeps(Accept(h, v), X, c)
  {
    DistinctAppend(h.vertices, v);
    ElemsAppend(h.vertices, v);
    BoxExtend(Elems(h.vertices) + X, h, v);
    assert Elems(h.vertices) + X + {v} == Elems(h.vertices + [v]) + X;
    AccAppend(h.vertices, c, v);
  }

  /** The corrected `addVertex` keeps the invariant, also in the middle of a replay. */
  lemma {:induction false} AddKeeps(h: Hull, v: BlockVector3d, X: set<BlockVector3d>, c: Triple)
    requires Paired(h) && Keeps(h, X, c)
    ensures Keeps(AddVertex(h, v, Corrected).hull, X, c)
    decreases |h.backlog|, 1, 0
  {
    var h1 := h.(lastTriangle := None);
    if v in h1.vertices || v in h1.backlog {
      assert AddVertex(h, v, Corrected).hull == h1;
    } else if |h1.vertices| == 3 && ContainsRaw(h1.triangles, None, ToPoint(v)).inside {
      assert AddVertex(h, v, Corrected).hull == h1.(backlog := h1.backlog + [v]);
      DistinctAppend(h.backlog, v);
    } else {
      AcceptBranchKeeps(h, v, X, c);
    }
  }

  /** The branch of `addVertex` that accepts v as a vertex keeps the invariant. */
  lemma {:induction false} AcceptBranchKeeps(h: Hull, v: BlockVector3d, X: set<BlockVector3d>, c: Triple)
    requires Paired(h) && Keeps(h, X, c) && v !in h.vertices && v !in h.backlog
    requires !(|h.vertices| == 3 && ContainsRaw(h.triangles, None, ToPoint(v)).inside)
    ensures Keeps(AddVertex(h, v, Corrected).hull, X, c)
    decreases |h.backlog|, 0, |h.backlog| + 2
  {
    var rev := Corrected;
    var h1 := h.(lastTriangle := None);
    var cache := if |h1.vertices| == 3 then ContainsRaw(h1.triangles, None, ToPoint(v)).cache else None;
    var h2 := Accept(h1.(lastTriangle := cache), v);
    AcceptKeeps(h1.(lastTriangle := cache), v, X, c);
    if |h2.vertices| > 3 {
      var h3 := Reshape(h2, ToPoint(v));
      if h3.backlog != [] {
        var h5in := h3.(vertices := Erase(h3.vertices, v), backlog := []);
        var h5 := Replay(h5in, h3.backlog, 0, rev);
        var h6 := h5.(vertices := Insert(h5.vertices, v));
        assert AddVertex(h, v, rev).hull == Finish(h6, rev);
        ReplayBranchKeeps(h, v, h3, X, c);
      } else {
        assert AddVertex(h, v, rev).hull == Finish(h3, rev);
      }
    } else if |h2.vertices| == 3 {
      assert AddVertex(h, v, rev).hull == Bootstrap(h2);
    } else {
      assert AddVertex(h, v, rev).hull == h2;
    }
  }

  /** Taking v out, replaying the backlog and putting v back keeps the invariant: while v is
      out it is carried by X and c. */
  lemma {:induction false} ReplayBranchKeeps(h: Hull, v: BlockVector3d, h3: Hull, X: set<BlockVector3d>, c: Triple)
    requires v !in h.vertices && v !in h.backlog
    requires Paired(h3) && Keeps(h3, X, c) && |h3.vertices| >= 4
    requires h3.vertices == h.vertices + [v] && h3.backlog == h.backlog
    ensures var h5 := Replay(h3.(vertices := Erase(h3.vertices, v), backlog := []), h.backlog, 0, Corrected);
      Keeps(h5.(vertices := Insert(h5.vertices, v)), X, c)
    decreases |h.backlog|, 0, |h.backlog| + 1
  {
    var h5in := h3.(vertices := Erase(h3.vertices, v), backlog := []);
    var X', c' := X + {v}, TPlus(c, OfVector(v));
    TakeOut(h, v, h3, X, c);
    ReplayKeeps(h5in, h.backlog, 0, X', c');
    ReplayFootprint(h5in, h.backlog, 0, Corrected);
    assert h.backlog[0..] == h.backlog;
    var h5 := Replay(h5in, h.backlog, 0, Corrected);
    assert v !in h5.vertices;
    PutBack(h5, v, X, c);
  }

  lemma TakeOut(h: Hull, v: BlockVector3d, h3: Hull, X: set<BlockVector3d>, c: Triple)
    requires v !in h.vertices && Keeps(h3, X, c) && |h3.vertices| >= 4 && h3.vertices == h.vertices + [v]
    ensures Keeps(h3.(vertices := Erase(h3.vertices, v), backlog := []), X + {v}, TPlus(c, OfVector(v)))
    ensures Erase(h3.vertices, v) == h.vertices
  {
    EraseAppended(h.vertices, v);
    TakeOutDistinct(h.vertices, v);
    TakeOutBox(h.vertices, v, X, h3.minimumPoint, h3.maximumPoint);
    TakeOutSum(h.vertices, v, c);
  }

  lemma TakeOutDistinct(vs: seq<BlockVector3d>, v: BlockVector3d)
    requires Distinct(vs + [v])
    ensures Distinct(vs)
  {
    assert forall i :: 0 <= i < |vs| ==> vs[i] == (vs + [v])[i];
  }

  lemma TakeOutBox(vs: seq<BlockVector3d>, v: BlockVector3d, X: set<BlockVector3d>,
                   lo: Option<BlockVector3d>, hi: Option<BlockVector3d>)
    ensures BoxExact(Elems(vs) + (X + {v}), lo, hi) <==> BoxExact(Elems(vs + [v]) + X, lo, hi)
  {
    ElemsAppend(vs, v);
    assert Elems(vs) + (X + {v}) == Elems(vs + [v]) + X;
  }

  lemma TakeOutSum(vs: seq<BlockVector3d>, v: BlockVector3d, c: Triple)
    ensures TPlus(Sum(vs), TPlus(c, OfVector(v))) == TPlus(Sum(vs + [v]), c)
  {
    SumAppend(vs, v);
  }

  lemma PutBack(h5: Hull, v: BlockVector3d, X: set<BlockVector3d>, c: Triple)
    requires v !in h5.vertices && Keeps(h5, X + {v}, TPlus(c, OfVector(v)))
    ensures Keeps(h5.(vertices := Insert(h5.vertices, v)), X, c)
  {
    assert Insert(h5.vertices, v) == h5.vertices + [v];
    DistinctAppend(h5.vertices, v);
    TakeOutBox(h5.vertices, v, X, h5.minimumPoint, h5.maximumPoint);
    TakeOutSum(h5.vertices, v, c);
  }

  lemma {:induction false} ReplayKeeps(h: Hull, snap: seq<BlockVector3d>, i: nat, X: set<BlockVector3d>, c: Triple)
    requires |h.backlog| <= i <= |snap| && Paired(h) && Keeps(h, X, c)
    ensures Keeps(Replay(h, snap, i, Corrected), X, c)
    decreases |snap|, 0, |snap| - i
  {
    if i < |snap| {
      var next := AddVertex(h, snap[i], Corrected).hull;
      AddKeeps(h, snap[i], X, c);
      ReplayKeeps(next, snap, i + 1, X, c);
    }
  }

  // ---------------------------------------------------------------------------------------
  // What one call of addVertex does.

  lemma InvPaired(h: Hull)
    requires Inv(h)
    ensures Paired(h)
    ensures h.triangles != [] ==> h.minimumPoint.Some? && h.maximumPoint.Some?
  {
    if h.triangles != [] {
      assert h.vertices[0] in Elems(h.vertices);
    }
  }

  /** The corrected `addVertex` always leaves the cache empty. */
  lemma {:induction false} AddClearsCache(h: Hull, v: BlockVector3d)
    requires Paired(h)
    ensures AddVertex(h, v, Corrected).hull.lastTriangle.None?
  {
    var h1 := h.(lastTriangle := None);
    if v in h1.vertices || v in h1.backlog {
    } else if |h1.vertices| == 3 && ContainsRaw(h1.triangles, None, ToPoint(v)).inside {
    } else {
      var cache := if |h1.vertices| == 3 then ContainsRaw(h1.triangles, None, ToPoint(v)).cache else None;
      var h2 := Accept(h1.(lastTriangle := cache), v);
      if |h2.vertices| <= 3 {
        assert cache == None;
      }
    }
  }

  /** The corrected `addVertex` keeps the region's invariant. */
  lemma AddPreservesInv(h: Hull, v: BlockVector3d)
    requires Inv(h)
    ensures Inv(AddVertex(h, v, Corrected).hull)
  {
    InvPaired(h);
    InvIsKeeps(h);
    AddKeeps(h, v, {}, NoOffset);
    AddClearsCache(h, v);
    InvIsKeeps(AddVertex(h, v, Corrected).hull);
  }

  /** A vertex already accepted (or, in the corrected revision, already held back) changes
      nothing but the cache, and the call returns false. */
  lemma AddDuplicate(h: Hull, v: BlockVector3d, rev: Revision)
    requires Paired(h)
    requires v in h.vertices || (v in h.backlog && (rev == Corrected || |h.vertices| == 3))
    ensures AddVertex(h, v, rev) == Step(h.(lastTriangle := None), false)
  {
  }

  /** The corrected `addVertex` reports a change exactly for a vertex it has not seen. */
  lemma AddChangedIff(h: Hull, v: BlockVector3d)
    requires Paired(h)
    ensures AddVertex(h, v, Corrected).changed <==> v !in h.vertices && v !in h.backlog
  {
  }

  /** The first two vertices are accepted without building a mesh. */
  lemma AddFirstVertices(h: Hull, v: BlockVector3d, rev: Revision)
    requires Paired(h) && |h.vertices| <= 1 && v !in h.vertices && v !in h.backlog
    ensures var r := AddVertex(h, v, rev);
      r.changed && r.hull.vertices == h.vertices + [v] && r.hull.triangles == h.triangles
      && r.hull.backlog == h.backlog
  {
  }

  /** The third vertex builds two opposite faces through the three vertices, in insertion
      order, so the region is defined from then on. */
  lemma AddBootstrap(h: Hull, v: BlockVector3d, rev: Revision)
    requires Paired(h) && |h.vertices| == 2 && v !in h.vertices && v !in h.backlog
    ensures var r := AddVertex(h, v, rev);
      var p0, p1, p2 := ToPoint(h.vertices[0]), ToPoint(h.vertices[1]), ToPoint(v);
      r.changed && r.hull.vertices == h.vertices + [v]
      && r.hull.triangles == h.triangles + [Triangle(p0, p1, p2), Triangle(p0, p2, p1)]
      && r.hull.triangles != []
  {
  }

  /** The two faces laid by the third vertex span the same plane with opposite normals, so
      no point is above both of them. */
  lemma BootstrapOpposite(h: Hull, q: Point)
    requires |h.vertices| == 3
    ensures var r := Bootstrap(h);
      var t0, t1 := r.triangles[|h.triangles|], r.triangles[|h.triangles| + 1];
      |r.triangles| == |h.triangles| + 2 && r.triangles[..|h.triangles|] == h.triangles
      && t0.v0 == t1.v0 && {t0.v1, t0.v2} == {t1.v1, t1.v2}
      && Normal(t1) == Point(-Normal(t0).x, -Normal(t0).y, -Normal(t0).z)
      && !(Above(t0, q) && Above(t1, q))
  {
    var p0, p1, p2 := ToPoint(h.vertices[0]), ToPoint(h.vertices[1]), ToPoint(h.vertices[2]);
    OppositeFaces(p0, p1, p2, q);
  }

  /** Swapping the last two corners of a face flips its normal. */
  lemma OppositeFaces(a: Point, b: Point, c: Point, q: Point)
    ensures var t0, t1 := Triangle(a, b, c), Triangle(a, c, b);
      Normal(t1) == Point(-Normal(t0).x, -Normal(t0).y, -Normal(t0).z)
      && !(Above(t0, q) && Above(t1, q))
  {
    var t0, t1 := Triangle(a, b, c), Triangle(a, c, b);
    var n := Normal(t0);
    assert Normal(t1) == CrossP(Minus(c, a), Minus(b, a));
    assert DotP(Normal(t1), q) == -DotP(n, q) && DotP(Normal(t1), a) == -DotP(n, a);
  }

  /** A fourth vertex that the flat mesh contains is held back: the vertices, the mesh, the
      box and the accumulator are untouched. */
  lemma AddBacklogs(h: Hull, v: BlockVector3d, rev: Revision)
    requires Paired(h) && |h.vertices| == 3 && v !in h.vertices && v !in h.backlog
    requires ContainsRaw(h.triangles, None, ToPoint(v)).inside
    ensures AddVertex(h, v, rev) == Step(h.(backlog := h.backlog + [v], lastTriangle := None), true)
  {
  }

  /** With an empty backlog, the general case keeps the faces that do not see v and fans the
      border edges to v. */
  lemma AddReshapes(h: Hull, v: BlockVector3d, rev: Revision)
    requires Paired(h) && |h.vertices| >= 3 && v !in h.vertices && v !in h.backlog && h.backlog == []
    requires |h.vertices| == 3 ==> !ContainsRaw(h.triangles, None, ToPoint(v)).inside
    ensures var r := AddVertex(h, v, rev).hull;
      var p := ToPoint(v);
      r.vertices == h.vertices + [v]
      && r.triangles == Kept(h.triangles, p) + Fan(Border(h.triangles, p), p)
  {
  }

  /** An accepted vertex ends up last in the insertion order, also after a backlog replay. */
  lemma {:induction false} NewVertexLast(h: Hull, v: BlockVector3d)
    requires Paired(h) && v !in h.vertices && v !in h.backlog
    requires |h.vertices| == 3 ==> !ContainsRaw(h.triangles, None, ToPoint(v)).inside
    ensures var r := AddVertex(h, v, Corrected);
      r.changed && r.hull.vertices != [] && r.hull.vertices[|r.hull.vertices| - 1] == v
      && v !in r.hull.backlog
  {
    var rev := Corrected;
    var h1 := h.(lastTriangle := None);
    var cache := if |h1.vertices| == 3 then ContainsRaw(h1.triangles, None, ToPoint(v)).cache else None;
    var h2 := Accept(h1.(lastTriangle := cache), v);
    if |h2.vertices| > 3 {
      var h3 := Reshape(h2, ToPoint(v));
      if h3.backlog != [] {
        var h5in := h3.(vertices := Erase(h3.vertices, v), backlog := []);
        var h5 := Replay(h5in, h3.backlog, 0, rev);
        var h6 := h5.(vertices := Insert(h5.vertices, v));
        assert AddVertex(h, v, rev).hull == Finish(h6, rev);
        EraseAppended(h.vertices, v);
        ReplayFootprint(h5in, h3.backlog, 0, rev);
        assert h3.backlog[0..] == h.backlog;
        assert v !in h5.vertices && v !in h5.backlog;
      }
    }
  }

  /** Every vertex passed to `addVertex` is afterwards reported by `getVertices`: it is accepted,
      held back, or was already there. */
  lemma AddReported(h: Hull, v: BlockVector3d)
    requires Paired(h)
    ensures var r := AddVertex(h, v, Corrected).hull;
      v in r.vertices + r.backlog
  {
    var r := AddVertex(h, v, Corrected).hull;
    if v in h.vertices || v in h.backlog {
      AddDuplicate(h, v, Corrected);
      assert v in r.vertices || v in r.backlog;
    } else if |h.vertices| == 3 && ContainsRaw(h.triangles, None, ToPoint(v)).inside {
      AddBacklogs(h, v, Corrected);
      assert v in r.backlog;
    } else {
      NewVertexLast(h, v);
      assert v in r.vertices;
    }
  }

  // ---------------------------------------------------------------------------------------
  // contains

  /** With the invariant (in particular a cache that is empty or a current face), `contains`
      answers exactly "defined, inside the box and below every face", and the cache it leaves
      is again empty or a current face. */
  lemma ContainsExact(h: Hull, pos: BlockVector3d)
    requires Inv(h)
    ensures h.triangles != [] ==> h.minimumPoint.Some? && h.maximumPoint.Some?
    ensures var r := Contains(h, pos);
      (r.inside <==> h.triangles != [] && h.minimumPoint.Some? && h.maximumPoint.Some?
                     && ContainedWithin(pos, h.minimumPoint.value, h.maximumPoint.value)
                     && forall t :: t in h.triangles ==> !Above(t, ToPoint(pos)))
      && (r.cache.None? || r.cache.value in h.triangles)
  {
    InvPaired(h);
  }

  /** With an empty backlog, a vertex accepted onto a mesh of three or more is contained once
      the mesh exists: the kept faces did not see it and every new face has it as a corner. */
  lemma NewVertexContained(h: Hull, v: BlockVector3d)
    requires Inv(h) && |h.vertices| >= 3 && v !in h.vertices && v !in h.backlog && h.backlog == []
    requires |h.vertices| == 3 ==> !ContainsRaw(h.triangles, None, ToPoint(v)).inside
    ensures var r := AddVertex(h, v, Corrected).hull;
      r.triangles != [] ==> Contains(r, v).inside
  {
    InvPaired(h);
    var r := AddVertex(h, v, Corrected).hull;
    var p := ToPoint(v);
    AddReshapes(h, v, Corrected);
    AddPreservesInv(h, v);
    var k, fan := Kept(h.triangles, p), Fan(Border(h.triangles, p), p);
    forall t | t in r.triangles
      ensures !Above(t, p)
    {
      if t !in k {
        var i :| 0 <= i < |fan| && fan[i] == t;
        CornersNotAbove(t);
      }
    }
    assert v in Elems(r.vertices);
    ContainsExact(r, v);
  }
}
