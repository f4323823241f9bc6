/** Two situations in which `addVertex` as written breaks what the region promises, each next
    to the corrected revision, which keeps the invariant (`HullLemmas.AddPreservesInv`). */
module HullFindings {
  import opened JavaInt
  import opened Wrappers
  import opened Vector3
  import opened Polyhedron
  import opened HullSpec
  import opened HullLemmas

  // ---------------------------------------------------------------------------------------
  // First finding: the cached face can outlive the mesh it came from.

  /** What the fourth vertex does to a flat start when it is not contained: the mesh is
      rebuilt around the new vertex from the face that the containment test found. */
  lemma GrowthStep(h: Hull, v: BlockVector3d, rev: Revision)
    requires Paired(h) && |h.vertices| == 3 && v !in h.vertices && h.backlog == []
    requires !ContainsRaw(h.triangles, None, ToPoint(v)).inside
    ensures var q := ContainsRaw(h.triangles, None, ToPoint(v));
      var h2 := Accept(h.(lastTriangle := q.cache), v);
      q.cache.Some? && q.cache.value in h.triangles && Above(q.cache.value, ToPoint(v))
      && AddVertex(h, v, rev).hull == Finish(Reshape(h2, ToPoint(v)), rev)
  {
  }

  /** After the rebuild no face is above the new vertex: the kept faces did not see it and
      every fan face has it as a corner. The face that saw it is gone. */
  lemma RebuiltAround(h: Hull, p: Point, seen: Triangle)
    requires seen in h.triangles && Above(seen, p)
    ensures var r := Reshape(h, p);
      (forall t :: t in r.triangles ==> !Above(t, p)) && seen !in r.triangles
  {
    var r := Reshape(h, p);
    MeshAfterReshape(h, p);
    forall t | t in r.triangles
      ensures !Above(t, p)
    {
      CornersNotAbove(t);
    }
  }

  /** Finding, as written: when a fourth vertex outside the flat start is added, the cache
      keeps the face that saw it although the rebuild removed that face. The invariant is then
      broken, and `contains` rejects the new vertex itself although no face is above it. */
  lemma {:induction false} StaleCache(h: Hull, v: BlockVector3d)
    requires Paired(h) && |h.vertices| == 3 && v !in h.vertices && h.backlog == []
    requires !ContainsRaw(h.triangles, None, ToPoint(v)).inside
    requires exists t :: t in h.triangles && !Above(t, ToPoint(v))
    ensures var r := AddVertex(h, v, AsWritten).hull;
      && r.lastTriangle.Some? && r.lastTriangle.value !in r.triangles && !Inv(r)
      && r.triangles != [] && r.minimumPoint.Some? && r.maximumPoint.Some?
      && v in r.vertices && (forall t :: t in r.triangles ==> !Above(t, ToPoint(v)))
      && !Contains(r, v).inside
  {
    var p := ToPoint(v);
    var q := ContainsRaw(h.triangles, None, p);
    var h2 := Accept(h.(lastTriangle := q.cache), v);
    GrowthStep(h, v, AsWritten);
    var r := Reshape(h2, p);
    assert AddVertex(h, v, AsWritten).hull == r;
    RebuiltAround(h2, p, q.cache.value);
    var k :| k in h.triangles && !Above(k, p);
    assert k in r.triangles by {
      MeshAfterReshape(h2, p);
    }
    assert ContainedWithin(v, r.minimumPoint.value, r.maximumPoint.value);
  }

  /** Corrected: with the cache cleared after the rebuild, the same vertex is contained. */
  lemma {:induction false} FreshCache(h: Hull, v: BlockVector3d)
    requires Paired(h) && |h.vertices| == 3 && v !in h.vertices && h.backlog == []
    requires !ContainsRaw(h.triangles, None, ToPoint(v)).inside
    requires exists t :: t in h.triangles && !Above(t, ToPoint(v))
    ensures var r := AddVertex(h, v, Corrected).hull;
      && r.lastTriangle.None? && r.triangles == AddVertex(h, v, AsWritten).hull.triangles
      && r.triangles != [] && r.minimumPoint.Some? && r.maximumPoint.Some?
      && Contains(r, v).inside
  {
    var p := ToPoint(v);
    var q := ContainsRaw(h.triangles, None, p);
    var h2 := Accept(h.(lastTriangle := q.cache), v);
    GrowthStep(h, v, AsWritten);
    GrowthStep(h, v, Corrected);
    var r := Reshape(h2, p);
    RebuiltAround(h2, p, q.cache.value);
    var k :| k in h.triangles && !Above(k, p);
    assert k in r.triangles by {
      MeshAfterReshape(h2, p);
    }
    assert ContainedWithin(v, r.minimumPoint.value, r.maximumPoint.value);
  }

  // ---------------------------------------------------------------------------------------
  // Second finding: a held-back vertex added again once the mesh has grown is accepted twice.

  /** A nonzero `int` added to a wrapped sum changes it. */
  lemma {:induction false} WrapShiftDiffers(s: int, x: Int32)
    requires x != 0
    ensures Wrap(s + x) != Wrap(s)
  {
    if Wrap(s + x) == Wrap(s) {
      WrapIsCongruent(s + x);
      WrapIsCongruent(s);
      CongruentSymmetric(Wrap(s + x), s + x);
      CongruentTransitive(s + x, Wrap(s), s);
      var k := CongruentMultiple(s + x, s);
      assert false;
    }
  }

  /** The accumulator after adding w twice to the wrapped sum of vs. */
  lemma AccTwice(vs: seq<BlockVector3d>, w: BlockVector3d)
    ensures Vector3.Add(Vector3.Add(Wrap3(Sum(vs)), w), w) == Wrap3(TPlus(Sum(vs + [w]), OfVector(w)))
  {
    assert TPlus(Sum(vs), NoOffset) == Sum(vs);
    AccAppend(vs, NoOffset, w);
    assert TPlus(Sum(vs + [w]), NoOffset) == Sum(vs + [w]);
    AccAppend(vs + [w], NoOffset, w);
    SumAppend(vs + [w], w);
  }

  /** The replay of a backlog holding only v, on a mesh of four or more vertices that lacks v. */
  lemma {:induction false} ReplayAcceptsAgain(h: Hull, v: BlockVector3d)
    requires Paired(h) && |h.vertices| >= 4 && v !in h.vertices && h.backlog == []
    ensures var r := Replay(h, [v], 0, AsWritten);
      r.vertices == h.vertices + [v] && r.backlog == []
      && r.centerAccum == Vector3.Add(h.centerAccum, v)
  {
    var h2 := Accept(h.(lastTriangle := None), v);
    assert AddVertex(h, v, AsWritten).hull == Reshape(h2, ToPoint(v));
  }

  lemma {:induction false} BacklogTwiceState(h: Hull, v: BlockVector3d)
    requires Paired(h) && |h.vertices| >= 4 && h.backlog == [v] && v !in h.vertices
    ensures var r := AddVertex(h, v, AsWritten).hull;
      && r.vertices == h.vertices + [v] && r.backlog == []
      && r.centerAccum == Vector3.Add(Vector3.Add(h.centerAccum, v), v)
  {
    var h2 := Accept(h.(lastTriangle := None), v);
    var h3 := Reshape(h2, ToPoint(v));
    var inner := h3.(vertices := Erase(h3.vertices, v), backlog := []);
    var h5 := Replay(inner, [v], 0, AsWritten);
    assert AddVertex(h, v, AsWritten).hull == h5.(vertices := Insert(h5.vertices, v)) by {
      assert h3.backlog == [v];
    }
    assert h5.vertices == h.vertices + [v] && h5.backlog == []
        && h5.centerAccum == Vector3.Add(h2.centerAccum, v) by {
      EraseAppended(h.vertices, v);
      ReplayAcceptsAgain(inner, v);
    }
  }

  /** A nonzero vector added to a wrapped sum changes it. */
  lemma NonzeroChangesSum(t: Triple, v: BlockVector3d)
    requires v != Zero
    ensures Wrap3(TPlus(t, OfVector(v))) != Wrap3(t)
  {
    if v.x != 0 {
      WrapShiftDiffers(t.x, v.x);
    } else if v.y != 0 {
      WrapShiftDiffers(t.y, v.y);
    } else {
      WrapShiftDiffers(t.z, v.z);
    }
  }

  /** Finding, as written: the backlog is consulted only while the region has exactly three
      vertices. A held-back vertex added again later is accepted, and the replay of the old
      backlog entry then adds it to the accumulator a second time, so the accumulator no
      longer holds the sum of the vertices. */
  lemma {:induction false} BacklogTwice(h: Hull, v: BlockVector3d)
    requires Inv(h) && |h.vertices| >= 4 && h.backlog == [v] && v !in h.vertices
    ensures var r := AddVertex(h, v, AsWritten).hull;
      && r.vertices == h.vertices + [v] && r.backlog == []
      && r.centerAccum == Wrap3(TPlus(Sum(r.vertices), OfVector(v)))
      && (v != Zero ==> !Inv(r))
  {
    InvPaired(h);
    BacklogTwiceState(h, v);
    AccTwice(h.vertices, v);
    var r := AddVertex(h, v, AsWritten).hull;
    if v != Zero {
      NonzeroChangesSum(Sum(r.vertices), v);
    }
  }

  /** Corrected: the backlog is consulted at every size, so the second request is ignored. */
  lemma BacklogOnce(h: Hull, v: BlockVector3d)
    requires Paired(h) && v in h.backlog
    ensures AddVertex(h, v, Corrected) == Step(h.(lastTriangle := None), false)
  {
  }
}
