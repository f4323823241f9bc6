/** What `shift` does to the convex polyhedral region: when no coordinate leaves the `int`
    range, it moves the vertices, the box and the mesh by the same offset, keeps the
    invariant, and moves the set of contained points. */
module HullShift {
  import opened JavaInt
  import opened Wrappers
  import opened Vector3
  import opened Polyhedron
  import opened HullSpec
  import opened HullLemmas

  /** `d + v` is representable in every component, so `add` does not wrap. */
  predicate Exact(d: BlockVector3d, v: BlockVector3d) {
    && MinInt <= d.x + v.x <= MaxInt
    && MinInt <= d.y + v.y <= MaxInt
    && MinInt <= d.z + v.z <= MaxInt
  }

  predicate NoWrap(s: seq<BlockVector3d>, d: BlockVector3d) {
    forall i :: 0 <= i < |s| ==> Exact(d, s[i])
  }

  lemma AddExact(d: BlockVector3d, v: BlockVector3d)
    requires Exact(d, v)
    ensures Vector3.Add(d, v) == BlockVector3d(d.x + v.x, d.y + v.y, d.z + v.z)
    ensures ToPoint(Vector3.Add(d, v)) == Plus(ToPoint(v), ToPoint(d))
  {
  }

  /** Adding the same offset never maps two vectors to one, even with wrap-around. */
  lemma {:induction false} AddInjective(d: BlockVector3d, a: BlockVector3d, b: BlockVector3d)
    requires Vector3.Add(d, a) == Vector3.Add(d, b)
    ensures a == b
  {
    assert Vector3.Add(a, d) == Vector3.Add(d, a) && Vector3.Add(b, d) == Vector3.Add(d, b);
    AddSubtractRoundTrip(a, d);
    AddSubtractRoundTrip(b, d);
  }

  lemma MovedLast(s: seq<BlockVector3d>, d: BlockVector3d)
    requires s != []
    ensures Moved(s, d) == Moved(s[..|s| - 1], d) + [Vector3.Add(d, s[|s| - 1])]
  {
  }

  /** `shiftCollection` on a `LinkedHashSet`: re-adding every moved element in order loses
      nothing, because moving is injective. */
  lemma {:induction false} ShiftSetIsMoved(s: seq<BlockVector3d>, d: BlockVector3d)
    requires Distinct(s)
    ensures ShiftSet(s, d) == Moved(s, d) && Distinct(Moved(s, d))
    decreases |s|
  {
    if s != [] {
      var init, last := s[..|s| - 1], s[|s| - 1];
      ShiftSetIsMoved(init, d);
      MovedLast(s, d);
      var m := Moved(init, d);
      var w := Vector3.Add(d, last);
      if w in m {
        var j :| 0 <= j < |m| && m[j] == w;
        AddInjective(d, init[j], last);
        assert false;
      }
      assert ShiftSet(s, d) == m + [w];
    }
  }

  // ---------------------------------------------------------------------------------------
  // The accumulator: congruence is enough, so this part holds even when coordinates wrap.

  /** One component of one step of the sum over the moved vectors. */
  lemma {:induction false} SumStep(m0: int, t0: int, n: int, dx: int, lx: int, m1: int, t1: int)
    requires Congruent(m0, t0 + n * dx)
    requires m1 == m0 + Wrap(dx + lx) && t1 == t0 + lx
    ensures Congruent(m1, t1 + (n + 1) * dx)
  {
    WrapIsCongruent(dx + lx);
    CongruentSum(m0, t0 + n * dx, Wrap(dx + lx), dx + lx);
    assert t0 + n * dx + (dx + lx) == (t0 + lx) + (n + 1) * dx;
  }

  lemma SumMovedAppend(s: seq<BlockVector3d>, d: BlockVector3d)
    requires s != []
    ensures var mi, w := Sum(Moved(s[..|s| - 1], d)), Vector3.Add(d, s[|s| - 1]);
      Sum(Moved(s, d)) == Triple(mi.x + w.x, mi.y + w.y, mi.z + w.z)
  {
    MovedLast(s, d);
    var mv := Moved(s, d);
    assert mv[..|mv| - 1] == Moved(s[..|s| - 1], d);
  }

  /** One step of both sums along one axis: the moved sum grows by the moved last vector, the
      old sum by the last vector. */
  lemma SumMovedLast(s: seq<BlockVector3d>, d: BlockVector3d, axis: int)
    requires s != []
    ensures var init, last := s[..|s| - 1], s[|s| - 1];
      && TCoord(Sum(Moved(s, d)), axis)
         == TCoord(Sum(Moved(init, d)), axis) + Coord(Vector3.Add(d, last), axis)
      && TCoord(Sum(s), axis) == TCoord(Sum(init), axis) + Coord(last, axis)
  {
    SumMovedAppend(s, d);
    var init, last := s[..|s| - 1], s[|s| - 1];
    var t := Sum(init);
    assert Sum(s) == Triple(t.x + last.x, t.y + last.y, t.z + last.z);
  }

  /** Along each axis, the moved vectors sum to the old sum plus n times the offset, modulo
      2^32. */
  lemma {:induction false} SumMovedAxis(s: seq<BlockVector3d>, d: BlockVector3d, axis: int)
    ensures Congruent(TCoord(Sum(Moved(s, d)), axis), TCoord(Sum(s), axis) + |s| * Coord(d, axis))
    decreases |s|
  {
    if s == [] {
      assert Moved(s, d) == [];
      MultipleMod(0);
    } else {
      SumMovedAxis(s[..|s| - 1], d, axis);
      SumMovedExtend(s, d, axis);
    }
  }

  /** The step of `SumMovedAxis`: the congruence for all but the last vector extends to all. */
  lemma SumMovedExtend(s: seq<BlockVector3d>, d: BlockVector3d, axis: int)
    requires s != []
    requires var init := s[..|s| - 1];
      Congruent(TCoord(Sum(Moved(init, d)), axis), TCoord(Sum(init), axis) + |init| * Coord(d, axis))
    ensures Congruent(TCoord(Sum(Moved(s, d)), axis), TCoord(Sum(s), axis) + |s| * Coord(d, axis))
  {
    var init, last := s[..|s| - 1], s[|s| - 1];
    var m0, t0 := TCoord(Sum(Moved(init, d)), axis), TCoord(Sum(init), axis);
    var m1, t1 := TCoord(Sum(Moved(s, d)), axis), TCoord(Sum(s), axis);
    var dx, lx := Coord(d, axis), Coord(last, axis);
    assert m1 == m0 + Wrap(dx + lx) && t1 == t0 + lx by {
      SumMovedLast(s, d, axis);
      CoordAdd(d, last, axis);
    }
    assert |init| + 1 == |s|;
    SumStep(m0, t0, |init|, dx, lx, m1, t1);
  }

  /** One component of `change.multiply(n).add(centerAccum)`. */
  lemma {:induction false} AccComponent(m: int, t: int, n: int, dx: int)
    requires Congruent(m, t + n * dx)
    ensures Wrap(Wrap(dx * n) + Wrap(t)) == Wrap(m)
  {
    var p := dx * n;
    assert p == n * dx;
    WrapIsCongruent(p);
    WrapIsCongruent(t);
    CongruentSum(Wrap(p), p, Wrap(t), t);
    CongruentSymmetric(m, t + p);
    CongruentTransitive(Wrap(p) + Wrap(t), p + t, m);
    WrapCongruent(Wrap(p) + Wrap(t), m);
  }

  /** The accumulator update in `shift` yields the wrapped sum of the moved vertices. */
  lemma {:induction false} AccShift(s: seq<BlockVector3d>, d: BlockVector3d)
    requires |s| <= MaxInt
    ensures Vector3.Add(Scale(d, Size(s)), Wrap3(Sum(s))) == Wrap3(Sum(Moved(s, d)))
  {
    var m, t, n := Sum(Moved(s, d)), Sum(s), |s|;
    var lhs := Vector3.Add(Scale(d, Size(s)), Wrap3(t));
    assert Size(s) == n;
    assert lhs.x == Wrap(m.x) by {
      SumMovedAxis(s, d, 0);
      assert lhs.x == Wrap(Wrap(d.x * n) + Wrap(t.x));
      AccComponent(m.x, t.x, n, d.x);
    }
    assert lhs.y == Wrap(m.y) by {
      SumMovedAxis(s, d, 1);
      assert lhs.y == Wrap(Wrap(d.y * n) + Wrap(t.y));
      AccComponent(m.y, t.y, n, d.y);
    }
    assert lhs.z == Wrap(m.z) by {
      SumMovedAxis(s, d, 2);
      assert lhs.z == Wrap(Wrap(d.z * n) + Wrap(t.z));
      AccComponent(m.z, t.z, n, d.z);
    }
  }

  // ---------------------------------------------------------------------------------------
  // The box.

  lemma ElemsMoved(s: seq<BlockVector3d>, d: BlockVector3d, w: BlockVector3d)
    ensures w in Elems(Moved(s, d)) <==> exists i :: 0 <= i < |s| && w == Vector3.Add(d, s[i])
  {
    if w in Elems(Moved(s, d)) {
      var i :| 0 <= i < |s| && Moved(s, d)[i] == w;
    }
  }

  /** A member of a sequence that moves without wrap-around: it moves exactly, into the
      moved sequence. */
  lemma ExactMember(s: seq<BlockVector3d>, d: BlockVector3d, u: BlockVector3d)
    requires NoWrap(s, d) && u in Elems(s)
    ensures Exact(d, u) && Vector3.Add(d, u) in Elems(Moved(s, d))
  {
    var i :| 0 <= i < |s| && s[i] == u;
    assert Moved(s, d)[i] == Vector3.Add(d, u);
  }

  lemma {:induction false} BoundsShift(s: seq<BlockVector3d>, d: BlockVector3d, lo: BlockVector3d, hi: BlockVector3d)
    requires NoWrap(s, d) && Bounds(Elems(s), lo, hi) && Exact(d, lo) && Exact(d, hi)
    ensures Bounds(Elems(Moved(s, d)), Vector3.Add(d, lo), Vector3.Add(d, hi))
  {
    AddExact(d, lo);
    AddExact(d, hi);
    forall w | w in Elems(Moved(s, d))
      ensures ContainedWithin(w, Vector3.Add(d, lo), Vector3.Add(d, hi))
    {
      ElemsMoved(s, d, w);
      var i :| 0 <= i < |s| && w == Vector3.Add(d, s[i]);
      assert s[i] in Elems(s);
      AddExact(d, s[i]);
    }
  }

  lemma {:induction false} AttainedShift(s: seq<BlockVector3d>, d: BlockVector3d, lo: BlockVector3d, hi: BlockVector3d)
    requires NoWrap(s, d) && Attained(Elems(s), lo, hi)
    ensures Exact(d, lo) && Exact(d, hi)
    ensures Attained(Elems(Moved(s, d)), Vector3.Add(d, lo), Vector3.Add(d, hi))
  {
    var S := Elems(s);
    var ax :| ax in S && ax.x == lo.x;
    var ay :| ay in S && ay.y == lo.y;
    var az :| az in S && az.z == lo.z;
    var bx :| bx in S && bx.x == hi.x;
    var cy :| cy in S && cy.y == hi.y;
    var bz :| bz in S && bz.z == hi.z;
    ExactMember(s, d, ax);
    ExactMember(s, d, ay);
    ExactMember(s, d, az);
    ExactMember(s, d, bx);
    ExactMember(s, d, cy);
    ExactMember(s, d, bz);
    AddExact(d, ax);
    AddExact(d, ay);
    AddExact(d, az);
    AddExact(d, bx);
    AddExact(d, cy);
    AddExact(d, bz);
    AddExact(d, lo);
    AddExact(d, hi);
  }

  /** Without wrap-around, moving every point moves the exact box by the same offset. */
  lemma {:induction false} BoxShift(s: seq<BlockVector3d>, d: BlockVector3d, lo: BlockVector3d, hi: BlockVector3d)
    requires NoWrap(s, d) && BoxExact(Elems(s), Some(lo), Some(hi))
    ensures Exact(d, lo) && Exact(d, hi)
    ensures BoxExact(Elems(Moved(s, d)), Some(Vector3.Add(d, lo)), Some(Vector3.Add(d, hi)))
  {
    AttainedShift(s, d, lo, hi);
    BoundsShift(s, d, lo, hi);
    assert s != [];
    assert Moved(s, d)[0] in Elems(Moved(s, d));
  }

  // ---------------------------------------------------------------------------------------
  // shift as a whole

  /** On a region without vertices `shift` throws before the corners are touched; the
      vertices and the mesh it has moved are empty anyway. */
  lemma ShiftEmpty(h: Hull, d: BlockVector3d)
    requires Inv(h) && h.vertices == []
    ensures Shift(h, d).1 == Raised(NullPointer)
    ensures Inv(Shift(h, d).0) && Shift(h, d).0.vertices == [] && Shift(h, d).0.triangles == []
  {
    assert Elems(h.vertices) == {};
    ShiftSetIsMoved(h.backlog, d);
  }

  /** What `shift` does to the corners, the accumulator and the cache: on success both corners
      and the accumulator gain the offset (once per moved vertex) and the cache is dropped; on
      the null dereference only a present minimum has moved. */
  lemma ShiftMovesCorners(h: Hull, d: BlockVector3d)
    ensures var r := Shift(h, d);
      (h.minimumPoint.Some? ==> r.0.minimumPoint == Some(Vector3.Add(d, h.minimumPoint.value)))
      && (r.1 == Done ==> r.0.maximumPoint == Some(Vector3.Add(d, h.maximumPoint.value))
                          && r.0.centerAccum == Vector3.Add(Scale(d, Size(r.0.vertices)), h.centerAccum)
                          && r.0.lastTriangle == None)
      && (r.1 != Done ==> r.0.maximumPoint == h.maximumPoint && r.0.centerAccum == h.centerAccum
                          && r.0.lastTriangle == h.lastTriangle)
  {
  }

  /** `shift` keeps the invariant when no vertex leaves the `int` range; the call succeeds
      exactly when the region has a vertex. */
  lemma {:induction false} ShiftPreservesInv(h: Hull, d: BlockVector3d)
    requires Inv(h) && |h.vertices| <= MaxInt && NoWrap(h.vertices, d)
    ensures Inv(Shift(h, d).0)
    ensures Shift(h, d).1 == Done <==> h.vertices != []
    ensures Shift(h, d).0.vertices == Moved(h.vertices, d)
    ensures |Shift(h, d).0.triangles| == |h.triangles|
  {
    ShiftSetIsMoved(h.vertices, d);
    ShiftSetIsMoved(h.backlog, d);
    if h.vertices == [] {
      ShiftEmpty(h, d);
    } else {
      assert h.vertices[0] in Elems(h.vertices);
      var r := Shift(h, d).0;
      BoxShift(h.vertices, d, h.minimumPoint.value, h.maximumPoint.value);
      AccShift(h.vertices, d);
      assert r.centerAccum == Wrap3(Sum(r.vertices));
    }
  }

  /** A point is above some moved face exactly when the point it came from is above some
      original face. */
  lemma {:induction false} AboveShifted(ts: seq<Triangle>, p: Point, D: Point)
    ensures (forall u :: u in ShiftTriangles(ts, D) ==> !Above(u, Plus(p, D)))
        <==> (forall t :: t in ts ==> !Above(t, p))
  {
    var us := ShiftTriangles(ts, D);
    forall t | t in ts
      ensures Translate(t, D) in us && (Above(Translate(t, D), Plus(p, D)) <==> Above(t, p))
    {
      var i :| 0 <= i < |ts| && ts[i] == t;
      assert us[i] == Translate(t, D);
      AboveTranslate(t, p, D);
    }
    forall u | u in us
      ensures exists t :: t in ts && u == Translate(t, D)
    {
      var i :| 0 <= i < |us| && us[i] == u;
      assert ts[i] in ts;
    }
  }

  /** `shift` moves the region: the moved point is in the moved region exactly when the point
      was in the region. */
  lemma {:induction false} ShiftContains(h: Hull, d: BlockVector3d, pos: BlockVector3d)
    requires Inv(h) && |h.vertices| <= MaxInt && NoWrap(h.vertices, d) && Exact(d, pos)
    ensures var r := Shift(h, d).0;
      (r.triangles != [] ==> r.minimumPoint.Some? && r.maximumPoint.Some?)
      && (Contains(r, Vector3.Add(d, pos)).inside <==> Contains(h, pos).inside)
  {
    var r := Shift(h, d).0;
    var q := Vector3.Add(d, pos);
    ShiftPreservesInv(h, d);
    ContainsExact(h, pos);
    ContainsExact(r, q);
    AddExact(d, pos);
    AboveShifted(h.triangles, ToPoint(pos), ToPoint(d));
    if h.triangles != [] {
      assert h.vertices[0] in Elems(h.vertices);
      var lo, hi := h.minimumPoint.value, h.maximumPoint.value;
      BoxShift(h.vertices, d, lo, hi);
      AddExact(d, lo);
      AddExact(d, hi);
      assert ContainedWithin(q, r.minimumPoint.value, r.maximumPoint.value) <==> ContainedWithin(pos, lo, hi);
    }
  }
}
