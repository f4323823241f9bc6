/** The integer part of `CylinderRegion`: its centre column and its vertical extent `minY`..`maxY`,
    which `setY`, `shift`, `expand` and `contract` update. The radius is a pair of doubles and is
    not modelled. */
module Cylinder {
  import opened JavaInt
  import opened Wrappers
  import opened Vector3
  import opened Regions
  import V2 = Vector2

  /** The vertical extent: `minY`, `maxY` and whether a Y has been set yet. */
  datatype YRange = YRange(minY: Int32, maxY: Int32, hasY: bool)

  // ---------------------------------------------------------------------------------------
  // setY

  /** `setY`: the first Y sets both ends; later ones widen the extent to include y. The flag
      says whether anything changed. */
  function SetY(r: YRange, y: Int32): (res: (YRange, bool))
    ensures res.0.hasY
    ensures !r.hasY ==> res == (YRange(y, y, true), true)
    ensures r.hasY ==> (res.1 <==> y < r.minY || y > r.maxY)
    ensures r.hasY && !res.1 ==> res.0 == r
    ensures r.hasY && r.minY <= r.maxY ==> res.0 == YRange(Min(r.minY, y), Max(r.maxY, y), true)
  {
    if !r.hasY then (YRange(y, y, true), true)
    else if y < r.minY then (r.(minY := y), true)
    else if y > r.maxY then (r.(maxY := y), true)
    else (r, false)
  }

  /** After `setY(y)` on an ordered extent (or none), y lies in the extent and the extent is
      still ordered; setting the same y again changes nothing. */
  lemma SetYContains(r: YRange, y: Int32)
    requires !r.hasY || r.minY <= r.maxY
    ensures var s := SetY(r, y).0;
      s.minY <= y <= s.maxY && !SetY(s, y).1 && SetY(s, y).0 == s
  {
  }

  // ---------------------------------------------------------------------------------------
  // The Y loops of expand and contract

  /** One turn of the Y loop of `expand`: a positive change raises `maxY`, any other lowers
      `minY`. */
  function ExpandStep(lo: Int32, hi: Int32, changeY: Int32): (Int32, Int32) {
    if changeY > 0 then (lo, AddI(hi, changeY)) else (AddI(lo, changeY), hi)
  }

  /** The Y loop of `expand`, over all the changes in order. */
  function ExpandY(lo: Int32, hi: Int32, changes: seq<BlockVector3d>): (r: (Int32, Int32))
    decreases |changes|
  {
    if changes == [] then (lo, hi)
    else
      var (lo', hi') := ExpandY(lo, hi, changes[..|changes| - 1]);
      ExpandStep(lo', hi', changes[|changes| - 1].y)
  }

  lemma ExpandYAppend(lo: Int32, hi: Int32, changes: seq<BlockVector3d>, i: nat)
    requires i < |changes|
    ensures var (lo', hi') := ExpandY(lo, hi, changes[..i]);
      ExpandY(lo, hi, changes[..i + 1]) == ExpandStep(lo', hi', changes[i].y)
  {
    assert changes[..i + 1][..i] == changes[..i];
  }

  /** The positive and the non-positive Y changes, summed exactly. */
  function RaiseSum(changes: seq<BlockVector3d>): (r: int)
    ensures r >= 0
    decreases |changes|
  {
    if changes == [] then 0
    else RaiseSum(changes[..|changes| - 1]) + Max(changes[|changes| - 1].y, 0)
  }

  function LowerSum(changes: seq<BlockVector3d>): (r: int)
    ensures r <= 0
    decreases |changes|
  {
    if changes == [] then 0
    else LowerSum(changes[..|changes| - 1]) + Min(changes[|changes| - 1].y, 0)
  }

  /** In general `expand` moves `maxY` up by the positive changes and `minY` down by the
      others, each end wrapping like a Java `int`. */
  lemma {:induction false} ExpandYWraps(lo: Int32, hi: Int32, changes: seq<BlockVector3d>)
    ensures ExpandY(lo, hi, changes) == (Wrap(lo + LowerSum(changes)), Wrap(hi + RaiseSum(changes)))
    decreases |changes|
  {
    if changes != [] {
      var init, y := changes[..|changes| - 1], changes[|changes| - 1].y;
      ExpandYWraps(lo, hi, init);
      ExpandStepWraps(lo + LowerSum(init), hi + RaiseSum(init), y);
    }
  }

  lemma ExpandStepWraps(a: int, b: int, y: Int32)
    ensures ExpandStep(Wrap(a), Wrap(b), y) == (Wrap(a + Min(y, 0)), Wrap(b + Max(y, 0)))
  {
    WrapAbsorbSum(a, y);
    WrapAbsorbSum(b, y);
  }

  /** Unless an end wraps around, `expand` moves `maxY` up by the positive changes and `minY`
      down by the others, so the extent only grows. */
  lemma {:induction false} ExpandYGrows(lo: Int32, hi: Int32, changes: seq<BlockVector3d>)
    requires lo + LowerSum(changes) >= MinInt && hi + RaiseSum(changes) <= MaxInt
    ensures ExpandY(lo, hi, changes) == (lo + LowerSum(changes), hi + RaiseSum(changes))
    ensures var (lo', hi') := ExpandY(lo, hi, changes); lo' <= lo && hi <= hi'
    decreases |changes|
  {
    if changes != [] {
      var init := changes[..|changes| - 1];
      assert LowerSum(changes) == LowerSum(init) + Min(changes[|changes| - 1].y, 0);
      assert RaiseSum(changes) == RaiseSum(init) + Max(changes[|changes| - 1].y, 0);
      ExpandYGrows(lo, hi, init);
    }
  }

  /** One turn of the Y loop of `contract`: a positive change raises `minY`, any other lowers
      `maxY`, each by at most the current `maxY - minY`. */
  function ContractStep(lo: Int32, hi: Int32, changeY: Int32): (Int32, Int32) {
    var height := SubI(hi, lo);
    if changeY > 0 then (AddI(lo, Min(height, changeY)), hi)
    else (lo, AddI(hi, Max(Wrap(-(height as int)), changeY)))
  }

  /** The Y loop of `contract`, over all the changes in order. */
  function ContractY(lo: Int32, hi: Int32, changes: seq<BlockVector3d>): (r: (Int32, Int32))
    decreases |changes|
  {
    if changes == [] then (lo, hi)
    else
      var (lo', hi') := ContractY(lo, hi, changes[..|changes| - 1]);
      ContractStep(lo', hi', changes[|changes| - 1].y)
  }

  lemma ContractYAppend(lo: Int32, hi: Int32, changes: seq<BlockVector3d>, i: nat)
    requires i < |changes|
    ensures var (lo', hi') := ContractY(lo, hi, changes[..i]);
      ContractY(lo, hi, changes[..i + 1]) == ContractStep(lo', hi', changes[i].y)
  {
    assert changes[..i + 1][..i] == changes[..i];
  }

  /** `contract` keeps an ordered extent ordered, and only ever shrinks it. */
  lemma {:induction false} ContractYShrinks(lo: Int32, hi: Int32, changes: seq<BlockVector3d>)
    requires lo <= hi && hi - lo <= MaxInt
    ensures var (lo', hi') := ContractY(lo, hi, changes);
      lo <= lo' <= hi' <= hi
    decreases |changes|
  {
    if changes != [] {
      ContractYShrinks(lo, hi, changes[..|changes| - 1]);
    }
  }

  // ---------------------------------------------------------------------------------------
  // calculateDiff2D

  function Flatten(changes: seq<BlockVector3d>): (r: seq<V2.BlockVector2d>)
    ensures |r| == |changes| && forall i :: 0 <= i < |r| ==> r[i] == ToBlockVector2d(changes[i])
  {
    seq(|changes|, i requires 0 <= i < |changes| => ToBlockVector2d(changes[i]))
  }

  /** `calculateDiff2D`: the horizontal parts of the changes added up (32-bit); an odd sum on
      either axis is refused, otherwise half of it is the centre's move. `x & 1` on a
      two's-complement `int` is the remainder of x by 2 rounded down, which is Dafny's `%`. */
  function Diff2D(changes: seq<BlockVector3d>): (r: Result<V2.BlockVector2d>)
    ensures var sum := V2.AddFold(V2.Zero, Flatten(changes));
      && (r.Throws? <==> sum.x % 2 != 0 || sum.z % 2 != 0)
      && (r.Throws? ==> r.exception == RegionOperation)
      && (r.Ok? ==> 2 * r.value.x == sum.x && 2 * r.value.z == sum.z)
  {
    var sum := V2.AddFold(V2.Zero, Flatten(changes));
    if sum.x % 2 + sum.z % 2 != 0 then Throws(RegionOperation)
    else
      var half := V2.Divide(sum, V2.BlockVector2d(2, 2));
      Ok(V2.Floor(half.value))
  }

  /** The sum in `calculateDiff2D` is the exact sum of the horizontal parts, wrapped once. */
  lemma Diff2DSum(changes: seq<BlockVector3d>)
    ensures V2.AddFold(V2.Zero, Flatten(changes))
      == V2.BlockVector2d(Wrap(V2.SumX(Flatten(changes))), Wrap(V2.SumZ(Flatten(changes))))
  {
    V2.AddFoldIsWrappedSum(V2.Zero, Flatten(changes));
  }

  /** The loop of `calculateDiff2D`. */
  method CalculateDiff2D(changes: seq<BlockVector3d>) returns (r: Result<V2.BlockVector2d>)
    ensures r == Diff2D(changes)
  {
    var diff := V2.Zero;
    for i := 0 to |changes|
      invariant diff == V2.AddFold(V2.Zero, Flatten(changes[..i]))
    {
      assert Flatten(changes[..i + 1])[..i] == Flatten(changes[..i]);
      diff := V2.Add(diff, ToBlockVector2d(changes[i]));
    }
    assert changes[..|changes|] == changes;
    if diff.x % 2 + diff.z % 2 != 0 {
      return Throws(RegionOperation);
    }
    var half := V2.Divide(diff, V2.BlockVector2d(2, 2));
    return Ok(V2.Floor(half.value));
  }

  // ---------------------------------------------------------------------------------------
  // The region

  class CylinderRegion {
    var world: Option<World>
    var center: V2.BlockVector2d
    var minY: Int32
    var maxY: Int32
    var hasY: bool

    function Y(): YRange
      reads this
    {
      YRange(minY, maxY, hasY)
    }

    /** A cylinder at the origin with no Y set yet. */
    constructor(world: Option<World>)
      ensures this.world == world && center == V2.Zero && Y() == YRange(0, 0, false)
    {
      this.world := world;
      center := V2.Zero;
      minY, maxY := 0, 0;
      hasY := false;
    }

    /** A cylinder around the column of `center` from `minY` to `maxY`. */
    constructor Bounded(world: Option<World>, center: BlockVector3d, minY: Int32, maxY: Int32)
      ensures this.world == world && this.center == ToBlockVector2d(center)
      ensures Y() == YRange(minY, maxY, true)
    {
      this.world := world;
      this.center := ToBlockVector2d(center);
      this.minY, this.maxY := minY, maxY;
      hasY := true;
    }

    /** A copy: the centre column (read back through `getCenter`, whose y is dropped), the
        extent and the flag. */
    constructor Copy(region: CylinderRegion)
      ensures world == region.world && center == region.center && Y() == region.Y()
    {
      world := region.world;
      center := region.center;
      minY, maxY := region.minY, region.maxY;
      hasY := region.hasY;
    }

    /** `setWorld`, inherited from the abstract region: only the world changes. */
    method SetWorld(world: Option<World>)
      modifies this
      ensures this.world == world && center == old(center) && Y() == old(Y())
    {
      this.world := world;
    }

    method SetCenter(center: V2.BlockVector2d)
      modifies this
      ensures this.center == center && Y() == old(Y()) && world == old(world)
    {
      this.center := center;
    }

    method SetMinimumY(y: Int32)
      modifies this
      ensures Y() == old(Y()).(minY := y, hasY := true) && center == old(center) && world == old(world)
    {
      hasY := true;
      minY := y;
    }

    method SetMaximumY(y: Int32)
      modifies this
      ensures Y() == old(Y()).(maxY := y, hasY := true) && center == old(center) && world == old(world)
    {
      hasY := true;
      maxY := y;
    }

    function GetMinimumY(): Int32
      reads this
    {
      minY
    }

    function GetMaximumY(): Int32
      reads this
    {
      maxY
    }

    /** `getHeight`: `maxY - minY + 1` in 32-bit arithmetic. */
    function GetHeight(): (h: Int32)
      reads this
      ensures h == Wrap(maxY - minY + 1)
      ensures minY <= maxY && maxY - minY < MaxInt ==> h == maxY - minY + 1
    {
      HeightWraps(minY, maxY);
      AddI(SubI(maxY, minY), 1)
    }

    /** `setY`. */
    method SetYTo(y: Int32) returns (changed: bool)
      modifies this
      ensures (Y(), changed) == SetY(old(Y()), y) && center == old(center) && world == old(world)
    {
      if !hasY {
        minY := y;
        maxY := y;
        hasY := true;
        return true;
      } else if y < minY {
        minY := y;
        return true;
      } else if y > maxY {
        maxY := y;
        return true;
      }
      return false;
    }

    /** `shift`: the centre moves by the change's x and z, both ends of the extent by its y. */
    method Shift(change: BlockVector3d)
      modifies this
      ensures center == V2.Add(old(center), ToBlockVector2d(change))
      ensures Y() == old(Y()).(minY := AddI(old(minY), change.y), maxY := AddI(old(maxY), change.y))
      ensures GetHeight() == old(GetHeight()) && world == old(world)
    {
      ShiftKeepsHeight(minY, maxY, change.y);
      center := V2.Add(center, ToBlockVector2d(change));
      var changeY := change.y;
      maxY := AddI(maxY, changeY);
      minY := AddI(minY, changeY);
    }

    /** `expand`: the centre moves by half the horizontal sum (refused when it is odd, before
        anything changes), then the Y loop. */
    method Expand(changes: seq<BlockVector3d>) returns (outcome: Outcome)
      modifies this
      ensures Diff2D(changes).Throws? ==>
        outcome == Raised(RegionOperation) && center == old(center) && Y() == old(Y())
      ensures Diff2D(changes).Ok? ==> (outcome == Done
        && center == V2.Add(old(center), Diff2D(changes).value)
        && (minY, maxY) == ExpandY(old(minY), old(maxY), changes) && hasY == old(hasY))
      ensures world == old(world)
    {
      var diff := CalculateDiff2D(changes);
      if diff.Throws? {
        return Raised(diff.exception);
      }
      center := V2.Add(center, diff.value);
      ExpandYLoop(changes);
      return Done;
    }

    /** The Y loop of `expand`. */
    method ExpandYLoop(changes: seq<BlockVector3d>)
      modifies this
      ensures (minY, maxY) == ExpandY(old(minY), old(maxY), changes)
      ensures hasY == old(hasY) && center == old(center) && world == old(world)
    {
      ghost var lo, hi := minY, maxY;
      for i := 0 to |changes|
        invariant (minY, maxY) == ExpandY(lo, hi, changes[..i])
        invariant hasY == old(hasY) && center == old(center) && world == old(world)
      {
        ExpandYAppend(lo, hi, changes, i);
        var changeY := changes[i].y;
        if changeY > 0 {
          maxY := AddI(maxY, changeY);
        } else {
          minY := AddI(minY, changeY);
        }
      }
      assert changes[..|changes|] == changes;
    }

    /** `contract`: the centre moves back by half the horizontal sum (refused when it is odd,
        before anything changes), then the Y loop. */
    method Contract(changes: seq<BlockVector3d>) returns (outcome: Outcome)
      modifies this
      ensures Diff2D(changes).Throws? ==>
        outcome == Raised(RegionOperation) && center == old(center) && Y() == old(Y())
      ensures Diff2D(changes).Ok? ==> (outcome == Done
        && center == V2.Subtract(old(center), Diff2D(changes).value)
        && (minY, maxY) == ContractY(old(minY), old(maxY), changes) && hasY == old(hasY))
      ensures world == old(world)
    {
      var diff := CalculateDiff2D(changes);
      if diff.Throws? {
        return Raised(diff.exception);
      }
      center := V2.Subtract(center, diff.value);
      ContractYLoop(changes);
      return Done;
    }

    /** The Y loop of `contract`. */
    method ContractYLoop(changes: seq<BlockVector3d>)
      modifies this
      ensures (minY, maxY) == ContractY(old(minY), old(maxY), changes)
      ensures hasY == old(hasY) && center == old(center) && world == old(world)
    {
      ghost var lo, hi := minY, maxY;
      for i := 0 to |changes|
        invariant (minY, maxY) == ContractY(lo, hi, changes[..i])
        invariant hasY == old(hasY) && center == old(center) && world == old(world)
      {
        ContractYAppend(lo, hi, changes, i);
        ContractOnce(changes[i].y);
      }
      assert changes[..|changes|] == changes;
    }

    /** One turn of the Y loop of `contract`: a positive change raises the bottom, any other
        lowers the top, by no more than the current height. */
    method ContractOnce(changeY: Int32)
      modifies this
      ensures (minY, maxY) == ContractStep(old(minY), old(maxY), changeY)
      ensures hasY == old(hasY) && center == old(center) && world == old(world)
    {
      var height := SubI(maxY, minY);
      if changeY > 0 {
        minY := AddI(minY, Min(height, changeY));
      } else {
        maxY := AddI(maxY, Max(Wrap(-(height as int)), changeY));
      }
    }

    /** `contains`: false above or below the extent; otherwise the radial test, which works on
        doubles and is given as `insideEllipse` of the column's offset from the centre. */
    function Contains(position: BlockVector3d, insideEllipse: V2.BlockVector2d -> bool): (r: bool)
      reads this
      ensures position.y < minY || position.y > maxY ==> !r
      ensures minY <= position.y <= maxY ==> (r <==> insideEllipse(V2.Subtract(ToBlockVector2d(position), center)))
    {
      var blockY := position.y;
      if blockY < minY || blockY > maxY then false
      else insideEllipse(V2.Subtract(ToBlockVector2d(position), center))
    }
  }

  /** `expand` and then `contract` by the same changes bring the centre back; an odd horizontal
      sum is refused by both. */
  lemma ExpandContractCenter(center: V2.BlockVector2d, changes: seq<BlockVector3d>)
    ensures Diff2D(changes).Ok? ==>
      V2.Subtract(V2.Add(center, Diff2D(changes).value), Diff2D(changes).value) == center
  {
    if Diff2D(changes).Ok? {
      V2.AddSubtractRoundTrip(center, Diff2D(changes).value);
    }
  }

  /** `maxY - minY + 1` in 32-bit arithmetic: the wrapped true height, and the true height
      whenever it fits. */
  lemma HeightWraps(lo: Int32, hi: Int32)
    ensures AddI(SubI(hi, lo), 1) == Wrap(hi - lo + 1)
    ensures lo <= hi && hi - lo < MaxInt ==> AddI(SubI(hi, lo), 1) == hi - lo + 1
  {
    WrapAbsorbSum(hi - lo, 1);
  }

  /** Moving both ends by the same amount keeps the 32-bit height, wrap-around included. */
  lemma {:induction false} ShiftKeepsHeight(lo: Int32, hi: Int32, c: Int32)
    ensures AddI(SubI(AddI(hi, c), AddI(lo, c)), 1) == AddI(SubI(hi, lo), 1)
  {
    ShiftKeepsDifference(lo, hi, c);
  }

  lemma {:induction false} ShiftKeepsDifference(lo: int, hi: int, c: int)
    ensures Wrap(Wrap(hi + c) - Wrap(lo + c)) == Wrap(hi - lo)
  {
    WrapIsCongruent(hi + c);
    WrapIsCongruent(lo + c);
    CongruentSum(Wrap(hi + c), hi + c, Wrap(lo + c), lo + c);
    assert (hi + c) - (lo + c) == hi - lo;
    WrapCongruent(Wrap(hi + c) - Wrap(lo + c), hi - lo);
  }
}
