/** `BlockVector3d`: an immutable triple of Java `int`s. Arithmetic wraps at 32 bits; the
    conversions to and from `BlockVector2d` are here as well, so that they sit beside each other. */
module Vector3 {
  import opened JavaInt
  import opened Wrappers
  import Vector2

  datatype BlockVector3d = BlockVector3d(x: Int32, y: Int32, z: Int32)

  const Zero := BlockVector3d(0, 0, 0)
  const UnitX := BlockVector3d(1, 0, 0)
  const UnitY := BlockVector3d(0, 1, 0)
  const UnitZ := BlockVector3d(0, 0, 1)
  const One := BlockVector3d(1, 1, 1)

  function WithX(a: BlockVector3d, x: Int32): BlockVector3d { a.(x := x) }
  function WithY(a: BlockVector3d, y: Int32): BlockVector3d { a.(y := y) }
  function WithZ(a: BlockVector3d, z: Int32): BlockVector3d { a.(z := z) }

  function Add(a: BlockVector3d, b: BlockVector3d): BlockVector3d {
    BlockVector3d(AddI(a.x, b.x), AddI(a.y, b.y), AddI(a.z, b.z))
  }

  /** `add`: each component is the true sum, corrected once by 2^32 when it
      overflows. */
  lemma AddWrapsOnce(a: BlockVector3d, b: BlockVector3d)
    ensures Add(a, b) == BlockVector3d(OnceWrapped(a.x + b.x), OnceWrapped(a.y + b.y), OnceWrapped(a.z + b.z))
  {
    AddSubWrapOnce(a.x, b.x);
    AddSubWrapOnce(a.y, b.y);
    AddSubWrapOnce(a.z, b.z);
  }

  function Subtract(a: BlockVector3d, b: BlockVector3d): BlockVector3d {
    BlockVector3d(SubI(a.x, b.x), SubI(a.y, b.y), SubI(a.z, b.z))
  }

  /** `subtract`: each component is the true difference, corrected once by 2^32 when it
      overflows. */
  lemma SubtractWrapsOnce(a: BlockVector3d, b: BlockVector3d)
    ensures Subtract(a, b) == BlockVector3d(OnceWrapped(a.x - b.x), OnceWrapped(a.y - b.y), OnceWrapped(a.z - b.z))
  {
    AddSubWrapOnce(a.x, b.x);
    AddSubWrapOnce(a.y, b.y);
    AddSubWrapOnce(a.z, b.z);
  }

  /** `multiply`: each component is the true product when it fits, and agrees with it modulo
      2^32 always. */
  function Multiply(a: BlockVector3d, b: BlockVector3d): (r: BlockVector3d)
    ensures MinInt <= a.x * b.x <= MaxInt ==> r.x == a.x * b.x
    ensures MinInt <= a.y * b.y <= MaxInt ==> r.y == a.y * b.y
    ensures MinInt <= a.z * b.z <= MaxInt ==> r.z == a.z * b.z
    ensures Congruent(r.x, a.x * b.x) && Congruent(r.y, a.y * b.y) && Congruent(r.z, a.z * b.z)
  {
    WrapIsCongruent(a.x * b.x);
    WrapIsCongruent(a.y * b.y);
    WrapIsCongruent(a.z * b.z);
    BlockVector3d(MulI(a.x, b.x), MulI(a.y, b.y), MulI(a.z, b.z))
  }

  /** `multiply(int n)`: every component scaled by n, exactly when the product fits. */
  function Scale(a: BlockVector3d, n: Int32): (r: BlockVector3d)
    ensures MinInt <= a.x * n <= MaxInt ==> r.x == a.x * n
    ensures MinInt <= a.y * n <= MaxInt ==> r.y == a.y * n
    ensures MinInt <= a.z * n <= MaxInt ==> r.z == a.z * n
    ensures Congruent(r.x, a.x * n) && Congruent(r.y, a.y * n) && Congruent(r.z, a.z * n)
  {
    Multiply(a, BlockVector3d(n, n, n))
  }

  /** `divide`: each component divided with truncation toward zero, so the remainder takes the
      sign of the dividend and is smaller than the divisor; a zero divisor throws. Only
      MinInt / -1 overflows, wrapping back to MinInt. */
  function Divide(a: BlockVector3d, b: BlockVector3d): (r: Result<BlockVector3d>)
    ensures r.Throws? <==> b.x == 0 || b.y == 0 || b.z == 0
    ensures r.Throws? ==> r.exception == Arithmetic
    ensures r.Ok? && !(a.x == MinInt && b.x == -1) ==> TruncatedQuotient(a.x, b.x, r.value.x)
    ensures r.Ok? && !(a.y == MinInt && b.y == -1) ==> TruncatedQuotient(a.y, b.y, r.value.y)
    ensures r.Ok? && !(a.z == MinInt && b.z == -1) ==> TruncatedQuotient(a.z, b.z, r.value.z)
    ensures r.Ok? && a.x == MinInt && b.x == -1 ==> r.value.x == MinInt
    ensures r.Ok? && a.y == MinInt && b.y == -1 ==> r.value.y == MinInt
    ensures r.Ok? && a.z == MinInt && b.z == -1 ==> r.value.z == MinInt
  {
    if b.x == 0 || b.y == 0 || b.z == 0 then Throws(Arithmetic)
    else
      DivIExact(a.x, b.x);
      DivIExact(a.y, b.y);
      DivIExact(a.z, b.z);
      Ok(BlockVector3d(DivI(a.x, b.x), DivI(a.y, b.y), DivI(a.z, b.z)))
  }

  /** `lengthSq`: the true squared length reduced to 32 bits, so exact when it fits. */
  function LengthSq(a: BlockVector3d): (r: Int32)
    ensures r == Wrap(a.x * a.x + a.y * a.y + a.z * a.z)
  {
    WrapSquares3(a.x, a.y, a.z);
    AddI(AddI(MulI(a.x, a.x), MulI(a.y, a.y)), MulI(a.z, a.z))
  }

  /** `distanceSq`: the differences, their squares and the sum, all in 32-bit arithmetic. */
  function DistanceSq(a: BlockVector3d, other: BlockVector3d): Int32 {
    var dx := SubI(other.x, a.x);
    var dy := SubI(other.y, a.y);
    var dz := SubI(other.z, a.z);
    AddI(AddI(MulI(dx, dx), MulI(dy, dy)), MulI(dz, dz))
  }

  /** `distanceSq` is the true squared distance reduced to 32 bits, so exact when it fits,
      although the differences are themselves wrapped first. */
  lemma DistanceSqWraps(a: BlockVector3d, other: BlockVector3d)
    ensures var dx, dy, dz := other.x - a.x, other.y - a.y, other.z - a.z;
      DistanceSq(a, other) == Wrap(dx * dx + dy * dy + dz * dz)
  {
    WrapSquares3(other.x - a.x, other.y - a.y, other.z - a.z);
  }

  /** `dot`: the products and their sum are computed on `int`s and only the result is widened
      to `double`, which is exact; so it is the true dot product reduced to 32 bits. */
  function Dot(a: BlockVector3d, other: BlockVector3d): (r: Int32)
    ensures r == Wrap(a.x * other.x + a.y * other.y + a.z * other.z)
  {
    WrapSum2(a.x * other.x, a.y * other.y);
    WrapSum2(a.x * other.x + a.y * other.y, a.z * other.z);
    AddI(AddI(MulI(a.x, other.x), MulI(a.y, other.y)), MulI(a.z, other.z))
  }

  /** `cross`: each component is the true cross product component reduced to 32 bits. */
  function Cross(a: BlockVector3d, other: BlockVector3d): (r: BlockVector3d)
    ensures r == BlockVector3d(
      Wrap(a.y * other.z - a.z * other.y),
      Wrap(a.z * other.x - a.x * other.z),
      Wrap(a.x * other.y - a.y * other.x))
  {
    WrapSum2(a.y * other.z, a.z * other.y);
    WrapSum2(a.z * other.x, a.x * other.z);
    WrapSum2(a.x * other.y, a.y * other.x);
    BlockVector3d(
      SubI(MulI(a.y, other.z), MulI(a.z, other.y)),
      SubI(MulI(a.z, other.x), MulI(a.x, other.z)),
      SubI(MulI(a.x, other.y), MulI(a.y, other.x)))
  }

  /** `containedWithin`: every component lies between the corners' components. */
  function ContainedWithin(a: BlockVector3d, min: BlockVector3d, max: BlockVector3d): bool
  {
    a.x >= min.x && a.x <= max.x && a.y >= min.y && a.y <= max.y && a.z >= min.z && a.z <= max.z
  }

  /** A vector lies in a box exactly when widening the box by it changes neither corner. */
  lemma ContainedWithinCorners(a: BlockVector3d, min: BlockVector3d, max: BlockVector3d)
    ensures ContainedWithin(a, min, max) <==> GetMinimum(a, min) == min && GetMaximum(a, max) == max
  {
  }

  /** `clampY`: throws when the bounds are crossed; otherwise moves y to the nearest value in
      [min, max] and leaves x and z alone. */
  function ClampY(a: BlockVector3d, min: Int32, max: Int32): (r: Result<BlockVector3d>)
    ensures r.Throws? <==> min > max
    ensures r.Throws? ==> r.exception == IllegalArgument
    ensures r.Ok? ==> r.value.x == a.x && r.value.z == a.z && min <= r.value.y <= max
    ensures r.Ok? && min <= a.y <= max ==> r.value == a
    ensures r.Ok? && a.y < min ==> r.value.y == min
    ensures r.Ok? && a.y > max ==> r.value.y == max
  {
    if min > max then Throws(IllegalArgument)
    else if a.y < min then Ok(BlockVector3d(a.x, min, a.z))
    else if a.y > max then Ok(BlockVector3d(a.x, max, a.z))
    else Ok(a)
  }

  function Floor(a: BlockVector3d): (r: BlockVector3d)
    ensures r == a
  {
    a
  }

  function Ceil(a: BlockVector3d): (r: BlockVector3d)
    ensures r == a
  {
    a
  }

  function Round(a: BlockVector3d): (r: BlockVector3d)
    ensures r == a
  {
    a
  }

  /** `abs`: every component that is not `Integer.MIN_VALUE` becomes its magnitude. */
  function Abs(a: BlockVector3d): (r: BlockVector3d)
    ensures a.x != MinInt ==> r.x >= 0 && (r.x == a.x || r.x == -a.x)
    ensures a.y != MinInt ==> r.y >= 0 && (r.y == a.y || r.y == -a.y)
    ensures a.z != MinInt ==> r.z >= 0 && (r.z == a.z || r.z == -a.z)
    ensures a.x == MinInt ==> r.x == MinInt
    ensures a.y == MinInt ==> r.y == MinInt
    ensures a.z == MinInt ==> r.z == MinInt
  {
    BlockVector3d(AbsI(a.x), AbsI(a.y), AbsI(a.z))
  }

  /** Taking `abs` twice gives the same vector as taking it once, `Integer.MIN_VALUE`
      included. */
  lemma AbsIdempotent(a: BlockVector3d)
    ensures Abs(Abs(a)) == Abs(a)
  {
  }

  function GetMinimum(a: BlockVector3d, b: BlockVector3d): (r: BlockVector3d)
    ensures r.x <= a.x && r.x <= b.x && (r.x == a.x || r.x == b.x)
    ensures r.y <= a.y && r.y <= b.y && (r.y == a.y || r.y == b.y)
    ensures r.z <= a.z && r.z <= b.z && (r.z == a.z || r.z == b.z)
  {
    BlockVector3d(Min(a.x, b.x), Min(a.y, b.y), Min(a.z, b.z))
  }

  function GetMaximum(a: BlockVector3d, b: BlockVector3d): (r: BlockVector3d)
    ensures r.x >= a.x && r.x >= b.x && (r.x == a.x || r.x == b.x)
    ensures r.y >= a.y && r.y >= b.y && (r.y == a.y || r.y == b.y)
    ensures r.z >= a.z && r.z >= b.z && (r.z == a.z || r.z == b.z)
  {
    BlockVector3d(Max(a.x, b.x), Max(a.y, b.y), Max(a.z, b.z))
  }

  /** `toBlockVector2d`: drops y. */
  function ToBlockVector2d(a: BlockVector3d): (r: Vector2.BlockVector2d)
    ensures r.x == a.x && r.z == a.z
  {
    Vector2.BlockVector2d(a.x, a.z)
  }

  /** `BlockVector2d.toBlockVector3d(y)`: puts y between x and z. */
  function FromBlockVector2d(v: Vector2.BlockVector2d, y: Int32): (r: BlockVector3d)
    ensures r.x == v.x && r.y == y && r.z == v.z
  {
    BlockVector3d(v.x, y, v.z)
  }

  /** `equals`: true exactly for the same three components. */
  function Equals(a: BlockVector3d, b: BlockVector3d): (r: bool)
    ensures r <==> a == b
  {
    a.x == b.x && a.y == b.y && a.z == b.z
  }

  /** `Integer.compare`, as `ComparisonChain.compare` uses it. */
  function CompareInt(a: int, b: int): int {
    if a < b then -1 else if a > b then 1 else 0
  }

  /** The comparator `sortByCoordsYzx`: first by y, then z, then x. */
  function CompareYzx(a: BlockVector3d, b: BlockVector3d): (r: int)
    ensures r == 0 <==> a == b
    ensures r < 0 <==> a.y < b.y || (a.y == b.y && (a.z < b.z || (a.z == b.z && a.x < b.x)))
    ensures -1 <= r <= 1
  {
    if a.y != b.y then CompareInt(a.y, b.y)
    else if a.z != b.z then CompareInt(a.z, b.z)
    else CompareInt(a.x, b.x)
  }

  /** The comparator is a total order: antisymmetric and transitive. */
  lemma CompareYzxAntisymmetric(a: BlockVector3d, b: BlockVector3d)
    ensures CompareYzx(a, b) == -CompareYzx(b, a)
  {
  }

  lemma CompareYzxTransitive(a: BlockVector3d, b: BlockVector3d, c: BlockVector3d)
    requires CompareYzx(a, b) <= 0 && CompareYzx(b, c) <= 0
    ensures CompareYzx(a, c) <= 0
  {
  }

  // ---------------------------------------------------------------------------------------
  // The varargs forms: loops over local accumulators, specified by a left fold of the binary
  // operation and by the closed form of that fold.

  function AddFold(a: BlockVector3d, others: seq<BlockVector3d>): BlockVector3d
    decreases |others|
  {
    if others == [] then a else Add(AddFold(a, others[..|others| - 1]), others[|others| - 1])
  }

  function SubtractFold(a: BlockVector3d, others: seq<BlockVector3d>): BlockVector3d
    decreases |others|
  {
    if others == [] then a else Subtract(SubtractFold(a, others[..|others| - 1]), others[|others| - 1])
  }

  function MultiplyFold(a: BlockVector3d, others: seq<BlockVector3d>): BlockVector3d
    decreases |others|
  {
    if others == [] then a else Multiply(MultiplyFold(a, others[..|others| - 1]), others[|others| - 1])
  }

  /** The exact (unwrapped) component sums of a list of vectors. */
  datatype Triple = Triple(x: int, y: int, z: int)

  function Sum(s: seq<BlockVector3d>): Triple
    decreases |s|
  {
    if s == [] then Triple(0, 0, 0)
    else
      var t, last := Sum(s[..|s| - 1]), s[|s| - 1];
      Triple(t.x + last.x, t.y + last.y, t.z + last.z)
  }

  function Product(s: seq<BlockVector3d>): Triple
    decreases |s|
  {
    if s == [] then Triple(1, 1, 1)
    else
      var t, last := Product(s[..|s| - 1]), s[|s| - 1];
      Triple(t.x * last.x, t.y * last.y, t.z * last.z)
  }

  /** `add(BlockVector3d...)`. */
  method AddAll(a: BlockVector3d, others: seq<BlockVector3d>) returns (r: BlockVector3d)
    ensures r == AddFold(a, others)
  {
    var newX, newY, newZ := a.x, a.y, a.z;
    for i := 0 to |others|
      invariant BlockVector3d(newX, newY, newZ) == AddFold(a, others[..i])
    {
      assert others[..i + 1][..i] == others[..i];
      newX := AddI(newX, others[i].x);
      newY := AddI(newY, others[i].y);
      newZ := AddI(newZ, others[i].z);
    }
    assert others[..|others|] == others;
    r := BlockVector3d(newX, newY, newZ);
  }

  /** `subtract(BlockVector3d...)`. */
  method SubtractAll(a: BlockVector3d, others: seq<BlockVector3d>) returns (r: BlockVector3d)
    ensures r == SubtractFold(a, others)
  {
    var newX, newY, newZ := a.x, a.y, a.z;
    for i := 0 to |others|
      invariant BlockVector3d(newX, newY, newZ) == SubtractFold(a, others[..i])
    {
      assert others[..i + 1][..i] == others[..i];
      newX := SubI(newX, others[i].x);
      newY := SubI(newY, others[i].y);
      newZ := SubI(newZ, others[i].z);
    }
    assert others[..|others|] == others;
    r := BlockVector3d(newX, newY, newZ);
  }

  /** `multiply(BlockVector3d...)`. */
  method MultiplyAll(a: BlockVector3d, others: seq<BlockVector3d>) returns (r: BlockVector3d)
    ensures r == MultiplyFold(a, others)
  {
    var newX, newY, newZ := a.x, a.y, a.z;
    for i := 0 to |others|
      invariant BlockVector3d(newX, newY, newZ) == MultiplyFold(a, others[..i])
    {
      assert others[..i + 1][..i] == others[..i];
      newX := MulI(newX, others[i].x);
      newY := MulI(newY, others[i].y);
      newZ := MulI(newZ, others[i].z);
    }
    assert others[..|others|] == others;
    r := BlockVector3d(newX, newY, newZ);
  }

  /** One axis of a vector or of a triple: 0 is x, 1 is y, any other is z. */
  function Coord(v: BlockVector3d, axis: int): Int32 {
    if axis == 0 then v.x else if axis == 1 then v.y else v.z
  }

  function TCoord(t: Triple, axis: int): int {
    if axis == 0 then t.x else if axis == 1 then t.y else t.z
  }

  lemma CoordAdd(a: BlockVector3d, b: BlockVector3d, axis: int)
    ensures Coord(Add(a, b), axis) == Wrap(Coord(a, axis) + Coord(b, axis))
  {
  }

  lemma CoordSubtract(a: BlockVector3d, b: BlockVector3d, axis: int)
    ensures Coord(Subtract(a, b), axis) == Wrap(Coord(a, axis) - Coord(b, axis))
  {
  }

  /** The varargs add is, along each axis, the start vector plus the exact sum of the others,
      wrapped once; with no arguments it is the start vector. */
  lemma {:induction false} AddFoldAxis(a: BlockVector3d, others: seq<BlockVector3d>, axis: int)
    ensures Coord(AddFold(a, others), axis) == Wrap(Coord(a, axis) + TCoord(Sum(others), axis))
    decreases |others|
  {
    if others != [] {
      var init, last := others[..|others| - 1], others[|others| - 1];
      AddFoldAxis(a, init, axis);
      assert AddFold(a, others) == Add(AddFold(a, init), last);
      CoordAdd(AddFold(a, init), last, axis);
      assert TCoord(Sum(others), axis) == TCoord(Sum(init), axis) + Coord(last, axis);
      WrapAbsorbSum(Coord(a, axis) + TCoord(Sum(init), axis), Coord(last, axis));
    }
  }

  /** The varargs subtract is, along each axis, the start vector minus the exact sum of the
      others, wrapped once. */
  lemma {:induction false} SubtractFoldAxis(a: BlockVector3d, others: seq<BlockVector3d>, axis: int)
    ensures Coord(SubtractFold(a, others), axis) == Wrap(Coord(a, axis) - TCoord(Sum(others), axis))
    decreases |others|
  {
    if others != [] {
      var init, last := others[..|others| - 1], others[|others| - 1];
      SubtractFoldAxis(a, init, axis);
      assert SubtractFold(a, others) == Subtract(SubtractFold(a, init), last);
      CoordSubtract(SubtractFold(a, init), last, axis);
      assert TCoord(Sum(others), axis) == TCoord(Sum(init), axis) + Coord(last, axis);
      WrapAbsorbSum(Coord(a, axis) - TCoord(Sum(init), axis), -(Coord(last, axis) as int));
    }
  }

  lemma {:induction false} MultiplyFoldIsWrappedProduct(a: BlockVector3d, others: seq<BlockVector3d>)
    ensures var t := Product(others);
      MultiplyFold(a, others) == BlockVector3d(Wrap(a.x * t.x), Wrap(a.y * t.y), Wrap(a.z * t.z))
    decreases |others|
  {
    if others != [] {
      var init, last := others[..|others| - 1], others[|others| - 1];
      MultiplyFoldIsWrappedProduct(a, init);
      var t := Product(init);
      WrapAbsorbProduct(a.x * t.x, last.x);
      WrapAbsorbProduct(a.y * t.y, last.y);
      WrapAbsorbProduct(a.z * t.z, last.z);
      Vector2.MulAssociative(a.x, t.x, last.x);
      Vector2.MulAssociative(a.y, t.y, last.y);
      Vector2.MulAssociative(a.z, t.z, last.z);
    }
  }

  // ---------------------------------------------------------------------------------------
  // Algebraic properties.

  /** Adding and then subtracting the same vector gives back the original, wrap-around included. */
  lemma {:induction false} AddSubtractRoundTrip(a: BlockVector3d, b: BlockVector3d)
    ensures Subtract(Add(a, b), b) == a
  {
    WrapAbsorbSum(a.x + b.x, -(b.x as int));
    WrapAbsorbSum(a.y + b.y, -(b.y as int));
    WrapAbsorbSum(a.z + b.z, -(b.z as int));
  }

  /** Both vectors lie in the box spanned by their component-wise minimum and maximum. */
  lemma MinMaxContain(a: BlockVector3d, b: BlockVector3d)
    ensures ContainedWithin(a, GetMinimum(a, b), GetMaximum(a, b))
    ensures ContainedWithin(b, GetMinimum(a, b), GetMaximum(a, b))
  {
  }

  /** A vector crossed with itself is the zero vector, even when the products wrap. */
  lemma CrossSelfIsZero(a: BlockVector3d)
    ensures Cross(a, a) == Zero
  {
    assert a.y * a.z == a.z * a.y && a.z * a.x == a.x * a.z && a.x * a.y == a.y * a.x;
  }

  lemma DotSymmetric(a: BlockVector3d, b: BlockVector3d)
    ensures Dot(a, b) == Dot(b, a)
  {
    assert a.x * b.x == b.x * a.x && a.y * b.y == b.y * a.y && a.z * b.z == b.z * a.z;
  }

  lemma LengthSqIsSelfDot(a: BlockVector3d)
    ensures LengthSq(a) == Dot(a, a)
  {
  }

  lemma {:induction false} DistanceSqSymmetric(a: BlockVector3d, b: BlockVector3d)
    ensures DistanceSq(a, b) == DistanceSq(b, a)
  {
    var sx, sy, sz := MulI(SubI(b.x, a.x), SubI(b.x, a.x)), MulI(SubI(b.y, a.y), SubI(b.y, a.y)),
                      MulI(SubI(b.z, a.z), SubI(b.z, a.z));
    assert sx == MulI(SubI(a.x, b.x), SubI(a.x, b.x)) by { Vector2.SquareOfNegation(b.x, a.x); }
    assert sy == MulI(SubI(a.y, b.y), SubI(a.y, b.y)) by { Vector2.SquareOfNegation(b.y, a.y); }
    assert sz == MulI(SubI(a.z, b.z), SubI(a.z, b.z)) by { Vector2.SquareOfNegation(b.z, a.z); }
  }

  /** Lifting a 2D vector to any height and dropping the height again is the identity. */
  lemma FlatRoundTrip(v: Vector2.BlockVector2d, y: Int32)
    ensures ToBlockVector2d(FromBlockVector2d(v, y)) == v
  {
  }
}
