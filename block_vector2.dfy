/** `BlockVector2d`: an immutable pair of Java `int`s (x, z). Arithmetic wraps at 32 bits. */
module Vector2 {
  import opened JavaInt
  import opened Wrappers

  datatype BlockVector2d = BlockVector2d(x: Int32, z: Int32)

  const Zero := BlockVector2d(0, 0)
  const UnitX := BlockVector2d(1, 0)
  const UnitZ := BlockVector2d(0, 1)
  const One := BlockVector2d(1, 1)

  function WithX(a: BlockVector2d, x: Int32): BlockVector2d { a.(x := x) }
  function WithZ(a: BlockVector2d, z: Int32): BlockVector2d { a.(z := z) }

  function Add(a: BlockVector2d, b: BlockVector2d): BlockVector2d {
    BlockVector2d(AddI(a.x, b.x), AddI(a.z, b.z))
  }

  /** `add`: each component is the true sum, corrected once by 2^32 when it
      overflows. */
  lemma AddWrapsOnce(a: BlockVector2d, b: BlockVector2d)
    ensures Add(a, b) == BlockVector2d(OnceWrapped(a.x + b.x), OnceWrapped(a.z + b.z))
  {
    AddSubWrapOnce(a.x, b.x);
    AddSubWrapOnce(a.z, b.z);
  }

  function Subtract(a: BlockVector2d, b: BlockVector2d): BlockVector2d {
    BlockVector2d(SubI(a.x, b.x), SubI(a.z, b.z))
  }

  /** `subtract`: each component is the true difference, corrected once by 2^32 when it
      overflows. */
  lemma SubtractWrapsOnce(a: BlockVector2d, b: BlockVector2d)
    ensures Subtract(a, b) == BlockVector2d(OnceWrapped(a.x - b.x), OnceWrapped(a.z - b.z))
  {
    AddSubWrapOnce(a.x, b.x);
    AddSubWrapOnce(a.z, b.z);
  }

  /** `multiply`: each component is the true product when it fits, and agrees with it modulo
      2^32 always. */
  function Multiply(a: BlockVector2d, b: BlockVector2d): (r: BlockVector2d)
    ensures MinInt <= a.x * b.x <= MaxInt ==> r.x == a.x * b.x
    ensures MinInt <= a.z * b.z <= MaxInt ==> r.z == a.z * b.z
    ensures Congruent(r.x, a.x * b.x) && Congruent(r.z, a.z * b.z)
  {
    WrapIsCongruent(a.x * b.x);
    WrapIsCongruent(a.z * b.z);
    BlockVector2d(MulI(a.x, b.x), MulI(a.z, b.z))
  }

  /** `multiply(int n)`: both components scaled by n, exactly when the product fits. */
  function Scale(a: BlockVector2d, n: Int32): (r: BlockVector2d)
    ensures MinInt <= a.x * n <= MaxInt ==> r.x == a.x * n
    ensures MinInt <= a.z * n <= MaxInt ==> r.z == a.z * n
    ensures Congruent(r.x, a.x * n) && Congruent(r.z, a.z * n)
  {
    Multiply(a, BlockVector2d(n, n))
  }

  /** `divide`: each component divided with truncation toward zero, so the remainder takes the
      sign of the dividend and is smaller than the divisor; a zero divisor throws. Only
      MinInt / -1 overflows, wrapping back to MinInt. */
  function Divide(a: BlockVector2d, b: BlockVector2d): (r: Result<BlockVector2d>)
    ensures r.Throws? <==> b.x == 0 || b.z == 0
    ensures r.Throws? ==> r.exception == Arithmetic
    ensures r.Ok? && !(a.x == MinInt && b.x == -1) ==> TruncatedQuotient(a.x, b.x, r.value.x)
    ensures r.Ok? && !(a.z == MinInt && b.z == -1) ==> TruncatedQuotient(a.z, b.z, r.value.z)
    ensures r.Ok? && a.x == MinInt && b.x == -1 ==> r.value.x == MinInt
    ensures r.Ok? && a.z == MinInt && b.z == -1 ==> r.value.z == MinInt
  {
    if b.x == 0 || b.z == 0 then Throws(Arithmetic)
    else
      DivIExact(a.x, b.x);
      DivIExact(a.z, b.z);
      Ok(BlockVector2d(DivI(a.x, b.x), DivI(a.z, b.z)))
  }

  function Floor(a: BlockVector2d): (r: BlockVector2d)
    ensures r == a
  {
    a
  }

  function Ceil(a: BlockVector2d): (r: BlockVector2d)
    ensures r == a
  {
    a
  }

  function Round(a: BlockVector2d): (r: BlockVector2d)
    ensures r == a
  {
    a
  }

  /** `lengthSq`: the true squared length reduced to 32 bits, so exact when it fits. */
  function LengthSq(a: BlockVector2d): (r: Int32)
    ensures r == Wrap(a.x * a.x + a.z * a.z)
  {
    WrapSquares(a.x, a.z);
    AddI(MulI(a.x, a.x), MulI(a.z, a.z))
  }

  /** `distanceSq`: the differences, their squares and the sum, all in 32-bit arithmetic. */
  function DistanceSq(a: BlockVector2d, other: BlockVector2d): Int32 {
    var dx := SubI(other.x, a.x);
    var dz := SubI(other.z, a.z);
    AddI(MulI(dx, dx), MulI(dz, dz))
  }

  /** `distanceSq` is the true squared distance reduced to 32 bits, so exact when it fits,
      although the differences are themselves wrapped first. */
  lemma DistanceSqWraps(a: BlockVector2d, other: BlockVector2d)
    ensures DistanceSq(a, other) == Wrap((other.x - a.x) * (other.x - a.x) + (other.z - a.z) * (other.z - a.z))
  {
    WrapSquares(other.x - a.x, other.z - a.z);
  }

  /** `dot`: the true dot product reduced to 32 bits, so exact when it fits. */
  function Dot(a: BlockVector2d, other: BlockVector2d): (r: Int32)
    ensures r == Wrap(a.x * other.x + a.z * other.z)
  {
    WrapSum2(a.x * other.x, a.z * other.z);
    AddI(MulI(a.x, other.x), MulI(a.z, other.z))
  }

  /** `containedWithin`: every component lies between the corners' components. */
  function ContainedWithin(a: BlockVector2d, min: BlockVector2d, max: BlockVector2d): bool
  {
    a.x >= min.x && a.x <= max.x && a.z >= min.z && a.z <= max.z
  }

  /** A vector lies in a box exactly when widening the box by it changes neither corner. */
  lemma ContainedWithinCorners(a: BlockVector2d, min: BlockVector2d, max: BlockVector2d)
    ensures ContainedWithin(a, min, max) <==> GetMinimum(a, min) == min && GetMaximum(a, max) == max
  {
  }

  /** `abs`: every component that is not `Integer.MIN_VALUE` becomes its magnitude. */
  function Abs(a: BlockVector2d): (r: BlockVector2d)
    ensures a.x != MinInt ==> r.x >= 0 && (r.x == a.x || r.x == -a.x)
    ensures a.z != MinInt ==> r.z >= 0 && (r.z == a.z || r.z == -a.z)
    ensures a.x == MinInt ==> r.x == MinInt
    ensures a.z == MinInt ==> r.z == MinInt
  {
    BlockVector2d(AbsI(a.x), AbsI(a.z))
  }

  /** Taking `abs` twice gives the same vector as taking it once. */
  lemma AbsIdempotent(a: BlockVector2d)
    ensures Abs(Abs(a)) == Abs(a)
  {
  }

  function GetMinimum(a: BlockVector2d, b: BlockVector2d): (r: BlockVector2d)
    ensures r.x <= a.x && r.x <= b.x && (r.x == a.x || r.x == b.x)
    ensures r.z <= a.z && r.z <= b.z && (r.z == a.z || r.z == b.z)
  {
    BlockVector2d(Min(a.x, b.x), Min(a.z, b.z))
  }

  function GetMaximum(a: BlockVector2d, b: BlockVector2d): (r: BlockVector2d)
    ensures r.x >= a.x && r.x >= b.x && (r.x == a.x || r.x == b.x)
    ensures r.z >= a.z && r.z >= b.z && (r.z == a.z || r.z == b.z)
  {
    BlockVector2d(Max(a.x, b.x), Max(a.z, b.z))
  }

  /** `equals`: true exactly for the same two components. */
  function Equals(a: BlockVector2d, b: BlockVector2d): (r: bool)
    ensures r <==> a == b
  {
    a.x == b.x && a.z == b.z
  }

  // ---------------------------------------------------------------------------------------
  // The varargs forms: loops over local accumulators, specified by a left fold of the binary
  // operation and by the closed form of that fold.

  function AddFold(a: BlockVector2d, others: seq<BlockVector2d>): BlockVector2d
    decreases |others|
  {
    if others == [] then a else Add(AddFold(a, others[..|others| - 1]), others[|others| - 1])
  }

  function SubtractFold(a: BlockVector2d, others: seq<BlockVector2d>): BlockVector2d
    decreases |others|
  {
    if others == [] then a else Subtract(SubtractFold(a, others[..|others| - 1]), others[|others| - 1])
  }

  function MultiplyFold(a: BlockVector2d, others: seq<BlockVector2d>): BlockVector2d
    decreases |others|
  {
    if others == [] then a else Multiply(MultiplyFold(a, others[..|others| - 1]), others[|others| - 1])
  }

  /** Exact (unwrapped) sums and products of the components of a list of vectors. */
  function SumX(s: seq<BlockVector2d>): int decreases |s| {
    if s == [] then 0 else SumX(s[..|s| - 1]) + s[|s| - 1].x
  }
  function SumZ(s: seq<BlockVector2d>): int decreases |s| {
    if s == [] then 0 else SumZ(s[..|s| - 1]) + s[|s| - 1].z
  }
  function ProductX(s: seq<BlockVector2d>): int decreases |s| {
    if s == [] then 1 else ProductX(s[..|s| - 1]) * s[|s| - 1].x
  }
  function ProductZ(s: seq<BlockVector2d>): int decreases |s| {
    if s == [] then 1 else ProductZ(s[..|s| - 1]) * s[|s| - 1].z
  }

  /** `add(BlockVector2d...)`. */
  method AddAll(a: BlockVector2d, others: seq<BlockVector2d>) returns (r: BlockVector2d)
    ensures r == AddFold(a, others)
  {
    var newX, newZ := a.x, a.z;
    for i := 0 to |others|
      invariant BlockVector2d(newX, newZ) == AddFold(a, others[..i])
    {
      assert others[..i + 1][..i] == others[..i];
      newX := AddI(newX, others[i].x);
      newZ := AddI(newZ, others[i].z);
    }
    assert others[..|others|] == others;
    r := BlockVector2d(newX, newZ);
  }

  /** `subtract(BlockVector2d...)`. */
  method SubtractAll(a: BlockVector2d, others: seq<BlockVector2d>) returns (r: BlockVector2d)
    ensures r == SubtractFold(a, others)
  {
    var newX, newZ := a.x, a.z;
    for i := 0 to |others|
      invariant BlockVector2d(newX, newZ) == SubtractFold(a, others[..i])
    {
      assert others[..i + 1][..i] == others[..i];
      newX := SubI(newX, others[i].x);
      newZ := SubI(newZ, others[i].z);
    }
    assert others[..|others|] == others;
    r := BlockVector2d(newX, newZ);
  }

  /** `multiply(BlockVector2d...)`. */
  method MultiplyAll(a: BlockVector2d, others: seq<BlockVector2d>) returns (r: BlockVector2d)
    ensures r == MultiplyFold(a, others)
  {
    var newX, newZ := a.x, a.z;
    for i := 0 to |others|
      invariant BlockVector2d(newX, newZ) == MultiplyFold(a, others[..i])
    {
      assert others[..i + 1][..i] == others[..i];
      newX := MulI(newX, others[i].x);
      newZ := MulI(newZ, others[i].z);
    }
    assert others[..|others|] == others;
    r := BlockVector2d(newX, newZ);
  }

  /** The varargs add is the start vector plus the exact sum of the others, wrapped once;
      with no arguments it is the start vector. */
  lemma {:induction false} AddFoldIsWrappedSum(a: BlockVector2d, others: seq<BlockVector2d>)
    ensures AddFold(a, others) == BlockVector2d(Wrap(a.x + SumX(others)), Wrap(a.z + SumZ(others)))
    decreases |others|
  {
    if others != [] {
      var init, last := others[..|others| - 1], others[|others| - 1];
      AddFoldIsWrappedSum(a, init);
      WrapAbsorbSum(a.x + SumX(init), last.x);
      WrapAbsorbSum(a.z + SumZ(init), last.z);
    }
  }

  lemma {:induction false} SubtractFoldIsWrappedDifference(a: BlockVector2d, others: seq<BlockVector2d>)
    ensures SubtractFold(a, others) == BlockVector2d(Wrap(a.x - SumX(others)), Wrap(a.z - SumZ(others)))
    decreases |others|
  {
    if others != [] {
      var init, last := others[..|others| - 1], others[|others| - 1];
      SubtractFoldIsWrappedDifference(a, init);
      var dx: int, dz: int := a.x - SumX(init), a.z - SumZ(init);
      WrapAbsorbSum(dx, -(last.x as int));
      WrapAbsorbSum(dz, -(last.z as int));
    }
  }

  lemma {:induction false} MultiplyFoldIsWrappedProduct(a: BlockVector2d, others: seq<BlockVector2d>)
    ensures MultiplyFold(a, others) == BlockVector2d(Wrap(a.x * ProductX(others)), Wrap(a.z * ProductZ(others)))
    decreases |others|
  {
    if others != [] {
      var init, last := others[..|others| - 1], others[|others| - 1];
      MultiplyFoldIsWrappedProduct(a, init);
      var px, pz := ProductX(init), ProductZ(init);
      assert ProductX(others) == px * last.x && ProductZ(others) == pz * last.z;
      WrapAbsorbProduct(a.x * px, last.x);
      WrapAbsorbProduct(a.z * pz, last.z);
      MulAssociative(a.x, px, last.x);
      MulAssociative(a.z, pz, last.z);
    }
  }

  lemma MulAssociative(a: int, b: int, c: int)
    ensures a * b * c == a * (b * c)
  {
  }

  // ---------------------------------------------------------------------------------------
  // Algebraic properties.

  /** Adding and then subtracting the same vector gives back the original, wrap-around included. */
  lemma {:induction false} AddSubtractRoundTrip(a: BlockVector2d, b: BlockVector2d)
    ensures Subtract(Add(a, b), b) == a
  {
    WrapAbsorbSum(a.x + b.x, -(b.x as int));
    WrapAbsorbSum(a.z + b.z, -(b.z as int));
  }

  /** Both vectors lie in the box spanned by their component-wise minimum and maximum. */
  lemma MinMaxContain(a: BlockVector2d, b: BlockVector2d)
    ensures ContainedWithin(a, GetMinimum(a, b), GetMaximum(a, b))
    ensures ContainedWithin(b, GetMinimum(a, b), GetMaximum(a, b))
  {
  }

  lemma DotSymmetric(a: BlockVector2d, b: BlockVector2d)
    ensures Dot(a, b) == Dot(b, a)
  {
    assert a.x * b.x == b.x * a.x && a.z * b.z == b.z * a.z;
  }

  lemma LengthSqIsSelfDot(a: BlockVector2d)
    ensures LengthSq(a) == Dot(a, a)
  {
  }

  /** A wrapped square does not depend on the sign of the wrapped difference. */
  lemma {:induction false} SquareOfNegation(p: int, q: int)
    ensures MulI(Wrap(p - q), Wrap(p - q)) == MulI(Wrap(q - p), Wrap(q - p))
  {
    var d: int, e: int := Wrap(p - q), Wrap(q - p);
    WrapIsCongruent(p - q);
    WrapIsCongruent(q - p);
    CongruentSum(d, p - q, e, q - p);
    CongruentSquare(d, e);
    WrapCongruent(d * d, e * e);
  }

  lemma {:induction false} DistanceSqSymmetric(a: BlockVector2d, b: BlockVector2d)
    ensures DistanceSq(a, b) == DistanceSq(b, a)
  {
    SquareOfNegation(b.x, a.x);
    SquareOfNegation(b.z, a.z);
  }
}
