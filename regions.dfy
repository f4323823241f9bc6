/** What every region shares (`AbstractRegion`): the extent getters computed from the bounding
    box, the four-corner `polygonize`, the chunk sets and the default `shift`. The subclass's
    `getMinimumPoint`, `getMaximumPoint`, `contains`, `expand` and `contract` are parameters. */
module Regions {
  import opened JavaInt
  import opened Wrappers
  import opened Vector3
  import Vector2

  /** The world a region belongs to. Only its identity matters here. */
  datatype World = World(name: string)

  // ---------------------------------------------------------------------------------------
  // Extents

  /** `getWidth`: the blocks along X, `max.x - min.x + 1` in 32-bit arithmetic. */
  function Width(min: BlockVector3d, max: BlockVector3d): (r: Int32)
    ensures r == Wrap(max.x - min.x + 1)
  {
    WrapAbsorbSum(max.x - min.x, 1);
    AddI(SubI(max.x, min.x), 1)
  }

  /** `getHeight`: the blocks along Y. */
  function Height(min: BlockVector3d, max: BlockVector3d): (r: Int32)
    ensures r == Wrap(max.y - min.y + 1)
  {
    WrapAbsorbSum(max.y - min.y, 1);
    AddI(SubI(max.y, min.y), 1)
  }

  /** `getLength`: the blocks along Z. */
  function Length(min: BlockVector3d, max: BlockVector3d): (r: Int32)
    ensures r == Wrap(max.z - min.z + 1)
  {
    WrapAbsorbSum(max.z - min.z, 1);
    AddI(SubI(max.z, min.z), 1)
  }

  /** `getArea`: the three differences plus one, multiplied in 32-bit arithmetic. */
  function Area(min: BlockVector3d, max: BlockVector3d): (r: Int32)
    ensures r == MulI(MulI(Width(min, max), Height(min, max)), Length(min, max))
  {
    var dx := AddI(SubI(max.x, min.x), 1);
    var dy := AddI(SubI(max.y, min.y), 1);
    var dz := AddI(SubI(max.z, min.z), 1);
    MulI(MulI(dx, dy), dz)
  }

  /** Whenever the block count of the box fits in an `int`, the area is that count, and width,
      height and length are the exact extents. */
  lemma {:induction false} AreaIsBlockCount(min: BlockVector3d, max: BlockVector3d)
    requires min.x <= max.x && min.y <= max.y && min.z <= max.z
    requires (max.x - min.x + 1) * (max.y - min.y + 1) * (max.z - min.z + 1) <= MaxInt
    ensures Width(min, max) == max.x - min.x + 1
    ensures Height(min, max) == max.y - min.y + 1
    ensures Length(min, max) == max.z - min.z + 1
    ensures Area(min, max) == (max.x - min.x + 1) * (max.y - min.y + 1) * (max.z - min.z + 1)
  {
    var w, h, l := max.x - min.x + 1, max.y - min.y + 1, max.z - min.z + 1;
    AtMostProduct(w, h, l);
    assert Width(min, max) == w && Height(min, max) == h && Length(min, max) == l;
    WrapAbsorbProduct(w * h, l);
  }

  /** Each factor of a product of positive integers is at most the product. */
  lemma AtMostProduct(a: int, b: int, c: int)
    requires a >= 1 && b >= 1 && c >= 1
    ensures a <= a * b * c && b <= a * b * c && c <= a * b * c && a * b <= a * b * c
  {
    MulAtLeast(a, b);
    MulAtLeast(b, a);
    MulAtLeast(a * b, c);
    assert a * b == b * a;
    MulAtLeast(c, a * b);
    assert c * (a * b) == a * b * c;
  }

  // ---------------------------------------------------------------------------------------
  // polygonize

  /** `polygonize`: the four corners of the box's XZ footprint, going from (minX, minZ) through
      (minX, maxZ) and (maxX, maxZ) to (maxX, minZ). Fewer than four points is refused; a
      negative count means "no limit". */
  function Polygonize(min: BlockVector3d, max: BlockVector3d, maxPoints: Int32)
    : (r: Result<seq<Vector2.BlockVector2d>>)
    ensures r.Throws? <==> 0 <= maxPoints < 4
    ensures r.Throws? ==> r.exception == IllegalArgument
    ensures r.Ok? ==> (
      && |r.value| == 4
      && r.value[0] == Vector2.BlockVector2d(min.x, min.z)
      && r.value[1] == Vector2.BlockVector2d(min.x, max.z)
      && r.value[2] == Vector2.BlockVector2d(max.x, max.z)
      && r.value[3] == Vector2.BlockVector2d(max.x, min.z)
      && SideOf(r.value[0], r.value[1]) && SideOf(r.value[1], r.value[2])
      && SideOf(r.value[2], r.value[3]) && SideOf(r.value[3], r.value[0]))
  {
    if 0 <= maxPoints < 4 then Throws(IllegalArgument)
    else
      Ok([Vector2.BlockVector2d(min.x, min.z), Vector2.BlockVector2d(min.x, max.z),
          Vector2.BlockVector2d(max.x, max.z), Vector2.BlockVector2d(max.x, min.z)])
  }

  /** Two consecutive polygon points lie on a line parallel to an axis. */
  predicate SideOf(a: Vector2.BlockVector2d, b: Vector2.BlockVector2d) {
    a.x == b.x || a.z == b.z
  }

  /** Every column of the box lies inside the polygon's rectangle, and every polygon point is
      a corner of the footprint. */
  lemma PolygonCoversFootprint(min: BlockVector3d, max: BlockVector3d, maxPoints: Int32, p: BlockVector3d)
    requires Polygonize(min, max, maxPoints).Ok?
    ensures var poly := Polygonize(min, max, maxPoints).value;
      (ContainedWithin(p, min, max) ==> Vector2.ContainedWithin(ToBlockVector2d(p), poly[0], poly[2]))
      && forall q :: q in poly ==> (q.x == min.x || q.x == max.x) && (q.z == min.z || q.z == max.z)
  {
  }

  // ---------------------------------------------------------------------------------------
  // Chunks

  function Pow2(n: nat): (r: int)
    ensures r >= 1
  {
    if n == 0 then 1 else 2 * Pow2(n - 1)
  }

  /** Java's `x >> s` on an `int`: the shift count is taken modulo 32 and the result is x divided
      by 2^s, rounded down. */
  function ShiftRight(x: Int32, s: Int32): (r: Int32)
    ensures r * Pow2(s % 32) <= x < (r + 1) * Pow2(s % 32)
  {
    var d := Pow2(s % 32);
    FloorDivInRange(x, d);
    x / d
  }

  lemma FloorDivInRange(x: Int32, d: int)
    requires d >= 1
    ensures MinInt <= x / d <= MaxInt
    ensures (x / d) * d <= x < (x / d + 1) * d
  {
    var q := x / d;
    assert d * q + x % d == x;
    assert (q + 1) * d == q * d + d;
    if x >= 0 {
      QuotientBound(x, d);
    } else {
      // with p = -q: (p - 1) * d >= p - 1 gives p <= -x
      assert q < 0;
      MulAtLeast(-q - 1, d);
      assert (-q - 1) * d == -(q * d) - d;
    }
  }

  /** Rounding down after dividing by a positive number keeps the order. */
  lemma {:induction false} FloorDivMonotone(a: int, b: int, d: int)
    requires a <= b && d >= 1
    ensures a / d <= b / d
  {
    var qa, qb := a / d, b / d;
    assert d * qa + a % d == a && d * qb + b % d == b;
    if qa > qb {
      assert qa >= qb + 1;
      MulAtLeast(1, d);
      assert d * qa >= d * (qb + 1) by {
        assert d * qa - d * (qb + 1) == d * (qa - qb - 1);
        MulNonNegative(d, qa - qb - 1);
      }
    }
  }

  lemma MulNonNegative(a: int, b: int)
    requires a >= 0 && b >= 0
    ensures a * b >= 0
  {
  }

  /** The chunk column holding block column (x, z). */
  function ChunkOf(x: Int32, z: Int32, shifts: Int32): Vector2.BlockVector2d {
    Vector2.BlockVector2d(ShiftRight(x, shifts), ShiftRight(z, shifts))
  }

  /** The chunk cube holding block (x, y, z). */
  function CubeOf(x: Int32, y: Int32, z: Int32, shifts: Int32): BlockVector3d {
    BlockVector3d(ShiftRight(x, shifts), ShiftRight(y, shifts), ShiftRight(z, shifts))
  }

  /** The chunk column holds the block column: each chunk coordinate is the block
      coordinate divided by 2^(shifts mod 32), rounded down. */
  lemma ChunkOfHolds(x: Int32, z: Int32, shifts: Int32)
    ensures var c, d := ChunkOf(x, z, shifts), Pow2(shifts % 32);
      c.x * d <= x < (c.x + 1) * d && c.z * d <= z < (c.z + 1) * d
  {
  }

  /** The chunk cube holds the block, in the same sense. */
  lemma CubeOfHolds(x: Int32, y: Int32, z: Int32, shifts: Int32)
    ensures var c, d := CubeOf(x, y, z, shifts), Pow2(shifts % 32);
      c.x * d <= x < (c.x + 1) * d && c.y * d <= y < (c.y + 1) * d && c.z * d <= z < (c.z + 1) * d
  {
  }

  /** The chunks of the columns x0 <= x < x1, z0 <= z < z1 whose block at height y is in the
      region. */
  ghost function ColumnChunks(x0: int, x1: int, z0: int, z1: int, y: Int32,
                              contains: BlockVector3d -> bool, shifts: Int32): set<Vector2.BlockVector2d>
  {
    set x: Int32, z: Int32 | x0 <= x < x1 && z0 <= z < z1 && contains(BlockVector3d(x, y, z))
      :: ChunkOf(x, z, shifts)
  }

  /** What `getChunks` promises: the chunk of every column in the box whose lowest block is in
      the region, and nothing else. */
  ghost function Chunks(min: BlockVector3d, max: BlockVector3d, contains: BlockVector3d -> bool,
                        shifts: Int32): set<Vector2.BlockVector2d>
  {
    ColumnChunks(min.x, max.x + 1, min.z, max.z + 1, min.y, contains, shifts)
  }

  lemma ColumnChunksNextRow(x0: int, x: Int32, z0: int, z1: int, y: Int32,
                            contains: BlockVector3d -> bool, shifts: Int32)
    requires x0 <= x
    ensures ColumnChunks(x0, x + 1, z0, z1, y, contains, shifts)
      == ColumnChunks(x0, x, z0, z1, y, contains, shifts) + ColumnChunks(x, x + 1, z0, z1, y, contains, shifts)
  {
  }

  lemma ColumnChunksNextColumn(x: Int32, z0: int, z: Int32, y: Int32,
                               contains: BlockVector3d -> bool, shifts: Int32)
    requires z0 <= z
    ensures ColumnChunks(x, x + 1, z0, z + 1, y, contains, shifts)
      == ColumnChunks(x, x + 1, z0, z, y, contains, shifts)
         + (if contains(BlockVector3d(x, y, z)) then {ChunkOf(x, z, shifts)} else {})
  {
    var lhs := ColumnChunks(x, x + 1, z0, z + 1, y, contains, shifts);
    var rhs := ColumnChunks(x, x + 1, z0, z, y, contains, shifts)
         + (if contains(BlockVector3d(x, y, z)) then {ChunkOf(x, z, shifts)} else {});
    forall c | c in rhs
      ensures c in lhs
    {
      if c !in ColumnChunks(x, x + 1, z0, z, y, contains, shifts) {
        assert c == ChunkOf(x, z, shifts) && contains(BlockVector3d(x, y, z));
      }
    }
  }

  /** `++x` on a loop counter of `getChunks` and `getChunkCubes`, which is an `int`. */
  function NextCounter(x: Int32): Int32 {
    AddI(x, 1)
  }

  /** With an upper corner component at `Integer.MAX_VALUE`, the guard `x <= max` holds for
      every `int` counter, also for the value that `++x` wraps to, so the loop as written never
      ends. The methods below count with an unbounded counter instead. */
  lemma EndlessAtMaxValue(x: Int32, bound: Int32)
    requires bound == MaxInt
    ensures x <= bound && NextCounter(x) <= bound
    ensures NextCounter(bound) == MinInt
  {
  }

  /** `getChunks`: every column of the bounding box is visited in X-then-Z order and the chunk
      of each column whose lowest block is in the region is collected. */
  method GetChunks(min: BlockVector3d, max: BlockVector3d, contains: BlockVector3d -> bool, shifts: Int32)
    returns (chunks: set<Vector2.BlockVector2d>)
    ensures chunks == Chunks(min, max, contains, shifts)
  {
    chunks := {};
    var minY := min.y;
    var x: int := min.x;
    while x <= max.x
      invariant min.x <= x && (x <= max.x + 1 || x == min.x)
      invariant chunks == ColumnChunks(min.x, x, min.z, max.z + 1, minY, contains, shifts)
      decreases max.x - x
    {
      ColumnChunksNextRow(min.x, x, min.z, max.z + 1, minY, contains, shifts);
      chunks := CollectStrip(chunks, x, min, max, contains, shifts);
      x := x + 1;
    }
    assert ColumnChunks(min.x, x, min.z, max.z + 1, minY, contains, shifts) == Chunks(min, max, contains, shifts);
  }

  /** The inner loop of `getChunks`: the columns of one X, in Z order. */
  method CollectStrip(chunks: set<Vector2.BlockVector2d>, x: Int32, min: BlockVector3d, max: BlockVector3d,
                      contains: BlockVector3d -> bool, shifts: Int32)
    returns (r: set<Vector2.BlockVector2d>)
    ensures r == chunks + ColumnChunks(x, x + 1, min.z, max.z + 1, min.y, contains, shifts)
  {
    r := chunks;
    var minY := min.y;
    var z: int := min.z;
    while z <= max.z
      invariant min.z <= z && (z <= max.z + 1 || z == min.z)
      invariant r == chunks + ColumnChunks(x, x + 1, min.z, z, minY, contains, shifts)
      decreases max.z - z
    {
      ColumnChunksNextColumn(x, min.z, z, minY, contains, shifts);
      if contains(BlockVector3d(x, minY, z)) {
        r := r + {ChunkOf(x, z, shifts)};
      }
      z := z + 1;
    }
    assert ColumnChunks(x, x + 1, min.z, z, minY, contains, shifts)
        == ColumnChunks(x, x + 1, min.z, max.z + 1, minY, contains, shifts);
  }

  /** Every chunk `getChunks` reports lies between the chunks of the box's two corners, and the
      chunk of every contained column in the box is reported. */
  lemma ChunksWithinCorners(min: BlockVector3d, max: BlockVector3d, contains: BlockVector3d -> bool,
                            shifts: Int32, x: Int32, z: Int32)
    ensures forall c :: c in Chunks(min, max, contains, shifts) ==>
      Vector2.ContainedWithin(c, ChunkOf(min.x, min.z, shifts), ChunkOf(max.x, max.z, shifts))
    ensures min.x <= x <= max.x && min.z <= z <= max.z && contains(BlockVector3d(x, min.y, z)) ==>
      ChunkOf(x, z, shifts) in Chunks(min, max, contains, shifts)
  {
    var d := Pow2(shifts % 32);
    forall c | c in Chunks(min, max, contains, shifts)
      ensures Vector2.ContainedWithin(c, ChunkOf(min.x, min.z, shifts), ChunkOf(max.x, max.z, shifts))
    {
      var x': Int32, z': Int32 :| min.x <= x' <= max.x && min.z <= z' <= max.z
        && contains(BlockVector3d(x', min.y, z')) && c == ChunkOf(x', z', shifts);
      FloorDivMonotone(min.x, x', d);
      FloorDivMonotone(x', max.x, d);
      FloorDivMonotone(min.z, z', d);
      FloorDivMonotone(z', max.z, d);
    }
  }

  /** A chunk is reported exactly when some column of the box, at the box's lowest height, is
      in the region and falls in that chunk. */
  lemma ChunksExactly(min: BlockVector3d, max: BlockVector3d, contains: BlockVector3d -> bool,
                      shifts: Int32, c: Vector2.BlockVector2d)
    ensures c in Chunks(min, max, contains, shifts) <==>
      exists x: Int32, z: Int32 :: min.x <= x <= max.x && min.z <= z <= max.z
        && contains(BlockVector3d(x, min.y, z)) && c == ChunkOf(x, z, shifts)
  {
  }

  /** The chunk cubes of the blocks x0 <= x < x1, y0 <= y < y1, z0 <= z < z1 in the region. */
  ghost function BlockCubes(x0: int, x1: int, y0: int, y1: int, z0: int, z1: int,
                            contains: BlockVector3d -> bool, shifts: Int32): set<BlockVector3d>
  {
    set x: Int32, y: Int32, z: Int32 | x0 <= x < x1 && y0 <= y < y1 && z0 <= z < z1
      && contains(BlockVector3d(x, y, z)) :: CubeOf(x, y, z, shifts)
  }

  /** What `getChunkCubes` promises: the cube of every block of the box that is in the region,
      and nothing else. */
  ghost function ChunkCubes(min: BlockVector3d, max: BlockVector3d, contains: BlockVector3d -> bool,
                            shifts: Int32): set<BlockVector3d>
  {
    BlockCubes(min.x, max.x + 1, min.y, max.y + 1, min.z, max.z + 1, contains, shifts)
  }

  lemma BlockCubesNextX(x0: int, x: Int32, y0: int, y1: int, z0: int, z1: int,
                        contains: BlockVector3d -> bool, shifts: Int32)
    requires x0 <= x
    ensures BlockCubes(x0, x + 1, y0, y1, z0, z1, contains, shifts)
      == BlockCubes(x0, x, y0, y1, z0, z1, contains, shifts) + BlockCubes(x, x + 1, y0, y1, z0, z1, contains, shifts)
  {
  }

  lemma BlockCubesNextY(x: Int32, y0: int, y: Int32, z0: int, z1: int,
                        contains: BlockVector3d -> bool, shifts: Int32)
    requires y0 <= y
    ensures BlockCubes(x, x + 1, y0, y + 1, z0, z1, contains, shifts)
      == BlockCubes(x, x + 1, y0, y, z0, z1, contains, shifts) + BlockCubes(x, x + 1, y, y + 1, z0, z1, contains, shifts)
  {
  }

  lemma BlockCubesNextZ(x: Int32, y: Int32, z0: int, z: Int32, contains: BlockVector3d -> bool, shifts: Int32)
    requires z0 <= z
    ensures BlockCubes(x, x + 1, y, y + 1, z0, z + 1, contains, shifts)
      == BlockCubes(x, x + 1, y, y + 1, z0, z, contains, shifts)
         + (if contains(BlockVector3d(x, y, z)) then {CubeOf(x, y, z, shifts)} else {})
  {
    var lhs := BlockCubes(x, x + 1, y, y + 1, z0, z + 1, contains, shifts);
    var rhs := BlockCubes(x, x + 1, y, y + 1, z0, z, contains, shifts)
         + (if contains(BlockVector3d(x, y, z)) then {CubeOf(x, y, z, shifts)} else {});
    forall c | c in rhs
      ensures c in lhs
    {
      if c !in BlockCubes(x, x + 1, y, y + 1, z0, z, contains, shifts) {
        assert c == CubeOf(x, y, z, shifts) && contains(BlockVector3d(x, y, z));
      }
    }
  }

  /** `getChunkCubes`: every block of the bounding box is visited in X, Y, Z order and the cube
      of each block in the region is collected. */
  method GetChunkCubes(min: BlockVector3d, max: BlockVector3d, contains: BlockVector3d -> bool, shifts: Int32)
    returns (chunks: set<BlockVector3d>)
    ensures chunks == ChunkCubes(min, max, contains, shifts)
  {
    chunks := {};
    var x: int := min.x;
    while x <= max.x
      invariant min.x <= x && (x <= max.x + 1 || x == min.x)
      invariant chunks == BlockCubes(min.x, x, min.y, max.y + 1, min.z, max.z + 1, contains, shifts)
      decreases max.x - x
    {
      BlockCubesNextX(min.x, x, min.y, max.y + 1, min.z, max.z + 1, contains, shifts);
      chunks := CollectSlice(chunks, x, min, max, contains, shifts);
      x := x + 1;
    }
    assert BlockCubes(min.x, x, min.y, max.y + 1, min.z, max.z + 1, contains, shifts)
        == ChunkCubes(min, max, contains, shifts);
  }

  /** The two inner loops of `getChunkCubes`, for one value of x. */
  method CollectSlice(chunks: set<BlockVector3d>, x: Int32, min: BlockVector3d, max: BlockVector3d,
                      contains: BlockVector3d -> bool, shifts: Int32)
    returns (r: set<BlockVector3d>)
    ensures r == chunks + BlockCubes(x, x + 1, min.y, max.y + 1, min.z, max.z + 1, contains, shifts)
  {
    r := chunks;
    var y: int := min.y;
    while y <= max.y
      invariant min.y <= y && (y <= max.y + 1 || y == min.y)
      invariant r == chunks + BlockCubes(x, x + 1, min.y, y, min.z, max.z + 1, contains, shifts)
      decreases max.y - y
    {
      BlockCubesNextY(x, min.y, y, min.z, max.z + 1, contains, shifts);
      r := CollectRow(r, x, y, min, max, contains, shifts);
      y := y + 1;
    }
    assert BlockCubes(x, x + 1, min.y, y, min.z, max.z + 1, contains, shifts)
        == BlockCubes(x, x + 1, min.y, max.y + 1, min.z, max.z + 1, contains, shifts);
  }

  /** The innermost loop of `getChunkCubes`, for one x and one y. */
  method CollectRow(chunks: set<BlockVector3d>, x: Int32, y: Int32, min: BlockVector3d, max: BlockVector3d,
                    contains: BlockVector3d -> bool, shifts: Int32)
    returns (r: set<BlockVector3d>)
    ensures r == chunks + BlockCubes(x, x + 1, y, y + 1, min.z, max.z + 1, contains, shifts)
  {
    r := chunks;
    var z: int := min.z;
    while z <= max.z
      invariant min.z <= z && (z <= max.z + 1 || z == min.z)
      invariant r == chunks + BlockCubes(x, x + 1, y, y + 1, min.z, z, contains, shifts)
      decreases max.z - z
    {
      BlockCubesNextZ(x, y, min.z, z, contains, shifts);
      if contains(BlockVector3d(x, y, z)) {
        r := r + {CubeOf(x, y, z, shifts)};
      }
      z := z + 1;
    }
    assert BlockCubes(x, x + 1, y, y + 1, min.z, z, contains, shifts)
        == BlockCubes(x, x + 1, y, y + 1, min.z, max.z + 1, contains, shifts);
  }

  /** A block of the box that is in the region has its cube reported. */
  lemma CubeOfContainedBlock(min: BlockVector3d, max: BlockVector3d, contains: BlockVector3d -> bool,
                             shifts: Int32, p: BlockVector3d)
    requires ContainedWithin(p, min, max) && contains(p)
    ensures CubeOf(p.x, p.y, p.z, shifts) in ChunkCubes(min, max, contains, shifts)
  {
  }

  /** A cube is reported exactly when some block of the box in the region falls in it. */
  lemma ChunkCubesExactly(min: BlockVector3d, max: BlockVector3d, contains: BlockVector3d -> bool,
                          shifts: Int32, c: BlockVector3d)
    ensures c in ChunkCubes(min, max, contains, shifts) <==>
      exists p: BlockVector3d :: ContainedWithin(p, min, max) && contains(p) && c == CubeOf(p.x, p.y, p.z, shifts)
  {
  }

  // ---------------------------------------------------------------------------------------
  // shift

  /** The default `shift`: `expand(change)` and then, unless it threw, `contract(change)`. The
      region's own expand and contract are given as functions on its state. */
  function DefaultShift<R>(region: R, change: BlockVector3d,
                           expand: (R, seq<BlockVector3d>) -> (R, Outcome),
                           contract: (R, seq<BlockVector3d>) -> (R, Outcome)): (r: (R, Outcome))
    ensures expand(region, [change]).1.Raised? ==> r == expand(region, [change])
    ensures expand(region, [change]).1 == Done ==> r == contract(expand(region, [change]).0, [change])
  {
    var (expanded, outcome) := expand(region, [change]);
    if outcome.Raised? then (expanded, outcome) else contract(expanded, [change])
  }
}
