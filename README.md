# WorldEdit regions: a verified model of the convex polyhedral region and its neighbours

This project models, in Dafny, the core of WorldEdit's region geometry:

- **`BlockVector3d` and `BlockVector2d`** (modules `Vector3` and `Vector2`): integer block
  coordinates with Java's 32-bit `int` arithmetic. `add`, `subtract` and `multiply` wrap around,
  and so do their varargs forms, which are modelled as accumulator loops. `divide` truncates
  toward zero and throws on a zero divisor. The file also covers `clampY`, the component-wise
  minimum and maximum, `dot`, `cross`, `lengthSq`, `distanceSq` and the (y, z, x) comparator.
  Java `int` arithmetic (`JavaInt`) is written out explicitly: `Wrap` maps an integer to its
  two's-complement value.
- **`AbstractRegion`** (module `Regions`): the default extents `getWidth`, `getHeight`,
  `getLength` and `getArea`. Also the default `polygonize`, the default `shift`
  (expand, then contract) and the chunk and chunk-cube enumerations. The loops over the
  bounding box are methods proved to compute a set specified by a comprehension.
- **`ConvexPolyhedralRegion`**, the centre of the model:
  - `Polyhedron` holds points, triangles and edges.
  - `HullSpec` holds the functional specification of the region's state and of `addVertex`,
    `contains`, `containsRaw` and `shift`. `addVertex` is given in two revisions: as written,
    and corrected.
  - `HullLemmas` proves that the corrected `addVertex` keeps the region invariant. The
    invariant says:
    - the bounding box is exactly that of the vertices;
    - the centre accumulator is the wrapped sum of the vertices;
    - vertices and backlog are each duplicate-free;
    - the cached face is a current face or empty.
    `HullLemmas` also proves that the border-edge toggling rebuilds the mesh as described, and
    what `contains` then answers.
  - `HullShift` proves that `shift` keeps the invariant and containment when no coordinate
    wraps.
  - `ConvexPolyhedral` is the class itself. Its fields are updated in place, and each method
    is proved against `HullSpec`.
  - `HullFindings` holds the two defects described under "## Findings".
- **`CylinderRegion`** (module `Cylinder`): the centre and the Y interval with its `hasY`
  flag. This covers `setY`, `setMinimumY`, `setMaximumY`, `getHeight`, the Y parts of
  `expand` and `contract`, `calculateDiff2D`, `shift` and the Y test of `contains`.
- **`NullRegion`** (module `Null`): the empty region, whose every operation returns a constant
  or throws.
- **`Identity`** (module `Transforms`): the identity transform and how it combines.

Exceptions are values: `Outcome` (`Done` or `Raised(kind)`) and `Result` in `Wrappers`. A
method that may throw returns the outcome and leaves the state as the source leaves it.

## Model

| member | source | states |
|---|---|---|
| JavaInt.TruncDiv | worldedit-core/src/main/java/com/sk89q/worldedit/math/BlockVector3d.java:311-335 | the quotient Java's `/` gives: rounded toward zero, unlike Dafny's Euclidean `/` |
| JavaInt.DivIExact | worldedit-core/src/main/java/com/sk89q/worldedit/math/BlockVector3d.java:311-335 | 32-bit division gives the truncated quotient (a remainder with the dividend's sign, smaller than the divisor) for every pair except `Integer.MIN_VALUE / -1`, which wraps to `Integer.MIN_VALUE` |
| JavaInt.AbsI | worldedit-core/src/main/java/com/sk89q/worldedit/math/BlockVector3d.java:483-485 | `Math.abs` on an `int`: the magnitude, except that `Integer.MIN_VALUE` stays itself |
| JavaInt.AddSubWrapOnce | worldedit-core/src/main/java/com/sk89q/worldedit/math/BlockVector3d.java:177-179 | an `int` sum or difference is the true one, corrected by 2^32 once when it overflows (also lines 219-221) |
| Vector2.WithX | worldedit-core/src/main/java/com/sk89q/worldedit/math/BlockVector2d.java:81-83 | definition: x replaced, z kept |
| Vector2.WithZ | worldedit-core/src/main/java/com/sk89q/worldedit/math/BlockVector2d.java:109-111 | definition: z replaced, x kept |
| Vector2.Add | worldedit-core/src/main/java/com/sk89q/worldedit/math/BlockVector2d.java:119-121 | definition: component-wise `int` addition; `AddWrapsOnce` states its value |
| Vector2.AddWrapsOnce | worldedit-core/src/main/java/com/sk89q/worldedit/math/BlockVector2d.java:119-121 | each component is the true sum, corrected by 2^32 once on overflow |
| Vector2.Subtract | worldedit-core/src/main/java/com/sk89q/worldedit/math/BlockVector2d.java:159-161 | definition: component-wise `int` subtraction; `SubtractWrapsOnce` states its value |
| Vector2.SubtractWrapsOnce | worldedit-core/src/main/java/com/sk89q/worldedit/math/BlockVector2d.java:159-161 | each component is the true difference, corrected by 2^32 once on overflow |
| Vector2.Multiply | worldedit-core/src/main/java/com/sk89q/worldedit/math/BlockVector2d.java:199-201 | each component is the true product when it fits, and agrees with it modulo 2^32 always |
| Vector2.Scale | worldedit-core/src/main/java/com/sk89q/worldedit/math/BlockVector2d.java:237-239 | `multiply(n)`: each component times n, exact when it fits, modulo 2^32 always |
| Vector2.Divide | worldedit-core/src/main/java/com/sk89q/worldedit/math/BlockVector2d.java:247-270 | throws `ArithmeticException` exactly when a divisor component is 0; otherwise each component is the truncated quotient, and `Integer.MIN_VALUE / -1` gives `Integer.MIN_VALUE` |
| Vector2.LengthSq | worldedit-core/src/main/java/com/sk89q/worldedit/math/BlockVector2d.java:286-288 | the true squared length reduced to 32 bits |
| Vector2.DistanceSq | worldedit-core/src/main/java/com/sk89q/worldedit/math/BlockVector2d.java:306-310 | definition: wrapped differences, squares and sum; `DistanceSqWraps` states its value |
| Vector2.DistanceSqWraps | worldedit-core/src/main/java/com/sk89q/worldedit/math/BlockVector2d.java:306-310 | the true squared distance reduced to 32 bits |
| Vector2.Dot | worldedit-core/src/main/java/com/sk89q/worldedit/math/BlockVector2d.java:331-333 | the true dot product reduced to 32 bits |
| Vector2.ContainedWithin | worldedit-core/src/main/java/com/sk89q/worldedit/math/BlockVector2d.java:342-344 | definition: each component between the corners' components |
| Vector2.ContainedWithinCorners | worldedit-core/src/main/java/com/sk89q/worldedit/math/BlockVector2d.java:342-344 | a vector is in the box exactly when widening the box by it changes neither corner |
| Vector2.Floor | worldedit-core/src/main/java/com/sk89q/worldedit/math/BlockVector2d.java:352-355 | `floor` returns the vector unchanged |
| Vector2.Ceil | worldedit-core/src/main/java/com/sk89q/worldedit/math/BlockVector2d.java:362-365 | `ceil` returns the vector unchanged |
| Vector2.Round | worldedit-core/src/main/java/com/sk89q/worldedit/math/BlockVector2d.java:374-377 | `round` returns the vector unchanged |
| Vector2.Abs | worldedit-core/src/main/java/com/sk89q/worldedit/math/BlockVector2d.java:385-387 | each component becomes its magnitude, and a component equal to `Integer.MIN_VALUE` stays negative |
| Vector2.AbsIdempotent | worldedit-core/src/main/java/com/sk89q/worldedit/math/BlockVector2d.java:385-387 | `v.abs().abs() == v.abs()` |
| Vector2.GetMinimum | worldedit-core/src/main/java/com/sk89q/worldedit/math/BlockVector2d.java:419-424 | each component is the smaller of the two, and is one of them |
| Vector2.GetMaximum | worldedit-core/src/main/java/com/sk89q/worldedit/math/BlockVector2d.java:432-437 | each component is the larger of the two, and is one of them |
| Vector2.Equals | worldedit-core/src/main/java/com/sk89q/worldedit/math/BlockVector2d.java:482-485 | `equals` holds exactly for equal components |
| Vector2.AddAll | worldedit-core/src/main/java/com/sk89q/worldedit/math/BlockVector2d.java:141-147 | the varargs accumulator loop computes the left fold of `add` over the arguments |
| Vector2.SubtractAll | worldedit-core/src/main/java/com/sk89q/worldedit/math/BlockVector2d.java:182-188 | the varargs loop computes the left fold of `subtract` |
| Vector2.MultiplyAll | worldedit-core/src/main/java/com/sk89q/worldedit/math/BlockVector2d.java:220-226 | the varargs loop computes the left fold of `multiply` |
| Vector2.AddFoldIsWrappedSum | worldedit-core/src/main/java/com/sk89q/worldedit/math/BlockVector2d.java:141-147 | the fold is the 32-bit wrap of the start plus the sum of the arguments; no arguments leave the start unchanged |
| Vector2.SubtractFoldIsWrappedDifference | worldedit-core/src/main/java/com/sk89q/worldedit/math/BlockVector2d.java:182-188 | the fold is the wrap of the start minus the sum of the arguments |
| Vector2.MultiplyFoldIsWrappedProduct | worldedit-core/src/main/java/com/sk89q/worldedit/math/BlockVector2d.java:220-226 | the fold is the wrap of the start times the product of the arguments |
| Vector2.AddSubtractRoundTrip | worldedit-core/src/main/java/com/sk89q/worldedit/math/BlockVector2d.java:130-132 | `v.add(w).subtract(w) == v`, wrap-around included |
| Vector2.MinMaxContain | worldedit-core/src/main/java/com/sk89q/worldedit/math/BlockVector2d.java:342-345 | both vectors lie within their component-wise minimum and maximum |
| Vector2.DotSymmetric | worldedit-core/src/main/java/com/sk89q/worldedit/math/BlockVector2d.java:331-333 | `dot` is symmetric |
| Vector2.LengthSqIsSelfDot | worldedit-core/src/main/java/com/sk89q/worldedit/math/BlockVector2d.java:286-288 | `lengthSq` is the `dot` of the vector with itself |
| Vector2.DistanceSqSymmetric | worldedit-core/src/main/java/com/sk89q/worldedit/math/BlockVector2d.java:306-310 | `distanceSq` is symmetric, wrap-around included |
| Vector3.WithX | worldedit-core/src/main/java/com/sk89q/worldedit/math/BlockVector3d.java:111-113 | definition: x replaced, y and z kept |
| Vector3.WithY | worldedit-core/src/main/java/com/sk89q/worldedit/math/BlockVector3d.java:139-141 | definition: y replaced, x and z kept |
| Vector3.WithZ | worldedit-core/src/main/java/com/sk89q/worldedit/math/BlockVector3d.java:167-169 | definition: z replaced, x and y kept |
| Vector3.Add | worldedit-core/src/main/java/com/sk89q/worldedit/math/BlockVector3d.java:177-179 | definition: component-wise `int` addition; `AddWrapsOnce` states its value |
| Vector3.AddWrapsOnce | worldedit-core/src/main/java/com/sk89q/worldedit/math/BlockVector3d.java:177-179 | each component is the true sum, corrected by 2^32 once on overflow |
| Vector3.Subtract | worldedit-core/src/main/java/com/sk89q/worldedit/math/BlockVector3d.java:219-221 | definition: component-wise `int` subtraction; `SubtractWrapsOnce` states its value |
| Vector3.SubtractWrapsOnce | worldedit-core/src/main/java/com/sk89q/worldedit/math/BlockVector3d.java:219-221 | each component is the true difference, corrected by 2^32 once on overflow |
| Vector3.Multiply | worldedit-core/src/main/java/com/sk89q/worldedit/math/BlockVector3d.java:261-263 | each component is the true product when it fits, and agrees with it modulo 2^32 always |
| Vector3.Scale | worldedit-core/src/main/java/com/sk89q/worldedit/math/BlockVector3d.java:301-303 | `multiply(n)`: each component times n, exact when it fits, modulo 2^32 always |
| Vector3.Divide | worldedit-core/src/main/java/com/sk89q/worldedit/math/BlockVector3d.java:311-313 | throws `ArithmeticException` exactly when a divisor component is 0; otherwise each component is the truncated quotient, and `Integer.MIN_VALUE / -1` gives `Integer.MIN_VALUE` |
| Vector3.LengthSq | worldedit-core/src/main/java/com/sk89q/worldedit/math/BlockVector3d.java:351-353 | the true squared length reduced to 32 bits |
| Vector3.DistanceSq | worldedit-core/src/main/java/com/sk89q/worldedit/math/BlockVector3d.java:371-376 | definition: wrapped differences, squares and sum; `DistanceSqWraps` states its value |
| Vector3.DistanceSqWraps | worldedit-core/src/main/java/com/sk89q/worldedit/math/BlockVector3d.java:371-376 | the true squared distance reduced to 32 bits |
| Vector3.Dot | worldedit-core/src/main/java/com/sk89q/worldedit/math/BlockVector3d.java:398-400 | the `int` dot product widened to `double`: the true dot product reduced to 32 bits |
| Vector3.DotSymmetric | worldedit-core/src/main/java/com/sk89q/worldedit/math/BlockVector3d.java:398-400 | `dot` is symmetric |
| Vector3.LengthSqIsSelfDot | worldedit-core/src/main/java/com/sk89q/worldedit/math/BlockVector3d.java:351-353 | `lengthSq` is the `dot` of the vector with itself (also lines 398-400) |
| Vector3.Cross | worldedit-core/src/main/java/com/sk89q/worldedit/math/BlockVector3d.java:408-414 | each component is the true cross product component reduced to 32 bits |
| Vector3.ContainedWithin | worldedit-core/src/main/java/com/sk89q/worldedit/math/BlockVector3d.java:423-425 | definition: each component between the corners' components |
| Vector3.ContainedWithinCorners | worldedit-core/src/main/java/com/sk89q/worldedit/math/BlockVector3d.java:423-425 | a vector is in the box exactly when widening the box by it changes neither corner |
| Vector3.ClampY | worldedit-core/src/main/java/com/sk89q/worldedit/math/BlockVector3d.java:434-438 | throws when min > max; otherwise x and z are kept, y lands in [min, max], an in-range vector is returned unchanged and an out-of-range y goes to the nearer bound |
| Vector3.Floor | worldedit-core/src/main/java/com/sk89q/worldedit/math/BlockVector3d.java:450-453 | `floor` returns the vector unchanged |
| Vector3.Ceil | worldedit-core/src/main/java/com/sk89q/worldedit/math/BlockVector3d.java:460-463 | `ceil` returns the vector unchanged |
| Vector3.Round | worldedit-core/src/main/java/com/sk89q/worldedit/math/BlockVector3d.java:472-475 | `round` returns the vector unchanged |
| Vector3.Abs | worldedit-core/src/main/java/com/sk89q/worldedit/math/BlockVector3d.java:483-485 | each component becomes its magnitude, and a component equal to `Integer.MIN_VALUE` stays negative |
| Vector3.AbsIdempotent | worldedit-core/src/main/java/com/sk89q/worldedit/math/BlockVector3d.java:483-485 | `v.abs().abs() == v.abs()` |
| Vector3.GetMinimum | worldedit-core/src/main/java/com/sk89q/worldedit/math/BlockVector3d.java:554-560 | each component is the smaller of the two, and is one of them |
| Vector3.GetMaximum | worldedit-core/src/main/java/com/sk89q/worldedit/math/BlockVector3d.java:568-574 | each component is the larger of the two, and is one of them |
| Vector3.ToBlockVector2d | worldedit-core/src/main/java/com/sk89q/worldedit/math/BlockVector3d.java:581-583 | the projection keeps x and z |
| Vector3.FromBlockVector2d | worldedit-core/src/main/java/com/sk89q/worldedit/math/BlockVector2d.java:477-479 | `toBlockVector3d(y)` keeps x and z and sets y |
| Vector3.FlatRoundTrip | worldedit-core/src/main/java/com/sk89q/worldedit/math/BlockVector2d.java:477-479 | `v.toBlockVector3d(y).toBlockVector2d() == v` for every y |
| Vector3.Equals | worldedit-core/src/main/java/com/sk89q/worldedit/math/BlockVector3d.java:590-593 | `equals` holds exactly for equal components |
| Vector3.CompareYzx | worldedit-core/src/main/java/com/sk89q/worldedit/math/BlockVector3d.java:42-59 | the comparator is 0 exactly for equal vectors and negative exactly when the first is smaller by (y, z, x) |
| Vector3.CompareYzxAntisymmetric | worldedit-core/src/main/java/com/sk89q/worldedit/math/BlockVector3d.java:42-49 | swapping the arguments negates the result |
| Vector3.CompareYzxTransitive | worldedit-core/src/main/java/com/sk89q/worldedit/math/BlockVector3d.java:42-49 | the comparator's order is transitive |
| Vector3.AddAll | worldedit-core/src/main/java/com/sk89q/worldedit/math/BlockVector3d.java:200-207 | the varargs accumulator loop computes the left fold of `add` over the arguments |
| Vector3.SubtractAll | worldedit-core/src/main/java/com/sk89q/worldedit/math/BlockVector3d.java:243-250 | the varargs loop computes the left fold of `subtract` |
| Vector3.MultiplyAll | worldedit-core/src/main/java/com/sk89q/worldedit/math/BlockVector3d.java:283-290 | the varargs loop computes the left fold of `multiply` |
| Vector3.AddFoldAxis | worldedit-core/src/main/java/com/sk89q/worldedit/math/BlockVector3d.java:200-207 | on each axis the fold is the wrap of the start plus the sum of the arguments; no arguments leave the start unchanged |
| Vector3.SubtractFoldAxis | worldedit-core/src/main/java/com/sk89q/worldedit/math/BlockVector3d.java:243-250 | on each axis the fold is the wrap of the start minus the sum of the arguments |
| Vector3.MultiplyFoldIsWrappedProduct | worldedit-core/src/main/java/com/sk89q/worldedit/math/BlockVector3d.java:283-290 | the fold is the wrap of the start times the product of the arguments |
| Vector3.AddSubtractRoundTrip | worldedit-core/src/main/java/com/sk89q/worldedit/math/BlockVector3d.java:177-179 | `v.add(w).subtract(w) == v`, wrap-around included (also lines 189-191, 219-221, 232-234) |
| Vector3.MinMaxContain | worldedit-core/src/main/java/com/sk89q/worldedit/math/BlockVector3d.java:423-425 | both vectors lie within their component-wise minimum and maximum (also lines 554-574) |
| Vector3.CrossSelfIsZero | worldedit-core/src/main/java/com/sk89q/worldedit/math/BlockVector3d.java:408-414 | `a.cross(a)` is the zero vector |
| Vector3.DistanceSqSymmetric | worldedit-core/src/main/java/com/sk89q/worldedit/math/BlockVector3d.java:371-376 | `distanceSq` is symmetric, wrap-around included |
| Polyhedron.ToPoint | worldedit-core/src/main/java/com/sk89q/worldedit/math/BlockVector3d.java:585-587 | `toVector3d` keeps the three coordinates exactly |
| Polyhedron.GetEdge | worldedit-core/src/main/java/com/sk89q/worldedit/regions/ConvexPolyhedralRegion.java:183-184 | edge i of a triangle runs from corner i to corner i + 1, wrapping to corner 0 |
| Polyhedron.CreateTriangle | worldedit-core/src/main/java/com/sk89q/worldedit/regions/ConvexPolyhedralRegion.java:194-196 | the triangle on an edge and a point has that edge first and the point as its last corner |
| Polyhedron.SameEdgeIsEquivalence | worldedit-core/src/main/java/com/sk89q/worldedit/regions/ConvexPolyhedralRegion.java:185 | the edge equality used by the border set is an equivalence |
| Polyhedron.Translate | worldedit-core/src/main/java/com/sk89q/worldedit/regions/ConvexPolyhedralRegion.java:249-257 | each corner moves by the offset, so the triangle's edge vectors are kept |
| Polyhedron.AboveTranslate | worldedit-core/src/main/java/com/sk89q/worldedit/regions/ConvexPolyhedralRegion.java:249-257 | a moved triangle is above a moved point exactly when the original is above the original |
| Polyhedron.CornersNotAbove | worldedit-core/src/main/java/com/sk89q/worldedit/regions/ConvexPolyhedralRegion.java:175 | no triangle is above its own corners |
| Polyhedron.Above | worldedit-core/src/main/java/com/sk89q/worldedit/regions/ConvexPolyhedralRegion.java:175 | definition: the point is strictly on the outer side of the face's plane |
| Polyhedron.AboveDegenerate | worldedit-core/src/main/java/com/sk89q/worldedit/regions/ConvexPolyhedralRegion.java:175 | a face with collinear corners sees no point |
| Regions.Width | worldedit-core/src/main/java/com/sk89q/worldedit/regions/AbstractRegion.java:123-128 | `getWidth` is max.x - min.x + 1 in 32-bit arithmetic |
| Regions.Height | worldedit-core/src/main/java/com/sk89q/worldedit/regions/AbstractRegion.java:136-141 | `getHeight` is max.y - min.y + 1 in 32-bit arithmetic |
| Regions.Length | worldedit-core/src/main/java/com/sk89q/worldedit/regions/AbstractRegion.java:149-154 | `getLength` is max.z - min.z + 1 in 32-bit arithmetic |
| Regions.Area | worldedit-core/src/main/java/com/sk89q/worldedit/regions/AbstractRegion.java:108-115 | `getArea` is the 32-bit product of the three extents |
| Regions.AreaIsBlockCount | worldedit-core/src/main/java/com/sk89q/worldedit/regions/AbstractRegion.java:108-154 | for an ordered box whose block count fits in an `int`, the extents are the true side lengths and the area is the number of blocks |
| Regions.Polygonize | worldedit-core/src/main/java/com/sk89q/worldedit/regions/AbstractRegion.java:84-100 | throws for 0 <= n < 4; otherwise exactly the corners (minX, minZ), (minX, maxZ), (maxX, maxZ), (maxX, minZ) in that order |
| Regions.PolygonCoversFootprint | worldedit-core/src/main/java/com/sk89q/worldedit/regions/AbstractRegion.java:84-100 | every corner is on the box's X and Z bounds, and every column of the box lies between corner 0 and corner 2 |
| Regions.ShiftRight | worldedit-core/src/main/java/com/sk89q/worldedit/regions/AbstractRegion.java:177-178 | `x >> s` rounds x / 2^(s mod 32) down |
| Regions.FloorDivInRange | worldedit-core/src/main/java/com/sk89q/worldedit/regions/AbstractRegion.java:177-178 | the rounded-down quotient of an `int` stays an `int` |
| Regions.FloorDivMonotone | worldedit-core/src/main/java/com/sk89q/worldedit/regions/AbstractRegion.java:177-178 | rounding down after division keeps the order, so chunks follow block order |
| Regions.ChunkOf | worldedit-core/src/main/java/com/sk89q/worldedit/regions/AbstractRegion.java:177-178 | definition: both coordinates shifted right by `CHUNK_SHIFTS` |
| Regions.ChunkOfHolds | worldedit-core/src/main/java/com/sk89q/worldedit/regions/AbstractRegion.java:177-178 | each chunk coordinate is the block coordinate over 2^(shifts mod 32), rounded down |
| Regions.Chunks | worldedit-core/src/main/java/com/sk89q/worldedit/regions/AbstractRegion.java:162-184 | definition of what `getChunks` returns: the chunk of every contained column of the box at the lowest height |
| Regions.NextCounter | worldedit-core/src/main/java/com/sk89q/worldedit/regions/AbstractRegion.java:170-171 | definition: `++x` on an `int` loop counter |
| Regions.EndlessAtMaxValue | worldedit-core/src/main/java/com/sk89q/worldedit/regions/AbstractRegion.java:170-171 | with an upper bound of `Integer.MAX_VALUE` the loop guard holds for every counter, also after `++x` wraps (also lines 193-195) |
| Regions.GetChunks | worldedit-core/src/main/java/com/sk89q/worldedit/regions/AbstractRegion.java:162-184 | the nested loop collects exactly the chunks of the box's contained columns at the lowest height |
| Regions.CollectStrip | worldedit-core/src/main/java/com/sk89q/worldedit/regions/AbstractRegion.java:171-180 | the inner loop adds the chunks of the contained columns of one X |
| Regions.ChunksWithinCorners | worldedit-core/src/main/java/com/sk89q/worldedit/regions/AbstractRegion.java:162-184 | every reported chunk lies between the chunks of the two corners, and every contained column's chunk is reported |
| Regions.ChunksExactly | worldedit-core/src/main/java/com/sk89q/worldedit/regions/AbstractRegion.java:162-184 | a chunk is reported exactly when some contained column of the box falls in it |
| Regions.CubeOf | worldedit-core/src/main/java/com/sk89q/worldedit/regions/AbstractRegion.java:199-203 | definition: all three coordinates shifted right by `CHUNK_SHIFTS` |
| Regions.CubeOfHolds | worldedit-core/src/main/java/com/sk89q/worldedit/regions/AbstractRegion.java:199-203 | each cube coordinate is the block coordinate over 2^(shifts mod 32), rounded down |
| Regions.ChunkCubes | worldedit-core/src/main/java/com/sk89q/worldedit/regions/AbstractRegion.java:187-210 | definition of what `getChunkCubes` returns: the cube of every contained block of the box |
| Regions.GetChunkCubes | worldedit-core/src/main/java/com/sk89q/worldedit/regions/AbstractRegion.java:187-210 | the triple loop collects exactly the cubes of the box's contained blocks |
| Regions.CollectSlice | worldedit-core/src/main/java/com/sk89q/worldedit/regions/AbstractRegion.java:194-206 | the middle loop adds the cubes of one X slice |
| Regions.CollectRow | worldedit-core/src/main/java/com/sk89q/worldedit/regions/AbstractRegion.java:195-205 | the inner loop adds the cubes of one row |
| Regions.CubeOfContainedBlock | worldedit-core/src/main/java/com/sk89q/worldedit/regions/AbstractRegion.java:187-210 | the cube of every contained block of the box is reported |
| Regions.ChunkCubesExactly | worldedit-core/src/main/java/com/sk89q/worldedit/regions/AbstractRegion.java:187-210 | a cube is reported exactly when some contained block of the box falls in it |
| Regions.DefaultShift | worldedit-core/src/main/java/com/sk89q/worldedit/regions/AbstractRegion.java:69-72 | definition: `shift(c)` is `expand(c)` and then, unless that threw, `contract(c)`; `Null.ShiftIsDefault` compares an override with it |
| HullSpec.Erase | worldedit-core/src/main/java/com/sk89q/worldedit/regions/ConvexPolyhedralRegion.java:200 | removing an element from an insertion-ordered set keeps every other element and drops it |
| HullSpec.Insert | worldedit-core/src/main/java/com/sk89q/worldedit/regions/ConvexPolyhedralRegion.java:141 | definition: `LinkedHashSet.add`; `InsertMembers` states its effect (also lines 210) |
| HullSpec.Scan | worldedit-core/src/main/java/com/sk89q/worldedit/regions/ConvexPolyhedralRegion.java:301-312 | the loop over the faces either finds none above the point, skipping the cached one, or stops at a face above it and caches that face |
| HullSpec.ContainsRaw | worldedit-core/src/main/java/com/sk89q/worldedit/regions/ConvexPolyhedralRegion.java:296-313 | a false answer caches a face the point is above; with an empty cache or a current face as cache, true exactly when no face is above the point |
| HullSpec.Contains | worldedit-core/src/main/java/com/sk89q/worldedit/regions/ConvexPolyhedralRegion.java:274-294 | false with no faces or outside the box, cache untouched; otherwise the answer of `containsRaw` |
| HullSpec.Accept | worldedit-core/src/main/java/com/sk89q/worldedit/regions/ConvexPolyhedralRegion.java:141-150 | recording a vertex gives a box that is set on both corners |
| HullSpec.Bootstrap | worldedit-core/src/main/java/com/sk89q/worldedit/regions/ConvexPolyhedralRegion.java:160-166 | definition: the faces (v0,v1,v2) and (v0,v2,v1) appended; `BootstrapOpposite` states their geometry |
| HullSpec.Kept | worldedit-core/src/main/java/com/sk89q/worldedit/regions/ConvexPolyhedralRegion.java:171-181 | the faces not removed are exactly those the vertex is not above, in order |
| HullSpec.RemovedEdges | worldedit-core/src/main/java/com/sk89q/worldedit/regions/ConvexPolyhedralRegion.java:171-190 | definition: the three edges of each face the vertex sees, in visiting order |
| HullSpec.ToggleEdges | worldedit-core/src/main/java/com/sk89q/worldedit/regions/ConvexPolyhedralRegion.java:183-190 | definition: the first k edges of a face toggled into the border; `ToggleTriangleParity` states the parity |
| HullSpec.Border | worldedit-core/src/main/java/com/sk89q/worldedit/regions/ConvexPolyhedralRegion.java:169-191 | definition: the border after the removal loop; `BorderOddCount` states what it holds |
| HullSpec.Fan | worldedit-core/src/main/java/com/sk89q/worldedit/regions/ConvexPolyhedralRegion.java:194-196 | one new face per border edge, built on that edge and the vertex |
| HullSpec.Reshape | worldedit-core/src/main/java/com/sk89q/worldedit/regions/ConvexPolyhedralRegion.java:169-196 | definition: kept faces followed by the fan; `MeshAfterReshape` and `NewVertexContained` state the result |
| HullSpec.AddVertex | worldedit-core/src/main/java/com/sk89q/worldedit/regions/ConvexPolyhedralRegion.java:122-214 | `addVertex` in both revisions; the backlog grows by at most one |
| HullSpec.Replay | worldedit-core/src/main/java/com/sk89q/worldedit/regions/ConvexPolyhedralRegion.java:205-207 | replaying a snapshot of the backlog never leaves a longer backlog than the snapshot |
| HullSpec.Finish | worldedit-core/src/main/java/com/sk89q/worldedit/regions/ConvexPolyhedralRegion.java:125 | definition: the corrected revision ends with an empty cache, the one as written keeps it; `AddClearsCache` states the consequence (also lines 213) |
| HullSpec.Moved | worldedit-core/src/main/java/com/sk89q/worldedit/regions/ConvexPolyhedralRegion.java:265-271 | each element moved by the offset, order and count kept |
| HullSpec.ShiftSet | worldedit-core/src/main/java/com/sk89q/worldedit/regions/ConvexPolyhedralRegion.java:265-271 | definition: the moved elements re-added one by one; `ShiftSetIsMoved` states the result |
| HullSpec.ShiftTriangles | worldedit-core/src/main/java/com/sk89q/worldedit/regions/ConvexPolyhedralRegion.java:249-257 | each face translated, order and count kept |
| HullSpec.Size | worldedit-core/src/main/java/com/sk89q/worldedit/regions/ConvexPolyhedralRegion.java:261 | `Collection.size()`: the length, capped at `Integer.MAX_VALUE` |
| HullSpec.Shift | worldedit-core/src/main/java/com/sk89q/worldedit/regions/ConvexPolyhedralRegion.java:244-263 | collections and faces move first; the outcome is a null dereference exactly when a box corner is missing (the corner effects are in `HullShift.ShiftMovesCorners`) |
| HullSpec.MoveCorners | worldedit-core/src/main/java/com/sk89q/worldedit/regions/ConvexPolyhedralRegion.java:259-262 | the collections are left alone; with both corners present, each corner moves by the offset, the accumulator gains offset × vertex count and the cache is cleared; a missing minimum throws with nothing changed; a missing maximum throws after only the minimum has moved |
| HullLemmas.ToggleParity | worldedit-core/src/main/java/com/sk89q/worldedit/regions/ConvexPolyhedralRegion.java:183-190 | toggling one edge flips the parity of the count of every equal edge and keeps the others |
| HullLemmas.ToggleTriangleParity | worldedit-core/src/main/java/com/sk89q/worldedit/regions/ConvexPolyhedralRegion.java:183-190 | toggling a face's three edges adds their matches to each edge's parity |
| HullLemmas.RemovedEdgesCount | worldedit-core/src/main/java/com/sk89q/worldedit/regions/ConvexPolyhedralRegion.java:171-190 | three edges are visited per face the vertex sees |
| HullLemmas.BorderOddCount | worldedit-core/src/main/java/com/sk89q/worldedit/regions/ConvexPolyhedralRegion.java:170-191 | the border holds an edge exactly as often as the parity of its count among the removed faces' edges |
| HullLemmas.MeshAfterReshape | worldedit-core/src/main/java/com/sk89q/worldedit/regions/ConvexPolyhedralRegion.java:169-196 | every face not above the vertex survives; every face after is such a face or the new fan on a border edge; one new face per border edge |
| HullLemmas.InteriorKeepsAll | worldedit-core/src/main/java/com/sk89q/worldedit/regions/ConvexPolyhedralRegion.java:171-191 | a vertex above no face removes nothing and leaves no border |
| HullLemmas.ReshapeInterior | worldedit-core/src/main/java/com/sk89q/worldedit/regions/ConvexPolyhedralRegion.java:169-196 | the mesh is unchanged by a vertex above no face |
| HullLemmas.KeptBorderAppend | worldedit-core/src/main/java/com/sk89q/worldedit/regions/ConvexPolyhedralRegion.java:171-191 | one more visited face is kept or has its edges toggled |
| HullLemmas.BoxExtend | worldedit-core/src/main/java/com/sk89q/worldedit/regions/ConvexPolyhedralRegion.java:145-150 | the new corners are the component-wise min and max of the old box and the vertex |
| HullLemmas.AccAppend | worldedit-core/src/main/java/com/sk89q/worldedit/regions/ConvexPolyhedralRegion.java:143 | adding a vertex to the accumulator keeps it equal to the wrapped vertex sum |
| HullLemmas.InvIsKeeps | worldedit-core/src/main/java/com/sk89q/worldedit/regions/ConvexPolyhedralRegion.java:136-150 | the replay invariant with nothing set aside is the region invariant |
| HullLemmas.AddFootprint | worldedit-core/src/main/java/com/sk89q/worldedit/regions/ConvexPolyhedralRegion.java:122-214 | a call adds only the new vertex: everything after was there before or is that vertex |
| HullLemmas.ReplayFootprint | worldedit-core/src/main/java/com/sk89q/worldedit/regions/ConvexPolyhedralRegion.java:205-207 | replaying adds only the backlog vertices |
| HullLemmas.AcceptKeeps | worldedit-core/src/main/java/com/sk89q/worldedit/regions/ConvexPolyhedralRegion.java:141-150 | recording a new vertex keeps the box exact and the accumulator equal to the sum |
| HullLemmas.AddKeeps | worldedit-core/src/main/java/com/sk89q/worldedit/regions/ConvexPolyhedralRegion.java:122-214 | the corrected `addVertex` keeps the invariant, also in the middle of a replay |
| HullLemmas.AcceptBranchKeeps | worldedit-core/src/main/java/com/sk89q/worldedit/regions/ConvexPolyhedralRegion.java:141-214 | the accepting branch keeps the invariant |
| HullLemmas.ReplayBranchKeeps | worldedit-core/src/main/java/com/sk89q/worldedit/regions/ConvexPolyhedralRegion.java:198-211 | taking the vertex out, replaying the backlog and putting it back keeps the invariant |
| HullLemmas.TakeOut | worldedit-core/src/main/java/com/sk89q/worldedit/regions/ConvexPolyhedralRegion.java:200 | while the vertex is out, the box and the sum still count it |
| HullLemmas.PutBack | worldedit-core/src/main/java/com/sk89q/worldedit/regions/ConvexPolyhedralRegion.java:210 | putting the vertex back restores the invariant |
| HullLemmas.ReplayKeeps | worldedit-core/src/main/java/com/sk89q/worldedit/regions/ConvexPolyhedralRegion.java:205-207 | every replayed call keeps the invariant |
| HullLemmas.AddClearsCache | worldedit-core/src/main/java/com/sk89q/worldedit/regions/ConvexPolyhedralRegion.java:125 | the corrected `addVertex` always ends with an empty cache |
| HullLemmas.AddPreservesInv | worldedit-core/src/main/java/com/sk89q/worldedit/regions/ConvexPolyhedralRegion.java:122-214 | the exact box, the accumulator equal to the vertex sum, duplicate-free sets and a current-or-empty cache survive every call |
| HullLemmas.AddDuplicate | worldedit-core/src/main/java/com/sk89q/worldedit/regions/ConvexPolyhedralRegion.java:125-134 | a known vertex, or a backlogged one when the set has three, returns false and changes nothing but the cache |
| HullLemmas.AddChangedIff | worldedit-core/src/main/java/com/sk89q/worldedit/regions/ConvexPolyhedralRegion.java:122-214 | the corrected `addVertex` returns true exactly for a vertex in neither set |
| HullLemmas.AddFirstVertices | worldedit-core/src/main/java/com/sk89q/worldedit/regions/ConvexPolyhedralRegion.java:153-158 | the first and second vertex are recorded and return true; no face is made |
| HullLemmas.AddBootstrap | worldedit-core/src/main/java/com/sk89q/worldedit/regions/ConvexPolyhedralRegion.java:160-166 | the third vertex makes exactly the faces (v0,v1,v2) and (v0,v2,v1), so the region is defined |
| HullLemmas.BootstrapOpposite | worldedit-core/src/main/java/com/sk89q/worldedit/regions/ConvexPolyhedralRegion.java:160-166 | the two starting faces share their corners and have opposite normals, so no point is above both |
| HullLemmas.AddBacklogs | worldedit-core/src/main/java/com/sk89q/worldedit/regions/ConvexPolyhedralRegion.java:131-138 | a fourth point inside the flat pair goes to the backlog and touches neither box, accumulator nor mesh |
| HullLemmas.AddReshapes | worldedit-core/src/main/java/com/sk89q/worldedit/regions/ConvexPolyhedralRegion.java:169-196 | with an empty backlog the new mesh is the kept faces followed by the fan on the border |
| HullLemmas.NewVertexLast | worldedit-core/src/main/java/com/sk89q/worldedit/regions/ConvexPolyhedralRegion.java:198-211 | an accepted vertex ends up last in insertion order and not in the backlog |
| HullLemmas.AddReported | worldedit-core/src/main/java/com/sk89q/worldedit/regions/ConvexPolyhedralRegion.java:122-214 | after the call the vertex is among the vertices or the backlog |
| HullLemmas.ContainsExact | worldedit-core/src/main/java/com/sk89q/worldedit/regions/ConvexPolyhedralRegion.java:274-313 | under the invariant, `contains` is true exactly for points in the box that no face is above, and the cache stays a current face |
| HullLemmas.NewVertexContained | worldedit-core/src/main/java/com/sk89q/worldedit/regions/ConvexPolyhedralRegion.java:169-196 | with an empty backlog, once faces exist the new vertex is contained in the rebuilt region |
| HullLemmas.InsertMembers | worldedit-core/src/main/java/com/sk89q/worldedit/regions/ConvexPolyhedralRegion.java:141 | `add` puts the element in, adds nothing else, keeps the old order in front and keeps the set duplicate-free (also lines 210) |
| HullShift.AddInjective | worldedit-core/src/main/java/com/sk89q/worldedit/math/BlockVector3d.java:177-179 | adding the same offset never maps two vectors to one, wrap-around included |
| HullShift.ShiftSetIsMoved | worldedit-core/src/main/java/com/sk89q/worldedit/regions/ConvexPolyhedralRegion.java:265-271 | clearing and re-adding moved elements keeps order and count |
| HullShift.SumMovedAxis | worldedit-core/src/main/java/com/sk89q/worldedit/regions/ConvexPolyhedralRegion.java:261 | the sum of the moved vertices is the old sum plus the offset once per vertex, modulo 2^32 |
| HullShift.AccShift | worldedit-core/src/main/java/com/sk89q/worldedit/regions/ConvexPolyhedralRegion.java:261 | the new accumulator is the wrapped sum of the moved vertices |
| HullShift.BoxShift | worldedit-core/src/main/java/com/sk89q/worldedit/regions/ConvexPolyhedralRegion.java:259-260 | without wrap-around the moved corners are exactly the min and max of the moved vertices |
| HullShift.ShiftEmpty | worldedit-core/src/main/java/com/sk89q/worldedit/regions/ConvexPolyhedralRegion.java:244-260 | shifting an empty region dereferences the missing corner and leaves it empty |
| HullShift.ShiftMovesCorners | worldedit-core/src/main/java/com/sk89q/worldedit/regions/ConvexPolyhedralRegion.java:259-262 | after `shift`, a present minimum has moved by the offset; on success the maximum has too, the accumulator has gained offset × the moved vertex count and the cache is cleared; on the null dereference the maximum, accumulator and cache are unchanged |
| HullShift.ShiftPreservesInv | worldedit-core/src/main/java/com/sk89q/worldedit/regions/ConvexPolyhedralRegion.java:244-263 | without wrap-around `shift` keeps the invariant, moves every vertex and keeps the face count |
| HullShift.AboveShifted | worldedit-core/src/main/java/com/sk89q/worldedit/regions/ConvexPolyhedralRegion.java:249-257 | no moved face is above the moved point exactly when no face was above the point |
| HullShift.ShiftContains | worldedit-core/src/main/java/com/sk89q/worldedit/regions/ConvexPolyhedralRegion.java:244-313 | without wrap-around a point is contained after the shift exactly when it was contained before it |
| HullFindings.StaleCache | worldedit-core/src/main/java/com/sk89q/worldedit/regions/ConvexPolyhedralRegion.java:125-139 | as written, the fourth vertex can leave a removed face cached, breaking the invariant, and `contains` then answers false for that vertex (also lines 170-196) |
| HullFindings.FreshCache | worldedit-core/src/main/java/com/sk89q/worldedit/regions/ConvexPolyhedralRegion.java:125 | the corrected revision clears the cache, keeps the same mesh and contains the vertex (also lines 213) |
| HullFindings.BacklogTwice | worldedit-core/src/main/java/com/sk89q/worldedit/regions/ConvexPolyhedralRegion.java:131-134 | as written, a backlogged vertex added again at size four or more is accepted twice, so the accumulator counts it twice (also lines 198-211) |
| HullFindings.BacklogOnce | worldedit-core/src/main/java/com/sk89q/worldedit/regions/ConvexPolyhedralRegion.java:131-134 | the corrected revision refuses a backlogged vertex at every size |
| ConvexPolyhedral.ShiftCollection | worldedit-core/src/main/java/com/sk89q/worldedit/regions/ConvexPolyhedralRegion.java:265-271 | the clear-and-refill loop re-adds each moved element |
| ConvexPolyhedral.ToggleBorder | worldedit-core/src/main/java/com/sk89q/worldedit/regions/ConvexPolyhedralRegion.java:183-190 | the edge loop removes an edge that is present and adds one that is not |
| ConvexPolyhedral.RemovalStep | worldedit-core/src/main/java/com/sk89q/worldedit/regions/ConvexPolyhedralRegion.java:171-181 | one visit of the iterator loop removes the current face or keeps it in order |
| ConvexPolyhedral.BorderStep | worldedit-core/src/main/java/com/sk89q/worldedit/regions/ConvexPolyhedralRegion.java:175-190 | one visit toggles the edges of a removed face and leaves the border alone otherwise |
| ConvexPolyhedral.AcceptSmall | worldedit-core/src/main/java/com/sk89q/worldedit/regions/ConvexPolyhedralRegion.java:153-166 | the first three vertices return true; the third lays the two opening faces |
| ConvexPolyhedral.ConvexPolyhedralRegion.constructor | worldedit-core/src/main/java/com/sk89q/worldedit/regions/ConvexPolyhedralRegion.java:81-83 | a new region is empty, satisfies the invariant and keeps its world |
| ConvexPolyhedral.ConvexPolyhedralRegion.Copy | worldedit-core/src/main/java/com/sk89q/worldedit/regions/ConvexPolyhedralRegion.java:90-100 | the copy constructor, which `clone` calls (lines 331-333): the copy has the same fields and world |
| ConvexPolyhedral.ConvexPolyhedralRegion.SetWorld | worldedit-core/src/main/java/com/sk89q/worldedit/regions/AbstractRegion.java:64-66 | only the world changes |
| ConvexPolyhedral.ConvexPolyhedralRegion.Clear | worldedit-core/src/main/java/com/sk89q/worldedit/regions/ConvexPolyhedralRegion.java:105-114 | `clear` restores the empty state, which satisfies the invariant |
| ConvexPolyhedral.ConvexPolyhedralRegion.IsDefined | worldedit-core/src/main/java/com/sk89q/worldedit/regions/ConvexPolyhedralRegion.java:216-218 | defined exactly when some face exists |
| ConvexPolyhedral.ConvexPolyhedralRegion.GetVertices | worldedit-core/src/main/java/com/sk89q/worldedit/regions/ConvexPolyhedralRegion.java:315-324 | the accepted vertices followed by the backlog |
| ConvexPolyhedral.ConvexPolyhedralRegion.Expand | worldedit-core/src/main/java/com/sk89q/worldedit/regions/ConvexPolyhedralRegion.java:236-237 | `expand` does nothing |
| ConvexPolyhedral.ConvexPolyhedralRegion.Contract | worldedit-core/src/main/java/com/sk89q/worldedit/regions/ConvexPolyhedralRegion.java:240-241 | `contract` does nothing |
| ConvexPolyhedral.ConvexPolyhedralRegion.ContainsRaw | worldedit-core/src/main/java/com/sk89q/worldedit/regions/ConvexPolyhedralRegion.java:296-313 | answer and cache are those of the specification; nothing else changes |
| ConvexPolyhedral.ConvexPolyhedralRegion.Contains | worldedit-core/src/main/java/com/sk89q/worldedit/regions/ConvexPolyhedralRegion.java:274-294 | answer and cache are those of the specification; nothing else changes |
| ConvexPolyhedral.ConvexPolyhedralRegion.RemoveVisible | worldedit-core/src/main/java/com/sk89q/worldedit/regions/ConvexPolyhedralRegion.java:170-191 | the faces the vertex is above are removed in place, the rest keep their order, and the border is returned |
| ConvexPolyhedral.ConvexPolyhedralRegion.RemovalVisit | worldedit-core/src/main/java/com/sk89q/worldedit/regions/ConvexPolyhedralRegion.java:171-191 | one visit of the iterator-remove loop |
| ConvexPolyhedral.ConvexPolyhedralRegion.AddFan | worldedit-core/src/main/java/com/sk89q/worldedit/regions/ConvexPolyhedralRegion.java:194-196 | one face per border edge is appended, in order |
| ConvexPolyhedral.ConvexPolyhedralRegion.AddVertex | worldedit-core/src/main/java/com/sk89q/worldedit/regions/ConvexPolyhedralRegion.java:122-214 | the new state and result are those of the corrected `addVertex`, and the invariant is kept |
| ConvexPolyhedral.ConvexPolyhedralRegion.AcceptVertex | worldedit-core/src/main/java/com/sk89q/worldedit/regions/ConvexPolyhedralRegion.java:141-214 | the accepting part of `addVertex` |
| ConvexPolyhedral.ConvexPolyhedralRegion.Rebuild | worldedit-core/src/main/java/com/sk89q/worldedit/regions/ConvexPolyhedralRegion.java:169-214 | the rebuild and replay part of `addVertex` |
| ConvexPolyhedral.ConvexPolyhedralRegion.ReplayBacklog | worldedit-core/src/main/java/com/sk89q/worldedit/regions/ConvexPolyhedralRegion.java:203-207 | the backlog snapshot is replayed in order through recursive `addVertex` calls |
| ConvexPolyhedral.ConvexPolyhedralRegion.TranslateTriangles | worldedit-core/src/main/java/com/sk89q/worldedit/regions/ConvexPolyhedralRegion.java:249-257 | every face is replaced in place by its translate |
| ConvexPolyhedral.ConvexPolyhedralRegion.MoveCorners | worldedit-core/src/main/java/com/sk89q/worldedit/regions/ConvexPolyhedralRegion.java:259-262 | corners, accumulator and cache are updated as the specification says |
| ConvexPolyhedral.ConvexPolyhedralRegion.Shift | worldedit-core/src/main/java/com/sk89q/worldedit/regions/ConvexPolyhedralRegion.java:244-263 | the new state is that of the specification, and without wrap-around the invariant is kept |
| Cylinder.SetY | worldedit-core/src/main/java/com/sk89q/worldedit/regions/CylinderRegion.java:300-315 | without Y: min = max = y, true; with Y: true exactly when y is outside, widening the range to include y; false changes nothing |
| Cylinder.SetYContains | worldedit-core/src/main/java/com/sk89q/worldedit/regions/CylinderRegion.java:300-315 | afterwards y is in range, and a second `setY(y)` returns false and changes nothing |
| Cylinder.ExpandY | worldedit-core/src/main/java/com/sk89q/worldedit/regions/CylinderRegion.java:239-246 | definition: the Y loop of `expand` over the changes in order |
| Cylinder.ExpandYWraps | worldedit-core/src/main/java/com/sk89q/worldedit/regions/CylinderRegion.java:239-246 | maxY moves up by the positive changes and minY down by the others, each end wrapping like an `int` |
| Cylinder.ExpandYGrows | worldedit-core/src/main/java/com/sk89q/worldedit/regions/CylinderRegion.java:239-246 | without overflow, positive changes raise maxY, others lower minY, and the range only widens |
| Cylinder.ContractY | worldedit-core/src/main/java/com/sk89q/worldedit/regions/CylinderRegion.java:260-268 | definition: the Y loop of `contract` over the changes in order |
| Cylinder.ContractYShrinks | worldedit-core/src/main/java/com/sk89q/worldedit/regions/CylinderRegion.java:260-268 | each change moves an end by at most the height, so an ordered range stays ordered and only narrows |
| Cylinder.Flatten | worldedit-core/src/main/java/com/sk89q/worldedit/regions/CylinderRegion.java:208-210 | each change is projected to (x, z) |
| Cylinder.Diff2D | worldedit-core/src/main/java/com/sk89q/worldedit/regions/CylinderRegion.java:206-217 | throws exactly when the summed x or z is odd; otherwise half of each sum |
| Cylinder.Diff2DSum | worldedit-core/src/main/java/com/sk89q/worldedit/regions/CylinderRegion.java:207-210 | the summing loop gives the wrapped sums of x and of z |
| Cylinder.CalculateDiff2D | worldedit-core/src/main/java/com/sk89q/worldedit/regions/CylinderRegion.java:206-217 | the loop computes the specified result |
| Cylinder.CylinderRegion.constructor | worldedit-core/src/main/java/com/sk89q/worldedit/regions/CylinderRegion.java:60-63 | a region at the origin without Y |
| Cylinder.CylinderRegion.Bounded | worldedit-core/src/main/java/com/sk89q/worldedit/regions/CylinderRegion.java:74-81 | the centre column and the given range, Y set |
| Cylinder.CylinderRegion.Copy | worldedit-core/src/main/java/com/sk89q/worldedit/regions/CylinderRegion.java:100-103 | same world, centre, range and flag |
| Cylinder.CylinderRegion.SetWorld | worldedit-core/src/main/java/com/sk89q/worldedit/regions/AbstractRegion.java:64-66 | only the world changes |
| Cylinder.CylinderRegion.SetCenter | worldedit-core/src/main/java/com/sk89q/worldedit/regions/CylinderRegion.java:115-117 | only the centre changes |
| Cylinder.CylinderRegion.SetMinimumY | worldedit-core/src/main/java/com/sk89q/worldedit/regions/CylinderRegion.java:151-154 | sets minY and the flag |
| Cylinder.CylinderRegion.SetMaximumY | worldedit-core/src/main/java/com/sk89q/worldedit/regions/CylinderRegion.java:161-164 | sets maxY and the flag |
| Cylinder.CylinderRegion.GetHeight | worldedit-core/src/main/java/com/sk89q/worldedit/regions/CylinderRegion.java:197-199 | maxY - minY + 1 in 32-bit arithmetic; the true height when it fits |
| Cylinder.CylinderRegion.SetYTo | worldedit-core/src/main/java/com/sk89q/worldedit/regions/CylinderRegion.java:300-315 | the fields and result follow `SetY` |
| Cylinder.CylinderRegion.Shift | worldedit-core/src/main/java/com/sk89q/worldedit/regions/CylinderRegion.java:272-278 | the centre moves by (x, z), both ends by y, and the height is kept |
| Cylinder.CylinderRegion.Expand | worldedit-core/src/main/java/com/sk89q/worldedit/regions/CylinderRegion.java:236-247 | an odd sum throws and changes nothing; otherwise the centre moves by the half-sum and the Y loop runs |
| Cylinder.CylinderRegion.ExpandYLoop | worldedit-core/src/main/java/com/sk89q/worldedit/regions/CylinderRegion.java:239-246 | the Y loop of `expand` |
| Cylinder.CylinderRegion.Contract | worldedit-core/src/main/java/com/sk89q/worldedit/regions/CylinderRegion.java:256-269 | an odd sum throws and changes nothing; otherwise the centre moves back by the half-sum and the Y loop runs |
| Cylinder.CylinderRegion.ContractYLoop | worldedit-core/src/main/java/com/sk89q/worldedit/regions/CylinderRegion.java:260-268 | the Y loop of `contract` |
| Cylinder.CylinderRegion.ContractOnce | worldedit-core/src/main/java/com/sk89q/worldedit/regions/CylinderRegion.java:261-267 | one turn: the bottom rises or the top falls by no more than the height |
| Cylinder.CylinderRegion.Contains | worldedit-core/src/main/java/com/sk89q/worldedit/regions/CylinderRegion.java:284-291 | false below minY or above maxY; otherwise the radial test on the offset from the centre |
| Cylinder.ExpandContractCenter | worldedit-core/src/main/java/com/sk89q/worldedit/regions/CylinderRegion.java:237 | contracting by the same changes moves the centre back (also lines 257) |
| Cylinder.ShiftKeepsHeight | worldedit-core/src/main/java/com/sk89q/worldedit/regions/CylinderRegion.java:272-278 | moving both ends by one amount keeps the 32-bit height |
| Null.NullRegion.constructor | worldedit-core/src/main/java/com/sk89q/worldedit/regions/NullRegion.java:36-38 | the implicit constructor leaves the world null |
| Null.NullRegion.SetWorld | worldedit-core/src/main/java/com/sk89q/worldedit/regions/NullRegion.java:111-113 | only the world changes |
| Null.NullRegion.Clone | worldedit-core/src/main/java/com/sk89q/worldedit/regions/NullRegion.java:116-118 | a fresh region without a world |
| Null.NullRegion.GetMinimumPoint | worldedit-core/src/main/java/com/sk89q/worldedit/regions/NullRegion.java:41-43 | the origin |
| Null.NullRegion.GetMaximumPoint | worldedit-core/src/main/java/com/sk89q/worldedit/regions/NullRegion.java:46-48 | the origin |
| Null.NullRegion.GetArea | worldedit-core/src/main/java/com/sk89q/worldedit/regions/NullRegion.java:56-58 | 0 |
| Null.NullRegion.GetWidth | worldedit-core/src/main/java/com/sk89q/worldedit/regions/NullRegion.java:61-63 | 0 |
| Null.NullRegion.GetHeight | worldedit-core/src/main/java/com/sk89q/worldedit/regions/NullRegion.java:66-68 | 0 |
| Null.NullRegion.GetLength | worldedit-core/src/main/java/com/sk89q/worldedit/regions/NullRegion.java:71-73 | 0 |
| Null.NullRegion.Contains | worldedit-core/src/main/java/com/sk89q/worldedit/regions/NullRegion.java:91-93 | always false |
| Null.NullRegion.Expand | worldedit-core/src/main/java/com/sk89q/worldedit/regions/NullRegion.java:76-78 | always throws `RegionOperationException` |
| Null.NullRegion.Contract | worldedit-core/src/main/java/com/sk89q/worldedit/regions/NullRegion.java:81-83 | always throws `RegionOperationException` |
| Null.NullRegion.Shift | worldedit-core/src/main/java/com/sk89q/worldedit/regions/NullRegion.java:86-88 | always throws `RegionOperationException` |
| Null.NullRegion.GetChunks | worldedit-core/src/main/java/com/sk89q/worldedit/regions/NullRegion.java:96-98 | empty |
| Null.NullRegion.GetChunkCubes | worldedit-core/src/main/java/com/sk89q/worldedit/regions/NullRegion.java:101-103 | empty |
| Null.NullRegion.Polygonize | worldedit-core/src/main/java/com/sk89q/worldedit/regions/NullRegion.java:121-123 | empty for every point count |
| Null.NullRegion.HasNext | worldedit-core/src/main/java/com/sk89q/worldedit/regions/NullRegion.java:129-131 | the iterator has no element |
| Null.NullRegion.Next | worldedit-core/src/main/java/com/sk89q/worldedit/regions/NullRegion.java:134-136 | `next` throws `NoSuchElementException` |
| Null.ChunksOfNothing | worldedit-core/src/main/java/com/sk89q/worldedit/regions/NullRegion.java:96-103 | the empty chunk sets are what the general chunk definitions give for a region that contains nothing |
| Null.ShiftIsDefault | worldedit-core/src/main/java/com/sk89q/worldedit/regions/NullRegion.java:86-88 | the refusing `shift` agrees with expand-then-contract |
| Transforms.IsIdentity | worldedit-core/src/main/java/com/sk89q/worldedit/math/transform/Identity.java:30-32 | always true |
| Transforms.Apply | worldedit-core/src/main/java/com/sk89q/worldedit/math/transform/Identity.java:35-37 | the vector comes back unchanged |
| Transforms.Inverse | worldedit-core/src/main/java/com/sk89q/worldedit/math/transform/Identity.java:40-42 | the identity itself |
| Transforms.Combine | worldedit-core/src/main/java/com/sk89q/worldedit/math/transform/Identity.java:45-50 | with an identity the identity, otherwise the other transform |
| Transforms.InverseRoundTrip | worldedit-core/src/main/java/com/sk89q/worldedit/math/transform/Identity.java:35-42 | applying the identity and then its inverse gives back the vector |
| Transforms.CombineIsComposition | worldedit-core/src/main/java/com/sk89q/worldedit/math/transform/Identity.java:45-50 | the combined transform acts as the composition, in either order |

## Left out

- `getCenter` of every region returns a `Vector3d` of doubles and is not modelled. The same
  holds for the `double` members of the vectors: `length`, `distance`, `normalize`,
  `transform2D`, `toPitch`, `toYaw` and the constructors that floor doubles. The
  three-dimensional `dot` returns a `double` too, but it widens an `int` result, which is exact,
  so `Vector3.Dot` models it as that `int`. `toVector3d` is modelled only as the exact conversion of a
  block position to a point (`Polyhedron.ToPoint`). `hashCode` and `toString` are left out.
- The bodies of `Triangle` and `Edge` are not part of this model. `Polyhedron.Above` is an exact
  integer plane test. The test is strict and uses the normal (v1 - v0) x (v2 - v0). Edges are
  equal as unordered pairs (`SameEdge`). Triangle corners are exact integer points, since they
  only ever carry block coordinates.
- The cached `lastTriangle` is compared by value, not by reference. A value-equal face gives
  the same `above` answer, so the skip in `containsRaw` is unaffected.
- `ConvexPolyhedral.ConvexPolyhedralRegion.AddVertex` implements the corrected revision of
  `addVertex` (see "## Findings"). The revision as written is modelled as the function
  `HullSpec.AddVertex` with `AsWritten`.
- `ConvexPolyhedral.ConvexPolyhedralRegion.Contains` requires both box corners to be set when
  faces exist. The invariant always provides this. The null dereference the source would
  otherwise hit is not modelled.
- `HullShift.ShiftPreservesInv` and `HullShift.ShiftContains` assume that no vertex coordinate
  wraps around (`NoWrap`). Under wrap-around the bounding box of the moved vertices is no longer
  the moved box. `ConvexPolyhedral.ConvexPolyhedralRegion.Shift` states its new state for every
  input, but states the invariant only under the same proviso.
- `HullSpec.Size` models `Collection.size()` saturating at `Integer.MAX_VALUE`. Lists longer
  than that do not arise in practice.
- `Regions.GetChunks` and `Regions.GetChunkCubes` count with unbounded counters, so they also
  end when an upper corner component is `Integer.MAX_VALUE`. The source's loops do not (see
  "## Findings").
- `ChunkStore.CHUNK_SHIFTS` is a parameter (`shifts`), because `ChunkStore` is not part of this
  model. As in the source, one shift count serves all three axes of `getChunkCubes`.
- The `World` is modelled only as an identity that the regions carry and copy. Block access,
  I/O and events are left out.
- `Cylinder.CylinderRegion.Contains` takes the elliptical radial test as a parameter
  (`insideEllipse`), because it works on the `Vector2d` radius, which is made of doubles. For
  the same reason the cylinder's radius, `setRadius`, `extendRadius`, `getArea`, `getWidth`,
  `getLength`, `getMinimumPoint`, `getMaximumPoint` and `polygonize` are left out. `createRadius` is left out too.
- `Cylinder.SetYContains` requires an ordered range when Y is set. `setMinimumY`,
  `setMaximumY` and the bounded constructor accept an unordered one (CylinderRegion.java:74-81,
  151-164). On such a range the source's `setY` does not put y in range either: with minY = 5,
  maxY = 0 and y = 3 it lowers minY to 3, and [3, 0] still holds no value.
- `Cylinder.ExpandYGrows` requires that the sums of the changes do not overflow. With overflow
  the ends wrap, as `ExpandY` itself models.
- `Cylinder.ContractYShrinks` requires a height that fits in an `int`.
- The iterators (`AbstractRegion.iterator`, `CylinderRegion.iterator` and `asFlatRegion`) are
  left out. So are `AbstractRegion.clone` and `CylinderRegion.clone`, which calls it. `NullRegion`'s own iterator is modelled (`HasNext`, `Next`).
- `Transforms` is generic over the transformed value. The source applies it to `Vector3d`, a
  vector of doubles.
- `ConvexPolyhedralRegion.getTriangles` has no member of its own. It returns the face list,
  which the model reads as the field `triangles`. The getters `getMinimumPoint` and
  `getMaximumPoint` are plain field reads without a contract. So are `CylinderRegion.getMinimumY`
  and `getMaximumY` (`Cylinder.CylinderRegion.GetMinimumY`, `GetMaximumY`, CylinderRegion.java:176-184)
  and `NullRegion.getWorld` (`Null.NullRegion.GetWorld`, NullRegion.java:106-108).
- `withX`, `withY` and `withZ` are modelled as plain record updates without a contract.
- `isDefined` becomes true once three vertices are added, because the third vertex lays the two
  faces (v0,v1,v2) and (v0,v2,v1) (ConvexPolyhedralRegion.java:160-166).
- `HullLemmas.AddPreservesInv`: the invariant does not include closure, that is, that no
  accepted vertex lies above any face. So the model does not prove that earlier vertices stay
  contained after later additions. `HullLemmas.NewVertexContained` proves containment only for
  the vertex just added, with an empty backlog. Closure needs the convexity of the rebuilt mesh,
  a geometric theorem outside this model.
- `HullLemmas.ReplayFootprint`: the backlog replay is shown to bring in no other vertex, and
  `HullLemmas.AddReported` that each replayed vertex ends up among the vertices or back in the
  backlog. That a held-back vertex is eventually accepted, or shown to lie inside the region, is
  not proved.
- `EllipsoidRegion`, `Polygonal2DRegion`, `CuboidRegion`, the region selectors and the deform
  and expression code are not part of this model.

## Findings

| source | as written | input that shows it | evidently intended | confidence | as-written member | corrected member |
|---|---|---|---|---|---|---|
| worldedit-core/src/main/java/com/sk89q/worldedit/regions/ConvexPolyhedralRegion.java:170-196 | `addVertex` reaches the rebuild through `containsRaw`, which caches the face that saw the new vertex. The rebuild removes that face, but the cache keeps it. | vertices (0,0,0), (4,0,0), (0,0,4), then (0,4,0): the cache holds the removed face, so `contains((0,4,0))` is false although the point is a vertex | the cache is cleared when the mesh changes, so a new vertex is contained | medium, not executed | HullFindings.StaleCache | HullFindings.FreshCache |
| worldedit-core/src/main/java/com/sk89q/worldedit/regions/ConvexPolyhedralRegion.java:131-134 | the backlog is searched only while the region has exactly three vertices | (0,0,0), (4,0,0), (0,0,4), (1,0,1) (held back), (0,4,0), then (1,0,1) again: the accumulator becomes (6,4,6), but the vertex sum is (5,4,5) | a held-back vertex is refused at every size | medium, not executed | HullFindings.BacklogTwice | HullFindings.BacklogOnce |
| worldedit-core/src/main/java/com/sk89q/worldedit/regions/AbstractRegion.java:170-171 | the loops of `getChunks` and `getChunkCubes` count with an `int` and test `x <= max` | a box whose maximum X is 2147483647 (`Integer.MAX_VALUE`): every `int` x satisfies the guard, and `++x` wraps to `Integer.MIN_VALUE`, so the loop never ends | every column of the box is visited once and the loop ends | high, not executed | Regions.EndlessAtMaxValue | Regions.GetChunks |
