/** `NullRegion`: the region that contains no points. Everything it reports is a constant;
    the only state it has is the world it is attached to. */
module Null {
  import opened JavaInt
  import opened Wrappers
  import opened Vector3
  import opened Regions
  import V2 = Vector2

  class NullRegion {
    var world: Option<World>

    /** A null region starts without a world. */
    constructor()
      ensures world == None
    {
      world := None;
    }

    function GetWorld(): Option<World>
      reads this
    {
      world
    }

    method SetWorld(world: Option<World>)
      modifies this
      ensures this.world == world && GetWorld() == world
    {
      this.world := world;
    }

    /** `clone`: a new region; the world is not carried over. */
    method Clone() returns (r: NullRegion)
      ensures fresh(r) && r.world == None && world == old(world)
    {
      r := new NullRegion();
    }

    /** Both corners sit at the origin. */
    function GetMinimumPoint(): (r: BlockVector3d)
      ensures r == Zero
    {
      Zero
    }

    function GetMaximumPoint(): (r: BlockVector3d)
      ensures r == Zero
    {
      Zero
    }

    function GetArea(): (r: Int32)
      ensures r == 0
    {
      0
    }

    function GetWidth(): (r: Int32)
      ensures r == 0
    {
      0
    }

    function GetHeight(): (r: Int32)
      ensures r == 0
    {
      0
    }

    function GetLength(): (r: Int32)
      ensures r == 0
    {
      0
    }

    /** No point is in the null region. */
    function Contains(position: BlockVector3d): (r: bool)
      ensures !r
    {
      false
    }

    /** The null region cannot be changed: every mutator refuses. */
    function Expand(changes: seq<BlockVector3d>): (r: Outcome)
      ensures r == Raised(RegionOperation)
    {
      Raised(RegionOperation)
    }

    function Contract(changes: seq<BlockVector3d>): (r: Outcome)
      ensures r == Raised(RegionOperation)
    {
      Raised(RegionOperation)
    }

    function Shift(change: BlockVector3d): (r: Outcome)
      ensures r == Raised(RegionOperation)
    {
      Raised(RegionOperation)
    }

    function GetChunks(): (r: set<V2.BlockVector2d>)
      ensures r == {}
    {
      {}
    }

    function GetChunkCubes(): (r: set<BlockVector3d>)
      ensures r == {}
    {
      {}
    }

    /** Unlike the box outline, the empty outline is returned for every `maxPoints`, even one
        that a box would refuse. */
    function Polygonize(maxPoints: Int32): (r: seq<V2.BlockVector2d>)
      ensures r == []
    {
      []
    }

    /** The iterator: it never has a next point, and asking for one fails. */
    function HasNext(): (r: bool)
      ensures !r
    {
      false
    }

    function Next(): (r: Result<BlockVector3d>)
      ensures r == Throws(NoSuchElement)
    {
      Throws(NoSuchElement)
    }
  }

  /** The null region's constant answers are those the general definitions give for a region
      that contains nothing: no chunk and no chunk cube of any box. */
  lemma ChunksOfNothing(region: NullRegion, min: BlockVector3d, max: BlockVector3d, shifts: Int32)
    ensures Chunks(min, max, (p: BlockVector3d) => region.Contains(p), shifts) == region.GetChunks()
    ensures ChunkCubes(min, max, (p: BlockVector3d) => region.Contains(p), shifts) == region.GetChunkCubes()
  {
  }

  /** Shifting a null region refuses at the expand step, as the default expand-then-contract
      would. */
  lemma ShiftIsDefault(region: NullRegion, change: BlockVector3d)
    ensures DefaultShift(0, change, (u: int, c: seq<BlockVector3d>) => (u, region.Expand(c)),
                                    (u: int, c: seq<BlockVector3d>) => (u, region.Contract(c))).1
      == region.Shift(change)
  {
  }
}
