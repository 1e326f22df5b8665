/**
 * GridVisualizer.GenerateGridPoints: the grid points trays move between. Every
 * child tile of the grid container that has a Renderer is cut into a 2 × 2
 * sub-grid; the centres of the four cells, lifted to the plane y = fixedY, are
 * the tile's grid points.
 */
module GridPoints {
  import opened Wrappers
  import opened Geometry

  /** World-space renderer bounds of a tile. */
  datatype Bounds = Bounds(center: Vec3, size: Vec3)

  /** A child of the grid container: the bounds of the first Renderer under it, if it has one. */
  datatype TileChild = TileChild(renderer: Option<Bounds>)

  /** The point the loop body computes for cell (dx, dz) of a tile, dx, dz in {0, 1}. */
  function CellPoint(b: Bounds, fixedY: real, dx: int, dz: int): Vec3
  {
    var offsetX := -b.size.x / 4.0 + dx as real * (b.size.x / 2.0);
    var offsetZ := -b.size.z / 4.0 + dz as real * (b.size.z / 2.0);
    Vec3(b.center.x + offsetX, fixedY, b.center.z + offsetZ)
  }

  /** The four points of one tile, in the order of the nested dx / dz loops. */
  function TilePoints(b: Bounds, fixedY: real): seq<Vec3>
  {
    [CellPoint(b, fixedY, 0, 0), CellPoint(b, fixedY, 0, 1), CellPoint(b, fixedY, 1, 0), CellPoint(b, fixedY, 1, 1)]
  }

  /** The points a tile contributes: none without a Renderer. */
  function ChildPoints(t: TileChild, fixedY: real): seq<Vec3>
  {
    match t.renderer
    case None => []
    case Some(b) => TilePoints(b, fixedY)
  }

  /** All grid points of the container's children, tile after tile in child order. */
  function GridPointsOf(tiles: seq<TileChild>, fixedY: real): seq<Vec3>
  {
    if tiles == [] then [] else GridPointsOf(tiles[..|tiles| - 1], fixedY) + ChildPoints(tiles[|tiles| - 1], fixedY)
  }

  /** The number of children that have a Renderer. */
  function RenderedCount(tiles: seq<TileChild>): nat
  {
    if tiles == [] then 0 else RenderedCount(tiles[..|tiles| - 1]) + (if tiles[|tiles| - 1].renderer.Some? then 1 else 0)
  }

  /**
   * A tile's four points sit a quarter of its size either side of its centre
   * on each axis, on the fixed plane, ordered (-,-), (-,+), (+,-), (+,+).
   */
  lemma TilePointsAreQuarterOffsets(b: Bounds, fixedY: real)
    ensures var c, qx, qz := b.center, b.size.x / 4.0, b.size.z / 4.0;
            TilePoints(b, fixedY) == [Vec3(c.x - qx, fixedY, c.z - qz), Vec3(c.x - qx, fixedY, c.z + qz),
                                      Vec3(c.x + qx, fixedY, c.z - qz), Vec3(c.x + qx, fixedY, c.z + qz)]
  {
  }

  /** Four points per tile with a Renderer, none for the others. */
  lemma {:induction false} GridPointsCount(tiles: seq<TileChild>, fixedY: real)
    ensures |GridPointsOf(tiles, fixedY)| == 4 * RenderedCount(tiles)
  {
    if tiles != [] {
      GridPointsCount(tiles[..|tiles| - 1], fixedY);
    }
  }

  /** Every grid point lies on the plane y = fixedY, whatever the tiles' heights. */
  lemma {:induction false} GridPointsOnPlane(tiles: seq<TileChild>, fixedY: real)
    ensures forall i :: 0 <= i < |GridPointsOf(tiles, fixedY)| ==> GridPointsOf(tiles, fixedY)[i].y == fixedY
  {
    if tiles != [] {
      GridPointsOnPlane(tiles[..|tiles| - 1], fixedY);
    }
  }

  /**
   * Points are grouped per tile in child order: the j-th point of the k-th
   * child sits right after the points of the rendered children before it.
   */
  lemma {:induction false} GridPointsGroupedByTile(tiles: seq<TileChild>, fixedY: real, k: nat, j: nat)
    requires k < |tiles| && tiles[k].renderer.Some? && j < 4
    ensures 4 * RenderedCount(tiles[..k]) + j < |GridPointsOf(tiles, fixedY)|
    ensures GridPointsOf(tiles, fixedY)[4 * RenderedCount(tiles[..k]) + j] == TilePoints(tiles[k].renderer.value, fixedY)[j]
  {
    var init := tiles[..|tiles| - 1];
    GridPointsCount(init, fixedY);
    if k == |tiles| - 1 {
      assert tiles[..k] == init;
    } else {
      assert init[..k] == tiles[..k];
      GridPointsGroupedByTile(init, fixedY, k, j);
    }
  }

  /** Every grid point comes from some child that has a Renderer. */
  lemma {:induction false} GridPointsFromRenderedTiles(tiles: seq<TileChild>, fixedY: real, i: nat)
    requires i < |GridPointsOf(tiles, fixedY)|
    ensures exists k, j :: 0 <= k < |tiles| && 0 <= j < 4 && tiles[k].renderer.Some? &&
                           GridPointsOf(tiles, fixedY)[i] == TilePoints(tiles[k].renderer.value, fixedY)[j]
  {
    var init := tiles[..|tiles| - 1];
    var last := tiles[|tiles| - 1];
    if i < |GridPointsOf(init, fixedY)| {
      GridPointsFromRenderedTiles(init, fixedY, i);
      var k, j :| 0 <= k < |init| && 0 <= j < 4 && init[k].renderer.Some? &&
                  GridPointsOf(init, fixedY)[i] == TilePoints(init[k].renderer.value, fixedY)[j];
      assert tiles[k] == init[k];
    } else {
      var j := i - |GridPointsOf(init, fixedY)|;
      assert GridPointsOf(tiles, fixedY)[i] == ChildPoints(last, fixedY)[j];
      assert tiles[|tiles| - 1] == last;
    }
  }

  /** The "GridContainer" object whose children are the tiles. */
  class GridContainer {
    var tiles: seq<TileChild>

    constructor (tiles: seq<TileChild>)
      ensures this.tiles == tiles
    {
      this.tiles := tiles;
    }
  }

  class GridVisualizer {
    /** The container found by name at Start; null when there is none. */
    var gridParent: GridContainer?
    var fixedY: real
    var gridPoints: seq<Vec3>

    /**
     * A component after Start, given what the lookup of "GridContainer"
     * found and the inspector value of fixedY (1 by default).
     */
    constructor (gridParent: GridContainer?, fixedY: real)
      ensures this.gridParent == gridParent && this.fixedY == fixedY && gridPoints == []
    {
      this.gridParent := gridParent;
      this.fixedY := fixedY;
      gridPoints := [];
    }

    /**
     * Clears the list, then appends the points of every rendered child. The new
     * list depends only on the children and fixedY, never on the old list, so
     * regenerating with unchanged tiles gives the identical list.
     */
    method GenerateGridPoints()
      modifies this`gridPoints
      ensures gridPoints == if gridParent == null then [] else GridPointsOf(gridParent.tiles, fixedY)
    {
      gridPoints := [];
      if gridParent == null {
        return;
      }
      var tiles := gridParent.tiles;
      var i := 0;
      while i < |tiles|
        invariant 0 <= i <= |tiles|
        invariant gridPoints == GridPointsOf(tiles[..i], fixedY)
      {
        var tile := tiles[i];
        assert tiles[..i + 1][..i] == tiles[..i];
        if tile.renderer.Some? {
          var bounds := tile.renderer.value;
          var center, size := bounds.center, bounds.size;
          for dx := 0 to 2
            invariant gridPoints == GridPointsOf(tiles[..i], fixedY) + TilePoints(bounds, fixedY)[..2 * dx]
          {
            for dz := 0 to 2
              invariant gridPoints == GridPointsOf(tiles[..i], fixedY) + TilePoints(bounds, fixedY)[..2 * dx + dz]
            {
              var offsetX := -size.x / 4.0 + dx as real * (size.x / 2.0);
              var offsetZ := -size.z / 4.0 + dz as real * (size.z / 2.0);
              var point := Vec3(center.x + offsetX, fixedY, center.z + offsetZ);
              assert point == CellPoint(bounds, fixedY, dx, dz);
              assert TilePoints(bounds, fixedY)[2 * dx + dz] == CellPoint(bounds, fixedY, dx, dz);
              gridPoints := gridPoints + [point];
              assert TilePoints(bounds, fixedY)[..2 * dx + dz + 1] == TilePoints(bounds, fixedY)[..2 * dx + dz] + [point];
            }
          }
        }
        i := i + 1;
      }
      assert tiles[..i] == tiles;
    }
  }
}
