/**
 The generation-time tile buffer: each cell carries a visual/semantic
 classification and an independent walkability classification.
 Grids are indexed `[x][y]`, column first, as the generator indexes them.
 */
module Tiles {
  import opened Geometry

  datatype TileType = Floor | Wall | Door

  datatype PathfindType = None | Wall | Corridor

  datatype Tile = Tile(tileType: TileType, pathfindType: PathfindType)

  /** A freshly allocated generation tile: a wall that is not yet blocked. */
  const Blank := Tile(TileType.Wall, PathfindType.None)
  /** A room border cell. */
  const WallTile := Tile(TileType.Wall, PathfindType.Wall)
  /** A room interior cell, and also a room's door cell. */
  const FloorTile := Tile(TileType.Floor, PathfindType.None)
  /** A cell on a carved corridor. */
  const CorridorTile := Tile(TileType.Floor, PathfindType.Corridor)

  /** Every faction may walk on a cell unless its pathfinding class is Wall. */
  predicate Passable(t: Tile)
  {
    t.pathfindType != PathfindType.Wall
  }

  type Grid = seq<seq<Tile>>

  /** `g` has `width` columns of `height` cells each. */
  predicate IsGrid(g: Grid, width: int, height: int)
  {
    |g| == width && height >= 0 && forall x :: 0 <= x < |g| ==> |g[x]| == height
  }

  predicate InGrid(g: Grid, p: Point)
  {
    0 <= p.x < |g| && 0 <= p.y < |g[p.x]|
  }

  function BlankGrid(width: nat, height: nat): (g: Grid)
    ensures IsGrid(g, width, height)
    ensures forall x, y :: 0 <= x < width && 0 <= y < height ==> g[x][y] == Blank
  {
    seq(width, x => seq(height, y => Blank))
  }

  /** The grid with the single cell `p` replaced by `t`. */
  function SetTile(g: Grid, p: Point, t: Tile): (r: Grid)
    requires InGrid(g, p)
    ensures |r| == |g| && forall x :: 0 <= x < |g| ==> |r[x]| == |g[x]|
    ensures r[p.x][p.y] == t
    ensures forall x, y :: 0 <= x < |g| && 0 <= y < |g[x]| && (x != p.x || y != p.y) ==> r[x][y] == g[x][y]
  {
    g[p.x := g[p.x][p.y := t]]
  }

  /** Two grids of the same shape that agree on every cell are equal. */
  lemma GridExtensionality(a: Grid, b: Grid)
    requires |a| == |b| && forall x :: 0 <= x < |a| ==> |a[x]| == |b[x]|
    requires forall x, y :: 0 <= x < |a| && 0 <= y < |a[x]| ==> a[x][y] == b[x][y]
    ensures a == b
  {
    forall x | 0 <= x < |a|
      ensures a[x] == b[x]
    {
      assert |a[x]| == |b[x]|;
    }
  }
}
