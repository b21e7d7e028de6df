/**
 The generation pipeline: partition the grid inside its outer ring, stamp
 the placed rooms into a blank grid, collect door points, select corridor
 edges from a triangulation of them and carve a route for each edge.
 The triangulation and the pathfinder are supplied as functions.
 */
module Generator {
  import opened Geometry
  import opened Tiles
  import opened Random
  import opened Rooms
  import opened Partition
  import opened GridWrites
  import opened Connectivity

  /** The rectangle partitioning starts from: the grid minus its outer ring. */
  function Interior(width: int, height: int): Rect
  {
    Rect(1, 1, width - 2, height - 2)
  }

  /** Both sides of the starting region must reach the padded minimum
      room size; smaller grids make the padding clamp non-positive. */
  predicate BigEnough(width: int, height: int)
  {
    Splittable(Interior(width, height))
  }

  /** The room pass of generation, drawing from the stream at position 0. */
  function LayoutRooms(width: int, height: int, pool: seq<Room>, s: Stream): Outcome
    requires BigEnough(width, height) && AllWellFormed(pool)
  {
    Partition.Partition(Interior(width, height), pool, s, 0)
  }

  /** Every room the generator places lies inside the grid's interior, no
      two overlap or even touch (each sits with a margin in its own padded
      rectangle, and the padded rectangles are disjoint parts of the
      interior), each is a valid placement, and the pool rooms used are
      exactly those missing from the pool afterwards. */
  lemma LayoutRoomsSound(width: int, height: int, pool: seq<Room>, s: Stream)
    requires BigEnough(width, height) && AllWellFormed(pool)
    ensures var out := LayoutRooms(width, height, pool, s);
            && |out.placed| >= 1
            && AllInside(out.placed, Interior(width, height))
            && PairwiseDisjoint(out.placed)
            && PaddedLayout(out.placed, out.paddings, Interior(width, height))
            && Apart(out.placed)
            && AllValid(out.placed)
            && multiset(pool) == multiset(out.pool) + multiset(Templates(out.placed))
  {
    PartitionLayout(Interior(width, height), pool, s, 0);
    PartitionPlacementsValid(Interior(width, height), pool, s, 0);
    PartitionConservesPool(Interior(width, height), pool, s, 0);
  }

  function RoomsOf(ps: seq<Placement>): (rooms: seq<Room>)
    ensures |rooms| == |ps| && forall i :: 0 <= i < |ps| ==> rooms[i] == ps[i].room
  {
    seq(|ps|, i requires 0 <= i < |ps| => ps[i].room)
  }

  /** Door points of rooms inside the interior are in bounds for corridor
      selection, so only edges to the triangulation's outer vertices can be
      rejected for their position. */
  lemma DoorPointsInBounds(rooms: seq<Room>, width: int, height: int)
    requires AllWellFormed(rooms)
    requires forall i :: 0 <= i < |rooms| ==> Inside(Bounds(rooms[i]), Interior(width, height))
    ensures forall p :: p in DoorPoints(rooms) ==>
              !OutOfBounds(p, width, height) && Contains(Interior(width, height), p.x, p.y)
  {
    forall p | p in DoorPoints(rooms)
      ensures !OutOfBounds(p, width, height) && Contains(Interior(width, height), p.x, p.y)
    {
      var i :| 0 <= i < |rooms| && IsDoorPoint(rooms[i], p);
      assert Inside(Bounds(rooms[i]), Interior(width, height));
    }
  }

  /** The route the pathfinder returns stays on the grid. */
  predicate RouteInBounds(route: seq<Point>, width: int, height: int)
  {
    forall i :: 0 <= i < |route| ==> 0 <= route[i].x < width && 0 <= route[i].y < height
  }

  /** The rooms of a sound layout, as `MarkRooms` and the door collection
      consume them. */
  lemma PlacedRooms(placed: seq<Placement>, width: int, height: int)
    requires AllValid(placed) && AllInside(placed, Interior(width, height)) && PairwiseDisjoint(placed)
    ensures var rooms := RoomsOf(placed);
            && AllWellFormed(rooms)
            && (forall i :: 0 <= i < |rooms| ==> Inside(Bounds(rooms[i]), Interior(width, height)))
            && (forall i :: 0 <= i < |rooms| ==> Inside(Bounds(rooms[i]), Rect(0, 0, width, height)))
            && (forall j, k :: 0 <= j < k < |rooms| ==> Disjoint(Bounds(rooms[j]), Bounds(rooms[k])))
  {
    var rooms := RoomsOf(placed);
    forall i | 0 <= i < |rooms|
      ensures WellFormed(rooms[i])
    {
      assert ValidPlacement(placed[i]);
    }
  }

  /** A door cell of a room stamped into the grid, with no other room
      overlapping it, is passable there. */
  lemma MarkedDoorPassable(g: Grid, rooms: seq<Room>, marked: Grid, width: int, height: int, i: int, p: Point)
    requires IsGrid(g, width, height) && IsGrid(marked, width, height)
    requires AllWellFormed(rooms)
    requires forall j, k :: 0 <= j < k < |rooms| ==> Disjoint(Bounds(rooms[j]), Bounds(rooms[k]))
    requires forall a, b :: 0 <= a < width && 0 <= b < height ==> marked[a][b] == MarkedCell(g, rooms, a, b)
    requires 0 <= i < |rooms| && Inside(Bounds(rooms[i]), Interior(width, height))
    requires IsDoorPoint(rooms[i], p)
    ensures InGrid(marked, p) && Passable(marked[p.x][p.y])
  {
    assert Contains(Bounds(rooms[i]), p.x, p.y);
    MarkedRoomsAreExact(g, rooms, i, p.x, p.y);
  }

  /** After marking non-overlapping rooms, every door point is passable. */
  lemma MarkedDoorsPassable(g: Grid, rooms: seq<Room>, marked: Grid, width: int, height: int)
    requires IsGrid(g, width, height) && IsGrid(marked, width, height)
    requires AllWellFormed(rooms)
    requires forall i :: 0 <= i < |rooms| ==> Inside(Bounds(rooms[i]), Interior(width, height))
    requires forall j, k :: 0 <= j < k < |rooms| ==> Disjoint(Bounds(rooms[j]), Bounds(rooms[k]))
    requires forall a, b :: 0 <= a < width && 0 <= b < height ==> marked[a][b] == MarkedCell(g, rooms, a, b)
    ensures forall p :: p in DoorPoints(rooms) ==> InGrid(marked, p) && Passable(marked[p.x][p.y])
  {
    forall p | p in DoorPoints(rooms)
      ensures InGrid(marked, p) && Passable(marked[p.x][p.y])
    {
      var i :| 0 <= i < |rooms| && IsDoorPoint(rooms[i], p);
      MarkedDoorPassable(g, rooms, marked, width, height, i, p);
    }
  }

  /** Every point is a passable cell of the grid. */
  predicate DoorsPassable(g: Grid, points: seq<Point>)
  {
    forall p :: p in points ==> InGrid(g, p) && Passable(g[p.x][p.y])
  }

  /** The corridors repeat no unordered pair, keep both ends in bounds, and
      each is an edge some triangle did not drop. */
  predicate Corridors(paths: seq<Edge>, triangles: seq<Triangle>, score: Score, width: int, height: int)
  {
    && NoRepeatedPair(paths)
    && (forall i :: 0 <= i < |paths| ==>
          !OutOfBounds(paths[i].p1, width, height) && !OutOfBounds(paths[i].p2, width, height))
    && (forall i :: 0 <= i < |paths| ==> FromTriangles(paths[i], triangles, score))
  }

  /** Whether cell `(a, b)` lies in some room. */
  predicate Covered(rooms: seq<Room>, a: int, b: int)
  {
    exists i :: 0 <= i < |rooms| && Contains(Bounds(rooms[i]), a, b)
  }

  /** The grid shows every room's own tiles over the room's cells and the
      blank tile wherever no room lies. */
  predicate ShowsRooms(g: Grid, rooms: seq<Room>, width: int, height: int)
  {
    && IsGrid(g, width, height) && AllWellFormed(rooms)
    && (forall i, a, b :: 0 <= i < |rooms| && 0 <= a < width && 0 <= b < height &&
                          Contains(Bounds(rooms[i]), a, b) ==>
          g[a][b] == rooms[i].contents[a - rooms[i].x][b - rooms[i].y])
    && (forall a, b :: 0 <= a < width && 0 <= b < height && !Covered(rooms, a, b) ==> g[a][b] == Blank)
  }

  /** Marking non-overlapping rooms into a blank grid shows each room
      exactly and leaves every other cell blank. */
  lemma MarkedShowsRooms(rooms: seq<Room>, marked: Grid, width: nat, height: nat)
    requires IsGrid(marked, width, height) && AllWellFormed(rooms)
    requires forall j, k :: 0 <= j < k < |rooms| ==> Disjoint(Bounds(rooms[j]), Bounds(rooms[k]))
    requires forall a, b :: 0 <= a < width && 0 <= b < height ==>
               marked[a][b] == MarkedCell(BlankGrid(width, height), rooms, a, b)
    ensures ShowsRooms(marked, rooms, width, height)
  {
    var blank := BlankGrid(width, height);
    forall i, a, b | 0 <= i < |rooms| && 0 <= a < width && 0 <= b < height && Contains(Bounds(rooms[i]), a, b)
      ensures marked[a][b] == rooms[i].contents[a - rooms[i].x][b - rooms[i].y]
    {
      MarkedRoomsAreExact(blank, rooms, i, a, b);
    }
    forall a, b | 0 <= a < width && 0 <= b < height && !Covered(rooms, a, b)
      ensures marked[a][b] == Blank
    {
      var k := LastCover(rooms, a, b);
      assert k >= 0 ==> Covered(rooms, a, b);
    }
  }

  /** Stamps a sound layout into a blank grid, as `markRooms` does on the
      freshly allocated tiles: every cell under a room shows that room's
      tile, every other cell stays blank, and so every door of every
      placed room is passable. */
  method StampRooms(placed: seq<Placement>, width: nat, height: nat) returns (grid: Grid)
    requires AllValid(placed) && AllInside(placed, Interior(width, height)) && PairwiseDisjoint(placed)
    ensures IsGrid(grid, width, height)
    ensures AllWellFormed(RoomsOf(placed))
    ensures forall a, b :: 0 <= a < width && 0 <= b < height ==>
              grid[a][b] == MarkedCell(BlankGrid(width, height), RoomsOf(placed), a, b)
    ensures ShowsRooms(grid, RoomsOf(placed), width, height)
    ensures DoorsPassable(grid, DoorPoints(RoomsOf(placed)))
  {
    var rooms := RoomsOf(placed);
    PlacedRooms(placed, width, height);
    var blank := BlankGrid(width, height);
    grid := MarkRooms(blank, rooms, width, height);
    MarkedDoorsPassable(blank, rooms, grid, width, height);
    MarkedShowsRooms(rooms, grid, width, height);
  }

  /** All routes, one after another. */
  function Flatten(routes: seq<seq<Point>>): seq<Point>
  {
    if |routes| == 0 then [] else Flatten(routes[..|routes| - 1]) + routes[|routes| - 1]
  }

  /** `stages` are the grids the carving loop passes through, from
      `before` to `after`: each route is what the pathfinder returns for
      its corridor on the grid carved so far, and each stage is the one
      before with that route carved. */
  predicate CarvedInTurn(before: Grid, paths: seq<Edge>, findPath: (Grid, Point, Point) -> seq<Point>,
                         routes: seq<seq<Point>>, stages: seq<Grid>, after: Grid)
  {
    && |routes| == |paths| && |stages| == |paths| + 1
    && stages[0] == before && stages[|paths|] == after
    && forall i :: 0 <= i < |paths| ==>
         && routes[i] == findPath(stages[i], paths[i].p1, paths[i].p2)
         && RouteInGrid(stages[i], routes[i])
         && stages[i + 1] == CarveCorridor(stages[i], routes[i])
  }

  /** Exactly the cells on some route have become corridor; every other
      cell is as it was. */
  predicate CorridorCells(before: Grid, routes: seq<seq<Point>>, after: Grid, width: int, height: int)
  {
    && IsGrid(before, width, height) && IsGrid(after, width, height)
    && forall a, b :: 0 <= a < width && 0 <= b < height ==>
         after[a][b] == if Point(a, b) in Flatten(routes) then CorridorTile else before[a][b]
  }

  /** One more turn of the carving loop extends the stages by one grid. */
  lemma CarvedInTurnStep(before: Grid, paths: seq<Edge>, findPath: (Grid, Point, Point) -> seq<Point>,
                         routes: seq<seq<Point>>, stages: seq<Grid>, after: Grid,
                         e: Edge, route: seq<Point>)
    requires CarvedInTurn(before, paths, findPath, routes, stages, after)
    requires route == findPath(after, e.p1, e.p2) && RouteInGrid(after, route)
    ensures CarvedInTurn(before, paths + [e], findPath, routes + [route],
                         stages + [CarveCorridor(after, route)], CarveCorridor(after, route))
  {
    var paths', routes', stages' := paths + [e], routes + [route], stages + [CarveCorridor(after, route)];
    forall i | 0 <= i < |paths'|
      ensures && routes'[i] == findPath(stages'[i], paths'[i].p1, paths'[i].p2)
              && RouteInGrid(stages'[i], routes'[i])
              && stages'[i + 1] == CarveCorridor(stages'[i], routes'[i])
    {
      if i < |paths| {
        assert paths'[i] == paths[i] && routes'[i] == routes[i] && stages'[i] == stages[i];
        assert stages'[i + 1] == stages[i + 1];
      }
    }
  }

  lemma BoundedRouteInGrid(g: Grid, route: seq<Point>, width: int, height: int)
    requires IsGrid(g, width, height) && RouteInBounds(route, width, height)
    ensures RouteInGrid(g, route)
  {
  }

  lemma FlattenSnoc(routes: seq<seq<Point>>, route: seq<Point>)
    ensures Flatten(routes + [route]) == Flatten(routes) + route
  {
    assert (routes + [route])[..|routes|] == routes;
  }

  /** Carves a route for each corridor in turn, asking the pathfinder on
      the grid as carved so far. The result is the grid with exactly the
      cells of the routes turned into corridor; doors that were passable
      stay passable. */
  method CarvePaths(grid: Grid, paths: seq<Edge>, findPath: (Grid, Point, Point) -> seq<Point>,
                    ghost width: int, ghost height: int, ghost doors: seq<Point>)
    returns (r: Grid, ghost routes: seq<seq<Point>>, ghost stages: seq<Grid>)
    requires IsGrid(grid, width, height)
    requires forall g, a, b :: RouteInBounds(findPath(g, a, b), width, height)
    ensures CarvedInTurn(grid, paths, findPath, routes, stages, r)
    ensures CorridorCells(grid, routes, r, width, height)
    ensures DoorsPassable(grid, doors) ==> DoorsPassable(r, doors)
  {
    r := grid;
    routes := [];
    stages := [grid];
    var i := 0;
    while i < |paths|
      invariant 0 <= i <= |paths|
      invariant Carving(grid, paths[..i], findPath, routes, stages, r, width, height)
    {
      var route := findPath(r, paths[i].p1, paths[i].p2);
      CarvingStep(grid, paths[..i], findPath, routes, stages, r, width, height, paths[i], route);
      assert paths[..i] + [paths[i]] == paths[..i + 1];
      routes := routes + [route];
      stages := stages + [CarveCorridor(r, route)];
      r := CarveCorridor(r, route);
      i := i + 1;
    }
    assert paths[..|paths|] == paths;
    CorridorsArePassable(grid, routes, r, width, height, doors);
  }

  /** The state the carving loop keeps: the grid so far is the start grid
      with the concatenated routes carved into it. */
  predicate Carving(grid: Grid, paths: seq<Edge>, findPath: (Grid, Point, Point) -> seq<Point>,
                    routes: seq<seq<Point>>, stages: seq<Grid>, r: Grid, width: int, height: int)
  {
    && IsGrid(grid, width, height) && IsGrid(r, width, height)
    && CarvedInTurn(grid, paths, findPath, routes, stages, r)
    && RouteInGrid(grid, Flatten(routes)) && r == CarveCorridor(grid, Flatten(routes))
  }

  /** One turn of the carving loop keeps its state. */
  lemma CarvingStep(grid: Grid, paths: seq<Edge>, findPath: (Grid, Point, Point) -> seq<Point>,
                    routes: seq<seq<Point>>, stages: seq<Grid>, r: Grid, width: int, height: int,
                    e: Edge, route: seq<Point>)
    requires Carving(grid, paths, findPath, routes, stages, r, width, height)
    requires route == findPath(r, e.p1, e.p2) && RouteInBounds(route, width, height)
    ensures RouteInGrid(r, route)
    ensures Carving(grid, paths + [e], findPath, routes + [route], stages + [CarveCorridor(r, route)],
                    CarveCorridor(r, route), width, height)
  {
    BoundedRouteInGrid(grid, route, width, height);
    BoundedRouteInGrid(r, route, width, height);
    CarveAppend(grid, Flatten(routes), route);
    FlattenSnoc(routes, route);
    CarvedInTurnStep(grid, paths, findPath, routes, stages, r, e, route);
  }

  /** Carving only adds passable corridor cells, so passable points stay
      passable. */
  lemma CorridorsArePassable(before: Grid, routes: seq<seq<Point>>, after: Grid, width: int, height: int,
                             points: seq<Point>)
    requires IsGrid(before, width, height) && RouteInGrid(before, Flatten(routes))
    requires after == CarveCorridor(before, Flatten(routes))
    ensures CorridorCells(before, routes, after, width, height)
    ensures DoorsPassable(before, points) ==> DoorsPassable(after, points)
  {
  }

  /** Runs the whole pipeline: lays out the rooms, stamps them into a
      blank grid, selects corridors from a triangulation of the door
      points and carves a route for each. The rooms and the remaining pool
      are those of `LayoutRooms`, and the paths are those `SelectEdges`
      keeps over the triangulated door points. The placed rooms lie in the
      interior without overlapping; the stamped grid shows exactly the
      rooms; the corridors repeat no pair, keep both ends in bounds and
      come from non-dropped triangle edges; the final grid is the stamped
      grid with exactly the routes' cells carved, the pathfinder having
      seen each intermediate grid; and every door is passable. */
  method Generate(width: int, height: int, pool: seq<Room>, s: Stream,
                  triangulate: seq<Point> -> seq<Triangle>, score: Score,
                  findPath: (Grid, Point, Point) -> seq<Point>)
    returns (grid: Grid, placed: seq<Placement>, rest: seq<Room>, paths: seq<Edge>,
             stamped: Grid, ghost routes: seq<seq<Point>>, ghost stages: seq<Grid>)
    requires BigEnough(width, height) && AllWellFormed(pool)
    requires forall g, a, b :: RouteInBounds(findPath(g, a, b), width, height)
    ensures IsGrid(grid, width, height)
    ensures |placed| >= 1 && AllValid(placed)
    ensures AllInside(placed, Interior(width, height)) && PairwiseDisjoint(placed)
    ensures ShowsRooms(stamped, RoomsOf(placed), width, height)
    ensures Corridors(paths, triangulate(DoorPoints(RoomsOf(placed))), score, width, height)
    ensures CarvedInTurn(stamped, paths, findPath, routes, stages, grid)
    ensures CorridorCells(stamped, routes, grid, width, height)
    ensures DoorsPassable(grid, DoorPoints(RoomsOf(placed)))
    ensures placed == LayoutRooms(width, height, pool, s).placed
    ensures rest == LayoutRooms(width, height, pool, s).pool
    ensures paths == SelectEdges(NoEdges, triangulate(DoorPoints(RoomsOf(placed))), score, width, height).paths
  {
    LayoutRoomsSound(width, height, pool, s);
    var layout := LayoutRooms(width, height, pool, s);
    placed, rest := layout.placed, layout.pool;
    stamped := StampRooms(placed, width, height);
    var points := DoorPoints(RoomsOf(placed));
    var lists := SelectEdges(NoEdges, triangulate(points), score, width, height);
    SelectEdgesSound(NoEdges, triangulate(points), score, width, height);
    paths := lists.paths;
    grid, routes, stages := CarvePaths(stamped, paths, findPath, width, height, points);
  }
}
