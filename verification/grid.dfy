/**
 The two ways the generator writes into its grid: stamping placed rooms
 and carving corridors along routes.
 */
module GridWrites {
  import opened Geometry
  import opened Tiles
  import opened Rooms

  predicate SameShape(a: Grid, b: Grid)
  {
    |a| == |b| && forall x :: 0 <= x < |a| ==> |a[x]| == |b[x]|
  }

  predicate RouteInGrid(g: Grid, route: seq<Point>)
  {
    forall i :: 0 <= i < |route| ==> InGrid(g, route[i])
  }

  /** Turns every cell of the route into floor/corridor, in route order.
      Exactly the route's cells change. */
  function CarveCorridor(g: Grid, route: seq<Point>): (r: Grid)
    requires RouteInGrid(g, route)
    ensures SameShape(g, r)
    ensures forall x, y :: 0 <= x < |g| && 0 <= y < |g[x]| ==>
              r[x][y] == if Point(x, y) in route then CorridorTile else g[x][y]
    decreases |route|
  {
    if |route| == 0 then g
    else CarveCorridor(SetTile(g, route[0], CorridorTile), route[1..])
  }

  /** Every cell of a carved route is passable afterwards. */
  lemma CarvedRouteIsPassable(g: Grid, route: seq<Point>)
    requires RouteInGrid(g, route)
    ensures var r := CarveCorridor(g, route);
            forall i :: 0 <= i < |route| ==> Passable(r[route[i].x][route[i].y])
  {
    var r := CarveCorridor(g, route);
    forall i | 0 <= i < |route|
      ensures Passable(r[route[i].x][route[i].y])
    {
      assert Point(route[i].x, route[i].y) == route[i];
    }
  }

  /** Carving the same route again changes nothing. */
  lemma CarveIdempotent(g: Grid, route: seq<Point>)
    requires RouteInGrid(g, route)
    ensures RouteInGrid(CarveCorridor(g, route), route)
    ensures CarveCorridor(CarveCorridor(g, route), route) == CarveCorridor(g, route)
  {
    var once := CarveCorridor(g, route);
    var twice := CarveCorridor(once, route);
    GridExtensionality(twice, once);
  }

  /** Carving two routes one after the other is carving their
      concatenation. */
  lemma CarveAppend(g: Grid, a: seq<Point>, b: seq<Point>)
    requires RouteInGrid(g, a) && RouteInGrid(g, b)
    ensures RouteInGrid(CarveCorridor(g, a), b) && RouteInGrid(g, a + b)
    ensures CarveCorridor(CarveCorridor(g, a), b) == CarveCorridor(g, a + b)
  {
    var ga := CarveCorridor(g, a);
    assert RouteInGrid(g, a + b) by {
      forall i | 0 <= i < |a + b|
        ensures InGrid(g, (a + b)[i])
      {
        if i >= |a| {
          assert (a + b)[i] == b[i - |a|];
        }
      }
    }
    var left := CarveCorridor(ga, b);
    var right := CarveCorridor(g, a + b);
    GridExtensionality(left, right);
  }

  predicate RoomInGrid(room: Room, width: int, height: int)
  {
    WellFormed(room) && Inside(Bounds(room), Rect(0, 0, width, height))
  }

  /** Copies the room's contents into the grid at the room's position,
      column by column; cells outside the room are untouched. */
  method MarkRoom(g: Grid, room: Room, ghost width: int, ghost height: int) returns (r: Grid)
    requires IsGrid(g, width, height) && RoomInGrid(room, width, height)
    ensures IsGrid(r, width, height)
    ensures forall a, b :: 0 <= a < width && 0 <= b < height ==>
              r[a][b] == if Contains(Bounds(room), a, b) then room.contents[a - room.x][b - room.y] else g[a][b]
  {
    r := g;
    var x := 0;
    while x < room.width
      invariant 0 <= x <= room.width
      invariant IsGrid(r, width, height)
      invariant forall a, b :: 0 <= a < width && 0 <= b < height ==>
                  r[a][b] == if room.x <= a < room.x + x && room.y <= b < room.y + room.height
                             then room.contents[a - room.x][b - room.y] else g[a][b]
    {
      var y := 0;
      while y < room.height
        invariant 0 <= y <= room.height
        invariant IsGrid(r, width, height)
        invariant forall a, b :: 0 <= a < width && 0 <= b < height ==>
                    r[a][b] == if (room.x <= a < room.x + x && room.y <= b < room.y + room.height) ||
                                  (a == room.x + x && room.y <= b < room.y + y)
                               then room.contents[a - room.x][b - room.y] else g[a][b]
      {
        r := SetTile(r, Point(room.x + x, room.y + y), room.contents[x][y]);
        y := y + 1;
      }
      x := x + 1;
    }
  }

  /** The index of the last room covering cell `(x, y)`, or -1. */
  function LastCover(rooms: seq<Room>, x: int, y: int): (k: int)
    ensures -1 <= k < |rooms|
    ensures k >= 0 ==> Contains(Bounds(rooms[k]), x, y)
    ensures forall j :: k < j < |rooms| ==> !Contains(Bounds(rooms[j]), x, y)
  {
    if |rooms| == 0 then -1
    else if Contains(Bounds(rooms[|rooms| - 1]), x, y) then |rooms| - 1
    else LastCover(rooms[..|rooms| - 1], x, y)
  }

  /** What marking `rooms` in order leaves at `(x, y)`: the contents of
      the last room covering it, or the cell as it was. */
  function MarkedCell(g: Grid, rooms: seq<Room>, x: int, y: int): Tile
    requires 0 <= x < |g| && 0 <= y < |g[x]|
    requires AllWellFormed(rooms)
  {
    var k := LastCover(rooms, x, y);
    if k < 0 then g[x][y]
    else
      var room := rooms[k];
      assert WellFormed(room) && Contains(Bounds(room), x, y);
      room.contents[x - room.x][y - room.y]
  }

  /** Marks every placed room, in placement order; a later room wins
      where two overlap. */
  method MarkRooms(g: Grid, rooms: seq<Room>, ghost width: int, ghost height: int) returns (r: Grid)
    requires IsGrid(g, width, height)
    requires AllWellFormed(rooms)
    requires forall i :: 0 <= i < |rooms| ==> Inside(Bounds(rooms[i]), Rect(0, 0, width, height))
    ensures IsGrid(r, width, height)
    ensures forall a, b :: 0 <= a < width && 0 <= b < height ==> r[a][b] == MarkedCell(g, rooms, a, b)
  {
    r := g;
    var i := 0;
    while i < |rooms|
      invariant 0 <= i <= |rooms|
      invariant IsGrid(r, width, height)
      invariant forall a, b :: 0 <= a < width && 0 <= b < height ==> r[a][b] == MarkedCell(g, rooms[..i], a, b)
    {
      var before := r;
      r := MarkRoom(r, rooms[i], width, height);
      assert rooms[..i + 1][..i] == rooms[..i];
      forall a, b | 0 <= a < width && 0 <= b < height
        ensures r[a][b] == MarkedCell(g, rooms[..i + 1], a, b)
      {
        assert r[a][b] == if Contains(Bounds(rooms[i]), a, b) then rooms[i].contents[a - rooms[i].x][b - rooms[i].y] else before[a][b];
      }
      i := i + 1;
    }
    assert rooms[..|rooms|] == rooms;
  }

  /** When no two rooms overlap, every room's cells end up holding exactly
      that room's contents. */
  lemma MarkedRoomsAreExact(g: Grid, rooms: seq<Room>, i: int, a: int, b: int)
    requires 0 <= a < |g| && 0 <= b < |g[a]|
    requires AllWellFormed(rooms)
    requires forall j, k :: 0 <= j < k < |rooms| ==> Disjoint(Bounds(rooms[j]), Bounds(rooms[k]))
    requires 0 <= i < |rooms| && Contains(Bounds(rooms[i]), a, b)
    ensures MarkedCell(g, rooms, a, b) == rooms[i].contents[a - rooms[i].x][b - rooms[i].y]
  {
    var k := LastCover(rooms, a, b);
  }
}
