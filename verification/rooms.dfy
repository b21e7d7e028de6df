/**
 Rooms: a rectangular block of tiles with a one-cell wall border and a
 door opening, positioned in the grid by the partitioner. Contents are
 indexed `[x][y]` relative to the room's own corner.
 */
module Rooms {
  import opened Geometry
  import opened Tiles
  import opened Random

  datatype Room = Room(width: int, height: int, x: int, y: int, contents: seq<seq<Tile>>)

  /** The contents buffer has exactly `width` columns of `height` cells. */
  predicate WellFormed(r: Room)
  {
    r.width == |r.contents| && r.height >= 0 &&
    forall a :: 0 <= a < |r.contents| ==> |r.contents[a]| == r.height
  }

  predicate AllWellFormed(rooms: seq<Room>)
  {
    forall i :: 0 <= i < |rooms| ==> WellFormed(rooms[i])
  }

  /** The cells the room occupies in the grid. */
  function Bounds(r: Room): Rect
  {
    Rect(r.x, r.y, r.width, r.height)
  }

  predicate OnBorder(width: int, height: int, a: int, b: int)
  {
    a == 0 || a == width - 1 || b == 0 || b == height - 1
  }

  predicate IsCorner(width: int, height: int, a: int, b: int)
  {
    (a == 0 || a == width - 1) && (b == 0 || b == height - 1)
  }

  /** Transposes the contents and swaps the two extents (a 90-degree turn
      combined with a mirror, as the generator does it). */
  function Rotate(r: Room): (r': Room)
    requires WellFormed(r)
    ensures WellFormed(r')
    ensures r'.width == r.height && r'.height == r.width && r'.x == r.x && r'.y == r.y
    ensures forall a, b :: 0 <= a < r.width && 0 <= b < r.height ==> r'.contents[b][a] == r.contents[a][b]
  {
    var turned := seq(r.height, b requires 0 <= b < r.height => seq(r.width, a requires 0 <= a < r.width => r.contents[a][b]));
    Room(r.height, r.width, r.x, r.y, turned)
  }

  /** Rotation is an involution: turning twice restores extents and contents. */
  lemma RotateTwice(r: Room)
    requires WellFormed(r)
    ensures Rotate(Rotate(r)) == r
  {
    var rr := Rotate(Rotate(r));
    forall a | 0 <= a < r.width
      ensures rr.contents[a] == r.contents[a]
    {
      assert |rr.contents[a]| == |r.contents[a]|;
    }
    assert rr.contents == r.contents;
  }

  /** Four turns are the identity. */
  lemma RotateFourTimes(r: Room)
    requires WellFormed(r)
    ensures Rotate(Rotate(Rotate(Rotate(r)))) == r
  {
    RotateTwice(r);
    RotateTwice(Rotate(Rotate(r)));
  }

  /** The tile a room with door `(da, db)` holds at `(a, b)`. */
  function ExpectedTile(width: int, height: int, da: int, db: int, a: int, b: int): Tile
  {
    if a == da && b == db then FloorTile
    else if OnBorder(width, height, a, b) then WallTile
    else FloorTile
  }

  /** `(da, db)` is a non-corner border cell and the room is walled
      everywhere on its border except there, with floor inside. */
  predicate DoorCell(r: Room, da: int, db: int)
  {
    && WellFormed(r)
    && 0 <= da < r.width && 0 <= db < r.height
    && OnBorder(r.width, r.height, da, db)
    && !IsCorner(r.width, r.height, da, db)
    && forall a, b :: 0 <= a < r.width && 0 <= b < r.height ==>
         r.contents[a][b] == ExpectedTile(r.width, r.height, da, db, a, b)
  }

  /** A bordered room with exactly one door, as freshly generated rooms are. */
  predicate OneDoorRoom(r: Room)
  {
    r.width >= 3 && r.height >= 3 &&
    exists da, db | 0 <= da < r.width && 0 <= db < r.height :: DoorCell(r, da, db)
  }

  /** A door cell, as the connectivity builder reads it: a border cell
      whose tile is passable. */
  predicate IsDoor(r: Room, a: int, b: int)
    requires WellFormed(r)
  {
    0 <= a < r.width && 0 <= b < r.height &&
    OnBorder(r.width, r.height, a, b) && Passable(r.contents[a][b])
  }

  /** In a one-door room the door is unique, and it is the only passable
      border cell. */
  lemma OneDoorIsUnique(r: Room, da: int, db: int)
    requires DoorCell(r, da, db)
    ensures forall a, b :: IsDoor(r, a, b) <==> a == da && b == db
    ensures forall a, b :: DoorCell(r, a, b) ==> a == da && b == db
  {
    forall a, b | DoorCell(r, a, b)
      ensures a == da && b == db
    {
      assert r.contents[a][b] == ExpectedTile(r.width, r.height, da, db, a, b);
    }
  }

  /** Where side `side` (0 left, 1 top, 2 right, 3 bottom) with offset
      `k` along it puts the door. */
  function DoorPosition(width: int, height: int, side: int, k: int): Point
  {
    if side == 0 then Point(0, 1 + k)
    else if side == 1 then Point(1 + k, 0)
    else if side == 2 then Point(width - 1, 1 + k)
    else Point(1 + k, height - 1)
  }

  /** Cell `(a, b)` lies on side `side` (0 left, 1 top, 2 right, 3 bottom). */
  predicate OnSide(width: int, height: int, side: int, a: int, b: int)
  {
    if side == 0 then a == 0
    else if side == 1 then b == 0
    else if side == 2 then a == width - 1
    else b == height - 1
  }

  /** Border cells are walls, interior cells floor. */
  function Walled(width: nat, height: nat): seq<seq<Tile>>
  {
    seq(width, a => seq(height, b => if OnBorder(width, height, a, b) then WallTile else FloorTile))
  }

  /** Builds a fresh `width` x `height` room at the origin: walls all round,
      then one door on a side drawn from the stream, at an offset drawn
      along that side that skips both corners. Returns the room and the
      advanced stream position. */
  function GenerateRoomContents(width: int, height: int, s: Stream, pos: nat): (res: (Room, nat))
    requires width >= 3 && height >= 3
    ensures OneDoorRoom(res.0)
    ensures exists da, db :: DoorCell(res.0, da, db) && OnSide(width, height, NextInt(s, pos, 4), da, db)
    ensures var side := NextInt(s, pos, 4);
            var offset := NextInt(s, pos + 1, if side == 0 || side == 2 then height - 2 else width - 2);
            var door := DoorPosition(width, height, side, offset);
            DoorCell(res.0, door.x, door.y)
    ensures res.0.width == width && res.0.height == height && res.0.x == 0 && res.0.y == 0
    ensures res.1 == pos + 2
  {
    var side := NextInt(s, pos, 4);
    var span := if side == 0 || side == 2 then height - 2 else width - 2;
    var door := DoorPosition(width, height, side, NextInt(s, pos + 1, span));
    var walls := Walled(width, height);
    var contents := walls[door.x := walls[door.x][door.y := FloorTile]];
    var room := Room(width, height, 0, 0, contents);
    assert DoorCell(room, door.x, door.y) && OnSide(width, height, side, door.x, door.y);
    (room, pos + 2)
  }

  /** A turned one-door room is again a one-door room, its door transposed. */
  lemma RotateKeepsOneDoor(r: Room, da: int, db: int)
    requires DoorCell(r, da, db)
    ensures DoorCell(Rotate(r), db, da)
    ensures OneDoorRoom(r) ==> OneDoorRoom(Rotate(r))
  {
    var t := Rotate(r);
    forall a, b | 0 <= a < t.width && 0 <= b < t.height
      ensures t.contents[a][b] == ExpectedTile(t.width, t.height, db, da, a, b)
    {
      assert t.contents[a][b] == r.contents[b][a];
    }
    assert DoorCell(t, db, da);
  }
}
