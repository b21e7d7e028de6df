/**
 The connectivity builder: door points are collected from the placed
 rooms, a triangulation of them (supplied from outside) is thinned by
 dropping each triangle's highest-scoring edge, and the surviving pairs
 become the corridors to carve.
 */
module Connectivity {
  import opened Geometry
  import opened Tiles
  import opened Rooms

  // ---------------------------------------------------------------------
  // Door points

  /** Door points of column `a` of the room, scanning rows from `b` down,
      in world coordinates. */
  function ColumnDoors(r: Room, a: int, b: int): (ps: seq<Point>)
    requires WellFormed(r) && 0 <= a < r.width && 0 <= b <= r.height
    ensures forall p :: p in ps <==> p.x == a + r.x && b <= p.y - r.y && IsDoor(r, a, p.y - r.y)
    decreases r.height - b
  {
    if b == r.height then []
    else (if IsDoor(r, a, b) then [Point(a + r.x, b + r.y)] else []) + ColumnDoors(r, a, b + 1)
  }

  /** Door points of columns `a` onwards, column by column. */
  function DoorsFrom(r: Room, a: int): (ps: seq<Point>)
    requires WellFormed(r) && 0 <= a <= r.width
    ensures forall p :: p in ps <==> a <= p.x - r.x && IsDoor(r, p.x - r.x, p.y - r.y)
    decreases r.width - a
  {
    if a == r.width then [] else ColumnDoors(r, a, 0) + DoorsFrom(r, a + 1)
  }

  /** Whether world point `p` is a door of room `r`. */
  predicate IsDoorPoint(r: Room, p: Point)
    requires WellFormed(r)
  {
    IsDoor(r, p.x - r.x, p.y - r.y)
  }

  /** Every passable border cell of the room, in world coordinates. */
  function RoomDoors(r: Room): (ps: seq<Point>)
    requires WellFormed(r)
    ensures forall p :: p in ps <==> IsDoorPoint(r, p)
  {
    DoorsFrom(r, 0)
  }

  /** The door points of all placed rooms, room by room in placement order. */
  function DoorPoints(rooms: seq<Room>): (ps: seq<Point>)
    requires AllWellFormed(rooms)
    ensures forall p :: p in ps <==> exists i :: 0 <= i < |rooms| && IsDoorPoint(rooms[i], p)
  {
    if |rooms| == 0 then []
    else
      var n := |rooms| - 1;
      var init := DoorPoints(rooms[..n]);
      assert forall i :: 0 <= i < n ==> rooms[..n][i] == rooms[i];
      init + RoomDoors(rooms[n])
  }

  lemma {:induction false} OneDoorColumn(r: Room, da: int, db: int, a: int, b: int)
    requires DoorCell(r, da, db) && 0 <= a < r.width && 0 <= b <= r.height
    ensures ColumnDoors(r, a, b) == if a == da && b <= db then [Point(r.x + da, r.y + db)] else []
    decreases r.height - b
  {
    OneDoorIsUnique(r, da, db);
    if b < r.height {
      OneDoorColumn(r, da, db, a, b + 1);
    }
  }

  lemma {:induction false} OneDoorColumns(r: Room, da: int, db: int, a: int)
    requires DoorCell(r, da, db) && 0 <= a <= r.width
    ensures DoorsFrom(r, a) == if a <= da then [Point(r.x + da, r.y + db)] else []
    decreases r.width - a
  {
    if a < r.width {
      OneDoorColumn(r, da, db, a, 0);
      OneDoorColumns(r, da, db, a + 1);
    }
  }

  /** A one-door room contributes exactly one door point: its door. */
  lemma OneDoorRoomHasOneDoorPoint(r: Room, da: int, db: int)
    requires DoorCell(r, da, db)
    ensures RoomDoors(r) == [Point(r.x + da, r.y + db)]
  {
    OneDoorColumns(r, da, db, 0);
  }

  // ---------------------------------------------------------------------
  // Edge selection

  /** A triangle of the triangulation, vertices in the order the
      triangulation reports them. */
  datatype Triangle = Triangle(v0: Point, v1: Point, v2: Point)

  /** A candidate corridor between two points, as an ordered pair. */
  datatype Edge = Edge(p1: Point, p2: Point)

  /** The score `calculatePaths` ranks a triangle's edges by: any
      real-valued function of an ordered pair. The generator's own score
      (`SourceScore`) is not a distance, so the dropped edge need not be
      the longest one. */
  type Score = (Point, Point) -> real

  /** Edge 0 joins v0-v1, edge 1 v0-v2, edge 2 v1-v2. */
  function EdgeAt(t: Triangle, k: int): Edge
  {
    if k == 0 then Edge(t.v0, t.v1) else if k == 1 then Edge(t.v0, t.v2) else Edge(t.v1, t.v2)
  }

  function EdgeScore(score: Score, t: Triangle, k: int): real
  {
    score(EdgeAt(t, k).p1, EdgeAt(t, k).p2)
  }

  /** The edge the triangle drops: a highest-scoring one, the first of
      them on a tie, since a later edge replaces the current one only
      when it scores strictly more. */
  function DroppedEdge(t: Triangle, score: Score): (k: int)
    ensures 0 <= k < 3
    ensures forall j :: 0 <= j < 3 ==> EdgeScore(score, t, j) <= EdgeScore(score, t, k)
    ensures forall j :: 0 <= j < k ==> EdgeScore(score, t, j) < EdgeScore(score, t, k)
  {
    var d01 := score(t.v0, t.v1);
    var d02 := score(t.v0, t.v2);
    var d12 := score(t.v1, t.v2);
    var first := if d01 < d02 then 1 else 0;
    var dist := if d01 < d02 then d02 else d01;
    if dist < d12 then 2 else first
  }

  /** The edge records the unordered pair {p1, p2}. */
  predicate SamePair(e: Edge, p1: Point, p2: Point)
  {
    (e.p1 == p1 && e.p2 == p2) || (e.p1 == p2 && e.p2 == p1)
  }

  /** Whether the list already records the unordered pair {p1, p2}; both
      the ignored-list and the added-list lookups are this search. */
  function Known(list: seq<Edge>, p1: Point, p2: Point): (found: bool)
    ensures found <==> exists i :: 0 <= i < |list| && SamePair(list[i], p1, p2)
    ensures found <==> exists i :: 0 <= i < |list| && SamePair(list[i], p2, p1)
  {
    if |list| == 0 then false
    else if list[0].p1 == p1 && list[0].p2 == p2 then true
    else if list[0].p1 == p2 && list[0].p2 == p1 then true
    else
      var rest := Known(list[1..], p1, p2);
      assert rest <==> exists i :: 1 <= i < |list| && SamePair(list[i], p1, p2) by {
        if rest {
          var i :| 0 <= i < |list[1..]| && SamePair(list[1..][i], p1, p2);
          assert list[1..][i] == list[i + 1];
        }
        if exists i :: 1 <= i < |list| && SamePair(list[i], p1, p2) {
          var i :| 1 <= i < |list| && SamePair(list[i], p1, p2);
          assert list[1..][i - 1] == list[i];
        }
      }
      rest
  }

  /** The three lists threaded through edge selection. */
  datatype EdgeLists = EdgeLists(paths: seq<Edge>, ignored: seq<Edge>, added: seq<Edge>)

  const NoEdges := EdgeLists([], [], [])

  /** A point a corridor may not end at: outside `[0, width-1) x [0, height-1)`. */
  predicate OutOfBounds(p: Point, width: int, height: int)
  {
    p.x < 0 || p.y < 0 || p.x >= width - 1 || p.y >= height - 1
  }

  /** Records the pair as a corridor when both ends are in bounds, and as
      ignored otherwise. */
  function AddPath(lists: EdgeLists, p1: Point, p2: Point, width: int, height: int): (r: EdgeLists)
    ensures var e := Edge(p1, p2);
            if OutOfBounds(p1, width, height) || OutOfBounds(p2, width, height)
            then r.paths == lists.paths && r.added == lists.added && r.ignored == lists.ignored + [e]
            else r.paths == lists.paths + [e] && r.added == lists.added + [e] && r.ignored == lists.ignored
  {
    var e := Edge(p1, p2);
    if OutOfBounds(p1, width, height) || OutOfBounds(p2, width, height) then
      lists.(ignored := lists.ignored + [e])
    else
      lists.(added := lists.added + [e], paths := lists.paths + [e])
  }

  /** One edge of a triangle: added unless it is the dropped edge or its
      pair is already known as ignored or added; otherwise ignored. */
  function ConsiderEdge(lists: EdgeLists, e: Edge, dropped: bool, width: int, height: int): EdgeLists
  {
    if !dropped && !Known(lists.ignored, e.p1, e.p2) && !Known(lists.added, e.p1, e.p2) then
      AddPath(lists, e.p1, e.p2, width, height)
    else
      lists.(ignored := lists.ignored + [e])
  }

  /** Classifies the three edges of one triangle, in edge order. */
  function CalculatePaths(lists: EdgeLists, t: Triangle, score: Score, width: int, height: int): EdgeLists
  {
    var ignore := DroppedEdge(t, score);
    var l0 := ConsiderEdge(lists, EdgeAt(t, 0), ignore == 0, width, height);
    var l1 := ConsiderEdge(l0, EdgeAt(t, 1), ignore == 1, width, height);
    ConsiderEdge(l1, EdgeAt(t, 2), ignore == 2, width, height)
  }

  /** Edge selection over all triangles in the order given. */
  function SelectEdges(lists: EdgeLists, triangles: seq<Triangle>, score: Score,
                       width: int, height: int): EdgeLists
    decreases |triangles|
  {
    if |triangles| == 0 then lists
    else SelectEdges(CalculatePaths(lists, triangles[0], score, width, height), triangles[1..], score, width, height)
  }

  /** No unordered pair occurs twice. */
  predicate NoRepeatedPair(ps: seq<Edge>)
  {
    forall i, j :: 0 <= i < j < |ps| ==> !SamePair(ps[j], ps[i].p1, ps[i].p2)
  }

  /** The corridor list mirrors the added list, repeats no pair, and
      every corridor has both ends in bounds. */
  predicate Consistent(lists: EdgeLists, width: int, height: int)
  {
    && lists.paths == lists.added
    && NoRepeatedPair(lists.paths)
    && forall i :: 0 <= i < |lists.paths| ==>
         !OutOfBounds(lists.paths[i].p1, width, height) && !OutOfBounds(lists.paths[i].p2, width, height)
  }

  /** Considering one edge only ever appends to the corridor list, at
      most that edge and only when it is not the dropped one; afterwards
      the pair is known as ignored or as added. The edge is appended
      exactly when it is not dropped, its pair is on neither list, and
      both its ends are in bounds. */
  lemma ConsiderEdgeAppends(lists: EdgeLists, e: Edge, dropped: bool, width: int, height: int)
    ensures var r := ConsiderEdge(lists, e, dropped, width, height);
            && (r.paths == lists.paths || (!dropped && r.paths == lists.paths + [e]))
            && (Known(r.ignored, e.p1, e.p2) || Known(r.added, e.p1, e.p2))
            && (r.paths == lists.paths + [e] <==>
                  && !dropped && !Known(lists.ignored, e.p1, e.p2) && !Known(lists.added, e.p1, e.p2)
                  && !OutOfBounds(e.p1, width, height) && !OutOfBounds(e.p2, width, height))
  {
    var r := ConsiderEdge(lists, e, dropped, width, height);
    if r.ignored != lists.ignored {
      assert r.ignored[|r.ignored| - 1] == e;
    } else if r.added != lists.added {
      assert r.added[|r.added| - 1] == e;
    }
  }

  /** Considering one edge keeps the lists consistent. */
  lemma ConsiderEdgeKeepsConsistent(lists: EdgeLists, e: Edge, dropped: bool, width: int, height: int)
    requires Consistent(lists, width, height)
    ensures Consistent(ConsiderEdge(lists, e, dropped, width, height), width, height)
  {
    var r := ConsiderEdge(lists, e, dropped, width, height);
    if r.paths != lists.paths {
      assert !Known(lists.added, e.p1, e.p2);
      forall i, j | 0 <= i < j < |r.paths|
        ensures !SamePair(r.paths[j], r.paths[i].p1, r.paths[i].p2)
      {
        if j == |lists.paths| {
          assert r.paths[j] == e && r.paths[i] == lists.added[i];
        }
      }
    }
  }

  /** A triangle with three distinct vertices has three distinct unordered
      edge pairs. */
  predicate DistinctVertices(t: Triangle)
  {
    t.v0 != t.v1 && t.v0 != t.v2 && t.v1 != t.v2
  }

  /** Classifying one triangle keeps the lists consistent. */
  lemma CalculatePathsConsistent(lists: EdgeLists, t: Triangle, score: Score, width: int, height: int)
    requires Consistent(lists, width, height)
    ensures Consistent(CalculatePaths(lists, t, score, width, height), width, height)
  {
    var ignore := DroppedEdge(t, score);
    var l0 := ConsiderEdge(lists, EdgeAt(t, 0), ignore == 0, width, height);
    var l1 := ConsiderEdge(l0, EdgeAt(t, 1), ignore == 1, width, height);
    ConsiderEdgeKeepsConsistent(lists, EdgeAt(t, 0), ignore == 0, width, height);
    ConsiderEdgeKeepsConsistent(l0, EdgeAt(t, 1), ignore == 1, width, height);
    ConsiderEdgeKeepsConsistent(l1, EdgeAt(t, 2), ignore == 2, width, height);
  }

  /** `e` is an edge of `t` other than edge `ignore`. */
  predicate Kept(e: Edge, t: Triangle, ignore: int)
  {
    exists k :: 0 <= k < 3 && k != ignore && e == EdgeAt(t, k)
  }

  /** `after` is `before` followed only by edges of `t` other than `ignore`. */
  predicate ExtendsWith(before: seq<Edge>, after: seq<Edge>, t: Triangle, ignore: int)
  {
    |before| <= |after| && after[..|before|] == before &&
    forall i :: |before| <= i < |after| ==> Kept(after[i], t, ignore)
  }

  lemma ExtendsStep(before: seq<Edge>, mid: seq<Edge>, after: seq<Edge>, t: Triangle, ignore: int, k: int)
    requires ExtendsWith(before, mid, t, ignore)
    requires 0 <= k < 3
    requires after == mid || (k != ignore && after == mid + [EdgeAt(t, k)])
    ensures ExtendsWith(before, after, t, ignore)
  {
    if after != mid {
      assert after[..|mid|] == mid;
      assert Kept(after[|mid|], t, ignore);
    }
  }

  /** In a triangle with distinct vertices, an edge other than the dropped
      one never records the dropped edge's pair. */
  lemma KeptIsNotDropped(e: Edge, t: Triangle, ignore: int)
    requires Kept(e, t, ignore) && DistinctVertices(t) && 0 <= ignore < 3
    ensures !SamePair(e, EdgeAt(t, ignore).p1, EdgeAt(t, ignore).p2)
  {
  }

  /** Each corridor a triangle appends is one of its edges other than the
      dropped one, and, when the vertices are distinct, never the dropped
      edge's pair. */
  lemma CalculatePathsSkipsDropped(lists: EdgeLists, t: Triangle, score: Score, width: int, height: int)
    ensures var r := CalculatePaths(lists, t, score, width, height);
            var ignore := DroppedEdge(t, score);
            && ExtendsWith(lists.paths, r.paths, t, ignore)
            && (DistinctVertices(t) ==>
                  forall i :: |lists.paths| <= i < |r.paths| ==>
                    !SamePair(r.paths[i], EdgeAt(t, ignore).p1, EdgeAt(t, ignore).p2))
  {
    var ignore := DroppedEdge(t, score);
    var l0 := ConsiderEdge(lists, EdgeAt(t, 0), ignore == 0, width, height);
    var l1 := ConsiderEdge(l0, EdgeAt(t, 1), ignore == 1, width, height);
    var r := ConsiderEdge(l1, EdgeAt(t, 2), ignore == 2, width, height);
    ConsiderEdgeAppends(lists, EdgeAt(t, 0), ignore == 0, width, height);
    ConsiderEdgeAppends(l0, EdgeAt(t, 1), ignore == 1, width, height);
    ConsiderEdgeAppends(l1, EdgeAt(t, 2), ignore == 2, width, height);
    assert lists.paths[..|lists.paths|] == lists.paths;
    ExtendsStep(lists.paths, lists.paths, l0.paths, t, ignore, 0);
    ExtendsStep(lists.paths, l0.paths, l1.paths, t, ignore, 1);
    ExtendsStep(lists.paths, l1.paths, r.paths, t, ignore, 2);
    if DistinctVertices(t) {
      forall i | |lists.paths| <= i < |r.paths|
        ensures !SamePair(r.paths[i], EdgeAt(t, ignore).p1, EdgeAt(t, ignore).p2)
      {
        KeptIsNotDropped(r.paths[i], t, ignore);
      }
    }
  }

  /** Every corridor came from a non-dropped edge of some triangle. */
  predicate FromTriangles(e: Edge, triangles: seq<Triangle>, score: Score)
  {
    exists j, k :: 0 <= j < |triangles| && 0 <= k < 3 && k != DroppedEdge(triangles[j], score) &&
                   e == EdgeAt(triangles[j], k)
  }

  /** Edge selection over all triangles yields corridors that repeat no
      unordered pair, have both ends in bounds, and each come from an edge
      some triangle did not drop. */
  lemma {:induction false} SelectEdgesSound(lists: EdgeLists, triangles: seq<Triangle>, score: Score,
                                            width: int, height: int)
    requires Consistent(lists, width, height)
    ensures var r := SelectEdges(lists, triangles, score, width, height);
            && Consistent(r, width, height)
            && |lists.paths| <= |r.paths| && r.paths[..|lists.paths|] == lists.paths
            && forall i :: |lists.paths| <= i < |r.paths| ==> FromTriangles(r.paths[i], triangles, score)
    decreases |triangles|
  {
    if |triangles| > 0 {
      var t := triangles[0];
      var next := CalculatePaths(lists, t, score, width, height);
      CalculatePathsConsistent(lists, t, score, width, height);
      CalculatePathsSkipsDropped(lists, t, score, width, height);
      SelectEdgesSound(next, triangles[1..], score, width, height);
      var r := SelectEdges(lists, triangles, score, width, height);
      assert r == SelectEdges(next, triangles[1..], score, width, height);
      forall i | |lists.paths| <= i < |r.paths|
        ensures FromTriangles(r.paths[i], triangles, score)
      {
        if i < |next.paths| {
          assert r.paths[i] == next.paths[i];
          assert Kept(next.paths[i], t, DroppedEdge(t, score));
          var k :| 0 <= k < 3 && k != DroppedEdge(t, score) && next.paths[i] == EdgeAt(t, k);
          assert triangles[0] == t;
        } else {
          var j, k :| 0 <= j < |triangles[1..]| && 0 <= k < 3 && k != DroppedEdge(triangles[1..][j], score) &&
                      r.paths[i] == EdgeAt(triangles[1..][j], k);
          assert triangles[1..][j] == triangles[j + 1];
        }
      }
    }
  }

  /** The dropped pair of a triangle is always recorded as ignored, even
      when an earlier triangle already added it. */
  lemma CalculatePathsIgnoresDropped(lists: EdgeLists, t: Triangle, score: Score, width: int, height: int)
    ensures var ignore := DroppedEdge(t, score);
            Known(CalculatePaths(lists, t, score, width, height).ignored, EdgeAt(t, ignore).p1, EdgeAt(t, ignore).p2)
  {
    var ignore := DroppedEdge(t, score);
    var e := EdgeAt(t, ignore);
    var l0 := ConsiderEdge(lists, EdgeAt(t, 0), ignore == 0, width, height);
    var l1 := ConsiderEdge(l0, EdgeAt(t, 1), ignore == 1, width, height);
    var r := ConsiderEdge(l1, EdgeAt(t, 2), ignore == 2, width, height);
    var before := if ignore == 0 then lists else if ignore == 1 then l0 else l1;
    var after := if ignore == 0 then l0 else if ignore == 1 then l1 else r;
    assert after.ignored == before.ignored + [e];
    assert after.ignored[|before.ignored|] == e;
    assert r.ignored[..|after.ignored|] == after.ignored;
    assert r.ignored[|before.ignored|] == e;
  }

  /** A pair already on the ignored list stays there and is never added
      as a corridor by a later edge, whichever way round that edge names it. */
  lemma ConsiderEdgeSkipsIgnored(lists: EdgeLists, e: Edge, dropped: bool, width: int, height: int,
                                 p: Point, q: Point)
    requires Known(lists.ignored, p, q)
    ensures var r := ConsiderEdge(lists, e, dropped, width, height);
            && Known(r.ignored, p, q)
            && (r.paths == lists.paths || (r.paths == lists.paths + [e] && !SamePair(e, p, q)))
  {
    var r := ConsiderEdge(lists, e, dropped, width, height);
    var i :| 0 <= i < |lists.ignored| && SamePair(lists.ignored[i], p, q);
    assert r.ignored[..|lists.ignored|] == lists.ignored;
    assert r.ignored[i] == lists.ignored[i];
  }

  /** `after` extends `before` with corridors none of which records the
      pair {p, q}. */
  predicate AvoidsPair(before: seq<Edge>, after: seq<Edge>, p: Point, q: Point)
  {
    |before| <= |after| && after[..|before|] == before &&
    forall i :: |before| <= i < |after| ==> !SamePair(after[i], p, q)
  }

  lemma AvoidsPairTrans(a: seq<Edge>, b: seq<Edge>, c: seq<Edge>, p: Point, q: Point)
    requires AvoidsPair(a, b, p, q) && AvoidsPair(b, c, p, q)
    ensures AvoidsPair(a, c, p, q)
  {
    assert c[..|b|][..|a|] == c[..|a|];
    forall i | |a| <= i < |c|
      ensures !SamePair(c[i], p, q)
    {
      if i < |b| {
        assert c[i] == c[..|b|][i];
      }
    }
  }

  /** One triangle adds no corridor for a pair already ignored, and the
      pair stays ignored. */
  lemma CalculatePathsSkipsIgnored(lists: EdgeLists, t: Triangle, score: Score, width: int, height: int,
                                   p: Point, q: Point)
    requires Known(lists.ignored, p, q)
    ensures var r := CalculatePaths(lists, t, score, width, height);
            Known(r.ignored, p, q) && AvoidsPair(lists.paths, r.paths, p, q)
  {
    var ignore := DroppedEdge(t, score);
    var l0 := ConsiderEdge(lists, EdgeAt(t, 0), ignore == 0, width, height);
    var l1 := ConsiderEdge(l0, EdgeAt(t, 1), ignore == 1, width, height);
    var r := ConsiderEdge(l1, EdgeAt(t, 2), ignore == 2, width, height);
    ConsiderEdgeSkipsIgnored(lists, EdgeAt(t, 0), ignore == 0, width, height, p, q);
    ConsiderEdgeSkipsIgnored(l0, EdgeAt(t, 1), ignore == 1, width, height, p, q);
    ConsiderEdgeSkipsIgnored(l1, EdgeAt(t, 2), ignore == 2, width, height, p, q);
    assert AvoidsPair(lists.paths, l0.paths, p, q);
    assert AvoidsPair(l0.paths, l1.paths, p, q);
    assert AvoidsPair(l1.paths, r.paths, p, q);
    AvoidsPairTrans(lists.paths, l0.paths, l1.paths, p, q);
    AvoidsPairTrans(lists.paths, l1.paths, r.paths, p, q);
  }

  /** Over any run of triangles, a pair that is already ignored never
      becomes a corridor: the ignored-list lookup guards every addition. */
  lemma {:induction false} SelectEdgesSkipsIgnored(lists: EdgeLists, triangles: seq<Triangle>, score: Score,
                                                   width: int, height: int, p: Point, q: Point)
    requires Known(lists.ignored, p, q)
    ensures AvoidsPair(lists.paths, SelectEdges(lists, triangles, score, width, height).paths, p, q)
    decreases |triangles|
  {
    if |triangles| > 0 {
      var next := CalculatePaths(lists, triangles[0], score, width, height);
      CalculatePathsSkipsIgnored(lists, triangles[0], score, width, height, p, q);
      SelectEdgesSkipsIgnored(next, triangles[1..], score, width, height, p, q);
      AvoidsPairTrans(lists.paths, next.paths, SelectEdges(next, triangles[1..], score, width, height).paths, p, q);
    } else {
      assert lists.paths[..|lists.paths|] == lists.paths;
    }
  }

  /** Selecting over two runs of triangles is selecting over the first and
      then continuing with the second. */
  lemma {:induction false} SelectEdgesSplit(lists: EdgeLists, a: seq<Triangle>, b: seq<Triangle>, score: Score,
                                            width: int, height: int)
    ensures SelectEdges(lists, a + b, score, width, height)
            == SelectEdges(SelectEdges(lists, a, score, width, height), b, score, width, height)
    decreases |a|
  {
    if |a| > 0 {
      assert (a + b)[0] == a[0] && (a + b)[1..] == a[1..] + b;
      SelectEdgesSplit(CalculatePaths(lists, a[0], score, width, height), a[1..], b, score, width, height);
    } else {
      assert a + b == b;
    }
  }

  /** The dropped edge of a triangle with distinct vertices never becomes a
      corridor from that triangle on: the triangle itself skips it and puts
      it on the ignored list, which then guards every later triangle. */
  lemma DroppedNeverAddedLater(lists: EdgeLists, triangles: seq<Triangle>, score: Score,
                               width: int, height: int, j: int)
    requires 0 <= j < |triangles| && DistinctVertices(triangles[j])
    ensures var before := SelectEdges(lists, triangles[..j], score, width, height);
            var r := SelectEdges(lists, triangles, score, width, height);
            var e := EdgeAt(triangles[j], DroppedEdge(triangles[j], score));
            && |before.paths| <= |r.paths|
            && forall i :: |before.paths| <= i < |r.paths| ==> !SamePair(r.paths[i], e.p1, e.p2)
  {
    var t := triangles[j];
    var e := EdgeAt(t, DroppedEdge(t, score));
    var before := SelectEdges(lists, triangles[..j], score, width, height);
    var mid := CalculatePaths(before, t, score, width, height);
    assert triangles == triangles[..j] + triangles[j..];
    SelectEdgesSplit(lists, triangles[..j], triangles[j..], score, width, height);
    assert triangles[j..][0] == t;
    var r := SelectEdges(mid, triangles[j + 1..], score, width, height);
    assert triangles[j..][1..] == triangles[j + 1..];
    assert SelectEdges(lists, triangles, score, width, height) == r;
    CalculatePathsSkipsDropped(before, t, score, width, height);
    CalculatePathsIgnoresDropped(before, t, score, width, height);
    SelectEdgesSkipsIgnored(mid, triangles[j + 1..], score, width, height, e.p1, e.p2);
    forall i | |before.paths| <= i < |r.paths|
      ensures !SamePair(r.paths[i], e.p1, e.p2)
    {
      if i < |mid.paths| {
        assert r.paths[i] == mid.paths[i];
      }
    }
  }

  /** Two to the power `e`, exactly, for any integer `e`. */
  function Pow2(e: int): (r: real)
    ensures r > 0.0
    decreases if e < 0 then -e else e
  {
    if e == 0 then 1.0
    else if e > 0 then 2.0 * Pow2(e - 1)
    else Pow2(e + 1) / 2.0
  }

  /** The score the generator uses, `2^(dx) + 2^(dy)` with signed
      differences, computed exactly (the generator's floating-point
      version overflows for very distant points). */
  function SourceScore(p: Point, q: Point): real
  {
    Pow2(p.x - q.x) + Pow2(p.y - q.y)
  }

  /** A list extended at the end still knows every pair it knew. */
  lemma KnownPrefix(a: seq<Edge>, b: seq<Edge>, p: Point, q: Point)
    requires |a| <= |b| && b[..|a|] == a && Known(a, p, q)
    ensures Known(b, p, q)
  {
    var i :| 0 <= i < |a| && SamePair(a[i], p, q);
    assert b[i] == b[..|a|][i];
  }

  /** Appending a single edge adds exactly that edge's pair. */
  lemma KnownSnoc(a: seq<Edge>, e: Edge, p: Point, q: Point)
    ensures Known(a + [e], p, q) <==> Known(a, p, q) || SamePair(e, p, q)
  {
    if Known(a + [e], p, q) {
      var i :| 0 <= i < |a + [e]| && SamePair((a + [e])[i], p, q);
      if i < |a| {
        assert (a + [e])[i] == a[i];
      }
    }
    if Known(a, p, q) {
      var i :| 0 <= i < |a| && SamePair(a[i], p, q);
      assert (a + [e])[i] == a[i];
    }
    if SamePair(e, p, q) {
      assert (a + [e])[|a|] == e;
    }
  }

  /** The corridor list mirrors the added list, as it does from the start. */
  predicate MirrorsAdded(lists: EdgeLists)
  {
    lists.paths == lists.added
  }

  /** Considering an edge that records a different pair leaves the
      ignored-list status of {p, q} as it was, keeps the corridor list
      mirroring the added list, and only extends the corridor list. */
  lemma ConsiderOtherEdge(lists: EdgeLists, e: Edge, dropped: bool, width: int, height: int,
                          p: Point, q: Point)
    requires MirrorsAdded(lists) && !SamePair(e, p, q)
    ensures var r := ConsiderEdge(lists, e, dropped, width, height);
            && MirrorsAdded(r)
            && (Known(r.ignored, p, q) <==> Known(lists.ignored, p, q))
            && |lists.paths| <= |r.paths| && r.paths[..|lists.paths|] == lists.paths
  {
    var r := ConsiderEdge(lists, e, dropped, width, height);
    if r.ignored != lists.ignored {
      KnownSnoc(lists.ignored, e, p, q);
    }
    assert r.paths[..|lists.paths|] == lists.paths;
  }

  /** One edge that is not dropped, whose pair is not ignored and whose
      ends are in bounds is a corridor afterwards: appended now, or
      already there because it was added before. */
  lemma ConsiderEdgeAdds(lists: EdgeLists, e: Edge, dropped: bool, width: int, height: int)
    requires MirrorsAdded(lists) && !dropped && !Known(lists.ignored, e.p1, e.p2)
    requires !OutOfBounds(e.p1, width, height) && !OutOfBounds(e.p2, width, height)
    ensures var r := ConsiderEdge(lists, e, dropped, width, height);
            && MirrorsAdded(r) && Known(r.paths, e.p1, e.p2)
            && |lists.paths| <= |r.paths| && r.paths[..|lists.paths|] == lists.paths
  {
    var r := ConsiderEdge(lists, e, dropped, width, height);
    KnownSnoc(lists.paths, e, e.p1, e.p2);
    assert r.paths[..|lists.paths|] == lists.paths;
  }

  /** Edges `k` and `m` of a triangle with distinct vertices record
      different pairs. */
  lemma DistinctEdges(t: Triangle, k: int, m: int)
    requires DistinctVertices(t) && 0 <= k < 3 && 0 <= m < 3 && k != m
    ensures !SamePair(EdgeAt(t, m), EdgeAt(t, k).p1, EdgeAt(t, k).p2)
  {
  }

  /** One triangle makes each of its kept, in-bounds edges a corridor
      unless that pair was already ignored. */
  lemma CalculatePathsAdds(lists: EdgeLists, t: Triangle, score: Score, width: int, height: int, k: int)
    requires MirrorsAdded(lists) && DistinctVertices(t)
    requires 0 <= k < 3 && k != DroppedEdge(t, score)
    requires !Known(lists.ignored, EdgeAt(t, k).p1, EdgeAt(t, k).p2)
    requires !OutOfBounds(EdgeAt(t, k).p1, width, height) && !OutOfBounds(EdgeAt(t, k).p2, width, height)
    ensures var r := CalculatePaths(lists, t, score, width, height);
            MirrorsAdded(r) && Known(r.paths, EdgeAt(t, k).p1, EdgeAt(t, k).p2)
  {
    var ignore := DroppedEdge(t, score);
    var e := EdgeAt(t, k);
    var l0 := ConsiderEdge(lists, EdgeAt(t, 0), ignore == 0, width, height);
    var l1 := ConsiderEdge(l0, EdgeAt(t, 1), ignore == 1, width, height);
    var r := ConsiderEdge(l1, EdgeAt(t, 2), ignore == 2, width, height);
    if k == 0 {
      ConsiderEdgeAdds(lists, e, ignore == 0, width, height);
      DistinctEdges(t, k, 1);
      ConsiderOtherEdge(l0, EdgeAt(t, 1), ignore == 1, width, height, e.p1, e.p2);
      DistinctEdges(t, k, 2);
      ConsiderOtherEdge(l1, EdgeAt(t, 2), ignore == 2, width, height, e.p1, e.p2);
      KnownPrefix(l0.paths, l1.paths, e.p1, e.p2);
      KnownPrefix(l1.paths, r.paths, e.p1, e.p2);
    } else if k == 1 {
      DistinctEdges(t, k, 0);
      ConsiderOtherEdge(lists, EdgeAt(t, 0), ignore == 0, width, height, e.p1, e.p2);
      ConsiderEdgeAdds(l0, e, ignore == 1, width, height);
      DistinctEdges(t, k, 2);
      ConsiderOtherEdge(l1, EdgeAt(t, 2), ignore == 2, width, height, e.p1, e.p2);
      KnownPrefix(l1.paths, r.paths, e.p1, e.p2);
    } else {
      DistinctEdges(t, k, 0);
      ConsiderOtherEdge(lists, EdgeAt(t, 0), ignore == 0, width, height, e.p1, e.p2);
      DistinctEdges(t, k, 1);
      ConsiderOtherEdge(l0, EdgeAt(t, 1), ignore == 1, width, height, e.p1, e.p2);
      ConsiderEdgeAdds(l1, e, ignore == 2, width, height);
    }
  }

  /** One triangle keeps the corridor list mirroring the added list and
      forgets no corridor. */
  lemma CalculatePathsKeeps(lists: EdgeLists, t: Triangle, score: Score, width: int, height: int,
                            p: Point, q: Point)
    requires MirrorsAdded(lists)
    ensures var r := CalculatePaths(lists, t, score, width, height);
            MirrorsAdded(r) && (Known(lists.paths, p, q) ==> Known(r.paths, p, q))
  {
    var r := CalculatePaths(lists, t, score, width, height);
    CalculatePathsSkipsDropped(lists, t, score, width, height);
    if Known(lists.paths, p, q) {
      KnownPrefix(lists.paths, r.paths, p, q);
    }
  }

  /** Over any run of triangles the corridor list keeps mirroring the added
      list, and a pair that is a corridor stays one. */
  lemma {:induction false} SelectEdgesKeeps(lists: EdgeLists, triangles: seq<Triangle>, score: Score,
                                            width: int, height: int, p: Point, q: Point)
    requires MirrorsAdded(lists)
    ensures var r := SelectEdges(lists, triangles, score, width, height);
            MirrorsAdded(r) && (Known(lists.paths, p, q) ==> Known(r.paths, p, q))
    decreases |triangles|
  {
    if |triangles| > 0 {
      var next := CalculatePaths(lists, triangles[0], score, width, height);
      CalculatePathsKeeps(lists, triangles[0], score, width, height, p, q);
      SelectEdgesKeeps(next, triangles[1..], score, width, height, p, q);
    }
  }

  /** The other half of edge selection: an edge that triangle `j` keeps,
      whose ends are in bounds and whose pair no earlier triangle put on
      the ignored list, is among the corridors in the end. Together with
      `SelectEdgesSkipsIgnored` this decides every kept edge. */
  lemma SelectEdgesAddsKept(lists: EdgeLists, triangles: seq<Triangle>, score: Score,
                            width: int, height: int, j: int, k: int)
    requires MirrorsAdded(lists)
    requires 0 <= j < |triangles| && DistinctVertices(triangles[j])
    requires 0 <= k < 3 && k != DroppedEdge(triangles[j], score)
    requires !OutOfBounds(EdgeAt(triangles[j], k).p1, width, height)
    requires !OutOfBounds(EdgeAt(triangles[j], k).p2, width, height)
    requires !Known(SelectEdges(lists, triangles[..j], score, width, height).ignored,
                    EdgeAt(triangles[j], k).p1, EdgeAt(triangles[j], k).p2)
    ensures Known(SelectEdges(lists, triangles, score, width, height).paths,
                  EdgeAt(triangles[j], k).p1, EdgeAt(triangles[j], k).p2)
  {
    var t := triangles[j];
    var e := EdgeAt(t, k);
    var before := SelectEdges(lists, triangles[..j], score, width, height);
    SelectEdgesKeeps(lists, triangles[..j], score, width, height, e.p1, e.p2);
    var mid := CalculatePaths(before, t, score, width, height);
    CalculatePathsAdds(before, t, score, width, height, k);
    assert triangles == triangles[..j] + triangles[j..];
    SelectEdgesSplit(lists, triangles[..j], triangles[j..], score, width, height);
    assert triangles[j..][0] == t && triangles[j..][1..] == triangles[j + 1..];
    assert SelectEdges(lists, triangles, score, width, height)
        == SelectEdges(mid, triangles[j + 1..], score, width, height);
    SelectEdgesKeeps(mid, triangles[j + 1..], score, width, height, e.p1, e.p2);
  }

  /** The squared Euclidean length of an edge. */
  function SquaredLength(e: Edge): int
  {
    (e.p1.x - e.p2.x) * (e.p1.x - e.p2.x) + (e.p1.y - e.p2.y) * (e.p1.y - e.p2.y)
  }

  /** Under the generator's score the dropped edge need not be the longest:
      in the triangle (10, 0), (0, 0), (10, 1) the edge of length 10 scores
      1025 and is dropped, while the edge of length sqrt(101) is kept. */
  lemma DroppedEdgeNeedNotBeLongest()
    ensures var t := Triangle(Point(10, 0), Point(0, 0), Point(10, 1));
            && DroppedEdge(t, SourceScore) == 0
            && SquaredLength(EdgeAt(t, 2)) > SquaredLength(EdgeAt(t, 0))
  {
    var t := Triangle(Point(10, 0), Point(0, 0), Point(10, 1));
    assert Pow2(0) == 1.0 && Pow2(-1) == 0.5 && Pow2(1) == 2.0;
    assert Pow2(10) == 1024.0;
    assert Pow2(-10) < 1.0;
    assert SourceScore(t.v0, t.v1) == 1025.0;
    assert SourceScore(t.v0, t.v2) == 1.5;
    assert SourceScore(t.v1, t.v2) < 2.0;
  }

  /** Under the generator's score, a pair added by one triangle can be
      recorded as ignored by the next: the added and ignored lists are
      not disjoint, although the pair is still never added twice. */
  lemma AddedAndIgnoredMayShareAPair()
    ensures var a, b := Point(5, 5), Point(3, 5);
            var t1 := Triangle(a, b, Point(1, 4));
            var t2 := Triangle(a, b, Point(5, 6));
            var r := SelectEdges(NoEdges, [t1, t2], SourceScore, 20, 20);
            Known(r.added, a, b) && Known(r.ignored, a, b) && DistinctVertices(t1) && DistinctVertices(t2)
  {
    var a, b, c, d := Point(5, 5), Point(3, 5), Point(1, 4), Point(5, 6);
    var t1 := Triangle(a, b, c);
    var t2 := Triangle(a, b, d);
    assert Pow2(1) == 2.0 && Pow2(2) == 4.0 && Pow2(4) == 16.0;
    assert Pow2(-1) == 0.5 && Pow2(-2) == 0.25;
    assert SourceScore(a, b) == 5.0 && SourceScore(a, c) == 18.0 && SourceScore(b, c) == 6.0;
    assert SourceScore(a, d) == 1.5 && SourceScore(b, d) == 0.75;
    assert DroppedEdge(t1, SourceScore) == 1;
    assert DroppedEdge(t2, SourceScore) == 0;
    var l1 := CalculatePaths(NoEdges, t1, SourceScore, 20, 20);
    assert l1.added == [Edge(a, b), Edge(b, c)];
    var l2 := CalculatePaths(l1, t2, SourceScore, 20, 20);
    assert l2.added[0] == Edge(a, b);
    assert l2.ignored[1] == Edge(a, b);
    assert [t1, t2][1..] == [t2] && [t2][1..] == [];
    assert SelectEdges(l2, [], SourceScore, 20, 20) == l2;
    assert SelectEdges(l1, [t2], SourceScore, 20, 20) == l2;
    assert SelectEdges(NoEdges, [t1, t2], SourceScore, 20, 20) == l2;
  }
}
