/**
 The recursive partitioner. A region gets padding on each axis, one room
 (docked from the pool of pre-authored rooms when one fits, possibly
 turned, otherwise freshly generated), a corner to anchor that room in,
 and is then split into two sub-rectangles that are partitioned in turn
 when both their sides reach the padded minimum room size.
 */
module Partition {
  import opened Geometry
  import opened Random
  import opened Rooms

  const MinPadding: int := 1
  const MaxPadding: int := 4
  const MinRoomSize: int := 6
  const MaxRoomSize: int := 15
  /** The smallest region side that is still partitioned. */
  const PaddedMinRoom: int := MinRoomSize + MinPadding * 2

  predicate Splittable(r: Rect)
  {
    r.width >= PaddedMinRoom && r.height >= PaddedMinRoom
  }

  /** The room, unturned, plus padding fits the region. */
  predicate FitsVertical(t: Room, width: int, height: int, padX: int, padY: int)
  {
    t.width + 2 * padX <= width && t.height + 2 * padY <= height
  }

  /** The room, turned, plus padding fits the region. */
  predicate FitsHorizontal(t: Room, width: int, height: int, padX: int, padY: int)
  {
    t.height + 2 * padX <= width && t.width + 2 * padY <= height
  }

  predicate Fits(t: Room, width: int, height: int, padX: int, padY: int)
  {
    FitsVertical(t, width, height, padX, padY) || FitsHorizontal(t, width, height, padX, padY)
  }

  /** Padding on an axis of length `size`: a draw in
      `[MinPadding, MaxPadding)`, clamped so that a minimum-size room still
      fits between the two pads. The operand of the halving is never
      negative here, so truncating and Euclidean division agree. */
  function Padding(size: int, s: Stream, pos: nat): (pad: int)
    requires size >= PaddedMinRoom
    ensures MinPadding <= pad < MaxPadding
    ensures MinRoomSize + 2 * pad <= size
    ensures pad <= NextInt(s, pos, MaxPadding - MinPadding) + MinPadding
    ensures pad == NextInt(s, pos, MaxPadding - MinPadding) + MinPadding
            || MinRoomSize + 2 * (pad + 1) > size
  {
    Min(NextInt(s, pos, MaxPadding - MinPadding) + MinPadding, (size - MinRoomSize) / 2)
  }

  /** A fresh room's extent on an axis: a draw in `[MinRoomSize,
      MaxRoomSize)`, clamped to what the padded region leaves. */
  function RoomSize(size: int, pad: int, s: Stream, pos: nat): (n: int)
    requires MinRoomSize + 2 * pad <= size
    ensures MinRoomSize <= n < MaxRoomSize
    ensures n + 2 * pad <= size
    ensures n <= NextInt(s, pos, MaxRoomSize - MinRoomSize) + MinRoomSize
    ensures n == NextInt(s, pos, MaxRoomSize - MinRoomSize) + MinRoomSize || n == size - 2 * pad
  {
    Min(NextInt(s, pos, MaxRoomSize - MinRoomSize) + MinRoomSize, size - 2 * pad)
  }

  /** Ordered removal of the element at `k`, as the pool and the candidate
      list do it. */
  function RemoveAt<T>(xs: seq<T>, k: nat): (r: seq<T>)
    requires k < |xs|
    ensures |r| == |xs| - 1
    ensures forall i :: 0 <= i < k ==> r[i] == xs[i]
    ensures forall i :: k <= i < |r| ==> r[i] == xs[i + 1]
    ensures multiset(xs) == multiset(r) + multiset{xs[k]}
  {
    assert xs == xs[..k] + [xs[k]] + xs[k + 1..];
    xs[..k] + xs[k + 1..]
  }

  function Indices(n: nat): (r: seq<nat>)
    ensures |r| == n && forall i :: 0 <= i < n ==> r[i] == i
  {
    seq(n, i => i)
  }

  /** The outcome of searching the pool: the index found and whether to
      turn that room, or nothing; in both cases the pool indices tried, in
      order, and the advanced stream position. */
  datatype Search =
    | Found(index: nat, rotate: bool, tried: seq<nat>, pos: nat)
    | Exhausted(tried: seq<nat>, pos: nat)

  predicate IndicesBelow(candidates: seq<nat>, n: int)
  {
    forall i :: 0 <= i < |candidates| ==> candidates[i] < n
  }

  /** The orientation for a room that fits: a coin decides when both
      orientations fit, otherwise the one that fits is taken. Returns
      whether to turn the room and the advanced stream position. */
  function Orient(t: Room, width: int, height: int, padX: int, padY: int,
                  s: Stream, pos: nat): (o: (bool, nat))
    requires Fits(t, width, height, padX, padY)
    ensures o.0 ==> FitsHorizontal(t, width, height, padX, padY)
    ensures !o.0 ==> FitsVertical(t, width, height, padX, padY)
    ensures o.1 >= pos
    ensures FitsVertical(t, width, height, padX, padY) && FitsHorizontal(t, width, height, padX, padY)
            ==> o.0 == NextBool(s, pos) && o.1 == pos + 1
    ensures !(FitsVertical(t, width, height, padX, padY) && FitsHorizontal(t, width, height, padX, padY))
            ==> o.1 == pos
  {
    var vertical := FitsVertical(t, width, height, padX, padY);
    var horizontal := FitsHorizontal(t, width, height, padX, padY);
    if vertical && horizontal then (NextBool(s, pos), pos + 1)
    else if horizontal then (true, pos)
    else (false, pos)
  }

  /** Records that `index` was tried before the search `r`. */
  function Prepend(index: nat, r: Search): (q: Search)
  {
    match r
    case Found(i, rotated, tried, next) => Found(i, rotated, [index] + tried, next)
    case Exhausted(tried, next) => Exhausted([index] + tried, next)
  }

  /** Draws candidate indices without replacement until one names a pool
      room that fits unturned or turned. */
  function TryPool(pool: seq<Room>, candidates: seq<nat>, width: int, height: int,
                   padX: int, padY: int, s: Stream, pos: nat): (r: Search)
    requires IndicesBelow(candidates, |pool|)
    ensures r.Found? ==> r.index in candidates && r.index < |pool|
    ensures r.pos >= pos
    decreases |candidates|
  {
    if |candidates| == 0 then Exhausted([], pos)
    else
      var k := NextInt(s, pos, |candidates|);
      var index := candidates[k];
      if Fits(pool[index], width, height, padX, padY) then
        var o := Orient(pool[index], width, height, padX, padY, s, pos + 1);
        Found(index, o.0, [index], o.1)
      else
        Prepend(index, TryPool(pool, RemoveAt(candidates, k), width, height, padX, padY, s, pos + 1))
  }

  /** A room found in the pool fits in the orientation chosen for it, and
      it is turned when the unturned orientation does not fit; when both
      fit, the coin drawn last decides. */
  lemma {:induction false} TryPoolOrientation(pool: seq<Room>, candidates: seq<nat>, width: int, height: int,
                                              padX: int, padY: int, s: Stream, pos: nat)
    requires IndicesBelow(candidates, |pool|)
    ensures var r := TryPool(pool, candidates, width, height, padX, padY, s, pos);
            r.Found? ==>
              && (r.rotate ==> FitsHorizontal(pool[r.index], width, height, padX, padY))
              && (!r.rotate ==> FitsVertical(pool[r.index], width, height, padX, padY))
              && (!FitsVertical(pool[r.index], width, height, padX, padY) ==> r.rotate)
              && (FitsVertical(pool[r.index], width, height, padX, padY)
                  && FitsHorizontal(pool[r.index], width, height, padX, padY)
                  ==> r.pos >= 1 && r.rotate == NextBool(s, r.pos - 1))
    decreases |candidates|
  {
    if |candidates| > 0 {
      var k := NextInt(s, pos, |candidates|);
      if !Fits(pool[candidates[k]], width, height, padX, padY) {
        TryPoolOrientation(pool, RemoveAt(candidates, k), width, height, padX, padY, s, pos + 1);
      }
    }
  }

  /** Every candidate is tried at most once; when the search gives up, it
      has tried every candidate. */
  lemma {:induction false} TryPoolTriesEachOnce(pool: seq<Room>, candidates: seq<nat>, width: int, height: int,
                                                padX: int, padY: int, s: Stream, pos: nat)
    requires IndicesBelow(candidates, |pool|)
    ensures var r := TryPool(pool, candidates, width, height, padX, padY, s, pos);
            && multiset(r.tried) <= multiset(candidates)
            && (r.Exhausted? ==> multiset(r.tried) == multiset(candidates))
    decreases |candidates|
  {
    if |candidates| > 0 {
      var k := NextInt(s, pos, |candidates|);
      var index := candidates[k];
      if !Fits(pool[index], width, height, padX, padY) {
        var others := RemoveAt(candidates, k);
        var rest := TryPool(pool, others, width, height, padX, padY, s, pos + 1);
        TryPoolTriesEachOnce(pool, others, width, height, padX, padY, s, pos + 1);
        PrependTried(index, rest.tried, others, candidates);
      }
    }
  }

  lemma PrependTried(index: nat, tried: seq<nat>, others: seq<nat>, candidates: seq<nat>)
    requires multiset(candidates) == multiset(others) + multiset{index}
    requires multiset(tried) <= multiset(others)
    ensures multiset([index] + tried) <= multiset(candidates)
    ensures multiset(tried) == multiset(others) ==> multiset([index] + tried) == multiset(candidates)
  {
  }

  /** The room found is the last one tried. */
  lemma {:induction false} TryPoolEndsAtFound(pool: seq<Room>, candidates: seq<nat>, width: int, height: int,
                                              padX: int, padY: int, s: Stream, pos: nat)
    requires IndicesBelow(candidates, |pool|)
    ensures var r := TryPool(pool, candidates, width, height, padX, padY, s, pos);
            r.Found? ==> |r.tried| > 0 && r.tried[|r.tried| - 1] == r.index
    decreases |candidates|
  {
    if |candidates| > 0 {
      var k := NextInt(s, pos, |candidates|);
      if !Fits(pool[candidates[k]], width, height, padX, padY) {
        TryPoolEndsAtFound(pool, RemoveAt(candidates, k), width, height, padX, padY, s, pos + 1);
      }
    }
  }

  /** None of the pool rooms at indices `xs` fits in either orientation. */
  predicate AllRejected(pool: seq<Room>, xs: seq<nat>, width: int, height: int, padX: int, padY: int)
  {
    |xs| == 0 ||
    (xs[0] < |pool| && !Fits(pool[xs[0]], width, height, padX, padY) &&
     AllRejected(pool, xs[1..], width, height, padX, padY))
  }

  /** Every pool room tried before the one found, and every one tried by
      a search that gives up, fits in neither orientation. */
  lemma {:induction false} TryPoolRejects(pool: seq<Room>, candidates: seq<nat>, width: int, height: int,
                                          padX: int, padY: int, s: Stream, pos: nat)
    requires IndicesBelow(candidates, |pool|)
    ensures var r := TryPool(pool, candidates, width, height, padX, padY, s, pos);
            && (r.Exhausted? ==> AllRejected(pool, r.tried, width, height, padX, padY))
            && (r.Found? ==> |r.tried| > 0 && AllRejected(pool, r.tried[..|r.tried| - 1], width, height, padX, padY))
    decreases |candidates|
  {
    if |candidates| > 0 {
      var k := NextInt(s, pos, |candidates|);
      var index := candidates[k];
      if !Fits(pool[index], width, height, padX, padY) {
        var rest := TryPool(pool, RemoveAt(candidates, k), width, height, padX, padY, s, pos + 1);
        TryPoolRejects(pool, RemoveAt(candidates, k), width, height, padX, padY, s, pos + 1);
        PrependRejected(pool, index, rest.tried, width, height, padX, padY);
      }
    }
  }

  /** Putting a rejected room in front of a rejected run keeps it rejected,
      whether or not the run ends in the room that was found. */
  lemma PrependRejected(pool: seq<Room>, index: nat, tried: seq<nat>,
                        width: int, height: int, padX: int, padY: int)
    requires index < |pool| && !Fits(pool[index], width, height, padX, padY)
    ensures AllRejected(pool, tried, width, height, padX, padY) ==>
              AllRejected(pool, [index] + tried, width, height, padX, padY)
    ensures |tried| > 0 && AllRejected(pool, tried[..|tried| - 1], width, height, padX, padY) ==>
              AllRejected(pool, ([index] + tried)[..|tried|], width, height, padX, padY)
  {
    assert ([index] + tried)[1..] == tried;
    if |tried| > 0 {
      assert ([index] + tried)[..|tried|][1..] == tried[..|tried| - 1];
    }
  }

  /** A search that gives up leaves no candidate that fits. */
  lemma {:induction false} TryPoolExhaustive(pool: seq<Room>, candidates: seq<nat>, width: int, height: int,
                                             padX: int, padY: int, s: Stream, pos: nat)
    requires IndicesBelow(candidates, |pool|)
    ensures TryPool(pool, candidates, width, height, padX, padY, s, pos).Exhausted? ==>
              forall i :: 0 <= i < |candidates| ==> !Fits(pool[candidates[i]], width, height, padX, padY)
    decreases |candidates|
  {
    if |candidates| > 0 {
      var k := NextInt(s, pos, |candidates|);
      if !Fits(pool[candidates[k]], width, height, padX, padY) {
        var rest := RemoveAt(candidates, k);
        TryPoolExhaustive(pool, rest, width, height, padX, padY, s, pos + 1);
        forall i | 0 <= i < |candidates| && i != k
          ensures candidates[i] == rest[if i < k then i else i - 1]
        {
        }
      }
    }
  }

  /** Where a placed room came from. */
  datatype Origin = Fresh | Docked(template: Room, rotated: bool)

  datatype Placement = Placement(room: Room, origin: Origin)

  /** `room` has the extents and contents of `template`, turned once when
      `rotated`. */
  predicate Oriented(room: Room, template: Room, rotated: bool)
    requires WellFormed(template)
  {
    var o := if rotated then Rotate(template) else template;
    room.width == o.width && room.height == o.height && room.contents == o.contents
  }

  /** A placed room is well formed; a fresh one is a one-door room of a
      size within the room-size bounds; a docked one is its template,
      turned at most once. */
  predicate ValidPlacement(p: Placement)
  {
    && WellFormed(p.room)
    && match p.origin
       case Fresh =>
         && OneDoorRoom(p.room)
         && MinRoomSize <= p.room.width < MaxRoomSize
         && MinRoomSize <= p.room.height < MaxRoomSize
       case Docked(t, rotated) => WellFormed(t) && Oriented(p.room, t, rotated)
  }

  /** The pool rooms consumed by a sequence of placements, in order. */
  function Templates(ps: seq<Placement>): seq<Room>
  {
    if |ps| == 0 then []
    else (if ps[0].origin.Docked? then [ps[0].origin.template] else []) + Templates(ps[1..])
  }

  lemma {:induction false} TemplatesAppend(a: seq<Placement>, b: seq<Placement>)
    ensures Templates(a + b) == Templates(a) + Templates(b)
    decreases |a|
  {
    if |a| == 0 {
      assert a + b == b;
    } else {
      var head := if a[0].origin.Docked? then [a[0].origin.template] else [];
      assert (a + b)[0] == a[0] && (a + b)[1..] == a[1..] + b;
      assert Templates(a + b) == head + Templates(a[1..] + b);
      assert Templates(a) == head + Templates(a[1..]);
      TemplatesAppend(a[1..], b);
    }
  }

  datatype Pick = Pick(room: Room, origin: Origin, pool: seq<Room>, pos: nat)

  /** Takes pool room `i` out of the pool, turned when `rotated`. */
  function Dock(pool: seq<Room>, i: nat, rotated: bool, pos: nat): (p: Pick)
    requires AllWellFormed(pool) && i < |pool|
    ensures p.origin == Docked(pool[i], rotated)
    ensures ValidPlacement(Placement(p.room, p.origin))
    ensures multiset(pool) == multiset(p.pool) + multiset{pool[i]}
    ensures p.pos == pos
  {
    var t := pool[i];
    Pick(if rotated then Rotate(t) else t, Docked(t, rotated), RemoveAt(pool, i), pos)
  }

  /** A freshly generated room sized from the stream within the padded
      region. */
  function FreshRoom(pool: seq<Room>, width: int, height: int, padX: int, padY: int,
                     s: Stream, pos: nat): (p: Pick)
    requires padX >= 0 && padY >= 0
    requires MinRoomSize + 2 * padX <= width && MinRoomSize + 2 * padY <= height
    ensures p.origin == Fresh && p.pool == pool
    ensures ValidPlacement(Placement(p.room, p.origin))
    ensures FitsVertical(p.room, width, height, padX, padY)
    ensures p.pos >= pos
  {
    var w := RoomSize(width, padX, s, pos);
    var h := RoomSize(height, padY, s, pos + 1);
    var made := GenerateRoomContents(w, h, s, pos + 2);
    Pick(made.0, Fresh, pool, made.1)
  }

  /** Chooses the room for a region: a pool room that fits (removed from
      the pool and turned as the search decided), or else a fresh room. */
  function PickRoom(pool: seq<Room>, width: int, height: int, padX: int, padY: int,
                    s: Stream, pos: nat): (p: Pick)
    requires AllWellFormed(pool)
    requires padX >= 0 && padY >= 0
    requires MinRoomSize + 2 * padX <= width && MinRoomSize + 2 * padY <= height
    ensures ValidPlacement(Placement(p.room, p.origin))
    ensures FitsVertical(p.room, width, height, padX, padY)
    ensures p.origin.Fresh? ==>
              p.pool == pool && forall t :: t in pool ==> !Fits(t, width, height, padX, padY)
    ensures p.origin.Docked? ==>
              && p.origin.template in pool
              && multiset(pool) == multiset(p.pool) + multiset{p.origin.template}
              && (!FitsVertical(p.origin.template, width, height, padX, padY) ==> p.origin.rotated)
              && (!FitsHorizontal(p.origin.template, width, height, padX, padY) ==> !p.origin.rotated)
    ensures p.pos >= pos
  {
    var candidates := Indices(|pool|);
    var search := if |pool| > 0 then TryPool(pool, candidates, width, height, padX, padY, s, pos)
                  else Exhausted([], pos);
    match search
    case Found(i, rotated, _, next) =>
      TryPoolOrientation(pool, candidates, width, height, padX, padY, s, pos);
      Dock(pool, i, rotated, next)
    case Exhausted(_, next) =>
      TryPoolExhaustive(pool, candidates, width, height, padX, padY, s, pos);
      assert forall t :: t in pool ==> !Fits(t, width, height, padX, padY) by {
        forall t | t in pool
          ensures !Fits(t, width, height, padX, padY)
        {
          var i :| 0 <= i < |pool| && pool[i] == t;
          assert candidates[i] == i;
        }
      }
      FreshRoom(pool, width, height, padX, padY, s, next)
  }

  /** The room's corner when anchored in corner `corner` of `region`
      (0 top-left, 1 top-right, 2 bottom-left, otherwise bottom-right),
      `padX`/`padY` away from the region's edges. */
  function RoomPosition(region: Rect, corner: int, roomWidth: int, roomHeight: int,
                        padX: int, padY: int): Point
  {
    if corner == 0 then Point(region.x + padX, region.y + padY)
    else if corner == 1 then Point((region.x + region.width) - (roomWidth + padX), region.y + padY)
    else if corner == 2 then Point(region.x + padX, (region.y + region.height) - (roomHeight + padY))
    else Point((region.x + region.width) - (roomWidth + padX), (region.y + region.height) - (roomHeight + padY))
  }

  /** The two rectangles left over once the room at `at` and its padding
      are taken out of `region`; which strip spans the full side depends
      on the corner. */
  function Subregions(region: Rect, corner: int, at: Point, roomWidth: int, roomHeight: int,
                      padX: int, padY: int): (Rect, Rect)
  {
    var x := region.x;
    var y := region.y;
    var width := region.width;
    var height := region.height;
    if corner == 0 then
      var nx := at.x + roomWidth + padX;
      var ny := at.y + roomHeight + padY;
      (Rect(nx, y, x + width - nx, roomHeight + 2 * padY),
       Rect(x, ny, width, y + height - ny))
    else if corner == 1 then
      var ny := at.y + roomHeight + padY;
      (Rect(x, y, width - (roomWidth + 2 * padX), height),
       Rect(at.x - padX, ny, roomWidth + 2 * padX, (y + height) - ny))
    else if corner == 2 then
      var nx := x + roomWidth + 2 * padX;
      (Rect(x, y, roomWidth + 2 * padX, height - (roomHeight + 2 * padY)),
       Rect(nx, y, (x + width) - nx, height))
    else
      var ny := at.y - padY;
      (Rect(x, ny, width - (roomWidth + 2 * padX), (y + height) - ny),
       Rect(x, y, width, height - (roomHeight + 2 * padY)))
  }

  /** The room's cells together with its padding. */
  function PaddedRect(at: Point, roomWidth: int, roomHeight: int, padX: int, padY: int): Rect
  {
    Rect(at.x - padX, at.y - padY, roomWidth + 2 * padX, roomHeight + 2 * padY)
  }

  /** For every corner, the room sits inside its padding, and the padded
      room and the two sub-rectangles are pairwise disjoint pieces of the
      region, each of non-negative size. */
  lemma Tiling(region: Rect, corner: int, roomWidth: int, roomHeight: int, padX: int, padY: int)
    requires 0 <= corner < 4
    requires roomWidth >= 0 && roomHeight >= 0 && padX >= 0 && padY >= 0
    requires roomWidth + 2 * padX <= region.width && roomHeight + 2 * padY <= region.height
    ensures var at := RoomPosition(region, corner, roomWidth, roomHeight, padX, padY);
            var padded := PaddedRect(at, roomWidth, roomHeight, padX, padY);
            var subs := Subregions(region, corner, at, roomWidth, roomHeight, padX, padY);
            && Inside(Rect(at.x, at.y, roomWidth, roomHeight), padded)
            && Inside(padded, region) && Inside(subs.0, region) && Inside(subs.1, region)
            && Disjoint(padded, subs.0) && Disjoint(padded, subs.1) && Disjoint(subs.0, subs.1)
            && subs.0.width >= 0 && subs.0.height >= 0 && subs.1.width >= 0 && subs.1.height >= 0
  {
  }

  /** The three pieces cover the region: every cell of the region lies in
      the padded room or one of the two sub-rectangles. */
  lemma TilingCovers(region: Rect, corner: int, roomWidth: int, roomHeight: int, padX: int, padY: int)
    requires 0 <= corner < 4
    requires roomWidth >= 0 && roomHeight >= 0 && padX >= 0 && padY >= 0
    requires roomWidth + 2 * padX <= region.width && roomHeight + 2 * padY <= region.height
    ensures var at := RoomPosition(region, corner, roomWidth, roomHeight, padX, padY);
            var padded := PaddedRect(at, roomWidth, roomHeight, padX, padY);
            var subs := Subregions(region, corner, at, roomWidth, roomHeight, padX, padY);
            forall cx, cy :: Contains(region, cx, cy) <==>
              Contains(padded, cx, cy) || Contains(subs.0, cx, cy) || Contains(subs.1, cx, cy)
  {
    Tiling(region, corner, roomWidth, roomHeight, padX, padY);
  }

  /** Once the padded room is non-empty, each sub-rectangle is smaller
      than the region in half-perimeter, so the recursion terminates. */
  lemma TilingShrinks(region: Rect, corner: int, roomWidth: int, roomHeight: int, padX: int, padY: int)
    requires 0 <= corner < 4
    requires roomWidth >= 0 && roomHeight >= 0 && padX >= 0 && padY >= 0
    requires roomWidth + 2 * padX <= region.width && roomHeight + 2 * padY <= region.height
    ensures var at := RoomPosition(region, corner, roomWidth, roomHeight, padX, padY);
            var padded := PaddedRect(at, roomWidth, roomHeight, padX, padY);
            var subs := Subregions(region, corner, at, roomWidth, roomHeight, padX, padY);
            NonEmpty(padded) ==>
              && subs.0.width + subs.0.height < region.width + region.height
              && subs.1.width + subs.1.height < region.width + region.height
  {
  }

  /** The areas of the three pieces add up to the region's, and once the
      padded room is non-empty each sub-rectangle has less area than the
      region. */
  lemma TilingAreas(region: Rect, corner: int, roomWidth: int, roomHeight: int, padX: int, padY: int)
    requires 0 <= corner < 4
    requires roomWidth >= 0 && roomHeight >= 0 && padX >= 0 && padY >= 0
    requires roomWidth + 2 * padX <= region.width && roomHeight + 2 * padY <= region.height
    ensures var at := RoomPosition(region, corner, roomWidth, roomHeight, padX, padY);
            var padded := PaddedRect(at, roomWidth, roomHeight, padX, padY);
            var subs := Subregions(region, corner, at, roomWidth, roomHeight, padX, padY);
            && Area(padded) + Area(subs.0) + Area(subs.1) == Area(region)
            && (NonEmpty(padded) ==> Area(subs.0) < Area(region) && Area(subs.1) < Area(region))
  {
    var at := RoomPosition(region, corner, roomWidth, roomHeight, padX, padY);
    var padded := PaddedRect(at, roomWidth, roomHeight, padX, padY);
    var subs := Subregions(region, corner, at, roomWidth, roomHeight, padX, padY);
    Tiling(region, corner, roomWidth, roomHeight, padX, padY);
    if corner == 0 || corner == 3 {
      CutAcross(region, padded, subs.0, subs.1);
    } else if corner == 1 {
      CutAlong(region, padded, subs.0, subs.1);
    } else {
      CutAlong(region, padded, subs.1, subs.0);
    }
    NonNegativeArea(subs.0);
    NonNegativeArea(subs.1);
    if NonEmpty(padded) {
      PositiveArea(padded);
    }
  }

  /** A corner piece, the strip beside it, and the full-width rest. */
  lemma CutAcross(region: Rect, padded: Rect, beside: Rect, rest: Rect)
    requires beside.width == region.width - padded.width && beside.height == padded.height
    requires rest.width == region.width && rest.height == region.height - padded.height
    ensures Area(padded) + Area(beside) + Area(rest) == Area(region)
  {
    ThreePieces(region.width, region.height, padded.width, padded.height);
  }

  /** A corner piece, the strip below it, and the full-height rest. */
  lemma CutAlong(region: Rect, padded: Rect, rest: Rect, below: Rect)
    requires rest.width == region.width - padded.width && rest.height == region.height
    requires below.width == padded.width && below.height == region.height - padded.height
    ensures Area(padded) + Area(rest) + Area(below) == Area(region)
  {
    ThreePieces(region.width, region.height, padded.width, padded.height);
  }

  /** The two ways of cutting a `w` by `h` rectangle around a `pw` by `ph`
      corner piece. */
  lemma ThreePieces(w: int, h: int, pw: int, ph: int)
    ensures (w - pw) * ph + w * (h - ph) + pw * ph == w * h
    ensures (w - pw) * h + pw * (h - ph) + pw * ph == w * h
  {
    assert w * (h - ph) == w * h - w * ph;
    assert (w - pw) * ph == w * ph - pw * ph;
    assert (w - pw) * h == w * h - pw * h;
    assert pw * (h - ph) == pw * h - pw * ph;
  }

  lemma NonNegativeArea(r: Rect)
    requires r.width >= 0 && r.height >= 0
    ensures Area(r) >= 0
  {
  }

  lemma PositiveArea(r: Rect)
    requires NonEmpty(r)
    ensures Area(r) > 0
  {
  }

  /** One partition step: everything `Partition` decides for a region
      before it recurses. */
  datatype Step = Step(placement: Placement, padded: Rect, first: Rect, second: Rect,
                       pool: seq<Room>, pos: nat)

  /** Anchors the chosen room in corner `corner` of `region` and splits
      off the two sub-rectangles; both are smaller than the region. */
  function Anchor(region: Rect, room: Room, origin: Origin, corner: int, padX: int, padY: int,
                  pool: seq<Room>, pos: nat): (st: Step)
    requires 0 <= corner < 4 && padX >= MinPadding && padY >= MinPadding
    requires ValidPlacement(Placement(room, origin))
    requires FitsVertical(room, region.width, region.height, padX, padY)
    ensures ValidPlacement(st.placement) && st.placement.origin == origin
    ensures Inside(Bounds(st.placement.room), st.padded) && Inside(st.padded, region)
    ensures Inside(Grown(Bounds(st.placement.room)), st.padded)
    ensures Inside(st.first, region) && Inside(st.second, region)
    ensures Disjoint(st.padded, st.first) && Disjoint(st.padded, st.second) && Disjoint(st.first, st.second)
    ensures st.first.width + st.first.height < region.width + region.height
    ensures st.second.width + st.second.height < region.width + region.height
    ensures st.pool == pool && st.pos == pos
  {
    var w, h := room.width, room.height;
    var at := RoomPosition(region, corner, w, h, padX, padY);
    var subs := Subregions(region, corner, at, w, h, padX, padY);
    Tiling(region, corner, w, h, padX, padY);
    TilingShrinks(region, corner, w, h, padX, padY);
    PlacementIgnoresPosition(Placement(room, origin), at.x, at.y);
    Step(Placement(room.(x := at.x, y := at.y), origin), PaddedRect(at, w, h, padX, padY),
         subs.0, subs.1, pool, pos)
  }

  /** One partition step: padding on both axes, the room, and the corner
      it is anchored in. The pool loses exactly the template placed. */
  function PartitionStep(region: Rect, pool: seq<Room>, s: Stream, pos: nat): (st: Step)
    requires Splittable(region) && AllWellFormed(pool)
    ensures ValidPlacement(st.placement)
    ensures Inside(Bounds(st.placement.room), st.padded) && Inside(st.padded, region)
    ensures Inside(Grown(Bounds(st.placement.room)), st.padded)
    ensures Inside(st.first, region) && Inside(st.second, region)
    ensures Disjoint(st.padded, st.first) && Disjoint(st.padded, st.second) && Disjoint(st.first, st.second)
    ensures st.first.width + st.first.height < region.width + region.height
    ensures st.second.width + st.second.height < region.width + region.height
    ensures multiset(pool) == multiset(st.pool) + multiset(Templates([st.placement]))
    ensures forall t :: t in st.pool ==> t in pool
    ensures st.pos >= pos
  {
    var padX := Padding(region.width, s, pos);
    var padY := Padding(region.height, s, pos + 1);
    var pick := PickRoom(pool, region.width, region.height, padX, padY, s, pos + 2);
    var corner := NextInt(s, pick.pos, 4);
    assert forall t :: t in pick.pool ==> t in pool by {
      forall t | t in pick.pool
        ensures t in pool
      {
        assert t in multiset(pick.pool);
      }
    }
    var st := Anchor(region, pick.room, pick.origin, corner, padX, padY, pick.pool, pick.pos + 1);
    assert [st.placement][1..] == [];
    st
  }

  lemma PlacementIgnoresPosition(p: Placement, x: int, y: int)
    requires ValidPlacement(p)
    ensures ValidPlacement(Placement(p.room.(x := x, y := y), p.origin))
  {
    if p.origin.Fresh? {
      var da, db :| 0 <= da < p.room.width && 0 <= db < p.room.height && DoorCell(p.room, da, db);
      assert DoorCell(p.room.(x := x, y := y), da, db);
    }
  }

  /** The result of partitioning: placed rooms in discovery order, each
      room's padded rectangle in the same order, what is left of the pool,
      and the advanced stream position. */
  datatype Outcome = Outcome(placed: seq<Placement>, paddings: seq<Rect>, pool: seq<Room>, pos: nat)

  /** Places one room in `region` and recurses into each of the two
      sub-rectangles whose sides both reach `PaddedMinRoom`, first then
      second; regions below that size are left empty. */
  function Partition(region: Rect, pool: seq<Room>, s: Stream, pos: nat): (out: Outcome)
    requires Splittable(region) && AllWellFormed(pool)
    ensures |out.placed| >= 1 && |out.paddings| == |out.placed|
    ensures forall t :: t in out.pool ==> t in pool
    ensures out.pos >= pos
    decreases region.width + region.height
  {
    var st := PartitionStep(region, pool, s, pos);
    WellFormedRemains(pool, st.pool);
    var out1 := if Splittable(st.first) then Partition(st.first, st.pool, s, st.pos)
                else Outcome([], [], st.pool, st.pos);
    WellFormedRemains(st.pool, out1.pool);
    var out2 := if Splittable(st.second) then Partition(st.second, out1.pool, s, out1.pos)
                else Outcome([], [], out1.pool, out1.pos);
    Outcome([st.placement] + out1.placed + out2.placed, [st.padded] + out1.paddings + out2.paddings,
            out2.pool, out2.pos)
  }

  /** Every placed room lies inside `r`. */
  predicate AllInside(ps: seq<Placement>, r: Rect)
  {
    forall i :: 0 <= i < |ps| ==> Inside(Bounds(ps[i].room), r)
  }

  /** No two placed rooms overlap. */
  predicate PairwiseDisjoint(ps: seq<Placement>)
  {
    forall i, j :: 0 <= i < j < |ps| ==> Disjoint(Bounds(ps[i].room), Bounds(ps[j].room))
  }

  predicate AllValid(ps: seq<Placement>)
  {
    forall i :: 0 <= i < |ps| ==> ValidPlacement(ps[i])
  }

  /** A room inside its padding, followed by rooms from two regions that
      are separated from that padding and from each other, make a
      non-overlapping layout of the enclosing region. */
  lemma CombineLayouts(p: Placement, padded: Rect, a: seq<Placement>, ra: Rect,
                       b: seq<Placement>, rb: Rect, region: Rect)
    requires Inside(Bounds(p.room), padded) && Inside(padded, region)
    requires AllInside(a, ra) && Inside(ra, region) && PairwiseDisjoint(a)
    requires AllInside(b, rb) && Inside(rb, region) && PairwiseDisjoint(b)
    requires Disjoint(padded, ra) && Disjoint(padded, rb) && Disjoint(ra, rb)
    ensures AllInside([p] + a + b, region) && PairwiseDisjoint([p] + a + b)
  {
    var all := [p] + a + b;
    forall i | 0 <= i < |all|
      ensures Inside(Bounds(all[i].room), region)
    {
      if 1 <= i <= |a| {
        assert all[i] == a[i - 1];
      } else if i > |a| {
        assert all[i] == b[i - 1 - |a|];
      }
    }
    forall i, j | 0 <= i < j < |all|
      ensures Disjoint(Bounds(all[i].room), Bounds(all[j].room))
    {
      var ri, rj := Bounds(all[i].room), Bounds(all[j].room);
      if i == 0 {
        if j <= |a| {
          assert all[j] == a[j - 1];
          InsideDisjoint(ri, rj, padded, ra);
        } else {
          assert all[j] == b[j - 1 - |a|];
          InsideDisjoint(ri, rj, padded, rb);
        }
      } else if i <= |a| {
        assert all[i] == a[i - 1];
        if j <= |a| {
          assert all[j] == a[j - 1];
        } else {
          assert all[j] == b[j - 1 - |a|];
          InsideDisjoint(ri, rj, ra, rb);
        }
      } else {
        assert all[i] == b[i - 1 - |a|] && all[j] == b[j - 1 - |a|];
      }
    }
  }

  /** Each room, with a one-cell margin, lies in its padded rectangle; the
      padded rectangles lie in `r` and no two of them overlap. */
  predicate PaddedLayout(ps: seq<Placement>, pads: seq<Rect>, r: Rect)
  {
    && |pads| == |ps|
    && (forall i :: 0 <= i < |ps| ==> Inside(Grown(Bounds(ps[i].room)), pads[i]) && Inside(pads[i], r))
    && (forall i, j :: 0 <= i < j < |ps| ==> Disjoint(pads[i], pads[j]))
  }

  /** No two placed rooms touch: each room with a one-cell margin misses
      every other room, so not even a corner cell is shared or adjacent. */
  predicate Apart(ps: seq<Placement>)
  {
    forall i, j :: 0 <= i < |ps| && 0 <= j < |ps| && i != j ==>
      Disjoint(Grown(Bounds(ps[i].room)), Bounds(ps[j].room))
  }

  /** A room inside its padding, followed by the padded layouts of two
      regions that are separated from that padding and from each other,
      make a padded layout of the enclosing region. */
  lemma CombinePadded(p: Placement, padded: Rect, a: seq<Placement>, pa: seq<Rect>, ra: Rect,
                      b: seq<Placement>, pb: seq<Rect>, rb: Rect, region: Rect)
    requires Inside(Grown(Bounds(p.room)), padded) && Inside(padded, region)
    requires PaddedLayout(a, pa, ra) && Inside(ra, region)
    requires PaddedLayout(b, pb, rb) && Inside(rb, region)
    requires Disjoint(padded, ra) && Disjoint(padded, rb) && Disjoint(ra, rb)
    ensures PaddedLayout([p] + a + b, [padded] + pa + pb, region)
  {
    var all, pads := [p] + a + b, [padded] + pa + pb;
    forall i | 0 <= i < |all|
      ensures Inside(Grown(Bounds(all[i].room)), pads[i]) && Inside(pads[i], region)
    {
      if 1 <= i <= |a| {
        assert all[i] == a[i - 1] && pads[i] == pa[i - 1];
      } else if i > |a| {
        assert all[i] == b[i - 1 - |a|] && pads[i] == pb[i - 1 - |a|];
      }
    }
    forall i, j | 0 <= i < j < |all|
      ensures Disjoint(pads[i], pads[j])
    {
      if i == 0 {
        if j <= |a| {
          assert pads[j] == pa[j - 1];
          InsideDisjoint(padded, pads[j], padded, ra);
        } else {
          assert pads[j] == pb[j - 1 - |a|];
          InsideDisjoint(padded, pads[j], padded, rb);
        }
      } else if i <= |a| {
        assert pads[i] == pa[i - 1];
        if j <= |a| {
          assert pads[j] == pa[j - 1];
        } else {
          assert pads[j] == pb[j - 1 - |a|];
          InsideDisjoint(pads[i], pads[j], ra, rb);
        }
      } else {
        assert pads[i] == pb[i - 1 - |a|] && pads[j] == pb[j - 1 - |a|];
      }
    }
  }

  /** Disjoint paddings keep the rooms apart. */
  lemma PaddedLayoutApart(ps: seq<Placement>, pads: seq<Rect>, r: Rect)
    requires PaddedLayout(ps, pads, r)
    ensures Apart(ps)
  {
    forall i, j | 0 <= i < |ps| && 0 <= j < |ps| && i != j
      ensures Disjoint(Grown(Bounds(ps[i].room)), Bounds(ps[j].room))
    {
      if i < j {
        InsideDisjoint(Grown(Bounds(ps[i].room)), Bounds(ps[j].room), pads[i], pads[j]);
      } else {
        InsideDisjoint(Grown(Bounds(ps[i].room)), Bounds(ps[j].room), pads[i], pads[j]);
      }
    }
  }

  /** Every room `Partition` places sits, with a margin, in its own padded
      rectangle, and the padded rectangles are disjoint parts of the
      region. */
  lemma {:induction false} PartitionPadded(region: Rect, pool: seq<Room>, s: Stream, pos: nat)
    requires Splittable(region) && AllWellFormed(pool)
    ensures var out := Partition(region, pool, s, pos);
            PaddedLayout(out.placed, out.paddings, region)
    decreases region.width + region.height
  {
    var st := PartitionStep(region, pool, s, pos);
    WellFormedRemains(pool, st.pool);
    var out1 := if Splittable(st.first) then Partition(st.first, st.pool, s, st.pos)
                else Outcome([], [], st.pool, st.pos);
    if Splittable(st.first) {
      PartitionPadded(st.first, st.pool, s, st.pos);
    }
    WellFormedRemains(st.pool, out1.pool);
    var out2 := if Splittable(st.second) then Partition(st.second, out1.pool, s, out1.pos)
                else Outcome([], [], out1.pool, out1.pos);
    if Splittable(st.second) {
      PartitionPadded(st.second, out1.pool, s, out1.pos);
    }
    CombinePadded(st.placement, st.padded, out1.placed, out1.paddings, st.first,
                  out2.placed, out2.paddings, st.second, region);
  }

  /** Every room placed by `Partition` lies inside the region, no two of
      them overlap, and, with their paddings, no two of them even touch. */
  lemma {:induction false} PartitionLayout(region: Rect, pool: seq<Room>, s: Stream, pos: nat)
    requires Splittable(region) && AllWellFormed(pool)
    ensures var out := Partition(region, pool, s, pos);
            && AllInside(out.placed, region) && PairwiseDisjoint(out.placed)
            && PaddedLayout(out.placed, out.paddings, region) && Apart(out.placed)
    decreases region.width + region.height
  {
    var out := Partition(region, pool, s, pos);
    PartitionPadded(region, pool, s, pos);
    PaddedLayoutApart(out.placed, out.paddings, region);
    var st := PartitionStep(region, pool, s, pos);
    WellFormedRemains(pool, st.pool);
    var out1 := if Splittable(st.first) then Partition(st.first, st.pool, s, st.pos)
                else Outcome([], [], st.pool, st.pos);
    if Splittable(st.first) {
      PartitionLayout(st.first, st.pool, s, st.pos);
    }
    WellFormedRemains(st.pool, out1.pool);
    var out2 := if Splittable(st.second) then Partition(st.second, out1.pool, s, out1.pos)
                else Outcome([], [], out1.pool, out1.pos);
    if Splittable(st.second) {
      PartitionLayout(st.second, out1.pool, s, out1.pos);
    }
    CombineLayouts(st.placement, st.padded, out1.placed, st.first, out2.placed, st.second, region);
  }

  lemma WellFormedRemains(pool: seq<Room>, rest: seq<Room>)
    requires AllWellFormed(pool)
    requires forall t :: t in rest ==> t in pool
    ensures AllWellFormed(rest)
  {
    forall i | 0 <= i < |rest|
      ensures WellFormed(rest[i])
    {
      assert rest[i] in pool;
    }
  }

  /** Partitioning consumes pool rooms and nothing else: the rooms left in
      the pool plus the templates of the docked placements are exactly the
      original pool, so no pool room is placed twice. */
  lemma {:induction false} PartitionConservesPool(region: Rect, pool: seq<Room>, s: Stream, pos: nat)
    requires Splittable(region) && AllWellFormed(pool)
    ensures var out := Partition(region, pool, s, pos);
            multiset(pool) == multiset(out.pool) + multiset(Templates(out.placed))
    decreases region.width + region.height
  {
    var st := PartitionStep(region, pool, s, pos);
    WellFormedRemains(pool, st.pool);
    var out1 := if Splittable(st.first) then Partition(st.first, st.pool, s, st.pos)
                else Outcome([], [], st.pool, st.pos);
    if Splittable(st.first) {
      PartitionConservesPool(st.first, st.pool, s, st.pos);
    }
    WellFormedRemains(st.pool, out1.pool);
    var out2 := if Splittable(st.second) then Partition(st.second, out1.pool, s, out1.pos)
                else Outcome([], [], out1.pool, out1.pos);
    if Splittable(st.second) {
      PartitionConservesPool(st.second, out1.pool, s, out1.pos);
    }
    TemplatesAppend([st.placement], out1.placed);
    TemplatesAppend([st.placement] + out1.placed, out2.placed);
    PoolAlgebra(pool, st.pool, Templates([st.placement]), out1.pool, Templates(out1.placed),
                out2.pool, Templates(out2.placed));
  }

  lemma PoolAlgebra<T>(pool: seq<T>, p0: seq<T>, t0: seq<T>, p1: seq<T>, t1: seq<T>, p2: seq<T>, t2: seq<T>)
    requires multiset(pool) == multiset(p0) + multiset(t0)
    requires multiset(p0) == multiset(p1) + multiset(t1)
    requires multiset(p1) == multiset(p2) + multiset(t2)
    ensures multiset(pool) == multiset(p2) + multiset(t0 + t1 + t2)
  {
  }

  /** Every placement `Partition` makes is valid: fresh rooms are one-door
      rooms within the size bounds, docked rooms are their pool template
      turned at most once. */
  lemma {:induction false} PartitionPlacementsValid(region: Rect, pool: seq<Room>, s: Stream, pos: nat)
    requires Splittable(region) && AllWellFormed(pool)
    ensures AllValid(Partition(region, pool, s, pos).placed)
    decreases region.width + region.height
  {
    var st := PartitionStep(region, pool, s, pos);
    WellFormedRemains(pool, st.pool);
    var out1 := if Splittable(st.first) then Partition(st.first, st.pool, s, st.pos)
                else Outcome([], [], st.pool, st.pos);
    if Splittable(st.first) {
      PartitionPlacementsValid(st.first, st.pool, s, st.pos);
    }
    WellFormedRemains(st.pool, out1.pool);
    var out2 := if Splittable(st.second) then Partition(st.second, out1.pool, s, out1.pos)
                else Outcome([], [], out1.pool, out1.pos);
    if Splittable(st.second) {
      PartitionPlacementsValid(st.second, out1.pool, s, out1.pos);
    }
    AllValidJoin(st.placement, out1.placed, out2.placed);
  }

  lemma AllValidJoin(p: Placement, a: seq<Placement>, b: seq<Placement>)
    requires ValidPlacement(p) && AllValid(a) && AllValid(b)
    ensures AllValid([p] + a + b)
  {
    var all := [p] + a + b;
    forall i | 0 <= i < |all|
      ensures ValidPlacement(all[i])
    {
      if i == 0 {
        assert all[i] == p;
      } else if i <= |a| {
        assert all[i] == a[i - 1];
      } else {
        assert all[i] == b[i - 1 - |a|];
      }
    }
  }
}
