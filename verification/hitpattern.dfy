/**
 Decoding a weapon's hit pattern. The pattern is a grid of text lines,
 line `y` holding characters `x`; the last 'x' in reading order marks the
 wielder, and every '#' within the width of the first line becomes a hit
 offset relative to it, with x growing rightwards and y growing upwards.
 */
module HitPattern {
  import opened Geometry

  /** The decoded pattern: the wielder's cell and the hit offsets in
      reading order, or the first line too short for the width of line 0
      (where the source's array access fails). */
  datatype Decoded =
    | Pattern(centre: Point, offsets: seq<Point>)
    | RowTooShort(row: nat)

  /** Reading order: by line, then by column. */
  predicate Before(p: Point, q: Point)
  {
    p.y < q.y || (p.y == q.y && p.x < q.x)
  }

  /** The width of the window read for hits: the length of line 0. */
  function Width(grid: seq<string>): nat
  {
    if |grid| == 0 then 0 else |grid[0]|
  }

  /** Every line is at least as long as line 0. */
  predicate WindowFits(grid: seq<string>)
  {
    forall y :: 0 <= y < |grid| ==> Width(grid) <= |grid[y]|
  }

  /** Whether cell (x, y) exists and holds `ch`. */
  predicate CellIs(grid: seq<string>, x: int, y: int, ch: char)
  {
    0 <= y < |grid| && 0 <= x < |grid[y]| && grid[y][x] == ch
  }

  /** Whether cell `p` lies in the window read for hits and holds `ch`. */
  predicate InWindow(grid: seq<string>, p: Point, ch: char)
  {
    0 <= p.x < Width(grid) && CellIs(grid, p.x, p.y, ch)
  }

  /** Every cell lies on line `y`. */
  predicate OnLine(cells: seq<Point>, y: int)
  {
    forall i :: 0 <= i < |cells| ==> cells[i].y == y
  }

  /** Each cell comes strictly before the next in reading order. */
  predicate InReadingOrder(cells: seq<Point>)
  {
    forall i, j :: 0 <= i < j < |cells| ==> Before(cells[i], cells[j])
  }

  /** The '#' cells of line `y` in columns below `n`, left to right. */
  function RowHits(row: string, y: int, n: nat): seq<Point>
    requires n <= |row|
  {
    if n == 0 then []
    else if row[n - 1] == '#' then RowHits(row, y, n - 1) + [Point(n - 1, y)]
    else RowHits(row, y, n - 1)
  }

  /** `RowHits` lists exactly the '#' cells of the line's first `n`
      columns, left to right. */
  lemma {:induction false} RowHitsExact(row: string, y: int, n: nat)
    requires n <= |row|
    ensures forall p :: p in RowHits(row, y, n) <==> p.y == y && 0 <= p.x < n && row[p.x] == '#'
    ensures OnLine(RowHits(row, y, n), y) && InReadingOrder(RowHits(row, y, n))
  {
    if n > 0 {
      RowHitsExact(row, y, n - 1);
      var prev := RowHits(row, y, n - 1);
      if row[n - 1] == '#' {
        var cells := prev + [Point(n - 1, y)];
        assert cells == RowHits(row, y, n);
        forall i, j | 0 <= i < j < |cells|
          ensures Before(cells[i], cells[j])
        {
          assert cells[i] == prev[i] && prev[i] in prev;
          if j < |prev| {
            assert cells[j] == prev[j];
          } else {
            assert cells[j] == Point(n - 1, y);
          }
        }
      }
    }
  }

  /** The '#' cells of lines below `m` within the first `w` columns, in
      reading order. */
  function Hits(grid: seq<string>, w: nat, m: nat): seq<Point>
    requires m <= |grid| && forall y :: 0 <= y < m ==> w <= |grid[y]|
  {
    if m == 0 then [] else Hits(grid, w, m - 1) + RowHits(grid[m - 1], m - 1, w)
  }

  /** `Hits` lists exactly the '#' cells of the window, each once, in
      reading order. */
  lemma {:induction false} HitsExact(grid: seq<string>, w: nat, m: nat)
    requires m <= |grid| && forall y :: 0 <= y < m ==> w <= |grid[y]|
    ensures forall p :: p in Hits(grid, w, m) <==> 0 <= p.y < m && 0 <= p.x < w && grid[p.y][p.x] == '#'
    ensures InReadingOrder(Hits(grid, w, m))
  {
    if m > 0 {
      HitsExact(grid, w, m - 1);
      RowHitsExact(grid[m - 1], m - 1, w);
      var prev := Hits(grid, w, m - 1);
      var row := RowHits(grid[m - 1], m - 1, w);
      var cells := prev + row;
      assert cells == Hits(grid, w, m);
      forall i, j | 0 <= i < j < |cells|
        ensures Before(cells[i], cells[j])
      {
        if j < |prev| {
          assert cells[i] == prev[i] && cells[j] == prev[j];
        } else if i >= |prev| {
          assert cells[i] == row[i - |prev|] && cells[j] == row[j - |prev|];
        } else {
          assert cells[i] == prev[i] && prev[i] in prev;
          assert 0 <= prev[i].y < m - 1;
          assert cells[j] == row[j - |prev|] && row[j - |prev|].y == m - 1;
        }
      }
    }
  }

  /** The offset of cell `p` from the wielder at `c`. */
  function Offset(p: Point, c: Point): Point
  {
    Point(p.x - c.x, c.y - p.y)
  }

  function Offsets(cells: seq<Point>, c: Point): (r: seq<Point>)
    ensures |r| == |cells|
    ensures forall i :: 0 <= i < |cells| ==> r[i] == Offset(cells[i], c)
  {
    seq(|cells|, i requires 0 <= i < |cells| => Offset(cells[i], c))
  }

  /** The cell an offset from the wielder at `c` points at. */
  function CellOf(o: Point, c: Point): Point
  {
    Point(c.x + o.x, c.y - o.y)
  }

  /** An offset names exactly one cell: the one it was taken from. */
  lemma OffsetsMembership(cells: seq<Point>, c: Point)
    ensures forall o :: o in Offsets(cells, c) <==> CellOf(o, c) in cells
  {
    var offsets := Offsets(cells, c);
    forall o | o in offsets
      ensures CellOf(o, c) in cells
    {
      var i :| 0 <= i < |offsets| && offsets[i] == o;
      assert CellOf(o, c) == cells[i];
    }
    forall o | CellOf(o, c) in cells
      ensures o in offsets
    {
      var i :| 0 <= i < |cells| && cells[i] == CellOf(o, c);
      assert offsets[i] == o;
    }
  }

  lemma OffsetsSnoc(cells: seq<Point>, p: Point, c: Point)
    ensures Offsets(cells + [p], c) == Offsets(cells, c) + [Offset(p, c)]
  {
  }

  /** Scans every line in full for the wielder mark. The last 'x' in
      reading order wins; with no 'x' the wielder sits at (0, 0). */
  method CentralPoint(grid: seq<string>) returns (c: Point)
    ensures !Marked(grid) ==> c == Point(0, 0)
    ensures Marked(grid) ==>
              CellIs(grid, c.x, c.y, 'x') &&
              forall y, x :: CellIs(grid, x, y, 'x') ==> !Before(c, Point(x, y))
  {
    c := Point(0, 0);
    ghost var found := false;
    var y := 0;
    while y < |grid|
      invariant 0 <= y <= |grid|
      invariant !found ==> c == Point(0, 0)
      invariant !found ==> forall b, a :: b < y && CellIs(grid, a, b, 'x') ==> false
      invariant found ==> CellIs(grid, c.x, c.y, 'x') && c.y < y
      invariant found ==> forall b, a :: b < y && CellIs(grid, a, b, 'x') ==> !Before(c, Point(a, b))
    {
      var x := 0;
      while x < |grid[y]|
        invariant 0 <= x <= |grid[y]|
        invariant !found ==> c == Point(0, 0)
        invariant !found ==> forall b, a :: (b < y || (b == y && a < x)) && CellIs(grid, a, b, 'x') ==> false
        invariant found ==> CellIs(grid, c.x, c.y, 'x') && Before(c, Point(x, y))
        invariant found ==> forall b, a :: (b < y || (b == y && a < x)) && CellIs(grid, a, b, 'x') ==>
                              !Before(c, Point(a, b))
      {
        if grid[y][x] == 'x' {
          c := Point(x, y);
          found := true;
        }
        x := x + 1;
      }
      y := y + 1;
    }
  }

  /** Collects the offset of every '#' in the window, line by line and
      left to right within the width of line 0. */
  method HitOffsets(grid: seq<string>, c: Point) returns (offsets: seq<Point>)
    requires WindowFits(grid)
    ensures offsets == Offsets(Hits(grid, Width(grid), |grid|), c)
  {
    offsets := [];
    var y := 0;
    while y < |grid|
      invariant 0 <= y <= |grid|
      invariant offsets == Offsets(Hits(grid, Width(grid), y), c)
    {
      var x := 0;
      while x < |grid[0]|
        invariant 0 <= x <= |grid[0]|
        invariant offsets == Offsets(Hits(grid, Width(grid), y) + RowHits(grid[y], y, x), c)
      {
        ghost var done := Hits(grid, Width(grid), y);
        ghost var row := RowHits(grid[y], y, x);
        if grid[y][x] == '#' {
          assert RowHits(grid[y], y, x + 1) == row + [Point(x, y)];
          assert done + (row + [Point(x, y)]) == (done + row) + [Point(x, y)];
          OffsetsSnoc(done + row, Point(x, y), c);
          offsets := offsets + [Point(x - c.x, c.y - y)];
        } else {
          assert RowHits(grid[y], y, x + 1) == row;
        }
        x := x + 1;
      }
      assert Hits(grid, Width(grid), y + 1) == Hits(grid, Width(grid), y) + RowHits(grid[y], y, Width(grid));
      y := y + 1;
    }
  }

  /** The index of the first line shorter than line 0, if any. */
  function FirstShortRow(grid: seq<string>, from: nat): (r: int)
    requires from <= |grid|
    ensures r == -1 || from <= r < |grid|
    ensures r == -1 <==> forall y :: from <= y < |grid| ==> Width(grid) <= |grid[y]|
    ensures r != -1 ==> |grid[r]| < Width(grid) &&
                        forall y :: from <= y < r ==> Width(grid) <= |grid[y]|
    decreases |grid| - from
  {
    if from == |grid| then -1
    else if |grid[from]| < Width(grid) then from
    else FirstShortRow(grid, from + 1)
  }

  /** Some cell of the pattern marks the wielder. */
  predicate Marked(grid: seq<string>)
  {
    exists y, x | 0 <= y < |grid| && 0 <= x < |grid[y]| :: CellIs(grid, x, y, 'x')
  }

  /** The cells the offsets point at from the wielder at `c`. */
  function CellsOf(offsets: seq<Point>, c: Point): (cells: seq<Point>)
    ensures |cells| == |offsets|
    ensures forall i :: 0 <= i < |offsets| ==> cells[i] == CellOf(offsets[i], c)
  {
    seq(|offsets|, i requires 0 <= i < |offsets| => CellOf(offsets[i], c))
  }

  /** The offsets of the window's hits name exactly the window's '#'
      cells, in reading order. */
  lemma HitOffsetsExact(grid: seq<string>, c: Point)
    requires WindowFits(grid)
    ensures var offsets := Offsets(Hits(grid, Width(grid), |grid|), c);
            && (forall o :: o in offsets <==> InWindow(grid, CellOf(o, c), '#'))
            && InReadingOrder(CellsOf(offsets, c))
  {
    var cells := Hits(grid, Width(grid), |grid|);
    var offsets := Offsets(cells, c);
    HitsExact(grid, Width(grid), |grid|);
    OffsetsMembership(cells, c);
    forall o
      ensures o in offsets <==> InWindow(grid, CellOf(o, c), '#')
    {
      var p := CellOf(o, c);
      assert o in offsets <==> p in cells;
      assert p in cells <==> 0 <= p.y < |grid| && 0 <= p.x < Width(grid) && grid[p.y][p.x] == '#';
    }
    CellsOfOffsets(cells, c);
  }

  /** Following the offsets back from the wielder gives the cells again. */
  lemma CellsOfOffsets(cells: seq<Point>, c: Point)
    ensures CellsOf(Offsets(cells, c), c) == cells
  {
  }

  /** Offsets whose cells are in reading order are distinct, so each '#'
      yields exactly one hit. */
  lemma OffsetsDistinct(offsets: seq<Point>, c: Point)
    requires InReadingOrder(CellsOf(offsets, c))
    ensures forall i, j :: 0 <= i < j < |offsets| ==> offsets[i] != offsets[j]
  {
    forall i, j | 0 <= i < j < |offsets|
      ensures offsets[i] != offsets[j]
    {
      assert Before(CellsOf(offsets, c)[i], CellsOf(offsets, c)[j]);
    }
  }

  /** When the wielder's cell holds the 'x', no hit lands on the wielder. */
  lemma WielderNotHit(grid: seq<string>, c: Point, offsets: seq<Point>)
    requires CellIs(grid, c.x, c.y, 'x')
    requires forall o :: o in offsets <==> InWindow(grid, CellOf(o, c), '#')
    ensures Point(0, 0) !in offsets
  {
    assert CellOf(Point(0, 0), c) == c;
  }

  /** Decodes a hit pattern. A line shorter than line 0 makes decoding
      fail at the first such line. Otherwise the wielder is the last 'x'
      in reading order, or (0, 0) when there is none; each offset names a
      '#' inside the window, every such '#' yields exactly one offset, the
      offsets follow the reading order of their cells, and no hit lands on
      a marked wielder. */
  method Decode(grid: seq<string>) returns (d: Decoded)
    ensures d.RowTooShort? <==> !WindowFits(grid)
    ensures d.RowTooShort? ==> d.row < |grid| && |grid[d.row]| < Width(grid) &&
                               forall y :: 0 <= y < d.row ==> Width(grid) <= |grid[y]|
    ensures d.Pattern? && !Marked(grid) ==> d.centre == Point(0, 0)
    ensures d.Pattern? && Marked(grid) ==>
              CellIs(grid, d.centre.x, d.centre.y, 'x') &&
              forall y, x :: CellIs(grid, x, y, 'x') ==> !Before(d.centre, Point(x, y))
    ensures d.Pattern? ==> forall o :: o in d.offsets <==> InWindow(grid, CellOf(o, d.centre), '#')
    ensures d.Pattern? ==> InReadingOrder(CellsOf(d.offsets, d.centre))
    ensures d.Pattern? ==> forall i, j :: 0 <= i < j < |d.offsets| ==> d.offsets[i] != d.offsets[j]
    ensures d.Pattern? && Marked(grid) ==> Point(0, 0) !in d.offsets
  {
    var c := CentralPoint(grid);
    var short := FirstShortRow(grid, 0);
    if short != -1 {
      return RowTooShort(short);
    }
    var offsets := HitOffsets(grid, c);
    HitOffsetsExact(grid, c);
    OffsetsDistinct(offsets, c);
    if Marked(grid) {
      WielderNotHit(grid, c, offsets);
    }
    d := Pattern(c, offsets);
  }
}
