/**
 Integer grid geometry shared by the dungeon generator: points and
 axis-aligned rectangles given by a corner and an extent.
 */
module Geometry {

  /** A grid coordinate; equality is exact integer equality. */
  datatype Point = Point(x: int, y: int)

  /** The cells `x <= cx < x + width`, `y <= cy < y + height`. */
  datatype Rect = Rect(x: int, y: int, width: int, height: int)

  predicate Contains(r: Rect, cx: int, cy: int)
  {
    r.x <= cx < r.x + r.width && r.y <= cy < r.y + r.height
  }

  predicate NonEmpty(r: Rect)
  {
    r.width > 0 && r.height > 0
  }

  /** `a` lies within `b`. */
  predicate Inside(a: Rect, b: Rect)
  {
    b.x <= a.x && a.x + a.width <= b.x + b.width &&
    b.y <= a.y && a.y + a.height <= b.y + b.height
  }

  /** `a` and `b` are separated along at least one axis. */
  predicate Disjoint(a: Rect, b: Rect)
  {
    a.x + a.width <= b.x || b.x + b.width <= a.x ||
    a.y + a.height <= b.y || b.y + b.height <= a.y
  }

  /** `r` with a margin of one cell on every side. */
  function Grown(r: Rect): Rect
  {
    Rect(r.x - 1, r.y - 1, r.width + 2, r.height + 2)
  }

  function Area(r: Rect): int
  {
    r.width * r.height
  }

  function Min(a: int, b: int): (m: int)
    ensures m <= a && m <= b && (m == a || m == b)
  {
    if a < b then a else b
  }

  /** Separation means the two rectangles share no cell, and for
      non-empty rectangles sharing no cell means separation. */
  lemma DisjointIffNoSharedCell(a: Rect, b: Rect)
    requires NonEmpty(a) && NonEmpty(b)
    ensures Disjoint(a, b) <==>
              forall cx, cy :: !(Contains(a, cx, cy) && Contains(b, cx, cy))
  {
    if !Disjoint(a, b) {
      var cx := if a.x < b.x then b.x else a.x;
      var cy := if a.y < b.y then b.y else a.y;
      assert Contains(a, cx, cy) && Contains(b, cx, cy);
    }
  }

  /** Containment between rectangles is containment of their cells. */
  lemma InsideIffCellsContained(a: Rect, b: Rect)
    requires NonEmpty(a)
    ensures Inside(a, b) <==>
              forall cx, cy :: Contains(a, cx, cy) ==> Contains(b, cx, cy)
  {
    if !Inside(a, b) {
      if b.x > a.x {
        assert Contains(a, a.x, a.y) && !Contains(b, a.x, a.y);
      } else if a.x + a.width > b.x + b.width {
        assert Contains(a, a.x + a.width - 1, a.y) && !Contains(b, a.x + a.width - 1, a.y);
      } else if b.y > a.y {
        assert Contains(a, a.x, a.y) && !Contains(b, a.x, a.y);
      } else {
        assert Contains(a, a.x, a.y + a.height - 1) && !Contains(b, a.x, a.y + a.height - 1);
      }
    }
  }

  /** Rectangles inside two separated rectangles are separated. */
  lemma InsideDisjoint(a: Rect, b: Rect, outerA: Rect, outerB: Rect)
    requires Inside(a, outerA) && Inside(b, outerB) && Disjoint(outerA, outerB)
    ensures Disjoint(a, b)
  {
  }
}
