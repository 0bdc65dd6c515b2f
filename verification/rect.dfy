/**
 * Rectangle overlap as the box selection tests it.  A rectangle is its
 * top-left corner and its size; coordinates are exact reals standing for
 * the browser's pixel coordinates.
 */
module Rects {

  datatype Rect = Rect(x: real, y: real, width: real, height: real)

  /**
   * The two rectangles overlap: each starts strictly before the other ends,
   * on both axes.  Touching edges and corners do not count.
   */
  predicate IsRectangleIntersect(rect1: Rect, rect2: Rect)
    ensures IsRectangleIntersect(rect1, rect2) ==>
              rect1.width + rect2.width > 0.0 && rect1.height + rect2.height > 0.0
  {
    var x1, y1 := rect1.x, rect1.y;
    var x2, y2 := rect1.x + rect1.width, rect1.y + rect1.height;
    var x3, y3 := rect2.x, rect2.y;
    var x4, y4 := rect2.x + rect2.width, rect2.y + rect2.height;
    x1 < x4 && x2 > x3 && y1 < y4 && y2 > y3
  }

  predicate NonNegative(r: Rect) {
    r.width >= 0.0 && r.height >= 0.0
  }

  /** `r` moved by (dx, dy). */
  function Translate(r: Rect, dx: real, dy: real): (t: Rect)
    ensures NonNegative(t) == NonNegative(r)
    ensures forall px, py :: Inside(r, px, py) <==> Inside(t, px + dx, py + dy)
  {
    Rect(r.x + dx, r.y + dy, r.width, r.height)
  }

  /** A point strictly inside `r`. */
  predicate Inside(r: Rect, px: real, py: real) {
    r.x < px < r.x + r.width && r.y < py < r.y + r.height
  }

  /** Overlap does not depend on which rectangle comes first. */
  lemma IntersectSymmetric(rect1: Rect, rect2: Rect)
    ensures IsRectangleIntersect(rect1, rect2) == IsRectangleIntersect(rect2, rect1)
  {
  }

  /** Rectangles that meet along a vertical or horizontal edge, or at a corner, do not overlap. */
  lemma EdgeTouchExcluded(rect1: Rect, rect2: Rect)
    requires rect1.x + rect1.width == rect2.x || rect2.x + rect2.width == rect1.x ||
             rect1.y + rect1.height == rect2.y || rect2.y + rect2.height == rect1.y
    ensures !IsRectangleIntersect(rect1, rect2)
  {
  }

  /** A rectangle overlaps itself exactly when both sizes are positive. */
  lemma SelfIntersect(r: Rect)
    requires NonNegative(r)
    ensures IsRectangleIntersect(r, r) <==> r.width > 0.0 && r.height > 0.0
  {
  }

  /** Two rectangles of zero width never overlap, nor two of zero height. */
  lemma ZeroWidthPair(rect1: Rect, rect2: Rect)
    requires (rect1.width == 0.0 && rect2.width == 0.0) || (rect1.height == 0.0 && rect2.height == 0.0)
    ensures !IsRectangleIntersect(rect1, rect2)
  {
  }

  /** A zero-area rectangle strictly inside a larger one does overlap it: degenerate is not disjoint. */
  lemma DegenerateInside(r: Rect, px: real, py: real)
    requires Inside(r, px, py)
    ensures IsRectangleIntersect(Rect(px, py, 0.0, 0.0), r)
  {
  }

  /** Moving both rectangles by the same offset keeps the answer. */
  lemma TranslationInvariant(rect1: Rect, rect2: Rect, dx: real, dy: real)
    ensures IsRectangleIntersect(Translate(rect1, dx, dy), Translate(rect2, dx, dy)) ==
            IsRectangleIntersect(rect1, rect2)
  {
  }

  function Max(a: real, b: real): real {
    if a < b then b else a
  }

  function Min(a: real, b: real): real {
    if a < b then a else b
  }

  /** Rectangles of positive size overlap exactly when some point lies strictly inside both. */
  lemma IntersectIffCommonPoint(rect1: Rect, rect2: Rect)
    requires rect1.width > 0.0 && rect1.height > 0.0 && rect2.width > 0.0 && rect2.height > 0.0
    ensures IsRectangleIntersect(rect1, rect2) <==>
            exists px: real, py: real :: Inside(rect1, px, py) && Inside(rect2, px, py)
  {
    if IsRectangleIntersect(rect1, rect2) {
      var px := (Max(rect1.x, rect2.x) + Min(rect1.x + rect1.width, rect2.x + rect2.width)) / 2.0;
      var py := (Max(rect1.y, rect2.y) + Min(rect1.y + rect1.height, rect2.y + rect2.height)) / 2.0;
      assert Inside(rect1, px, py) && Inside(rect2, px, py);
    }
  }
}
