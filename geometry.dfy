/** Axis-aligned geometry of the level: bounding boxes, the overlap test and
    the per-axis clamp against the level rectangle. */
module Geometry {

  /** A bounding box in the order the engine reports it: top, right, bottom, left. */
  datatype Box = Box(top: real, right: real, bottom: real, left: real)

  /** The box of an entity of the given size whose top-left corner is at (x, y). */
  function BoxAt(x: real, y: real, width: int, height: int): (b: Box)
    ensures b.left == x && b.top == y
    ensures b.right - b.left == width as real && b.bottom - b.top == height as real
  {
    Box(y, x + width as real, y + height as real, x)
  }

  /** Strict overlap of two boxes: touching edges do not count. */
  predicate Intersects(a: Box, b: Box)
    // boxes that only touch along an edge do not overlap
    ensures a.right == b.left || b.right == a.left || a.bottom == b.top || b.bottom == a.top
            ==> !Intersects(a, b)
  {
    a.left < b.right && a.right > b.left && a.top < b.bottom && a.bottom > b.top
  }

  /** The point (px, py) lies strictly inside the box. */
  predicate Inside(b: Box, px: real, py: real)
  {
    b.left < px < b.right && b.top < py < b.bottom
  }

  /** For boxes of positive size, the overlap test holds exactly when some
      point lies strictly inside both boxes. */
  lemma IntersectsIffSharedPoint(a: Box, b: Box)
    requires a.left < a.right && a.top < a.bottom
    requires b.left < b.right && b.top < b.bottom
    ensures Intersects(a, b) <==> exists px, py :: Inside(a, px, py) && Inside(b, px, py)
  {
    if Intersects(a, b) {
      var lo := if a.left < b.left then b.left else a.left;
      var hi := if a.right < b.right then a.right else b.right;
      var top := if a.top < b.top then b.top else a.top;
      var bottom := if a.bottom < b.bottom then a.bottom else b.bottom;
      var px := (lo + hi) / 2.0;
      var py := (top + bottom) / 2.0;
      assert Inside(a, px, py) && Inside(b, px, py);
    }
  }

  /** Overlap does not depend on which box is the mover. */
  lemma IntersectsSymmetric(a: Box, b: Box)
    ensures Intersects(a, b) <==> Intersects(b, a)
  {
  }

  /** True when a coordinate p of an extent `size` lies inside [0, limit]. */
  predicate InRange(p: real, size: int, limit: int)
  {
    0.0 <= p && p + size as real <= limit as real
  }

  /** The boundary check of one axis: a coordinate below zero is moved to zero,
      one whose far edge passes `limit` is moved back to `limit - size`; the flag
      says whether either correction happened. */
  function ClampAxis(p: real, size: int, limit: int): (r: (real, bool))
    ensures r.1 <==> !InRange(p, size, limit)
    ensures !r.1 ==> r.0 == p
    ensures size <= limit ==> InRange(r.0, size, limit)
    ensures size <= limit ==> (r.1 <==> r.0 != p)
  {
    if p < 0.0 then (0.0, true)
    else if p + size as real > limit as real then ((limit - size) as real, true)
    else (p, false)
  }
}
