/** The play field and the box-overlap test used for every hit in the game. */
module Geometry {

  /** Logical size of the play field. */
  const GameWidth: int := 224
  const GameHeight: int := 256

  /** An axis-aligned box: top-left corner, width and height. */
  datatype Box = Box(x: int, y: int, w: int, h: int)

  /** `a` reaches into `b` along x: its left edge or its right edge lies strictly
      inside `b`'s x-extent. */
  predicate OverlapX(a: Box, b: Box)
  {
    (a.x > b.x && a.x < b.x + b.w) || (a.x + a.w > b.x && a.x + a.w < b.x + b.w)
  }

  /** The same test along y. */
  predicate OverlapY(a: Box, b: Box)
  {
    (a.y > b.y && a.y < b.y + b.h) || (a.y + a.h > b.y && a.y + a.h < b.y + b.h)
  }

  /** The game's hit test: `a` reaches into `b` on both axes. */
  predicate Overlap(a: Box, b: Box)
  {
    OverlapX(a, b) && OverlapY(a, b)
  }

  /** Reference notion: the open interiors of the two boxes intersect. */
  predicate Intersects(a: Box, b: Box)
  {
    a.x < b.x + b.w && b.x < a.x + a.w && a.y < b.y + b.h && b.y < a.y + a.h
  }

  /** Every hit the game detects is a true intersection of the two boxes. */
  lemma OverlapIsSound(a: Box, b: Box)
    requires a.w >= 0 && a.h >= 0
    ensures Overlap(a, b) ==> Intersects(a, b)
  {
  }

  /** Boxes that only touch along an edge (on either axis, on either side) never overlap. */
  lemma TouchingEdgesDoNotOverlap(a: Box, b: Box)
    requires a.w >= 0 && a.h >= 0 && b.w >= 0 && b.h >= 0
    ensures a.x + a.w == b.x || b.x + b.w == a.x || a.y + a.h == b.y || b.y + b.h == a.y
            ==> !Overlap(a, b)
  {
  }

  /** Because both bounds are strict, a box never overlaps an identical box. */
  lemma NoSelfOverlap(a: Box)
    ensures !Overlap(a, a)
  {
  }

  /** A 1x4 missile at x = 50 hits the box (48, 48, 11, 8); the same missile at x = 60,
      one unit past that box's right edge, does not. */
  lemma MissileExample()
    ensures Overlap(Box(50, 48, 1, 4), Box(48, 48, 11, 8))
    ensures !Overlap(Box(60, 48, 1, 4), Box(48, 48, 11, 8))
  {
  }

  /** Only partial overlap is detected: a box that contains another one intersects it,
      yet does not "overlap" it, while the contained box does overlap the container. */
  lemma OverlapIsNotSymmetric()
    ensures Intersects(Box(48, 48, 11, 8), Box(50, 48, 1, 4))
    ensures !Overlap(Box(48, 48, 11, 8), Box(50, 48, 1, 4))
    ensures Overlap(Box(50, 48, 1, 4), Box(48, 48, 11, 8))
  {
  }
}
