/**
  Geometry primitives shared by every part of the model: two-component
  vectors, axis-aligned rectangles given by a top-left corner and a size,
  and the one rectangle-intersection predicate the whole game uses.
 */
module Geometry {

  /** A position or a velocity (world units, y grows downwards). */
  datatype Vec = Vec(x: real, y: real)

  /** An axis-aligned box: top-left corner (x, y), width w, height h. */
  datatype Rect = Rect(x: real, y: real, w: real, h: real)

  function Left(r: Rect): real { r.x }
  function Right(r: Rect): real { r.x + r.w }
  function Top(r: Rect): real { r.y }
  function Bottom(r: Rect): real { r.y + r.h }

  function Add(a: Vec, b: Vec): Vec { Vec(a.x + b.x, a.y + b.y) }
  function Sub(a: Vec, b: Vec): Vec { Vec(a.x - b.x, a.y - b.y) }

  /**
    Rectangle intersection: the two boxes are not disjoint on either axis.
    Edge convention (stated once, used everywhere): boxes that only touch
    along an edge do NOT intersect, so a body resting flush on a tile is
    not colliding with it.
   */
  predicate Intersects(a: Rect, b: Rect)
  {
    && Left(a) < Right(b) && Left(b) < Right(a)
    && Top(a) < Bottom(b) && Top(b) < Bottom(a)
  }

  /** Intersection does not depend on the order of the two boxes. */
  lemma IntersectsSymmetric(a: Rect, b: Rect)
    ensures Intersects(a, b) <==> Intersects(b, a)
  {
  }

  function Abs(v: real): (r: real)
    ensures r >= 0.0
    ensures r == v || r == -v
  {
    if v < 0.0 then -v else v
  }

  function Min(a: real, b: real): (r: real)
    ensures r <= a && r <= b
    ensures r == a || r == b
  {
    if a <= b then a else b
  }

  /** The C# `(int)` conversion of a floating value: truncation toward zero. */
  function Trunc(v: real): (r: int)
    ensures v >= 0.0 ==> r as real <= v < r as real + 1.0
    ensures v < 0.0 ==> r as real - 1.0 < v <= r as real && r <= 0
  {
    if v >= 0.0 then v.Floor else -((-v).Floor)
  }
}
