/**
 * The value-type primitives a line strip is built from: 2D vectors, segments
 * between two absolute points, and axis-aligned bounding boxes (AABBs).
 * Coordinates are unbounded integers standing in for the library's floats.
 */
module Geometry {

  /** A 2D point or displacement. */
  datatype Vec = Vec(x: int, y: int)

  /** The origin, the library's zero vector. */
  const Zero := Vec(0, 0)

  /** Component-wise sum, the vectors' `add`. */
  function Add(a: Vec, b: Vec): Vec {
    Vec(a.x + b.x, a.y + b.y)
  }

  /** Component-wise difference, the vectors' `sub`. */
  function Sub(a: Vec, b: Vec): Vec {
    Vec(a.x - b.x, a.y - b.y)
  }

  function Min(a: int, b: int): int {
    if a <= b then a else b
  }

  function Max(a: int, b: int): int {
    if a <= b then b else a
  }

  /** A segment from one absolute point to the next. */
  datatype Line = Line(from: Vec, to: Vec)

  /** An axis-aligned box given by its minimum corner and its extent. */
  datatype Aabb = Aabb(position: Vec, size: Vec)

  /** The box a fresh `AABB(ZERO, ZERO)` denotes: one point, at the origin. */
  const ZeroBox := Aabb(Zero, Zero)

  /** A box whose extent is not negative on either axis. */
  predicate WellFormed(b: Aabb) {
    b.size.x >= 0 && b.size.y >= 0
  }

  /** `v` lies inside `b` or on its border. */
  predicate Contains(b: Aabb, v: Vec) {
    && b.position.x <= v.x <= b.position.x + b.size.x
    && b.position.y <= v.y <= b.position.y + b.size.y
  }

  /** Every point of `inner` lies in `outer`: `outer` spans `inner` on both axes. */
  predicate Encloses(outer: Aabb, inner: Aabb) {
    && outer.position.x <= inner.position.x
    && inner.position.x + inner.size.x <= outer.position.x + outer.size.x
    && outer.position.y <= inner.position.y
    && inner.position.y + inner.size.y <= outer.position.y + outer.size.y
  }

  /** The box's `add_vector`: grows `b` so that it is well formed and covers `v` and all of `b`. */
  function AddVector(b: Aabb, v: Vec): (r: Aabb)
    ensures Contains(r, v)
    ensures Encloses(r, b)
    ensures WellFormed(r)
  {
    Aabb(Vec(Min(b.position.x, v.x), Min(b.position.y, v.y)),
         Vec(Max(b.position.x + b.size.x, v.x) - Min(b.position.x, v.x),
             Max(b.position.y + b.size.y, v.y) - Min(b.position.y, v.y)))
  }

  /** Any box covering `b` and `v` also covers `AddVector(b, v)`. */
  lemma AddVectorLeast(b: Aabb, v: Vec, c: Aabb)
    requires Encloses(c, b) && Contains(c, v)
    ensures Encloses(c, AddVector(b, v))
  {
  }

  /** Moves a box by `d` without changing its extent (`position.add_self(d)`). */
  function Translate(b: Aabb, d: Vec): (r: Aabb)
    ensures r.size == b.size
    ensures Sub(r.position, d) == b.position
  {
    Aabb(Add(b.position, d), b.size)
  }

  /** Containment is preserved by moving the box and the point together. */
  lemma TranslateContains(b: Aabb, v: Vec, d: Vec)
    ensures Contains(Translate(b, d), Add(v, d)) <==> Contains(b, v)
  {
  }

  /** Enclosure is preserved by moving both boxes together. */
  lemma TranslateEncloses(outer: Aabb, inner: Aabb, d: Vec)
    ensures Encloses(Translate(outer, d), Translate(inner, d)) <==> Encloses(outer, inner)
  {
  }

  /** Growing then moving gives the same box as moving then growing by the moved point. */
  lemma TranslateAddVector(b: Aabb, v: Vec, d: Vec)
    ensures Translate(AddVector(b, v), d) == AddVector(Translate(b, d), Add(v, d))
  {
  }
}
