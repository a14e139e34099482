/**
 * Worked examples: the segments, points and box of two concrete strips, and a
 * client of `LineStrip` that relies on its contracts alone across a position
 * change.
 */
module Scenarios {
  import opened Wrappers
  import opened Geometry
  import opened LineStrips

  /** Fewer than two points is refused, whether or not the strip is closed. */
  lemma TooFewPoints(closed: bool)
    ensures StoredPoints([], closed) == Failure(NotEnoughVectors)
    ensures StoredPoints([Vec(1, 2)], closed) == Failure(NotEnoughVectors)
  {
  }

  /**
   * An open strip through (0,0), (10,0), (10,10) anchored at the origin
   * stores its points unchanged, and they are its own absolute points.
   */
  lemma OpenStripAtOriginPoints(pts: seq<Vec>)
    requires pts == [Vec(0, 0), Vec(10, 0), Vec(10, 10)]
    ensures StoredPoints(pts, false) == Success(pts)
    ensures AbsPoints(pts, Vec(0, 0)) == pts
  {
    AbsPointsAtOrigin(pts);
  }

  /** The segments of that strip join its absolute points in order. */
  lemma OpenStripAtOriginLines()
    ensures AbsLines([Vec(0, 0), Vec(10, 0), Vec(10, 10)]) == [Line(Vec(0, 0), Vec(10, 0)), Line(Vec(10, 0), Vec(10, 10))]
  {
  }

  /** The closed triangle (0,0), (1,0), (1,1) anchored at (5,5): its stored and absolute points. */
  lemma ClosedStripWithOffset()
    ensures StoredPoints([Vec(0, 0), Vec(1, 0), Vec(1, 1)], true) == Success([Vec(0, 0), Vec(1, 0), Vec(1, 1), Vec(0, 0)])
    ensures AbsPoints([Vec(0, 0), Vec(1, 0), Vec(1, 1), Vec(0, 0)], Vec(5, 5)) == [Vec(5, 5), Vec(6, 5), Vec(6, 6), Vec(5, 5)]
  {
    assert [Vec(0, 0), Vec(1, 0), Vec(1, 1)] + [Vec(0, 0)] == [Vec(0, 0), Vec(1, 0), Vec(1, 1), Vec(0, 0)];
  }

  /**
   * The box of the closed triangle anchored at (5,5): corner (5,5), size
   * (1,1). The literals are bound through the requires so that the box is
   * derived from the contracts of `BoundingBox` and `BoundingBoxLeast` rather
   * than by unfolding the growth step by step.
   */
  lemma ClosedStripWithOffsetBox(pts: seq<Vec>, p: Vec)
    requires pts == [Vec(0, 0), Vec(1, 0), Vec(1, 1), Vec(0, 0)] && p == Vec(5, 5)
    ensures BoundingBox(pts, p) == Aabb(Vec(5, 5), Vec(1, 1))
  {
    var c := Aabb(Vec(5, 5), Vec(1, 1));
    forall i | 0 <= i < |pts| ensures Contains(c, Add(pts[i], p)) {}
    BoundingBoxLeast(pts, p, c);
    assert Contains(BoundingBox(pts, p), Add(pts[2], p));
  }

  /**
   * A client: two queries without a move agree, and after a move the points
   * and segments reflect the new position, never the old one.
   */
  method QueryAcrossMove(strip: LineStrip, p: Vec)
    requires strip.Valid()
    modifies strip
  {
    var first := strip.GetAbsPoints();
    var second := strip.GetAbsPoints();
    assert second == first;
    strip.SetPosition(p);
    var moved := strip.GetAbsPoints();
    assert forall i :: 0 <= i < |moved| ==> moved[i] == Add(strip.points[i], p);
    var lines := strip.GetAbsLines();
    assert lines[0].from == moved[0];
  }
}
