/**
 * The line-strip collision shape: an ordered list of points kept relative to
 * a position, optionally closed into a loop, whose absolute points and
 * segments are computed lazily into two caches that every position change
 * clears, and whose bounding box is grown over the local points and then moved
 * by the position.
 *
 * The first half states the geometry as pure functions of the stored points
 * and the position; the class `LineStrip` then keeps its caches equal to
 * those functions.
 */
module LineStrips {
  import opened Wrappers
  import opened Geometry

  /** The only error this shape raises. */
  datatype Error = IllegalAction(message: string)

  /** The error raised when a strip is given fewer than two points. */
  const NotEnoughVectors := IllegalAction("Not enough vectors for LineStrip (got to have at least two vectors)")

  // ---------------------------------------------------------------------------
  // Construction

  /**
   * The point list a strip stores for the given input: fewer than two points
   * is an error; a closed strip repeats its first point at the end; an open
   * strip keeps the input as it is.
   */
  function StoredPoints(points: seq<Vec>, closed: bool): (r: Result<seq<Vec>, Error>)
    ensures r.Failure? <==> |points| <= 1
    ensures r.Failure? ==> r.error == NotEnoughVectors
    ensures r.Success? ==> |r.value| == if closed then |points| + 1 else |points|
    ensures r.Success? ==> |r.value| >= 2 && r.value[..|points|] == points
    ensures r.Success? && closed ==> r.value[|r.value| - 1] == r.value[0]
  {
    if |points| <= 1 then Failure(NotEnoughVectors)
    else if closed then Success(points + [points[0]])
    else Success(points)
  }

  // ---------------------------------------------------------------------------
  // Absolute points and segments

  /** Each local point moved by `position`, in order. */
  function AbsPoints(points: seq<Vec>, position: Vec): (r: seq<Vec>)
    ensures |r| == |points|
    ensures forall i :: 0 <= i < |r| ==> r[i] == Add(points[i], position)
  {
    if points == [] then [] else [Add(points[0], position)] + AbsPoints(points[1..], position)
  }

  /** Each absolute point moved back by `position`: the local points again. */
  function LocalPoints(abs: seq<Vec>, position: Vec): (r: seq<Vec>)
    ensures |r| == |abs|
  {
    if abs == [] then [] else [Sub(abs[0], position)] + LocalPoints(abs[1..], position)
  }

  /** Moving the points out and back again gives the stored points. */
  lemma {:induction false} LocalOfAbsPoints(points: seq<Vec>, position: Vec)
    ensures LocalPoints(AbsPoints(points, position), position) == points
  {
    if points != [] {
      LocalOfAbsPoints(points[1..], position);
      assert AbsPoints(points, position)[1..] == AbsPoints(points[1..], position);
    }
  }

  /** A strip anchored at the origin has its stored points as its absolute points. */
  lemma AbsPointsAtOrigin(points: seq<Vec>)
    ensures AbsPoints(points, Vec(0, 0)) == points
  {
    var abs := AbsPoints(points, Vec(0, 0));
    assert forall i :: 0 <= i < |points| ==> abs[i] == points[i];
  }

  /** Taking a prefix of the local points takes the same prefix of the absolute ones. */
  lemma AbsPointsPrefix(points: seq<Vec>, position: Vec, k: nat)
    requires k <= |points|
    ensures AbsPoints(points[..k], position) == AbsPoints(points, position)[..k]
  {
  }

  /** The segments between consecutive points: one fewer than the points, none for fewer than two. */
  function AbsLines(abs: seq<Vec>): (r: seq<Line>)
    ensures |r| == if |abs| <= 1 then 0 else |abs| - 1
    ensures forall i :: 0 <= i < |r| ==> r[i] == Line(abs[i], abs[i + 1])
  {
    if |abs| <= 1 then [] else [Line(abs[0], abs[1])] + AbsLines(abs[1..])
  }

  /** Consecutive segments share an endpoint. */
  predicate Chained(lines: seq<Line>) {
    forall i, j :: 0 <= i < |lines| && j == i + 1 < |lines| ==> lines[i].to == lines[j].from
  }

  /** The points a chain of segments passes through: the first start, then every end. */
  function Vertices(lines: seq<Line>): (r: seq<Vec>)
    ensures |r| == if lines == [] then 0 else |lines| + 1
  {
    if lines == [] then []
    else if |lines| == 1 then [lines[0].from, lines[0].to]
    else [lines[0].from] + Vertices(lines[1..])
  }

  /** The segments of a strip form a chain from its first point to its last. */
  lemma AbsLinesChained(abs: seq<Vec>)
    requires |abs| >= 2
    ensures Chained(AbsLines(abs))
    ensures AbsLines(abs)[0].from == abs[0]
    ensures AbsLines(abs)[|abs| - 2].to == abs[|abs| - 1]
  {
  }

  /** The segments of a strip give back its points: nothing is lost or reordered. */
  lemma {:induction false} VerticesOfAbsLines(abs: seq<Vec>)
    requires |abs| >= 2
    ensures Vertices(AbsLines(abs)) == abs
  {
    if |abs| > 2 {
      VerticesOfAbsLines(abs[1..]);
      assert AbsLines(abs)[1..] == AbsLines(abs[1..]);
    }
  }

  /** A closed strip's last segment ends where its first begins. */
  lemma ClosedStripLoops(points: seq<Vec>, position: Vec)
    requires |points| >= 2
    ensures var lines := AbsLines(AbsPoints(StoredPoints(points, true).value, position));
            |lines| == |points| && lines[|lines| - 1].to == lines[0].from
  {
  }

  // ---------------------------------------------------------------------------
  // Bounding box

  /**
   * `start` grown by `add_vector` over `points`, first to last: it covers
   * `start` and every point, and is well formed whenever `start` is.
   */
  function Cover(start: Aabb, points: seq<Vec>): (r: Aabb)
    ensures Encloses(r, start)
    ensures forall i :: 0 <= i < |points| ==> Contains(r, points[i])
    ensures WellFormed(start) ==> WellFormed(r)
    decreases |points|
  {
    if points == [] then start
    else
      var init := points[..|points| - 1];
      assert forall i :: 0 <= i < |init| ==> init[i] == points[i];
      AddVector(Cover(start, init), points[|points| - 1])
  }

  /** Covering one more point is one more `add_vector`. */
  lemma CoverSnoc(start: Aabb, points: seq<Vec>, v: Vec)
    ensures Cover(start, points + [v]) == AddVector(Cover(start, points), v)
  {
    assert (points + [v])[..|points|] == points;
  }

  /** Any box covering `start` and every point covers the grown box: it is the smallest one. */
  lemma {:induction false} CoverLeast(start: Aabb, points: seq<Vec>, c: Aabb)
    requires Encloses(c, start)
    requires forall i :: 0 <= i < |points| ==> Contains(c, points[i])
    ensures Encloses(c, Cover(start, points))
    decreases |points|
  {
    if points != [] {
      var init := points[..|points| - 1];
      assert forall i :: 0 <= i < |init| ==> init[i] == points[i];
      CoverLeast(start, init, c);
      AddVectorLeast(Cover(start, init), points[|points| - 1], c);
    }
  }

  /** Growing and then moving is the same as moving and then growing by the moved points. */
  lemma {:induction false} CoverTranslate(start: Aabb, points: seq<Vec>, d: Vec)
    ensures Translate(Cover(start, points), d) == Cover(Translate(start, d), AbsPoints(points, d))
    decreases |points|
  {
    if points != [] {
      var n := |points| - 1;
      CoverTranslate(start, points[..n], d);
      AbsPointsPrefix(points, d, n);
      TranslateAddVector(Cover(start, points[..n]), points[n], d);
    }
  }

  /**
   * The box `build_aabb` returns: a zero box at the origin grown over the
   * local points, then moved by `position`. It is well formed and covers the
   * position and every absolute point.
   */
  function BoundingBox(points: seq<Vec>, position: Vec): (r: Aabb)
    ensures WellFormed(r)
    ensures Contains(r, position)
    ensures forall i :: 0 <= i < |points| ==> Contains(r, Add(points[i], position))
  {
    Translate(Cover(ZeroBox, points), position)
  }

  /** Any box covering the position and every absolute point covers the box: it is the tightest such box. */
  lemma BoundingBoxLeast(points: seq<Vec>, position: Vec, c: Aabb)
    requires Contains(c, position)
    requires forall i :: 0 <= i < |points| ==> Contains(c, Add(points[i], position))
    ensures Encloses(c, BoundingBox(points, position))
  {
    var back := Vec(-position.x, -position.y);
    var local := Translate(c, back);
    assert Translate(local, position) == c;
    TranslateContains(local, Zero, position);
    forall i | 0 <= i < |points| ensures Contains(local, points[i]) {
      TranslateContains(local, points[i], position);
    }
    CoverLeast(ZeroBox, points, local);
    TranslateEncloses(local, Cover(ZeroBox, points), position);
  }

  /** Growing in local space and then moving equals growing, from the position, over the absolute points. */
  lemma BoundingBoxInAbsoluteSpace(points: seq<Vec>, position: Vec)
    ensures BoundingBox(points, position) == Cover(Aabb(position, Zero), AbsPoints(points, position))
  {
    CoverTranslate(ZeroBox, points, position);
  }

  // ---------------------------------------------------------------------------
  // The shape

  /** A line strip with its two lazily filled caches. */
  class LineStrip {
    /** The stored local points, relative to `position`. */
    var points: seq<Vec>
    /** The shape's anchor in world space. */
    var position: Vec
    /** The absolute points, once computed since the last position change. */
    var absPointsCache: Option<seq<Vec>>
    /** The absolute segments, once computed since the last position change. */
    var absLinesCache: Option<seq<Line>>

    /** At least two points; each cache, when present, agrees with the current points and position; the segments are only cached once the points are. */
    ghost predicate Valid()
      reads this
    {
      && |points| >= 2
      && (absPointsCache.Some? ==> absPointsCache.value == AbsPoints(points, position))
      && (absLinesCache.Some? ==> absLinesCache.value == AbsLines(AbsPoints(points, position)))
      && (absLinesCache.Some? ==> absPointsCache.Some?)
    }

    /**
     * Builds a strip, or fails when it is given fewer than two points. A
     * closed strip repeats its first point at the end; the caches start empty.
     */
    static method Create(position: Vec, points: seq<Vec>, closed: bool) returns (r: Result<LineStrip, Error>)
      ensures r.Failure? <==> |points| <= 1
      ensures r.Failure? ==> r.error == NotEnoughVectors
      ensures r.Success? ==> fresh(r.value) && r.value.Valid()
      ensures r.Success? ==> r.value.points == StoredPoints(points, closed).value
      ensures r.Success? ==> r.value.position == position
      ensures r.Success? ==> r.value.absPointsCache.None? && r.value.absLinesCache.None?
    {
      if |points| <= 1 {
        return Failure(NotEnoughVectors);
      }
      var strip := new LineStrip(position, points, closed);
      return Success(strip);
    }

    /** The allocation step of `Create`, once the length check has passed. */
    constructor (position: Vec, points: seq<Vec>, closed: bool)
      requires |points| >= 2
      ensures Valid()
      ensures this.points == StoredPoints(points, closed).value
      ensures this.position == position
      ensures absPointsCache.None? && absLinesCache.None?
    {
      this.points := points;
      this.position := Zero;
      absPointsCache := None;
      absLinesCache := None;
      new;
      if closed {
        this.points := this.points + [this.points[0]];
      }
      SetPosition(position);
    }

    /** Moves the strip, then runs the hook that clears both caches. */
    method SetPosition(newPosition: Vec)
      requires Valid()
      modifies this`position, this`absPointsCache, this`absLinesCache
      ensures Valid()
      ensures position == newPosition
      ensures absPointsCache.None? && absLinesCache.None?
    {
      position := newPosition;
      UpdatePositionHook();
    }

    /** Clears the absolute points and segments caches. */
    method UpdatePositionHook()
      modifies this`absPointsCache, this`absLinesCache
      ensures absPointsCache.None? && absLinesCache.None?
    {
      absPointsCache := None;
      absLinesCache := None;
    }

    /**
     * The stored points moved by the position. A filled cache is returned as
     * it is; otherwise the points are computed and the cache is filled.
     */
    method GetAbsPoints() returns (r: seq<Vec>)
      requires Valid()
      modifies this`absPointsCache
      ensures Valid()
      ensures |r| == |points|
      ensures forall i :: 0 <= i < |r| ==> r[i] == Add(points[i], position)
      ensures absPointsCache == Some(r)
      ensures old(absPointsCache).Some? ==> r == old(absPointsCache).value
    {
      if absPointsCache.Some? {
        return absPointsCache.value;
      }
      var ret: seq<Vec> := [];
      var i := 0;
      while i < |points|
        invariant 0 <= i <= |points|
        invariant |ret| == i
        invariant forall k :: 0 <= k < i ==> ret[k] == Add(points[k], position)
      {
        ret := ret + [Add(points[i], position)];
        i := i + 1;
      }
      assert ret == AbsPoints(points, position);
      absPointsCache := Some(ret);
      return ret;
    }

    /**
     * The segments between consecutive absolute points. A filled cache is
     * returned as it is, leaving the points cache alone; otherwise the
     * segments are computed from `GetAbsPoints` and the cache is filled.
     */
    method GetAbsLines() returns (r: seq<Line>)
      requires Valid()
      modifies this`absPointsCache, this`absLinesCache
      ensures Valid()
      ensures r == AbsLines(AbsPoints(points, position))
      ensures |r| == |points| - 1
      ensures forall i :: 0 <= i < |r| ==> r[i] == Line(Add(points[i], position), Add(points[i + 1], position))
      ensures absLinesCache == Some(r)
      ensures old(absLinesCache).Some? ==> r == old(absLinesCache).value && absPointsCache == old(absPointsCache)
      ensures old(absLinesCache).None? ==> absPointsCache == Some(AbsPoints(points, position))
    {
      if absLinesCache.Some? {
        return absLinesCache.value;
      }
      var abs := GetAbsPoints();
      var ret: seq<Line> := [];
      var i := 0;
      while i < |abs| - 1
        invariant 0 <= i <= |abs| - 1
        invariant |ret| == i
        invariant forall k :: 0 <= k < i ==> ret[k] == Line(abs[k], abs[k + 1])
      {
        ret := ret + [Line(abs[i], abs[i + 1])];
        i := i + 1;
      }
      assert |abs| >= 2;
      assert |AbsLines(abs)| == |ret|;
      forall k | 0 <= k < |ret| ensures ret[k] == AbsLines(abs)[k] {
        assert ret[k] == Line(abs[k], abs[k + 1]);
      }
      assert ret == AbsLines(abs);
      absLinesCache := Some(ret);
      return ret;
    }

    /**
     * The bounding box: a zero box at the origin grown over the local points,
     * then moved by the position. It reads neither cache, covers the position
     * and every absolute point, and is the tightest box that does so.
     */
    method BuildAabb() returns (r: Aabb)
      ensures r == BoundingBox(points, position)
      ensures WellFormed(r) && Contains(r, position)
      ensures forall i :: 0 <= i < |points| ==> Contains(r, Add(points[i], position))
    {
      var ret := ZeroBox;
      for i := 0 to |points|
        invariant ret == Cover(ZeroBox, points[..i])
      {
        assert points[..i + 1] == points[..i] + [points[i]];
        CoverSnoc(ZeroBox, points[..i], points[i]);
        ret := AddVector(ret, points[i]);
      }
      assert points[..|points|] == points;
      ret := Aabb(Add(ret.position, position), ret.size);
      return ret;
    }
  }
}
