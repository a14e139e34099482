# Line strip collision shape, modelled in Dafny

This project models the line-strip shape of the SSCD 2D collision library
(`src/shapes/lines_strip.js`). A line strip is a polyline. It stores its points
relative to a position. It can be closed into a loop by repeating its first
point. It computes its absolute points and segments lazily into two caches,
and a position change clears both caches. Its axis-aligned bounding box (AABB)
is grown over the local points and then moved by the position.

Files:

- `geometry.dfy` (module `Geometry`): the value primitives the shape uses.
  These are 2D vectors with integer coordinates, segments, and boxes given by a
  minimum corner and a size. It also holds the two box operations the shape
  calls: `add_vector` (`AddVector`) and moving the box's position (`Translate`).
- `wrappers.dfy` (module `Wrappers`): `Option` for the caches and `Result` for
  a construction that can fail.
- `line_strips.dfy` (module `LineStrips`): the shape itself. First come pure
  specification functions of the stored points and the position
  (`StoredPoints`, `AbsPoints`, `AbsLines`, `Cover`, `BoundingBox`) and
  the lemmas about them. Then comes the class `LineStrip`. Its fields are the
  stored points, the position and the two caches. `Valid()` says that each
  cache, when filled, equals the matching specification function of the
  current points and position, and that the segments are only cached once the
  points are. Its methods follow the source's loops and
  cache writes.
- `scenarios.dfy` (module `Scenarios`): worked examples on concrete strips. It
  also has a client method that relies only on the class's contracts across a
  position change.

Two collaborators are not part of this model, so they are stated as
assumptions:

- The base shape's `set_position` assigns the position and then calls the
  strip's `__update_position_hook` (`LineStrip.SetPosition`).
- The box's `add_vector` grows the box to the smallest box that covers the old
  box and the given point (`AddVector` and `AddVectorLeast`).

`build_aabb` starts from a zero-size box at the origin (line 137), so the box
is not always the tightest box around the absolute points: after the move it
also covers the position. `BoundingBoxLeast` proves it is the tightest box
around the absolute points and the position. For a strip whose points surround
the origin, the two boxes are the same.

## Model

| member | source | states |
|---|---|---|
| LineStrips.StoredPoints | src/shapes/lines_strip.js:19-32 | fewer than two points fails with the "not enough vectors" error and two or more succeed; a closed strip stores the input plus one more point equal to the first; an open strip stores the input unchanged |
| LineStrips.LineStrip.Create | src/shapes/lines_strip.js:14-36 | construction fails exactly when given at most one point; on success the fresh strip is valid, holds `StoredPoints` of the input, sits at the given position and has both caches empty |
| LineStrips.LineStrip.constructor | src/shapes/lines_strip.js:17-35 | for two or more points: stores the points, appends the first point when closed, then sets the position through `SetPosition`, which leaves both caches empty |
| LineStrips.LineStrip.Valid | src/shapes/lines_strip.js:87-131 | the invariant every method keeps: at least two stored points; a filled points cache equals `AbsPoints` of the current points and position; a filled segments cache equals `AbsLines` of those; the segments cache is only filled while the points cache is (`get_abs_lines` calls `get_abs_points` at line 93, which fills the points cache at line 122, before it fills the segments cache at line 101; lines 130-131 clear both) |
| LineStrips.LineStrip.SetPosition | src/shapes/lines_strip.js:35 | (assumed base behaviour) the position becomes the new one, the points are unchanged, both caches are cleared and the invariant still holds |
| LineStrips.LineStrip.UpdatePositionHook | src/shapes/lines_strip.js:127-132 | both the points cache and the segments cache become empty and nothing else changes |
| LineStrips.LineStrip.GetAbsPoints | src/shapes/lines_strip.js:106-124 | returns as many points as are stored, point `i` being stored point `i` plus the position; a filled cache is returned unchanged; the only state change is that the points cache holds the result |
| LineStrips.LineStrip.GetAbsLines | src/shapes/lines_strip.js:84-103 | returns `n-1` segments for `n` points, segment `i` joining absolute points `i` and `i+1`; a filled cache is returned unchanged and leaves the points cache alone; otherwise the points cache is filled too |
| LineStrips.LineStrip.BuildAabb | src/shapes/lines_strip.js:135-144 | the result is the box grown from a zero box over the local points and then moved by the position, reading neither cache; it is well formed and covers the position and every absolute point |
| LineStrips.AbsPoints | src/shapes/lines_strip.js:115-119 | same length as the stored points, element `i` is stored point `i` plus the position |
| LineStrips.LocalOfAbsPoints | src/shapes/lines_strip.js:118 | subtracting the position from the absolute points gives back the stored points |
| LineStrips.AbsPointsAtOrigin | src/shapes/lines_strip.js:118 | a strip anchored at the origin has its stored points as its absolute points |
| LineStrips.AbsLines | src/shapes/lines_strip.js:93-98 | one segment fewer than points (none for fewer than two), segment `i` runs from point `i` to point `i+1` |
| LineStrips.AbsLinesChained | src/shapes/lines_strip.js:93-98 | consecutive segments share an endpoint; the first starts at the first point and the last ends at the last point |
| LineStrips.VerticesOfAbsLines | src/shapes/lines_strip.js:93-98 | reading the segments back as a chain of points gives exactly the absolute points, so no point is lost or reordered |
| LineStrips.ClosedStripLoops | src/shapes/lines_strip.js:29-32 | a closed strip of `n` input points has `n` segments, and its last segment ends where the first begins |
| LineStrips.Cover | src/shapes/lines_strip.js:137-141 | the box grown by `add_vector` over the points covers the starting box and every point, and is well formed whenever the starting box is |
| LineStrips.CoverLeast | src/shapes/lines_strip.js:137-141 | every box that covers the starting box and every point also covers the grown box |
| LineStrips.CoverTranslate | src/shapes/lines_strip.js:137-142 | growing in local space and then moving equals moving the starting box and growing over the moved points |
| LineStrips.BoundingBox | src/shapes/lines_strip.js:135-144 | the strip's box is well formed and contains the position and every stored point plus the position |
| LineStrips.BoundingBoxLeast | src/shapes/lines_strip.js:135-144 | every box containing the position and all absolute points contains the strip's box, so it is the tightest such box |
| LineStrips.BoundingBoxInAbsoluteSpace | src/shapes/lines_strip.js:135-144 | the box equals growing a zero-size box at the position over the absolute points |
| Geometry.AddVector | src/shapes/lines_strip.js:140 | (assumed `add_vector`) the grown box is well formed and covers the added point and the old box |
| Geometry.AddVectorLeast | src/shapes/lines_strip.js:140 | (assumed `add_vector`) every box covering the old box and the point covers the grown box |
| Geometry.Translate | src/shapes/lines_strip.js:142 | moving the box by `d` keeps its size, and moving its corner back by `d` gives the old corner |
| Geometry.TranslateAddVector | src/shapes/lines_strip.js:140-142 | growing and then moving a box equals moving it and growing by the moved point |
| Scenarios.TooFewPoints | src/shapes/lines_strip.js:23-26 | an empty list and a one-point list are both refused, open or closed |
| Scenarios.OpenStripAtOriginPoints | src/shapes/lines_strip.js:115-119 | the open strip (0,0), (10,0), (10,10) stores its points unchanged, and anchored at the origin they are its absolute points |
| Scenarios.OpenStripAtOriginLines | src/shapes/lines_strip.js:93-98 | the points (0,0), (10,0), (10,10) have the segments (0,0)-(10,0) and (10,0)-(10,10) |
| Scenarios.ClosedStripWithOffsetBox | src/shapes/lines_strip.js:135-144 | the closed triangle (0,0), (1,0), (1,1) at (5,5) has the box with corner (5,5) and size (1,1) |
| Scenarios.ClosedStripWithOffset | src/shapes/lines_strip.js:29-32 | closing (0,0), (1,0), (1,1) stores (0,0), (1,0), (1,1), (0,0), whose absolute points at (5,5) are (5,5), (6,5), (6,6), (5,5) |

## Left out

- `render` (lines 44-81) only issues canvas drawing calls. It has no result to model.
- The base shape is not part of this model. This covers `init`, `get_position`, `get_aabb` and its AABB cache, and the prototype merge at line 150. `SetPosition` models only the assumed "assign, then call the hook" step.
- The vector and box primitives are not part of this model. `AddVector` is assumed to grow to the smallest covering box. Whether `SSCD.Vector.ZERO` is shared and mutated by `add_self` (lines 137 and 142) is not modelled: boxes and vectors are values here.
- Coordinates are unbounded integers, not JavaScript floating-point numbers. Rounding and NaN are not modelled.
- Aliasing of the caller's list is not modelled. The source stores the caller's own array and pushes the closing point onto it (lines 20 and 31). The model stores a copy, so the caller's list is never changed.
- Object identity of cached results is not modelled. The source returns the cached array itself, and a caller could mutate it. The model returns an immutable sequence equal to the cache.
- LineStrips.LineStrip.constructor requires at least two points, because a Dafny constructor cannot fail. The failing path of the source's constructor is modelled by `LineStrip.Create`, which checks the length first.
- The `closed` argument is a boolean. JavaScript's truthiness of other values is not modelled.
