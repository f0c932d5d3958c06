# gl_fractal — a verified model of the fractal engine

`gl/main.cpp` is an interactive fractal editor. The user drags the points of a
*pattern* polyline. The program substitutes a scaled and rotated copy of the pattern for
every edge of the pattern, recursively, and draws the result, the *fractal*. While the
window is open, the fractal keeps growing: every frame the longest segments are replaced
by one more level of the pattern.

This project models the geometric engine behind it, without the window and drawing code.
Coordinates are mathematical reals:

- `geometry.dfy` (module `Geometry`): the `point2d` operators, `abs2`, both `dist2`
  overloads (point–point, and point–segment with a clamped projection) and `rotate`.
- `substitution.dfy` (module `Substitution`): the `transform` lambda of `split` and the
  recursive `split` itself. `split` is specified by the functions `SplitPoints` / `Edges` /
  `Piece`, and implemented by the method `Split`, which has the source's loop, its `prev`
  variable and its recursive call.
- `polyline.dfy` (module `Polyline`): the loop shape shared by `build_fractal` and
  `split_largest_2`. Each walks a polyline and emits, before each of its points, a possibly
  empty run of new points (`Spliced`).
- `builder.dfy` (module `Builder`): both `build_fractal` overloads. The default overload
  chooses the depth with a `while` loop.
- `growth.dfy` (module `Growth`): `split_largest` and the per-frame `split_largest_2`.
- `editor.dfy` (module `Editor`): vertex/segment selection under the mouse, the
  move/insert/erase edits of `update_pattern`, and a `Session` class. The class holds the
  globals `pattern`, `fractal`, the selection, the mouse position and the button flags.
  `update_pattern`, `process_mouse_move` and the per-frame growth step are its methods.

## Model

| member | source | states |
|---|---|---|
| Geometry.Abs2 | gl/main.cpp:45-47 | the squared length is never negative and is zero for the zero vector |
| Geometry.Dist2 | gl/main.cpp:51-53 | squared distance is non-negative, zero from a point to itself, and symmetric |
| Geometry.Rotate | gl/main.cpp:69-71 | the rotated vector is orthogonal to the original and has the same squared length |
| Geometry.Clamp | gl/main.cpp:65 | `std::clamp` lands in [lo, hi] and leaves values already inside unchanged |
| Geometry.Dist2ToSegment | gl/main.cpp:57-68 | the point–segment distance is non-negative, and it is the point–point distance when the segment is a single point |
| Geometry.Dist2AlongLine | gl/main.cpp:61-66 | the squared distance to v + s(w − v) is a quadratic in s whose coefficients are the ones the source uses |
| Geometry.ClampedMinimizes | gl/main.cpp:63-65 | the clamped parameter minimises that quadratic over [0, 1] |
| Geometry.ProjectionIsLeast | gl/main.cpp:59-67 | for a proper segment, the result is at most the distance to any point of the segment |
| Geometry.DegenerateSegment | gl/main.cpp:59-60 | for v == w, the segment collapses to v and the result is dist2(p, v) |
| Geometry.Dist2ToSegmentIsLeast | gl/main.cpp:57-68 | the result is the minimum squared distance from p to the segment vw: at most the distance to every point of it, and attained by some point of it |
| Geometry.Dist2ToSegmentAtMostEnds | gl/main.cpp:57-68 | the point–segment distance never exceeds the distance to either endpoint |
| Polyline.Spliced | gl/main.cpp:126-132 | emitting a run before each point gives as many points as the input plus the total run length |
| Polyline.SplicedPrefix | gl/main.cpp:126-132 | the output for a prefix of the points is a prefix of the whole output |
| Polyline.SplicedKeepsPoints | gl/main.cpp:126-132 | every original point appears at its offset, in order, with exactly its own run right before it |
| Polyline.SplicedEnds | gl/main.cpp:126-132 | with no run before the first point, first and last points are kept at the ends |
| Polyline.SplicedNothing | gl/main.cpp:179-189 | when every run is empty the polyline is returned unchanged |
| Polyline.SumLenMonotone | gl/main.cpp:126-132 | runs that are pointwise no longer add no more points in total |
| Polyline.SumLenBound | gl/main.cpp:173 | runs of at most c points after the first point add at most (n − 1)·c points |
| Polyline.SumLenExact | gl/main.cpp:173 | runs of exactly c points add exactly (n − 1)·c points |
| Substitution.CoordsOfFirstAnchor | gl/main.cpp:96-99 | the pattern's first point has frame coordinates (0, 0) |
| Substitution.CoordsOfLastAnchor | gl/main.cpp:84-99 | the pattern's last point has frame coordinates (1, 0), because ab · rotate(ab) = 0 |
| Substitution.PlaceAtOrigin | gl/main.cpp:100 | coordinates (0, 0) are placed on p0 |
| Substitution.PlaceAtUnit | gl/main.cpp:93-100 | coordinates (1, 0) are placed on p1 |
| Substitution.TransformFixesAnchors | gl/main.cpp:84-101 | `transform` sends the pattern's first point to p0 and its last point to p1 |
| Substitution.PlaceDifference | gl/main.cpp:100 | the difference of two placed points is the coordinate difference in the target frame |
| Substitution.FrameLength | gl/main.cpp:93-94 | the target frame is orthogonal, with both axes as long as p1 − p0 |
| Substitution.Lagrange | gl/main.cpp:90-91 | the components of a vector along ab and rotate(ab) recover its squared length times that of ab |
| Substitution.CoordDifference | gl/main.cpp:96-99 | the frame coordinates are linear in the point |
| Substitution.ImageSpread | gl/main.cpp:96-101 | the squared distance between two images is the squared coordinate difference times dist2(p0, p1) |
| Substitution.SourceSpread | gl/main.cpp:84-99 | the squared coordinate difference times dist2(a, b) is the squared distance between the source points |
| Substitution.TransformIsSimilarity | gl/main.cpp:84-101 | `transform` is a similarity: it scales every squared distance by dist2(p0, p1) / dist2(a, b) |
| Substitution.SplitPoints | gl/main.cpp:81-115 | for a pattern of n ≥ 2 points, split appends at most (n − 1)^iterations − 1 points |
| Substitution.Edges | gl/main.cpp:103-114 | the first k pattern points contribute at most (k − 1)·(n − 1)^(iterations−1) points, one fewer when k = n |
| Substitution.Piece | gl/main.cpp:106-112 | one edge contributes at most (n − 1)^(iterations−1) points, one fewer for the last edge, which pushes no interior point |
| Substitution.Split | gl/main.cpp:81-115 | the method, with its `prev` loop and recursion, appends exactly SplitPoints to `result` |
| Substitution.SplitEdge | gl/main.cpp:107-112 | one pass of the loop for i > 0 appends exactly edge i's piece: the deeper split between the images of its ends, then the image of pattern[i] unless it is the last point, and nothing for an edge that fails the gate |
| Substitution.SplitStops | gl/main.cpp:82-88 | nothing is appended at depth 0 or when the pattern's anchors are closer than 1e-15 |
| Substitution.SplitCount | gl/main.cpp:81-115 | when every edge passes the gate and the anchors are apart, exactly (n − 1)^iterations − 1 points are appended |
| Substitution.EdgesCount | gl/main.cpp:103-114 | the exact count for the first k points of such a pattern |
| Substitution.GatedInterior | gl/main.cpp:107-111 | it lists, in increasing order, exactly the interior indices 1..n−2 whose incoming edge passes the gate |
| Substitution.SplitDeeper | gl/main.cpp:81-115 | between the same endpoints, split one level deeper appends at least as many points |
| Substitution.EdgesDeeper | gl/main.cpp:103-114 | the same for the first k pattern points |
| Substitution.SplitDepthOne | gl/main.cpp:103-114 | at depth 1, split appends exactly the transformed gated interior points, in pattern order, and never the transformed first or last point |
| Substitution.EdgesDepthOne | gl/main.cpp:103-114 | the same for the first k pattern points |
| Builder.FractalGaps | gl/main.cpp:126-132 | nothing is emitted before the first point, and before pattern[i] the split of the gated edge (i − 1, i) |
| Builder.BuildStep | gl/main.cpp:127-131 | one loop iteration appends the split of the gated edge (i − 1, i), then pattern[i] |
| Builder.BuildFractal | gl/main.cpp:117-134 | the loop computes Fractal: empty for fewer than two points, otherwise the pattern with the splits spliced in |
| Builder.FractalEnds | gl/main.cpp:117-134 | the fractal is empty for fewer than 2 points, and otherwise starts with the pattern's first point and ends with its last |
| Builder.FractalKeepsPattern | gl/main.cpp:126-132 | every pattern point appears in order, and exactly the split of its incoming edge precedes it |
| Builder.UngatedEdgeKept | gl/main.cpp:128-131 | an edge at or above the 0.9·dist2(front, back) gate stays adjacent in the fractal |
| Builder.FractalSizeBound | gl/main.cpp:117-134 | the fractal has at most (n − 1)^iterations + 1 points |
| Builder.FractalSizeExact | gl/main.cpp:124 | with every edge gated and the anchors at least 1e-15 apart, it has exactly (n − 1)^iterations + 1 points, the size `reserve` asks for |
| Builder.FractalSizeMonotone | gl/main.cpp:117-134 | one level deeper, the fractal never has fewer points |
| Builder.TwoPointFractal | gl/main.cpp:119-132 | a two-point pattern is returned unchanged at any depth |
| Builder.LeastDepthFrom | gl/main.cpp:137-139 | searching upward from `it` finds a depth d with (n − 1)^d ≥ 2000 while every smaller depth from 1 stays below |
| Builder.DefaultDepth | gl/main.cpp:136-141 | the default depth is the least d ≥ 1 with (n − 1)^d ≥ 2000; it is 1 when n − 1 < 2 |
| Builder.DefaultIterationsAsWritten | gl/main.cpp:137-139 | the source's while loop, for patterns where it exits, returns the default depth |
| Builder.DepthUnique | gl/main.cpp:137-139 | the least such depth is unique |
| Builder.PowAtMostOne | gl/main.cpp:138 | 0^i and 1^i never exceed 1 |
| Builder.DefaultLoopNeverExits | gl/main.cpp:136-139 | for 1- and 2-point patterns the loop condition holds at every depth, over unbounded integers |
| Builder.ShortPatternIgnoresDepth | gl/main.cpp:117-134 | for patterns of at most 2 points the depth makes no difference to the fractal |
| Builder.DefaultIterations | gl/main.cpp:136-139 | corrected loop: returns the least depth, and 1 when the loop as written would not exit |
| Builder.BuildFractalDefault | gl/main.cpp:136-141 | the default overload returns the fractal at the default depth |
| Builder.SeedFractalSize | gl/main.cpp:335-337 | the start-up pattern gets depth 6 and a fractal of 4097 points |
| Growth.MaxSeg | gl/main.cpp:159-165 | the longest squared segment length: an upper bound attained by some segment, 0 when none is positive |
| Growth.LongestIndex | gl/main.cpp:144-151 | it is the first index whose segment is strictly longer than all earlier ones, and 0 exactly when all segments are 0 |
| Growth.LongestIndexIsLongest | gl/main.cpp:144-151 | for a non-flat polyline, the chosen segment is positive, maximal and first among the maximal |
| Growth.FirstLongest | gl/main.cpp:144-151 | the loop finds LongestIndex: the first segment strictly longer than all before it |
| Growth.SplitLargest | gl/main.cpp:143-156 | the depth-1 split points (gate 1e10) go between fractal[max_i − 1] and fractal[max_i]; everything else stays in place and in order; at most n − 2 points are added |
| Growth.Threshold | gl/main.cpp:166 | the selection threshold is non-negative |
| Growth.SelectedCount | gl/main.cpp:167-175 | at most one count per segment: among k points, at most k − 1 |
| Growth.GrowthGaps | gl/main.cpp:179-188 | before each point, the depth-1 split of its incoming segment if that segment is selected, and nothing otherwise |
| Growth.LongestSquared | gl/main.cpp:159-165 | the first loop computes the longest squared segment length |
| Growth.CountCapacity | gl/main.cpp:167-175 | the second loop computes size + (n − 2) × (number of selected segments) |
| Growth.SubstituteSelected | gl/main.cpp:177-188 | the third loop builds the spliced polyline |
| Growth.SplitLargest2 | gl/main.cpp:158-190 | the composed method returns Grown: unchanged above 500000, otherwise the spliced polyline |
| Growth.LongestSelected | gl/main.cpp:159-175 | the longest segment of a non-flat polyline is always selected |
| Growth.FlatUnchanged | gl/main.cpp:158-190 | when every segment has length 0 the polyline is unchanged |
| Growth.GrowthKeepsPoints | gl/main.cpp:176-189 | first and last points are kept and the size never shrinks; every old point appears at its offset, right after exactly the run emitted for its incoming segment, and consecutive old points are separated by that run alone |
| Growth.UnselectedSegmentKept | gl/main.cpp:181-187 | an unselected segment stays adjacent in the new polyline |
| Growth.GapBound | gl/main.cpp:181-184 | a selected segment gains at most n − 2 points, an unselected one none |
| Growth.GapsBound | gl/main.cpp:173-184 | the new points number at most (n − 2) per selected segment |
| Growth.GapsExact | gl/main.cpp:173-184 | exactly (n − 2) per selected segment when every pattern edge passes the 1e10 gate and the anchors are at least 1e-15 apart |
| Growth.GrowthWithinCapacity | gl/main.cpp:167-189 | the result fits within the capacity estimate, and is either unchanged or has at most 500000 points |
| Growth.GrowthFillsCapacity | gl/main.cpp:167-189 | when every pattern edge passes the gate and the anchors are at least 1e-15 apart, the estimate is exact |
| Editor.FirstNearVertex | gl/main.cpp:232-238 | a vertex found by the scan from `from` is an index of the pattern at or after `from` |
| Editor.FirstNearVertexIsFirst | gl/main.cpp:232-238 | the scan finds a vertex within squared distance 25 of the mouse with no near vertex before it, and finds none exactly when no vertex from `from` on is near |
| Editor.FirstNearSegment | gl/main.cpp:239-248 | a segment found by the scan from `from` is an index i ≥ `from` ≥ 1 of the pattern |
| Editor.FirstNearSegmentIsFirst | gl/main.cpp:239-248 | the scan finds a segment within squared distance 25 of the mouse with no near segment before it, and finds none exactly when no segment from `from` on is near |
| Editor.SelectIsFirstNear | gl/main.cpp:228-248 | the selected vertex is the first near one; a segment is picked only when no vertex is near, and it is the first near segment; nothing is selected only when nothing is near; never both kinds |
| Editor.SelectUnderMouse | gl/main.cpp:228-248 | the loops with their early exits compute Select |
| Editor.NearVertexNearSegment | gl/main.cpp:234-244 | a segment whose endpoint is near the mouse is itself near |
| Editor.MoveStep | gl/main.cpp:204-208 | left press on a selected vertex moves it to the mouse; a rebuild is flagged only if the point changed |
| Editor.InsertStep | gl/main.cpp:209-212 | left press on segment i inserts the mouse point at index i and flags a rebuild |
| Editor.EraseStep | gl/main.cpp:214-218 | right press on a selected vertex removes exactly that point and flags a rebuild |
| Editor.UnchangedWhenNoRebuild | gl/main.cpp:203-220 | when no rebuild is flagged the pattern is unchanged |
| Editor.EditPattern | gl/main.cpp:203-219 | the imperative edit sequence computes Edited and its update flag |
| Editor.Session.constructor | gl/main.cpp:192-199 | start-up state: the seed pattern, its fractal of 4097 points, nothing selected, buttons released |
| Editor.Session.UpdatePattern | gl/main.cpp:202-222 | the pattern is edited, and the fractal is rebuilt when, and only when, the edit flags it |
| Editor.Session.Reselect | gl/main.cpp:228-248 | the selection becomes Select on the current pattern and mouse; the pattern, the fractal, the mouse and the buttons are unchanged |
| Editor.Session.ProcessMouseMove | gl/main.cpp:224-252 | edit, reselect under the mouse on the edited pattern, edit again |
| Editor.Session.Grow | gl/main.cpp:435 | the per-frame step replaces the fractal by Grown and leaves everything else unchanged |

The session invariant `Editor.Session.Valid` (gl/main.cpp:192-199) is kept by every
method. It says three things:

- the fractal is empty when the pattern has fewer than two points;
- otherwise the fractal starts with the pattern's first point and ends with its last;
- never are a vertex and a segment selected at once.

## Left out

- Floating point: coordinates are reals, so rounding is not modelled. `1e-15`, `0.9` and
  `1e10` are exact real constants. The `sqrt`-based `abs`/`dist` (gl/main.cpp:48-56) are
  not used by the engine and are not modelled.
- Geometry.Dist2ToSegmentIsLeast: carries the hypothesis `Dist2(v, w) == 0 ==> v == w`.
  It holds for all real points, but the nonlinear solver does not derive it in context.
- Geometry.Dist2ToSegmentAtMostEnds: takes the same hypothesis, for the same reason.
  It excludes no real input.
- Editor.NearVertexNearSegment: takes the same hypothesis, for the same reason.
- Substitution.Split: requires `iterations >= 0`. With a negative depth the source
  returns at once when the anchors are closer than 1e-15 (gl/main.cpp:88), and appends
  nothing when no edge passes the gate (gl/main.cpp:107). Otherwise it recurses with
  ever smaller depths until the stack is exhausted. The model leaves all negative depths out.
- Substitution.Split: requires a non-empty pattern when `iterations > 0`, because
  `pattern.front()` of an empty vector is undefined.
- Builder.BuildFractal: requires `iterations >= 1` unless no edge passes the gate.
  `build_fractal(pattern, 0)` would call `split` with depth −1. That call never returns
  when the anchors are at least 1e-15 apart. With the anchors closer, the source would
  return the pattern itself, and the model does not cover that case.
- Builder.DefaultLoopNeverExits: proved over unbounded integers, for both the 1-point and
  the 2-point pattern. In C++ either loop reaches signed overflow of `iterations` after
  about 2^31 steps, which is undefined behaviour and is not modelled. On a wrapping build
  the 2-point loop keeps spinning, since pow(1, i) stays 1. The 1-point loop stops, since
  pow(0, negative) is +inf.
- Growth.SplitLargest: requires a pattern of at least two points. With fewer,
  `pattern.size() - 2` wraps around to SIZE_MAX or SIZE_MAX − 1, and
  `part.reserve` (gl/main.cpp:153) throws `std::length_error`.
- Growth.SplitLargest: requires some segment of positive length, because otherwise
  `max_i` stays 0 and `fractal[-1]` is read.
- Growth.SplitLargest2: requires a non-empty pattern unless every segment has length 0.
  For an empty pattern, `split` reads `pattern.front()` of an empty vector.
- Growth.Capacity: an unbounded integer. For a pattern of one point the source's
  `size_t` sum wraps to the same value. `reserve` and the `pow`/`round` hint
  (gl/main.cpp:124, 153, 178) affect performance only.
- `split` leaves its local `prev` uninitialised, but reads it only after the first
  iteration has set it. The model starts `prev` at p0, a value that is never read.
- Growth.SplitLargest and Growth.SplitLargest2: modelled on values, returning the new
  polyline. They do not update a vector in place, and `swap` is plain replacement.
- The SPACE key's burst of 1000 `split_largest` calls (gl/main.cpp:277-286) is not
  modelled: each call needs a segment of positive length, and the burst cannot guarantee
  one.
- The Session's default depth uses the corrected `Builder.DefaultIterations`, so a pattern
  edited down to two points does not hang (see Findings).
- Callbacks, `main`, the GLFW/GLEW setup, the render loop, the `triangle`/`color` demo
  state and `base_color` (gl/main.cpp:254-451 except the seed and the growth step) are
  window and drawing plumbing.

## Findings

| source | as written | input that shows it | evidently intended | confidence | as-written member | corrected member |
|---|---|---|---|---|---|---|
| gl/main.cpp:136-141 | `while (pow(pattern.size() - 1, iterations) < 2000) iterations++;` | a pattern of 2 points (erase a vertex of a 3-point pattern in the editor): 1^i = 1 stays below 2000 at every depth, so the loop never exits. For 1 point 0^i = 0 stays below 2000 as well. In C++ both loops reach signed overflow of `iterations` after about 2^31 steps (undefined behaviour); a wrapping build would keep spinning for 2 points and stop for 1 point at pow(0, negative) = +inf | the least depth ≥ 1 reaching 2000 points; depth 1 when size − 1 < 2, where depth cannot matter | high, not executed | Builder.DefaultLoopNeverExits | Builder.DefaultIterations |

The loop as written is modelled, for the inputs where it exits, by
`Builder.DefaultIterationsAsWritten`. For patterns of at most two points,
`Builder.ShortPatternIgnoresDepth` proves that the depth makes no difference to the
fractal, so depth 1 loses nothing.
