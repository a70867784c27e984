# libOpenDRIVE spiral (clothoid) geometry in Dafny

This project models the spiral road geometry of libOpenDRIVE: the `Spiral`
record with its derived curvature parameters, the centerline / offset point
evaluation `get_point`, and the bounding box `get_bbox`. The box is computed
from candidate parameters where the x or y coordinate of the centerline can
turn. A spiral's curvature changes linearly with arc length. The geometry places
a stretch of a canonical Euler spiral, which starts at curvature zero, at the
road's start position and heading.

Modules:

- `Wrappers`: `Option`. `None` stands for a non-finite value (NaN or infinity)
  or for a thrown exception.
- `Numerics`: the numeric primitives the code calls into. These are the
  canonical spiral evaluator `odrSpiral`, `cos`, `sin`, `sqrt` and `M_PI`,
  bundled in a datatype `Primitives` that every operation takes as a parameter.
  Nothing about them is assumed, except that `pi > 0` and that `sqrt` is a
  non-negative square root on non-negative arguments (`Primitives.Valid`).
- `Geometry`: `Point2D`, `Box2D`, `std::min` / `std::max` and containment.
- `SpiralGeometry`: the constructor (`NewSpiral`) and `get_point` (`GetPoint`),
  as functions. It also holds the polynomial heading `Heading`:
  `hdg0 + curv_start * u + c_dot * u^2 / 2` at distance `u` from the segment
  start. This is the heading of `get_point`'s frame when `odrSpiral` returns
  the canonical spiral's heading `c_dot * p^2 / 2` (`PointHeadingIsPolynomial`).
- `SpiralBBox`: `get_bbox`.
  - The four root formulas (`Root`, tagged by `Formula`).
  - The candidate list as a pure reference definition (`TryRange`, `Pass`,
    `Candidates`).
  - The imperative loops that fill it with `push_back` (`AppendRoots`,
    `CollectPass`, `CollectCandidates`) and the min/max fold over it (`Reduce`).
  - The loop bounds the code computes (`NEnd`, `SourceRange`) and `GetBBox`.
  - A corrected range of `n` (`SweptRange`) and `GetBBoxSwept` (see Findings).

The spiral's parameter `c_dot` is the rate of change of curvature. `get_bbox`
looks for the parameters `s` where the centerline heading equals
`pi/2 - n*pi`, where x turns, or `-n*pi`, where y turns. Each such equation is
a quadratic in `s`, solved by the code's two square-root formulas per
coordinate.

The code does not validate its inputs and has no separate branch for
`curv_start == curv_end`. It divides by `length` and by `c_dot`
unconditionally, and the model follows the code. `NewSpiral` returns `None`
exactly where the code's divisions produce a non-finite value, and every
operation requires `c_dot != 0`.

## Model

| member | source | states |
|---|---|---|
| SpiralGeometry.NewSpiral | Geometries/Spiral.cpp:15-21 | The record is defined exactly when length != 0 and curv_start != curv_end. Then it stores the inputs, `c_dot = (curv_end - curv_start) / length`, `s_start = curv_start / c_dot` and `s_end = curv_end / c_dot`. |
| SpiralGeometry.AlignmentReproducesCurvature | Geometries/Spiral.cpp:18-20 | For a well-formed spiral, the canonical curvature `c_dot * p` at the canonical parameter of s0 (resp. s0 + length) is curv_start (resp. curv_end). In between it is the linear interpolation. `s_start`/`s_end` are the canonical parameters of the two ends, and `s_end - s_start == length`. |
| SpiralGeometry.GetPoint | Geometries/Spiral.cpp:23-38 | Rotates the canonical displacement from the canonical start by `hdg0 - a0`, translates it to (x0, y0), and applies the lateral offset t at heading + pi/2. The point at s0 with t = 0 is the segment start (x0, y0), whatever the evaluator returns. |
| SpiralGeometry.RotateTranslate | Geometries/Spiral.cpp:35-36 | The rotation by `hdg` followed by the translation. It maps the zero displacement to the translation vector. |
| SpiralGeometry.PointUsesOnlyDifferences | Geometries/Spiral.cpp:25-36 | Adding the same constant to every position the canonical evaluator returns leaves every point unchanged. `get_point` depends only on displacements from the canonical start. |
| SpiralGeometry.PointHeading | Geometries/Spiral.cpp:25-33 | The heading of the frame `get_point` uses (canonical heading turned by `hdg0 - a0`) equals hdg0 at s0. |
| SpiralGeometry.OffsetAlongFrameNormal | Geometries/Spiral.cpp:31-36 | The point at `(s, t)` is the centerline point at `s` plus `t` times the canonical normal `(cos(a(s) + pi/2), sin(a(s) + pi/2))`, turned by `hdg0 - a0`. That turned direction is `PointHeading(s) + pi/2`, so `PointHeading` is the frame `get_point` offsets in. |
| SpiralGeometry.PointHeadingIsPolynomial | Geometries/Spiral.cpp:25-33 | When the evaluator's canonical heading is `c_dot * p^2 / 2`, that frame heading is `hdg0 + curv_start * u + c_dot * u^2 / 2`, with u = s - s0. This is the heading the root formulas solve for. |
| SpiralBBox.PassFormulas | Geometries/Spiral.cpp:53-56 | Each pass has two distinct formulas, both of the pass's coordinate. |
| SpiralBBox.Root | Geometries/Spiral.cpp:42-45 | The four lambdas, tagged by `Formula`. A formula's value is defined exactly when its discriminant is non-negative. What the value solves is stated by `RootSolvesHeading` and `SolutionIsRoot`. |
| SpiralBBox.RootSolvesHeading | Geometries/Spiral.cpp:42-45 | Each root formula is defined exactly when its discriminant is non-negative. A defined value is a parameter where the heading equals `pi/2 - n*pi` (x formulas) or `-n*pi` (y formulas). When the formula is undefined, no parameter at all reaches that heading. |
| SpiralBBox.SolutionIsRoot | Geometries/Spiral.cpp:42-45 | Conversely, every parameter where the heading equals a pass's target for n is the value of one of that pass's two formulas at n. |
| SpiralBBox.TargetsDistinct | Geometries/Spiral.cpp:42-45 | Different (coordinate, n) pairs have different target headings. |
| SpiralBBox.TryRangeMembers | Geometries/Spiral.cpp:59-64 | A formula's kept values over `[lo, hi)` are exactly its defined values at some n in range that lie in `[s0, s0 + length]`. |
| SpiralBBox.Kept | Geometries/Spiral.cpp:61-63 | The `isnan` / segment filter: one trial pushes at most one value, and it pushes `v` exactly when the formula's value at n is `v` and `v` lies in `[s0, s0 + length]`. |
| SpiralBBox.TryRange | Geometries/Spiral.cpp:59-64 | Reference list of the n loop. It holds at most one value per n tried, and every value lies in the segment. Its members are characterized by `TryRangeMembers`. |
| SpiralBBox.Pass | Geometries/Spiral.cpp:57-65 | Reference list of one pass: the first formula's values over the range, then the second's. It holds at most two values per n, all in the segment. |
| SpiralBBox.AppendRoots | Geometries/Spiral.cpp:59-64 | The n loop appends exactly the formula's kept values over the range, in order of n. |
| SpiralBBox.CollectPass | Geometries/Spiral.cpp:53-65 | A pass appends the kept values of its first formula, then of its second. |
| SpiralBBox.CollectCandidates | Geometries/Spiral.cpp:49-66 | The filled vector equals the reference list `Candidates`. It has length between 2 and `2 + 2*|x range| + 2*|y range|`, starts with s0 and s0 + length, and every appended value lies in the segment. |
| SpiralBBox.CandidatesCharacterized | Geometries/Spiral.cpp:49-66 | A parameter is in the list if and only if it is an endpoint, or the defined, in-segment value of some formula at an n of that formula's pass range. |
| SpiralBBox.Candidates | Geometries/Spiral.cpp:49-65 | Reference list of the whole vector: both ends, then the x pass, then the y pass. It starts with `[s0, s0 + length]`, every later entry lies in the segment, and its length is between 2 and `2 + 2*|x range| + 2*|y range|`. |
| Geometry.Min | Geometries/Spiral.cpp:74-75 | `std::min`: not above either argument and equal to one of them. |
| Geometry.Max | Geometries/Spiral.cpp:76-77 | `std::max`: not below either argument and equal to one of them. |
| SpiralBBox.Reduce | Geometries/Spiral.cpp:68-78 | When the list is non-empty, the fold yields a box with ordered corners that encloses the point of every listed parameter. Each corner coordinate is attained by some listed point, so the box is the tightest one. On an empty list it fails, as `at(0)` throws. |
| SpiralBBox.NEnd | Geometries/Spiral.cpp:52 | `n_end` times pi is the net heading change over the segment, `heading(s0 + length) - hdg0`, less pi/2 for the x pass. It does not depend on hdg0 or on the heading inside the segment. |
| SpiralBBox.Ceil | Geometries/Spiral.cpp:59 | `std::ceil`: the least integer not below x. |
| SpiralBBox.SourceRange | Geometries/Spiral.cpp:52-59 | The code's n range `[floor(-abs(n_end)) - 1, ceil(abs(n_end)) + 1)` is symmetric about 0 and always contains -1 and 0. Its upper end is within one of `abs(n_end) + 1`. |
| SpiralBBox.GetBBox | Geometries/Spiral.cpp:40-81 | `get_bbox` as written returns the tightest box around the centerline points of the candidate list built with the code's n ranges. That box contains both segment ends. |
| SpiralBBox.SCurveSourceRanges | Geometries/Spiral.cpp:52-59 | On the S-curve of the Findings, the code tries n in [-2, 2) for x and in [-1, 1) for y. |
| SpiralBBox.SourceRangeMissesExtremum | Geometries/Spiral.cpp:50-65 | On that S-curve, s = pi is inside the segment and is a y turning point (heading -2 pi, n = 2). The first y formula at n = 2 yields it, but it is not in the candidate list the code builds. |
| SpiralBBox.HeadingWithinSpread | Geometries/Spiral.cpp:52 | Over the segment the heading stays within `hdg0 +- (abs(curv_start)*abs(length) + abs(c_dot)*length^2/2)`. |
| SpiralBBox.SweptRangeContains | Geometries/Spiral.cpp:52-59 | Every n whose target the heading reaches inside the segment lies in the corrected range `SweptRange`. |
| SpiralBBox.SweptRangeFindsEveryExtremum | Geometries/Spiral.cpp:49-66 | With the corrected ranges, every in-segment parameter where x or y turns is in the candidate list. |
| SpiralBBox.GetBBoxSwept | Geometries/Spiral.cpp:40-81 | `get_bbox` with the corrected ranges returns the tightest box around its candidates. That box contains both ends and the centerline point at every turning point of x and y inside the segment. |

## Left out

- `odrSpiral`, `cos`, `sin`, `sqrt` and `M_PI` are parameters (`Primitives`), not implementations. The Fresnel-integral evaluator in `Spiral/odrSpiral` is not part of this model.
- IEEE floating point is not modelled: arithmetic is exact on reals. NaN and infinity are `None` in `NewSpiral` and `Root`, and a negative `sqrt` argument is the NaN case the code's `isnan` test discards. Rounding of the formulas and of `floor`/`ceil` is not captured.
- SpiralGeometry.NewSpiral: in the code, a zero `length` gives an infinite or NaN `c_dot`, and equal curvatures give `c_dot == 0` with an infinite or NaN `s_start`/`s_end`. In both cases the model returns `None` instead of a record. `GetPoint`, `Root` and `GetBBox` therefore require `c_dot != 0`.
- SpiralBBox.GetBBox: containment of the whole continuous centerline is not stated. Only the candidate points are covered, because the link between turning points and extrema needs calculus the uninterpreted evaluator does not provide.
- The `std::function` pointers of `get_bbox` are the `Formula` tag, and `Root` dispatches on it.
- The base class `RoadGeometry`, `Point2D`/`Box2D` beyond their fields, and the headers `Spiral.h`, `Spiral/odrSpiral.h` and `Utils.h` are not part of this model.
- SpiralBBox.SourceRange: the code converts the loop bounds to C++ `int` (`int n = std::floor(...)`, Spiral.cpp line 59). The model's unbounded `int` does not capture the overflow of that conversion when `abs(n_end)` is huge.

## Findings

| source | as written | input that shows it | evidently intended | confidence | as-written member | corrected member |
|---|---|---|---|---|---|---|
| Geometries/Spiral.cpp:52-59 | The n range comes from `n_end`, the total heading change along the segment. It ignores hdg0, and it ignores the larger heading swing inside the segment when the curvature changes sign. | s0 = 0, x0 = y0 = 0, hdg0 = 0, length = 5 pi, curv_start = -5/2, curv_end = 5/2. Then `n_end` is 0 for y and the y pass tries n in {-1, 0}. But at s = pi the heading is -2 pi (n = 2), a y turning point inside the segment, so its point is never a candidate. | Every n whose target heading the segment reaches should be tried. `SweptRange` bounds n by the heading's extent `hdg0 +- (abs(curv_start)*abs(length) + abs(c_dot)*length^2/2)`. | medium, not executed | SpiralBBox.SourceRangeMissesExtremum | SpiralBBox.SweptRangeFindsEveryExtremum |
