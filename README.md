# terrainmeshr heightmap oracle and candidate search

terrainmeshr turns a raster heightmap into a triangle mesh with a greedy
refinement loop. For each triangle, the triangulator asks the heightmap for
its *candidate*: the pixel inside the triangle where the plane through the
three corner elevations differs most from the stored elevation. That pixel
becomes the next point inserted into the mesh.

This project models that oracle:

- `geometry.dfy`, module `Geometry`, holds the integer geometry:
  - grid points (`IVec2`, the source's `ivec2`);
  - the bounding-box corners `Min2`/`Max2`;
  - componentwise `Equals`;
  - C++ truncating division on `int` (`Quot`);
  - the edge function `Edge` (the source's `edge` lambda);
  - a `Triangle` datatype with its three edge values `W0`/`W1`/`W2`, twice its signed area `Area2`, coverage, bounding box and corner test;
  - the geometric facts the rasterizer relies on: forward differences, the edge values sum to the area, the covered run of a row is contiguous, and the row-start skip is sound.
- `heightmap.dfy`, module `Heightmaps`, holds the `Heightmap` class:
  - its fields are immutable (`width`, `height`, row-major `data`), with `Width`, `Height`, `At(x, y)` and `At(p)` (here `AtPoint`);
  - the candidate search `FindCandidate` is written as the source's nested loops, with forward-differenced edge values, the row-start offset `dx`, the early row exit and the coincident-vertex rule;
  - `FindCandidate` is proved to return exactly what a naive reference scan returns (`CandidateOf`: every pixel of the bounding box in row-major order, edge values recomputed from scratch);
  - lemmas about the reference scan then establish that the result is the worst covered pixel. It is the first one in scan order among equals, a result with positive error is never a corner, and the result is `((0, 0), 0)` when nothing deviates or the triangle has the wrong winding.

Elevations are modelled as `real`, so interpolation is exact. For a degenerate triangle (`Area2() == 0`) the source divides by a float zero. Every covered pixel then has all three edge values zero, and its interpolated elevation is `±inf * 0` or `NaN * 0` (a corner sample of 0 gives `0 / 0 = NaN`), which is NaN either way. `dz > maxError` is false for NaN, so the source never updates its maximum. The model reproduces this by letting a pixel replace the maximum only when `Area2() != 0`; `FindCandidate` therefore has no non-degeneracy precondition.

## Model

| member | source | states |
|---|---|---|
| Geometry.Min2 | src/heightmap.cpp:4-6 | the result is below or equal to every corner in each coordinate, and each coordinate equals some corner's |
| Geometry.Max2 | src/heightmap.cpp:8-10 | the result is above or equal to every corner in each coordinate, and each coordinate equals some corner's |
| Geometry.Equals | src/heightmap.cpp:12-14 | true exactly when the two points are the same point |
| Geometry.Quot | src/heightmap.cpp:61-67 | C++ `int` division: the remainder `n - q*d` has the sign of `n` and is smaller than `d` in magnitude |
| Geometry.EdgeShiftX | src/heightmap.cpp:26-30 | moving the third point `k` columns right changes `edge` by `k * (b.y - a.y)` |
| Geometry.EdgeShiftY | src/heightmap.cpp:26-30 | moving the third point `k` rows down changes `edge` by `k * (a.x - b.x)` |
| Geometry.WeightsShiftX | src/heightmap.cpp:41-45 | `k` columns right add `k` times `a12`, `a20`, `a01` to `w0`, `w1`, `w2` |
| Geometry.WeightsStepY | src/heightmap.cpp:42-46 | one row down adds `b12`, `b20`, `b01` to the three edge values |
| Geometry.WeightsSumToArea | src/heightmap.cpp:38-40 | at every point the three edge values sum to `a = edge(p0, p1, p2)` |
| Geometry.NegativeAreaCoversNothing | src/heightmap.cpp:78 | when `a < 0` no point has all three edge values non-negative |
| Geometry.VertexWeights | src/heightmap.cpp:49-52 | at each corner the opposite edge value is `a` and the other two are 0 |
| Geometry.Barycentric | src/heightmap.cpp:82 | the edge values are barycentric weights: weighting the corners by them gives `a` times the point |
| Geometry.CoveredInBox | src/heightmap.cpp:33-35 | for `a > 0`, every covered point lies in the bounding box, so scanning the box misses none |
| Geometry.CoveredRunIsContiguous | src/heightmap.cpp:88-90 | after a covered pixel and then an uncovered one in a row, every later pixel of that row is uncovered |
| Geometry.SkipStaysNegative | src/heightmap.cpp:59-68 | a negative edge value growing by `s` per column stays negative for the first `-w / s` columns (C++ division) |
| Geometry.Edge | src/heightmap.cpp:26-30 | the `edge` lambda, `(b.x - c.x) * (a.y - c.y) - (b.y - c.y) * (a.x - c.x)`; it is 0 when `c` is `a` or `b`, or when `a == b` |
| Geometry.Triangle.Area2 | src/heightmap.cpp:49 | `a = edge(p0, p1, p2)`; it is 0 when two corners coincide |
| Geometry.Triangle.W0 | src/heightmap.cpp:38 | `edge(p1, p2, q)`, the value `w00` starts and `w0` tracks; it is 0 at `p1` and `p2` |
| Geometry.Triangle.W1 | src/heightmap.cpp:39 | `edge(p2, p0, q)`, the value `w01` starts and `w1` tracks; it is 0 at `p2` and `p0` |
| Geometry.Triangle.W2 | src/heightmap.cpp:40 | `edge(p0, p1, q)`, the value `w02` starts and `w2` tracks; it is 0 at `p0` and `p1` |
| Geometry.Triangle.Covers | src/heightmap.cpp:78 | the inside test `w0 >= 0 && w1 >= 0 && w2 >= 0`; a covered point implies `a >= 0` |
| Geometry.Triangle.IsVertex | src/heightmap.cpp:102 | the three `equals` tests: true exactly when the point is one of `p0`, `p1`, `p2` |
| Heightmaps.Heightmap.constructor | src/heightmap.cpp:16-20 | `Width()`, `Height()` and the samples are exactly the constructor's arguments |
| Heightmaps.Heightmap.Width | src/heightmap.h:22-24 | the stored width; for a well-formed map it is non-negative and times the height gives the sample count |
| Heightmaps.Heightmap.Height | src/heightmap.h:26-28 | the stored height; for a well-formed map it is non-negative and times the width gives the sample count |
| Heightmaps.Heightmap.At | src/heightmap.h:30-32 | sample `y*width + x`, defined only when that index is a stored sample; the result is one of the stored samples |
| Heightmaps.Heightmap.AtPoint | src/heightmap.h:34-36 | `At(p)` equals `At(p.x, p.y)` |
| Heightmaps.Heightmap.IndexInRange | src/heightmap.h:30-32 | for an in-grid point and `width*height` samples, `y*width + x` is a valid index |
| Heightmaps.Heightmap.IndexInjective | src/heightmap.h:31 | two in-grid points with the same index are the same point |
| Heightmaps.Heightmap.IndexOnto | src/heightmap.h:31 | every stored sample is addressed by the in-grid point `(i % width, i / width)` |
| Heightmaps.Heightmap.FindCandidate | src/heightmap.cpp:22-106 | returns the reference scan's candidate; its error is non-negative, a positive error is the deviation of a covered box pixel, and no covered box pixel deviates more |
| Heightmaps.Heightmap.ScanRow | src/heightmap.cpp:57-100 | one row with forward differences, offset skip and early exit gives the same result as visiting every box pixel of the row |
| Heightmaps.Heightmap.RowStart | src/heightmap.cpp:58-76 | the first visited column is at or right of `min.x`, carries the edge values of that pixel, and the columns skipped before it leave the result unchanged |
| Heightmaps.Heightmap.VisitCovered | src/heightmap.cpp:81-87 | at a covered pixel the maximum is replaced exactly when the pixel's error strictly exceeds it (never for a degenerate triangle) |
| Heightmaps.Heightmap.RunEndsRow | src/heightmap.cpp:88-90 | once the covered run of a row has ended, the rest of the row leaves the result unchanged, so the `break` is sound |
| Heightmaps.Heightmap.StartOffset | src/heightmap.cpp:58-68 | `dx >= 0` and every column skipped at the row start is uncovered |
| Heightmaps.Heightmap.PixelDeviation | src/heightmap.cpp:82-83 | the source's `z0*w0 + z1*w1 + z2*w2` and `fabs(z - At(x, y))` at a pixel equal its interpolation error, and the `At` read is in range |
| Heightmaps.Heightmap.ColumnShift | src/heightmap.cpp:70-72 | the offset edge values `w00 + a12*dx` etc. are the edge values at column `min.x + dx` |
| Heightmaps.Heightmap.NextColumn | src/heightmap.cpp:92-94 | `w0 += a12` etc. give the edge values of the next pixel in the row |
| Heightmaps.Heightmap.RowStep | src/heightmap.cpp:97-99 | `w00 += b12` etc. give the edge values at the start of the next row |
| Heightmaps.Heightmap.SkippedColumnsUncovered | src/heightmap.cpp:59-72 | with `dx` 0 or one of the three quotients, no column before `min.x + dx` is covered |
| Heightmaps.Heightmap.RowScanOutside | src/heightmap.cpp:88-89 | uncovered pixels at the end of a row leave the result unchanged, so leaving the row early is sound |
| Heightmaps.Heightmap.StepKeepsSummary | src/heightmap.cpp:84-87 | visiting a pixel with strict `>` keeps the maximum so far and keeps it at the first maximal pixel |
| Heightmaps.Heightmap.RowScanSummary | src/heightmap.cpp:76-95 | after a row prefix the result is the first maximum over all contenders visited so far |
| Heightmaps.Heightmap.BoxScanSummary | src/heightmap.cpp:55-57 | starting from `((0, 0), 0)`, after the rows above `y` the result is the first maximum over those rows |
| Heightmaps.Heightmap.VertexDeviationZero | src/heightmap.cpp:49-52 | with exact arithmetic, the interpolation error at each corner is 0 |
| Heightmaps.Heightmap.CandidateIsWorstPixel | src/heightmap.cpp:102-105 | the result is the worst covered box pixel and the first such one in row-major order; a positive error is never at a corner, so the coincident-vertex rule changes nothing; a zero error comes with `(0, 0)` |
| Heightmaps.Heightmap.NonPositiveAreaFindsNothing | src/heightmap.cpp:49-56 | a triangle with `a <= 0` yields `((0, 0), 0)` |
| Heightmaps.Heightmap.CandidateBoundsEveryCoveredPoint | src/heightmap.cpp:33-35 | the error bounds the deviation of every covered grid point, in the box or not |

## Left out

- `triangulator.h` and `triangular_mesh.cpp` are not part of this model:
  - the triangulator's bodies are not available, only its declarations;
  - the R binding is marshalling code.
- The single-argument constructor `Heightmap(const std::vector<float>&)` is not modelled, because it has no body in the source.
- IEEE `float` arithmetic is not modelled. Elevations, the pre-divided corner values and the error are exact `real`s:
  - rounding in `z0*w0 + z1*w1 + z2*w2` is not captured;
  - `fabs` is `RealAbs`;
  - the int-to-float conversion of the edge values is exact.
- Heightmaps.Heightmap.FindCandidate: for a degenerate triangle it does not compute the source's infinite or NaN `z0`, `z1`, `z2` (they stay unused at 0.0). It encodes the outcome instead: a NaN error never replaces the maximum.
- Heightmaps.Heightmap.CandidateIsWorstPixel: under exact arithmetic a corner never has positive error, so the coincident-vertex rule is proved to change nothing. Under float rounding it can zero a tiny error; that is not captured.
- 32-bit `int` overflow is not modelled. Edge products and forward differences use unbounded integers, so the model assumes coordinates small enough for the source's `int` arithmetic not to wrap.
- The body of the row loop is split into methods. In the source it is all inline in `FindCandidate`:
  - `ScanRow` is the body of the loop over `y`, except the row step `w00 += b12` etc., which stays in `FindCandidate`;
  - `RowStart` is the row start, and it calls `StartOffset` to compute `dx`;
  - `VisitCovered` is the work done at a covered pixel. For `a == 0` it skips the `At(x, y)` read and the computation of `z`, whose NaN result the source discards (see the `FindCandidate` line above).
