# Plane segmentation and edge back-projection of the edge detector

This project models the core of `SimpleOpenNIViewer` in `edge_detector.cpp`.
The viewer takes a depth camera's organised point cloud and finds the
dominant planes in it one after another. For each plane it:

1. rasterises the plane's inlier points into a binary mask the size of the
   image;
2. finds 2D line segments in that mask (Canny edges, then a probabilistic
   Hough transform);
3. back-projects each segment's two endpoints onto the plane, giving 3D
   line segments;
4. removes the plane's inliers from the residual set of points, so the next
   plane is fitted to what is left.

The model has four modules, one per component:

- `Indices` (`indices.dfy`): the residual index vector and
  `filterOutIndices`.
  - The vector is an `array<int>` with a logical size. Shrinking the vector
    with `resize` becomes returning the new size.
  - The two-cursor compaction loop is proved against `FilterScan`, a left
    fold that takes the same decision at each element.
  - For sorted inputs, where the second list is drawn from the first, that
    fold is proved to equal the set difference `Without`.
- `Mask` (`mask.dfy`): the zeroed `CV_8UC1` matrix and `cloudToMat`.
  - The mask is stored as an `array<byte>`.
- `Projection` (`projection.dfy`): `linesToPositions`.
  - It is computed over reals with Cramer's rule.
  - It is proved to solve the 3×3 system (plane equation plus camera-ray
    rows), and to solve it uniquely.
  - Each solution lies on the plane and projects back to its pixel.
- `Segmentation` (`segmentation.dfy`): the `segment` driver loop.

External calls and global state become parameters:

- The RANSAC plane fitter is a function parameter `Fitter`. Its first
  argument is the call number, which stands in for RANSAC's randomness. Its
  contract (`SoundFitter`) says the inliers are strictly ascending and drawn
  from the candidate indices. The fitter is configured with a 0.03 distance
  threshold and no coefficient refinement; those settings live inside the
  oracle.
- The line finder (`findLines`) is a function parameter `LineFinder` from
  mask to segments.
- The camera intrinsics `fx`, `fy`, `u0` and `v0` are an input value
  `Intrinsics`.

Integer widths are modelled where they matter:

- `height * width` is a product of two `uint32` values, so it wraps modulo
  2^32 (`CloudSize`).
- The loop bound `size` is an `int`. It is compared with a `size_t` count,
  so it is converted modulo 2^64 first (`ExceedsBound`); a negative `size`
  therefore never lets the loop run past two planes (`BoundConversion`).

Three behaviours of the code are worth naming:

- No plane found. Lines 258-263 log "Could not estimate a plane for the
  given data." only when the caller's output vector is still empty, and then
  return in either case. `Segment` returns `noPlaneError` true exactly when
  that message is logged.
- Singular systems. Line 417 calls `A.inv()` with no singularity check.
  `cv::Matx::inv` returns a zero matrix for a singular input, so the
  endpoint becomes the origin and the segment is kept. `Solve` returns the
  zero vector in that case.
- Rasterisation. Line 330 marks the cell one after each point's own cell
  (see Findings). Here the model departs from the code: the driver uses the
  intended mapping, and the code as written is modelled separately.

## Model

| member | source | states |
|---|---|---|
| Indices.InitResidual | edge_detector.cpp:239-244 | the residual vector is filled with 0, 1, …, n-1 (`Iota`) |
| Indices.IotaAscending | edge_detector.cpp:239-244 | the initial residual is strictly ascending and every entry is a valid point index below n |
| Indices.FilterOutIndices | edge_detector.cpp:302-318 | after the call, the first k slots hold `FilterOut` of the old contents; k ≤ the old size; the slots beyond the old size are unchanged |
| Indices.FilterScanBounds | edge_detector.cpp:304-315 | cursor j never passes the end of `remove`, and kept elements plus matched elements account for every element of `larger` |
| Indices.FilterScanKept | edge_detector.cpp:311-314 | the kept elements form a subsequence of `larger` in its original order |
| Indices.FilterScanMatched | edge_detector.cpp:307-310 | cursor j stays within `remove`, and the matched prefix of `remove` is a subsequence of `larger` |
| Indices.FilterOutShrinks | edge_detector.cpp:302-318 | the filtered vector is no longer than the input and is an order-preserving subsequence of it |
| Indices.FilterOutNothing | edge_detector.cpp:306-315 | removing an empty list keeps every element and matches none |
| Indices.FilterOutSorted | edge_detector.cpp:299-318 | when `larger` is strictly ascending (the comment at lines 299-301) and `remove` is drawn from it in order (the fitter's inliers come from the residual it was given, `SoundFitter`): the result is exactly `larger` minus `remove`, every element of `remove` is matched, and the length drops by \|remove\| |
| Indices.FilterScanSorted | edge_detector.cpp:306-315 | the loop invariant behind FilterOutSorted: for sorted inputs, a scan that has matched m elements has kept exactly `larger` minus the first m elements of `remove` |
| Indices.FilterOutNeedsSubset | edge_detector.cpp:306-315 | without the drawn-from assumption the loop is not a set difference: for the ascending inputs [1, 3] and [2, 3] it keeps [1, 3], whereas `Without` gives [1] |
| Indices.SubsequenceOfAscending | edge_detector.cpp:299-301 | a subsequence draws its elements from the sequence, is no longer, and inherits strict ascent |
| Indices.FilterResidual | edge_detector.cpp:293 | removing a plane's inliers from the residual leaves the set difference, exactly \|inliers\| shorter, still ascending and made of point indices |
| Indices.WithoutMembers | edge_detector.cpp:293 | an index survives filtering if and only if it was in the residual and is not an inlier |
| Mask.CellMappings | edge_detector.cpp:324-330 | relates the two index-to-cell mappings for every index: the written cell (`WrittenCell`, `at(index, 1)` on a one-column mask) is always one past the intended cell (`IntendedCell`, `at(index, 0)`); the intended cell of a point of an n-point cloud lies inside the mask, and the written cell lies inside exactly when the point is not the last |
| Mask.ZeroMask | edge_detector.cpp:272-274 | a fresh mask of height·width cells, all zero |
| Mask.CloudToMat | edge_detector.cpp:321-333 | with the intended mapping: the mask afterwards is the old mask with 255 stored in exactly the listed points' cells, every other cell unchanged |
| Mask.CloudToMatAsWritten | edge_detector.cpp:329-331 | as written: the same, with each point's mark stored at `at(index, 1)`, one cell later |
| Mask.MarkedZeroMask | edge_detector.cpp:272-275 | marking cells of the zeroed mask gives the mask that is 255 on exactly those cells |
| Mask.MaskReadBack | edge_detector.cpp:321-333 | with the intended mapping (`IntendedCell`), the cells that are on in the rasterised mask are exactly the listed indices, and every cell is 0 or 255 |
| Mask.EmptyMaskIsZero | edge_detector.cpp:272-275 | an empty inlier list leaves the mask all off |
| Mask.AsWrittenLastIndexOutOfBounds | edge_detector.cpp:330 | as written (`WrittenCell`), the mark for point n-1 lands on cell n, one past the end of an n-cell mask |
| Mask.AsWrittenShiftsMarks | edge_detector.cpp:330 | as written (`WrittenCell`), marking point 0 of a two-point cloud gives mask [0, 255]; the intended mapping gives [255, 0] |
| Projection.LinesToPositions | edge_detector.cpp:396-430 | appends one 3D segment per 2D segment, in order, each endpoint solved from its own system; earlier entries of the output are unchanged |
| Projection.Positions | edge_detector.cpp:408-429 | exactly one 3D segment per 2D segment |
| Projection.Solve | edge_detector.cpp:417 | `A.inv() * b`: for a non-singular matrix the result solves the system, `A·x = b`; for a singular one it is the zero vector, as OpenCV's fixed-size inverse gives |
| Projection.SolveUnique | edge_detector.cpp:417 | for a non-singular matrix, any solution of `A·x = b` is the computed one |
| Projection.SystemDeterminant | edge_detector.cpp:403-416 | closed form of the per-pixel determinant, c·fx·fy − a·fy·(u0−u) − b·fx·(v0−v), which says when the system is singular |
| Projection.EndpointSolvesSystem | edge_detector.cpp:402-417 | a back-projected endpoint lies on the plane and on the camera ray through its pixel (all three rows hold) |
| Projection.EndpointReprojects | edge_detector.cpp:402-417 | round trip: for a non-singular system, a plane off the camera centre and non-zero focal lengths, the endpoint has non-zero depth and projects back to its pixel (u0 + fx·x/z = u, v0 + fy·y/z = v) |
| Projection.CramerRow0 | edge_detector.cpp:417 | row 0 of Cramer's identity: row 0 of A times the cofactor numerators equals b0 times det A |
| Projection.CramerRow1 | edge_detector.cpp:417 | the same identity for row 1 |
| Projection.CramerRow2 | edge_detector.cpp:417 | the same identity for row 2 |
| Segmentation.PlaneLines | edge_detector.cpp:271-289 | the plane's 3D segments are the back-projections of the lines found in the mask that is 255 exactly on the inliers' cells, one per line |
| Segmentation.ProcessPlane | edge_detector.cpp:271-293 | one loop body: produces the projected segments of the lines found in the plane's mask; shrinks the residual to the residual minus the inliers, by exactly \|inliers\|; keeps it ascending and in range |
| Segmentation.Segment | edge_detector.cpp:215-296 | the caller's planes are kept as a prefix; each round appends the plane's segments and removes its inliers from the residual; the loop ran only while its condition held; it stops on empty inliers or on the exit condition; the error is reported exactly when no plane was ever stored; there are at most height·width rounds |
| Segmentation.NextRound | edge_detector.cpp:249-295 | one more completed round keeps the run's invariant: every earlier round stays complete, and the residuals stay ordered and in range |
| Segmentation.RoundDoneStable | edge_detector.cpp:291-293 | appending a plane and a residual does not change the record of earlier rounds |
| Segmentation.NoCandidatesNoInliers | edge_detector.cpp:254-258 | under the fitter's contract, no candidate points means no inliers |
| Segmentation.EmptyResidualNoRound | edge_detector.cpp:249-264 | when the first residual is empty, no round completes: the loop ends in its first pass |
| Segmentation.SegmentEmptyCloud | edge_detector.cpp:215-264 | an empty cloud (no rows or no columns) passed with an empty output vector yields no planes and logs the no-plane error |
| Segmentation.BoundConversion | edge_detector.cpp:249-250 | a non-negative bound compares as written; a negative bound, once converted to size_t, is never exceeded |
| Segmentation.ResidualsNested | edge_detector.cpp:249-295 | each later residual lies within each earlier one and holds none of that earlier round's inliers |
| Segmentation.InliersDisjoint | edge_detector.cpp:249-295 | the inlier sets of different rounds never overlap, and every inlier is a point index of the cloud |

## Left out

- The constructor, `updateViewer` and `initViewer` (lines 53-124), the grabber callback `cloud_cb_`, `runWithInputFile`, `run`, `savePointCloud` and `readPointCloud` (lines 126-210), `convertColor`, `main` and `printUsage`, and the ROS node: these are I/O, rendering and event plumbing.
- The RANSAC fitter (`pcl::SACSegmentation`) and the Canny/Hough line finder (`findLines`): these are library code, modelled only by their interfaces (`Fitter`, `LineFinder`). `SoundFitter` states the only property the driver relies on.
- Reshaping the mask (`majorPlane.rows`/`cols`, lines 278-279) only changes how `findLines` reads the same bytes, so the mask is passed to `LineFinder` as a flat sequence.
- Single-precision floating point in `linesToPositions` uses reals here, and the conversion of pixel coordinates to float is taken as exact.
- Segmentation.Segment: the point coordinates of the cloud are not modelled. Only its size matters to the driver; the fitter sees the cloud through its indices.
- Indices.FilterOutIndices, Indices.InitResidual, Mask.ZeroMask: the source's 32-bit `int`s are unbounded integers here. These are the cursors and values of filterOutIndices, the loop counter `int i` of the residual initialisation (line 242) and the `int` row count passed to `cv::Mat::zeros` (line 272). For clouds of more than 2^31 - 1 points the source overflows them, while the model (and `Segment`, which does not exclude such sizes) goes on computing with unbounded integers.
- Mask.CloudToMatAsWritten: the out-of-bounds write for the last point is excluded by its precondition, not modelled as undefined behaviour. `AsWrittenLastIndexOutOfBounds` shows which input reaches it.
- Indices.FilterOutSorted: proved only when both vectors are ascending (the comment at lines 299-301) and `remove` is drawn from `larger` (the fitter's contract, `SoundFitter`). For other inputs the model computes what the loop computes (`FilterOut`) but claims no set-difference law; `FilterOutNeedsSubset` shows that none holds.

## Findings

| source | as written | input that shows it | evidently intended | confidence | as-written member | corrected member |
|---|---|---|---|---|---|---|
| edge_detector.cpp:330 | `mat.at<uint8_t>(validPoints[i], 1)` on a (height·width)×1 mask addresses flat cell index+1 | inliers [0] on a two-point cloud give mask [0, 255] instead of [255, 0]; an inlier n-1 writes cell n, past the end | `at(validPoints[i], 0)`: the point's own cell | not executed | Mask.CloudToMatAsWritten, Mask.AsWrittenShiftsMarks | Mask.CloudToMat, Mask.MaskReadBack |
