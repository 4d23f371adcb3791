# qurvy integer Bézier engine — a Dafny model

This project models the integer core of the qurvy curve library and proves
properties of it:

- the arena doubly linked list that the flattening solver runs on;
- the fixed-point vector arithmetic (`IntPoint`, `IntOffset`, `IntLine`,
  `IntRect`) and the grid snap;
- the three spline kinds (line, cube with one control point, quad with two),
  evaluated by de Casteljau's construction at dyadic parameters
  step / 2^splitFactor;
- the regular sampling iterator and the edge iterator of a Bézier path;
- the adaptive flattening solver, which splits chords at their midpoints until
  neighbouring directions agree and the chords are short;
- the winding counters and fragment boxes of the boolean stage, and the
  editor's read/write pair on anchor parts.

Each source file has its own Dafny module: `LinkLists`, `Points`, `Offsets`,
`Lines`, `Rects`, `Grids`, `Anchors`, `LineSplines`, `CubeSplines`,
`QuadSplines`, `Splines`, `SplineIter`, `Paths`, `Approximations`,
`ShapeCounts`, `Fragments` and `EditorState`. `Bits` holds the integer
primitives: shifts as powers of two, `ilog2`, `isqrt` and truncating division.

Modelling choices:

- Rust integers (`i64`, `i128`, `u32`, `usize`) are unbounded Dafny integers.
  Overflow is modelled in a few places only: the `as i64` cast in
  `normalized_10bit`, the `u32` shift of `min_cos`, and both `i64` shifts of
  the grid snap. Elsewhere the model is the non-overflowing case, and
  "## Left out" names each member where the source's arithmetic can
  overflow.
- Rust's `/` on signed integers truncates toward zero. It is `Bits.TruncDiv`.
  An arithmetic `>>` rounds toward minus infinity, which is Dafny's `/` by a
  power of two.
- The code that updates state in place takes imperative form:
  - `LinkList` is a class over a sequence of nodes. Ghost fields `order` and
    `pos` record the logical order and its inverse.
  - The solver is a class that owns the list.
  - Both iterators are classes with a counter.
  - `with_iter`, `regular_points`, `points` and `process` are loops.
  - The `&mut self` updates of copyable values (`IntRect::add_point`,
    `ShapeCountBoolean::apply`, `AnchorPart::update_point`) are methods that
    take the value and return the updated one, one field write at a time.
- A Rust panic (`ilog2(0)`, normalising a zero vector) is either a
  precondition or, inside the solver, the `Panic` outcome. A degenerate
  curve (a zero-length first or last leg, or a start equal to the end)
  panics in the solver's set-up, because a zero vector is normalised; the
  model returns `Panic` exactly then (`SetupPanics`) rather than excluding
  such curves.
- The solver's `while` loop has no bound in the source. The model takes a
  budget of splits and ends with `OutOfFuel` when it is used up.
- The solver's run is recorded as a sequence of stages (`Stage`: the arena,
  the queue, the splits left). `Step` is one round of `process`: select the
  queued chords that fail `split_test`, then split them in order.
  `Approximates` says that a sequence of stages is a run of
  `Solver::approximate` from the single initial chord and how it ends, and
  `ApproximatesUnique` shows that this pins the result down.

The model follows the code everywhere except in `is_small`
(qurvy/src/int/bezier/approximation.rs:169-170), which panics on a vector
with a zero coordinate (see Findings). `IsSmallAsWritten` models the code as
written; the solver uses the corrected `IsSmall`, so its `Panic` outcome
does not cover that panic.

## Model

| member | source | states |
|---|---|---|
| LinkLists.LinkList.constructor | qurvy/src/data/list.rs:19-36 | node i gets prev i-1 (EMPTY_REF for the first) and next i+1 (EMPTY_REF for the last); the list is well linked and lists the items in order; an empty vector gives no nodes |
| LinkLists.LinkList.Len | qurvy/src/data/list.rs:15-17 | the arena size equals the number of listed items |
| LinkLists.LinkList.SplitAt | qurvy/src/data/list.rs:38-61 | returns (index, old length); the arena becomes exactly SplitNodes of the old one; the list stays well linked and its contents have the item at that position replaced by a, b |
| LinkLists.SplitNodes | qurvy/src/data/list.rs:41-58 | one node is appended; node index holds a with next = new node; the new node holds b with prev = index and next = the old next; the old next's prev is the new node; no other node changes |
| LinkLists.SplitKeepsLinked | qurvy/src/data/list.rs:38-61 | splitting a well-linked arena keeps every prev/next consistent with the new order, and the contents are the old ones with a, b spliced in |
| LinkLists.LinksConsistent | qurvy/src/data/list.rs:3-7 | in a well-linked arena, next.prev is the node itself and prev.next is the node itself |
| LinkLists.WalkVisitsAll | qurvy/src/data/list.rs:38-61 | following next from node 0 visits every node exactly once, in list order |
| LinkLists.LinkList.Items | qurvy/src/int/bezier/approximation.rs:92-100 | the walk from index 0 until EMPTY_REF returns the items in list order, which is also WalkItems of the arena from node 0 |
| LinkLists.WalkItems | qurvy/src/int/bezier/approximation.rs:92-100 | the walk of at most fuel steps from node j collects at most fuel items, the first being node j's |
| LinkLists.WalkItemsFrom | qurvy/src/int/bezier/approximation.rs:92-100 | in a well-linked arena, the walk from the node at position i collects exactly the contents from position i on |
| LinkLists.WalkItemsContents | qurvy/src/int/bezier/approximation.rs:92-100 | in a well-linked arena, the walk from node 0 with one step per node collects exactly the list's contents |
| LinkLists.LinkedInArena | qurvy/src/data/list.rs:3-7 | in a well-linked arena every prev and next is EMPTY_REF or an index of a node |
| LinkLists.SplitInArena | qurvy/src/data/list.rs:41-58 | a split keeps every prev and next EMPTY_REF or an index of a node of the grown arena |
| LinkLists.SplitExample | qurvy/src/data/list.rs:68-77 | new([0,1,3]) split at 1 into 1, 2 stores 0,1,3,2 by index and lists 0,1,2,3 |
| Points.IntPoint.Add | qurvy/src/int/math/point.rs:60-70 | subtracting the added point gives back the original point |
| Points.IntPoint.AddOffset | qurvy/src/int/math/point.rs:72-82 | adding an offset is undone by subtracting it, and moves the point by exactly the offset |
| Points.OffsetRoundTrip | qurvy/src/int/math/point.rs:72-106 | (p + o) - o == p, and p + o moves each coordinate by o's |
| Points.IntPoint.SqrLength | qurvy/src/int/math/point.rs:27-29 | the 128-bit squared length is zero exactly for the zero vector |
| Points.New | qurvy/src/int/math/point.rs:20-23 | stores x and y unchanged |
| Points.FromOffset | qurvy/src/int/math/point.rs:108-113 | keeps both coordinates |
| Points.ToOffset | qurvy/src/int/math/offset.rs:24-29 | keeps both coordinates: converting back gives the point |
| Points.ConversionRoundTrip | qurvy/src/int/math/offset.rs:24-29 | offset -> point -> offset and point -> offset -> point are identities |
| Points.IntPoint.Normalized10Bit | qurvy/src/int/math/point.rs:26-47 | below x^2 + y^2 = 2^126 each output coordinate has the sign of the input's or is zero; from there on, for i64 inputs, the `as i64` wrap makes every coordinate's sign the opposite |
| Points.IntPoint.Sub | qurvy/src/int/math/point.rs:84-94 | the difference is the zero vector exactly when the two points are equal |
| Points.IntPoint.SubOffset | qurvy/src/int/math/point.rs:96-106 | subtracting an offset is subtracting the point with the same coordinates |
| Points.IntPoint.DotProduct | qurvy/src/int/math/point.rs:49-52 | a vector's dot product with itself is its squared length, and with the zero vector it is 0 |
| Points.IntPoint.CrossProduct | qurvy/src/int/math/point.rs:54-57 | zero for a vector with itself, and cross^2 + dot^2 == |p|^2 * |q|^2 (Lagrange's identity) |
| Points.NormalizedAlong | qurvy/src/int/math/point.rs:26-52 | while x^2 + y^2 < 2^126, the normalised vector's dot product with the vector is positive: it points the same way |
| Points.NormalizedWrapExamples | qurvy/src/int/math/point.rs:32-45 | past the wrap (i64::MIN, 0) normalises to (1024, 0), reversing the direction, and (i64::MIN, i64::MIN) to (1748, 1748), beyond the 1024 bound |
| Points.NormalizedShort | qurvy/src/int/math/point.rs:26-40 | a vector whose length is a whole number below 2^26 takes the `(x << 10) / len` branch, with truncating division |
| Points.NormalizedQuotients | qurvy/src/int/math/point.rs:26-47 | for a nonzero vector with x^2 + y^2 < 2^126, in both branches each output magnitude is at most 1024 and the rounding gap is below one unit per axis |
| Points.NormalizedBounds | qurvy/src/int/math/point.rs:153-172 | for every nonzero vector with x^2 + y^2 < 2^126 (so for all coordinates up to 10^12 of the randomised test), abs(nx), abs(ny) <= 1024 and 1024^2 - (nx^2 + ny^2) < 4098 < 5 * 1024 |
| Points.NormalizedNoOverflow | qurvy/src/int/math/point.rs:30-46 | for i64 coordinates: the branch on the bit count keeps `x << 10` inside i64; in the other branch `len >> 10` is at least 2^17 while x^2 + y^2 < 2^126 and negative from there on, so it is never zero |
| Points.NormalizedExamples | qurvy/src/int/math/point.rs:131-133 | (1024,0) and (0,1024) normalise to themselves |
| Points.NormalizedThreeFour | qurvy/src/int/math/point.rs:134 | (3,4) normalises to (614,819) |
| Points.DotSymmetric | qurvy/src/int/math/point.rs:50-52 | the dot product is symmetric |
| Points.CrossAntisymmetric | qurvy/src/int/math/point.rs:55-57 | the cross product changes sign when its arguments swap |
| Offsets.Zero | qurvy/src/int/math/offset.rs:15-17 | both coordinates are 0 |
| Offsets.New | qurvy/src/int/math/offset.rs:19-21 | stores x and y unchanged |
| Lines.New | qurvy/src/int/math/line.rs:11-13 | stores both ends |
| Lines.IntLine.SplitAt | qurvy/src/int/math/line.rs:16-20 | each coordinate is interpolated on its own axis |
| Lines.SplitOneDimensionAt | qurvy/src/int/math/line.rs:22-30 | step 0 gives a, step 2^k gives b, and every step up to 2^k gives a value between a and b |
| Lines.SplitOneDimensionRefine | qurvy/src/int/math/line.rs:23-30 | step 2s at resolution k+1 gives the same value as step s at resolution k |
| Lines.SplitEnds | qurvy/src/int/math/line.rs:16-30 | the point at step 0 is a and at step 2^k is b |
| Lines.SplitRefine | qurvy/src/int/math/line.rs:16-30 | doubling step and resolution names the same point |
| Lines.SplitMidpointExample | qurvy/src/int/math/line.rs:39-43 | the midpoint of (0,0)-(0,8) is (0,4) |
| Lines.SplitQuarterExample | qurvy/src/int/math/line.rs:62-75 | (0,-4)-(0,4) in quarters gives y = 2 * step - 4 |
| Lines.SplitEighthExample | qurvy/src/int/math/line.rs:78-99 | (0,-4)-(0,4) in eighths gives y = step - 4 |
| Rects.Empty | qurvy/src/int/math/rect.rs:13-18 | min is (i64::MAX, i64::MAX), max is (i64::MIN, i64::MIN), and no i64 point is inside |
| Rects.WithMinMax | qurvy/src/int/math/rect.rs:21-23 | stores both corners |
| Rects.IntRect.Contains | qurvy/src/int/math/rect.rs:41-53 | a box that contains a point is proper (min <= max on both axes), and a one-point box contains exactly its point |
| Rects.IntRect.WithPoint | qurvy/src/int/math/rect.rs:41-46 | the grown box contains the point and everything the old one did; each bound is the old bound or the point's coordinate |
| Rects.AddPoint | qurvy/src/int/math/rect.rs:41-46 | the four field updates give WithPoint: the point is inside, so is all that was inside |
| Rects.AddPointIdempotent | qurvy/src/int/math/rect.rs:41-46 | adding a contained point changes nothing; adding the same point twice is adding it once |
| Rects.AddPointBounding | qurvy/src/int/math/rect.rs:41-46 | adding a point to the bounding box of some points gives the bounding box of those points and that one |
| Rects.WithIter | qurvy/src/int/math/rect.rs:30-38 | no points give Empty; otherwise the result is the componentwise min/max box of the points |
| Rects.WithPoints | qurvy/src/int/math/rect.rs:26-28 | the same as with_iter over the slice |
| Rects.BoundingBoxUnique | qurvy/src/int/math/rect.rs:30-38 | two bounding boxes of the same points are equal |
| Rects.IntRect.IsIntersectBorderInclude | qurvy/src/int/math/rect.rs:49-53 | for proper boxes, true exactly when the overlaps on both axes are at least zero |
| Rects.IntRect.IsIntersectBorderExclude | qurvy/src/int/math/rect.rs:56-60 | for solid boxes, true exactly when the overlaps on both axes are positive |
| Rects.IncludeSymmetric | qurvy/src/int/math/rect.rs:49-60 | both overlap tests are symmetric |
| Rects.ExcludeImpliesInclude | qurvy/src/int/math/rect.rs:49-60 | the strict test implies the inclusive one |
| Rects.IncludeIffCommonPoint | qurvy/src/int/math/rect.rs:49-53 | proper boxes pass the inclusive test exactly when they share a point |
| Rects.WithPointsExample | qurvy/src/int/math/rect.rs:69-82 | the box of (0,0), (-7,10), (20,-5) is (-7,-5)-(20,10) |
| Rects.CornerTouchExample | qurvy/src/int/math/rect.rs:85-102 | boxes touching at a corner fail the strict test and pass the inclusive one |
| Grids.New | qurvy/src/convert/grid.rs:11-19 | size_power is stored; remainder_mask covers exactly the residues below 2^size_power, i.e. it is 2^size_power - 1 |
| Grids.Grid.SnapToGridValue | qurvy/src/convert/grid.rs:26-31 | for every i64 a the result is an i64 multiple of 2^p; p = 0 keeps a; while a + 2^(p-1) fits in i64 it is within half a step of a (a - r < 2^(p-1), r - a <= 2^(p-1)); above that, `(c + s) << p` wraps and the result is i64::MIN |
| Grids.SnapNearest | qurvy/src/convert/grid.rs:26-31 | while a + 2^(p-1) fits in i64, the result is the only multiple of 2^p in that half-open window, so it is the nearest one with ties upward |
| Grids.SnapFixedPoints | qurvy/src/convert/grid.rs:26-31 | an i64 is returned unchanged exactly when it is already a multiple of 2^p |
| Grids.SnapIdempotent | qurvy/src/convert/grid.rs:26-31 | snapping twice is snapping once, for every i64, wrapped results included |
| Grids.SnapBitValue | qurvy/src/convert/grid.rs:28 | `((a << 1) >> p) & 1`, with the `i64` wrap of `a << 1`, is 1 exactly when the remainder of a by 2^p reaches 2^(p-1) |
| Grids.SnapTop | qurvy/src/convert/grid.rs:27-30 | the unwrapped (c + s) * 2^p lies in [i64::MIN, 2^63] and is 2^63 exactly when p > 0 and a + 2^(p-1) leaves i64 |
| Grids.SnapExamples | qurvy/src/convert/grid.rs:55-76 | with p = 4: 7 -> 0, 8 -> 16, -7 -> 0, -9 -> -16 |
| Grids.SnapTopExamples | qurvy/src/convert/grid.rs:26-31 | with p = 4: i64::MAX - 8 -> i64::MAX - 15, and i64::MAX -> i64::MIN through the wrap |
| Anchors.IntBezierAnchor.HandleInPoint | qurvy/src/int/bezier/anchor.rs:18-20 | None exactly when handle_in is None; otherwise point + handle_in, from which subtracting the point recovers the offset |
| Anchors.IntBezierAnchor.HandleOutPoint | qurvy/src/int/bezier/anchor.rs:23-25 | the same for handle_out |
| LineSplines.IntLineSpline.StartDir | qurvy/src/int/bezier/spline_line.rs:18-25 | the start and end directions of a line are the same normalised vector |
| LineSplines.IntLineSpline.EndDir | qurvy/src/int/bezier/spline_line.rs:22-25 | while the root fits in i64, the direction has a positive dot product with b - a |
| LineSplines.IntLineSpline.SplitAt | qurvy/src/int/bezier/spline_line.rs:31-34 | step 0 gives start() = a, step 2^k gives end() = b, and every parameter in [0, 1] gives a point inside every box that holds a and b |
| LineSplines.IntLineSpline.Boundary | qurvy/src/int/bezier/spline_line.rs:39-54 | the componentwise min/max box of a and b, i.e. with_points([a, b]) |
| LineSplines.SplitRefine | qurvy/src/int/bezier/spline_line.rs:32-34 | split_at(2s, k+1) = split_at(s, k) |
| LineSplines.SplitWithinBoundary | qurvy/src/int/bezier/spline_line.rs:32-54 | every point at a parameter in [0, 1] lies in boundary() |
| CubeSplines.IntCubeSpline.StartDir | qurvy/src/int/bezier/spline_cube.rs:17-20 | while the root fits in i64, the direction has a positive dot product with the first leg m - a |
| CubeSplines.IntCubeSpline.EndDir | qurvy/src/int/bezier/spline_cube.rs:21-24 | the same for the last leg b - m |
| CubeSplines.IntCubeSpline.SplitAt | qurvy/src/int/bezier/spline_cube.rs:30-37 | step 0 gives start() = a, step 2^k gives end() = b, and every parameter in [0, 1] gives a point inside every box that holds a, m and b |
| CubeSplines.SplitRefine | qurvy/src/int/bezier/spline_cube.rs:31-37 | split_at(2s, k+1) = split_at(s, k) |
| QuadSplines.IntQuadSpline.StartDir | qurvy/src/int/bezier/spline_quad.rs:17-20 | while the root fits in i64, the direction has a positive dot product with the first leg am - a |
| QuadSplines.IntQuadSpline.EndDir | qurvy/src/int/bezier/spline_quad.rs:21-24 | the same for the last leg b - bm |
| QuadSplines.IntQuadSpline.SplitAt | qurvy/src/int/bezier/spline_quad.rs:30-44 | step 0 gives start() = a, step 2^k gives end() = b, and every parameter in [0, 1] gives a point inside every box that holds the four control points |
| QuadSplines.SplitRefine | qurvy/src/int/bezier/spline_quad.rs:31-44 | split_at(2s, k+1) = split_at(s, k) |
| Splines.New | qurvy/src/int/bezier/spline.rs:19-42 | Quad exactly when a has handle_out and b has handle_in, with the two absolute handle points; Cube exactly when one of them exists, with m from it; Line when neither; the ends are a.point and b.point |
| Splines.IntSpline.Start | qurvy/src/int/bezier/spline.rs:72-78 | for every kind, the start is the point at step 0 at every resolution |
| Splines.IntSpline.End | qurvy/src/int/bezier/spline.rs:72-78 | for every kind, the end is the point at step 2^k at resolution k, for every k |
| Splines.IntSpline.StartDir | qurvy/src/int/bezier/spline.rs:72-78 | for every kind, while the root fits in i64, the start direction has a positive dot product with the first leg |
| Splines.IntSpline.EndDir | qurvy/src/int/bezier/spline.rs:72-78 | the same for the last leg |
| Splines.IntSpline.SplitAt | qurvy/src/int/bezier/spline.rs:72-78 | for every kind, a parameter in [0, 1] gives a point inside every box that holds the control points |
| Splines.SplitEnds | qurvy/src/int/bezier/spline.rs:72-78 | for every kind, step 0 gives start() and step 2^k gives end() |
| Splines.SplitRefine | qurvy/src/int/bezier/spline.rs:72-78 | for every kind, split_at(2s, k+1) = split_at(s, k) |
| Splines.SplitRefineMany | qurvy/src/int/bezier/spline.rs:72-78 | split_at(s * 2^j, k + j) = split_at(s, k) |
| SplineIter.IntSplinePointsIterator.constructor | qurvy/src/int/bezier/iter.rs:36-45 | count is 2^k plus one when the end is wanted; the first index is 0 when the start is wanted, else 1; the points to come are those steps in order |
| SplineIter.IntSplinePointsIterator.Next | qurvy/src/int/bezier/iter.rs:52-61 | below count it yields split_at(i, k) and advances i; at or past count it yields None and stays put; it always yields the head of the remaining points |
| SplineIter.IntSplinePointsIterator.SizeHint | qurvy/src/int/bezier/iter.rs:64-66 | reports count, not the number left |
| SplineIter.Collect | qurvy/src/int/bezier/iter.rs:48-61 | draining the iterator returns the remaining points in increasing step order |
| SplineIter.Samples | qurvy/src/int/bezier/iter.rs:52-61 | hi - lo points, the j-th being split_at(lo + j, k) |
| SplineIter.RegularPointsSpec | qurvy/src/int/bezier/spline.rs:45-51 | exactly 2^k points, the j-th being split_at(j, k): start included, end excluded |
| SplineIter.RegularPoints | qurvy/src/int/bezier/spline.rs:45-51 | collecting points_iter(true, false, k) gives RegularPointsSpec |
| SplineIter.RegularPointsEnds | qurvy/src/int/bezier/spline.rs:45-51 | the first point is the start and the next step after the last would be the end |
| SplineIter.RegularPointsRefine | qurvy/src/int/bezier/spline.rs:45-51 | point j at resolution k is point 2j at resolution k+1 |
| Paths.Edges | qurvy/src/int/bezier/path.rs:59-81 | n anchors give n-1 edges when open and n when closed, none when n = 0; edge j joins anchors j and j+1; the closing edge joins the last anchor to the first |
| Paths.OpenEdges | qurvy/src/int/bezier/path.rs:75-80 | each non-closing edge is built from two consecutive anchors |
| Paths.SplineIterator.constructor | qurvy/src/int/bezier/path.rs:50-52 | starts at i = 1 with all edges to come |
| Paths.SplineIterator.Next | qurvy/src/int/bezier/path.rs:59-81 | yields the edge from anchors i-1, i; at i = n the closing edge or None; past n None and stays exhausted; always the head of the remaining edges |
| Paths.PathPoints | qurvy/src/int/bezier/path.rs:27-35 | the concatenation of every edge's regular points, edges * 2^k of them |
| Paths.PointsOfLength | qurvy/src/int/bezier/path.rs:27-35 | every edge contributes exactly 2^k points |
| Paths.SingleAnchorEdges | qurvy/src/int/bezier/path.rs:64-73 | a closed one-anchor path has one self-edge; an open one has none |
| Paths.DiamondExample | qurvy/src/int/bezier/path.rs:92-122 | the closed four-anchor test path gives 16 points at factor 2 |
| Approximations.IsSmall | qurvy/src/int/bezier/approximation.rs:166-180 | true exactly when the squared length is below 2^(2 * power), i.e. the length is below 2^power |
| Approximations.SmallCharacterised | qurvy/src/int/bezier/approximation.rs:169-176 | each of the three ilog2 tests is a comparison with 2^power, and the length test implies both coordinate tests |
| Approximations.IsSmallExample | qurvy/src/int/bezier/approximation.rs:189-200 | (100,100) is small only at power 8 among powers 2 to 8 |
| Approximations.Initial | qurvy/src/int/bezier/approximation.rs:52-58 | the first chord, step 0 at factor 0 from start() to end(), is a chain by itself |
| Approximations.Children | qurvy/src/int/bezier/approximation.rs:129-151 | two halves at the next factor: steps 2s and 2s+2, meeting at split_at(s+1, k+1), from a to b |
| Approximations.ChildrenOnSpline | qurvy/src/int/bezier/approximation.rs:133-151 | the halves of a chord on the spline are on the spline: ends at their dyadic parameters, dir the normalised chord |
| Approximations.ChildrenAdjacent | qurvy/src/int/bezier/approximation.rs:137-151 | the two halves share the midpoint and their parameter intervals meet |
| Approximations.SplitShorts | qurvy/src/int/bezier/approximation.rs:153 | the chord at position j is replaced by its two halves, the rest unchanged |
| Approximations.ChainSplit | qurvy/src/int/bezier/approximation.rs:129-162 | splitting a chord in a chain gives a chain: from start() to end(), consecutive chords sharing endpoints, every chord on the spline |
| Approximations.ChainVertices | qurvy/src/int/bezier/approximation.rs:18-24 | the vertices of a chain start at start(), end at end(), and each is split_at at its parameter |
| Approximations.ChainLink | qurvy/src/int/bezier/approximation.rs:129-162 | each chord of a chain ends at split_at of its parameter bounds, and ends where the next one starts |
| Approximations.Pending | qurvy/src/int/bezier/approximation.rs:155-161 | at most two indices are queued, and only the two indices split_at returned |
| Approximations.PendingQueues | qurvy/src/int/bezier/approximation.rs:155-161 | for distinct indices, a half's index is queued exactly when is_small says the half is not small, and when both are queued the first half comes first |
| Approximations.Enqueue | qurvy/src/int/bezier/approximation.rs:155-161 | the two conditional pushes append exactly Pending to the queue |
| Approximations.Solver.constructor | qurvy/src/int/bezier/approximation.rs:47-67 | min_cos is `min_cos << 10` on a u32, min_len_power is ilog2(min_len), the end directions are stored (together: the solver's parameters are ParamsOf), and the list holds the single initial chord, as in the first stage |
| Approximations.InitialList | qurvy/src/int/bezier/approximation.rs:52-58 | a fresh well-linked list holding only the initial chord at node 0, which is a chain |
| Approximations.Solver.SplitTest | qurvy/src/int/bezier/approximation.rs:103-127 | true exactly when the chord's dot product with the previous direction (start_dir for the first) or with the next one (end_dir for the last) is below min_cos, which is TestAt on the arena |
| Approximations.Select | qurvy/src/int/bezier/approximation.rs:79-83 | at most as many indices as in the queue, each naming a node |
| Approximations.SelectFailing | qurvy/src/int/bezier/approximation.rs:79-83 | the selected indices are exactly the queued indices whose chords fail split_test: every selected one is queued and fails, every queued one that fails is selected |
| Approximations.Solver.SelectForSplit | qurvy/src/int/bezier/approximation.rs:79-83 | the collecting loop produces Select of the queue on the current arena |
| Approximations.Solver.Split | qurvy/src/int/bezier/approximation.rs:129-162 | returns Panic exactly when a half has zero length (normalising it panics), and then changes nothing; otherwise the arena becomes SplitNodes, the list grows by one node, its contents are SplitShorts, and the buffer gets Pending, the halves that are not small under the corrected `is_small`, appended |
| Approximations.SplitOne | qurvy/src/int/bezier/approximation.rs:129-162 | on an arena: Panic exactly when the chord at t cannot be halved; otherwise one node more, the old queue kept as a prefix and at most two indices added, all links and queued indices inside the new arena |
| Approximations.SplitRound | qurvy/src/int/bezier/approximation.rs:85-88 | the splits of a round in order: one node per split, at most two queued indices per split, links and queued indices inside the arena; never out of budget |
| Approximations.SplitRoundLast | qurvy/src/int/bezier/approximation.rs:86-88 | a round over one more index is the shorter round followed by SplitOne at that index |
| Approximations.SplitRoundPanics | qurvy/src/int/bezier/approximation.rs:86-88 | once a prefix of the round panics, the whole round panics |
| Approximations.Solver.SplitEach | qurvy/src/int/bezier/approximation.rs:85-88 | never runs out of budget; Panic exactly when SplitRound of the selection on the arena it started from panics, and then some selected chord cannot be split; on completion the new arena and the returned queue are exactly SplitRound's |
| Approximations.Step | qurvy/src/int/bezier/approximation.rs:78-90 | one round of the loop: OutOfFuel exactly when the selection is larger than the budget left; on completion the links and queue stay inside the arena and each split moves one unit from the budget to the arena; a round that splits nothing ends with an empty queue and the same arena |
| Approximations.RecordsAgree | qurvy/src/int/bezier/approximation.rs:78-90 | two records of the same step function from the same first stage agree at every stage both have |
| Approximations.RecordExtend | qurvy/src/int/bezier/approximation.rs:78-90 | a record followed by the step from its last stage is a record one stage longer |
| Approximations.RoundsExtend | qurvy/src/int/bezier/approximation.rs:78-90 | a record of rounds followed by one more round from a non-empty queue is a record of rounds |
| Approximations.RoundsCannotFinish | qurvy/src/int/bezier/approximation.rs:78-101 | a run that has finished at its last stage cannot be continued by another record of rounds from the same start: no record from there is longer |
| Approximations.RunsAgree | qurvy/src/int/bezier/approximation.rs:72-101 | two finished records of rounds from the same first stage are the same record with the same result: the loop is deterministic |
| Approximations.Solver.Process | qurvy/src/int/bezier/approximation.rs:72-101 | the ghost stages start from the old arena with queue [0] and the whole budget, are rounds of Step, and finish with r: Done exactly with an empty last queue and the walk of the last arena (which is the list's contents, a chain over the spline, at most one node per split); Panic when the next round panics, and then a chord on the spline cannot be split; OutOfFuel when the next round selects more chords than the budget has left |
| Approximations.ApproximatesUnique | qurvy/src/int/bezier/approximation.rs:47-101 | two runs of Solver::approximate on the same inputs give the same result |
| Approximations.SolverApproximate | qurvy/src/int/bezier/approximation.rs:47-69 | some record of stages is a run of Solver::approximate with this result (so the result is the one ApproximatesUnique pins down); Panic only in the set-up or when a chord on the spline cannot be split; a completed run returns a chain of 1 to maxSplits + 1 chords |
| Approximations.Approximate | qurvy/src/int/bezier/approximation.rs:12-15 | the same, under the debug assertion min_cos <= 1024 |
| Approximations.PointsOf | qurvy/src/int/bezier/approximation.rs:19-21 | a completed result comes from a non-empty completed chord list and is its vertices; `unwrap` on an empty list is Panic |
| Approximations.CollectVertices | qurvy/src/int/bezier/approximation.rs:20-21 | the loop collects every chord's start and then the last chord's end: Vertices |
| Approximations.ApproximatePoints | qurvy/src/int/bezier/approximation.rs:18-24 | the result is PointsOf of a run of Solver::approximate; Panic only in the set-up or when a chord on the spline cannot be split; a completed run gives 2 to maxSplits + 2 vertices of a chain, the first start(), the last end(), each on the spline |
| Approximations.IsSmallAsWritten | qurvy/src/int/bezier/approximation.rs:166-180 | where ilog2 of both magnitudes is defined, true exactly when the length is below 2^power |
| Approximations.IsSmallPanicExample | qurvy/src/int/bezier/approximation.rs:133-155 | for the quad (0,0),(0,100),(100,-100),(100,0) both halves of the first split are (50,0), a vector with a zero coordinate |
| Approximations.PanicStart | qurvy/src/int/bezier/approximation.rs:47-58 | that quad passes the set-up, its initial chord is the one split above, and the chord's direction is perpendicular to start_dir, so split_test selects it for any positive min_cos |
| ShapeCounts.New | qurvy/src/int/bool/geom/count.rs:17 | stores both counters unchanged |
| ShapeCounts.ShapeCountBoolean.Add | qurvy/src/int/bool/geom/count.rs:19-25 | adding new(0, 0) changes nothing, and subtracting the added count gives back the original |
| ShapeCounts.ShapeCountBoolean.Invert | qurvy/src/int/bool/geom/count.rs:33-36 | adding the inverse gives new(0, 0), and only new(0, 0) is its own inverse |
| ShapeCounts.Apply | qurvy/src/int/bool/geom/count.rs:28-31 | the two in-place increments give exactly add(count), which subtracting count undoes |
| ShapeCounts.AddCommutative | qurvy/src/int/bool/geom/count.rs:20-25 | add is commutative |
| ShapeCounts.AddAssociative | qurvy/src/int/bool/geom/count.rs:20-25 | add is associative |
| ShapeCounts.AddZero | qurvy/src/int/bool/geom/count.rs:17-25 | new(0, 0) is the unit of add |
| ShapeCounts.InvertInvolutive | qurvy/src/int/bool/geom/count.rs:34-36 | invert twice is the identity |
| ShapeCounts.InvertCancels | qurvy/src/int/bool/geom/count.rs:20-36 | a count plus its inverse is new(0, 0) |
| ShapeCounts.InvertDistributes | qurvy/src/int/bool/geom/count.rs:20-36 | invert distributes over add |
| ShapeCounts.UnitCounts | qurvy/src/int/bool/geom/count.rs:8-11 | the inverted unit counts are the inverses of the direct ones and cancel them |
| Fragments.New | qurvy/src/int/bool/geom/fragment.rs:14-21 | stores its four arguments unchanged |
| Fragments.HalfNormal | qurvy/src/int/bool/geom/fragment.rs:50-57 | each coordinate is half the quarter-turned one, off by at most one half and rounded toward zero |
| Fragments.HalfNormalExact | qurvy/src/int/bool/geom/fragment.rs:52-56 | for even coordinates the half normal is exact and perpendicular |
| Fragments.HalfNormalOdd | qurvy/src/int/bool/geom/fragment.rs:52-56 | reversing the vector reverses the half normal |
| Fragments.WithAb | qurvy/src/int/bool/geom/fragment.rs:24-47 | the boundary is exactly the min/max box of a, a + n, b, b + n with n the half normal of b - a; the ids are copied |
| Fragments.BoundaryCoversChord | qurvy/src/int/bool/geom/fragment.rs:31-39 | that box covers the whole box of the chord a-b |
| Fragments.BoundaryDetermined | qurvy/src/int/bool/geom/fragment.rs:31-39 | the box depends only on a and b |
| EditorState.PointOf | editor/src/bezier_editor/state.rs:321-327 | the anchor point, or the absolute handle position; an absent handle reads as the anchor point |
| EditorState.UpdatePoint | editor/src/bezier_editor/state.rs:329-335 | writes one field (the point, or the handle, now present) and the part then reads back the written position |
| EditorState.UpdateThenRead | editor/src/bezier_editor/state.rs:321-335 | reading a part after writing it gives the written position, for every part |
| EditorState.ReadThenUpdate | editor/src/bezier_editor/state.rs:321-335 | writing back what a part reads leaves the anchor unchanged exactly when that part is not an absent handle |
| EditorState.MovePointCarriesHandles | editor/src/bezier_editor/state.rs:331 | moving the point keeps the handle offsets, so the handles move with it |
| EditorState.MoveHandleKeepsRest | editor/src/bezier_editor/state.rs:332-333 | moving a handle leaves the point and the other handle unchanged |
| EditorState.UpdateTwice | editor/src/bezier_editor/state.rs:329-335 | the last write to a part wins |

## Left out

- Floating-point code is not modelled: the float twins of every module, the grid's float conversions and scale factors, and the `to_float` impls.
- `IntSpline::avg_length` is not part of this model. The length module it calls is not among the source files.
- `IntSpline::approximate_points` dispatches to the variant's solver. Dispatch over the variant is the `IntSpline` match, so `Approximations.ApproximatePoints` takes any `IntSpline`.
- Lines.SplitOneDimensionAt: `wrapping_sub`, `wrapping_add` and the `as i64` truncation of `split_one_dimension_at` are not modelled. Coordinates are unbounded integers, so the model is the non-overflowing case.
- Points.IntPoint.Add: i64 overflow of `+` is not modelled; the coordinates are unbounded integers.
- Points.IntPoint.Sub: i64 overflow of `-` is not modelled; the coordinates are unbounded integers.
- Points.IntPoint.DotProduct: the i64 products and sum are unbounded integers, so overflow is not modelled.
- Points.IntPoint.CrossProduct: the i64 products and difference are unbounded integers, so overflow is not modelled.
- Points.IntPoint.AddOffset: i64 overflow of `+` is not modelled; the coordinates are unbounded integers.
- Points.IntPoint.SubOffset: i64 overflow of `-` is not modelled; the coordinates are unbounded integers.
- Fragments.HalfNormal: `-self.y` overflows for y = i64::MIN (a panic in debug builds, -2^62 after the wrap in release builds); the model negates the unbounded integer and gives 2^62.
- SplineIter.IntSplinePointsIterator.constructor: `1 << split_factor` on `usize` panics in debug builds for split_factor >= 64; the model takes 2^split_factor for every split factor.
- Approximations.Children: `short.step << 1` and `(short.step + 1) << 1` on `usize` wrap once the step reaches 2^63, which takes a split factor of 63 or more; the model doubles the unbounded step.
- ShapeCounts: the `i32` counters are unbounded, so overflow of `+=` is not modelled.
- Approximations.Solver.Process: the source loop has no bound. The model takes a budget of splits and returns OutOfFuel when it runs out. The budget also keeps the arena below EMPTY_REF.
- Approximations.Solver.Process: it does not prove that splitting stops by itself.
- The unit-test segment counts for the test quad are not proved. With minimum cosines 800 and 900 they are 6, 5 and 8 (approximation.rs:203-239). They would need the whole solver run evaluated on literal data.
- Approximations.Approximate: the debug assertion `min_cos <= 1024` is a precondition. `SolverApproximate` takes min_cos up to 2^32.
- Approximations.SolverApproximate: the debug assertion `power < 30` in `is_small` is taken into account only as the precondition min_len < 2^30 of `SolverApproximate`, `Approximate` and `ApproximatePoints`. `IsSmall` and `IsSmallAsWritten` take any power.
- Approximations.Solver.Split: the solver uses the corrected `is_small`, so the panic of `ilog2(0)` on a half with a zero coordinate is not modelled in `Split` or `Process`. There the model goes on splitting where the code panics; `IsSmallAsWritten` and the Findings row record the code's behaviour.
- Approximations.SolverApproximate: OutOfFuel is an outcome of the budget, which the source does not have. It is decided before a round, when the round would select more chords than there are splits left (`Step`).
- Points.IntPoint.Normalized10Bit: the `as i64` cast of the root is modelled, so the model follows the code for every i64 input. The lemmas about the magnitude bound hold only below x^2 + y^2 = 2^126. From there on the wrapped root reverses the direction and the output can exceed 1024 (`NormalizedWrapExamples`). The `Zero()` case of a zero shortened divisor needs x^2 + y^2 >= 2^128, which no i64 pair reaches.
- Points.NormalizedBounds: stated for x^2 + y^2 < 2^126, which covers the randomised test's coordinates up to 10^12, and not for every nonzero i64 vector, because the code breaks the bound past the wrap.
- `segments.get(index)` is not in the list source file. It is modelled as reading `nodes[index]` for an index inside the arena.
- `IntBezierPath::points` calls `spline.fill`, which is not in the source files. It is modelled as appending the edge's `regular_points`.
- Approximations.ChildrenOnSpline: the chord predicate records the dyadic parameters of a chord's ends but not that its step is even. Evenness follows from how steps are made (0, then 2s and 2s + 2).
- Approximations.Solver.Split: the queue is a sequence value that Split returns rather than a `&mut Vec` it pushes onto.
- The `&mut` updates of Copy values (IntRect::add_point, ShapeCountBoolean::apply, AnchorPart::update_point) are methods that return the new value. Aliasing of the reference is not modelled.
- The editor's GUI, mesh building and mouse handling are not modelled. Nor is anything in `state.rs` outside `AnchorPart`.

## Findings

| source | as written | input that shows it | evidently intended | confidence | as-written member | corrected member |
|---|---|---|---|---|---|---|
| qurvy/src/int/bezier/approximation.rs:169-170 | `is_small` takes `unsigned_abs().ilog2()` of each coordinate, and `ilog2(0)` panics, so any vector with a zero coordinate panics. `split` calls it on both halves after every split (lines 155, 159). | The quad (0,0),(0,100),(100,-100),(100,0): start_dir (0,1024) is perpendicular to the chord direction (1024,0), so the first round splits the chord. Its midpoint is (50,0), and both halves are (50,0). | A zero coordinate is below every power of two. The vector is small exactly when its length is below 2^power. | not executed | Approximations.IsSmallAsWritten, Approximations.IsSmallPanicExample | Approximations.IsSmall |
