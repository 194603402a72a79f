# Grayscale gradient editor, modelled in Dafny

`script.js` draws a horizontal grayscale gradient with WebGL and overlays a
2D canvas on which the user edits the gradient's control points. A control
point is a pair `{x, gray}`, both normalised to the surface. The page starts
with six seed points. Clicking the overlay removes the first point drawn
within 10 pixels of the click. Otherwise it adds a point where the click
landed, unless the list already holds `MAX_POINTS = 10`. After every click
that gets that far, the list is sorted by `x`. `window.clearPoints()` empties
the list. On every redraw the points are packed into a float array of
`2 * MAX_POINTS` entries plus a count. The fragment shader turns that array
into a gray level per horizontal position:

- black without points;
- the single gray with one point;
- flat outside the first and last points;
- otherwise `mix(a, b, smoothstep(0, 1, t))` over the first segment that
  contains the position.

The model has three modules:

- `Points` (`points.dfy`): the `Point` value, sortedness, and the stable sort
  by `x`. `Array.prototype.sort` with comparator `a.x - b.x` is stable, so it
  is modelled as a stable insertion sort (`SortByX`, built on `InsertByX`).
  The module proves that this sort returns a sorted permutation and leaves
  sorted input unchanged. It also proves that, on a sorted list, sorting
  after an append equals inserting in place, and sorting after a removal
  changes nothing.
- `Shader` (`shader.dfy`): `mix` and `smoothstep` as defined in section 8.3
  (Common Functions) of the OpenGL ES Shading Language 1.00 specification;
  the packing of `pointsData`; and the fragment shader's gray computation
  over exact reals.
- `Editor` (`editor.dfy`): the hit test, the `findIndex` search, the seed,
  and the class `PointStore`. `PointStore` holds the list as a `seq` field,
  and its methods are the click handler, `clearPoints`, and the uniform
  packing done by `drawScene`.

The shader's search loop cannot divide by zero. The code never guards the
case `pA.x == pB.x` at `script.js:65`, and one might expect duplicate
positions to reach it. `SegmentSearch` shows they cannot, for any order of
points:

- The loop is entered only when the first point lies left of `x`.
- Every segment it passes over then lies wholly left of `x`.
- So the segment where it stops satisfies `pA.x < x <= pB.x`, and its width
  is positive.

For the same reason, the loop's fallback value 0.0 is never what the shader
paints. Strictly increasing positions are needed only for
`GrayAtControlPoint`. When several points of a sorted list share a position
strictly inside the range, the search stops at the segment that ends at the
first of them, with `t = 1`. So the gray there is the earliest point's gray,
as `GrayAtSharedPosition` shows for every such position. The later point wins only at the last
position, through the `>= last.x` test.

Two facts about the code shape the model:

- The list is kept sorted ascending, but not strictly. Two points can share
  an `x` when they are at least 10 pixels apart vertically.
- The capacity test is `length >= MAX_POINTS` (`script.js:197`). Under the
  store's invariant this is the same as `length == MAX_POINTS`.

The methods `SeedThenAddMidpoint`, `SeedRemoveNear` and `SeedMissNear` in
`Editor` are worked examples on the seed list and a 500 by 300 surface:

- A click at (250, 150) adds (0.5, 0.5), making 7 points. `MidpointLandsThird`
  places it between (0.4, 0.2) and (0.6, 1.0).
- A click 5.8 pixels from (0.4, 0.2) removes it.
- A click 11 pixels away, and farther from every other seed point, adds a
  point instead.

They state no contract of their own; they only exercise `Click`'s.

## Model

| member | source | states |
|---|---|---|
| Points.InsertByX | script.js:204 | inserting one point into a list lengthens it by exactly one |
| Points.InsertionPoint | script.js:204 | for any list, the insertion splits it at some `k`: the point goes at `k`, the points after `k` are exactly those with a larger `x`, and the point before `k` has `x <= p.x` |
| Points.InsertByXAt | script.js:204 | in a sorted list, the new point goes after every point with `x <= p.x`, i.e. after equal positions as a stable sort places it, and before every larger one; all other points keep their order |
| Points.InsertByXPermutes | script.js:204 | the insertion adds exactly the new point: as a multiset the result is the old list plus `p` |
| Points.InsertByXSorted | script.js:204 | inserting into a sorted list keeps it sorted |
| Points.SortByX | script.js:204 | the sort returns a list of the same length that is a permutation of its input and is sorted ascending by `x` |
| Points.SortedIsFixed | script.js:204 | sorting an already sorted list returns it unchanged, so the second sort in `drawScene` is a no-op |
| Points.SortAfterAppend | script.js:201-204 | appending a point to a sorted list and sorting gives the list with the point inserted after every point with `x <= p.x` |
| Points.SortAfterRemove | script.js:194-204 | removing one point from a sorted list keeps it sorted, and the following sort leaves the remaining points in their old order |
| Shader.Mix | script.js:66 | `mix` returns `a` at 0 and `b` at 1, and for a weight in [0, 1] a value between `a` and `b` |
| Shader.SmoothStep | script.js:66 | `smoothstep` lies in [0, 1]; it is 0 at or below the lower edge and 1 at or above the upper edge |
| Shader.Flatten | script.js:142-145 | point `i` occupies floats `2i` (its `x`) and `2i + 1` (its gray), and the array has two floats per point |
| Shader.Uniforms | script.js:141-145 | `pointsData` has `2 * MAX_POINTS` floats: point `i` at `2i` and `2i + 1`, and zeros after the last point |
| Shader.GrayFewPoints | script.js:46-52 | with no points the gray is 0 (black); with one point it is that point's gray at every position |
| Shader.GrayFlatLeft | script.js:54-55 | with two or more points, at or left of the first point the gray is the first point's gray |
| Shader.GrayFlatRight | script.js:56-57 | with two or more points, right of the first point and at or right of the last point, the gray is the last point's gray |
| Shader.SegmentSearch | script.js:59-70 | from a segment whose left end is left of `x`, the loop reaches the first later segment containing `x`; that segment has `pA.x < x <= pB.x`, so its width is positive |
| Shader.SegmentStop | script.js:60-67 | when segment `i` contains `x`, the loop stops there with the smoothed blend of its two grays |
| Shader.SegmentSkip | script.js:59-69 | when segment `i` lies wholly left of `x`, the loop moves on to segment `i + 1` |
| Shader.GrayInSegment | script.js:42-75 | strictly between the first and last points, the gray is `mix(pA.gray, pB.gray, smoothstep(0, 1, t))` with `t = (x - pA.x) / (pB.x - pA.x)` over the first segment with `pA.x <= x <= pB.x`; that segment has positive width, and the gray lies between `pA.gray` and `pB.gray` |
| Shader.GrayWithinRange | script.js:42-75 | the gray at every position lies within any bounds that hold all the points' grays |
| Shader.GrayAtControlPoint | script.js:42-75 | with strictly increasing positions, the gray at each point's `x` is that point's gray |
| Shader.GrayTwoPointMidpoint | script.js:42-75 | for points `(0, 0.2)` and `(1, 1.0)` the gray at 0.5 is 0.6 |
| Shader.GrayAtSharedPosition | script.js:59-66 | in a sorted list, at every interior point whose predecessor lies strictly left of it, the gray is that point's gray; so where several interior points share a position, the earliest one's gray is painted (the search stops at the segment ending there, with `t = 1`) |
| Shader.SegmentGray | script.js:59-70 | the shader's search loop from iteration `i` on; it has no contract of its own, and `SegmentSearch`, `SegmentStop` and `SegmentSkip` state what it computes |
| Shader.FragmentGray | script.js:42-75 | the fragment shader's `main` over the packed array and count; it has no contract of its own, and the `Gray*` lemmas state what it computes |
| Shader.Gray | script.js:42-75 | the gray painted at a position for a point list, packed as `drawScene` does; it has no contract of its own, and the `Gray*` lemmas state what it computes |
| Editor.Hits | script.js:187-191 | the hit test: squared pixel distance between the click and the point drawn at `(x * width, (1 - gray) * height)` below `10 * 10`; it has no contract of its own, and `DistanceBelowRadius` shows it decides the same as `Math.sqrt(...) < 10` |
| Editor.DistanceBelowRadius | script.js:190-191 | for a non-negative square root `r` of `d`, `r < 10` holds exactly when `d < 100`, so comparing squared distances decides the same hits as `Math.sqrt(...) < 10` |
| Editor.ClickedPoint | script.js:184-185 | the added point is `x = cx / width`, `gray = 1 - cy / height`; it maps back to the clicked pixel, so that click hits it |
| Editor.FindHit | script.js:187-192 | `findIndex` returns -1 exactly when no point is within 10 pixels; otherwise it returns the index of a point within reach, and no earlier point is within reach |
| Editor.SeedPoints | script.js:9-16 | the six seed points are strictly increasing in `x` from 0 to 1, within capacity |
| Editor.AddedPointIsHit | script.js:184-201 | after a point is added for a click, the same click hits a point in the new list, so clicking twice at one pixel never adds two points |
| Editor.MidpointLandsThird | script.js:201-204 | on the seed, the point (0.5, 0.5) is inserted between (0.4, 0.2) and (0.6, 1.0), and the rest keep their order |
| Editor.PointStore.constructor | script.js:9-16 | the store starts as the seed list, sorted and within capacity |
| Editor.PointStore.Clear | script.js:18-21 | `clearPoints` leaves the list empty |
| Editor.PointStore.Click | script.js:179-206 | the click keeps the list sorted and within capacity, with exactly one of three outcomes (below) |
| Editor.PointStore.PackUniforms | script.js:141-148 | the array and count handed to the shader are `Uniforms(points)` and the list's length |

`Editor.PointStore.Click` has three outcomes:

- It removes the first point within 10 pixels; the others keep their order.
- With no point in reach and 10 points already held, it leaves the list
  unchanged.
- Otherwise it adds `ClickedPoint`, in sorted position, lengthening the list
  by one.

## Left out

- WebGL setup is not modelled: shader compilation and linking, attribute and
  uniform lookups, buffer upload, viewport and clear, and the draw call
  (`script.js:78-132`, `136-139`, `147-149`). These are calls into the
  browser; `PackUniforms` models only the data they receive.
- The 2D canvas drawing of the polyline and markers (`script.js:152-176`) is
  not modelled. It is pure rendering; its pixel mapping
  `((x * width), (1 - gray) * height)` is the one the hit test uses.
- DOM wiring is left out: `DOMContentLoaded`, `getBoundingClientRect` and
  `addEventListener`. `Click` receives the click position already relative to
  the overlay's top-left corner, together with the surface's width and height.
  Both are taken to be positive, as a displayed canvas's are.
- `console.error` and `console.warn` logging is left out. The rejected add
  appears as the `Rejected` outcome instead.
- `mediump` shader precision, `Float32Array` storage and `Math.sqrt` are
  replaced by exact real arithmetic and a squared-distance comparison
  (justified by `DistanceBelowRadius`).
- `gl_FragCoord.xy / u_resolution.xy` is left out: `Gray` takes the
  normalised position directly. The gray's copy into `gl_FragColor` is left
  out too.
- Surface resizing is not modelled.
- The redraw after each click is not modelled. Its in-place sort at
  `script.js:155-156` is not a separate step, because `SortedIsFixed` shows
  it never changes a list the store holds. The rest of the redraw only
  reads the list.
