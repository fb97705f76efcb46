# Collision detection core of collision-response-2D, in Dafny

This project models the collision-detection pipeline of the `collision-response-2D` pygame
program and proves properties of the model. The pipeline runs once per frame over the four
convex polygons of the `SHAPES` registry:

- **Shapes** (`shape.py`, module `Shapes`): vertices, the centroid, the support function
  (`max` over vertices by dot product), the integer axis-aligned bounds and bounding box
  computed from it, `displace`, and the registry itself.
- **Narrow phase** (`narrow_phase.py`, module `NarrowPhase`; `gjk.py`, module `Gjk`): the 2-D
  triple product, the line and triangle simplex cases, `handle_simplex`, and the GJK loop of
  `gjk_intersection` / `gjk_collision`.
- **Broad phase** (`broad_phase.py`, modules `BroadPhase`, `SweepEvents`, `EventSort`,
  `SetOrder`, `Sweep`): the bounding-box filter, `intersecting_shapes`,
  `handle_intersections`, the naive all-pairs scan, and `sort_and_sweep`. The sweep is modelled
  in three steps: build the events, stable-sort them by x, then sweep an active set while
  keeping a set of tested pairs.

Modelling choices:

- Coordinates are `real`: pygame's float arithmetic is taken as exact.
- Python's `int()` in `calculate_bounds` is modelled as truncation toward zero (`Shapes.Trunc`).
- A Python list of shapes holds references to the registry's objects. It is modelled as a
  sequence of registry ids, and the registry as a `seq<Shape>` whose entry `i` has id `i`.
- The per-frame attributes the broad phase writes are `intersecting`, `x_overlapping` and
  `intersecting_neighbours`. They are kept in a separate `seq<Flags>` indexed like the
  registry.
- `intersecting_shapes` is pure, so a scan's verdicts are membership tests in
  `BroadPhase.Accepted(reg)`, the set of pairs it accepts. The scan bookkeeping is proved for
  any such set.
- Every broad-phase scan also returns `log`, the pairs it passed to `intersecting_shapes`, in
  order. The flags are then characterised by `BroadPhase.Reflects`: each entry is its initial
  value after marking the x-overlapping ids and applying `handle_intersections` to the accepted
  logged pairs, in order.

The triangle case is modelled as written. `triple_product_2d(a, b, c)` computes a × (b × c),
and `triangle_case` passes the same vector as second and third argument. Both edge
"perpendiculars" are therefore zero, so the triangle case always reports an intersection and
the GJK loop ends within two iterations. The model proves this behaviour. It does not claim
that GJK never reports a false intersection, and it exhibits one (see Findings).

Where the canonical sort-and-sweep differs from this code, the model follows the code. The
canonical form emits two events per shape up front and breaks ties with enter-before-exit.
This code instead:

- has an "already seen" branch that turns a repeated id into its max_x event;
- closes the still-unpaired ids afterwards;
- sorts stably by x alone.

`SweepEvents.FeedbackPairsEveryShape` shows why the branch is harmless here. The returned list
is fed back on the next frame, and on that round every id is paired within the first loop.

## Model

| member | source | states |
|---|---|---|
| Shapes.SupportIndex | shape.py:36-38 | the index `max(vertices, key=dot d)` selects: no vertex has a larger dot product, and every earlier vertex a strictly smaller one (first maximum wins ties) |
| Shapes.SupportIndexUnique | shape.py:36-38 | being the first maximal index is equivalent to being the index `max` picks, so the tie rule determines the vertex |
| Shapes.Support | shape.py:36-38 | `support(d)` is one of the vertices and its dot product with `d` is at least that of every vertex |
| Shapes.SupportScale | shape.py:36-38 | scaling the direction by any positive factor selects the same vertex, so normalising a direction changes no support point |
| Shapes.SupportTranslate | shape.py:32-38 | after every vertex moves by `t`, the support point in any direction is the old one moved by `t` |
| Shapes.Trunc | shape.py:41-44 | `int()` on a float truncates toward zero: within one unit of the input, on the side of zero |
| Shapes.CalculateBounds | shape.py:40-50 | every vertex's truncated coordinates lie within the bounds, each bound is attained by some vertex, min ≤ max on both axes, the box is the four corners (min_x,max_y), (min_x,min_y), (max_x,min_y), (max_x,max_y) in that order, and nothing else changes |
| Shapes.WholeCoordinatesGiveExactBounds | shape.py:40-44 | with whole-number coordinates the bounds enclose every vertex exactly |
| Shapes.NewShape | shape.py:16-27 | the constructor fails exactly on an empty vertex list (division by zero); otherwise the centroid is the mean of the vertices, the bounds are those calculate_bounds gives, and the id is kept |
| Shapes.Displace | shape.py:32-34 | every vertex and the centroid move by the same vector, the vertex count is kept, the centroid stays the mean of the vertices, the bounds are untouched |
| Shapes.DisplaceRoundTrip | shape.py:32-34 | displacing by `t` and then by `−t` restores the shape |
| Shapes.DisplaceMovesSupport | shape.py:32-38 | a displacement moves every support point by the displacement |
| Shapes.Register | shape.py:131-140 | a registry entry built from a literal vertex list keeps its id and vertices and satisfies the shape invariant |
| Shapes.Registry | shape.py:135-140 | `SHAPES` has four entries, entry `i` has id `i`, and each keeps the shape invariant |
| NarrowPhase.TripleProduct | narrow_phase.py:5-18 | the result is orthogonal to the first argument, and it is the zero vector whenever the last two arguments are equal |
| NarrowPhase.TripleProductIsNestedCross | narrow_phase.py:5-18 | the planar formula is the 3-D vector triple product a × (b × c) |
| NarrowPhase.LeftNestingIsReversedTripleProduct | narrow_phase.py:5-18 | (a × b) × c is the planar formula with its arguments reversed |
| NarrowPhase.LineCase | narrow_phase.py:21-37 | reports no intersection, keeps the simplex, and returns a direction d with d·AB = 0 and d·AO = k² ≥ 0 for k = AO × AB |
| NarrowPhase.TriangleStep | narrow_phase.py:58-67 | the branches of triangle_case for any edge directions: an intersection exactly when the origin is ahead of neither, otherwise one point (index 0 or 1) is dropped, leaving two points with A still last, and the returned direction points at the origin |
| NarrowPhase.TriangleCase | narrow_phase.py:40-67 | as written, triangle_case always returns (True, None) and deletes nothing from the simplex |
| NarrowPhase.IntendedTriangleCase | narrow_phase.py:40-67 | with the textbook perpendiculars the case reports an intersection exactly when the origin is outside neither edge AB nor edge AC, and drops the vertex opposite the edge the origin lies beyond |
| NarrowPhase.TriangleCaseIgnoresOutsideEdge | narrow_phase.py:57-67 | whenever the origin is outside edge AC, the written triangle case stops with an intersection while the intended one keeps searching |
| NarrowPhase.HandleSimplex | narrow_phase.py:70-84 | two points give the line case (not done, direction perpendicular to the edge and toward the origin); three points give the triangle case (done, no direction); the simplex is unchanged |
| NarrowPhase.MinkowskiSupport | narrow_phase.py:99-102 | `shape1.support(d) − shape2.support(−d)` is a difference of vertices of the two shapes and maximises the dot product with d over all such differences |
| NarrowPhase.Iterate | narrow_phase.py:101-108 | the loop returns within two iterations; from a two-point simplex the verdict is `A·dir ≥ 0`, and from one point it is the outcome of the two support probes |
| NarrowPhase.GjkFrom | narrow_phase.py:99-108 | started from a direction, the verdict is true exactly when neither the first search point nor the one found along the line case's perpendicular falls behind the origin |
| NarrowPhase.GjkLoopStops | narrow_phase.py:101-108 | any number of iterations from two on gives the same verdict: the `while True` loop always ends |
| NarrowPhase.GjkScaleInvariant | narrow_phase.py:98 | scaling the initial direction by a positive factor, as `normalize` does, does not change the verdict |
| NarrowPhase.GjkIntersection | narrow_phase.py:87-108 | for shapes with distinct centroids, gjk_intersection is true exactly when both support probes from the centroid direction stay on the origin's side |
| NarrowPhase.GjkMissIsSeparated | narrow_phase.py:101-105 | a "no intersection" verdict always comes with a direction along which every vertex difference lies strictly behind the origin |
| NarrowPhase.GjkSharedVertexIsHit | narrow_phase.py:87-108 | shapes sharing a vertex are always reported as intersecting |
| NarrowPhase.GjkFalsePositive | narrow_phase.py:87-108 | two disjoint triangles, strictly separated along (−10, 5), are reported as intersecting |
| Gjk.GjkCollision | gjk.py:87-110 | the imperative loop of gjk_collision returns the same verdict as gjk_intersection on every input and runs one or two iterations |
| BroadPhase.OverlappingSymmetric | broad_phase.py:5-11 | overlapping_bboxes is symmetric in its two shapes |
| BroadPhase.OverlappingIffCommonPoint | broad_phase.py:5-11 | for boxes with ordered bounds, the four comparisons hold exactly when the two boxes share an integer point |
| BroadPhase.IntersectingShapes | broad_phase.py:14-17 | a true verdict implies overlapping boxes, and with overlapping boxes the verdict is GJK's |
| BroadPhase.SharedVertexIntersects | broad_phase.py:14-17 | two shapes with up-to-date bounds and a common vertex are always reported as intersecting |
| BroadPhase.AcceptedIff | broad_phase.py:14-17 | a pair intersecting_shapes may be asked about is in the accepted set exactly when intersecting_shapes returns True for it |
| BroadPhase.HandleIntersections | broad_phase.py:20-23 | both shapes are flagged intersecting and each gets the other's id appended to its neighbours; a shape paired with itself gets its own id twice; every other entry and field is unchanged |
| BroadPhase.ReflectsHandle | broad_phase.py:20-23 | handling one more pair extends the reflected hits by exactly that pair |
| BroadPhase.ReflectsOutcome | broad_phase.py:20-23 | after a scan, a shape is flagged intersecting exactly when it already was or an accepted tested pair contains it, x-overlapping exactly when it already was or was marked, and every id appended to its neighbours is its partner in an accepted tested pair |
| BroadPhase.HitsOfMembers | broad_phase.py:30-31 | the handled pairs are exactly the tested pairs that intersecting_shapes accepts |
| BroadPhase.NaivePairsMembers | broad_phase.py:26-31 | the naive scan tests (shapes[i], j) exactly for registry indices j > i |
| BroadPhase.NaiveTestsEachPairOnce | broad_phase.py:26-31 | on the registry in order, every unordered pair of distinct shapes is tested exactly once, as (lower id, higher id) |
| BroadPhase.NaiveScan | broad_phase.py:27-31 | the nested loops test the naive pairs in order and leave flags reflecting the accepted ones |
| BroadPhase.NaiveIntersectionCheck | broad_phase.py:26-32 | returns its input unchanged, tests exactly the naive pairs in order, and leaves each shape's flags reflecting the pairs intersecting_shapes accepted |
| SetOrder.Ascending | broad_phase.py:45-46 | iterating a set of small ints visits each element exactly once, in increasing order |
| SweepEvents.PairUpUnpaired | broad_phase.py:38-44 | after the first loop, `unpaired_shape_ids` holds exactly the ids occurring an odd number of times |
| SweepEvents.PairUpEvents | broad_phase.py:38-44 | entry i contributes its shape's min_x when its id occurred an even number of times before it, and its max_x otherwise |
| SweepEvents.Closing | broad_phase.py:45-46 | the closing loop visits exactly the still-unpaired ids, each once, in increasing order |
| SweepEvents.EventsCloseOddIds | broad_phase.py:45-46 | every event after the entries is a max_x event of an id that occurs an odd number of times |
| SweepEvents.EventsCarryBounds | broad_phase.py:38-46 | every event belongs to an id of the input and carries that shape's min_x or max_x according to its kind |
| SweepEvents.EventsBalanced | broad_phase.py:38-46 | after the closing loop every id has as many max_x events as min_x events |
| SweepEvents.EventsPairEachShape | broad_phase.py:38-46 | when every id occurs once or twice, each id of the input has exactly one min_x and one max_x event, and no other id has any |
| SweepEvents.EventsCount | broad_phase.py:38-46 | when every id occurs once or twice, the events number twice the distinct ids and hold each distinct id twice |
| SweepEvents.FeedbackPairsEveryShape | broad_phase.py:38-48 | fed back its own output, the event construction pairs every id within the first loop and the ids are the same |
| EventSort.Insert | broad_phase.py:47 | inserting into a list sorted by x keeps it sorted, adds exactly the new event, and puts it behind the events with its bound |
| EventSort.SortByX | broad_phase.py:47 | the sorted list is non-decreasing in x, a permutation of the input, and keeps every group of equal bounds in input order |
| EventSort.StableSortIsSortByX | broad_phase.py:47 | any list sorted by x that keeps every group of equal bounds in input order is SortByX's result: the stable sort is unique |
| EventSort.SortIds | broad_phase.py:47-48 | the returned id list is a permutation of the event ids |
| Sweep.ActiveAfterIsOddCount | broad_phase.py:51-54 | an id is active after a walk exactly when it occurred an odd number of times |
| Sweep.TestPair | broad_phase.py:61-65 | the pair joins tested_shape_pairs; it is logged, and handled if accepted, exactly when it was not tested before, so the flags keep reflecting the accepted logged pairs |
| Sweep.TestRow | broad_phase.py:60-65 | the inner loop records exactly the pairs of `id` with each later active id and keeps the invariant |
| Sweep.Rows | broad_phase.py:57-65 | the nested loops over `list(active_shape_ids)` mark the listed ids and record exactly their ordered pairs |
| Sweep.Visit | broad_phase.py:51-65 | one iteration toggles the id in the active set, records the pairs that become active together, and marks the ids active in company |
| Sweep.Run | broad_phase.py:49-65 | the sweep loop ends with the active set, the tested pairs and the marked ids given by the reference definitions ActiveAfter, Together and Crowded |
| Sweep.SweepOrder | broad_phase.py:36-48 | the list the sweep walks is the ids of a stable sort of the events by bound: ordered by x, with every group of equal bounds in event order (unique by EventSort.StableSortIsSortByX). It is therefore a permutation of the event ids and names registry entries only |
| Sweep.SortAndSweep | broad_phase.py:35-66 | returns the ids of the events stably sorted by bound, a permutation of the event ids; tests each pair that is ever active together exactly once, ordered, and no other pair; flags exactly the ids ever active in company as x-overlapping and handles exactly the accepted tested pairs |
| Sweep.TogetherIff | broad_phase.py:51-65 | a pair is tested exactly when both ids are active right after some join |
| Sweep.CrowdedIff | broad_phase.py:55-59 | an id is flagged x-overlapping exactly when it is active, with at least one other id, right after some join |
| Sweep.SweepEndsWithNoneActive | broad_phase.py:35-66 | for every input, the returned list holds every id an even number of times, so the active set is empty at the end of the pass |
| Sweep.SweepEndsEmpty | broad_phase.py:35-66 | when every id occurs once or twice, the returned list holds each input id exactly twice and no other id, and the active set ends empty |

## Left out

- main.py: the pygame frame loop, key handling, rendering and clock. Its only bearing on the
  core is that `sort_and_sweep`'s result is fed back as the next frame's input, which
  `SweepEvents.FeedbackPairsEveryShape` follows.
- ui.py: font rendering only.
- utils.py: collision response physics that uses floating-point `normalize`. Nothing in the
  core calls it.
- shape.py `move`, `spawn`, `wall_hit`, `floor_hit` and `draw`: wall-bounce physics, random
  spawning, printing and drawing. Colours, velocity and the cooldown counters are not modelled.
- The `colours` and `mechanics` modules are not part of this model.
- Floating-point rounding: coordinates are exact reals.
- NarrowPhase.GjkIntersection: `Vector2.normalize` is dropped. It only scales by a positive
  factor, which `NarrowPhase.GjkScaleInvariant` shows to be irrelevant. Its failure on the zero
  vector becomes the precondition that the centroids differ.
- NarrowPhase.Iterate: the `while True` loop carries a fuel bound. `NarrowPhase.GjkLoopStops`
  shows that any fuel from two on gives the same verdict, so the bound leaves nothing out.
- Sweep.SortAndSweep: set iteration order is taken to be increasing id order. That is CPython's
  order for small non-negative ints in a set whose table is larger than its largest element,
  as it is for the four-shape registry.
- Sweep.SortAndSweep and BroadPhase.NaiveIntersectionCheck: the flags are a separate
  sequence rather than fields of the shape objects. Their reset between frames (done by
  main.py) is not modelled; a scan starts from whatever flags it is given.
- Sweep.SortAndSweep and BroadPhase.NaiveIntersectionCheck: these require every pair they
  will test to be one intersecting_shapes can be asked about. Such a pair has two non-empty
  shapes, and distinct centroids when the boxes overlap; otherwise `normalize` raises in the
  program.
- gjk.py's helper functions are textually the same as narrow_phase.py's, so they are modelled
  once in `NarrowPhase`. Only the entry point `gjk_collision` is modelled separately.

## Findings

| source | as written | input that shows it | evidently intended | confidence | as-written member | corrected member |
|---|---|---|---|---|---|---|
| narrow_phase.py:57-62 (and gjk.py:57-62) | `triple_product_2d(AC, AB, AB)` and `triple_product_2d(AB, AC, AC)` compute AC × (AB × AB) and AB × (AC × AC), both the zero vector. The triangle case therefore always reports an intersection. | The triangles (0,0), (10,0), (5,10) and (−10,5), (0,5), (−5,15). They are strictly separated along (−10, 5), yet gjk_intersection returns True with final simplex [(0,−5), (15,5), (5,5)], whose origin lies outside edge AC. | The edge perpendiculars (AC × AB) × AB and (AB × AC) × AC. With them the case reports an intersection only when the origin is outside neither edge. | high; not executed | NarrowPhase.GjkFalsePositive | NarrowPhase.IntendedTriangleCase |

The broad phase keeps the triangle case as written, so its verdicts are the program's own.
`NarrowPhase.TriangleCaseIgnoresOutsideEdge` relates the two cases on every input where they
disagree.
