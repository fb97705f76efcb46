/**
 * The bounding-box filter, the per-pair test and the naive all-pairs scan of broad_phase.py.
 *
 * Python lists of shapes hold references to the objects of the `SHAPES` registry, so a list of
 * shapes is modelled as a sequence of registry indices (ids) and the registry as a `seq<Shape>`
 * whose entry `i` carries id `i` (Shapes.WellIndexed). The broad phase never changes a
 * shape's geometry; the flags and neighbour lists it writes are threaded through as a
 * sequence of Flags indexed like the registry.
 */
module BroadPhase {
  import opened Geometry
  import opened Shapes
  import opened NarrowPhase

  /** A tested pair of registry ids, in the order they are passed to intersecting_shapes. */
  type Pair = (nat, nat)

  predicate NoDuplicates<T(==)>(s: seq<T>) {
    forall i, j :: 0 <= i < j < |s| ==> s[i] != s[j]
  }

  /** overlapping_bboxes: the four interval comparisons of the integer bounds. */
  predicate Overlapping(s1: Shape, s2: Shape) {
    && s1.minX <= s2.maxX
    && s2.minX <= s1.maxX
    && s1.minY <= s2.maxY
    && s2.minY <= s1.maxY
  }

  lemma OverlappingSymmetric(s1: Shape, s2: Shape)
    ensures Overlapping(s1, s2) <==> Overlapping(s2, s1)
  {
  }

  /** The integer point (x, y) lies in the closed bounding box of `s`. */
  predicate InBox(s: Shape, x: int, y: int) {
    s.minX <= x <= s.maxX && s.minY <= y <= s.maxY
  }

  /** For boxes with ordered bounds, the four comparisons say exactly that the boxes share a point. */
  lemma OverlappingIffCommonPoint(s1: Shape, s2: Shape)
    requires s1.minX <= s1.maxX && s1.minY <= s1.maxY
    requires s2.minX <= s2.maxX && s2.minY <= s2.maxY
    ensures Overlapping(s1, s2) <==> exists x: int, y: int :: InBox(s1, x, y) && InBox(s2, x, y)
  {
    if Overlapping(s1, s2) {
      var x := if s1.minX <= s2.minX then s2.minX else s1.minX;
      var y := if s1.minY <= s2.minY then s2.minY else s1.minY;
      assert InBox(s1, x, y) && InBox(s2, x, y);
    }
  }

  /**
   * What intersecting_shapes needs to return at all: both shapes have vertices, and when the
   * boxes overlap the centroids differ (gjk_intersection normalises their difference, which
   * raises for the zero vector).
   */
  predicate Safe(s1: Shape, s2: Shape) {
    HasVertices(s1) && HasVertices(s2) && (Overlapping(s1, s2) ==> s1.centroid != s2.centroid)
  }

  /** intersecting_shapes: GJK is consulted only when the bounding boxes overlap. */
  function IntersectingShapes(s1: Shape, s2: Shape): (r: bool)
    requires Safe(s1, s2)
    ensures r ==> Overlapping(s1, s2)
    ensures Overlapping(s1, s2) ==> r == GjkIntersection(s1, s2)
  {
    if Overlapping(s1, s2) then GjkIntersection(s1, s2) else false
  }

  /**
   * Two shapes with up-to-date bounds that share a vertex are always reported as intersecting:
   * the shared vertex puts a common point in both boxes, and GJK never misses a shared vertex.
   */
  lemma SharedVertexIntersects(s1: Shape, s2: Shape, v: Vec)
    requires HasVertices(s1) && HasVertices(s2)
    requires s1 == CalculateBounds(s1) && s2 == CalculateBounds(s2)
    requires v in s1.vertices && v in s2.vertices
    requires s1.centroid != s2.centroid
    ensures IntersectingShapes(s1, s2)
  {
    assert InBox(s1, Trunc(v.x), Trunc(v.y)) && InBox(s2, Trunc(v.x), Trunc(v.y));
    OverlappingIffCommonPoint(s1, s2);
    GjkSharedVertexIsHit(s1, s2, Sub(s2.centroid, s1.centroid), v);
  }

  /** Registry entries `a` and `b` exist and may be passed to intersecting_shapes. */
  predicate Testable(reg: seq<Shape>, a: nat, b: nat) {
    a < |reg| && b < |reg| && Safe(reg[a], reg[b])
  }

  /**
   * The pairs of registry entries that intersecting_shapes accepts, among those it may be
   * asked about. Intersecting_shapes is pure, so a scan's verdicts are membership tests in
   * this set; the bookkeeping below is stated for any set of accepted pairs.
   */
  function Accepted(reg: seq<Shape>): set<Pair> {
    set a: nat, b: nat | a < |reg| && b < |reg| && Safe(reg[a], reg[b]) && IntersectingShapes(reg[a], reg[b]) :: (a, b)
  }

  /** For a pair it may be asked about, the set holds exactly intersecting_shapes' verdict. */
  lemma AcceptedIff(reg: seq<Shape>, a: nat, b: nat)
    requires Testable(reg, a, b)
    ensures (a, b) in Accepted(reg) <==> IntersectingShapes(reg[a], reg[b])
  {
  }

  /**
   * handle_intersections((SHAPES[a], SHAPES[b])): both shapes are flagged as intersecting and
   * each gets the other's id appended to its neighbours, first `a`, then `b`; a shape paired
   * with itself gets its own id twice. Nothing else changes.
   */
  function HandleIntersections(reg: seq<Shape>, fl: seq<Flags>, a: nat, b: nat): (r: seq<Flags>)
    requires |fl| == |reg| && a < |reg| && b < |reg|
    ensures |r| == |fl|
    ensures forall k :: 0 <= k < |fl| && k != a && k != b ==> r[k] == fl[k]
    ensures a != b ==>
      && r[a] == Flags(true, fl[a].xOverlapping, fl[a].neighbours + [reg[b].id])
      && r[b] == Flags(true, fl[b].xOverlapping, fl[b].neighbours + [reg[a].id])
    ensures a == b ==>
      r[a] == Flags(true, fl[a].xOverlapping, fl[a].neighbours + [reg[a].id, reg[a].id])
  {
    var first := fl[a := fl[a].(intersecting := true, neighbours := fl[a].neighbours + [reg[b].id])];
    first[b := first[b].(intersecting := true, neighbours := first[b].neighbours + [reg[a].id])]
  }

  /** Some pair of `hits` contains id `k`. */
  predicate Involves(hits: seq<Pair>, k: nat) {
    if |hits| == 0 then false
    else
      var last := hits[|hits| - 1];
      Involves(hits[..|hits| - 1], k) || last.0 == k || last.1 == k
  }

  lemma {:induction false} InvolvesIff(hits: seq<Pair>, k: nat)
    ensures Involves(hits, k) <==> exists i :: 0 <= i < |hits| && (hits[i].0 == k || hits[i].1 == k)
  {
    if |hits| > 0 {
      var init := hits[..|hits| - 1];
      InvolvesIff(init, k);
      assert forall i :: 0 <= i < |init| ==> init[i] == hits[i];
    }
  }

  /**
   * The ids handle_intersections appends to shape `k` over the pairs `hits`, in order: for a
   * pair (a, b) the partner's id, and for (k, k) its own id twice.
   */
  function NeighboursFrom(hits: seq<Pair>, k: nat): seq<nat>
  {
    if |hits| == 0 then []
    else
      var last := hits[|hits| - 1];
      NeighboursFrom(hits[..|hits| - 1], k)
        + (if last.0 == k then [last.1] else [])
        + (if last.1 == k then [last.0] else [])
  }

  /** Every id appended to `k` comes from a hit involving `k`, paired with it. */
  lemma {:induction false} NeighboursFromPartners(hits: seq<Pair>, k: nat)
    ensures forall m :: m in NeighboursFrom(hits, k) ==> (k, m) in hits || (m, k) in hits
    ensures |NeighboursFrom(hits, k)| == 0 <==> !Involves(hits, k)
  {
    if |hits| > 0 {
      var init := hits[..|hits| - 1];
      NeighboursFromPartners(init, k);
      forall m | m in NeighboursFrom(init, k)
        ensures (k, m) in hits || (m, k) in hits
      {
        assert (k, m) in init || (m, k) in init;
      }
    }
  }

  /**
   * Entry `k` of `fl` is entry `k` of `fl0` after marking the ids of `marked` as x-overlapping
   * and applying handle_intersections to the pairs of `hits` in order.
   */
  predicate ReflectsAt(fl0: seq<Flags>, fl: seq<Flags>, marked: set<nat>, hits: seq<Pair>, k: nat)
    requires k < |fl0| && k < |fl|
  {
    fl[k] == Flags(
      fl0[k].intersecting || Involves(hits, k),
      fl0[k].xOverlapping || k in marked,
      fl0[k].neighbours + NeighboursFrom(hits, k))
  }

  /** `fl` is `fl0` after marking `marked` and handling `hits`; nothing else differs. */
  predicate Reflects(fl0: seq<Flags>, fl: seq<Flags>, marked: set<nat>, hits: seq<Pair>) {
    && |fl| == |fl0|
    && forall k :: 0 <= k < |fl| ==> ReflectsAt(fl0, fl, marked, hits, k)
  }

  lemma ReflectsStart(fl: seq<Flags>)
    ensures Reflects(fl, fl, {}, [])
  {
    forall k | 0 <= k < |fl|
      ensures ReflectsAt(fl, fl, {}, [], k)
    {
    }
  }

  /** Applying handle_intersections to one more pair extends the reflected hits by that pair. */
  lemma ReflectsHandle(reg: seq<Shape>, fl0: seq<Flags>, fl: seq<Flags>, marked: set<nat>, hits: seq<Pair>, a: nat, b: nat)
    requires WellIndexed(reg) && |fl0| == |reg|
    requires Reflects(fl0, fl, marked, hits)
    requires a < |reg| && b < |reg|
    ensures Reflects(fl0, HandleIntersections(reg, fl, a, b), marked, hits + [(a, b)])
  {
    var hits' := hits + [(a, b)];
    assert hits'[..|hits'| - 1] == hits;
    var r := HandleIntersections(reg, fl, a, b);
    forall k | 0 <= k < |r|
      ensures ReflectsAt(fl0, r, marked, hits', k)
    {
      assert ReflectsAt(fl0, fl, marked, hits, k);
      assert reg[a].id == a && reg[b].id == b;
      if k == a || k == b {
        assert Involves(hits', k);
      }
    }
  }

  /** Marking one more id as x-overlapping extends the reflected set by that id. */
  lemma ReflectsMark(fl0: seq<Flags>, fl: seq<Flags>, marked: set<nat>, hits: seq<Pair>, k: nat)
    requires Reflects(fl0, fl, marked, hits)
    requires k < |fl|
    ensures Reflects(fl0, fl[k := fl[k].(xOverlapping := true)], marked + {k}, hits)
  {
    var r := fl[k := fl[k].(xOverlapping := true)];
    forall j | 0 <= j < |r|
      ensures ReflectsAt(fl0, r, marked + {k}, hits, j)
    {
      assert ReflectsAt(fl0, fl, marked, hits, j);
    }
  }

  /** The pairs of `ps` that are accepted, in order: the tests of `ps` that succeed. */
  function HitsOf(accepted: set<Pair>, ps: seq<Pair>): (hits: seq<Pair>)
    ensures |hits| <= |ps|
  {
    if |ps| == 0 then []
    else
      var last := ps[|ps| - 1];
      HitsOf(accepted, ps[..|ps| - 1]) + (if last in accepted then [last] else [])
  }

  /** The hits are exactly the tested pairs that are accepted. */
  lemma {:induction false} HitsOfMembers(accepted: set<Pair>, ps: seq<Pair>)
    ensures forall p :: p in HitsOf(accepted, ps) <==> p in ps && p in accepted
  {
    if |ps| > 0 {
      var init := ps[..|ps| - 1];
      HitsOfMembers(accepted, init);
      assert ps == init + [ps[|ps| - 1]];
    }
  }

  lemma HitsOfSnoc(accepted: set<Pair>, ps: seq<Pair>, p: Pair)
    ensures HitsOf(accepted, ps + [p]) == HitsOf(accepted, ps) + (if p in accepted then [p] else [])
  {
    assert (ps + [p])[..|ps|] == ps;
  }

  /** One pair test: intersecting_shapes (a member of `accepted`), then handle_intersections if it succeeds. */
  function TestAndHandle(reg: seq<Shape>, fl: seq<Flags>, accepted: set<Pair>, a: nat, b: nat): (r: seq<Flags>)
    requires |fl| == |reg| && a < |reg| && b < |reg|
    ensures |r| == |fl|
  {
    if (a, b) in accepted then HandleIntersections(reg, fl, a, b) else fl
  }

  /**
   * Testing one more pair on flags that reflect the hits among the pairs tested so far gives
   * flags that reflect the hits among those pairs and the new one.
   */
  lemma ReflectsTest(reg: seq<Shape>, fl0: seq<Flags>, fl: seq<Flags>, marked: set<nat>, accepted: set<Pair>, ps: seq<Pair>, a: nat, b: nat)
    requires WellIndexed(reg) && |fl0| == |reg| && a < |reg| && b < |reg|
    requires Reflects(fl0, fl, marked, HitsOf(accepted, ps))
    ensures Reflects(fl0, TestAndHandle(reg, fl, accepted, a, b), marked, HitsOf(accepted, ps + [(a, b)]))
  {
    var hits := HitsOf(accepted, ps);
    HitsOfSnoc(accepted, ps, (a, b));
    if (a, b) in accepted {
      ReflectsHandle(reg, fl0, fl, marked, hits, a, b);
    } else {
      assert HitsOf(accepted, ps + [(a, b)]) == hits;
    }
  }

  /** The pairs the inner loop of naive_intersection_check forms for shape `a`: (a, j) for lo <= j < hi. */
  function RowPairs(a: nat, lo: nat, hi: nat): (ps: seq<Pair>)
    ensures forall p: Pair :: p in ps <==> p.0 == a && lo <= p.1 < hi
    decreases hi
  {
    if hi <= lo then [] else RowPairs(a, lo, hi - 1) + [(a, hi - 1)]
  }

  /** A row tests each partner once. */
  lemma {:induction false} RowPairsOnce(a: nat, lo: nat, hi: nat)
    ensures NoDuplicates(RowPairs(a, lo, hi))
    decreases hi
  {
    if lo < hi {
      RowPairsOnce(a, lo, hi - 1);
      NoDuplicatesAppend(RowPairs(a, lo, hi - 1), [(a, hi - 1)]);
    }
  }

  /**
   * The pairs naive_intersection_check tests, in order: `shapes[i]` against every registry
   * entry after index i (`SHAPES[i+1:]`, empty once i + 1 reaches the registry size).
   */
  function NaivePairs(shapes: seq<nat>, n: nat): seq<Pair>
  {
    if |shapes| == 0 then []
    else NaivePairs(shapes[..|shapes| - 1], n) + RowPairs(shapes[|shapes| - 1], |shapes|, n)
  }

  lemma {:induction false} NaivePairsMembers(shapes: seq<nat>, n: nat)
    ensures forall p: Pair :: p in NaivePairs(shapes, n) <==>
      exists i :: 0 <= i < |shapes| && p.0 == shapes[i] && i < p.1 < n
  {
    if |shapes| > 0 {
      var init := shapes[..|shapes| - 1];
      NaivePairsMembers(init, n);
      forall p | p in NaivePairs(shapes, n)
        ensures exists i :: 0 <= i < |shapes| && p.0 == shapes[i] && i < p.1 < n
      {
        if p in NaivePairs(init, n) {
          var i :| 0 <= i < |init| && p.0 == init[i] && i < p.1 < n;
          assert shapes[i] == init[i];
        }
      }
      forall p: Pair | exists i :: 0 <= i < |shapes| && p.0 == shapes[i] && i < p.1 < n
        ensures p in NaivePairs(shapes, n)
      {
        var i :| 0 <= i < |shapes| && p.0 == shapes[i] && i < p.1 < n;
        if i < |init| {
          assert init[i] == shapes[i];
        }
      }
    }
  }

  function Range(n: nat): (r: seq<nat>)
    ensures |r| == n && forall i :: 0 <= i < n ==> r[i] == i
  {
    seq(n, i requires 0 <= i < n => i)
  }

  lemma NoDuplicatesAppend<T>(a: seq<T>, b: seq<T>)
    requires NoDuplicates(a) && NoDuplicates(b)
    requires forall x :: x in a ==> x !in b
    ensures NoDuplicates(a + b)
  {
    var c := a + b;
    forall i, j | 0 <= i < j < |c|
      ensures c[i] != c[j]
    {
      if i < |a| && j >= |a| {
        assert c[i] in a && c[j] == b[j - |a|];
      }
    }
  }

  /**
   * Scanning the first `m` registry shapes in registry order tests each pair (a, b) with a < m
   * and a < b < n exactly once.
   */
  lemma {:induction false} NaivePairsOfRange(m: nat, n: nat)
    ensures NoDuplicates(NaivePairs(Range(m), n))
    ensures forall p: Pair :: p in NaivePairs(Range(m), n) <==> p.0 < m && p.0 < p.1 < n
  {
    if m > 0 {
      assert Range(m)[..m - 1] == Range(m - 1);
      NaivePairsOfRange(m - 1, n);
      var row := RowPairs(m - 1, m, n);
      RowPairsOnce(m - 1, m, n);
      NoDuplicatesAppend(NaivePairs(Range(m - 1), n), row);
    }
  }

  /**
   * With the registry itself as input (main.py starts from SHAPES and the naive check returns
   * its input unchanged), every unordered pair of distinct shapes is tested exactly once, as
   * (lower id, higher id).
   */
  lemma NaiveTestsEachPairOnce(n: nat)
    ensures NoDuplicates(NaivePairs(Range(n), n))
    ensures forall p: Pair :: p in NaivePairs(Range(n), n) <==> p.0 < p.1 < n
  {
    NaivePairsOfRange(n, n);
  }

  /**
   * The inner loop of naive_intersection_check for shape `a`: it is tested against the
   * registry entries lo .. hi - 1 in order, and each accepted pair is handled at once.
   */
  function NaiveRow(reg: seq<Shape>, fl: seq<Flags>, accepted: set<Pair>, a: nat, lo: nat, hi: nat): (r: seq<Flags>)
    requires |fl| == |reg| && lo <= hi <= |reg| && (a < |reg| || lo == hi)
    ensures |r| == |fl|
    decreases hi
  {
    if hi == lo then fl else TestAndHandle(reg, NaiveRow(reg, fl, accepted, a, lo, hi - 1), accepted, a, hi - 1)
  }

  /**
   * Running the row on flags that reflect the hits among `log` gives flags that reflect the
   * hits among `log` followed by the row's pairs.
   */
  lemma {:induction false} NaiveRowReflects(reg: seq<Shape>, fl0: seq<Flags>, fl: seq<Flags>, accepted: set<Pair>, log: seq<Pair>, a: nat, lo: nat, hi: nat)
    requires WellIndexed(reg) && |fl0| == |reg| && lo <= hi <= |reg| && (a < |reg| || lo == hi)
    requires Reflects(fl0, fl, {}, HitsOf(accepted, log))
    ensures Reflects(fl0, NaiveRow(reg, fl, accepted, a, lo, hi), {}, HitsOf(accepted, log + RowPairs(a, lo, hi)))
    decreases hi
  {
    if hi == lo {
      assert log + RowPairs(a, lo, hi) == log;
    } else {
      NaiveRowReflects(reg, fl0, fl, accepted, log, a, lo, hi - 1);
      NaiveRowStep(reg, fl0, fl, accepted, log, a, lo, hi);
    }
  }

  /** The last test of a row extends the reflected hits by its pair. */
  lemma NaiveRowStep(reg: seq<Shape>, fl0: seq<Flags>, fl: seq<Flags>, accepted: set<Pair>, log: seq<Pair>, a: nat, lo: nat, hi: nat)
    requires WellIndexed(reg) && |fl0| == |reg| && |fl| == |reg| && lo < hi <= |reg| && a < |reg|
    requires Reflects(fl0, NaiveRow(reg, fl, accepted, a, lo, hi - 1), {}, HitsOf(accepted, log + RowPairs(a, lo, hi - 1)))
    ensures Reflects(fl0, NaiveRow(reg, fl, accepted, a, lo, hi), {}, HitsOf(accepted, log + RowPairs(a, lo, hi)))
  {
    RowPairsSnoc(log, a, lo, hi);
    ReflectsTestAs(reg, fl0, NaiveRow(reg, fl, accepted, a, lo, hi - 1), {}, accepted, log + RowPairs(a, lo, hi - 1), a, hi - 1,
      NaiveRow(reg, fl, accepted, a, lo, hi), log + RowPairs(a, lo, hi));
  }

  /** Appending the row's last pair to a log that ends with the shorter row. */
  lemma RowPairsSnoc(log: seq<Pair>, a: nat, lo: nat, hi: nat)
    requires lo < hi
    ensures log + RowPairs(a, lo, hi) == (log + RowPairs(a, lo, hi - 1)) + [(a, hi - 1)]
  {
    assert RowPairs(a, lo, hi) == RowPairs(a, lo, hi - 1) + [(a, hi - 1)];
  }

  /** ReflectsTest, for flags and a log that are given as equal to the tested ones. */
  lemma ReflectsTestAs(reg: seq<Shape>, fl0: seq<Flags>, fl: seq<Flags>, marked: set<nat>, accepted: set<Pair>, ps: seq<Pair>, a: nat, b: nat, fl': seq<Flags>, ps': seq<Pair>)
    requires WellIndexed(reg) && |fl0| == |reg| && |fl| == |reg| && a < |reg| && b < |reg|
    requires Reflects(fl0, fl, marked, HitsOf(accepted, ps))
    requires fl' == TestAndHandle(reg, fl, accepted, a, b) && ps' == ps + [(a, b)]
    ensures Reflects(fl0, fl', marked, HitsOf(accepted, ps'))
  {
    ReflectsTest(reg, fl0, fl, marked, accepted, ps, a, b);
  }

  /** `SHAPES[lo:]` past the end of the registry is empty, like the slice from its end. */
  lemma RowPastEnd(a: nat, lo: nat, n: nat)
    ensures RowPairs(a, lo, n) == RowPairs(a, if lo <= n then lo else n, n)
  {
  }

  /** The pairs of the first i + 1 rows: those of the first i, then row i. */
  lemma NaivePairsSnoc(shapes: seq<nat>, i: nat, n: nat)
    requires i < |shapes|
    ensures NaivePairs(shapes[..i + 1], n) == NaivePairs(shapes[..i], n) + RowPairs(shapes[i], i + 1, n)
  {
    assert shapes[..i + 1][..i] == shapes[..i];
  }

  /** One iteration of the outer loop of naive_intersection_check keeps its invariant. */
  lemma NaiveStep(reg: seq<Shape>, fl0: seq<Flags>, fl: seq<Flags>, accepted: set<Pair>, shapes: seq<nat>, i: nat, log: seq<Pair>, start: nat)
    requires WellIndexed(reg) && |fl0| == |reg| && i < |shapes|
    requires i + 1 < |reg| ==> shapes[i] < |reg|
    requires start == if i + 1 <= |reg| then i + 1 else |reg|
    requires log == NaivePairs(shapes[..i], |reg|) && Reflects(fl0, fl, {}, HitsOf(accepted, log))
    ensures shapes[i] < |reg| || start == |reg|
    ensures log + RowPairs(shapes[i], i + 1, |reg|) == NaivePairs(shapes[..i + 1], |reg|)
    ensures Reflects(fl0, NaiveRow(reg, fl, accepted, shapes[i], start, |reg|), {}, HitsOf(accepted, log + RowPairs(shapes[i], i + 1, |reg|)))
  {
    NaivePairsSnoc(shapes, i, |reg|);
    RowPastEnd(shapes[i], i + 1, |reg|);
    NaiveRowReflects(reg, fl0, fl, accepted, log, shapes[i], start, |reg|);
  }

  /** Every pair the naive scan forms is one the precondition allows it to test. */
  lemma NaivePairsTestable(reg: seq<Shape>, shapes: seq<nat>)
    requires forall i, j :: 0 <= i < |shapes| && i < j < |reg| ==> Testable(reg, shapes[i], j)
    ensures forall p: Pair :: p in NaivePairs(shapes, |reg|) ==> Testable(reg, p.0, p.1)
  {
    NaivePairsMembers(shapes, |reg|);
    forall p: Pair | p in NaivePairs(shapes, |reg|)
      ensures Testable(reg, p.0, p.1)
    {
      var i :| 0 <= i < |shapes| && p.0 == shapes[i] && i < p.1 < |reg|;
    }
  }

  /**
   * The nested loops of naive_intersection_check, for a given set of accepted pairs: `log`
   * records the pairs tested, in order, and the flags end up reflecting the logged pairs
   * that are accepted.
   */
  method NaiveScan(reg: seq<Shape>, fl: seq<Flags>, accepted: set<Pair>, shapes: seq<nat>)
    returns (fl': seq<Flags>, log: seq<Pair>)
    requires WellIndexed(reg) && |fl| == |reg|
    requires forall i :: 0 <= i < |shapes| && i + 1 < |reg| ==> shapes[i] < |reg|
    ensures log == NaivePairs(shapes, |reg|)
    ensures Reflects(fl, fl', {}, HitsOf(accepted, log))
  {
    fl' := fl;
    log := [];
    var i := 0;
    while i < |shapes|
      invariant 0 <= i <= |shapes|
      invariant log == NaivePairs(shapes[..i], |reg|)
      invariant Reflects(fl, fl', {}, HitsOf(accepted, log))
    {
      var start := if i + 1 <= |reg| then i + 1 else |reg|;
      NaiveStep(reg, fl, fl', accepted, shapes, i, log, start);
      fl' := NaiveRow(reg, fl', accepted, shapes[i], start, |reg|);
      log := log + RowPairs(shapes[i], i + 1, |reg|);
      i := i + 1;
    }
    assert shapes[..i] == shapes;
  }

  /**
   * naive_intersection_check(shapes), starting from the flags `fl`. Besides the new flags and
   * the returned list, `log` records the pairs passed to intersecting_shapes, in order; the
   * flags end up reflecting exactly the logged pairs it accepts.
   */
  method NaiveIntersectionCheck(reg: seq<Shape>, fl: seq<Flags>, shapes: seq<nat>)
    returns (fl': seq<Flags>, out: seq<nat>, log: seq<Pair>)
    requires WellIndexed(reg) && |fl| == |reg|
    requires forall i, j :: 0 <= i < |shapes| && i < j < |reg| ==> Testable(reg, shapes[i], j)
    ensures out == shapes
    ensures log == NaivePairs(shapes, |reg|)
    ensures forall p: Pair :: p in log ==> Testable(reg, p.0, p.1)
    ensures Reflects(fl, fl', {}, HitsOf(Accepted(reg), log))
  {
    forall i | 0 <= i < |shapes| && i + 1 < |reg|
      ensures shapes[i] < |reg|
    {
      assert Testable(reg, shapes[i], i + 1);
    }
    fl', log := NaiveScan(reg, fl, Accepted(reg), shapes);
    NaivePairsTestable(reg, shapes);
    out := shapes;
  }

  /** Some accepted pair of `log` joins `k` and `m`, in either order. */
  predicate HitWith(accepted: set<Pair>, log: seq<Pair>, k: nat, m: int) {
    exists i :: 0 <= i < |log| && log[i] in accepted &&
      ((log[i].0 == k && log[i].1 == m) || (log[i].1 == k && log[i].0 == m))
  }

  /**
   * Flags that reflect the accepted pairs of `log`, read entry by entry: shape `k` is flagged
   * intersecting exactly when it already was or an accepted logged pair contains it, it is
   * flagged x-overlapping exactly when it already was or is marked, and its neighbours grow by
   * partners of accepted logged pairs only.
   */
  lemma ReflectsOutcome(fl0: seq<Flags>, fl: seq<Flags>, marked: set<nat>, accepted: set<Pair>, log: seq<Pair>, k: nat)
    requires Reflects(fl0, fl, marked, HitsOf(accepted, log)) && k < |fl|
    ensures fl[k].intersecting <==>
      fl0[k].intersecting || exists i :: 0 <= i < |log| && log[i] in accepted && (log[i].0 == k || log[i].1 == k)
    ensures fl[k].xOverlapping <==> fl0[k].xOverlapping || k in marked
    ensures fl0[k].neighbours <= fl[k].neighbours
    ensures forall j :: |fl0[k].neighbours| <= j < |fl[k].neighbours| ==> HitWith(accepted, log, k, fl[k].neighbours[j])
  {
    var hits := HitsOf(accepted, log);
    assert ReflectsAt(fl0, fl, marked, hits, k);
    HitsOfMembers(accepted, log);
    InvolvesIff(hits, k);
    NeighboursFromPartners(hits, k);
    if Involves(hits, k) {
      var i :| 0 <= i < |hits| && (hits[i].0 == k || hits[i].1 == k);
      assert hits[i] in hits;
      var i' :| 0 <= i' < |log| && log[i'] == hits[i];
    }
    forall i | 0 <= i < |log| && log[i] in accepted && (log[i].0 == k || log[i].1 == k)
      ensures Involves(hits, k)
    {
      assert log[i] in log;
      var h :| 0 <= h < |hits| && hits[h] == log[i];
    }
    forall j | |fl0[k].neighbours| <= j < |fl[k].neighbours|
      ensures HitWith(accepted, log, k, fl[k].neighbours[j])
    {
      var m := fl[k].neighbours[j];
      assert m == NeighboursFrom(hits, k)[j - |fl0[k].neighbours|];
      assert m in NeighboursFrom(hits, k);
      var p: Pair := if (k, m) in hits then (k, m) else (m, k);
      assert p in hits;
      var i :| 0 <= i < |log| && log[i] == p;
    }
  }
}
