/**
 * The convex shape abstraction of shape.py: vertices, centroid, support function,
 * axis-aligned bounds and translation, plus the four-shape registry `SHAPES`.
 */
module Shapes {
  import opened Geometry

  /**
   * A polygon as the collision pipeline sees it: its id and its geometry. Colour, velocity
   * and the wall-bounce counters of the program are not part of the model, and the flags the
   * broad phase writes are kept apart in Flags.
   */
  datatype Shape = Shape(
    id: int,
    vertices: seq<Vec>,
    centroid: Vec,
    minX: int,
    minY: int,
    maxX: int,
    maxY: int,
    boundingBox: seq<Vec>)

  /**
   * The per-tick attributes of a shape that only the broad phase writes: `intersecting`,
   * `x_overlapping` and `intersecting_neighbours` (ids).
   */
  datatype Flags = Flags(intersecting: bool, xOverlapping: bool, neighbours: seq<int>)

  /** Component-wise sum of a list of vertices. */
  function Sum(vs: seq<Vec>): Vec
    decreases |vs|
  {
    if |vs| == 0 then Zero else Add(Sum(vs[..|vs| - 1]), vs[|vs| - 1])
  }

  /** `c` is the arithmetic mean of `vs`, stated without division. */
  predicate IsMean(c: Vec, vs: seq<Vec>) {
    Scale(|vs| as real, c) == Sum(vs)
  }

  /**
   * The index Python's `max(vertices, key=lambda v: v.dot(d))` selects: the candidate is
   * replaced only by a strictly larger key, so the first maximal vertex wins.
   */
  function SupportIndex(vs: seq<Vec>, d: Vec): (i: nat)
    requires |vs| > 0
    ensures i < |vs|
    ensures forall k :: 0 <= k < |vs| ==> Dot(vs[k], d) <= Dot(vs[i], d)
    ensures forall k :: 0 <= k < i ==> Dot(vs[k], d) < Dot(vs[i], d)
    decreases |vs|
  {
    if |vs| == 1 then 0
    else
      var j := SupportIndex(vs[..|vs| - 1], d);
      if Dot(vs[|vs| - 1], d) > Dot(vs[j], d) then |vs| - 1 else j
  }

  /** `i` is the first index of `vs` whose dot product with `d` is maximal. */
  predicate IsFirstMax(vs: seq<Vec>, d: Vec, i: nat) {
    && i < |vs|
    && (forall k :: 0 <= k < |vs| ==> Dot(vs[k], d) <= Dot(vs[i], d))
    && (forall k :: 0 <= k < i ==> Dot(vs[k], d) < Dot(vs[i], d))
  }

  /** The first-maximum characterisation determines the index, so it pins down `max`'s choice. */
  lemma SupportIndexUnique(vs: seq<Vec>, d: Vec, i: nat)
    requires |vs| > 0
    ensures IsFirstMax(vs, d, i) <==> i == SupportIndex(vs, d)
  {
  }

  /** shape.support: the vertex furthest in direction `d`. */
  function Support(vs: seq<Vec>, d: Vec): (v: Vec)
    requires |vs| > 0
    ensures v in vs
    ensures forall w :: w in vs ==> Dot(w, d) <= Dot(v, d)
  {
    vs[SupportIndex(vs, d)]
  }

  /** Comparing two vertices along `d` or along a positive multiple of `d` gives the same answer. */
  lemma DotScaleOrder(v: Vec, w: Vec, d: Vec, k: real)
    requires k > 0.0
    ensures Dot(v, Scale(k, d)) <= Dot(w, Scale(k, d)) <==> Dot(v, d) <= Dot(w, d)
    ensures Dot(v, Scale(k, d)) < Dot(w, Scale(k, d)) <==> Dot(v, d) < Dot(w, d)
  {
    DotScale(v, k, d);
    DotScale(w, k, d);
    ScaleKeepsOrder(k, Dot(v, d), Dot(w, d));
  }

  /** Scaling the direction by a positive factor selects the same vertex (so normalising is harmless). */
  lemma SupportScale(vs: seq<Vec>, d: Vec, k: real)
    requires |vs| > 0
    requires k > 0.0
    ensures SupportIndex(vs, Scale(k, d)) == SupportIndex(vs, d)
    ensures Support(vs, Scale(k, d)) == Support(vs, d)
  {
    var i := SupportIndex(vs, d);
    var kd := Scale(k, d);
    forall m | 0 <= m < |vs|
      ensures Dot(vs[m], kd) <= Dot(vs[i], kd)
      ensures m < i ==> Dot(vs[m], kd) < Dot(vs[i], kd)
    {
      DotScaleOrder(vs[m], vs[i], d, k);
    }
    SupportIndexUnique(vs, kd, i);
  }

  /** Translating every vertex by `t` translates the support point by `t`. */
  lemma SupportTranslate(vs: seq<Vec>, t: Vec, d: Vec)
    requires |vs| > 0
    ensures Support(Translate(vs, t), d) == Add(Support(vs, d), t)
  {
    var ws := Translate(vs, t);
    var i := SupportIndex(vs, d);
    forall m | 0 <= m < |ws|
      ensures Dot(ws[m], d) <= Dot(ws[i], d)
      ensures m < i ==> Dot(ws[m], d) < Dot(ws[i], d)
    {
      DotAdd(vs[m], t, d);
      DotAdd(vs[i], t, d);
    }
    SupportIndexUnique(ws, d, i);
  }

  /** Python's `int()` applied to a float: truncation toward zero. */
  function Trunc(r: real): (n: int)
    ensures 0.0 <= r ==> n as real <= r < n as real + 1.0
    ensures r < 0.0 ==> n as real - 1.0 < r <= n as real
  {
    if r >= 0.0 then r.Floor else -((-r).Floor)
  }

  lemma TruncMonotone(a: real, b: real)
    requires a <= b
    ensures Trunc(a) <= Trunc(b)
  {
  }

  /** On a real that is already a whole number, truncation is exact. */
  lemma TruncWhole(n: int)
    ensures Trunc(n as real) == n
  {
  }

  const Left: Vec := Vec(-1.0, 0.0)
  const Right: Vec := Vec(1.0, 0.0)
  const Down: Vec := Vec(0.0, -1.0)
  const Up: Vec := Vec(0.0, 1.0)

  /**
   * shape.calculate_bounds: each bound is the truncated coordinate of the support point along
   * one axis direction, and the box is listed as (min_x, max_y), (min_x, min_y), (max_x, min_y),
   * (max_x, max_y). Nothing but the bounds and the box changes.
   */
  function CalculateBounds(s: Shape): (r: Shape)
    requires |s.vertices| > 0
    ensures r == s.(minX := r.minX, minY := r.minY, maxX := r.maxX, maxY := r.maxY, boundingBox := r.boundingBox)
    ensures forall v :: v in s.vertices ==> r.minX <= Trunc(v.x) <= r.maxX && r.minY <= Trunc(v.y) <= r.maxY
    ensures exists v :: v in s.vertices && Trunc(v.x) == r.minX
    ensures exists v :: v in s.vertices && Trunc(v.x) == r.maxX
    ensures exists v :: v in s.vertices && Trunc(v.y) == r.minY
    ensures exists v :: v in s.vertices && Trunc(v.y) == r.maxY
    ensures r.minX <= r.maxX && r.minY <= r.maxY
    ensures |r.boundingBox| == 4
    ensures r.boundingBox[0].x == r.boundingBox[1].x == r.minX as real
    ensures r.boundingBox[2].x == r.boundingBox[3].x == r.maxX as real
    ensures r.boundingBox[1].y == r.boundingBox[2].y == r.minY as real
    ensures r.boundingBox[0].y == r.boundingBox[3].y == r.maxY as real
  {
    var vs := s.vertices;
    var lo := Support(vs, Left);
    var bottom := Support(vs, Down);
    var hi := Support(vs, Right);
    var top := Support(vs, Up);
    var minX := Trunc(lo.x);
    var minY := Trunc(bottom.y);
    var maxX := Trunc(hi.x);
    var maxY := Trunc(top.y);
    assert forall v :: v in vs ==> lo.x <= v.x <= hi.x && bottom.y <= v.y <= top.y by {
      forall v | v in vs
        ensures lo.x <= v.x <= hi.x && bottom.y <= v.y <= top.y
      {
        DotAxes(v);
        DotAxes(lo);
        DotAxes(hi);
        DotAxes(bottom);
        DotAxes(top);
        assert Dot(v, Left) <= Dot(lo, Left);
        assert Dot(v, Right) <= Dot(hi, Right);
        assert Dot(v, Down) <= Dot(bottom, Down);
        assert Dot(v, Up) <= Dot(top, Up);
      }
    }
    forall v | v in vs
      ensures minX <= Trunc(v.x) <= maxX && minY <= Trunc(v.y) <= maxY
    {
      TruncMonotone(lo.x, v.x);
      TruncMonotone(v.x, hi.x);
      TruncMonotone(bottom.y, v.y);
      TruncMonotone(v.y, top.y);
    }
    s.(minX := minX, minY := minY, maxX := maxX, maxY := maxY,
       boundingBox := [
         Vec(minX as real, maxY as real),
         Vec(minX as real, minY as real),
         Vec(maxX as real, minY as real),
         Vec(maxX as real, maxY as real)])
  }

  /** With whole-number vertex coordinates the bounds are exactly the extreme coordinates. */
  lemma WholeCoordinatesGiveExactBounds(s: Shape)
    requires |s.vertices| > 0
    requires forall v :: v in s.vertices ==> v.x == v.x.Floor as real && v.y == v.y.Floor as real
    ensures var r := CalculateBounds(s);
      forall v :: v in s.vertices ==>
        r.minX as real <= v.x <= r.maxX as real && r.minY as real <= v.y <= r.maxY as real
  {
    var r := CalculateBounds(s);
    forall v | v in s.vertices
      ensures r.minX as real <= v.x <= r.maxX as real && r.minY as real <= v.y <= r.maxY as real
    {
      TruncWhole(v.x.Floor);
      TruncWhole(v.y.Floor);
    }
  }

  /** The invariant every registered shape keeps between ticks. */
  predicate Valid(s: Shape) {
    && |s.vertices| > 0
    && IsMean(s.centroid, s.vertices)
    && s.minX <= s.maxX
    && s.minY <= s.maxY
  }

  /** `Shape.__init__`; an empty vertex list divides by zero in the source, here `None`. */
  function NewShape(vertices: seq<Vec>, id: int): (r: Option<Shape>)
    ensures r.None? <==> |vertices| == 0
    ensures r.Some? ==>
      && Valid(r.value)
      && r.value.id == id
      && r.value.vertices == vertices
      && r.value == CalculateBounds(r.value)
  {
    if |vertices| == 0 then None
    else
      var n := |vertices| as real;
      var centroid := Scale(1.0 / n, Sum(vertices));
      assert Scale(n, centroid) == Sum(vertices);
      Some(CalculateBounds(Shape(id, vertices, centroid, 0, 0, 0, 0, [])))
  }

  /** Every vertex moved by `t`. */
  function Translate(vs: seq<Vec>, t: Vec): (ws: seq<Vec>)
    ensures |ws| == |vs|
    ensures forall i :: 0 <= i < |vs| ==> ws[i] == Add(vs[i], t)
  {
    seq(|vs|, i requires 0 <= i < |vs| => Add(vs[i], t))
  }

  lemma TranslatePrefix(vs: seq<Vec>, t: Vec, n: nat)
    requires n <= |vs|
    ensures Translate(vs, t)[..n] == Translate(vs[..n], t)
  {
  }

  lemma SumTranslate(vs: seq<Vec>, t: Vec)
    ensures Sum(Translate(vs, t)) == Add(Sum(vs), Scale(|vs| as real, t))
    decreases |vs|
  {
    if |vs| > 0 {
      var n := |vs|;
      var ws := Translate(vs, t);
      var m := (n - 1) as real;
      var p := Sum(vs[..n - 1]);
      TranslatePrefix(vs, t, n - 1);
      SumTranslate(vs[..n - 1], t);
      assert Sum(ws) == Add(Add(p, Scale(m, t)), Add(vs[n - 1], t));
      AddRearrange(p, Scale(m, t), vs[n - 1], t);
      ScaleSucc(m, t);
      assert |vs| as real == m + 1.0;
    }
  }

  /**
   * shape.displace: vertices and centroid move by `t`. The bounds are left as they were
   * (the program recomputes them separately with calculate_bounds).
   */
  function Displace(s: Shape, t: Vec): (r: Shape)
    ensures r == s.(vertices := r.vertices, centroid := r.centroid)
    ensures |r.vertices| == |s.vertices|
    ensures r.centroid == Add(s.centroid, t)
    ensures forall i :: 0 <= i < |s.vertices| ==> r.vertices[i] == Add(s.vertices[i], t)
    ensures IsMean(s.centroid, s.vertices) ==> IsMean(r.centroid, r.vertices)
    ensures Valid(s) ==> Valid(r)
  {
    SumTranslate(s.vertices, t);
    s.(vertices := Translate(s.vertices, t), centroid := Add(s.centroid, t))
  }

  /** Displacing back by the opposite vector restores the shape. */
  lemma DisplaceRoundTrip(s: Shape, t: Vec)
    ensures Displace(Displace(s, t), Neg(t)) == s
  {
    var r := Displace(Displace(s, t), Neg(t));
    assert r.vertices == s.vertices;
  }

  /** After a displacement, the support point in any direction moves by the displacement. */
  lemma DisplaceMovesSupport(s: Shape, t: Vec, d: Vec)
    requires |s.vertices| > 0
    ensures Support(Displace(s, t).vertices, d) == Add(Support(s.vertices, d), t)
  {
    SupportTranslate(s.vertices, t, d);
  }

  function Polygon(points: seq<(int, int)>): (vs: seq<Vec>)
    ensures |vs| == |points|
  {
    seq(|points|, i requires 0 <= i < |points| => Vec(points[i].0 as real, points[i].1 as real))
  }

  const Parallelogram: seq<(int, int)> := [(0, 0), (100, 0), (150, 100), (50, 100)]
  const Oblong: seq<(int, int)> := [(0, 0), (200, 0), (200, 50), (0, 50)]
  const Triangle: seq<(int, int)> := [(0, 0), (100, 0), (50, 100)]
  const Pentagon: seq<(int, int)> := [(0, 50), (50, 0), (100, 50), (80, 100), (20, 100)]

  /** One registry entry: `Shape(points, colour, id)` for a non-empty literal vertex list. */
  function Register(points: seq<(int, int)>, id: int): (s: Shape)
    requires |points| > 0
    ensures s.id == id && Valid(s) && s.vertices == Polygon(points)
  {
    NewShape(Polygon(points), id).value
  }

  /** Entry `i` of a registry carries id `i` and keeps the shape invariant. */
  predicate WellIndexed(reg: seq<Shape>) {
    forall i :: 0 <= i < |reg| ==> reg[i].id == i && Valid(reg[i])
  }

  lemma WellIndexedFour(s0: Shape, s1: Shape, s2: Shape, s3: Shape)
    requires s0.id == 0 && s1.id == 1 && s2.id == 2 && s3.id == 3
    requires Valid(s0) && Valid(s1) && Valid(s2) && Valid(s3)
    ensures WellIndexed([s0, s1, s2, s3])
  {
  }

  /** The `SHAPES` registry: entry `i` carries id `i`, which the broad phase uses for lookups. */
  function Registry(): (reg: seq<Shape>)
    ensures |reg| == 4
    ensures WellIndexed(reg)
  {
    var s0 := Register(Parallelogram, 0);
    var s1 := Register(Oblong, 1);
    var s2 := Register(Triangle, 2);
    var s3 := Register(Pentagon, 3);
    WellIndexedFour(s0, s1, s2, s3);
    [s0, s1, s2, s3]
  }
}
