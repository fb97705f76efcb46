/**
 * The GJK narrow phase of narrow_phase.py, modelled as the program computes it.
 *
 * `triple_product_2d(a, b, c)` evaluates a × (b × c). The triangle case passes the same vector
 * as second and third argument, so both edge "perpendiculars" are the zero vector, the triangle
 * case always reports an intersection, and the loop ends within two iterations. The model keeps
 * that behaviour and proves it; it does not claim that GJK never reports a false intersection.
 */
module NarrowPhase {
  import opened Geometry
  import opened Shapes

  /** triple_product_2d: the planar part of a × (b × c). */
  function TripleProduct(a: Vec, b: Vec, c: Vec): (r: Vec)
    ensures Dot(r, a) == 0.0
    ensures b == c ==> r == Zero
  {
    Vec(a.y * (b.x * c.y - b.y * c.x), a.x * (b.y * c.x - b.x * c.y))
  }

  /** The planar formula agrees with the three-dimensional a × (b × c). */
  lemma TripleProductIsNestedCross(a: Vec, b: Vec, c: Vec)
    ensures Lift(TripleProduct(a, b, c)) == Cross3(Lift(a), Cross3(Lift(b), Lift(c)))
  {
  }

  /** The other nesting, (a × b) × c, is the planar formula with its arguments reversed. */
  lemma LeftNestingIsReversedTripleProduct(a: Vec, b: Vec, c: Vec)
    ensures Lift(TripleProduct(c, b, a)) == Cross3(Cross3(Lift(a), Lift(b)), Lift(c))
  {
  }

  /** A triple product of the form t(u, w, u): its dot product with w is the squared cross product. */
  lemma TripleProductTowards(u: Vec, w: Vec)
    ensures Dot(TripleProduct(u, w, u), w) == Cross(w, u) * Cross(w, u)
  {
    var k := Cross(w, u);
    assert TripleProduct(u, w, u) == Vec(u.y * k, -(u.x * k));
  }

  /** A triple product of the form t(u, u, w): its dot product with any v is −(u × w)(u × v). */
  lemma TripleProductAway(u: Vec, w: Vec, v: Vec)
    ensures Dot(TripleProduct(u, u, w), v) == -(Cross(u, w) * Cross(u, v))
  {
    var m := Cross(u, w);
    assert TripleProduct(u, u, w) == Vec(u.y * m, -(u.x * m));
  }

  /**
   * What line_case, triangle_case and handle_simplex return, together with the simplex list as
   * their in-place deletions leave it. `direction` is `None` where the source returns `None`.
   */
  datatype Step = Step(done: bool, direction: Option<Vec>, simplex: seq<Vec>)

  /**
   * line_case on [B, A]: never reports an intersection, keeps the simplex, and searches
   * perpendicular to AB on the origin's side.
   */
  function LineCase(simplex: seq<Vec>): (r: Step)
    requires |simplex| == 2
    ensures !r.done && r.simplex == simplex && r.direction.Some?
    ensures Dot(r.direction.value, Sub(simplex[0], simplex[1])) == 0.0
    ensures var k := Cross(Neg(simplex[1]), Sub(simplex[0], simplex[1]));
      Dot(r.direction.value, Neg(simplex[1])) == k * k >= 0.0
  {
    var b, a := simplex[0], simplex[1];
    var ab := Sub(b, a);
    var ao := Neg(a);
    TripleProductTowards(ab, ao);
    Step(false, Some(TripleProduct(ab, ao, ab)), simplex)
  }

  /**
   * The branch structure of triangle_case on [C, B, A] for given edge directions: if the origin
   * is ahead of `abPerp` drop C (index 0), else if it is ahead of `acPerp` drop B (index 1),
   * else report an intersection.
   */
  function TriangleStep(simplex: seq<Vec>, abPerp: Vec, acPerp: Vec): (r: Step)
    requires |simplex| == 3
    ensures r.done <==> Dot(abPerp, Neg(simplex[2])) <= 0.0 && Dot(acPerp, Neg(simplex[2])) <= 0.0
    ensures r.done ==> r.direction.None? && r.simplex == simplex
    ensures !r.done ==>
      && r.direction.Some?
      && Dot(r.direction.value, Neg(simplex[2])) > 0.0
      && |r.simplex| == 2
      && r.simplex[1] == simplex[2]
      && (r.simplex == simplex[1..] || r.simplex == [simplex[0], simplex[2]])
  {
    var a := simplex[2];
    var ao := Neg(a);
    if Dot(abPerp, ao) > 0.0 then
      Step(false, Some(abPerp), simplex[1..])
    else if Dot(acPerp, ao) > 0.0 then
      Step(false, Some(acPerp), [simplex[0], simplex[2]])
    else
      Step(true, None, simplex)
  }

  /**
   * triangle_case as written: with a × (b × b) = 0 both tests compare 0 > 0, so it always
   * reports an intersection and never deletes a point.
   */
  function TriangleCase(simplex: seq<Vec>): (r: Step)
    requires |simplex| == 3
    ensures r.done && r.direction.None? && r.simplex == simplex
  {
    var c, b, a := simplex[0], simplex[1], simplex[2];
    var ab := Sub(b, a);
    var ac := Sub(c, a);
    TriangleStep(simplex, TripleProduct(ac, ab, ab), TripleProduct(ab, ac, ac))
  }

  /** The origin lies strictly on the other side of the line through `a` and `b` than `c`. */
  predicate OutsideEdge(a: Vec, b: Vec, c: Vec) {
    Cross(Sub(b, a), Neg(a)) * Cross(Sub(b, a), Sub(c, a)) < 0.0
  }

  /**
   * The triangle case with the textbook GJK edge perpendiculars, (AC × AB) × AB and
   * (AB × AC) × AC, the vectors triple_product_2d(AC, AB, AB) evidently aims at: it reports an
   * intersection exactly when the origin is outside neither edge AB nor edge AC, and
   * otherwise drops the vertex opposite the edge it left by.
   */
  function IntendedTriangleCase(simplex: seq<Vec>): (r: Step)
    requires |simplex| == 3
    ensures r.done <==> !OutsideEdge(simplex[2], simplex[1], simplex[0]) && !OutsideEdge(simplex[2], simplex[0], simplex[1])
    ensures OutsideEdge(simplex[2], simplex[1], simplex[0]) ==> r.simplex == [simplex[1], simplex[2]]
    ensures !OutsideEdge(simplex[2], simplex[1], simplex[0]) && OutsideEdge(simplex[2], simplex[0], simplex[1]) ==>
      r.simplex == [simplex[0], simplex[2]]
  {
    var c, b, a := simplex[0], simplex[1], simplex[2];
    var ab := Sub(b, a);
    var ac := Sub(c, a);
    var ao := Neg(a);
    TripleProductAway(ab, ac, ao);
    TripleProductAway(ac, ab, ao);
    TriangleStep(simplex, TripleProduct(ab, ab, ac), TripleProduct(ac, ac, ab))
  }

  /** handle_simplex: the line case for two points, the triangle case otherwise. */
  function HandleSimplex(simplex: seq<Vec>): (r: Step)
    requires 2 <= |simplex| <= 3
    ensures r.done <==> |simplex| == 3
    ensures r.simplex == simplex
    ensures r.done <==> r.direction.None?
    ensures |simplex| == 2 ==>
      && Dot(r.direction.value, Sub(simplex[0], simplex[1])) == 0.0
      && Dot(r.direction.value, Neg(simplex[1])) >= 0.0
  {
    if |simplex| == 2 then LineCase(simplex) else TriangleCase(simplex)
  }

  predicate HasVertices(s: Shape) {
    |s.vertices| > 0
  }

  /** shape1.support(d) − shape2.support(−d): the support point of the Minkowski difference. */
  function MinkowskiSupport(s1: Shape, s2: Shape, d: Vec): (p: Vec)
    requires HasVertices(s1) && HasVertices(s2)
    ensures forall v, w :: v in s1.vertices && w in s2.vertices ==> Dot(Sub(v, w), d) <= Dot(p, d)
    ensures exists v, w :: v in s1.vertices && w in s2.vertices && p == Sub(v, w)
  {
    var p1 := Support(s1.vertices, d);
    var p2 := Support(s2.vertices, Neg(d));
    forall v, w | v in s1.vertices && w in s2.vertices
      ensures Dot(Sub(v, w), d) <= Dot(Sub(p1, p2), d)
    {
      DotSubNeg(v, w, d);
      DotSubNeg(p1, p2, d);
    }
    Sub(p1, p2)
  }

  lemma DotSubNeg(v: Vec, w: Vec, d: Vec)
    ensures Dot(Sub(v, w), d) == Dot(v, d) + Dot(w, Neg(d))
  {
  }

  /**
   * The outcome of the first two loop iterations from simplex [b] and direction `dir`: the
   * search point must not fall short of the origin, and neither may the point found along the
   * line case's perpendicular.
   */
  function TwoProbes(s1: Shape, s2: Shape, b: Vec, dir: Vec): bool
    requires HasVertices(s1) && HasVertices(s2)
  {
    var a := MinkowskiSupport(s1, s2, dir);
    var d2 := TripleProduct(Sub(b, a), Neg(a), Sub(b, a));
    Dot(a, dir) >= 0.0 && Dot(MinkowskiSupport(s1, s2, d2), d2) >= 0.0
  }

  /**
   * The `while True` loop of gjk_intersection, unrolled at most `fuel` times (`None` when the
   * fuel runs out first). The simplex holds one or two points on entry and a new point is
   * appended last; `false` comes only from a search point behind the origin and `true` only
   * from handle_simplex. Two iterations always suffice.
   */
  function Iterate(s1: Shape, s2: Shape, simplex: seq<Vec>, dir: Vec, fuel: nat): (r: Option<bool>)
    requires HasVertices(s1) && HasVertices(s2)
    requires 1 <= |simplex| <= 2
    ensures fuel >= 3 - |simplex| ==> r.Some?
    ensures |simplex| == 2 && fuel >= 1 ==> r == Some(Dot(MinkowskiSupport(s1, s2, dir), dir) >= 0.0)
    ensures |simplex| == 1 && fuel >= 2 ==> r == Some(TwoProbes(s1, s2, simplex[0], dir))
    decreases fuel
  {
    if fuel == 0 then None
    else
      var a := MinkowskiSupport(s1, s2, dir);
      if Dot(a, dir) < 0.0 then Some(false)
      else
        var step := HandleSimplex(simplex + [a]);
        if step.done then Some(true)
        else Iterate(s1, s2, step.simplex, step.direction.value, fuel - 1)
  }

  /**
   * gjk_intersection started from direction `d0` (the program uses the normalised centroid
   * difference; see GjkScaleInvariant).
   */
  function GjkFrom(s1: Shape, s2: Shape, d0: Vec): (r: bool)
    requires HasVertices(s1) && HasVertices(s2)
    ensures var p0 := MinkowskiSupport(s1, s2, d0); r == TwoProbes(s1, s2, p0, Neg(p0))
  {
    var p0 := MinkowskiSupport(s1, s2, d0);
    Iterate(s1, s2, [p0], Neg(p0), 2).value
  }

  /** Any amount of fuel from two iterations on gives the same verdict: the loop always stops. */
  lemma GjkLoopStops(s1: Shape, s2: Shape, d0: Vec, fuel: nat)
    requires HasVertices(s1) && HasVertices(s2)
    requires fuel >= 2
    ensures var p0 := MinkowskiSupport(s1, s2, d0);
      Iterate(s1, s2, [p0], Neg(p0), fuel) == Some(GjkFrom(s1, s2, d0))
  {
  }

  /** Scaling the initial direction by a positive factor (as `normalize` does) changes nothing. */
  lemma GjkScaleInvariant(s1: Shape, s2: Shape, d0: Vec, k: real)
    requires HasVertices(s1) && HasVertices(s2)
    requires k > 0.0
    ensures GjkFrom(s1, s2, Scale(k, d0)) == GjkFrom(s1, s2, d0)
  {
    SupportScale(s1.vertices, d0, k);
    SupportScale(s2.vertices, Neg(d0), k);
    assert Neg(Scale(k, d0)) == Scale(k, Neg(d0));
  }

  /**
   * gjk_intersection(shape1, shape2). `normalize` raises on the zero vector, so the centroids
   * must differ; the positive factor it applies is dropped (GjkScaleInvariant).
   */
  function GjkIntersection(s1: Shape, s2: Shape): (r: bool)
    requires HasVertices(s1) && HasVertices(s2)
    requires s1.centroid != s2.centroid
    ensures var p0 := MinkowskiSupport(s1, s2, Sub(s2.centroid, s1.centroid));
      r == TwoProbes(s1, s2, p0, Neg(p0))
  {
    GjkFrom(s1, s2, Sub(s2.centroid, s1.centroid))
  }

  /** Every difference of a vertex of `s1` and a vertex of `s2` lies strictly behind the origin along `d`. */
  predicate SeparatedAlong(s1: Shape, s2: Shape, d: Vec) {
    forall v, w :: v in s1.vertices && w in s2.vertices ==> Dot(Sub(v, w), d) < 0.0
  }

  /** A "no intersection" verdict is always justified: it comes with a separating direction. */
  lemma GjkMissIsSeparated(s1: Shape, s2: Shape, d0: Vec) returns (d: Vec)
    requires HasVertices(s1) && HasVertices(s2)
    requires !GjkFrom(s1, s2, d0)
    ensures SeparatedAlong(s1, s2, d)
  {
    var p0 := MinkowskiSupport(s1, s2, d0);
    var a := MinkowskiSupport(s1, s2, Neg(p0));
    if Dot(a, Neg(p0)) < 0.0 {
      d := Neg(p0);
    } else {
      d := TripleProduct(Sub(p0, a), Neg(a), Sub(p0, a));
    }
  }

  /** Shapes sharing a vertex (touching or overlapping) are always reported as intersecting. */
  lemma GjkSharedVertexIsHit(s1: Shape, s2: Shape, d0: Vec, v: Vec)
    requires HasVertices(s1) && HasVertices(s2)
    requires v in s1.vertices && v in s2.vertices
    ensures GjkFrom(s1, s2, d0)
  {
    var p0 := MinkowskiSupport(s1, s2, d0);
    var a := MinkowskiSupport(s1, s2, Neg(p0));
    var d2 := TripleProduct(Sub(p0, a), Neg(a), Sub(p0, a));
    assert Dot(Sub(v, v), Neg(p0)) == 0.0;
    assert Dot(Sub(v, v), d2) == 0.0;
  }

  /** A vertex satisfying the first-maximum characterisation is the one `support` returns. */
  lemma SupportIs(vs: seq<Vec>, d: Vec, i: nat)
    requires |vs| > 0 && IsFirstMax(vs, d, i)
    ensures Support(vs, d) == vs[i]
  {
    SupportIndexUnique(vs, d, i);
  }

  /**
   * Whenever the origin lies strictly outside edge AC of the triangle [C, B, A], the intended
   * triangle case continues the search while the written one reports an intersection.
   */
  lemma TriangleCaseIgnoresOutsideEdge(simplex: seq<Vec>)
    requires |simplex| == 3
    requires OutsideEdge(simplex[2], simplex[0], simplex[1])
    ensures TriangleCase(simplex).done && !IntendedTriangleCase(simplex).done
  {
  }

  lemma SumOfThree(a: Vec, b: Vec, c: Vec)
    ensures Sum([a, b, c]) == Vec(a.x + b.x + c.x, a.y + b.y + c.y)
  {
    assert [a, b, c][..2] == [a, b];
    assert [a, b][..1] == [a];
    assert [a][..0] == [];
    assert Sum([a]) == Add(Zero, a);
    assert Sum([a, b]) == Add(Sum([a]), b);
  }

  /** The Minkowski support point is the difference of the two first-maximum vertices. */
  lemma MinkowskiSupportIs(s1: Shape, s2: Shape, d: Vec, i: nat, j: nat)
    requires HasVertices(s1) && HasVertices(s2)
    requires IsFirstMax(s1.vertices, d, i) && IsFirstMax(s2.vertices, Neg(d), j)
    ensures MinkowskiSupport(s1, s2, d) == Sub(s1.vertices[i], s2.vertices[j])
  {
    SupportIs(s1.vertices, d, i);
    SupportIs(s2.vertices, Neg(d), j);
  }

  /** The three Minkowski support points gjk_intersection computes for the triangles below. */
  lemma FalsePositiveSupports(s1: Shape, s2: Shape)
    requires s1.vertices == [Vec(0.0, 0.0), Vec(10.0, 0.0), Vec(5.0, 10.0)]
    requires s2.vertices == [Vec(-10.0, 5.0), Vec(0.0, 5.0), Vec(-5.0, 15.0)]
    ensures MinkowskiSupport(s1, s2, Vec(-10.0, 5.0)) == Vec(0.0, -5.0)
    ensures MinkowskiSupport(s1, s2, Vec(0.0, 5.0)) == Vec(15.0, 5.0)
    ensures MinkowskiSupport(s1, s2, Vec(-750.0, 1125.0)) == Vec(5.0, 5.0)
  {
    FirstSupport(s1, s2);
    SecondSupport(s1, s2);
    ThirdSupport(s1, s2);
  }

  lemma FirstSupport(s1: Shape, s2: Shape)
    requires s1.vertices == [Vec(0.0, 0.0), Vec(10.0, 0.0), Vec(5.0, 10.0)]
    requires s2.vertices == [Vec(-10.0, 5.0), Vec(0.0, 5.0), Vec(-5.0, 15.0)]
    ensures MinkowskiSupport(s1, s2, Vec(-10.0, 5.0)) == Vec(0.0, -5.0)
  {
    assert IsFirstMax(s1.vertices, Vec(-10.0, 5.0), 0);
    assert Neg(Vec(-10.0, 5.0)) == Vec(10.0, -5.0);
    assert IsFirstMax(s2.vertices, Vec(10.0, -5.0), 1);
    MinkowskiSupportIs(s1, s2, Vec(-10.0, 5.0), 0, 1);
  }

  lemma SecondSupport(s1: Shape, s2: Shape)
    requires s1.vertices == [Vec(0.0, 0.0), Vec(10.0, 0.0), Vec(5.0, 10.0)]
    requires s2.vertices == [Vec(-10.0, 5.0), Vec(0.0, 5.0), Vec(-5.0, 15.0)]
    ensures MinkowskiSupport(s1, s2, Vec(0.0, 5.0)) == Vec(15.0, 5.0)
  {
    assert IsFirstMax(s1.vertices, Vec(0.0, 5.0), 2);
    assert Neg(Vec(0.0, 5.0)) == Vec(0.0, -5.0);
    assert IsFirstMax(s2.vertices, Vec(0.0, -5.0), 0);
    MinkowskiSupportIs(s1, s2, Vec(0.0, 5.0), 2, 0);
  }

  lemma ThirdSupport(s1: Shape, s2: Shape)
    requires s1.vertices == [Vec(0.0, 0.0), Vec(10.0, 0.0), Vec(5.0, 10.0)]
    requires s2.vertices == [Vec(-10.0, 5.0), Vec(0.0, 5.0), Vec(-5.0, 15.0)]
    ensures MinkowskiSupport(s1, s2, Vec(-750.0, 1125.0)) == Vec(5.0, 5.0)
  {
    assert IsFirstMax(s1.vertices, Vec(-750.0, 1125.0), 2);
    assert Neg(Vec(-750.0, 1125.0)) == Vec(750.0, -1125.0);
    assert IsFirstMax(s2.vertices, Vec(750.0, -1125.0), 1);
    MinkowskiSupportIs(s1, s2, Vec(-750.0, 1125.0), 2, 1);
  }

  lemma FalsePositiveCentroids(s1: Shape, s2: Shape)
    requires s1.vertices == [Vec(0.0, 0.0), Vec(10.0, 0.0), Vec(5.0, 10.0)] && Valid(s1)
    requires s2.vertices == [Vec(-10.0, 5.0), Vec(0.0, 5.0), Vec(-5.0, 15.0)] && Valid(s2)
    ensures Sub(s2.centroid, s1.centroid) == Vec(-10.0, 5.0)
  {
    var vs1, vs2 := s1.vertices, s2.vertices;
    SumOfThree(vs1[0], vs1[1], vs1[2]);
    SumOfThree(vs2[0], vs2[1], vs2[2]);
    assert Scale(3.0, s1.centroid) == Vec(15.0, 10.0);
    assert Scale(3.0, s2.centroid) == Vec(-15.0, 25.0);
  }

  /** Shapes whose vertices lie on either side of a level along `d` are separated along `d`. */
  lemma SeparatedByLevel(s1: Shape, s2: Shape, d: Vec, m: real)
    requires forall v :: v in s1.vertices ==> Dot(v, d) <= m
    requires forall w :: w in s2.vertices ==> Dot(w, d) > m
    ensures SeparatedAlong(s1, s2, d)
  {
    forall v, w | v in s1.vertices && w in s2.vertices
      ensures Dot(Sub(v, w), d) < 0.0
    {
      DotSubNeg(v, w, d);
      assert Dot(w, Neg(d)) == -Dot(w, d);
    }
  }

  lemma FalsePositiveSeparated(s1: Shape, s2: Shape)
    requires s1.vertices == [Vec(0.0, 0.0), Vec(10.0, 0.0), Vec(5.0, 10.0)]
    requires s2.vertices == [Vec(-10.0, 5.0), Vec(0.0, 5.0), Vec(-5.0, 15.0)]
    ensures SeparatedAlong(s1, s2, Vec(-10.0, 5.0))
  {
    var d := Vec(-10.0, 5.0);
    forall v | v in s1.vertices
      ensures Dot(v, d) <= 0.0
    {
      var i :| 0 <= i < 3 && s1.vertices[i] == v;
    }
    forall w | w in s2.vertices
      ensures Dot(w, d) > 0.0
    {
      var i :| 0 <= i < 3 && s2.vertices[i] == w;
    }
    SeparatedByLevel(s1, s2, d, 0.0);
  }

  /** TwoProbes from known support points. */
  lemma TwoProbesFrom(s1: Shape, s2: Shape, b: Vec, dir: Vec, a: Vec, d2: Vec, a2: Vec)
    requires HasVertices(s1) && HasVertices(s2)
    requires MinkowskiSupport(s1, s2, dir) == a && Dot(a, dir) >= 0.0
    requires d2 == TripleProduct(Sub(b, a), Neg(a), Sub(b, a))
    requires MinkowskiSupport(s1, s2, d2) == a2 && Dot(a2, d2) >= 0.0
    ensures TwoProbes(s1, s2, b, dir)
  {
  }

  /** A true verdict of GjkFrom, from its support points; `ab` and `ao` name the line case's vectors. */
  lemma GjkFromHits(s1: Shape, s2: Shape, d0: Vec, p0: Vec, a: Vec, ab: Vec, ao: Vec, d2: Vec, a2: Vec)
    requires HasVertices(s1) && HasVertices(s2)
    requires MinkowskiSupport(s1, s2, d0) == p0
    requires MinkowskiSupport(s1, s2, Neg(p0)) == a && Dot(a, Neg(p0)) >= 0.0
    requires ab == Sub(p0, a) && ao == Neg(a) && d2 == TripleProduct(ab, ao, ab)
    requires MinkowskiSupport(s1, s2, d2) == a2 && Dot(a2, d2) >= 0.0
    ensures GjkFrom(s1, s2, d0)
  {
    TwoProbesFrom(s1, s2, p0, Neg(p0), a, d2, a2);
  }

  lemma FalsePositiveLineDirection()
    ensures TripleProduct(Vec(-15.0, -10.0), Vec(-15.0, -5.0), Vec(-15.0, -10.0)) == Vec(-750.0, 1125.0)
  {
  }

  lemma FalsePositiveArithmetic()
    ensures Neg(Vec(0.0, -5.0)) == Vec(0.0, 5.0)
    ensures Sub(Vec(0.0, -5.0), Vec(15.0, 5.0)) == Vec(-15.0, -10.0)
    ensures Neg(Vec(15.0, 5.0)) == Vec(-15.0, -5.0)
    ensures Dot(Vec(15.0, 5.0), Vec(0.0, 5.0)) >= 0.0
    ensures Dot(Vec(5.0, 5.0), Vec(-750.0, 1125.0)) >= 0.0
  {
  }

  /** The last simplex of GjkFalsePositive, [C, B, A] = [(0, −5), (15, 5), (5, 5)], has the origin outside AC. */
  lemma FalsePositiveSimplexOutsideEdge()
    ensures OutsideEdge(Vec(5.0, 5.0), Vec(0.0, -5.0), Vec(15.0, 5.0))
  {
    assert Cross(Vec(-5.0, -10.0), Vec(-5.0, -5.0)) == -25.0;
    assert Cross(Vec(-5.0, -10.0), Vec(10.0, 0.0)) == 100.0;
  }

  /**
   * Two disjoint triangles, the second the first moved by (−10, 5): every vertex difference lies
   * behind the origin along (−10, 5), yet gjk_intersection reports an intersection. The simplex
   * it ends with, [(0, −5), (15, 5), (5, 5)], has the origin outside edge AC
   * (TriangleCaseIgnoresOutsideEdge).
   */
  lemma GjkFalsePositive(s1: Shape, s2: Shape)
    requires s1.vertices == [Vec(0.0, 0.0), Vec(10.0, 0.0), Vec(5.0, 10.0)] && Valid(s1)
    requires s2.vertices == [Vec(-10.0, 5.0), Vec(0.0, 5.0), Vec(-5.0, 15.0)] && Valid(s2)
    ensures s1.centroid != s2.centroid
    ensures SeparatedAlong(s1, s2, Vec(-10.0, 5.0))
    ensures GjkIntersection(s1, s2)
  {
    FalsePositiveCentroids(s1, s2);
    FalsePositiveSeparated(s1, s2);
    FalsePositiveSupports(s1, s2);
    FalsePositiveArithmetic();
    FalsePositiveLineDirection();
    GjkFromHits(s1, s2, Sub(s2.centroid, s1.centroid),
      Vec(0.0, -5.0), Vec(15.0, 5.0), Vec(-15.0, -10.0), Vec(-15.0, -5.0), Vec(-750.0, 1125.0), Vec(5.0, 5.0));
  }
}
