/**
 * gjk.py: the same triple product, simplex cases and dispatch as narrow_phase.py (the two files
 * differ only in comments and names), under the entry point `gjk_collision`. The helpers are the
 * ones of NarrowPhase; the entry point is written here as the imperative loop of the source and
 * proved to agree with NarrowPhase.GjkIntersection on every input.
 */
module Gjk {
  import opened Geometry
  import opened Shapes
  import opened NarrowPhase

  /**
   * gjk_collision(body1, body2). `rounds` counts the iterations of the `while True` loop: the
   * simplex grows by one point per round that does not return, so the loop ends within two.
   */
  method GjkCollision(b1: Shape, b2: Shape) returns (hit: bool, rounds: nat)
    requires HasVertices(b1) && HasVertices(b2)
    requires b1.centroid != b2.centroid
    ensures hit == GjkIntersection(b1, b2)
    ensures 1 <= rounds <= 2
  {
    var dir := Sub(b2.centroid, b1.centroid);
    var simplex := [MinkowskiSupport(b1, b2, dir)];
    var p0 := simplex[0];
    dir := Neg(simplex[0]);
    rounds := 0;
    while true
      invariant 1 <= |simplex| <= 2 && simplex[0] == p0
      invariant rounds == |simplex| - 1
      invariant |simplex| == 1 ==> dir == Neg(p0)
      invariant |simplex| == 2 ==>
        && simplex[1] == MinkowskiSupport(b1, b2, Neg(p0))
        && Dot(simplex[1], Neg(p0)) >= 0.0
        && dir == TripleProduct(Sub(p0, simplex[1]), Neg(simplex[1]), Sub(p0, simplex[1]))
      decreases 3 - |simplex|
    {
      rounds := rounds + 1;
      var a := MinkowskiSupport(b1, b2, dir);
      if Dot(a, dir) < 0.0 {
        return false, rounds;
      }
      simplex := simplex + [a];
      var step := HandleSimplex(simplex);
      if step.done {
        return true, rounds;
      }
      simplex := step.simplex;
      dir := step.direction.value;
    }
  }
}
