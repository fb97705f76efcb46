/**
 * Exact plane geometry standing in for pygame's `Vector2`.
 * Coordinates are mathematical reals: the model has no floating-point rounding.
 */
module Geometry {

  datatype Option<+T> = None | Some(value: T)

  /** A point or direction in the plane. */
  datatype Vec = Vec(x: real, y: real)

  const Zero: Vec := Vec(0.0, 0.0)

  function Add(a: Vec, b: Vec): Vec {
    Vec(a.x + b.x, a.y + b.y)
  }

  function Sub(a: Vec, b: Vec): Vec {
    Vec(a.x - b.x, a.y - b.y)
  }

  function Neg(a: Vec): Vec {
    Vec(-a.x, -a.y)
  }

  function Scale(k: real, a: Vec): Vec {
    Vec(k * a.x, k * a.y)
  }

  function Dot(a: Vec, b: Vec): real {
    a.x * b.x + a.y * b.y
  }

  /** The z-component of the cross product of two vectors lying in the z = 0 plane. */
  function Cross(a: Vec, b: Vec): real {
    a.x * b.y - a.y * b.x
  }

  /** A vector of three-dimensional space, used as an independent reference for planar products. */
  datatype Vec3 = Vec3(x: real, y: real, z: real)

  /** Embeds a planar vector in the z = 0 plane. */
  function Lift(a: Vec): Vec3 {
    Vec3(a.x, a.y, 0.0)
  }

  /** The ordinary three-dimensional cross product. */
  function Cross3(a: Vec3, b: Vec3): Vec3 {
    Vec3(a.y * b.z - a.z * b.y, a.z * b.x - a.x * b.z, a.x * b.y - a.y * b.x)
  }

  lemma DotScale(v: Vec, k: real, d: Vec)
    ensures Dot(v, Scale(k, d)) == k * Dot(v, d)
  {
  }

  lemma ScaleSucc(m: real, t: Vec)
    ensures Scale(m + 1.0, t) == Add(Scale(m, t), t)
  {
  }

  /** Projections on the four unit axis directions. */
  lemma DotAxes(v: Vec)
    ensures Dot(v, Vec(1.0, 0.0)) == v.x && Dot(v, Vec(-1.0, 0.0)) == -v.x
    ensures Dot(v, Vec(0.0, 1.0)) == v.y && Dot(v, Vec(0.0, -1.0)) == -v.y
  {
  }

  lemma AddRearrange(p: Vec, q: Vec, v: Vec, t: Vec)
    ensures Add(Add(p, q), Add(v, t)) == Add(Add(p, v), Add(q, t))
  {
  }

  lemma DotAdd(v: Vec, t: Vec, d: Vec)
    ensures Dot(Add(v, t), d) == Dot(v, d) + Dot(t, d)
  {
  }

  /** Multiplying both sides by a positive factor keeps a strict comparison. */
  lemma ScaleKeepsOrder(k: real, a: real, b: real)
    requires k > 0.0
    ensures a < b <==> k * a < k * b
    ensures a <= b <==> k * a <= k * b
  {
    if a < b {
      assert k * b - k * a == k * (b - a);
    }
    if k * a < k * b {
      assert k * (b - a) > 0.0;
    }
  }
}
