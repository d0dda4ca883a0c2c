/**
 * Three-component vectors, standing for the Eigen::Vector3d values the ray
 * tracer computes with. Doubles are modelled as mathematical reals.
 */
module Vectors {

  datatype Vec3 = Vec3(x: real, y: real, z: real)

  function Add(u: Vec3, v: Vec3): Vec3 {
    Vec3(u.x + v.x, u.y + v.y, u.z + v.z)
  }

  function Sub(u: Vec3, v: Vec3): Vec3 {
    Vec3(u.x - v.x, u.y - v.y, u.z - v.z)
  }

  /** Scalar multiple k * v. */
  function Scale(k: real, v: Vec3): Vec3 {
    Vec3(k * v.x, k * v.y, k * v.z)
  }

  /** Component-wise division v / k, as Eigen's operator/ with a scalar. */
  function Div(v: Vec3, k: real): Vec3
    requires k != 0.0
  {
    Vec3(v.x / k, v.y / k, v.z / k)
  }

  function Neg(v: Vec3): Vec3 {
    Vec3(-v.x, -v.y, -v.z)
  }

  function Dot(u: Vec3, v: Vec3): real {
    u.x * v.x + u.y * v.y + u.z * v.z
  }

  lemma DotNeg(u: Vec3, v: Vec3)
    ensures Dot(u, Neg(v)) == -Dot(u, v)
    ensures Dot(Neg(v), Neg(v)) == Dot(v, v)
  {
  }

  lemma ZeroProduct(x: real, y: real)
    requires x * y == 0.0
    ensures x == 0.0 || y == 0.0
  {
  }

  lemma SquareNonNegative(u: real)
    ensures 0.0 <= u * u
  {
  }

  /** A vector of length |k| divided by k has unit length. */
  lemma UnitAfterDivide(v: Vec3, k: real)
    requires k != 0.0 && Dot(v, v) == k * k
    ensures Dot(Div(v, k), Div(v, k)) == 1.0
  {
    var w := Div(v, k);
    assert w.x * k == v.x && w.y * k == v.y && w.z * k == v.z;
    var kk := k * k;
    if kk == 0.0 {
      ZeroProduct(k, k);
    }
    var n2 := Dot(w, w);
    assert n2 * kk == Dot(v, v);
    assert n2 * kk - kk == 0.0;
    assert (n2 - 1.0) * kk == 0.0;
    ZeroProduct(n2 - 1.0, kk);
  }
}
