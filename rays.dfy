/**
 * A ray: an origin point and a direction, neither normalised by the type.
 * The constructor is the datatype constructor and the two accessors are its
 * destructors `origin` and `direction`; there are no mutators, so a Ray value
 * never changes after construction.
 */
module Rays {
  import opened Vectors

  datatype Ray = Ray(origin: Vec3, direction: Vec3)

  /** The point at parameter t along the ray: origin + t * direction. */
  function At(r: Ray, t: real): Vec3 {
    Add(r.origin, Scale(t, r.direction))
  }

  /** The ray starts at its origin. */
  lemma AtZero(r: Ray)
    ensures At(r, 0.0) == r.origin
  {
  }

  /** Moving along the ray by s is a displacement of s times the direction. */
  lemma AtDisplacement(r: Ray, t: real, s: real)
    ensures Sub(At(r, t + s), At(r, t)) == Scale(s, r.direction)
  {
  }

  /**
   * Restarting the ray at the point it reaches at t and going on for s more
   * gives the same point as going t + s along the original ray.
   */
  lemma AtRestart(r: Ray, t: real, s: real)
    ensures At(Ray(At(r, t), r.direction), s) == At(r, t + s)
  {
  }
}
