/**
 * Analytic ray/sphere intersection. The square root the source takes of the
 * discriminant is a parameter `sqrt`, required to be a non-negative square
 * root wherever it is consulted.
 */
module Spheres {
  import opened Optional
  import opened Vectors
  import opened Rays
  import opened Hittable

  datatype Sphere = Sphere(center: Vec3, radius: real)

  // Coefficients of a*t^2 + 2*halfB*t + c == 0, whose roots are the
  // parameters at which the ray meets the sphere's surface.

  function OriginOffset(s: Sphere, r: Ray): Vec3 {
    Sub(r.origin, s.center)
  }

  function QuadA(r: Ray): (a: real)
    ensures 0.0 <= a
  {
    Dot(r.direction, r.direction)
  }

  function HalfB(s: Sphere, r: Ray): real {
    Dot(OriginOffset(s, r), r.direction)
  }

  function QuadC(s: Sphere, r: Ray): real {
    Dot(OriginOffset(s, r), OriginOffset(s, r)) - s.radius * s.radius
  }

  function Discriminant(s: Sphere, r: Ray): real {
    HalfB(s, r) * HalfB(s, r) - QuadA(r) * QuadC(s, r)
  }

  /** The quadratic's value at t. */
  function Quadratic(s: Sphere, r: Ray, t: real): real {
    QuadA(r) * t * t + 2.0 * HalfB(s, r) * t + QuadC(s, r)
  }

  /** A point lies on the sphere's surface. */
  predicate OnSurface(s: Sphere, p: Vec3) {
    Dot(Sub(p, s.center), Sub(p, s.center)) == s.radius * s.radius
  }

  /** sqrt returns a non-negative square root of d whenever d is non-negative. */
  predicate IsSqrtAt(sqrt: real -> real, d: real) {
    0.0 <= d ==> 0.0 <= sqrt(d) && sqrt(d) * sqrt(d) == d
  }

  /**
   * What Sphere::hit needs to compute without dividing by zero: a positive
   * radius, a non-zero ray direction, and a true square root of the
   * discriminant.
   */
  predicate Admissible(s: Sphere, r: Ray, sqrt: real -> real) {
    0.0 < s.radius && 0.0 < QuadA(r) && IsSqrtAt(sqrt, Discriminant(s, r))
  }

  predicate InWindow(t: real, tMin: real, tMax: real) {
    tMin <= t <= tMax
  }

  /**
   * The root choice: the smaller root (-halfB - sqrtd)/a if it lies in the
   * closed window [tMin, tMax], otherwise the larger root (-halfB + sqrtd)/a
   * if that does, otherwise none.
   */
  function SelectRoot(a: real, halfB: real, sqrtd: real, tMin: real, tMax: real): (root: Option<real>)
    requires 0.0 < a && 0.0 <= sqrtd
    ensures root.Some? ==> InWindow(root.value, tMin, tMax)
    ensures root.Some? ==> root.value == (-halfB - sqrtd) / a || root.value == (-halfB + sqrtd) / a
    ensures InWindow((-halfB - sqrtd) / a, tMin, tMax) ==> root == Some((-halfB - sqrtd) / a)
    ensures !InWindow((-halfB - sqrtd) / a, tMin, tMax) ==>
              (InWindow((-halfB + sqrtd) / a, tMin, tMax) ==> root == Some((-halfB + sqrtd) / a))
    ensures root.None? <==> !InWindow((-halfB - sqrtd) / a, tMin, tMax) && !InWindow((-halfB + sqrtd) / a, tMin, tMax)
  {
    var smaller := (-halfB - sqrtd) / a;
    if smaller < tMin || tMax < smaller then
      var larger := (-halfB + sqrtd) / a;
      if larger < tMin || tMax < larger then None else Some(larger)
    else
      Some(smaller)
  }

  /** The smaller root never exceeds the larger one. */
  lemma RootsOrdered(a: real, halfB: real, sqrtd: real)
    requires 0.0 < a && 0.0 <= sqrtd
    ensures (-halfB - sqrtd) / a <= (-halfB + sqrtd) / a
  {
  }

  /**
   * The root chosen by Sphere::hit in the window [tMin, tMax], if any:
   * none when the discriminant is negative.
   */
  function Nearest(s: Sphere, r: Ray, tMin: real, tMax: real, sqrt: real -> real): (root: Option<real>)
    requires Admissible(s, r, sqrt)
    ensures Discriminant(s, r) < 0.0 ==> root.None?
    ensures root.Some? ==> 0.0 <= Discriminant(s, r) && InWindow(root.value, tMin, tMax)
  {
    var d := Discriminant(s, r);
    if d < 0.0 then None else SelectRoot(QuadA(r), HalfB(s, r), sqrt(d), tMin, tMax)
  }

  /**
   * The record written for a hit at t: t itself, the point r.at(t), and the
   * outward normal (p - center) / radius turned to face the ray. The
   * material is not written and is carried over from the incoming record.
   */
  function Place(s: Sphere, r: Ray, t: real, rec: HitRecord): (rec': HitRecord)
    requires 0.0 < s.radius
    ensures rec'.t == t && rec'.p == At(r, t) && rec'.material == rec.material
    ensures FacesRay(r, rec'.normal)
    ensures var outward := Div(Sub(At(r, t), s.center), s.radius);
            rec'.normal == (if rec'.frontFace then outward else Neg(outward)) &&
            (rec'.frontFace <==> Dot(r.direction, outward) < 0.0)
  {
    var p := At(r, t);
    SetFaceNormal(rec.(t := t, p := p), r, Div(Sub(p, s.center), s.radius))
  }

  /**
   * Sphere::hit. None stands for the false return, in which case the
   * caller's record is left as it was; Some(rec') is the record after a
   * true return.
   */
  function Hit(s: Sphere, r: Ray, tMin: real, tMax: real, sqrt: real -> real, rec: HitRecord): (res: Option<HitRecord>)
    requires Admissible(s, r, sqrt)
    ensures Discriminant(s, r) < 0.0 ==> res.None?
    ensures res.Some? ==> InWindow(res.value.t, tMin, tMax)
    ensures res.Some? ==> res.value.p == At(r, res.value.t) && FacesRay(r, res.value.normal)
    ensures res.Some? ==> res.value.material == rec.material
    ensures res.Some? <==> Nearest(s, r, tMin, tMax, sqrt).Some?
  {
    match Nearest(s, r, tMin, tMax, sqrt)
    case None => None
    case Some(t) => Some(Place(s, r, t, rec))
  }

  /** The point r.at(t) is on the surface exactly when t solves the quadratic. */
  lemma SurfaceQuadratic(s: Sphere, r: Ray, t: real)
    ensures OnSurface(s, At(r, t)) <==> Quadratic(s, r, t) == 0.0
  {
  }

  /**
   * With a > 0 and sqrtd the non-negative square root of the discriminant,
   * the quadratic vanishes exactly at the two roots Sphere::hit computes.
   */
  lemma QuadraticRoots(a: real, halfB: real, c: real, sqrtd: real, t: real)
    requires 0.0 < a && 0.0 <= sqrtd && sqrtd * sqrtd == halfB * halfB - a * c
    ensures a * t * t + 2.0 * halfB * t + c == 0.0 <==>
            t == (-halfB - sqrtd) / a || t == (-halfB + sqrtd) / a
  {
    var q := a * t * t + 2.0 * halfB * t + c;
    assert a * q == (a * t + halfB - sqrtd) * (a * t + halfB + sqrtd);
    var lo, hi := (-halfB - sqrtd) / a, (-halfB + sqrtd) / a;
    assert lo * a == -halfB - sqrtd;
    assert hi * a == -halfB + sqrtd;
    if q == 0.0 {
      ZeroProduct(a, q);
      ZeroProduct(a * t + halfB - sqrtd, a * t + halfB + sqrtd);
      if a * t + halfB - sqrtd == 0.0 {
        assert (t - hi) * a == 0.0;
        ZeroProduct(t - hi, a);
      } else {
        assert (t - lo) * a == 0.0;
        ZeroProduct(t - lo, a);
      }
    }
    if t == lo || t == hi {
      assert (a * t + halfB - sqrtd) * (a * t + halfB + sqrtd) == 0.0;
    }
  }

  /** With a negative discriminant the quadratic has no real root. */
  lemma NoRealRoots(a: real, halfB: real, c: real, t: real)
    requires 0.0 < a && halfB * halfB - a * c < 0.0
    ensures a * t * t + 2.0 * halfB * t + c != 0.0
  {
    var q := a * t * t + 2.0 * halfB * t + c;
    var u := a * t + halfB;
    assert a * q == u * u - (halfB * halfB - a * c);
    SquareNonNegative(u);
    assert 0.0 < a * q;
  }

  /** Surface points on the ray are exactly the roots Sphere::hit computes. */
  lemma SurfaceParameters(s: Sphere, r: Ray, sqrt: real -> real, t: real)
    requires Admissible(s, r, sqrt)
    ensures OnSurface(s, At(r, t)) ==> 0.0 <= Discriminant(s, r)
    ensures 0.0 <= Discriminant(s, r) ==>
              (OnSurface(s, At(r, t)) <==>
                 var sqrtd := sqrt(Discriminant(s, r));
                 t == (-HalfB(s, r) - sqrtd) / QuadA(r) || t == (-HalfB(s, r) + sqrtd) / QuadA(r))
  {
    SurfaceQuadratic(s, r, t);
    var a, h, c := QuadA(r), HalfB(s, r), QuadC(s, r);
    assert Quadratic(s, r, t) == a * t * t + 2.0 * h * t + c;
    if Discriminant(s, r) < 0.0 {
      NoRealRoots(a, h, c, t);
    } else {
      QuadraticRoots(a, h, c, sqrt(Discriminant(s, r)), t);
    }
  }

  /**
   * A hit is the nearest intersection of the ray with the sphere's surface
   * inside the window: the reported point is on the surface, its normal is
   * of unit length, and no surface point in the window comes earlier.
   */
  lemma HitIsNearestIntersection(s: Sphere, r: Ray, tMin: real, tMax: real, sqrt: real -> real, rec: HitRecord)
    requires Admissible(s, r, sqrt)
    requires Hit(s, r, tMin, tMax, sqrt, rec).Some?
    ensures var h := Hit(s, r, tMin, tMax, sqrt, rec).value;
            OnSurface(s, h.p) && Dot(h.normal, h.normal) == 1.0 &&
            forall t' :: InWindow(t', tMin, tMax) && OnSurface(s, At(r, t')) ==> h.t <= t'
  {
    var h := Hit(s, r, tMin, tMax, sqrt, rec).value;
    var d := Discriminant(s, r);
    var sqrtd := sqrt(d);
    var a, hb := QuadA(r), HalfB(s, r);
    SurfaceParameters(s, r, sqrt, h.t);
    RootsOrdered(a, hb, sqrtd);
    forall t' | InWindow(t', tMin, tMax) && OnSurface(s, At(r, t'))
      ensures h.t <= t'
    {
      SurfaceParameters(s, r, sqrt, t');
    }
    assert h == Place(s, r, h.t, rec);
    assert OnSurface(s, h.p);
    var v := Sub(h.p, s.center);
    var outward := Div(v, s.radius);
    UnitAfterDivide(v, s.radius);
    DotNeg(outward, outward);
  }

  /** A miss means the ray meets the surface nowhere in the window. */
  lemma MissMeansNoIntersection(s: Sphere, r: Ray, tMin: real, tMax: real, sqrt: real -> real, rec: HitRecord)
    requires Admissible(s, r, sqrt)
    requires Hit(s, r, tMin, tMax, sqrt, rec).None?
    ensures forall t' :: InWindow(t', tMin, tMax) ==> !OnSurface(s, At(r, t'))
  {
    forall t' | InWindow(t', tMin, tMax)
      ensures !OnSurface(s, At(r, t'))
    {
      SurfaceParameters(s, r, sqrt, t');
    }
  }

  /**
   * Narrowing the top of the window to c keeps the chosen root when it is
   * at most c and otherwise finds nothing.
   */
  lemma NarrowWindow(s: Sphere, r: Ray, tMin: real, tMax: real, c: real, sqrt: real -> real)
    requires Admissible(s, r, sqrt)
    requires c <= tMax
    ensures var wide := Nearest(s, r, tMin, tMax, sqrt);
            Nearest(s, r, tMin, c, sqrt) == if wide.Some? && wide.value <= c then wide else None
  {
  }

  /**
   * A ray from the origin straight down the negative z axis towards a sphere
   * centred on that axis at distance dist, with radius rad < dist, first
   * meets it at t = dist - rad, at the point (0, 0, rad - dist), where the
   * normal (0, 0, 1) faces the ray. (The example scene's first sphere,
   * dist = 2 and rad = 0.5, gives t = 1.5.)
   */
  lemma AxisRayHit(s: Sphere, r: Ray, sqrt: real -> real, dist: real, rad: real, tMin: real, tMax: real)
    requires 0.0 < rad < dist
    requires s == Sphere(Vec3(0.0, 0.0, -dist), rad)
    requires r == Ray(Vec3(0.0, 0.0, 0.0), Vec3(0.0, 0.0, -1.0))
    requires sqrt(rad * rad) == rad
    requires tMin <= dist - rad <= tMax
    ensures Admissible(s, r, sqrt)
    ensures Hit(s, r, tMin, tMax, sqrt, DefaultRecord()) ==
              Some(HitRecord(Vec3(0.0, 0.0, rad - dist), Vec3(0.0, 0.0, 1.0), None, dist - rad, true))
  {
    AxisRayCoefficients(s, r, dist, rad);
    assert Nearest(s, r, tMin, tMax, sqrt) == Some(dist - rad);
    AxisRayRecord(s, r, dist, rad, DefaultRecord());
  }

  lemma AxisRayCoefficients(s: Sphere, r: Ray, dist: real, rad: real)
    requires s == Sphere(Vec3(0.0, 0.0, -dist), rad)
    requires r == Ray(Vec3(0.0, 0.0, 0.0), Vec3(0.0, 0.0, -1.0))
    ensures QuadA(r) == 1.0 && HalfB(s, r) == -dist
    ensures Discriminant(s, r) == rad * rad
  {
  }

  lemma AxisRayRecord(s: Sphere, r: Ray, dist: real, rad: real, rec: HitRecord)
    requires 0.0 < rad
    requires s == Sphere(Vec3(0.0, 0.0, -dist), rad)
    requires r == Ray(Vec3(0.0, 0.0, 0.0), Vec3(0.0, 0.0, -1.0))
    ensures Place(s, r, dist - rad, rec) ==
              rec.(p := Vec3(0.0, 0.0, rad - dist), normal := Vec3(0.0, 0.0, 1.0), t := dist - rad, frontFace := true)
  {
    var p := At(r, dist - rad);
    assert p == Vec3(0.0, 0.0, rad - dist);
    assert Sub(p, s.center) == Vec3(0.0, 0.0, rad);
    assert rad / rad == 1.0 && 0.0 / rad == 0.0;
    var outward := Div(Sub(p, s.center), s.radius);
    assert outward == Vec3(0.0, 0.0, 1.0);
    assert Dot(r.direction, outward) < 0.0;
  }
}
