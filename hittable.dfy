/**
 * The record of a ray/surface intersection and the rule that orients its
 * normal against the incoming ray.
 */
module Hittable {
  import opened Optional
  import opened Vectors
  import opened Rays

  /**
   * An intersection record. `material` stands for the shared pointer to the
   * surface material: None is the null pointer, Some(id) identifies a
   * material object.
   */
  datatype HitRecord = HitRecord(p: Vec3, normal: Vec3, material: Option<nat>, t: real, frontFace: bool)

  /**
   * The default-constructed record. Only its material (a null shared pointer)
   * is determined by the language; the point, normal, t and flag are left
   * uninitialised and are fixed here to zeros and false.
   */
  function DefaultRecord(): (rec: HitRecord)
    ensures rec.material == None
  {
    HitRecord(Vec3(0.0, 0.0, 0.0), Vec3(0.0, 0.0, 0.0), None, 0.0, false)
  }

  /**
   * The three-argument constructor: stores p, normal and t; the material is a
   * null pointer and the face flag is left uninitialised (false here).
   */
  function NewHitRecord(p: Vec3, normal: Vec3, t: real): (rec: HitRecord)
    ensures rec.p == p && rec.normal == normal && rec.t == t
    ensures rec.material == None
  {
    HitRecord(p, normal, None, t, false)
  }

  /** A normal faces the ray when it points against the ray's direction. */
  predicate FacesRay(r: Ray, normal: Vec3) {
    Dot(r.direction, normal) <= 0.0
  }

  /**
   * setFaceNormal: records whether the ray hits the front face (its direction
   * is strictly against the outward normal) and stores the normal flipped, if
   * need be, so that it faces the ray. Nothing else in the record changes.
   */
  function SetFaceNormal(rec: HitRecord, r: Ray, outwardNormal: Vec3): (rec': HitRecord)
    ensures rec'.frontFace <==> Dot(r.direction, outwardNormal) < 0.0
    ensures rec'.frontFace ==> rec'.normal == outwardNormal
    ensures !rec'.frontFace ==> rec'.normal == Neg(outwardNormal)
    ensures FacesRay(r, rec'.normal)
    ensures rec'.p == rec.p && rec'.t == rec.t && rec'.material == rec.material
  {
    DotNeg(r.direction, outwardNormal);
    var frontFace := Dot(r.direction, outwardNormal) < 0.0;
    rec.(frontFace := frontFace, normal := if frontFace then outwardNormal else Neg(outwardNormal))
  }
}
