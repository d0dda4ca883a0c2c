/**
 * The scene aggregate: an ordered list of spheres whose intersection test
 * reports the closest hit, shrinking the top of the search window to the
 * best t found so far.
 */
module HittableLists {
  import opened Optional
  import opened Vectors
  import opened Rays
  import opened Hittable
  import opened Spheres

  datatype HittableList = HittableList(objects: seq<Sphere>)

  /** Every object of the list can be tested against the ray. */
  predicate AllAdmissible(objects: seq<Sphere>, r: Ray, sqrt: real -> real) {
    forall j :: 0 <= j < |objects| ==> Admissible(objects[j], r, sqrt)
  }

  /**
   * The object whose hit the aggregate reports, as an independent
   * definition: among the objects with a hit in [tMin, tMax], one whose
   * nearest t is smallest, and of those the last in the list.
   */
  function Winner(objects: seq<Sphere>, r: Ray, tMin: real, tMax: real, sqrt: real -> real): (w: Option<nat>)
    requires AllAdmissible(objects, r, sqrt)
    ensures w.Some? ==> w.value < |objects| && Nearest(objects[w.value], r, tMin, tMax, sqrt).Some?
    ensures w.Some? ==>
              forall j :: 0 <= j < |objects| && Nearest(objects[j], r, tMin, tMax, sqrt).Some? ==>
                Nearest(objects[w.value], r, tMin, tMax, sqrt).value <= Nearest(objects[j], r, tMin, tMax, sqrt).value
    ensures w.Some? ==>
              forall j :: w.value < j < |objects| && Nearest(objects[j], r, tMin, tMax, sqrt).Some? ==>
                Nearest(objects[w.value], r, tMin, tMax, sqrt).value < Nearest(objects[j], r, tMin, tMax, sqrt).value
    ensures w.None? <==> forall j :: 0 <= j < |objects| ==> Nearest(objects[j], r, tMin, tMax, sqrt).None?
    decreases |objects|
  {
    if objects == [] then None
    else
      var last := |objects| - 1;
      var before := Winner(objects[..last], r, tMin, tMax, sqrt);
      match Nearest(objects[last], r, tMin, tMax, sqrt)
      case None => before
      case Some(t) =>
        if before.Some? && Nearest(objects[before.value], r, tMin, tMax, sqrt).value < t then before
        else Some(last)
  }

  /** The t of the reported hit, if any. */
  function ClosestT(objects: seq<Sphere>, r: Ray, tMin: real, tMax: real, sqrt: real -> real): Option<real>
    requires AllAdmissible(objects, r, sqrt)
  {
    match Winner(objects, r, tMin, tMax, sqrt)
    case None => None
    case Some(w) => Nearest(objects[w], r, tMin, tMax, sqrt)
  }

  /** Every object of one list occurs in a permutation of it. */
  lemma OccursInPermutation(objects: seq<Sphere>, objects': seq<Sphere>, j: nat)
    requires multiset(objects) == multiset(objects') && j < |objects|
    ensures exists k :: 0 <= k < |objects'| && objects'[k] == objects[j]
  {
    assert objects[j] in multiset(objects);
    assert objects[j] in objects';
  }

  /**
   * Which t the aggregate reports does not depend on the order of the
   * list: a permutation of the objects has a hit exactly when the original
   * does, at the same t (and hence at the same point r.at(t)).
   */
  lemma ClosestOrderIndependent(objects: seq<Sphere>, objects': seq<Sphere>, r: Ray, tMin: real, tMax: real, sqrt: real -> real)
    requires multiset(objects) == multiset(objects')
    requires AllAdmissible(objects, r, sqrt)
    ensures AllAdmissible(objects', r, sqrt)
    ensures ClosestT(objects, r, tMin, tMax, sqrt) == ClosestT(objects', r, tMin, tMax, sqrt)
  {
    forall j | 0 <= j < |objects'|
      ensures Admissible(objects'[j], r, sqrt)
    {
      OccursInPermutation(objects', objects, j);
    }
    var w, w' := Winner(objects, r, tMin, tMax, sqrt), Winner(objects', r, tMin, tMax, sqrt);
    if w.Some? {
      OccursInPermutation(objects, objects', w.value);
    }
    if w'.Some? {
      OccursInPermutation(objects', objects, w'.value);
    }
  }

  /**
   * One step of the loop: testing object i against the window narrowed to
   * the best t among objects[..i] succeeds exactly when object i becomes the
   * winner of objects[..i+1], and then yields the record object i reports
   * in the full window.
   */
  lemma HitStep(objects: seq<Sphere>, i: nat, r: Ray, tMin: real, tMax: real, sqrt: real -> real,
                closestSoFar: real, tmp: HitRecord)
    requires AllAdmissible(objects, r, sqrt) && i < |objects|
    requires tmp.material == None
    requires closestSoFar == match Winner(objects[..i], r, tMin, tMax, sqrt)
                             case None => tMax
                             case Some(w) => Nearest(objects[w], r, tMin, tMax, sqrt).value
    ensures var res := Spheres.Hit(objects[i], r, tMin, closestSoFar, sqrt, tmp);
            var after := Winner(objects[..i + 1], r, tMin, tMax, sqrt);
            (res.Some? ==> after == Some(i) &&
                           res.value == Spheres.Hit(objects[i], r, tMin, tMax, sqrt, DefaultRecord()).value) &&
            (res.None? ==> after == Winner(objects[..i], r, tMin, tMax, sqrt))
  {
    var before := Winner(objects[..i], r, tMin, tMax, sqrt);
    assert before.Some? ==> Nearest(objects[before.value], r, tMin, tMax, sqrt).Some?;
    assert closestSoFar <= tMax;
    NarrowWindow(objects[i], r, tMin, tMax, closestSoFar, sqrt);
    assert objects[..i + 1][..i] == objects[..i];
    assert objects[..i + 1][i] == objects[i];
  }

  /**
   * HittableList::hit. `record` is the caller's record; the method returns
   * whether anything was hit and the record afterwards.
   */
  method Hit(list: HittableList, r: Ray, tMin: real, tMax: real, sqrt: real -> real, record: HitRecord)
    returns (hitAnything: bool, record': HitRecord)
    requires AllAdmissible(list.objects, r, sqrt)
    ensures hitAnything <==> exists j :: 0 <= j < |list.objects| && Nearest(list.objects[j], r, tMin, tMax, sqrt).Some?
    ensures !hitAnything ==> record' == record
    ensures hitAnything ==> tMin <= record'.t <= tMax
    ensures hitAnything ==>
              forall j :: 0 <= j < |list.objects| && Nearest(list.objects[j], r, tMin, tMax, sqrt).Some? ==>
                record'.t <= Nearest(list.objects[j], r, tMin, tMax, sqrt).value
    ensures hitAnything ==>
              var w := Winner(list.objects, r, tMin, tMax, sqrt).value;
              record' == Spheres.Hit(list.objects[w], r, tMin, tMax, sqrt, DefaultRecord()).value
  {
    var objects := list.objects;
    var tmp := DefaultRecord();
    hitAnything := false;
    var closestSoFar := tMax;
    record' := record;
    var i := 0;
    ghost var previous := tMax;  // closestSoFar before the last step: the window only narrows
    while i < |objects|
      invariant 0 <= i <= |objects|
      invariant AllAdmissible(objects[..i], r, sqrt)
      invariant tmp.material == None
      invariant closestSoFar <= previous <= tMax
      invariant hitAnything == Winner(objects[..i], r, tMin, tMax, sqrt).Some?
      invariant !hitAnything ==> record' == record && closestSoFar == tMax
      invariant hitAnything ==>
                  var w := Winner(objects[..i], r, tMin, tMax, sqrt).value;
                  record' == Spheres.Hit(objects[w], r, tMin, tMax, sqrt, DefaultRecord()).value &&
                  closestSoFar == Nearest(objects[w], r, tMin, tMax, sqrt).value
    {
      previous := closestSoFar;
      var result := Spheres.Hit(objects[i], r, tMin, closestSoFar, sqrt, tmp);
      HitStep(objects, i, r, tMin, tMax, sqrt, closestSoFar, tmp);
      if result.Some? {
        hitAnything := true;
        closestSoFar := result.value.t;
        tmp := result.value;
        record' := tmp;
      }
      i := i + 1;
    }
    assert objects[..i] == objects;
    if hitAnything {
      var w := Winner(objects, r, tMin, tMax, sqrt).value;
      assert Spheres.Hit(objects[w], r, tMin, tMax, sqrt, DefaultRecord()).Some?;
    }
  }
}
