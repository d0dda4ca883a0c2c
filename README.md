# onix ray tracer core — a Dafny model

This project models the discrete rules at the heart of the onix ray tracer:

- the **ray** (`Ray`): an origin and a direction, and the point `at(t) = origin + t * direction`;
- the **hit record** (`HitRecord`) and `setFaceNormal`, which flips the outward
  normal so that it faces the incoming ray and records which case applied;
- the **sphere** intersection (`Sphere::hit`): coefficients of the quadratic,
  the discriminant test, the choice between the smaller and the larger root in
  the closed window `[tMin, tMax]`, and the record it writes (t, point, oriented normal);
- the **scene aggregate** (`HittableList::hit`): the loop that tests every
  object against a window whose top shrinks to the best `t` found so far and
  keeps the last successful record;
- the **frame buffer** (`Buffer<T>`): a `width x height` grid kept in one flat
  array and addressed by `x + width * y`.

Numbers are mathematical reals (`real`); a 3-vector is the datatype `Vec3`
with explicit `Add`, `Sub`, `Scale`, `Div`, `Neg` and `Dot`. The square root
the sphere takes of its discriminant is a parameter `sqrt: real -> real`,
required (`Spheres.IsSqrtAt`) to return a non-negative square root of that
discriminant whenever it is non-negative. The ray's constructor and its
accessors `getOrigin`/`getDirection` are the datatype constructor `Ray` and
its destructors `origin`/`direction`; the type has no mutators, so a ray is
immutable. The polymorphic `Hittable` objects of the list are spheres, the
only concrete primitive.

Files: `optional.dfy` (the `Option` type), `vectors.dfy`, `rays.dfy`
(onix/Ray.hpp), `hittable.dfy` (onix/Hittable.hpp), `spheres.dfy`
(onix/Sphere.hpp), `hittable_list.dfy` (onix/HittableList.hpp), `buffer.dfy`
(onix/Buffer.hpp).

How the model is shaped:

- `Sphere::hit` writes through a reference to a record only on success. It is
  the pure function `Spheres.Hit`, which takes the caller's record and returns
  `None` (the false return; the caller keeps its record) or `Some` of the
  updated record. The material is never written by the sphere and is carried
  over from the incoming record.
- `HittableList::hit` is the method `HittableLists.Hit`, a `while` loop over the
  spheres that updates `closestSoFar`, `hitAnything`, the scratch record `tmp`
  and the caller's record exactly as the source does. It is proved against the
  independent definition `HittableLists.Winner`: the object with the smallest
  nearest `t` in the window, the last one of the list among equal `t`.
- `Buffer<T>` is the class `Buffers.Buffer` over an `array<T>`. Its width,
  height and storage reference are never reassigned in the source, so they
  are `const`; `Write` modifies only the array. The ghost function `Cell(x, y)`
  is the grid view through which `Read` and `Write` are specified.

Notes on the source's behaviour:

- The window is the closed interval `[tMin, tMax]`: onix/Sphere.hpp:43 and 46
  reject a root only when it is `< tMin` or `> tMax`, so a root equal to
  `tMin` or to `tMax` is accepted.
- The aggregate's result is order-independent only in whether something is
  hit and at which `t` (hence at which point): `HittableLists.ClosestOrderIndependent`.
  When two objects report the same `t`, the later one in the list wins (its
  test window `[tMin, closestSoFar]` includes the current best), so the
  reported normal and face flag can depend on the order.

## Model

| member | source | states |
|---|---|---|
| Rays.At | onix/Ray.hpp:34-37 | the point at t is origin + t * direction, as the source's expression; AtZero, AtDisplacement and AtRestart state its properties |
| Rays.AtZero | onix/Ray.hpp:34-37 | `at(0)` is the ray's origin |
| Rays.AtDisplacement | onix/Ray.hpp:34-37 | going s further along the ray moves the point by s times the direction, so `at` traces the line through the origin along the direction |
| Rays.AtRestart | onix/Ray.hpp:20-37 | a ray started at `at(t)` with the same direction reaches at s the point the original reaches at t + s |
| Hittable.DefaultRecord | onix/Hittable.hpp:13-19 | the default record's material is the null pointer |
| Hittable.NewHitRecord | onix/Hittable.hpp:24-26 | the three-argument constructor stores p, normal and t exactly as given, with a null material |
| Hittable.SetFaceNormal | onix/Hittable.hpp:28-32 | frontFace holds exactly when dot(direction, outwardNormal) < 0; the stored normal is outwardNormal when frontFace and its negation otherwise; afterwards dot(direction, normal) <= 0; p, t and material are unchanged |
| Spheres.OriginOffset | onix/Sphere.hpp:27 | the vector from the centre to the ray's origin, as the source computes `oc`; its use is stated by SurfaceQuadratic |
| Spheres.QuadA | onix/Sphere.hpp:28 | the coefficient a = dot(direction, direction), which is never negative |
| Spheres.HalfB | onix/Sphere.hpp:29 | the coefficient halfB = dot(oc, direction), as the source's expression; SurfaceQuadratic and QuadraticRoots state what it means |
| Spheres.QuadC | onix/Sphere.hpp:30 | the coefficient c = dot(oc, oc) - radius^2, as the source's expression; SurfaceQuadratic and QuadraticRoots state what it means |
| Spheres.Discriminant | onix/Sphere.hpp:32 | halfB^2 - a*c, as the source's expression; NoRealRoots and SurfaceParameters state that its sign decides whether the ray meets the surface |
| Spheres.SelectRoot | onix/Sphere.hpp:41-50 | the smaller root is chosen whenever it lies in [tMin, tMax]; otherwise the larger one if it does; no root exactly when neither lies in the window; a chosen root is always in the window and is one of the two roots |
| Spheres.RootsOrdered | onix/Sphere.hpp:42-45 | with a > 0 and sqrtd >= 0 the first root tried is never larger than the second |
| Spheres.Nearest | onix/Sphere.hpp:32-50 | no root when the discriminant is negative; a returned root lies in [tMin, tMax]; SelectRoot fixes which root, and HitIsNearestIntersection and MissMeansNoIntersection state that it is the nearest surface point in the window |
| Spheres.Place | onix/Sphere.hpp:52-55 | the written record has t = root, p = r.at(root), a normal that is the outward normal (p - center)/radius or its negation and faces the ray, and the incoming material |
| Spheres.Hit | onix/Sphere.hpp:25-58 | a negative discriminant gives no hit; on a hit t is in [tMin, tMax], p = r.at(t), the normal faces the ray and the material is untouched; a hit happens exactly when a root lies in the window |
| Spheres.SurfaceQuadratic | onix/Sphere.hpp:27-32 | r.at(t) lies on the sphere's surface exactly when a*t^2 + 2*halfB*t + c = 0 with the coefficients the source computes |
| Spheres.QuadraticRoots | onix/Sphere.hpp:32-45 | with a > 0 and sqrtd the square root of halfB^2 - a*c, the quadratic vanishes exactly at (-halfB - sqrtd)/a and (-halfB + sqrtd)/a |
| Spheres.NoRealRoots | onix/Sphere.hpp:32-37 | with a > 0 and a negative discriminant the quadratic has no real root, so rejecting early loses no hit |
| Spheres.SurfaceParameters | onix/Sphere.hpp:27-45 | the parameters at which the ray meets the surface are exactly the two roots the source computes, and there are none when the discriminant is negative |
| Spheres.HitIsNearestIntersection | onix/Sphere.hpp:39-55 | a reported hit is on the surface, has a unit normal, and no surface point in the window lies at a smaller t |
| Spheres.MissMeansNoIntersection | onix/Sphere.hpp:32-49 | on a false return the ray meets the surface nowhere in [tMin, tMax] |
| Spheres.NarrowWindow | onix/Sphere.hpp:42-49 | lowering the top of the window to c keeps the chosen root if it is <= c and otherwise yields no hit |
| Spheres.AxisRayCoefficients | onix/Sphere.hpp:27-32 | for a ray down the -z axis from the origin and a sphere on that axis at distance dist, a = 1, halfB = -dist and the discriminant is radius^2 |
| Spheres.AxisRayRecord | onix/Sphere.hpp:52-55 | for that ray and sphere the record at t = dist - radius has point (0, 0, radius - dist), normal (0, 0, 1) and the front-face flag set |
| Spheres.AxisRayHit | onix/Sphere.hpp:25-58 | a ray down the -z axis hits a sphere centred on it at t = dist - radius with normal (0, 0, 1); the example scene's sphere at (0, 0, -2) with radius 0.5 is hit at t = 1.5 |
| HittableLists.Winner | onix/HittableList.hpp:16-33 | the reported object has an in-window hit whose t is <= every object's in-window hit t, and is strictly smaller than that of every later object with a hit; there is none exactly when no object has an in-window hit |
| HittableLists.ClosestT | onix/HittableList.hpp:26-27 | the t of the winner's hit, the value `closestSoFar` ends with; HittableLists.Hit states that the returned record carries it and ClosestOrderIndependent that it does not depend on the order |
| HittableLists.HitStep | onix/HittableList.hpp:22-29 | testing object i in the window narrowed to the best t so far succeeds exactly when object i becomes the winner of the first i+1 objects, and then yields the record object i reports in the full window; otherwise the winner is unchanged |
| HittableLists.Hit | onix/HittableList.hpp:16-33 | returns true exactly when some object has an in-window hit; on false the caller's record is unchanged (so always for an empty list); on true tMin <= record.t <= tMax, record.t is <= every object's nearest in-window hit, and the record is the one the winner reports; the loop keeps `closestSoFar` at most its value before each step, so the window only narrows |
| HittableLists.ClosestOrderIndependent | onix/HittableList.hpp:16-33 | permuting the objects changes neither whether something is hit nor the reported t |
| Buffers.IndexInRange | onix/Buffer.hpp:37-45 | for 0 <= x < width and 0 <= y < height the index x + width*y lies in [0, width*height) |
| Buffers.IndexInjective | onix/Buffer.hpp:37-45 | distinct in-range coordinates have distinct indices |
| Buffers.IndexCovers | onix/Buffer.hpp:37-45 | every index in [0, width*height) is the index of the in-range cell (i % width, i / width) |
| Buffers.Buffer.constructor | onix/Buffer.hpp:22-25 | stores the given width and height and allocates exactly width*height cells |
| Buffers.Buffer.GetWidth | onix/Buffer.hpp:27-30 | returns the width given at construction |
| Buffers.Buffer.GetHeight | onix/Buffer.hpp:32-35 | returns the height given at construction |
| Buffers.Buffer.Read | onix/Buffer.hpp:37-40 | returns the value of cell (x, y) and modifies nothing |
| Buffers.Buffer.Write | onix/Buffer.hpp:42-45 | afterwards cell (x, y) holds the value and every other in-range cell is unchanged; the flat storage changes at index x + width*y only; width and height are constant |

## Left out

- The render loop, camera and timing in onix/main.cpp:78-151: they use `tan`, vector normalisation, `std::chrono` and console I/O.
- `VectorInUnitSphere` (onix/main.cpp:23-34) and `rayColor` (onix/main.cpp:36-57): they depend on a global random generator and floating-point colour arithmetic, and the rejection loop ends only with probability one.
- `saveToFile` (onix/main.cpp:59-76): OpenEXR file output.
- onix/Color.hpp has no behaviour; the buffer is generic in its cell type. onix/Material.hpp is an interface without an implementation: the record's material pointer is an `Option<nat>` identity.
- IEEE double semantics: rounding, infinities and NaN, and the accuracy of `sqrt`. The `infinity` upper bound main passes is any real `tMax`.
- Virtual dispatch and `shared_ptr` ownership: the list holds spheres by value.
- Fields the C++ leaves uninitialised (the point, normal, t and face flag of a default record, the face flag of the three-argument constructor, the cells of a new buffer) get fixed values, or none, in the model; the model never reads them before they are written, and neither does the source.
- Spheres.Hit: requires a positive radius, a non-zero ray direction and a true square root of the discriminant (`Spheres.Admissible`). A zero direction gives a = 0, halfB = 0 and a zero discriminant, so the first root at onix/Sphere.hpp:42 is 0/0 = NaN; NaN fails both comparisons at line 43, and the source returns true with t = NaN. A zero radius makes c = dot(oc, oc), so the discriminant is never positive: for every ray whose line misses the centre the source returns false at lines 34-37 without dividing, and only a ray aimed exactly at the centre reaches the division by the radius at line 54, which gives a NaN normal. `Admissible` excludes all of these, the well-defined misses of a zero-radius sphere included, since the model has no NaN. A negative radius is excluded too, because the spheres the program builds have positive radius: the source accepts one and computes the same t and p, but `(p - center) / radius` then points inward, so the stored normal is the same and only the front-face flag is inverted (except at grazing incidence).
- HittableLists.Hit: requires every object to meet `Spheres.Admissible` for the ray, for the same reason.
- Buffers.Buffer.constructor: requires non-negative dimensions whose product fits in a 32-bit `int`. Outside that range the source does not behave as a grid: `new` throws when the product `width * height` is negative; a negative dimension with a zero or negative partner allocates a buffer (empty, or of the positive product's size) whose `getWidth`/`getHeight` report the negative value; and a product above 2^31 - 1 is signed overflow, which is undefined behaviour in C++.
- Buffers.Buffer.Read: requires in-range coordinates; the source does not check them and reads outside the array otherwise.
- Buffers.Buffer.Write: requires in-range coordinates; the source does not check them and writes outside the array otherwise.
