/**
 * Rays, hit records and axis-aligned boxes: src/Ray.h, src/RayHit.h, the
 * AABB type the trees use, and the two box tests of src/AABB.h.
 */
module Geometry {
  import opened Vectors

  // ---------------------------------------------------------------------
  // Ray and hit record

  /** A ray with its precomputed inverse direction (src/Ray.h). */
  datatype Ray = Ray(origin: Vec3, direction: Vec3, invDirection: Vec3)

  /** Ray::at: the point at parameter t. */
  function PointAt(ray: Ray, t: real): Vec3 {
    Add(ray.origin, Scale(ray.direction, t))
  }

  /**
   * The inverse direction holds the reciprocal of every direction
   * coordinate; that needs a direction without a zero coordinate (a zero
   * coordinate gives an IEEE infinity in the source, which reals lack).
   */
  predicate ProperInverse(ray: Ray) {
    ray.direction.x * ray.invDirection.x == 1.0
    && ray.direction.y * ray.invDirection.y == 1.0
    && ray.direction.z * ray.invDirection.z == 1.0
  }

  /** The record an intersection routine tightens (src/RayHit.h). */
  datatype RayHit = RayHit(distance: real, point: Vec3, normal: Vec3, index: int,
                           u: real, v: real, hu: real, hv: real)

  /** Distance of a fresh hit record: 1e8, which stands for "nothing hit yet". */
  const FarAway: real := 100000000.0

  /**
   * RayHit(): distance 1e8 and index -1; the source leaves u, v, hu and hv
   * uninitialised, here they are 0.
   */
  function NewRayHit(): (h: RayHit)
    ensures h.distance == FarAway && h.index == -1
  {
    RayHit(FarAway, Splat(0.0), Splat(0.0), -1, 0.0, 0.0, 0.0, 0.0)
  }

  // ---------------------------------------------------------------------
  // Axis-aligned boxes

  datatype Box = Box(min: Vec3, max: Vec3)

  /** The coordinate that stands for "unbounded" in an empty box: 1e8. */
  const Large: real := 100000000.0

  /** A box that was never fixed: min = (1e8, 1e8, 1e8), max = -min. */
  function EmptyBox(): Box {
    Box(Splat(Large), Splat(-Large))
  }

  /** The box covers the corners lo and hi (and so everything between them). */
  predicate Encloses(b: Box, lo: Vec3, hi: Vec3) {
    Le(b.min, lo) && Le(hi, b.max)
  }

  predicate Inside(inner: Box, outer: Box) {
    Encloses(outer, inner.min, inner.max)
  }

  predicate ContainsPoint(b: Box, p: Vec3) {
    Le(b.min, p) && Le(p, b.max)
  }

  /** AABB::fix: the box grown to cover the corners lo and hi. */
  function Fix(b: Box, lo: Vec3, hi: Vec3): (r: Box)
    ensures Encloses(r, lo, hi) && Inside(b, r)
  {
    Box(Min(b.min, lo), Max(b.max, hi))
  }

  /** Fix is the smallest box covering both the old box and the new corners. */
  lemma FixSmallest(b: Box, lo: Vec3, hi: Vec3, c: Box)
    requires Inside(b, c) && Encloses(c, lo, hi)
    ensures Inside(Fix(b, lo, hi), c)
  {
    MinGreatest(b.min, lo, c.min);
    MaxLeast(b.max, hi, c.max);
  }

  /** Fixing the empty box with corners inside the +-1e8 range gives exactly those corners. */
  lemma FixEmpty(lo: Vec3, hi: Vec3)
    requires ContainsPoint(Box(Splat(-Large), Splat(Large)), lo)
    requires ContainsPoint(Box(Splat(-Large), Splat(Large)), hi)
    ensures Fix(EmptyBox(), lo, hi) == Box(lo, hi)
  {
  }

  /** Fixing with a box: AABB::fix(AABB). */
  function FixBox(b: Box, c: Box): (r: Box)
    ensures Inside(c, r) && Inside(b, r)
  {
    Fix(b, c.min, c.max)
  }

  function Extents(b: Box): Vec3 {
    Sub(b.max, b.min)
  }

  /** AABB::area: 2 (ex ey + ex ez + ey ez). */
  function Area(b: Box): real {
    var e := Extents(b);
    2.0 * (e.x * e.y + e.x * e.z + e.y * e.z)
  }

  /** A fixed box, whose corners are ordered, has a non-negative area. */
  lemma AreaNonNegative(b: Box)
    requires Le(b.min, b.max)
    ensures Area(b) >= 0.0
  {
    var e := Extents(b);
    assert e.x * e.y >= 0.0 && e.x * e.z >= 0.0 && e.y * e.z >= 0.0;
  }

  /** Center of a box (the BVH's centroid). */
  function Center(b: Box): (c: Vec3)
    ensures Le(b.min, b.max) ==> ContainsPoint(b, c)
  {
    Scale(Add(b.min, b.max), 0.5)
  }

  function AxisOffset(lo: real, hi: real, p: real): real {
    if hi > lo then (p - lo) / (hi - lo) else p - lo
  }

  /** AABB::offset: position of p in the box as a fraction per axis; a flat axis is not divided. */
  function Offset(b: Box, p: Vec3): Vec3 {
    Vec3(AxisOffset(b.min.x, b.max.x, p.x), AxisOffset(b.min.y, b.max.y, p.y),
         AxisOffset(b.min.z, b.max.z, p.z))
  }

  lemma AxisOffsetInUnit(lo: real, hi: real, p: real)
    requires lo <= p <= hi
    ensures 0.0 <= AxisOffset(lo, hi, p) <= 1.0
  {
    if hi > lo {
      assert p - lo <= hi - lo;
    }
  }

  /** A point inside the box has every offset coordinate in [0, 1]. */
  lemma OffsetInUnitCube(b: Box, p: Vec3)
    requires ContainsPoint(b, p)
    ensures Le(Splat(0.0), Offset(b, p)) && Le(Offset(b, p), Splat(1.0))
  {
    AxisOffsetInUnit(b.min.x, b.max.x, p.x);
    AxisOffsetInUnit(b.min.y, b.max.y, p.y);
    AxisOffsetInUnit(b.min.z, b.max.z, p.z);
  }

  // ---------------------------------------------------------------------
  // Ray-box tests

  /** Result of the float ray-box test: FINF (here Miss) or the entry distance. */
  datatype Entry = Miss | At(t: real)

  /** "a > b" on entry distances, where Miss is FINF, larger than every number. */
  predicate Farther(a: Entry, b: Entry) {
    match (a, b)
    case (Miss, Miss) => false
    case (Miss, At(_)) => true
    case (At(_), Miss) => false
    case (At(x), At(y)) => x > y
  }

  /** One axis of the slab test: the nearer of the two plane crossings. */
  function AxisNear(lo: real, hi: real, o: real, inv: real): real {
    var t0, t1 := (lo - o) * inv, (hi - o) * inv;
    if t0 < t1 then t0 else t1
  }

  /** One axis of the slab test: the farther of the two plane crossings. */
  function AxisFar(lo: real, hi: real, o: real, inv: real): real {
    var t0, t1 := (lo - o) * inv, (hi - o) * inv;
    if t0 > t1 then t0 else t1
  }

  /** Vector3::min(t0, t1) with t0 = (min - origin) * inv_direction and t1 = (max - origin) * inv_direction. */
  function SlabNear(lo: Vec3, hi: Vec3, ray: Ray): Vec3 {
    var o, inv := ray.origin, ray.invDirection;
    Vec3(AxisNear(lo.x, hi.x, o.x, inv.x), AxisNear(lo.y, hi.y, o.y, inv.y), AxisNear(lo.z, hi.z, o.z, inv.z))
  }

  /** Vector3::max(t0, t1), the exit parameter per axis. */
  function SlabFar(lo: Vec3, hi: Vec3, ray: Ray): Vec3 {
    var o, inv := ray.origin, ray.invDirection;
    Vec3(AxisFar(lo.x, hi.x, o.x, inv.x), AxisFar(lo.y, hi.y, o.y, inv.y), AxisFar(lo.z, hi.z, o.z, inv.z))
  }

  /**
   * The float AABBIntersection(AABB, Ray) used by the BVH: a hit when the
   * latest entry is not after the earliest exit and the exit lies ahead of
   * the origin; the result is then the entry distance.
   */
  function EntryDistance(b: Box, ray: Ray): (e: Entry)
    ensures e.At? ==> e.t <= MinComponent(SlabFar(b.min, b.max, ray))
                      && MinComponent(SlabFar(b.min, b.max, ray)) > 0.0
  {
    var tmin := MaxComponent(SlabNear(b.min, b.max, ray));
    var tmax := MinComponent(SlabFar(b.min, b.max, ray));
    if tmax >= tmin && tmax > 0.0 then At(tmin) else Miss
  }

  /**
   * The boolean AABBIntersection(min, max, ray) of src/AABB.h:5-14: the
   * latest entry is not after the earliest exit. There is no check that the
   * box lies ahead of the origin.
   */
  function SlabTest(lo: Vec3, hi: Vec3, ray: Ray): bool {
    MaxComponent(SlabNear(lo, hi, ray)) <= MinComponent(SlabFar(lo, hi, ray))
  }

  /** One axis of the slab test: the parameter of a point between the planes lies between the plane hits. */
  lemma AxisSlab(lo: real, hi: real, o: real, d: real, inv: real, t: real)
    requires d * inv == 1.0 && lo <= o + d * t <= hi
    ensures AxisNear(lo, hi, o, inv) <= t <= AxisFar(lo, hi, o, inv)
  {
    assert (d * t) * inv == t * (d * inv) == t;
    if d > 0.0 {
      assert inv > 0.0;
      assert (lo - o) * inv <= (d * t) * inv;
      assert (d * t) * inv <= (hi - o) * inv;
    } else {
      assert d < 0.0;
      assert inv < 0.0;
      assert (lo - o) * inv >= (d * t) * inv;
      assert (d * t) * inv >= (hi - o) * inv;
    }
  }

  /** Every coordinate of the entry vector is at most t, every coordinate of the exit vector at least t. */
  lemma SlabsAroundPoint(lo: Vec3, hi: Vec3, ray: Ray, t: real)
    requires ProperInverse(ray) && Le(lo, PointAt(ray, t)) && Le(PointAt(ray, t), hi)
    ensures MaxComponent(SlabNear(lo, hi, ray)) <= t <= MinComponent(SlabFar(lo, hi, ray))
  {
    var o, d, inv := ray.origin, ray.direction, ray.invDirection;
    AxisSlab(lo.x, hi.x, o.x, d.x, inv.x, t);
    AxisSlab(lo.y, hi.y, o.y, d.y, inv.y, t);
    AxisSlab(lo.z, hi.z, o.z, d.z, inv.z, t);
    ComponentsAround(SlabNear(lo, hi, ray), SlabFar(lo, hi, ray), t);
  }

  lemma ComponentsAround(near: Vec3, far: Vec3, t: real)
    requires Le(near, Splat(t)) && Le(Splat(t), far)
    ensures MaxComponent(near) <= t <= MinComponent(far)
  {
  }

  /**
   * Soundness of the entry distance: when the point at parameter t > 0 lies
   * in the box, the box is reported as hit and its entry is not after t.
   */
  lemma EntryBeforeHit(b: Box, ray: Ray, t: real)
    requires ProperInverse(ray) && t > 0.0 && ContainsPoint(b, PointAt(ray, t))
    ensures EntryDistance(b, ray).At? && EntryDistance(b, ray).t <= t
  {
    SlabsAroundPoint(b.min, b.max, ray, t);
  }

  /** The boolean slab test accepts every box that meets the ray's line, at any parameter. */
  lemma SlabTestMeetsLine(lo: Vec3, hi: Vec3, ray: Ray, t: real)
    requires ProperInverse(ray) && Le(lo, PointAt(ray, t)) && Le(PointAt(ray, t), hi)
    ensures SlabTest(lo, hi, ray)
  {
    SlabsAroundPoint(lo, hi, ray, t);
  }

  /**
   * The test is symmetric in its corners: on each axis the two plane
   * crossings are sorted with min and max before they are compared.
   */
  lemma SlabTestSymmetric(lo: Vec3, hi: Vec3, ray: Ray)
    ensures SlabNear(hi, lo, ray) == SlabNear(lo, hi, ray) && SlabFar(hi, lo, ray) == SlabFar(lo, hi, ray)
    ensures SlabTest(hi, lo, ray) == SlabTest(lo, hi, ray)
  {
  }

  function Negate(v: Vec3): Vec3 { Vec3(-v.x, -v.y, -v.z) }

  /** The same line traversed backwards. */
  function Reversed(ray: Ray): Ray {
    Ray(ray.origin, Negate(ray.direction), Negate(ray.invDirection))
  }

  lemma ReversedAxis(lo: real, hi: real, o: real, inv: real)
    ensures AxisNear(lo, hi, o, -inv) == -AxisFar(lo, hi, o, inv)
    ensures AxisFar(lo, hi, o, -inv) == -AxisNear(lo, hi, o, inv)
  {
    assert (lo - o) * -inv == -((lo - o) * inv);
    assert (hi - o) * -inv == -((hi - o) * inv);
  }

  lemma ReversedNearFar(lo: Vec3, hi: Vec3, ray: Ray)
    ensures MaxComponent(SlabNear(lo, hi, Reversed(ray))) == -MinComponent(SlabFar(lo, hi, ray))
    ensures MinComponent(SlabFar(lo, hi, Reversed(ray))) == -MaxComponent(SlabNear(lo, hi, ray))
  {
    var o, inv := ray.origin, ray.invDirection;
    ReversedAxis(lo.x, hi.x, o.x, inv.x);
    ReversedAxis(lo.y, hi.y, o.y, inv.y);
    ReversedAxis(lo.z, hi.z, o.z, inv.z);
  }

  /**
   * The boolean test cannot tell a ray from its reverse: it tests the whole
   * line, so a box behind the origin passes it as well as one in front.
   */
  lemma SlabTestIgnoresDirection(lo: Vec3, hi: Vec3, ray: Ray)
    ensures SlabTest(lo, hi, Reversed(ray)) == SlabTest(lo, hi, ray)
  {
    ReversedNearFar(lo, hi, ray);
  }

  // ---------------------------------------------------------------------
  // Box-triangle test (src/AABB.h:16-35)

  function Abs(a: real): real { if a < 0.0 then -a else a }

  function AbsVec(v: Vec3): Vec3 { Vec3(Abs(v.x), Abs(v.y), Abs(v.z)) }

  /** The bounding-box part: the two boxes are not apart by more than their half-extents on an axis. */
  predicate AxisOverlap(c: real, e: real, c1: real, e1: real) {
    !(Abs(c - c1) > e + e1)
  }

  /**
   * AABBIntersection(center, e, v0, v1, v2): the box with this center and
   * half-extents against the triangle's bounding box on every axis, then the
   * plane test `fabs(r) > s` with r the box's projected radius on the normal
   * and s the signed distance term of the center.
   */
  function TriangleBoxOverlap(center: Vec3, e: Vec3, v0: Vec3, v1: Vec3, v2: Vec3): bool {
    var top := Max(v0, Max(v1, v2));
    var bottom := Min(v0, Min(v1, v2));
    var center1 := Scale(Add(top, bottom), 0.5);
    var e1 := Sub(top, center1);
    if !AxisOverlap(center.x, e.x, center1.x, e1.x) then false
    else if !AxisOverlap(center.y, e.y, center1.y, e1.y) then false
    else if !AxisOverlap(center.z, e.z, center1.z, e1.z) then false
    else
      var normal := Cross(Sub(v1, v0), Sub(v2, v0));
      var r := Dot(e, AbsVec(normal));
      var s := Dot(normal, Sub(center, v0));
      Abs(r) > s
  }

  /** The box with a center and half-extents, as corners. */
  function CenteredBox(center: Vec3, e: Vec3): Box {
    Box(Sub(center, e), Add(center, e))
  }

  predicate StrictlyInside(p: Vec3, center: Vec3, e: Vec3) {
    Abs(p.x - center.x) < e.x && Abs(p.y - center.y) < e.y && Abs(p.z - center.z) < e.z
  }

  lemma AxisOverlapOfCommonPoint(c: real, e: real, lo: real, hi: real, p: real)
    requires Abs(p - c) <= e && lo <= p <= hi
    ensures AxisOverlap(c, e, (hi + lo) * 0.5, hi - (hi + lo) * 0.5)
  {
  }

  lemma MulAbsBound(n: real, w: real, e: real)
    requires Abs(w) <= e
    ensures -(e * Abs(n)) <= n * w <= e * Abs(n)
  {
    if n >= 0.0 {
      assert n * w <= n * Abs(w) <= n * e;
      assert n * w >= -(n * Abs(w)) >= -(n * e);
    } else {
      assert n * w <= (-n) * Abs(w) <= (-n) * e;
      assert n * w >= -((-n) * Abs(w)) >= -((-n) * e);
    }
  }

  lemma MulAbsStrict(n: real, w: real, e: real)
    requires Abs(w) < e && n != 0.0
    ensures n * w < e * Abs(n)
  {
    if n > 0.0 {
      assert n * w <= n * Abs(w) < n * e;
    } else {
      assert n * w <= (-n) * Abs(w) < (-n) * e;
    }
  }

  lemma ProjectionBound(n: Vec3, w: Vec3, e: Vec3)
    requires Abs(w.x) < e.x && Abs(w.y) < e.y && Abs(w.z) < e.z
    requires n != Splat(0.0)
    ensures Dot(n, w) < Dot(e, AbsVec(n))
  {
    MulAbsBound(n.x, w.x, e.x);
    MulAbsBound(n.y, w.y, e.y);
    MulAbsBound(n.z, w.z, e.z);
    if n.x != 0.0 {
      MulAbsStrict(n.x, w.x, e.x);
    } else if n.y != 0.0 {
      MulAbsStrict(n.y, w.y, e.y);
    } else {
      MulAbsStrict(n.z, w.z, e.z);
    }
    DotBelowStrict(n, w, e);
  }

  lemma DotBelowStrict(n: Vec3, w: Vec3, e: Vec3)
    requires n.x * w.x <= e.x * Abs(n.x) && n.y * w.y <= e.y * Abs(n.y) && n.z * w.z <= e.z * Abs(n.z)
    requires n.x * w.x < e.x * Abs(n.x) || n.y * w.y < e.y * Abs(n.y) || n.z * w.z < e.z * Abs(n.z)
    ensures Dot(n, w) < Dot(e, AbsVec(n))
  {
  }

  /**
   * The test keeps every triangle that really passes through the box's
   * interior: a point of the triangle's plane, within the triangle's bounds
   * and strictly inside the box, makes it report an overlap (for a
   * triangle with a non-zero normal).
   */
  lemma TriangleBoxOverlapComplete(center: Vec3, e: Vec3, v0: Vec3, v1: Vec3, v2: Vec3, p: Vec3)
    requires StrictlyInside(p, center, e)
    requires Le(Min(v0, Min(v1, v2)), p) && Le(p, Max(v0, Max(v1, v2)))
    requires Dot(Cross(Sub(v1, v0), Sub(v2, v0)), Sub(p, v0)) == 0.0
    requires Cross(Sub(v1, v0), Sub(v2, v0)) != Splat(0.0)
    ensures TriangleBoxOverlap(center, e, v0, v1, v2)
  {
    BoundsOverlap(center, e, v0, v1, v2, p);
    var n := Cross(Sub(v1, v0), Sub(v2, v0));
    PlaneSplit(n, center, p, v0);
    ProjectionBound(n, Sub(center, p), e);
  }

  lemma BoundsOverlap(center: Vec3, e: Vec3, v0: Vec3, v1: Vec3, v2: Vec3, p: Vec3)
    requires StrictlyInside(p, center, e)
    requires Le(Min(v0, Min(v1, v2)), p) && Le(p, Max(v0, Max(v1, v2)))
    ensures var top, bottom := Max(v0, Max(v1, v2)), Min(v0, Min(v1, v2));
            var center1 := Scale(Add(top, bottom), 0.5);
            var e1 := Sub(top, center1);
            AxisOverlap(center.x, e.x, center1.x, e1.x) && AxisOverlap(center.y, e.y, center1.y, e1.y)
            && AxisOverlap(center.z, e.z, center1.z, e1.z)
  {
    var top := Max(v0, Max(v1, v2));
    var bottom := Min(v0, Min(v1, v2));
    AxisOverlapOfCommonPoint(center.x, e.x, bottom.x, top.x, p.x);
    AxisOverlapOfCommonPoint(center.y, e.y, bottom.y, top.y, p.y);
    AxisOverlapOfCommonPoint(center.z, e.z, bottom.z, top.z, p.z);
  }

  /** The dot product distributes over the split center - v0 = (center - p) + (p - v0). */
  lemma PlaneSplit(n: Vec3, center: Vec3, p: Vec3, v0: Vec3)
    ensures Dot(n, Sub(center, v0)) == Dot(n, Sub(center, p)) + Dot(n, Sub(p, v0))
  {
  }

  /**
   * What a rejection by the plane test means: every point of the box lies
   * on the closed side of the triangle's plane that the normal points to.
   */
  lemma PlaneRejectionSeparates(center: Vec3, e: Vec3, v0: Vec3, v1: Vec3, v2: Vec3, q: Vec3)
    requires var n := Cross(Sub(v1, v0), Sub(v2, v0));
             !(Abs(Dot(e, AbsVec(n))) > Dot(n, Sub(center, v0)))
    requires Abs(q.x - center.x) <= e.x && Abs(q.y - center.y) <= e.y && Abs(q.z - center.z) <= e.z
    ensures Dot(Cross(Sub(v1, v0), Sub(v2, v0)), Sub(q, v0)) >= 0.0
  {
    PlaneRejection(Cross(Sub(v1, v0), Sub(v2, v0)), center, e, v0, q);
  }

  lemma PlaneRejection(n: Vec3, center: Vec3, e: Vec3, v0: Vec3, q: Vec3)
    requires !(Abs(Dot(e, AbsVec(n))) > Dot(n, Sub(center, v0)))
    requires Abs(q.x - center.x) <= e.x && Abs(q.y - center.y) <= e.y && Abs(q.z - center.z) <= e.z
    ensures Dot(n, Sub(q, v0)) >= 0.0
  {
    PlaneSplit(n, q, center, v0);
    DotBelow(n, Sub(q, center), e);
  }

  lemma DotBelow(n: Vec3, w: Vec3, e: Vec3)
    requires Abs(w.x) <= e.x && Abs(w.y) <= e.y && Abs(w.z) <= e.z
    ensures -Dot(e, AbsVec(n)) <= Dot(n, w)
  {
    MulAbsBound(n.x, w.x, e.x);
    MulAbsBound(n.y, w.y, e.y);
    MulAbsBound(n.z, w.z, e.z);
    DotAboveSum(n, w, e);
  }

  lemma DotAboveSum(n: Vec3, w: Vec3, e: Vec3)
    requires -(e.x * Abs(n.x)) <= n.x * w.x && -(e.y * Abs(n.y)) <= n.y * w.y && -(e.z * Abs(n.z)) <= n.z * w.z
    ensures -Dot(e, AbsVec(n)) <= Dot(n, w)
  {
  }

  /**
   * The plane test is one-sided: once the bounding boxes overlap, a box
   * whose center lies on the side the normal points away from is always
   * kept, however far from the plane it is.
   */
  lemma PlaneTestOneSided(center: Vec3, e: Vec3, v0: Vec3, v1: Vec3, v2: Vec3)
    requires var top, bottom := Max(v0, Max(v1, v2)), Min(v0, Min(v1, v2));
             var center1 := Scale(Add(top, bottom), 0.5);
             var e1 := Sub(top, center1);
             AxisOverlap(center.x, e.x, center1.x, e1.x) && AxisOverlap(center.y, e.y, center1.y, e1.y)
             && AxisOverlap(center.z, e.z, center1.z, e1.z)
    requires Dot(Cross(Sub(v1, v0), Sub(v2, v0)), Sub(center, v0)) < 0.0
    ensures TriangleBoxOverlap(center, e, v0, v1, v2)
  {
  }

  /** A degenerate (zero-area) triangle is never kept, even when it lies inside the box. */
  lemma DegenerateTriangleRejected(center: Vec3, e: Vec3, v: Vec3)
    ensures !TriangleBoxOverlap(center, e, v, v, v)
  {
    assert Cross(Sub(v, v), Sub(v, v)) == Splat(0.0);
  }

  // ---------------------------------------------------------------------
  // The global test counters

  /** The global counters AABBIntersectionCount (src/AABB.h) and triangle_count (src/Triangle.h). */
  class Counters {
    var aabbTests: int
    var triangleTests: int

    constructor ()
      ensures aabbTests == 0 && triangleTests == 0
    {
      aabbTests := 0;
      triangleTests := 0;
    }

    /** The boolean slab test with its counter: one call, one increment. */
    method CountedSlabTest(lo: Vec3, hi: Vec3, ray: Ray) returns (hit: bool)
      modifies this
      ensures aabbTests == old(aabbTests) + 1 && triangleTests == old(triangleTests)
      ensures hit == SlabTest(lo, hi, ray)
    {
      aabbTests := aabbTests + 1;
      hit := SlabTest(lo, hi, ray);
    }

    /** Counts one triangle test (the increment at the top of Triangle::intersect). */
    method CountTriangleTest()
      modifies this
      ensures triangleTests == old(triangleTests) + 1 && aabbTests == old(aabbTests)
    {
      triangleTests := triangleTests + 1;
    }
  }
}
