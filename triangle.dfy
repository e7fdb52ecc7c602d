/** The triangle primitive of src/Triangle.h and its Moller-Trumbore ray test. */
module Triangles {
  import opened Wrappers
  import opened Vectors
  import opened Geometry

  /** A triangle with the index of the mesh face it came from. */
  datatype Triangle = Triangle(v0: Vec3, v1: Vec3, v2: Vec3, faceIndex: int)

  /** EPSILON of src/Vector.h: hits closer than this to the origin are ignored. */
  const Epsilon: real := 0.00001

  /** Triangle::max_vertex: the upper corner of the triangle's bounding box. */
  function MaxVertex(tri: Triangle): (r: Vec3)
    ensures Le(tri.v0, r) && Le(tri.v1, r) && Le(tri.v2, r)
  {
    Max(tri.v0, Max(tri.v1, tri.v2))
  }

  /** Triangle::min_vertex: the lower corner of the triangle's bounding box. */
  function MinVertex(tri: Triangle): (r: Vec3)
    ensures Le(r, tri.v0) && Le(r, tri.v1) && Le(r, tri.v2)
  {
    Min(tri.v0, Min(tri.v1, tri.v2))
  }

  /** The bounding box corners are each some vertex's coordinate: the box is the tightest one. */
  lemma BoundsAreTight(tri: Triangle)
    ensures var lo, hi := MinVertex(tri), MaxVertex(tri);
            (lo.x == tri.v0.x || lo.x == tri.v1.x || lo.x == tri.v2.x)
            && (hi.x == tri.v0.x || hi.x == tri.v1.x || hi.x == tri.v2.x)
            && (lo.y == tri.v0.y || lo.y == tri.v1.y || lo.y == tri.v2.y)
            && (hi.y == tri.v0.y || hi.y == tri.v1.y || hi.y == tri.v2.y)
            && (lo.z == tri.v0.z || lo.z == tri.v1.z || lo.z == tri.v2.z)
            && (hi.z == tri.v0.z || hi.z == tri.v1.z || hi.z == tri.v2.z)
  {
  }

  /** Triangle::centroid: the vertex average, multiplied by 1/3 as operator/ does. */
  function Centroid(tri: Triangle): (c: Vec3)
    ensures Le(MinVertex(tri), c) && Le(c, MaxVertex(tri))
  {
    var c := Scale(Add(Add(tri.v0, tri.v1), tri.v2), 1.0 / 3.0);
    AverageBetween(tri.v0.x, tri.v1.x, tri.v2.x, MinVertex(tri).x, MaxVertex(tri).x);
    AverageBetween(tri.v0.y, tri.v1.y, tri.v2.y, MinVertex(tri).y, MaxVertex(tri).y);
    AverageBetween(tri.v0.z, tri.v1.z, tri.v2.z, MinVertex(tri).z, MaxVertex(tri).z);
    c
  }

  lemma AverageBetween(a: real, b: real, c: real, lo: real, hi: real)
    requires lo <= a <= hi && lo <= b <= hi && lo <= c <= hi
    ensures lo <= (a + b + c) * (1.0 / 3.0) <= hi
  {
  }

  /** Barycentric weights of the two non-origin vertices and the ray parameter. */
  datatype Solution = Solution(u: real, v: real, t: real)

  /**
   * The four dot products of Moller-Trumbore: det = v0v1 . pvec, and the
   * numerators of u (tvec . pvec), v (direction . qvec) and t (v0v2 . qvec),
   * with pvec = direction x v0v2, tvec = origin - v0, qvec = tvec x v0v1.
   */
  datatype Products = Products(det: real, uNum: real, vNum: real, tNum: real)

  function ProductsOf(tri: Triangle, ray: Ray): Products {
    MtProducts(Sub(ray.origin, tri.v0), ray.direction, Sub(tri.v1, tri.v0), Sub(tri.v2, tri.v0))
  }

  /** The products for tvec, direction, v0v1 and v0v2. */
  function MtProducts(tvec: Vec3, d: Vec3, v0v1: Vec3, v0v2: Vec3): Products {
    var pvec := Cross(d, v0v2);
    var qvec := Cross(tvec, v0v1);
    Products(Dot(v0v1, pvec), Dot(tvec, pvec), Dot(d, qvec), Dot(v0v2, qvec))
  }

  /**
   * The Moller-Trumbore computation up to the parameter t, with its two
   * early rejections (u outside [0, 1]; v < 0 or u + v > 1). A zero
   * determinant is a rejection: in the source 1/det is an infinity or a NaN
   * there and every later comparison fails.
   */
  function Solve(tri: Triangle, ray: Ray): (r: Option<Solution>)
    ensures r.Some? ==> 0.0 <= r.value.u && 0.0 <= r.value.v && r.value.u + r.value.v <= 1.0
  {
    var m := ProductsOf(tri, ray);
    if m.det == 0.0 then None
    else
      var invdet := 1.0 / m.det;
      var u := m.uNum * invdet;
      if u < 0.0 || u > 1.0 then None
      else
        var v := m.vNum * invdet;
        if v < 0.0 || u + v > 1.0 then None
        else Some(Solution(u, v, m.tNum * invdet))
  }

  /** The distance at which the triangle would be accepted when nothing nearer is known. */
  function Candidate(tri: Triangle, ray: Ray): (r: Option<real>)
    ensures r.Some? ==> r.value > Epsilon
  {
    match Solve(tri, ray)
    case None => None
    case Some(s) => if s.t > Epsilon then Some(s.t) else None
  }

  /**
   * Triangle::intersect: the hit record is updated (distance, face index
   * and the barycentric hu, hv) exactly when the triangle is hit beyond
   * EPSILON and nearer than the record's distance; otherwise it is
   * returned unchanged. The point, normal and texture u, v are never written.
   */
  function Intersect(tri: Triangle, ray: Ray, inter: RayHit): (res: (bool, RayHit))
    ensures res.0 <==> Candidate(tri, ray).Some? && Candidate(tri, ray).value < inter.distance
    ensures res.0 ==> res.1.distance == Candidate(tri, ray).value && res.1.index == tri.faceIndex
    ensures res.0 ==>
              Solve(tri, ray).Some?
              && res.1 == inter.(distance := Candidate(tri, ray).value, index := tri.faceIndex,
                                 hu := Solve(tri, ray).value.u, hv := Solve(tri, ray).value.v)
    ensures res.0 ==> 0.0 <= res.1.hu && 0.0 <= res.1.hv && res.1.hu + res.1.hv <= 1.0
    ensures res.1.point == inter.point && res.1.normal == inter.normal && res.1.u == inter.u && res.1.v == inter.v
    ensures !res.0 ==> res.1 == inter
  {
    match Solve(tri, ray)
    case None => (false, inter)
    case Some(s) =>
      if s.t > Epsilon && s.t < inter.distance then
        (true, inter.(distance := s.t, index := tri.faceIndex, hu := s.u, hv := s.v))
      else (false, inter)
  }

  /** A hit only ever brings the recorded distance closer. */
  lemma IntersectTightens(tri: Triangle, ray: Ray, inter: RayHit)
    ensures Intersect(tri, ray, inter).1.distance <= inter.distance
    ensures Intersect(tri, ray, inter).0 ==> Intersect(tri, ray, inter).1.distance < inter.distance
  {
  }

  /** One coordinate of the weighted vertex sum (1 - u - v) a + u b + v c. */
  function BarycentricAxis(a: real, b: real, c: real, u: real, v: real): real {
    a * (1.0 - u - v) + b * u + c * v
  }

  /** The weighted vertex sum (1 - u - v) v0 + u v1 + v v2. */
  function Barycentric(tri: Triangle, u: real, v: real): Vec3 {
    Vec3(BarycentricAxis(tri.v0.x, tri.v1.x, tri.v2.x, u, v),
         BarycentricAxis(tri.v0.y, tri.v1.y, tri.v2.y, u, v),
         BarycentricAxis(tri.v0.z, tri.v1.z, tri.v2.z, u, v))
  }

  /**
   * The Cramer's-rule identity behind Moller-Trumbore, multiplied out by the
   * determinant: det (s + t d) = (s . p) e1 + (d . q) e2 per coordinate.
   */
  lemma CramerAxis(sx: real, sy: real, sz: real, dx: real, dy: real, dz: real,
                   ax: real, ay: real, az: real, fx: real, fy: real, fz: real)
    ensures var px, py, pz := dy * fz - dz * fy, dz * fx - dx * fz, dx * fy - dy * fx;
            var qx, qy, qz := sy * az - sz * ay, sz * ax - sx * az, sx * ay - sy * ax;
            var det := ax * px + ay * py + az * pz;
            var su, dv, et := sx * px + sy * py + sz * pz, dx * qx + dy * qy + dz * qz, fx * qx + fy * qy + fz * qz;
            det * sx + et * dx == su * ax + dv * fx
            && det * sy + et * dy == su * ay + dv * fy
            && det * sz + et * dz == su * az + dv * fz
  {
  }

  /**
   * The point the ray reaches at the computed parameter is the barycentric
   * combination of the vertices with the computed weights: it lies on the
   * triangle.
   */
  lemma SolutionOnTriangle(tri: Triangle, ray: Ray)
    requires Solve(tri, ray).Some?
    ensures var s := Solve(tri, ray).value;
            PointAt(ray, s.t) == Barycentric(tri, s.u, s.v)
  {
    var m := ProductsOf(tri, ray);
    var s := Solve(tri, ray).value;
    var e1, e2 := Sub(tri.v1, tri.v0), Sub(tri.v2, tri.v0);
    var d, sv := ray.direction, Sub(ray.origin, tri.v0);
    CramerIdentity(sv, d, e1, e2);
    ScaledIdentity(m.det, sv, d, e1, e2, m.uNum, m.vNum, m.tNum, s.u, s.v, s.t);
    OnTriangleFromIdentity(tri, ray, s.u, s.v, s.t);
  }

  lemma CramerIdentity(sv: Vec3, d: Vec3, e1: Vec3, e2: Vec3)
    ensures var m := MtProducts(sv, d, e1, e2);
            m.det * sv.x + m.tNum * d.x == m.uNum * e1.x + m.vNum * e2.x
            && m.det * sv.y + m.tNum * d.y == m.uNum * e1.y + m.vNum * e2.y
            && m.det * sv.z + m.tNum * d.z == m.uNum * e1.z + m.vNum * e2.z
  {
    CramerAxis(sv.x, sv.y, sv.z, d.x, d.y, d.z, e1.x, e1.y, e1.z, e2.x, e2.y, e2.z);
  }

  lemma OnTriangleFromIdentity(tri: Triangle, ray: Ray, u: real, v: real, t: real)
    requires Add(Sub(ray.origin, tri.v0), Scale(ray.direction, t))
          == Add(Scale(Sub(tri.v1, tri.v0), u), Scale(Sub(tri.v2, tri.v0), v))
    ensures PointAt(ray, t) == Barycentric(tri, u, v)
  {
    var o, d := ray.origin, ray.direction;
    AxisAffine(o.x, d.x * t, tri.v0.x, tri.v1.x, tri.v2.x, u, v);
    AxisAffine(o.y, d.y * t, tri.v0.y, tri.v1.y, tri.v2.y, u, v);
    AxisAffine(o.z, d.z * t, tri.v0.z, tri.v1.z, tri.v2.z, u, v);
  }

  lemma AxisAffine(o: real, dt: real, a: real, b: real, c: real, u: real, v: real)
    requires (o - a) + dt == (b - a) * u + (c - a) * v
    ensures o + dt == BarycentricAxis(a, b, c, u, v)
  {
  }

  /** Dividing the multiplied-out identity by a non-zero determinant. */
  lemma ScaledIdentity(det: real, sv: Vec3, d: Vec3, e1: Vec3, e2: Vec3, su: real, dv: real, et: real,
                       u: real, v: real, t: real)
    requires det != 0.0
    requires u == su * (1.0 / det) && v == dv * (1.0 / det) && t == et * (1.0 / det)
    requires det * sv.x + et * d.x == su * e1.x + dv * e2.x
    requires det * sv.y + et * d.y == su * e1.y + dv * e2.y
    requires det * sv.z + et * d.z == su * e1.z + dv * e2.z
    ensures Add(sv, Scale(d, t)) == Add(Scale(e1, u), Scale(e2, v))
  {
    DivideAxis(det, sv.x, d.x, e1.x, e2.x, su, dv, et, u, v, t);
    DivideAxis(det, sv.y, d.y, e1.y, e2.y, su, dv, et, u, v, t);
    DivideAxis(det, sv.z, d.z, e1.z, e2.z, su, dv, et, u, v, t);
  }

  lemma DivideAxis(det: real, s: real, d: real, a: real, b: real, su: real, dv: real, et: real,
                   u: real, v: real, t: real)
    requires det != 0.0
    requires u == su * (1.0 / det) && v == dv * (1.0 / det) && t == et * (1.0 / det)
    requires det * s + et * d == su * a + dv * b
    ensures s + d * t == a * u + b * v
  {
    var k := 1.0 / det;
    assert det * k == 1.0;
    assert (det * s + et * d) * k == (su * a + dv * b) * k;
    assert (det * s) * k == s * (det * k) == s;
  }

  lemma WeightedBelow(w0: real, w1: real, w2: real, a: real, b: real, c: real, m: real)
    requires w0 >= 0.0 && w1 >= 0.0 && w2 >= 0.0 && w0 + w1 + w2 == 1.0
    requires a <= m && b <= m && c <= m
    ensures a * w0 + b * w1 + c * w2 <= m
  {
    var x, y, z := a * w0, b * w1, c * w2;
    assert x <= m * w0 && y <= m * w1 && z <= m * w2;
    assert m * w0 + m * w1 + m * w2 == m;
  }

  lemma WeightedAbove(w0: real, w1: real, w2: real, a: real, b: real, c: real, m: real)
    requires w0 >= 0.0 && w1 >= 0.0 && w2 >= 0.0 && w0 + w1 + w2 == 1.0
    requires a >= m && b >= m && c >= m
    ensures a * w0 + b * w1 + c * w2 >= m
  {
    var x, y, z := a * w0, b * w1, c * w2;
    assert x >= m * w0 && y >= m * w1 && z >= m * w2;
    assert m * w0 + m * w1 + m * w2 == m;
  }

  /** A barycentric combination with weights in range stays in the triangle's bounding box. */
  lemma BarycentricInBounds(tri: Triangle, u: real, v: real)
    requires 0.0 <= u && 0.0 <= v && u + v <= 1.0
    ensures ContainsPoint(Box(MinVertex(tri), MaxVertex(tri)), Barycentric(tri, u, v))
  {
    var lo, hi := MinVertex(tri), MaxVertex(tri);
    AxisInBounds(u, v, tri.v0.x, tri.v1.x, tri.v2.x, lo.x, hi.x);
    AxisInBounds(u, v, tri.v0.y, tri.v1.y, tri.v2.y, lo.y, hi.y);
    AxisInBounds(u, v, tri.v0.z, tri.v1.z, tri.v2.z, lo.z, hi.z);
  }

  lemma AxisInBounds(u: real, v: real, a: real, b: real, c: real, lo: real, hi: real)
    requires 0.0 <= u && 0.0 <= v && u + v <= 1.0
    requires lo <= a <= hi && lo <= b <= hi && lo <= c <= hi
    ensures lo <= BarycentricAxis(a, b, c, u, v) <= hi
  {
    WeightedBelow(1.0 - u - v, u, v, a, b, c, hi);
    WeightedAbove(1.0 - u - v, u, v, a, b, c, lo);
  }

  /** The accepted hit point lies inside the triangle's bounding box. */
  lemma CandidateInBounds(tri: Triangle, ray: Ray)
    requires Candidate(tri, ray).Some?
    ensures ContainsPoint(Box(MinVertex(tri), MaxVertex(tri)), PointAt(ray, Candidate(tri, ray).value))
  {
    var s := Solve(tri, ray).value;
    SolutionOnTriangle(tri, ray);
    BarycentricInBounds(tri, s.u, s.v);
  }

  /**
   * A box that covers the triangle is entered no later than the triangle is
   * hit, for rays whose direction has no zero coordinate: this is what lets
   * the BVH skip a box entered beyond the best distance.
   */
  lemma BoxEnteredBeforeTriangle(tri: Triangle, ray: Ray, b: Box)
    requires ProperInverse(ray) && Candidate(tri, ray).Some?
    requires Encloses(b, MinVertex(tri), MaxVertex(tri))
    ensures EntryDistance(b, ray).At? && EntryDistance(b, ray).t <= Candidate(tri, ray).value
  {
    var t := Candidate(tri, ray).value;
    CandidateInBounds(tri, ray);
    EntryBeforeHit(b, ray, t);
  }
}
