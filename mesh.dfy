/**
 * TriangleMesh of src/TriangleMesh.h: the vertex, normal and texture
 * coordinate lists, the faces as 1-based index triples, the bounding box
 * recalc_bounding_box folds over the vertices, the BVH of one Triangle per
 * face that recalc_tree builds, and the index use in intersect.
 */
module Meshes {
  import opened Wrappers
  import opened Vectors
  import opened Geometry
  import opened Hits
  import opened Triangles
  import opened TriangleHits
  import opened Bvh
  import opened Materials

  /** The sentinel recalc_bounding_box starts from: 1e8 for the minimum, -1e8 for the maximum. */
  const Sentinel: real := 100000000.0

  /** The minimum corner after Vector3::min(vmin, v) over the vertices in order, starting from 1e8. */
  function LowerCorner(vs: seq<Vec3>): (r: Vec3)
    ensures forall k | 0 <= k < |vs| :: Le(r, vs[k])
    ensures Le(r, Splat(Sentinel))
  {
    if vs == [] then Splat(Sentinel) else Min(LowerCorner(vs[..|vs| - 1]), vs[|vs| - 1])
  }

  /** The maximum corner after Vector3::max(vmax, v) over the vertices in order, starting from -1e8. */
  function UpperCorner(vs: seq<Vec3>): (r: Vec3)
    ensures forall k | 0 <= k < |vs| :: Le(vs[k], r)
    ensures Le(Splat(-Sentinel), r)
  {
    if vs == [] then Splat(-Sentinel) else Max(UpperCorner(vs[..|vs| - 1]), vs[|vs| - 1])
  }

  /** Every coordinate of the vertices lies within the sentinels. */
  predicate WithinSentinels(vs: seq<Vec3>) {
    forall k | 0 <= k < |vs| :: Le(Splat(-Sentinel), vs[k]) && Le(vs[k], Splat(Sentinel))
  }

  /**
   * The box is tight: with at least one vertex and every coordinate within
   * the sentinels, each coordinate of the lower corner is that coordinate
   * of some vertex.
   */
  lemma {:induction false} LowerCornerAttained(vs: seq<Vec3>, axis: int)
    requires |vs| > 0 && WithinSentinels(vs)
    ensures exists k | 0 <= k < |vs| :: Index(LowerCorner(vs), axis) == Index(vs[k], axis)
  {
    var init, last := vs[..|vs| - 1], vs[|vs| - 1];
    if init == [] {
      assert Index(LowerCorner(vs), axis) == Index(vs[0], axis);
    } else {
      LowerCornerAttained(init, axis);
      var k :| 0 <= k < |init| && Index(LowerCorner(init), axis) == Index(init[k], axis);
      assert vs[k] == init[k];
      if Index(LowerCorner(vs), axis) != Index(last, axis) {
        assert Index(LowerCorner(vs), axis) == Index(vs[k], axis);
      }
    }
  }

  /** The mirror of LowerCornerAttained for the upper corner. */
  lemma {:induction false} UpperCornerAttained(vs: seq<Vec3>, axis: int)
    requires |vs| > 0 && WithinSentinels(vs)
    ensures exists k | 0 <= k < |vs| :: Index(UpperCorner(vs), axis) == Index(vs[k], axis)
  {
    var init, last := vs[..|vs| - 1], vs[|vs| - 1];
    if init == [] {
      assert Index(UpperCorner(vs), axis) == Index(vs[0], axis);
    } else {
      UpperCornerAttained(init, axis);
      var k :| 0 <= k < |init| && Index(UpperCorner(init), axis) == Index(init[k], axis);
      assert vs[k] == init[k];
      if Index(UpperCorner(vs), axis) != Index(last, axis) {
        assert Index(UpperCorner(vs), axis) == Index(vs[k], axis);
      }
    }
  }

  /** A face whose first three corners name vertices 1..n: what recalc_tree reads of it. */
  predicate FaceInRange(face: seq<int>, n: nat) {
    |face| >= 7 && 1 <= face[0] <= n && 1 <= face[3] <= n && 1 <= face[6] <= n
  }

  predicate FacesInRange(faces: seq<seq<int>>, n: nat) {
    forall i | 0 <= i < |faces| :: FaceInRange(faces[i], n)
  }

  /** The triangle recalc_tree makes of face i: its first three corners' vertices, face_index i. */
  function FaceTriangle(vs: seq<Vec3>, face: seq<int>, i: int): Triangle
    requires FaceInRange(face, |vs|)
  {
    Triangle(vs[face[0] - 1], vs[face[3] - 1], vs[face[6] - 1], i)
  }

  /** One triangle per face, in face order. */
  function FaceTriangles(vs: seq<Vec3>, faces: seq<seq<int>>): (tris: seq<Triangle>)
    requires FacesInRange(faces, |vs|)
    ensures |tris| == |faces|
  {
    seq(|faces|, i requires 0 <= i < |faces| => FaceTriangle(vs, faces[i], i))
  }

  /** The loop of recalc_tree: triangle i from the first three corners of face i, with face_index i. */
  method BuildTriangles(vs: seq<Vec3>, faces: seq<seq<int>>) returns (triangles: seq<Triangle>)
    requires FacesInRange(faces, |vs|)
    ensures triangles == FaceTriangles(vs, faces)
  {
    triangles := [];
    for i := 0 to |faces|
      invariant |triangles| == i
      invariant forall j | 0 <= j < i :: triangles[j] == FaceTriangle(vs, faces[j], j)
    {
      var face := faces[i];
      var tri := Triangle(vs[face[0] - 1], vs[face[3] - 1], vs[face[6] - 1], i);
      triangles := triangles + [tri];
    }
  }

  /** The record an accepting triangle leaves names that triangle's face. */
  lemma {:induction false} FoldNamesTestedFace(ps: seq<Triangle>, ray: Ray, h: RayHit)
    ensures var r := FoldHits(Triangles.Intersect, ps, ray, h);
            (!r.0 ==> r.1 == h)
            && (r.0 ==> exists k | 0 <= k < |ps| :: r.1.index == ps[k].faceIndex)
  {
    if ps != [] {
      var init := ps[..|ps| - 1];
      FoldNamesTestedFace(init, ray, h);
      var prev := FoldHits(Triangles.Intersect, init, ray, h);
      var step := Triangles.Intersect(ps[|ps| - 1], ray, prev.1);
      if !step.0 && prev.0 {
        var k :| 0 <= k < |init| && prev.1.index == init[k].faceIndex;
        assert ps[k] == init[k];
      }
    }
  }

  /** An answer folded over some of a mesh's face triangles: a miss leaves the record, a hit names a face and is closer. */
  lemma {:induction false} FoldOverFaces(vs: seq<Vec3>, faces: seq<seq<int>>, tested: seq<Triangle>, ray: Ray, h: RayHit)
    requires FacesInRange(faces, |vs|)
    requires forall t :: 0 <= t < |tested| ==> tested[t] in FaceTriangles(vs, faces)
    ensures var r := FoldHits(Triangles.Intersect, tested, ray, h);
            (!r.0 ==> r.1 == h) && (r.0 ==> 0 <= r.1.index < |faces| && r.1.distance < h.distance)
  {
    var r := FoldHits(Triangles.Intersect, tested, ray, h);
    TrianglesActAsCandidates(ray);
    FoldNamesTestedFace(tested, ray, h);
    FoldFindsNearest(Triangles.Intersect, Candidate, tested, ray, h);
    if r.0 {
      var k :| 0 <= k < |tested| && r.1.index == tested[k].faceIndex;
      var tris := FaceTriangles(vs, faces);
      var i :| 0 <= i < |tris| && tris[i] == tested[k];
    }
  }

  class TriangleMesh {
    var vertices: seq<Vec3>
    var normals: seq<Vec3>
    var texcoords: seq<Vec3>
    /** Each face lists v, vt, vn per corner, 1-based. */
    var faces: seq<seq<int>>
    /** Observable::mat. */
    var mat: Material
    /** Vector3 boundingBox[2]: the lower and the upper corner. */
    const boundingBox: array<Vec3>
    /** The BVH over the mesh's triangles; null until recalc_tree. */
    var tree: BVH?<Triangle>

    /** TriangleMesh(): empty lists, the default material and a zero box (Vector3() is 0). */
    constructor ()
      ensures vertices == [] && normals == [] && texcoords == [] && faces == [] && mat == Defaults
      ensures fresh(boundingBox) && boundingBox.Length == 2 && boundingBox[..] == [Splat(0.0), Splat(0.0)]
      ensures tree == null
    {
      vertices, normals, texcoords, faces := [], [], [], [];
      mat := Defaults;
      boundingBox := new Vec3[2](_ => Splat(0.0));
      tree := null;
    }

    /** recalc_bounding_box: the component-wise minimum and maximum of the vertices, from the sentinels. */
    method RecalcBoundingBox()
      requires boundingBox.Length == 2
      modifies boundingBox
      ensures boundingBox[0] == LowerCorner(vertices) && boundingBox[1] == UpperCorner(vertices)
      ensures BoxFresh()
    {
      var vmax := Splat(-Sentinel);
      var vmin := Splat(Sentinel);
      for i := 0 to |vertices|
        invariant vmin == LowerCorner(vertices[..i]) && vmax == UpperCorner(vertices[..i])
      {
        assert vertices[..i + 1][..i] == vertices[..i];
        vmax := Max(vmax, vertices[i]);
        vmin := Min(vmin, vertices[i]);
      }
      assert vertices[..|vertices|] == vertices;
      boundingBox[0] := vmin;
      boundingBox[1] := vmax;
    }

    /** The box is the one recalc_bounding_box computes from the current vertices. */
    predicate BoxFresh()
      requires boundingBox.Length == 2
      reads this, boundingBox
    {
      boundingBox[0] == LowerCorner(vertices) && boundingBox[1] == UpperCorner(vertices)
    }

    /**
     * max_vertex: the upper corner of the box; once the box is fresh it is
     * above every vertex, and with any vertex at all it is not below the
     * lower corner.
     */
    function MaxVertex(): (v: Vec3)
      requires boundingBox.Length == 2
      reads this, boundingBox
      ensures BoxFresh() ==> forall k | 0 <= k < |vertices| :: Le(vertices[k], v)
      ensures BoxFresh() && |vertices| > 0 ==> Le(boundingBox[0], v)
    {
      boundingBox[1]
    }

    /**
     * min_vertex: the lower corner of the box; once the box is fresh it is
     * below every vertex, and with any vertex at all it is not above the
     * upper corner.
     */
    function MinVertex(): (v: Vec3)
      requires boundingBox.Length == 2
      reads this, boundingBox
      ensures BoxFresh() ==> forall k | 0 <= k < |vertices| :: Le(v, vertices[k])
      ensures BoxFresh() && |vertices| > 0 ==> Le(v, boundingBox[1])
    {
      boundingBox[0]
    }

    /** centroid: the midpoint of the box, inside it whenever the box is not inverted. */
    function Centroid(): (c: Vec3)
      requires boundingBox.Length == 2
      reads this, boundingBox
      ensures Le(MinVertex(), MaxVertex()) ==> Le(MinVertex(), c) && Le(c, MaxVertex())
      ensures BoxFresh() && |vertices| > 0 ==> Le(MinVertex(), c) && Le(c, MaxVertex())
    {
      Scale(Add(boundingBox[1], boundingBox[0]), 0.5)
    }

    /** The tree holds exactly the mesh's face triangles and is ready to be searched. */
    ghost predicate TreeBuilt()
      reads this, tree, if tree != null then {tree.nodes, tree.indices} else {}
    {
      tree != null && tree.Valid() && FacesInRange(faces, |vertices|)
      && tree.prims == FaceTriangles(vertices, faces)
      && tree.centroidOf == Triangles.Centroid && tree.minOf == Triangles.MinVertex
      && tree.maxOf == Triangles.MaxVertex
    }

    /**
     * recalc_tree: one Triangle per face, triangle i with face_index i and
     * the vertices of the face's first three corners, all in one BVH. The
     * BVH needs at least one triangle.
     */
    method RecalcTree()
      requires |faces| >= 1 && FacesInRange(faces, |vertices|)
      modifies this
      ensures vertices == old(vertices) && normals == old(normals) && texcoords == old(texcoords)
      ensures faces == old(faces) && mat == old(mat)
      ensures TreeBuilt() && fresh(tree) && fresh(tree.nodes) && fresh(tree.indices)
      ensures |tree.prims| == |faces|
      ensures forall i | 0 <= i < |faces| ::
                tree.prims[i] == Triangle(vertices[faces[i][0] - 1], vertices[faces[i][3] - 1],
                                          vertices[faces[i][6] - 1], i)
    {
      var triangles := BuildTriangles(vertices, faces);
      tree := new BVH(triangles, Triangles.Centroid, Triangles.MinVertex, Triangles.MaxVertex);
    }

    /**
     * intersect: the tree's answer; on a miss the record is untouched, on a
     * hit its index names one of the mesh's faces, which is looked up, and
     * the point is set on the ray. On rays whose direction has no zero
     * coordinate the distance is the nearest triangle hit below the
     * record's.
     */
    method Intersect(ray: Ray, inter: RayHit) returns (hit: bool, r: RayHit)
      requires TreeBuilt()
      ensures !hit ==> r == inter
      ensures hit ==> 0 <= r.index < |faces| && r.point == PointAt(ray, r.distance) && r.distance < inter.distance
      ensures ProperInverse(ray) ==> r.distance == Nearest(Candidate, tree.prims, ray, inter.distance)
    {
      ghost var tested, seen, deepest;
      hit, r, tested, seen, deepest := tree.Intersect(Triangles.Intersect, Candidate, ray, inter);
      FoldOverFaces(vertices, faces, tested, ray, inter);
      if ProperInverse(ray) {
        TrianglesActAsCandidates(ray);
        TriangleBoundsSound(ray);
      }
      if !hit {
        return;
      }
      r := r.(point := PointAt(ray, r.distance));
      var face := faces[r.index];
    }
  }
}
