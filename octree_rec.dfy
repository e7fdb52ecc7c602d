/**
 * The octree of src/OctreeRec.h, which stores triangles in its nodes:
 * insertion into the bottom level, the pruned nearest-hit query against a
 * shared hit record, and the Octree wrapper that builds a tree over a
 * mesh's bounding box, inserts one triangle per face and culls it. The
 * mesh compiles this tree out (BUILD_OCTREE 0 in src/TriangleMesh.h).
 */
module OctreeRec {
  import opened Vectors
  import opened Geometry
  import opened Hits
  import opened Triangles
  import opened TriangleHits
  import opened Meshes
  import opened Octants

  /** An OctreeNode: a cell whose faces are triangles. */
  type Node = Cell<Triangle>

  /** AABBIntersection(center, extents, tri): the box-triangle test of src/AABB.h against the node. */
  predicate Overlaps(n: Node, tri: Triangle) {
    TriangleBoxOverlap(n.center, n.extents, tri.v0, tri.v1, tri.v2)
  }

  // ---------------------------------------------------------------------
  // insert

  /**
   * OctreeNode::insert(tri, depth): a node the triangle does not overlap
   * is left alone; at depth 1 or less an overlapping triangle is stored in
   * the node and the answer is true; deeper, it is passed to every child
   * with depth - 1, and the answer is false.
   */
  function Insert(n: Node, tri: Triangle, depth: nat): (Node, bool)
    decreases n, 1
  {
    if !Overlaps(n, tri) then (n, false)
    else if depth <= 1 then (n.(faces := n.faces + [tri]), true)
    else (n.(children := InsertAll(n.children, tri, depth - 1)), false)
  }

  /** Each tree of cs after inserting the triangle into it. */
  function InsertAll(cs: seq<Node>, tri: Triangle, depth: nat): (r: seq<Node>)
    ensures |r| == |cs|
    decreases cs, 0
  {
    seq(|cs|, i requires 0 <= i < |cs| => Insert(cs[i], tri, depth).0)
  }

  /** The insert method. */
  method InsertTree(n: Node, tri: Triangle, depth: nat) returns (r: Node, stored: bool)
    ensures (r, stored) == Insert(n, tri, depth)
    decreases n, 1
  {
    if depth <= 1 && Overlaps(n, tri) {
      return n.(faces := n.faces + [tri]), true;
    }
    r, stored := n, false;
    if Overlaps(n, tri) {
      var children := InsertChildren(n.children, tri, depth - 1);
      r := n.(children := children);
    }
  }

  /** for (OctreeNode& child: children) child.insert(tri, depth): each tree of cs updated in place. */
  method InsertChildren(cs: seq<Node>, tri: Triangle, depth: nat) returns (children: seq<Node>)
    ensures children == InsertAll(cs, tri, depth)
    decreases cs, 0
  {
    children := cs;
    var i := 0;
    while i < |children|
      invariant 0 <= i <= |children| == |cs|
      invariant forall k | 0 <= k < i :: children[k] == Insert(cs[k], tri, depth).0
      invariant forall k | i <= k < |cs| :: children[k] == cs[k]
    {
      var child, stored := InsertTree(cs[i], tri, depth);
      children := children[i := child];
      i := i + 1;
    }
  }

  /**
   * Inserting into a complete tree of height h with depth h + 1, as the
   * Octree constructor does for the root's children, keeps the tree's
   * shape and subdivision and lands the triangle only in bottom-level
   * nodes, each of which gains it at most once: every node keeps its
   * faces or gains the triangle at their end.
   */
  lemma {:induction false} InsertFacts(n: Node, tri: Triangle, h: nat)
    requires Complete(n, h) && FacesInLeaves(n)
    ensures var r := Insert(n, tri, h + 1).0;
            Complete(r, h) && FacesInLeaves(r) && Grown(n, r, tri)
            && (Subdivided(n) ==> Subdivided(r))
    decreases n
  {
    var r := Insert(n, tri, h + 1).0;
    if h > 0 && Overlaps(n, tri) {
      forall i | 0 <= i < 8
        ensures Complete(r.children[i], h - 1) && FacesInLeaves(r.children[i]) && Grown(n.children[i], r.children[i], tri)
        ensures Subdivided(n.children[i]) ==> Subdivided(r.children[i])
      {
        assert r.children[i] == Insert(n.children[i], tri, h).0;
        InsertFacts(n.children[i], tri, h - 1);
      }
      assert Complete(r, h);
      assert FacesInLeaves(r);
      assert Grown(n, r, tri);
      if Subdivided(n) {
        assert forall i | 0 <= i < 8 :: r.children[i].box == n.children[i].box && Subdivided(r.children[i]);
      }
    } else if !Overlaps(n, tri) {
      GrownSelf(n, tri);
    }
  }

  /** A tree is a grown form of itself. */
  lemma {:induction false} GrownSelf(n: Node, tri: Triangle)
    ensures Grown(n, n, tri)
    decreases n
  {
    forall i | 0 <= i < |n.children|
      ensures Grown(n.children[i], n.children[i], tri)
    {
      GrownSelf(n.children[i], tri);
    }
  }

  /**
   * b is a with the triangle possibly added at the end of some nodes'
   * faces: same corners, centre, extents and children count, node by node.
   */
  predicate Grown(a: Node, b: Node, tri: Triangle)
    decreases a
  {
    b.box == a.box && b.center == a.center && b.extents == a.extents
    && (b.faces == a.faces || b.faces == a.faces + [tri])
    && |b.children| == |a.children|
    && forall i | 0 <= i < |a.children| :: Grown(a.children[i], b.children[i], tri)
  }

  /** Every triangle stored in a grown tree was stored before or is the inserted one. */
  lemma {:induction false} GrownFaces(a: Node, b: Node, tri: Triangle)
    requires Grown(a, b, tri)
    ensures forall t | t in AllFaces(b) :: t in AllFaces(a) || t == tri
    decreases a, 1
  {
    GrownFacesOf(a.children, b.children, tri);
  }

  lemma {:induction false} GrownFacesOf(as_: seq<Node>, bs: seq<Node>, tri: Triangle)
    requires |as_| == |bs| && forall i | 0 <= i < |as_| :: Grown(as_[i], bs[i], tri)
    ensures forall t | t in FacesOf(bs) :: t in FacesOf(as_) || t == tri
    decreases as_, 0
  {
    if |as_| > 0 {
      var k := |as_| - 1;
      GrownFacesOf(as_[..k], bs[..k], tri);
      GrownFaces(as_[k], bs[k], tri);
    }
  }

  // ---------------------------------------------------------------------
  // intersection

  /**
   * OctreeNode::intersection: a node whose box is missed, or entered no
   * nearer than the record's distance, is skipped; a node without children
   * tests its triangles in order against the record; otherwise every child
   * is queried in order. The answer is the OR of the answers.
   */
  function Intersection(n: Node, ray: Ray, inter: RayHit): (bool, RayHit)
    decreases n, 1
  {
    var e := EntryDistance(n.box, ray);
    if e.Miss? || !(e.t < inter.distance) then (false, inter)
    else if |n.children| == 0 then FoldHits(Triangles.Intersect, n.faces, ray, inter)
    else ChildrenIntersection(n.children, ray, inter)
  }

  /** hit |= node.intersection(ray, inter) over the trees of cs, in order, with one shared record. */
  function ChildrenIntersection(cs: seq<Node>, ray: Ray, inter: RayHit): (bool, RayHit)
    decreases cs, 0
  {
    if |cs| == 0 then (false, inter)
    else
      var prev := ChildrenIntersection(cs[..|cs| - 1], ray, inter);
      var step := Intersection(cs[|cs| - 1], ray, prev.1);
      (prev.0 || step.0, step.1)
  }

  /** The triangles a query tests, in the order it tests them. */
  ghost function Tested(n: Node, ray: Ray, inter: RayHit): seq<Triangle>
    decreases n, 1
  {
    var e := EntryDistance(n.box, ray);
    if e.Miss? || !(e.t < inter.distance) then []
    else if |n.children| == 0 then n.faces
    else TestedAll(n.children, ray, inter)
  }

  ghost function TestedAll(cs: seq<Node>, ray: Ray, inter: RayHit): seq<Triangle>
    decreases cs, 0
  {
    if |cs| == 0 then []
    else
      var prev := ChildrenIntersection(cs[..|cs| - 1], ray, inter);
      TestedAll(cs[..|cs| - 1], ray, inter) + Tested(cs[|cs| - 1], ray, prev.1)
  }

  /**
   * The query is the plain fold of Triangle::intersect over the triangles
   * it tests, and those are stored triangles, each tested no more often
   * than it is stored.
   */
  lemma {:induction false} IntersectionFolds(n: Node, ray: Ray, inter: RayHit)
    ensures Intersection(n, ray, inter) == FoldHits(Triangles.Intersect, Tested(n, ray, inter), ray, inter)
    ensures multiset(Tested(n, ray, inter)) <= multiset(AllFaces(n))
    decreases n, 1
  {
    var e := EntryDistance(n.box, ray);
    if e.At? && e.t < inter.distance {
      if |n.children| == 0 {
        assert AllFaces(n) == n.faces;
      } else {
        ChildrenFold(n.children, ray, inter);
      }
    }
  }

  lemma {:induction false} ChildrenFold(cs: seq<Node>, ray: Ray, inter: RayHit)
    ensures ChildrenIntersection(cs, ray, inter) == FoldHits(Triangles.Intersect, TestedAll(cs, ray, inter), ray, inter)
    ensures multiset(TestedAll(cs, ray, inter)) <= multiset(FacesOf(cs))
    decreases cs, 0
  {
    if |cs| > 0 {
      var init, last := cs[..|cs| - 1], cs[|cs| - 1];
      ChildrenFold(init, ray, inter);
      var prev := ChildrenIntersection(init, ray, inter);
      IntersectionFolds(last, ray, prev.1);
      FoldAppend(Triangles.Intersect, TestedAll(init, ray, inter), Tested(last, ray, prev.1), ray, inter);
    }
  }

  /**
   * The query finds the nearest hit among the triangles it tests: the
   * final distance is their brute-force nearest below the starting
   * distance, the answer says whether that is nearer than the start, and
   * a query that answers false leaves the record as it was.
   */
  lemma NodeFindsNearestTested(n: Node, ray: Ray, inter: RayHit)
    ensures var r := Intersection(n, ray, inter);
            var d := Nearest(Candidate, Tested(n, ray, inter), ray, inter.distance);
            r.1.distance == d && (r.0 <==> d < inter.distance) && (!r.0 ==> r.1 == inter)
  {
    IntersectionFolds(n, ray, inter);
    TrianglesActAsCandidates(ray);
    FoldFindsNearest(Triangles.Intersect, Candidate, Tested(n, ray, inter), ray, inter);
  }

  /** The intersection method: the loop over the triangles of a leaf, or over the children. */
  method NodeIntersection(n: Node, ray: Ray, inter: RayHit) returns (hit: bool, r: RayHit)
    ensures (hit, r) == Intersection(n, ray, inter)
    decreases n
  {
    hit, r := false, inter;
    var t := EntryDistance(n.box, ray);
    if t.At? && t.t < inter.distance {
      if |n.children| == 0 {
        var i := 0;
        while i < |n.faces|
          invariant 0 <= i <= |n.faces|
          invariant (hit, r) == FoldHits(Triangles.Intersect, n.faces[..i], ray, inter)
        {
          var step := Triangles.Intersect(n.faces[i], ray, r);
          assert n.faces[..i + 1][..i] == n.faces[..i];
          hit, r := hit || step.0, step.1;
          i := i + 1;
        }
        assert n.faces[..i] == n.faces;
        return;
      }
      var i := 0;
      while i < |n.children|
        invariant 0 <= i <= |n.children|
        invariant (hit, r) == ChildrenIntersection(n.children[..i], ray, inter)
      {
        var childHit, next := NodeIntersection(n.children[i], ray, r);
        assert n.children[..i + 1][..i] == n.children[..i];
        hit, r := hit || childHit, next;
        i := i + 1;
      }
      assert n.children[..i] == n.children;
    }
  }

  // ---------------------------------------------------------------------
  // The Octree wrapper

  /** struct Octree: its depth, its copy of the vertices and its root. */
  datatype Octree = Octree(depth: nat, vertices: seq<Vec3>, root: Node)

  /** The root after the first k faces are inserted into each of its children with the tree's depth. */
  function FillFaces(root: Node, vs: seq<Vec3>, faces: seq<seq<int>>, depth: nat, k: nat): Node
    requires k <= |faces| && FacesInRange(faces, |vs|)
  {
    if k == 0 then root
    else
      var prev := FillFaces(root, vs, faces, depth, k - 1);
      prev.(children := InsertAll(prev.children, FaceTriangle(vs, faces[k - 1], k - 1), depth))
  }

  /** The root the constructor leaves: built to the depth, filled with every face, culled. */
  function Filled(lo: Vec3, hi: Vec3, faces: seq<seq<int>>, vs: seq<Vec3>, depth: nat): Node
    requires FacesInRange(faces, |vs|)
  {
    Cull(FillFaces(Build(NewCell(lo, hi), depth), vs, faces, depth, |faces|)).0
  }

  /**
   * Octree(boundingBox, faces, vertices, depth): a root over the bounding
   * box built to the depth; for each face in order, its triangle (the
   * vertices of corners 0, 3 and 6, face index i) is inserted into every
   * child of the root; then the root is culled.
   */
  method NewOctree(lo: Vec3, hi: Vec3, faces: seq<seq<int>>, vertices: seq<Vec3>, depth: nat) returns (t: Octree)
    requires FacesInRange(faces, |vertices|)
    ensures t == Octree(depth, vertices, Filled(lo, hi, faces, vertices, depth))
  {
    var root := BuildTree(NewCell(lo, hi), depth);
    ghost var built := root;
    var i := 0;
    while i < |faces|
      invariant 0 <= i <= |faces|
      invariant root == FillFaces(built, vertices, faces, depth, i)
    {
      var face := faces[i];
      var tri := Triangle(vertices[face[0] - 1], vertices[face[3] - 1], vertices[face[6] - 1], i);
      assert tri == FaceTriangle(vertices, faces[i], i);
      var children := InsertChildren(root.children, tri, depth);
      root := root.(children := children);
      i := i + 1;
    }
    var empty;
    root, empty := CullTree(root);
    t := Octree(depth, vertices, root);
  }

  /** The shape the root keeps while it is filled. */
  predicate RootShape(root: Node, lo: Vec3, hi: Vec3, depth: nat) {
    Complete(root, depth) && Subdivided(root) && FacesInLeaves(root) && root.faces == [] && root.box == Box(lo, hi)
  }

  /**
   * Inserting one triangle into every child of a filled root keeps its
   * shape, and the root grows by that triangle only.
   */
  lemma {:induction false} FillStep(prev: Node, tri: Triangle, lo: Vec3, hi: Vec3, depth: nat)
    requires RootShape(prev, lo, hi, depth)
    ensures var root := prev.(children := InsertAll(prev.children, tri, depth));
            RootShape(root, lo, hi, depth) && Grown(prev, root, tri)
  {
    var root := prev.(children := InsertAll(prev.children, tri, depth));
    if depth > 0 {
      forall c | 0 <= c < 8
        ensures Complete(root.children[c], depth - 1) && FacesInLeaves(root.children[c])
        ensures Grown(prev.children[c], root.children[c], tri) && Subdivided(root.children[c])
      {
        InsertFacts(prev.children[c], tri, depth - 1);
      }
    }
  }

  /**
   * Filling keeps the root's children complete trees of height depth - 1
   * split into octants, stores nothing in the root, stores triangles only
   * in bottom-level nodes, and stores only the faces' triangles.
   */
  lemma {:induction false} FillFacts(lo: Vec3, hi: Vec3, vs: seq<Vec3>, faces: seq<seq<int>>, depth: nat, k: nat)
    requires k <= |faces| && FacesInRange(faces, |vs|)
    ensures var root := FillFaces(Build(NewCell(lo, hi), depth), vs, faces, depth, k);
            RootShape(root, lo, hi, depth)
            && forall t | t in AllFaces(root) :: exists i | 0 <= i < k :: t == FaceTriangle(vs, faces[i], i)
  {
    var built := Build(NewCell<Triangle>(lo, hi), depth);
    if k == 0 {
      BuildShape<Triangle>(lo, hi, depth);
      NoFacesInLeaves(built, depth);
    } else {
      FillFacts(lo, hi, vs, faces, depth, k - 1);
      var prev := FillFaces(built, vs, faces, depth, k - 1);
      var tri := FaceTriangle(vs, faces[k - 1], k - 1);
      var root := FillFaces(built, vs, faces, depth, k);
      FillStep(prev, tri, lo, hi, depth);
      GrownFaces(prev, root, tri);
      forall t | t in AllFaces(root)
        ensures exists i | 0 <= i < k :: t == FaceTriangle(vs, faces[i], i)
      {
        if t != tri {
          var i :| 0 <= i < k - 1 && t == FaceTriangle(vs, faces[i], i);
        }
      }
    }
  }

  /**
   * The tree the constructor leaves holds no empty subtree, stores
   * triangles only in nodes without children and never in the root, and
   * every triangle it stores is one of the faces' triangles.
   */
  lemma OctreeFacts(lo: Vec3, hi: Vec3, faces: seq<seq<int>>, vs: seq<Vec3>, depth: nat)
    requires FacesInRange(faces, |vs|)
    ensures var root := Filled(lo, hi, faces, vs, depth);
            Pruned(root) && FacesInLeaves(root) && root.faces == [] && root.box == Box(lo, hi)
            && forall t | t in AllFaces(root) :: exists i | 0 <= i < |faces| :: t == FaceTriangle(vs, faces[i], i)
  {
    var filled := FillFaces(Build(NewCell(lo, hi), depth), vs, faces, depth, |faces|);
    FillFacts(lo, hi, vs, faces, depth, |faces|);
    CullFacts(filled);
    CullKeepsShape(filled);
  }

  /**
   * Octree::intersection: a ray that misses the root's box tests nothing
   * and answers false; otherwise every child of the root is queried in
   * order with the shared record (the root's own distance check is not
   * applied).
   */
  function TreeIntersection(t: Octree, ray: Ray, inter: RayHit): (bool, RayHit) {
    if EntryDistance(t.root.box, ray).Miss? then (false, inter)
    else ChildrenIntersection(t.root.children, ray, inter)
  }

  /** The query method: the root's box test, then the loop over the root's children. */
  method OctreeIntersection(t: Octree, ray: Ray, inter: RayHit) returns (hit: bool, r: RayHit)
    ensures (hit, r) == TreeIntersection(t, ray, inter)
  {
    hit, r := false, inter;
    if EntryDistance(t.root.box, ray).Miss? {
      return;
    }
    var cs := t.root.children;
    var i := 0;
    while i < |cs|
      invariant 0 <= i <= |cs|
      invariant (hit, r) == ChildrenIntersection(cs[..i], ray, inter)
    {
      var childHit, next := NodeIntersection(cs[i], ray, r);
      assert cs[..i + 1][..i] == cs[..i];
      hit, r := hit || childHit, next;
      i := i + 1;
    }
    assert cs[..i] == cs;
  }

  /**
   * The tree query tests nothing when the root's box is missed; otherwise
   * it finds the nearest hit among the stored triangles it tests, each
   * tested no more often than stored, and leaves the record as it was
   * when it answers false.
   */
  lemma TreeFindsNearestTested(t: Octree, ray: Ray, inter: RayHit)
    ensures EntryDistance(t.root.box, ray).Miss? ==> TreeIntersection(t, ray, inter) == (false, inter)
    ensures var tested := TestedAll(t.root.children, ray, inter);
            var r := TreeIntersection(t, ray, inter);
            var d := Nearest(Candidate, tested, ray, inter.distance);
            EntryDistance(t.root.box, ray).At? ==>
              multiset(tested) <= multiset(AllFaces(t.root))
              && r.1.distance == d && (r.0 <==> d < inter.distance) && (!r.0 ==> r.1 == inter)
  {
    var tested := TestedAll(t.root.children, ray, inter);
    ChildrenFold(t.root.children, ray, inter);
    TrianglesActAsCandidates(ray);
    FoldFindsNearest(Triangles.Intersect, Candidate, tested, ray, inter);
  }
}
