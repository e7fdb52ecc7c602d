/**
 * The octree of src/Octree.h, which stores faces (a face's index list) in
 * its nodes: insertion where the parent pushes the face into every child
 * that accepts it, the query that gathers the faces of every bottom-level
 * node the ray's line passes, and the Octree wrapper whose query returns
 * those faces without duplicates in lexicographic order.
 */
module SpaceTrees {
  import opened Vectors
  import opened Geometry
  import opened Meshes
  import opened Octants

  /** A face: its OBJ index list (vertex, texture and normal index of each corner). */
  type Face = seq<int>

  /** A SpaceTreeNode: a cell whose faces are index lists. */
  type SNode = Cell<Face>

  /** AABBIntersection(center, extents, v0, v1, v2): the box-triangle test of src/AABB.h against the node. */
  predicate Overlaps(n: SNode, v0: Vec3, v1: Vec3, v2: Vec3) {
    TriangleBoxOverlap(n.center, n.extents, v0, v1, v2)
  }

  // ---------------------------------------------------------------------
  // insert

  /**
   * SpaceTreeNode::insert(face, v0, v1, v2, depth): at depth 1 or less the
   * node stores nothing and answers whether the triangle overlaps it;
   * deeper, an overlapping triangle is passed to every child with
   * depth - 1 (each child that answers true gets the face), and the answer
   * is false.
   */
  function Insert(n: SNode, face: Face, v0: Vec3, v1: Vec3, v2: Vec3, depth: nat): (r: (SNode, bool))
    ensures r.0.box == n.box && r.0.center == n.center && r.0.extents == n.extents
    decreases n, 1
  {
    if depth <= 1 then (n, Overlaps(n, v0, v1, v2))
    else if !Overlaps(n, v0, v1, v2) then (n, false)
    else (n.(children := InsertAll(n.children, face, v0, v1, v2, depth - 1)), false)
  }

  /** `if (child.insert(...)) child.faces.push_back(face)`: a child after the parent's insertion step. */
  function Adopt(c: SNode, face: Face, v0: Vec3, v1: Vec3, v2: Vec3, depth: nat): (r: SNode)
    ensures r.box == c.box && r.center == c.center && r.extents == c.extents
    decreases c, 2
  {
    var r := Insert(c, face, v0, v1, v2, depth);
    if r.1 then r.0.(faces := r.0.faces + [face]) else r.0
  }

  /** Each tree of cs after the parent's insertion step. */
  function InsertAll(cs: seq<SNode>, face: Face, v0: Vec3, v1: Vec3, v2: Vec3, depth: nat): (r: seq<SNode>)
    ensures |r| == |cs|
    decreases cs, 0
  {
    seq(|cs|, i requires 0 <= i < |cs| => Adopt(cs[i], face, v0, v1, v2, depth))
  }

  /** The insert method. */
  method InsertTree(n: SNode, face: Face, v0: Vec3, v1: Vec3, v2: Vec3, depth: nat) returns (r: SNode, accepted: bool)
    ensures (r, accepted) == Insert(n, face, v0, v1, v2, depth)
    decreases n, 1
  {
    r := n;
    if depth <= 1 {
      accepted := Overlaps(n, v0, v1, v2);
      return;
    }
    accepted := false;
    if Overlaps(n, v0, v1, v2) {
      var children := InsertChildren(n.children, face, v0, v1, v2, depth - 1);
      r := n.(children := children);
    }
  }

  /** The loop over the children: each one inserted into in place, and given the face when it accepts. */
  method InsertChildren(cs: seq<SNode>, face: Face, v0: Vec3, v1: Vec3, v2: Vec3, depth: nat) returns (children: seq<SNode>)
    ensures children == InsertAll(cs, face, v0, v1, v2, depth)
    decreases cs, 0
  {
    children := cs;
    var i := 0;
    while i < |children|
      invariant 0 <= i <= |children| == |cs|
      invariant forall k | 0 <= k < i :: children[k] == Adopt(cs[k], face, v0, v1, v2, depth)
      invariant forall k | i <= k < |cs| :: children[k] == cs[k]
    {
      var child, accepted := InsertTree(cs[i], face, v0, v1, v2, depth);
      if accepted {
        child := child.(faces := child.faces + [face]);
      }
      children := children[i := child];
      i := i + 1;
    }
  }

  /**
   * b is a with the face possibly added at the end of some nodes' faces:
   * same corners, centre, extents and children count, node by node, and a
   * node changes only when the triangle overlaps its box.
   */
  predicate Grown(a: SNode, b: SNode, face: Face, v0: Vec3, v1: Vec3, v2: Vec3)
    decreases a
  {
    b.box == a.box && b.center == a.center && b.extents == a.extents
    && (b == a || Overlaps(a, v0, v1, v2))
    && (b.faces == a.faces || b.faces == a.faces + [face])
    && |b.children| == |a.children|
    && forall i | 0 <= i < |a.children| :: Grown(a.children[i], b.children[i], face, v0, v1, v2)
  }

  lemma {:induction false} GrownSelf(n: SNode, face: Face, v0: Vec3, v1: Vec3, v2: Vec3)
    ensures Grown(n, n, face, v0, v1, v2)
    decreases n
  {
    forall i | 0 <= i < |n.children|
      ensures Grown(n.children[i], n.children[i], face, v0, v1, v2)
    {
      GrownSelf(n.children[i], face, v0, v1, v2);
    }
  }

  /**
   * The parent's insertion step on a complete tree of height h with depth
   * h + 1, as the Octree constructor does for the root's children, keeps
   * the tree's shape and subdivision, and only nodes the triangle overlaps
   * change: bottom-level nodes gain the face at most once, at the end.
   */
  lemma {:induction false} InsertFacts(c: SNode, face: Face, v0: Vec3, v1: Vec3, v2: Vec3, h: nat)
    requires Complete(c, h) && FacesInLeaves(c)
    ensures var r := Adopt(c, face, v0, v1, v2, h + 1);
            Complete(r, h) && FacesInLeaves(r) && Grown(c, r, face, v0, v1, v2)
            && (Subdivided(c) ==> Subdivided(r))
    decreases c
  {
    var r := Adopt(c, face, v0, v1, v2, h + 1);
    if h > 0 && Overlaps(c, v0, v1, v2) {
      assert r == c.(children := InsertAll(c.children, face, v0, v1, v2, h));
      forall i | 0 <= i < 8
        ensures Complete(r.children[i], h - 1) && FacesInLeaves(r.children[i])
        ensures Grown(c.children[i], r.children[i], face, v0, v1, v2)
        ensures Subdivided(c.children[i]) ==> Subdivided(r.children[i])
      {
        assert r.children[i] == Adopt(c.children[i], face, v0, v1, v2, h);
        InsertFacts(c.children[i], face, v0, v1, v2, h - 1);
      }
      assert Complete(r, h);
      assert FacesInLeaves(r);
      assert Grown(c, r, face, v0, v1, v2);
      if Subdivided(c) {
        assert forall i | 0 <= i < 8 :: r.children[i].box == c.children[i].box && Subdivided(r.children[i]);
      }
    } else if h > 0 || !Overlaps(c, v0, v1, v2) {
      GrownSelf(c, face, v0, v1, v2);
    }
  }

  /** Every face stored in a grown tree was stored before or is the inserted one. */
  lemma {:induction false} GrownFaces(a: SNode, b: SNode, face: Face, v0: Vec3, v1: Vec3, v2: Vec3)
    requires Grown(a, b, face, v0, v1, v2)
    ensures forall f | f in AllFaces(b) :: f in AllFaces(a) || f == face
    decreases a, 1
  {
    GrownFacesOf(a.children, b.children, face, v0, v1, v2);
  }

  lemma {:induction false} GrownFacesOf(as_: seq<SNode>, bs: seq<SNode>, face: Face, v0: Vec3, v1: Vec3, v2: Vec3)
    requires |as_| == |bs| && forall i | 0 <= i < |as_| :: Grown(as_[i], bs[i], face, v0, v1, v2)
    ensures forall f | f in FacesOf(bs) :: f in FacesOf(as_) || f == face
    decreases as_, 0
  {
    if |as_| > 0 {
      var k := |as_| - 1;
      GrownFacesOf(as_[..k], bs[..k], face, v0, v1, v2);
      GrownFaces(as_[k], bs[k], face, v0, v1, v2);
    }
  }

  // ---------------------------------------------------------------------
  // intersection

  /**
   * SpaceTreeNode::intersection(ray, array): a node whose box fails the
   * slab test adds nothing and answers false; a node without children adds
   * its faces and answers true (even with no faces); otherwise every child
   * adds its faces in order, and the answer is the OR of theirs.
   */
  function Collect(n: SNode, ray: Ray): (bool, seq<Face>)
    decreases n, 1
  {
    if !SlabTest(n.box.min, n.box.max, ray) then (false, [])
    else if |n.children| == 0 then (true, n.faces)
    else CollectAll(n.children, ray)
  }

  /** `hit = node.intersection(ray, array) || hit` over the trees of cs, in order. */
  function CollectAll(cs: seq<SNode>, ray: Ray): (bool, seq<Face>)
    decreases cs, 0
  {
    if |cs| == 0 then (false, [])
    else
      var prev := CollectAll(cs[..|cs| - 1], ray);
      var step := Collect(cs[|cs| - 1], ray);
      (step.0 || prev.0, prev.1 + step.1)
  }

  /** The intersection method: `acc` is the list `array` it appends to, returned with the answer. */
  method CollectInto(n: SNode, ray: Ray, acc: seq<Face>) returns (hit: bool, out: seq<Face>)
    ensures var c := Collect(n, ray);
            hit == c.0 && out == acc + c.1
    decreases n
  {
    hit, out := false, acc;
    if SlabTest(n.box.min, n.box.max, ray) {
      if |n.children| == 0 {
        var i := 0;
        while i < |n.faces|
          invariant 0 <= i <= |n.faces|
          invariant out == acc + n.faces[..i]
        {
          out := out + [n.faces[i]];
          i := i + 1;
        }
        assert n.faces[..i] == n.faces;
        return true, out;
      }
      hit, out := CollectChildren(n.children, ray, acc);
    }
  }

  /** The loop over the children, each appending to the same list. */
  method CollectChildren(cs: seq<SNode>, ray: Ray, acc: seq<Face>) returns (hit: bool, out: seq<Face>)
    ensures var c := CollectAll(cs, ray);
            hit == c.0 && out == acc + c.1
    decreases cs
  {
    hit, out := false, acc;
    var i := 0;
    while i < |cs|
      invariant 0 <= i <= |cs|
      invariant var c := CollectAll(cs[..i], ray);
                hit == c.0 && out == acc + c.1
    {
      var childHit, next := CollectInto(cs[i], ray, out);
      assert cs[..i + 1][..i] == cs[..i];
      hit := childHit || hit;
      out := next;
      i := i + 1;
    }
    assert cs[..i] == cs;
  }

  /**
   * The query gathers only stored faces, each no more often than it is
   * stored, and gathers nothing when it answers false.
   */
  lemma {:induction false} CollectStored(n: SNode, ray: Ray)
    ensures var c := Collect(n, ray);
            multiset(c.1) <= multiset(AllFaces(n)) && (!c.0 ==> c.1 == [])
    decreases n, 1
  {
    if SlabTest(n.box.min, n.box.max, ray) {
      if |n.children| == 0 {
        assert AllFaces(n) == n.faces;
      } else {
        CollectAllStored(n.children, ray);
      }
    }
  }

  lemma {:induction false} CollectAllStored(cs: seq<SNode>, ray: Ray)
    ensures var c := CollectAll(cs, ray);
            multiset(c.1) <= multiset(FacesOf(cs)) && (!c.0 ==> c.1 == [])
    decreases cs, 0
  {
    if |cs| > 0 {
      CollectAllStored(cs[..|cs| - 1], ray);
      CollectStored(cs[|cs| - 1], ray);
    }
  }

  /** The faces of the bottom-level nodes whose box contains the point, in tree order, below nodes that contain it. */
  ghost function FacesAt(n: SNode, p: Vec3): seq<Face>
    decreases n, 1
  {
    if !ContainsPoint(n.box, p) then []
    else if |n.children| == 0 then n.faces
    else FacesAtAll(n.children, p)
  }

  ghost function FacesAtAll(cs: seq<SNode>, p: Vec3): seq<Face>
    decreases cs, 0
  {
    if |cs| == 0 then [] else FacesAtAll(cs[..|cs| - 1], p) + FacesAt(cs[|cs| - 1], p)
  }

  /**
   * The query misses no face it should find: every face stored in a
   * bottom-level node whose box (and every enclosing box) contains a point
   * of the ray's line is gathered, as often as it is stored there.
   */
  lemma {:induction false} CollectFindsFacesOnLine(n: SNode, ray: Ray, t: real)
    requires ProperInverse(ray)
    ensures multiset(FacesAt(n, PointAt(ray, t))) <= multiset(Collect(n, ray).1)
    decreases n, 1
  {
    var p := PointAt(ray, t);
    if ContainsPoint(n.box, p) {
      SlabTestMeetsLine(n.box.min, n.box.max, ray, t);
      if |n.children| > 0 {
        CollectAllFindsFacesOnLine(n.children, ray, t);
      }
    }
  }

  lemma {:induction false} CollectAllFindsFacesOnLine(cs: seq<SNode>, ray: Ray, t: real)
    requires ProperInverse(ray)
    ensures multiset(FacesAtAll(cs, PointAt(ray, t))) <= multiset(CollectAll(cs, ray).1)
    decreases cs, 0
  {
    if |cs| > 0 {
      CollectAllFindsFacesOnLine(cs[..|cs| - 1], ray, t);
      CollectFindsFacesOnLine(cs[|cs| - 1], ray, t);
    }
  }

  // ---------------------------------------------------------------------
  // Lexicographic order and de-duplication

  /** operator< on std::vector<int>: the first differing element decides, and a proper prefix comes first. */
  predicate LexLess(a: Face, b: Face)
    decreases |a|
  {
    |b| > 0 && (|a| == 0 || a[0] < b[0] || (a[0] == b[0] && LexLess(a[1..], b[1..])))
  }

  lemma {:induction false} LexIrreflexive(a: Face)
    ensures !LexLess(a, a)
    decreases |a|
  {
    if |a| > 0 {
      LexIrreflexive(a[1..]);
    }
  }

  lemma {:induction false} LexTransitive(a: Face, b: Face, c: Face)
    requires LexLess(a, b) && LexLess(b, c)
    ensures LexLess(a, c)
    decreases |a|
  {
    if |a| > 0 && a[0] == b[0] == c[0] {
      LexTransitive(a[1..], b[1..], c[1..]);
    }
  }

  /** Two different lists are ordered one way or the other. */
  lemma {:induction false} LexTotal(a: Face, b: Face)
    requires a != b
    ensures LexLess(a, b) || LexLess(b, a)
    decreases |a|
  {
    if |a| > 0 && |b| > 0 && a[0] == b[0] {
      assert a == [a[0]] + a[1..] && b == [b[0]] + b[1..];
      LexTotal(a[1..], b[1..]);
    }
  }

  predicate IsLexLeast(m: Face, s: set<Face>) {
    m in s && forall x | x in s && x != m :: LexLess(m, x)
  }

  lemma {:induction false} HasLexLeast(s: set<Face>)
    requires s != {}
    ensures exists m :: IsLexLeast(m, s)
    decreases |s|
  {
    var x :| x in s;
    if s - {x} == {} {
      assert s == {x};
      assert IsLexLeast(x, {x});
    } else {
      HasLexLeast(s - {x});
      var m :| IsLexLeast(m, s - {x});
      LexTotal(x, m);
      var least := if LexLess(x, m) then x else m;
      forall y | y in s && y != least
        ensures LexLess(least, y)
      {
        if least == x && y != m {
          LexTransitive(x, m, y);
        }
      }
      assert IsLexLeast(least, s);
    }
  }

  /** The least face of a non-empty set. */
  function LexLeast(s: set<Face>): (m: Face)
    requires s != {}
    ensures m in s && forall x | x in s && x != m :: LexLess(m, x)
  {
    HasLexLeast(s);
    var m :| IsLexLeast(m, s);
    LexIrreflexive(m);
    forall m' | IsLexLeast(m', s)
      ensures m' == m
    {
      if m' != m {
        LexTransitive(m, m', m);
      }
    }
    m
  }

  /** Strictly increasing in the lexicographic order: no duplicates, in std::set order. */
  predicate LexIncreasing(r: seq<Face>) {
    forall i, j | 0 <= i < j < |r| :: LexLess(r[i], r[j])
  }

  /** tests.assign(s.begin(), s.end()): the elements of the set in increasing order. */
  function SortedOf(s: set<Face>): (r: seq<Face>)
    ensures LexIncreasing(r) && |r| == |s|
    ensures forall i | 0 <= i < |r| :: r[i] in s
    ensures forall x | x in s :: x in r
    decreases |s|
  {
    if s == {} then []
    else
      var m := LexLeast(s);
      [m] + SortedOf(s - {m})
  }

  /** The loop of Octree::intersection that puts the gathered faces into a std::set, then the copy back. */
  method Dedup(tests: seq<Face>) returns (r: seq<Face>)
    ensures r == SortedOf(set f | f in tests)
  {
    var s: set<Face> := {};
    var i := 0;
    while i < |tests|
      invariant 0 <= i <= |tests|
      invariant s == set f | f in tests[..i]
    {
      assert tests[..i + 1] == tests[..i] + [tests[i]];
      s := s + {tests[i]};
      i := i + 1;
    }
    assert tests[..i] == tests;
    r := SortedOf(s);
  }

  /** A strictly increasing list has no duplicates, and the sorted copy of a list's set holds each of its faces once. */
  lemma DedupFacts(tests: seq<Face>)
    ensures var r := SortedOf(set f | f in tests);
            (forall i, j | 0 <= i < j < |r| :: r[i] != r[j])
            && (forall f :: f in r <==> f in tests)
  {
    var r := SortedOf(set f | f in tests);
    forall i, j | 0 <= i < j < |r|
      ensures r[i] != r[j]
    {
      LexIrreflexive(r[i]);
    }
  }

  // ---------------------------------------------------------------------
  // The Octree wrapper

  /** class Octree: its depth, its copy of the vertices and its root. */
  datatype Octree = Octree(depth: nat, vertices: seq<Vec3>, root: SNode)

  /** The corners a face is inserted with: the vertices of its corners 0, 3 and 6. */
  function Corner(vs: seq<Vec3>, face: Face, k: nat): Vec3
    requires FaceInRange(face, |vs|) && k in {0, 3, 6}
  {
    vs[face[k] - 1]
  }

  /** The root after the first k faces are inserted into each of its children with the tree's depth. */
  function FillFaces(root: SNode, vs: seq<Vec3>, faces: seq<Face>, depth: nat, k: nat): SNode
    requires k <= |faces| && FacesInRange(faces, |vs|)
  {
    if k == 0 then root
    else
      var prev := FillFaces(root, vs, faces, depth, k - 1);
      var face := faces[k - 1];
      prev.(children := InsertAll(prev.children, face, Corner(vs, face, 0), Corner(vs, face, 3), Corner(vs, face, 6), depth))
  }

  /** The root the constructor leaves: built to the depth, filled with every face, culled. */
  function Filled(lo: Vec3, hi: Vec3, faces: seq<Face>, vs: seq<Vec3>, depth: nat): SNode
    requires FacesInRange(faces, |vs|)
  {
    Cull(FillFaces(Build(NewCell(lo, hi), depth), vs, faces, depth, |faces|)).0
  }

  /**
   * Octree(boundingBox, faces, vertices, depth): a root over the bounding
   * box built to the depth; for each face in order, every child of the
   * root is inserted into with the vertices of corners 0, 3 and 6 and the
   * tree's depth, and gets the face when it accepts; then the root is
   * culled.
   */
  method NewOctree(lo: Vec3, hi: Vec3, faces: seq<Face>, vertices: seq<Vec3>, depth: nat) returns (t: Octree)
    requires FacesInRange(faces, |vertices|)
    ensures t == Octree(depth, vertices, Filled(lo, hi, faces, vertices, depth))
  {
    var root := BuildTree(NewCell(lo, hi), depth);
    ghost var built := root;
    var i := 0;
    while i < |faces|
      invariant 0 <= i <= |faces|
      invariant root == FillFaces(built, vertices, faces, depth, i)
    {
      var face := faces[i];
      var children := InsertChildren(root.children, face, vertices[face[0] - 1], vertices[face[3] - 1], vertices[face[6] - 1], depth);
      root := root.(children := children);
      i := i + 1;
    }
    var empty;
    root, empty := CullTree(root);
    t := Octree(depth, vertices, root);
  }

  /** The shape the root keeps while it is filled. */
  predicate RootShape(root: SNode, lo: Vec3, hi: Vec3, depth: nat) {
    Complete(root, depth) && Subdivided(root) && FacesInLeaves(root) && root.faces == [] && root.box == Box(lo, hi)
  }

  /**
   * One face inserted into every child of a filled root keeps the root's
   * shape; each child grows by that face only, where the triangle overlaps.
   */
  lemma {:induction false} FillStep(prev: SNode, face: Face, v0: Vec3, v1: Vec3, v2: Vec3, lo: Vec3, hi: Vec3, depth: nat)
    requires RootShape(prev, lo, hi, depth)
    ensures var root := prev.(children := InsertAll(prev.children, face, v0, v1, v2, depth));
            RootShape(root, lo, hi, depth)
            && forall c | 0 <= c < |prev.children| :: Grown(prev.children[c], root.children[c], face, v0, v1, v2)
  {
    var root := prev.(children := InsertAll(prev.children, face, v0, v1, v2, depth));
    if depth > 0 {
      forall c | 0 <= c < 8
        ensures Complete(root.children[c], depth - 1) && FacesInLeaves(root.children[c])
        ensures Grown(prev.children[c], root.children[c], face, v0, v1, v2) && Subdivided(root.children[c])
      {
        InsertFacts(prev.children[c], face, v0, v1, v2, depth - 1);
      }
    }
  }

  /**
   * Filling keeps the root's children complete trees of height depth - 1
   * split into octants, stores nothing in the root, stores faces only in
   * bottom-level nodes, and stores only the inserted faces.
   */
  lemma {:induction false} FillFacts(lo: Vec3, hi: Vec3, vs: seq<Vec3>, faces: seq<Face>, depth: nat, k: nat)
    requires k <= |faces| && FacesInRange(faces, |vs|)
    ensures var root := FillFaces(Build(NewCell(lo, hi), depth), vs, faces, depth, k);
            RootShape(root, lo, hi, depth)
            && forall f | f in AllFaces(root) :: exists i | 0 <= i < k :: f == faces[i]
  {
    var built := Build(NewCell<Face>(lo, hi), depth);
    if k == 0 {
      BuildShape<Face>(lo, hi, depth);
      NoFacesInLeaves(built, depth);
    } else {
      FillFacts(lo, hi, vs, faces, depth, k - 1);
      var prev := FillFaces(built, vs, faces, depth, k - 1);
      var face := faces[k - 1];
      var v0, v1, v2 := Corner(vs, face, 0), Corner(vs, face, 3), Corner(vs, face, 6);
      var root := FillFaces(built, vs, faces, depth, k);
      FillStep(prev, face, v0, v1, v2, lo, hi, depth);
      GrownFacesOf(prev.children, root.children, face, v0, v1, v2);
      assert AllFaces(root) == FacesOf(root.children) && AllFaces(prev) == FacesOf(prev.children);
      forall f | f in AllFaces(root)
        ensures exists i | 0 <= i < k :: f == faces[i]
      {
        if f != face {
          var i :| 0 <= i < k - 1 && f == faces[i];
        }
      }
    }
  }

  /**
   * The tree the constructor leaves holds no empty subtree, stores faces
   * only in nodes without children and never in the root, and every face
   * it stores is one of the given faces.
   */
  lemma OctreeFacts(lo: Vec3, hi: Vec3, faces: seq<Face>, vs: seq<Vec3>, depth: nat)
    requires FacesInRange(faces, |vs|)
    ensures var root := Filled(lo, hi, faces, vs, depth);
            Pruned(root) && FacesInLeaves(root) && root.faces == [] && root.box == Box(lo, hi)
            && forall f | f in AllFaces(root) :: exists i | 0 <= i < |faces| :: f == faces[i]
  {
    var filled := FillFaces(Build(NewCell(lo, hi), depth), vs, faces, depth, |faces|);
    FillFacts(lo, hi, vs, faces, depth, |faces|);
    CullFacts(filled);
    CullKeepsShape(filled);
  }

  /**
   * Octree::intersection: nothing when the ray misses the root's box;
   * otherwise the faces every child of the root gathers, without
   * duplicates, in increasing lexicographic order.
   */
  function Query(t: Octree, ray: Ray): seq<Face> {
    if !SlabTest(t.root.box.min, t.root.box.max, ray) then []
    else SortedOf(set f | f in CollectAll(t.root.children, ray).1)
  }

  /** The query method: the root's box test, the loop over the root's children, then de-duplication. */
  method OctreeIntersection(t: Octree, ray: Ray) returns (r: seq<Face>)
    ensures r == Query(t, ray)
  {
    if !SlabTest(t.root.box.min, t.root.box.max, ray) {
      return [];
    }
    var cs := t.root.children;
    var tests: seq<Face> := [];
    var i := 0;
    while i < |cs|
      invariant 0 <= i <= |cs|
      invariant tests == CollectAll(cs[..i], ray).1
    {
      var hit;
      hit, tests := CollectInto(cs[i], ray, tests);
      assert cs[..i + 1][..i] == cs[..i];
      i := i + 1;
    }
    assert cs[..i] == cs;
    r := Dedup(tests);
  }

  /**
   * The query answers each face at most once, in increasing lexicographic
   * order; it answers nothing when the ray misses the root's box and only
   * faces stored below the root otherwise; and it answers every face
   * stored in a bottom-level node whose box, with every enclosing box,
   * contains a point of the ray's line.
   */
  lemma QueryFacts(t: Octree, ray: Ray, s: real)
    ensures var r := Query(t, ray);
            LexIncreasing(r) && (forall i, j | 0 <= i < j < |r| :: r[i] != r[j])
            && (!SlabTest(t.root.box.min, t.root.box.max, ray) ==> r == [])
            && (forall f | f in r :: f in FacesOf(t.root.children))
            && (ProperInverse(ray) && ContainsPoint(t.root.box, PointAt(ray, s)) ==>
                  forall f | f in FacesAtAll(t.root.children, PointAt(ray, s)) :: f in r)
  {
    var tests := CollectAll(t.root.children, ray).1;
    DedupFacts(tests);
    CollectAllStored(t.root.children, ray);
    assert forall f | f in tests :: f in multiset(tests);
    if ProperInverse(ray) && ContainsPoint(t.root.box, PointAt(ray, s)) {
      SlabTestMeetsLine(t.root.box.min, t.root.box.max, ray, s);
      CollectAllFindsFacesOnLine(t.root.children, ray, s);
      assert forall f | f in FacesAtAll(t.root.children, PointAt(ray, s)) :: f in multiset(tests);
    }
  }

  // ---------------------------------------------------------------------
  // Completeness: from insertion to query

  /** The box holds the point strictly inside, on every axis. */
  predicate StrictlyHolds(b: Box, p: Vec3) {
    b.min.x < p.x < b.max.x && b.min.y < p.y < b.max.y && b.min.z < p.z < b.max.z
  }

  /**
   * p lies in the plane of the triangle (v0, v1, v2), within the
   * triangle's bounding box, and the triangle is not degenerate: every
   * point of the triangle itself qualifies.
   */
  predicate OnTriangle(p: Vec3, v0: Vec3, v1: Vec3, v2: Vec3) {
    Le(Min(v0, Min(v1, v2)), p) && Le(p, Max(v0, Max(v1, v2)))
    && Dot(Cross(Sub(v1, v0), Sub(v2, v0)), Sub(p, v0)) == 0.0
    && Cross(Sub(v1, v0), Sub(v2, v0)) != Splat(0.0)
  }

  /** The face is stored in every bottom-level node whose box, with every enclosing box, strictly holds p. */
  ghost predicate StoredAround(n: SNode, p: Vec3, face: Face)
    decreases n
  {
    StrictlyHolds(n.box, p) ==>
      if n.children == [] then face in n.faces
      else forall i | 0 <= i < |n.children| :: StoredAround(n.children[i], p, face)
  }

  /** Some bottom-level node's box, with every enclosing box, strictly holds p. */
  ghost predicate ReachesLeaf(n: SNode, p: Vec3)
    decreases n
  {
    StrictlyHolds(n.box, p) && (n.children == [] || exists i | 0 <= i < |n.children| :: ReachesLeaf(n.children[i], p))
  }

  lemma AxisHolds(lo: real, hi: real, p: real)
    requires lo < p < hi
    ensures Abs(p - (hi + lo) * 0.5) < hi - (hi + lo) * 0.5
  {
  }

  /** A point strictly inside a node's corners is strictly inside its centre-and-extents box. */
  lemma HoldsCentered(n: SNode, p: Vec3)
    requires Centered(n) && StrictlyHolds(n.box, p)
    ensures StrictlyInside(p, n.center, n.extents)
  {
    AxisHolds(n.box.min.x, n.box.max.x, p.x);
    AxisHolds(n.box.min.y, n.box.max.y, p.y);
    AxisHolds(n.box.min.z, n.box.max.z, p.z);
  }

  /** The box-triangle test accepts a node whose box strictly holds a point of the triangle. */
  lemma OverlapsWhereHeld(n: SNode, v0: Vec3, v1: Vec3, v2: Vec3, p: Vec3)
    requires Centered(n) && StrictlyHolds(n.box, p) && OnTriangle(p, v0, v1, v2)
    ensures Overlaps(n, v0, v1, v2)
  {
    HoldsCentered(n, p);
    TriangleBoxOverlapComplete(n.center, n.extents, v0, v1, v2, p);
  }

  /**
   * Insertion misses no node it should reach: after the parent's insertion
   * step on a complete, subdivided tree, the face is stored in every
   * bottom-level node whose box strictly holds a point of the triangle.
   */
  lemma {:induction false} InsertReaches(c: SNode, face: Face, v0: Vec3, v1: Vec3, v2: Vec3, p: Vec3, h: nat)
    requires Complete(c, h) && Subdivided(c) && OnTriangle(p, v0, v1, v2)
    ensures StoredAround(Adopt(c, face, v0, v1, v2, h + 1), p, face)
    decreases c
  {
    var r := Adopt(c, face, v0, v1, v2, h + 1);
    if StrictlyHolds(c.box, p) {
      OverlapsWhereHeld(c, v0, v1, v2, p);
      AdoptOverlapping(c, face, v0, v1, v2, h);
      if h > 0 {
        forall i | 0 <= i < 8
          ensures StoredAround(r.children[i], p, face)
        {
          InsertReaches(c.children[i], face, v0, v1, v2, p, h - 1);
        }
      }
    }
  }

  /** The parent's insertion step on a node the triangle overlaps: the face itself at the bottom, passed on above it. */
  lemma AdoptOverlapping(c: SNode, face: Face, v0: Vec3, v1: Vec3, v2: Vec3, h: nat)
    requires Overlaps(c, v0, v1, v2)
    ensures Adopt(c, face, v0, v1, v2, h + 1)
            == if h == 0 then c.(faces := c.faces + [face]) else c.(children := InsertAll(c.children, face, v0, v1, v2, h))
  {
  }

  /** Growing a tree by another face keeps every face where it was. */
  lemma {:induction false} GrownKeepsStored(a: SNode, b: SNode, other: Face, v0: Vec3, v1: Vec3, v2: Vec3, p: Vec3, face: Face)
    requires Grown(a, b, other, v0, v1, v2) && StoredAround(a, p, face)
    ensures StoredAround(b, p, face)
    decreases a
  {
    if StrictlyHolds(a.box, p) && a.children != [] {
      forall i | 0 <= i < |b.children|
        ensures StoredAround(b.children[i], p, face)
      {
        GrownKeepsStored(a.children[i], b.children[i], other, v0, v1, v2, p, face);
      }
    }
  }

  /**
   * After the first k faces are inserted, face i < k sits in every
   * bottom-level node below the root whose box strictly holds a point of
   * its triangle.
   */
  lemma {:induction false} FillReaches(lo: Vec3, hi: Vec3, vs: seq<Vec3>, faces: seq<Face>, depth: nat, k: nat, i: nat, p: Vec3)
    requires i < k <= |faces| && FacesInRange(faces, |vs|)
    requires OnTriangle(p, Corner(vs, faces[i], 0), Corner(vs, faces[i], 3), Corner(vs, faces[i], 6))
    ensures var root := FillFaces(Build(NewCell(lo, hi), depth), vs, faces, depth, k);
            forall c | 0 <= c < |root.children| :: StoredAround(root.children[c], p, faces[i])
  {
    var built := Build(NewCell<Face>(lo, hi), depth);
    var prev := FillFaces(built, vs, faces, depth, k - 1);
    var root := FillFaces(built, vs, faces, depth, k);
    var face := faces[k - 1];
    var v0, v1, v2 := Corner(vs, face, 0), Corner(vs, face, 3), Corner(vs, face, 6);
    FillFacts(lo, hi, vs, faces, depth, k - 1);
    if depth > 0 {
      forall c | 0 <= c < 8
        ensures StoredAround(root.children[c], p, faces[i])
      {
        if i == k - 1 {
          InsertReaches(prev.children[c], face, v0, v1, v2, p, depth - 1);
        } else {
          FillReaches(lo, hi, vs, faces, depth, k - 1, i, p);
          FillStep(prev, face, v0, v1, v2, lo, hi, depth);
          GrownKeepsStored(prev.children[c], root.children[c], face, v0, v1, v2, p, faces[i]);
        }
      }
    }
  }

  /** Culling a non-empty tree keeps every face where it was. */
  lemma {:induction false} CullKeepsStored(n: SNode, p: Vec3, face: Face)
    requires FacesInLeaves(n) && StoredAround(n, p, face)
    ensures !Cull(n).1 ==> StoredAround(Cull(n).0, p, face)
    decreases n, 1
  {
    if StrictlyHolds(n.box, p) && n.children != [] {
      SurvivorsKeepStored(n.children, p, face);
    }
  }

  lemma {:induction false} SurvivorsKeepStored(cs: seq<SNode>, p: Vec3, face: Face)
    requires forall j | 0 <= j < |cs| :: FacesInLeaves(cs[j]) && StoredAround(cs[j], p, face)
    ensures forall i | 0 <= i < |Survivors(cs)| :: StoredAround(Survivors(cs)[i], p, face)
    decreases cs, 0
  {
    if |cs| > 0 {
      var init, last := cs[..|cs| - 1], cs[|cs| - 1];
      SurvivorsKeepStored(init, p, face);
      CullKeepsStored(last, p, face);
    }
  }

  /** A face stored around p is among the faces at p when some bottom-level node strictly holds p. */
  lemma {:induction false} StoredIsAt(n: SNode, p: Vec3, face: Face)
    requires StoredAround(n, p, face) && ReachesLeaf(n, p)
    ensures face in FacesAt(n, p)
    decreases n
  {
    if n.children != [] {
      var i :| 0 <= i < |n.children| && ReachesLeaf(n.children[i], p);
      StoredIsAt(n.children[i], p, face);
      FacesAtOfOne(n.children, i, p);
    }
  }

  lemma {:induction false} FacesAtOfOne(cs: seq<SNode>, i: nat, p: Vec3)
    requires i < |cs|
    ensures forall f | f in FacesAt(cs[i], p) :: f in FacesAtAll(cs, p)
  {
    if i < |cs| - 1 {
      FacesAtOfOne(cs[..|cs| - 1], i, p);
    }
  }

  /**
   * The tree the constructor builds finds every face its query should:
   * when the ray's line passes through a point of face i's triangle that
   * a bottom-level node's box (and every enclosing box) strictly holds,
   * the query returns face i.
   */
  lemma QueryFindsFace(lo: Vec3, hi: Vec3, faces: seq<Face>, vs: seq<Vec3>, depth: nat, i: nat, ray: Ray, s: real)
    requires FacesInRange(faces, |vs|) && i < |faces| && ProperInverse(ray)
    requires OnTriangle(PointAt(ray, s), Corner(vs, faces[i], 0), Corner(vs, faces[i], 3), Corner(vs, faces[i], 6))
    requires var root := Filled(lo, hi, faces, vs, depth);
             ReachesLeaf(root, PointAt(ray, s)) && root.children != []
    ensures faces[i] in Query(Octree(depth, vs, Filled(lo, hi, faces, vs, depth)), ray)
  {
    var p := PointAt(ray, s);
    var filled := FillFaces(Build(NewCell(lo, hi), depth), vs, faces, depth, |faces|);
    var root := Filled(lo, hi, faces, vs, depth);
    FillFacts(lo, hi, vs, faces, depth, |faces|);
    FillReaches(lo, hi, vs, faces, depth, |faces|, i, p);
    assert FacesInLeaves(filled) && root.children == Survivors(filled.children);
    SurvivorsKeepStored(filled.children, p, faces[i]);
    var c :| 0 <= c < |root.children| && ReachesLeaf(root.children[c], p);
    StoredIsAt(root.children[c], p, faces[i]);
    FacesAtOfOne(root.children, c, p);
    QueryFacts(Octree(depth, vs, root), ray, s);
  }
}
