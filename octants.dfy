/**
 * The eight-way space subdivision both octrees share: the node of
 * src/OctreeRec.h (OctreeNode) and src/Octree.h (SpaceTreeNode) carry the
 * same constructor, build and cull, over different face types (a Triangle
 * and a face's index list). A node holds its children by value, so a tree
 * is a value here and every operation returns the new tree.
 */
module Octants {
  import opened Vectors
  import opened Geometry

  /** A node: its corners, centre and half-extents, its children and the faces stored in it. */
  datatype Cell<F> = Cell(box: Box, center: Vec3, extents: Vec3, children: seq<Cell<F>>, faces: seq<F>)

  /** The midpoint of two corners: (max + min) * 0.5. */
  function Midpoint(lo: Vec3, hi: Vec3): Vec3 {
    Scale(Add(hi, lo), 0.5)
  }

  /**
   * The constructor OctreeNode(min, max) / SpaceTreeNode(min, max): the
   * centre lies halfway between the corners, and the centre and
   * half-extents describe exactly the box with those corners (the form the
   * box-triangle test takes).
   */
  function NewCell<F>(lo: Vec3, hi: Vec3): (c: Cell<F>)
    ensures c.box == Box(lo, hi) && c.children == [] && c.faces == []
    ensures Sub(c.center, lo) == Sub(hi, c.center)
    ensures CenteredBox(c.center, c.extents) == Box(lo, hi)
  {
    var center := Midpoint(lo, hi);
    Cell(Box(lo, hi), center, Sub(hi, center), [], [])
  }

  /** The centre and half-extents are those the constructor gives the node's corners. */
  predicate Centered<F>(n: Cell<F>) {
    n.center == Midpoint(n.box.min, n.box.max) && n.extents == Sub(n.box.max, n.center)
  }

  // ---------------------------------------------------------------------
  // Octants

  /** One octant: on each axis, the upper half (right, top, front) or the lower one. */
  datatype Octant = Octant(right: bool, top: bool, front: bool)

  /** The corners of octant o of the box (lo, hi) split at c. */
  function OctantBox(lo: Vec3, c: Vec3, hi: Vec3, o: Octant): Box {
    Box(Vec3(if o.right then c.x else lo.x, if o.top then c.y else lo.y, if o.front then c.z else lo.z),
        Vec3(if o.right then hi.x else c.x, if o.top then hi.y else c.y, if o.front then hi.z else c.z))
  }

  /** The order build pushes the children in: TRF, TLF, BLF, BRF, BRB, BLB, TLB, TRB. */
  const ChildOrder: seq<Octant> := [
    Octant(true, true, true), Octant(false, true, true), Octant(false, false, true), Octant(true, false, true),
    Octant(true, false, false), Octant(false, false, false), Octant(false, true, false), Octant(true, true, false)
  ]

  /** The child order names each of the eight octants exactly once. */
  lemma ChildOrderIsComplete()
    ensures |ChildOrder| == 8
    ensures forall i, j | 0 <= i < j < 8 :: ChildOrder[i] != ChildOrder[j]
    ensures forall o: Octant :: o in ChildOrder
  {
    forall o: Octant
      ensures o in ChildOrder
    {
      var i := if o.front then (if o.top then (if o.right then 0 else 1) else (if o.right then 3 else 2))
               else (if o.top then (if o.right then 7 else 6) else (if o.right then 4 else 5));
      assert ChildOrder[i] == o;
    }
  }

  /** The octant a point falls in: the upper half on an axis where it is at or beyond the split. */
  function OctantOf(c: Vec3, p: Vec3): Octant {
    Octant(p.x >= c.x, p.y >= c.y, p.z >= c.z)
  }

  /**
   * The octants tile their box: each lies inside it, with ordered corners,
   * and every point of the box lies in the octant OctantOf names.
   */
  lemma OctantsTile(lo: Vec3, hi: Vec3, o: Octant, p: Vec3)
    requires Le(lo, hi)
    ensures var c := Midpoint(lo, hi);
            Inside(OctantBox(lo, c, hi, o), Box(lo, hi))
            && Le(OctantBox(lo, c, hi, o).min, OctantBox(lo, c, hi, o).max)
            && (ContainsPoint(Box(lo, hi), p) ==> ContainsPoint(OctantBox(lo, c, hi, OctantOf(c, p)), p))
  {
  }

  // ---------------------------------------------------------------------
  // build

  /**
   * The corners build gives each child, in push order, as the source spells
   * them out: TRF (center, max), TLF, BLF, BRF, then BRB, BLB (min, center),
   * TLB, TRB.
   */
  lemma ChildCorners(v0: Vec3, c: Vec3, v1: Vec3)
    ensures OctantBox(v0, c, v1, ChildOrder[0]) == Box(c, v1)
    ensures OctantBox(v0, c, v1, ChildOrder[1]) == Box(Vec3(v0.x, c.y, c.z), Vec3(c.x, v1.y, v1.z))
    ensures OctantBox(v0, c, v1, ChildOrder[2]) == Box(Vec3(v0.x, v0.y, c.z), Vec3(c.x, c.y, v1.z))
    ensures OctantBox(v0, c, v1, ChildOrder[3]) == Box(Vec3(c.x, v0.y, c.z), Vec3(v1.x, c.y, v1.z))
    ensures OctantBox(v0, c, v1, ChildOrder[4]) == Box(Vec3(c.x, v0.y, v0.z), Vec3(v1.x, c.y, c.z))
    ensures OctantBox(v0, c, v1, ChildOrder[5]) == Box(v0, c)
    ensures OctantBox(v0, c, v1, ChildOrder[6]) == Box(Vec3(v0.x, c.y, v0.z), Vec3(c.x, v1.y, c.z))
    ensures OctantBox(v0, c, v1, ChildOrder[7]) == Box(Vec3(c.x, c.y, v0.z), Vec3(v1.x, v1.y, c.z))
  {
  }

  /** The node for octant i of n, as build makes it before building it further. */
  function OctantCell<F>(n: Cell<F>, i: nat): Cell<F>
    requires i < 8
  {
    var b := OctantBox(n.box.min, n.center, n.box.max, ChildOrder[i]);
    NewCell(b.min, b.max)
  }

  /**
   * build(depth): nothing at depth 0; otherwise the node of each octant
   * (corners as ChildCorners lists them), built to depth - 1, is pushed in
   * the child order.
   */
  function Build<F>(n: Cell<F>, depth: nat): (r: Cell<F>)
    ensures r.box == n.box && r.center == n.center && r.extents == n.extents && r.faces == n.faces
    decreases depth
  {
    if depth == 0 then n
    else n.(children := n.children + seq(8, i requires 0 <= i < 8 => Build(OctantCell(n, i), depth - 1)))
  }

  /**
   * The build method: each octant's node, built to depth - 1, in push
   * order TRF, TLF, BLF, BRF, BRB, BLB, TLB, TRB.
   */
  method BuildTree<F>(n: Cell<F>, depth: nat) returns (r: Cell<F>)
    ensures r == Build(n, depth)
    decreases depth
  {
    if depth == 0 {
      return n;
    }
    var trf := BuildTree(OctantCell(n, 0), depth - 1);
    var tlf := BuildTree(OctantCell(n, 1), depth - 1);
    var blf := BuildTree(OctantCell(n, 2), depth - 1);
    var brf := BuildTree(OctantCell(n, 3), depth - 1);
    var brb := BuildTree(OctantCell(n, 4), depth - 1);
    var blb := BuildTree(OctantCell(n, 5), depth - 1);
    var tlb := BuildTree(OctantCell(n, 6), depth - 1);
    var trb := BuildTree(OctantCell(n, 7), depth - 1);
    var built := [trf, tlf, blf, brf, brb, blb, tlb, trb];
    assert forall i | 0 <= i < 8 :: built[i] == Build(OctantCell(n, i), depth - 1);
    r := n.(children := n.children + built);
  }

  /** A complete eight-way tree of height h: every node above the bottom level has exactly eight children. */
  predicate Complete<F>(n: Cell<F>, h: nat)
    decreases n
  {
    if h == 0 then n.children == []
    else |n.children| == 8 && forall i | 0 <= i < 8 :: Complete(n.children[i], h - 1)
  }

  /**
   * Every node is centred on its corners, and the children of an inner
   * node are its eight octants in the child order.
   */
  predicate Subdivided<F>(n: Cell<F>)
    decreases n
  {
    Centered(n)
    && (n.children == []
        || (|n.children| == 8
            && forall i | 0 <= i < 8 ::
                 n.children[i].box == OctantBox(n.box.min, n.center, n.box.max, ChildOrder[i])
                 && Subdivided(n.children[i])))
  }

  /**
   * Building a fresh node to depth d gives a complete eight-way tree of
   * height d whose inner nodes are split into their octants, in the child
   * order, and which stores no face yet.
   */
  lemma {:induction false} BuildShape<F>(lo: Vec3, hi: Vec3, d: nat)
    ensures var t := Build(NewCell<F>(lo, hi), d);
            Complete(t, d) && Subdivided(t) && AllFaces(t) == []
    decreases d
  {
    var n := NewCell<F>(lo, hi);
    if d > 0 {
      var t := Build(n, d);
      forall i | 0 <= i < 8
        ensures Complete(t.children[i], d - 1) && Subdivided(t.children[i]) && AllFaces(t.children[i]) == []
        ensures t.children[i].box == OctantBox(lo, n.center, hi, ChildOrder[i])
      {
        var b := OctantBox(lo, n.center, hi, ChildOrder[i]);
        BuildShape<F>(b.min, b.max, d - 1);
      }
      Assemble(t, d);
    }
  }

  /** A centred node whose eight children are complete, subdivided octants is complete and subdivided. */
  lemma Assemble<F>(t: Cell<F>, d: nat)
    requires d > 0 && Centered(t) && |t.children| == 8 && t.faces == []
    requires forall i | 0 <= i < 8 ::
               Complete(t.children[i], d - 1) && Subdivided(t.children[i]) && AllFaces(t.children[i]) == []
               && t.children[i].box == OctantBox(t.box.min, t.center, t.box.max, ChildOrder[i])
    ensures Complete(t, d) && Subdivided(t) && AllFaces(t) == []
  {
    NoFacesBelow(t.children);
  }

  // ---------------------------------------------------------------------
  // Faces

  /** Every face stored in the tree: the node's own, then its children's from first to last. */
  function AllFaces<F>(n: Cell<F>): seq<F>
    decreases n, 1
  {
    n.faces + FacesOf(n.children)
  }

  /** The faces of a list of trees, in list order. */
  function FacesOf<F>(cs: seq<Cell<F>>): seq<F>
    decreases cs, 0
  {
    if |cs| == 0 then [] else FacesOf(cs[..|cs| - 1]) + AllFaces(cs[|cs| - 1])
  }

  lemma {:induction false} NoFacesBelow<F>(cs: seq<Cell<F>>)
    requires forall i | 0 <= i < |cs| :: AllFaces(cs[i]) == []
    ensures FacesOf(cs) == []
  {
    if |cs| > 0 {
      NoFacesBelow(cs[..|cs| - 1]);
    }
  }

  /** Faces sit only in nodes without children. */
  predicate FacesInLeaves<F>(n: Cell<F>)
    decreases n
  {
    (n.children != [] ==> n.faces == [])
    && forall i | 0 <= i < |n.children| :: FacesInLeaves(n.children[i])
  }

  /** A tree without faces has them only in leaves. */
  lemma {:induction false} NoFacesInLeaves<F>(n: Cell<F>, h: nat)
    requires Complete(n, h) && AllFaces(n) == []
    ensures FacesInLeaves(n)
    decreases n
  {
    if h > 0 {
      forall i | 0 <= i < 8
        ensures FacesInLeaves(n.children[i])
      {
        FacesOfEmpty(n.children, i);
        NoFacesInLeaves(n.children[i], h - 1);
      }
    }
  }

  /** A list of trees without faces has no tree with faces. */
  lemma {:induction false} FacesOfEmpty<F>(cs: seq<Cell<F>>, i: nat)
    requires i < |cs| && FacesOf(cs) == []
    ensures AllFaces(cs[i]) == []
  {
    if i < |cs| - 1 {
      FacesOfEmpty(cs[..|cs| - 1], i);
    }
  }

  // ---------------------------------------------------------------------
  // cull

  /** A node with no children and no faces. */
  predicate Empty<F>(n: Cell<F>) {
    n.children == [] && n.faces == []
  }

  /**
   * cull(): every child is culled first; the children whose cull answered
   * true are dropped, the others are kept (culled) in order; the answer is
   * whether the node is left with no children and no faces.
   */
  function Cull<F>(n: Cell<F>): (Cell<F>, bool)
    decreases n, 1
  {
    var kept := Survivors(n.children);
    (n.(children := kept), |kept| == 0 && |n.faces| == 0)
  }

  /** tokeep: the culled trees of cs whose cull answered false, in order. */
  function Survivors<F>(cs: seq<Cell<F>>): seq<Cell<F>>
    decreases cs, 0
  {
    if |cs| == 0 then []
    else
      var prev := Survivors(cs[..|cs| - 1]);
      var last := Cull(cs[|cs| - 1]);
      if last.1 then prev else prev + [last.0]
  }

  /** No empty subtree below the node. */
  predicate Pruned<F>(n: Cell<F>)
    decreases n
  {
    forall i | 0 <= i < |n.children| :: !Empty(n.children[i]) && Pruned(n.children[i])
  }

  /** The cull method: the loop over the children, rebuilding the list of those to keep. */
  method CullTree<F>(n: Cell<F>) returns (r: Cell<F>, empty: bool)
    ensures (r, empty) == Cull(n)
    decreases n
  {
    var tokeep: seq<Cell<F>> := [];
    var i := 0;
    while i < |n.children|
      invariant 0 <= i <= |n.children|
      invariant tokeep == Survivors(n.children[..i])
    {
      var child, gone := CullTree(n.children[i]);
      assert n.children[..i + 1][..i] == n.children[..i];
      if !gone {
        tokeep := tokeep + [child];
      }
      i := i + 1;
    }
    assert n.children[..i] == n.children;
    r := n.(children := tokeep);
    empty := |tokeep| == 0 && |n.faces| == 0;
  }

  /**
   * Culling leaves no empty subtree below the node, answers true exactly
   * when the tree stored no face anywhere, and loses no face: the faces of
   * the culled tree are those of the tree, in the same order.
   */
  lemma {:induction false} CullFacts<F>(n: Cell<F>)
    ensures var r := Cull(n);
            Pruned(r.0) && (r.1 <==> AllFaces(n) == []) && AllFaces(r.0) == AllFaces(n)
            && (r.1 ==> Empty(r.0))
    decreases n, 1
  {
    SurvivorsFacts(n.children);
  }

  lemma {:induction false} SurvivorsFacts<F>(cs: seq<Cell<F>>)
    ensures var s := Survivors(cs);
            (forall i | 0 <= i < |s| :: !Empty(s[i]) && Pruned(s[i]))
            && FacesOf(s) == FacesOf(cs) && (s == [] <==> FacesOf(cs) == [])
    decreases cs, 0
  {
    if |cs| > 0 {
      var init, last := cs[..|cs| - 1], cs[|cs| - 1];
      SurvivorsFacts(init);
      CullFacts(last);
      var prev := Survivors(init);
      var c := Cull(last);
      if !c.1 {
        var s := prev + [c.0];
        assert s[..|s| - 1] == prev;
      }
    }
  }

  /** Culling a tree without empty subtrees changes nothing. */
  lemma {:induction false} CullOfPruned<F>(n: Cell<F>)
    requires Pruned(n)
    ensures Cull(n).0 == n
    decreases n, 1
  {
    SurvivorsOfPruned(n.children);
  }

  lemma {:induction false} SurvivorsOfPruned<F>(cs: seq<Cell<F>>)
    requires forall i | 0 <= i < |cs| :: !Empty(cs[i]) && Pruned(cs[i])
    ensures Survivors(cs) == cs
    decreases cs, 0
  {
    if |cs| > 0 {
      var init, last := cs[..|cs| - 1], cs[|cs| - 1];
      SurvivorsOfPruned(init);
      CullOfPruned(last);
      assert Cull(last).0 == last;
      assert init + [last] == cs;
    }
  }

  /** cull is idempotent: culling again keeps the tree and gives the same answer. */
  lemma CullIdempotent<F>(n: Cell<F>)
    ensures Cull(Cull(n).0) == Cull(n)
  {
    CullFacts(n);
    CullOfPruned(Cull(n).0);
  }

  /**
   * Culling only removes subtrees: the box, centre, extents and faces of
   * the node stay, every kept child is a culled child of the original, and
   * a tree with faces only in leaves keeps that shape.
   */
  lemma {:induction false} CullKeepsShape<F>(n: Cell<F>)
    ensures var r := Cull(n).0;
            r.box == n.box && r.center == n.center && r.extents == n.extents && r.faces == n.faces
            && |r.children| <= |n.children|
            && (forall i | 0 <= i < |r.children| :: exists j | 0 <= j < |n.children| :: r.children[i] == Cull(n.children[j]).0)
            && (FacesInLeaves(n) ==> FacesInLeaves(r))
    decreases n, 1
  {
    SurvivorsFrom(n.children);
  }

  lemma {:induction false} SurvivorsFrom<F>(cs: seq<Cell<F>>)
    ensures var s := Survivors(cs);
            |s| <= |cs|
            && (forall i | 0 <= i < |s| :: exists j | 0 <= j < |cs| :: s[i] == Cull(cs[j]).0)
            && ((forall j | 0 <= j < |cs| :: FacesInLeaves(cs[j])) ==> forall i | 0 <= i < |s| :: FacesInLeaves(s[i]))
    decreases cs, 0
  {
    if |cs| > 0 {
      var init, last := cs[..|cs| - 1], cs[|cs| - 1];
      SurvivorsFrom(init);
      CullKeepsShape(last);
      var s := Survivors(cs);
      forall i | 0 <= i < |s|
        ensures exists j | 0 <= j < |cs| :: s[i] == Cull(cs[j]).0
      {
        if i < |Survivors(init)| {
          var j :| 0 <= j < |init| && Survivors(init)[i] == Cull(init[j]).0;
          assert init[j] == cs[j];
        } else {
          assert s[i] == Cull(cs[|cs| - 1]).0;
        }
      }
      if forall j | 0 <= j < |cs| :: FacesInLeaves(cs[j]) {
        assert forall j | 0 <= j < |init| :: init[j] == cs[j];
      }
    }
  }
}
