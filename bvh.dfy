/**
 * The bounding volume hierarchy of src/BVH.h: a flat node array over a
 * permutation of primitive indices, built top-down by the surface area
 * heuristic and searched by an iterative nearest-first traversal.
 */
module Bvh {
  import opened Wrappers
  import opened Vectors
  import opened Geometry
  import opened Hits
  import opened Sah

  /** BVHNode: a box, the slot of the left child, and the member range; a leaf has count > 0. */
  datatype Node = Node(box: Box, leftChild: int, firstIndex: int, count: int)

  /** One split step: leaf node becomes internal, its children in slots left and left + 1 divided at position at. */
  datatype Cut = Cut(node: int, left: int, at: int)

  /** BVHNode(): the default box, left_child and first_index -1 (as int), count 0. */
  function DefaultNode(): Node {
    Node(EmptyBox(), -1, -1, 0)
  }

  /** 0, 1, ..., n - 1: the identity permutation the constructor starts from. */
  function Iota(n: nat): (r: seq<int>)
    ensures |r| == n && forall i :: 0 <= i < n ==> r[i] == i
  {
    if n == 0 then [] else Iota(n - 1) + [n - 1]
  }

  /** The set of values a sequence takes. */
  ghost function Image(s: seq<int>): set<int> {
    set j | 0 <= j < |s| :: s[j]
  }

  lemma {:induction false} SubsetCard(a: set<int>, b: set<int>)
    requires a <= b
    ensures |a| <= |b|
    decreases |a|
  {
    if a != {} {
      if forall y :: y !in a {
        assert false;
      }
      var x :| x in a;
      SubsetCard(a - {x}, b - {x});
    }
  }

  lemma {:induction false} ImageSize(s: seq<int>)
    ensures |Image(s)| <= |s|
  {
    if |s| > 0 {
      var init := s[..|s| - 1];
      ImageSize(init);
      assert Image(s) == Image(init) + {s[|s| - 1]} by {
        forall x | x in Image(s) ensures x in Image(init) + {s[|s| - 1]} {
          var j :| 0 <= j < |s| && s[j] == x;
          if j < |s| - 1 { assert init[j] == x; }
        }
        forall x | x in Image(init) ensures x in Image(s) {
          var j :| 0 <= j < |init| && init[j] == x;
          assert s[j] == x;
        }
      }
    }
  }

  /** A sequence that repeats a value takes fewer values than it has slots. */
  lemma ImageOfRepeat(s: seq<int>, a: int, b: int)
    requires 0 <= a < b < |s| && s[a] == s[b]
    ensures |Image(s)| < |s|
  {
    var rest := s[..b] + s[b + 1..];
    forall x | x in Image(s) ensures x in Image(rest) {
      var j :| 0 <= j < |s| && s[j] == x;
      if j < b {
        assert rest[j] == x;
      } else if j == b {
        assert rest[a] == x;
      } else {
        assert rest[j - 1] == x;
      }
    }
    SubsetCard(Image(s), Image(rest));
    ImageSize(rest);
  }

  /** Swapping two entries inside a slice keeps the slice's multiset. */
  lemma SwapKeepsMultiset(a: seq<int>, i: int, j: int, first: int, end: int)
    requires 0 <= first <= i <= j < end <= |a|
    ensures multiset(a[i := a[j]][j := a[i]][first..end]) == multiset(a[first..end])
  {
    var b := a[i := a[j]][j := a[i]];
    var s, t := a[first..end], b[first..end];
    assert t == s[i - first := s[j - first]][j - first := s[i - first]];
  }

  lemma CardReplace(s: set<int>, k: int, l: int, r: int)
    requires k in s && l !in s && r !in s && l != r
    ensures |s - {k} + {l, r}| == |s| + 1
  {
    var t := s - {k};
    assert |t + {l}| == |t| + 1;
    assert t + {l, r} == t + {l} + {r};
  }

  /** The owner of each position after a leaf over [first, end) is split at i into slots l and l + 1. */
  function Reassign(owner: seq<int>, first: int, i: int, end: int, l: int): (r: seq<int>)
    ensures |r| == |owner|
    ensures forall j :: 0 <= j < |owner| ==>
              r[j] == if first <= j < i then l else if i <= j < end then l + 1 else owner[j]
  {
    seq(|owner|, j requires 0 <= j < |owner| =>
      if first <= j < i then l else if i <= j < end then l + 1 else owner[j])
  }

  class BVH<P(!new)> {
    /** The primitives (observables) and the three accessors the tree uses. */
    const prims: seq<P>
    const centroidOf: P -> Vec3
    const minOf: P -> Vec3
    const maxOf: P -> Vec3
    /** N = observables.size(). */
    const n: nat
    /** 2N - 1 node slots; slot 0 is the root (root_index). */
    const nodes: array<Node>
    /** A permutation of 0..N-1; every node owns a contiguous range of it. */
    const indices: array<int>
    var nodesUsed: int

    /** The range [lo[k], hi[k]) of indices that node k covers (for a leaf, first and first + count). */
    ghost var lo: seq<int>
    ghost var hi: seq<int>
    /** The leaf whose range holds each position of indices. */
    ghost var owner: seq<int>
    ghost var leaves: set<int>

    ghost predicate Shape()
      reads this
    {
      n == |prims| && n >= 1 && nodes.Length == 2 * n - 1 && indices.Length == n
      && 1 <= nodesUsed <= nodes.Length
      && |lo| == nodes.Length && |hi| == nodes.Length && |owner| == n
      && lo[0] == 0 && hi[0] == n
    }

    /** Every primitive's centroid lies within its bounds. */
    ghost predicate CentroidsInBounds()
    {
      forall i :: 0 <= i < |prims| ==>
        Le(minOf(prims[i]), centroidOf(prims[i])) && Le(centroidOf(prims[i]), maxOf(prims[i]))
    }

    /** The primitive at position j of the index sequence s has its bounds inside box b. */
    ghost predicate Covers(b: Box, s: seq<int>, j: int)
    {
      0 <= j < |s| && 0 <= s[j] < |prims| && Encloses(b, minOf(prims[s[j]]), maxOf(prims[s[j]]))
    }

    /**
     * A leaf's box covers its members (read from the index sequence s); an
     * internal node has count 0, its two children in consecutive later
     * slots, their ranges tiling its own, and their boxes inside its box.
     * Every box covers the empty one it was grown from.
     */
    ghost predicate NodeOk(k: int, s: seq<int>)
      reads this, nodes
      requires Shape() && 0 <= k < nodesUsed
    {
      0 <= lo[k] < hi[k] <= n && Inside(EmptyBox(), nodes[k].box)
      && if nodes[k].count > 0 then
           nodes[k].firstIndex == lo[k] && nodes[k].count == hi[k] - lo[k]
           && forall j :: lo[k] <= j < hi[k] ==> Covers(nodes[k].box, s, j)
         else
           var l := nodes[k].leftChild;
           nodes[k].count == 0 && k < l && l + 1 < nodesUsed
           && lo[l] == lo[k] && hi[l] == lo[l + 1] && hi[l + 1] == hi[k]
           && Inside(nodes[l].box, nodes[k].box) && Inside(nodes[l + 1].box, nodes[k].box)
    }

    /**
     * A leaf's box is exactly refit_node over its members; an internal
     * node's box is the union of its children's.
     */
    ghost predicate BoxOk(k: int, s: seq<int>)
      reads this, nodes
      requires Shape() && 0 <= k < nodesUsed
    {
      if nodes[k].count > 0 then
        |s| == n && InRange(s) && 0 <= lo[k] <= hi[k] <= n && nodes[k].box == MemberBox(s, lo[k], hi[k])
      else
        var l := nodes[k].leftChild;
        0 <= l && l + 1 < nodes.Length && nodes[k].box == FixBox(nodes[l].box, nodes[l + 1].box)
    }

    /** The part of the invariant a traversal relies on: indices name primitives and every node in use is well formed. */
    ghost predicate Traversable()
      reads this, nodes, indices
    {
      Shape()
      && (forall j :: 0 <= j < n ==> 0 <= indices[j] < n)
      && (forall k :: 0 <= k < nodesUsed ==> NodeOk(k, indices[..]))
    }

    ghost predicate Valid()
      reads this, nodes, indices
    {
      Traversable()
      && multiset(indices[..]) == multiset(Iota(n))
      && CentroidsInBounds()
      && (forall k :: 0 <= k < nodesUsed ==> BoxOk(k, indices[..]))
      && (forall k :: k in leaves <==> 0 <= k < nodesUsed && nodes[k].count > 0)
      && nodesUsed == 2 * |leaves| - 1
      && (forall j :: 0 <= j < n ==> owner[j] in leaves && lo[owner[j]] <= j < hi[owner[j]])
      && (forall k, j :: 0 <= k < nodesUsed && k in leaves && 0 <= j < n && lo[k] <= j < hi[k] ==> owner[j] == k)
    }

    /** Every entry of s names a primitive. */
    ghost predicate InRange(s: seq<int>) {
      forall j :: 0 <= j < |s| ==> 0 <= s[j] < |prims|
    }

    /** AABB::fix applied to the members at positions start..stop-1 of s, starting from the empty box. */
    ghost function MemberBox(s: seq<int>, start: int, stop: int): Box
      requires 0 <= start <= stop <= |s| && InRange(s)
      decreases stop - start
    {
      if stop == start then EmptyBox()
      else Fix(MemberBox(s, start, stop - 1), minOf(prims[s[stop - 1]]), maxOf(prims[s[stop - 1]]))
    }

    /** The refitted box covers every member and the empty box. */
    lemma {:induction false} MemberBoxCovers(s: seq<int>, start: int, stop: int)
      requires 0 <= start <= stop <= |s| && InRange(s)
      ensures Inside(EmptyBox(), MemberBox(s, start, stop))
      ensures forall j :: start <= j < stop ==> Covers(MemberBox(s, start, stop), s, j)
      decreases stop - start
    {
      if stop > start {
        MemberBoxCovers(s, start, stop - 1);
        forall j | start <= j < stop
          ensures Covers(MemberBox(s, start, stop), s, j)
        {
          if j < stop - 1 {
            assert Covers(MemberBox(s, start, stop - 1), s, j);
          }
        }
      }
    }

    /** The refitted box is the smallest one covering the members and the empty box. */
    lemma {:induction false} MemberBoxSmallest(s: seq<int>, start: int, stop: int, c: Box)
      requires 0 <= start <= stop <= |s| && InRange(s)
      requires Inside(EmptyBox(), c) && forall j :: start <= j < stop ==> Covers(c, s, j)
      ensures Inside(MemberBox(s, start, stop), c)
      decreases stop - start
    {
      if stop > start {
        MemberBoxSmallest(s, start, stop - 1, c);
        var p := prims[s[stop - 1]];
        assert Covers(c, s, stop - 1);
        FixSmallest(MemberBox(s, start, stop - 1), minOf(p), maxOf(p), c);
      }
    }

    /** Boxes inside each other are the same box. */
    lemma InsideBothWays(a: Box, b: Box)
      requires Inside(a, b) && Inside(b, a)
      ensures a == b
    {
      assert a.min == b.min && a.max == b.max;
    }

    /** The refit depends only on the members in the range. */
    lemma {:induction false} MemberBoxFrame(s: seq<int>, t: seq<int>, start: int, stop: int)
      requires 0 <= start <= stop <= |s| && stop <= |t| && InRange(s) && InRange(t)
      requires forall j :: start <= j < stop ==> s[j] == t[j]
      ensures MemberBox(s, start, stop) == MemberBox(t, start, stop)
      decreases stop - start
    {
      if stop > start {
        MemberBoxFrame(s, t, start, stop - 1);
      }
    }

    /** The refit does not depend on the order of the members: AABB::fix is a union. */
    lemma MemberBoxPermuted(s: seq<int>, t: seq<int>, start: int, stop: int)
      requires 0 <= start <= stop <= |s| && stop <= |t| && InRange(s) && InRange(t)
      requires multiset(s[start..stop]) == multiset(t[start..stop])
      ensures MemberBox(s, start, stop) == MemberBox(t, start, stop)
    {
      MemberBoxWithin(s, t, start, stop);
      MemberBoxWithin(t, s, start, stop);
      InsideBothWays(MemberBox(s, start, stop), MemberBox(t, start, stop));
    }

    lemma MemberBoxWithin(s: seq<int>, t: seq<int>, start: int, stop: int)
      requires 0 <= start <= stop <= |s| && stop <= |t| && InRange(s) && InRange(t)
      requires multiset(s[start..stop]) == multiset(t[start..stop])
      ensures Inside(MemberBox(s, start, stop), MemberBox(t, start, stop))
    {
      var c := MemberBox(t, start, stop);
      MemberBoxCovers(t, start, stop);
      forall j | start <= j < stop
        ensures Covers(c, s, j)
      {
        assert s[start..stop][j - start] == s[j];
        assert s[j] in multiset(t[start..stop]);
        var w :| start <= w < stop && t[w] == s[j];
        assert Covers(c, t, w);
      }
      MemberBoxSmallest(s, start, stop, c);
    }

    /** The refit of a range is the union of the refits of its two parts. */
    lemma MemberBoxJoin(s: seq<int>, start: int, mid: int, stop: int)
      requires 0 <= start <= mid <= stop <= |s| && InRange(s)
      ensures MemberBox(s, start, stop) == FixBox(MemberBox(s, start, mid), MemberBox(s, mid, stop))
    {
      var whole, left, right := MemberBox(s, start, stop), MemberBox(s, start, mid), MemberBox(s, mid, stop);
      var u := FixBox(left, right);
      MemberBoxCovers(s, start, stop);
      MemberBoxCovers(s, start, mid);
      MemberBoxCovers(s, mid, stop);
      MemberBoxSmallest(s, start, mid, whole);
      MemberBoxSmallest(s, mid, stop, whole);
      FixSmallest(left, right.min, right.max, whole);
      forall j | start <= j < stop
        ensures Covers(u, s, j)
      {
        if j < mid {
          assert Covers(left, s, j);
        } else {
          assert Covers(right, s, j);
        }
      }
      MemberBoxSmallest(s, start, stop, u);
      InsideBothWays(whole, u);
    }

    /**
     * BVH::refit_node: the node's box is reset to the sentinel and grown
     * over its members; nothing else changes.
     */
    method RefitNode(k: int)
      requires 0 <= k < nodes.Length
      requires 0 <= nodes[k].firstIndex && 0 <= nodes[k].count
      requires nodes[k].firstIndex + nodes[k].count <= indices.Length
      requires InRange(indices[..])
      modifies nodes
      ensures nodes[k] == old(nodes[k]).(box := MemberBox(indices[..], old(nodes[k]).firstIndex,
                                                         old(nodes[k]).firstIndex + old(nodes[k]).count))
      ensures forall m :: 0 <= m < nodes.Length && m != k ==> nodes[m] == old(nodes[m])
    {
      nodes[k] := nodes[k].(box := EmptyBox());
      var first := nodes[k].firstIndex;
      var i := 0;
      while i < nodes[k].count
        invariant 0 <= i <= nodes[k].count == old(nodes[k]).count
        invariant nodes[k] == old(nodes[k]).(box := MemberBox(indices[..], first, first + i))
        invariant forall m :: 0 <= m < nodes.Length && m != k ==> nodes[m] == old(nodes[m])
      {
        var p := prims[indices[first + i]];
        nodes[k] := nodes[k].(box := Fix(nodes[k].box, minOf(p), maxOf(p)));
        i := i + 1;
      }
    }

    /** Coordinate axis of a position's centroid. */
    ghost function CentroidAt(j: int, axis: int): real
      reads indices
      requires 0 <= j < indices.Length && 0 <= indices[j] < |prims|
    {
      Index(centroidOf(prims[indices[j]]), axis)
    }

    /** Every member at positions lo..hi-1 of s has its centroid below split on the axis. */
    ghost predicate AllBelow(s: seq<int>, lo: int, hi: int, axis: int, split: real)
    {
      forall m :: lo <= m < hi ==> 0 <= m < |s| && 0 <= s[m] < |prims| && Index(centroidOf(prims[s[m]]), axis) < split
    }

    /** Every member at positions lo..hi-1 of s has its centroid at or beyond split on the axis. */
    ghost predicate NoneBelow(s: seq<int>, lo: int, hi: int, axis: int, split: real)
    {
      forall m :: lo <= m < hi ==> 0 <= m < |s| && 0 <= s[m] < |prims| && Index(centroidOf(prims[s[m]]), axis) >= split
    }

    /** AllBelow over the current indices, read position by position. */
    lemma BelowAt(first: int, end: int, axis: int, split: real)
      requires 0 <= first && end <= indices.Length && AllBelow(indices[..], first, end, axis, split)
      ensures forall j :: first <= j < end ==>
                0 <= j < indices.Length && 0 <= indices[j] < |prims| && CentroidAt(j, axis) < split
    {
      forall j | first <= j < end
        ensures 0 <= j < indices.Length && 0 <= indices[j] < |prims| && CentroidAt(j, axis) < split
      {
        assert indices[..][j] == indices[j];
      }
    }

    /** NoneBelow over the current indices, read position by position. */
    lemma NotBelowAt(first: int, end: int, axis: int, split: real)
      requires 0 <= first && end <= indices.Length && NoneBelow(indices[..], first, end, axis, split)
      ensures forall j :: first <= j < end ==>
                0 <= j < indices.Length && 0 <= indices[j] < |prims| && CentroidAt(j, axis) >= split
    {
      forall j | first <= j < end
        ensures 0 <= j < indices.Length && 0 <= indices[j] < |prims| && CentroidAt(j, axis) >= split
      {
        assert indices[..][j] == indices[j];
      }
    }

    /** Permuting positions first..end-1 and keeping the rest permutes the whole sequence. */
    static lemma SplicedPermutation<T>(s: seq<T>, t: seq<T>, first: int, end: int)
      requires 0 <= first <= end <= |s| == |t|
      requires multiset(s[first..end]) == multiset(t[first..end])
      requires forall m :: 0 <= m < |s| && !(first <= m < end) ==> s[m] == t[m]
      ensures multiset(s) == multiset(t)
    {
      assert s == s[..first] + s[first..end] + s[end..];
      assert t == t[..first] + t[first..end] + t[end..];
      assert s[..first] == t[..first];
      assert s[end..] == t[end..];
      calc {
        multiset(s);
        multiset(s[..first] + s[first..end] + s[end..]);
        multiset(s[..first]) + multiset(s[first..end]) + multiset(s[end..]);
        multiset(t[..first]) + multiset(t[first..end]) + multiset(t[end..]);
        multiset(t[..first] + t[first..end] + t[end..]);
        multiset(t);
      }
    }

    /** s and t agree outside positions first..end-1. */
    ghost predicate SameOutside(s: seq<int>, t: seq<int>, first: int, end: int)
    {
      |s| == |t| && forall m :: 0 <= m < |s| && !(first <= m < end) ==> s[m] == t[m]
    }

    /** One step of the two-pointer loop: a member found at or beyond the split is swapped to the back. */
    lemma SwapStep(o: seq<int>, s: seq<int>, i: int, j: int, first: int, end: int, axis: int, split: real)
      requires 0 <= first <= i <= j < end <= |s| && InRange(s)
      requires AllBelow(s, first, i, axis, split) && NoneBelow(s, j + 1, end, axis, split)
      requires Index(centroidOf(prims[s[i]]), axis) >= split
      requires SameOutside(s, o, first, end) && multiset(s[first..end]) == multiset(o[first..end])
      ensures var t := s[i := s[j]][j := s[i]];
              InRange(t) && AllBelow(t, first, i, axis, split) && NoneBelow(t, j, end, axis, split)
              && SameOutside(t, o, first, end) && multiset(t[first..end]) == multiset(o[first..end])
    {
      SwapKeepsMultiset(s, i, j, first, end);
    }

    /**
     * The two-pointer loop of sah_divide over positions [first, end): members
     * whose centroid on the axis is below the split end up first, at
     * [first, i), the rest at [i, end); the range is permuted and nothing
     * outside it changes.
     */
    method PartitionRange(first: int, end: int, axis: int, split: real) returns (i: int)
      requires 0 <= first <= end <= indices.Length
      requires InRange(indices[..])
      modifies indices
      ensures first <= i <= end
      ensures InRange(indices[..])
      ensures AllBelow(indices[..], first, i, axis, split) && NoneBelow(indices[..], i, end, axis, split)
      ensures multiset(indices[first..end]) == old(multiset(indices[first..end]))
      ensures SameOutside(indices[..], old(indices[..]), first, end)
    {
      i := first;
      var j := end - 1;
      while i <= j
        invariant first <= i <= j + 1 <= end
        invariant InRange(indices[..])
        invariant AllBelow(indices[..], first, i, axis, split) && NoneBelow(indices[..], j + 1, end, axis, split)
        invariant multiset(indices[first..end]) == old(multiset(indices[first..end]))
        invariant SameOutside(indices[..], old(indices[..]), first, end)
        decreases j - i
      {
        if Index(centroidOf(prims[indices[i]]), axis) < split {
          i := i + 1;
        } else {
          SwapStep(old(indices[..]), indices[..], i, j, first, end, axis, split);
          indices[i], indices[j] := indices[j], indices[i];
          j := j - 1;
        }
      }
    }

    /** Partitioning a leaf's own range keeps the tree valid. */
    method Partition(k: int, axis: int, split: real) returns (i: int)
      requires Valid() && 0 <= k < nodesUsed && nodes[k].count > 0
      modifies indices
      ensures Valid()
      ensures 0 <= lo[k] <= i <= hi[k] <= n
      ensures forall j :: lo[k] <= j < i ==> CentroidAt(j, axis) < split
      ensures forall j :: i <= j < hi[k] ==> CentroidAt(j, axis) >= split
      ensures forall j :: 0 <= j < n && !(lo[k] <= j < hi[k]) ==> indices[j] == old(indices[j])
    {
      assert NodeOk(k, indices[..]);
      i := PartitionRange(nodes[k].firstIndex, nodes[k].firstIndex + nodes[k].count, axis, split);
      PartitionKeepsValid(k);
      BelowAt(lo[k], i, axis, split);
      NotBelowAt(i, hi[k], axis, split);
    }

    /** Permuting one leaf's range keeps every node's invariant. */
    twostate lemma PartitionKeepsValid(k: int)
      requires old(Valid()) && unchanged(this, nodes)
      requires 0 <= k < old(nodesUsed) && old(nodes[k].count) > 0
      requires InRange(indices[..]) && 0 <= lo[k] <= hi[k] <= indices.Length
      requires multiset(indices[lo[k]..hi[k]]) == old(multiset(indices[lo[k]..hi[k]]))
      requires SameOutside(indices[..], old(indices[..]), lo[k], hi[k])
      ensures Valid()
    {
      var now, was := indices[..], old(indices[..]);
      assert old(NodeOk(k, indices[..]));
      assert forall m :: 0 <= m < nodesUsed ==> old(NodeOk(m, indices[..])) && old(BoxOk(m, indices[..]));
      assert forall m :: 0 <= m < nodesUsed ==> NodeOk(m, was) && BoxOk(m, was);
      SplicedPermutation(now, was, lo[k], hi[k]);
      PartitionNodesOk(k, was);
      PartitionBoxesOk(k, was);
    }

    /** After the permutation every leaf still covers its members. */
    lemma PartitionNodesOk(k: int, was: seq<int>)
      requires Shape() && |was| == n && 0 <= k < nodesUsed && nodes[k].count > 0
      requires 0 <= lo[k] < hi[k] <= n
      requires forall m :: 0 <= m < nodesUsed ==> NodeOk(m, was)
      requires (forall m, j :: 0 <= m < nodesUsed && m in leaves && 0 <= j < n && lo[m] <= j < hi[m] ==> owner[j] == m)
      requires (forall m :: m in leaves <==> 0 <= m < nodesUsed && nodes[m].count > 0)
      requires multiset(indices[lo[k]..hi[k]]) == multiset(was[lo[k]..hi[k]])
      requires SameOutside(indices[..], was, lo[k], hi[k])
      ensures forall m :: 0 <= m < nodesUsed ==> NodeOk(m, indices[..])
    {
      var now := indices[..];
      forall m | 0 <= m < nodesUsed
        ensures NodeOk(m, now)
      {
        assert NodeOk(m, was);
        if nodes[m].count > 0 {
          forall j | lo[m] <= j < hi[m]
            ensures Covers(nodes[m].box, now, j)
          {
            if lo[k] <= j < hi[k] {
              assert owner[j] == m && owner[j] == k;
              assert now[lo[k]..hi[k]][j - lo[k]] == now[j];
              assert now[j] in multiset(was[lo[k]..hi[k]]);
              var w :| lo[k] <= w < hi[k] && was[w] == now[j];
              assert Covers(nodes[m].box, was, w);
            } else {
              assert Covers(nodes[m].box, was, j);
            }
          }
        }
      }
    }

    /** After the permutation every box is still the exact refit of its range. */
    lemma PartitionBoxesOk(k: int, was: seq<int>)
      requires Shape() && |was| == n && 0 <= k < nodesUsed && nodes[k].count > 0
      requires 0 <= lo[k] < hi[k] <= n
      requires forall j :: 0 <= j < n ==> 0 <= indices[j] < n
      requires forall m :: 0 <= m < nodesUsed ==> NodeOk(m, was)
      requires forall m :: 0 <= m < nodesUsed ==> BoxOk(m, was)
      requires (forall m, j :: 0 <= m < nodesUsed && m in leaves && 0 <= j < n && lo[m] <= j < hi[m] ==> owner[j] == m)
      requires (forall m :: m in leaves <==> 0 <= m < nodesUsed && nodes[m].count > 0)
      requires multiset(indices[lo[k]..hi[k]]) == multiset(was[lo[k]..hi[k]])
      requires SameOutside(indices[..], was, lo[k], hi[k])
      ensures forall m :: 0 <= m < nodesUsed ==> BoxOk(m, indices[..])
    {
      var now := indices[..];
      forall m | 0 <= m < nodesUsed
        ensures BoxOk(m, now)
      {
        assert NodeOk(m, was) && BoxOk(m, was);
        if nodes[m].count > 0 {
          if m == k {
            MemberBoxPermuted(now, was, lo[k], hi[k]);
          } else {
            forall j | lo[m] <= j < hi[m]
              ensures now[j] == was[j]
            {
              assert owner[j] == m;
            }
            MemberBoxFrame(now, was, lo[m], hi[m]);
          }
        }
      }
    }

    /** Each leaf owns at least one position; a leaf with two members leaves room for two more slots. */
    lemma LeafCountBound(k: int)
      requires Valid() && 0 <= k < nodesUsed && nodes[k].count >= 2
      ensures nodesUsed + 2 <= nodes.Length
    {
      assert NodeOk(k, indices[..]);
      forall m | m in leaves
        ensures m in Image(owner)
      {
        assert NodeOk(m, indices[..]);
        assert owner[lo[m]] == m;
      }
      assert owner[lo[k]] == k && owner[lo[k] + 1] == k;
      ImageOfRepeat(owner, lo[k], lo[k] + 1);
      SubsetCard(leaves, Image(owner));
    }

    /**
     * The node-allocation step of sah_divide: two consecutive fresh slots
     * become leaves over [first, i) and [i, first + count), and leaf k becomes an internal node whose left child is the first
     * slot; the ghost ranges, owners and leaf set follow.
     */
    method SplitLeaf(k: int, i: int) returns (l: int)
      requires Shape() && 0 <= k < nodesUsed && nodesUsed + 2 <= nodes.Length
      requires InRange(indices[..])
      requires nodes[k].count > 0 && nodes[k].firstIndex == lo[k] && nodes[k].count == hi[k] - lo[k]
      requires 0 <= lo[k] < i < hi[k] <= n
      modifies this, nodes
      ensures Shape()
      ensures l == old(nodesUsed) && nodesUsed == l + 2
      ensures nodes[l] == Node(old(nodes[l].box), old(nodes[l].leftChild), old(lo[k]), i - old(lo[k]))
      ensures nodes[l + 1] == Node(old(nodes[l + 1].box), old(nodes[l + 1].leftChild), i, old(hi[k]) - i)
      ensures nodes[k] == Node(old(nodes[k].box), l, old(nodes[k].firstIndex), 0)
      ensures forall m :: 0 <= m < nodes.Length && m != k && m != l && m != l + 1 ==> nodes[m] == old(nodes[m])
      ensures lo == old(lo)[l := old(lo[k])][l + 1 := i] && hi == old(hi)[l := i][l + 1 := old(hi[k])]
      ensures leaves == old(leaves) - {k} + {l, l + 1}
      ensures owner == Reassign(old(owner), old(lo[k]), i, old(hi[k]), l)
    {
      var first, count := nodes[k].firstIndex, nodes[k].count;
      l := nodesUsed;
      nodesUsed := nodesUsed + 1;
      var r := nodesUsed;
      nodesUsed := nodesUsed + 1;
      nodes[l] := nodes[l].(firstIndex := first, count := i - first);
      nodes[r] := nodes[r].(firstIndex := i, count := count - (i - first));
      nodes[k] := nodes[k].(leftChild := l, count := 0);
      lo := lo[l := first][r := i];
      hi := hi[l := i][r := first + count];
      leaves := leaves - {k} + {l, r};
      owner := Reassign(owner, first, i, first + count, l);
    }

    /** refit_node on the two fresh children, which keep their links and ranges. */
    method RefitChildren(l: int)
      requires 0 <= l && l + 1 < nodes.Length && InRange(indices[..])
      requires 0 <= nodes[l].firstIndex && 0 <= nodes[l].count && nodes[l].firstIndex + nodes[l].count <= indices.Length
      requires 0 <= nodes[l + 1].firstIndex && 0 <= nodes[l + 1].count
      requires nodes[l + 1].firstIndex + nodes[l + 1].count <= indices.Length
      modifies nodes
      ensures nodes[l] == Node(MemberBox(indices[..], old(nodes[l].firstIndex), old(nodes[l].firstIndex + nodes[l].count)),
                               old(nodes[l].leftChild), old(nodes[l].firstIndex), old(nodes[l].count))
      ensures nodes[l + 1] == Node(MemberBox(indices[..], old(nodes[l + 1].firstIndex),
                                             old(nodes[l + 1].firstIndex + nodes[l + 1].count)),
                                   old(nodes[l + 1].leftChild), old(nodes[l + 1].firstIndex), old(nodes[l + 1].count))
      ensures forall m :: 0 <= m < nodes.Length && m != l && m != l + 1 ==> nodes[m] == old(nodes[m])
    {
      RefitNode(l);
      RefitNode(l + 1);
    }

    /** The step from the state before SplitLeaf (old) to the state after it and both refits. */
    twostate predicate SplitStep(k: int, l: int, i: int)
      reads this, nodes, indices
    {
      old(Valid()) && 0 <= k < old(nodesUsed) && old(nodes[k]).count > 0
      && 0 <= old(lo[k]) < i < old(hi[k]) <= n
      && Shape() && l == old(nodesUsed) && nodesUsed == l + 2
      && indices[..] == old(indices[..])
      && nodes[l] == Node(MemberBox(indices[..], old(lo[k]), i), old(nodes[l].leftChild), old(lo[k]), i - old(lo[k]))
      && nodes[l + 1] == Node(MemberBox(indices[..], i, old(hi[k])), old(nodes[l + 1].leftChild), i, old(hi[k]) - i)
      && nodes[k] == Node(old(nodes[k].box), l, old(nodes[k].firstIndex), 0)
      && (forall m :: 0 <= m < nodes.Length && m != k && m != l && m != l + 1 ==> nodes[m] == old(nodes[m]))
      && lo == old(lo)[l := old(lo[k])][l + 1 := i] && hi == old(hi)[l := i][l + 1 := old(hi[k])]
      && leaves == old(leaves) - {k} + {l, l + 1}
      && owner == Reassign(old(owner), old(lo[k]), i, old(hi[k]), l)
    }

    /** The nodes in use before the split, other than the split leaf, keep their invariant. */
    twostate lemma SplitOthersOk(c: Cut)
      requires SplitStep(c.node, c.left, c.at)
      ensures forall m :: 0 <= m < c.left && m != c.node ==> NodeOk(m, indices[..]) && BoxOk(m, indices[..])
    {
      forall m | 0 <= m < c.left && m != c.node
        ensures NodeOk(m, indices[..]) && BoxOk(m, indices[..])
      {
        assert old(NodeOk(m, indices[..])) && old(BoxOk(m, indices[..]));
        if nodes[m].count <= 0 {
          var d := nodes[m].leftChild;
          assert nodes[d].box == old(nodes[d].box) && nodes[d + 1].box == old(nodes[d + 1].box);
        }
      }
    }

    /** The split leaf becomes an internal node whose box, its old refit, is the union of its children's. */
    twostate lemma SplitParentOk(c: Cut)
      requires SplitStep(c.node, c.left, c.at)
      ensures NodeOk(c.node, indices[..]) && BoxOk(c.node, indices[..])
    {
      var k, i := c.node, c.at;
      var first, end := old(lo[k]), old(hi[k]);
      assert old(NodeOk(k, indices[..])) && old(BoxOk(k, indices[..]));
      MemberBoxJoin(indices[..], first, i, end);
    }

    /** The two fresh children are leaves refitted over their halves. */
    twostate lemma SplitChildrenOk(c: Cut)
      requires SplitStep(c.node, c.left, c.at)
      ensures NodeOk(c.left, indices[..]) && NodeOk(c.left + 1, indices[..])
      ensures BoxOk(c.left, indices[..]) && BoxOk(c.left + 1, indices[..])
    {
      var k, i := c.node, c.at;
      var first, end := old(lo[k]), old(hi[k]);
      MemberBoxCovers(indices[..], first, i);
      MemberBoxCovers(indices[..], i, end);
    }

    /** After a split every node in use, old or new, keeps its invariant and its exact box. */
    twostate lemma SplitNodesOk(c: Cut)
      requires SplitStep(c.node, c.left, c.at)
      ensures forall m :: 0 <= m < nodesUsed ==> NodeOk(m, indices[..])
      ensures forall m :: 0 <= m < nodesUsed ==> BoxOk(m, indices[..])
    {
      SplitParentOk(c);
      SplitChildrenOk(c);
      SplitOthersOk(c);
      forall m | 0 <= m < nodesUsed
        ensures NodeOk(m, indices[..]) && BoxOk(m, indices[..])
      {
        if m < c.left && m != c.node {
          assert NodeOk(m, indices[..]);
        }
      }
    }

    /** After a split each position is owned by the one leaf whose range holds it. */
    twostate lemma SplitOwnersOk(c: Cut)
      requires SplitStep(c.node, c.left, c.at)
      ensures forall j :: 0 <= j < n ==> owner[j] in leaves && lo[owner[j]] <= j < hi[owner[j]]
      ensures forall m, j :: 0 <= m < nodesUsed && m in leaves && 0 <= j < n && lo[m] <= j < hi[m] ==> owner[j] == m
    {
      var k, l, i := c.node, c.left, c.at;
      var first, end := old(lo[k]), old(hi[k]);
      forall m, j | 0 <= m < nodesUsed && m in leaves && 0 <= j < n && lo[m] <= j < hi[m]
        ensures owner[j] == m
      {
        if m != l && m != l + 1 {
          assert old(owner)[j] == m;
        }
      }
    }

    /** After a split the leaves are the slots with members, one more than before, and the indices are untouched. */
    twostate lemma SplitLeavesOk(c: Cut)
      requires SplitStep(c.node, c.left, c.at)
      ensures forall j :: 0 <= j < n ==> 0 <= indices[j] < n
      ensures multiset(indices[..]) == multiset(Iota(n))
      ensures forall m :: m in leaves <==> 0 <= m < nodesUsed && nodes[m].count > 0
      ensures nodesUsed == 2 * |leaves| - 1
    {
      var k, l, i := c.node, c.left, c.at;
      CardReplace(old(leaves), k, l, l + 1);
    }

    /** A split leaves earlier slots other than k, and all ranges already in use, as they were. */
    twostate lemma SplitFrames(c: Cut)
      requires SplitStep(c.node, c.left, c.at)
      ensures lo[c.left] == old(lo[c.node]) && hi[c.left] == c.at && lo[c.left + 1] == c.at && hi[c.left + 1] == old(hi[c.node])
      ensures nodes[c.left].count > 0 && nodes[c.left + 1].count > 0
      ensures forall m :: 0 <= m < old(nodesUsed) && m != c.node ==> nodes[m] == old(nodes[m])
      ensures forall m :: 0 <= m < old(nodesUsed) ==> lo[m] == old(lo[m]) && hi[m] == old(hi[m])
    {
    }

    /** The state SplitLeaf and the two refits leave behind satisfies the invariant again. */
    twostate lemma SplitKeepsValid(c: Cut)
      requires SplitStep(c.node, c.left, c.at)
      ensures Valid()
      ensures lo[c.left] == old(lo[c.node]) && hi[c.left] == c.at && lo[c.left + 1] == c.at && hi[c.left + 1] == old(hi[c.node])
      ensures nodes[c.left].count > 0 && nodes[c.left + 1].count > 0
      ensures forall m :: 0 <= m < old(nodesUsed) && m != c.node ==> nodes[m] == old(nodes[m])
      ensures forall m :: 0 <= m < old(nodesUsed) ==> lo[m] == old(lo[m]) && hi[m] == old(hi[m])
    {
      SplitFrames(c);
      SplitNodesOk(c);
      SplitOwnersOk(c);
      SplitLeavesOk(c);
    }

    /**
     * The split itself: fresh children over [first, i) and [i, end), both
     * refitted. Earlier slots other than k and all ranges already in use
     * stay as they were.
     */
    method Subdivide(k: int, i: int) returns (l: int)
      requires Valid() && 0 <= k < nodesUsed && nodes[k].count > 0
      requires lo[k] < i < hi[k]
      modifies this, nodes
      ensures Valid()
      ensures l == old(nodesUsed) && nodesUsed == l + 2
      ensures lo[l] == old(lo[k]) && hi[l] == i && lo[l + 1] == i && hi[l + 1] == old(hi[k])
      ensures nodes[l].count > 0 && nodes[l + 1].count > 0
      ensures forall m :: 0 <= m < old(nodesUsed) && m != k ==> nodes[m] == old(nodes[m])
      ensures nodes[k].box == old(nodes[k].box)
      ensures forall m :: 0 <= m < old(nodesUsed) ==> lo[m] == old(lo[m]) && hi[m] == old(hi[m])
    {
      assert NodeOk(k, indices[..]);
      LeafCountBound(k);
      l := SplitLeaf(k, i);
      RefitChildren(l);
      SplitKeepsValid(Cut(k, l, i));
    }

    /** The boundary sah_divide chooses: the first of least cost over the buckets of start..stop-1. */
    ghost function BestBoundary(s: seq<int>, b: Box, axis: int, start: int, stop: int): int
      requires 0 <= start <= stop <= |s| && InRange(s)
    {
      BestSplit(NodeBuckets(s, b, axis, start, stop), Area(b))
    }

    /** The bucket of the member at position j of s for node box b on the axis. */
    ghost function Key(s: seq<int>, b: Box, axis: int, j: int): int
      requires 0 <= j < |s| && InRange(s)
    {
      BucketOf(Index(Offset(b, centroidOf(prims[s[j]])), axis))
    }

    /** The buckets as the first loop of sah_divide fills them from the members at positions start..stop-1. */
    ghost function NodeBuckets(s: seq<int>, b: Box, axis: int, start: int, stop: int): (bk: seq<Bucket>)
      requires 0 <= start <= stop <= |s| && InRange(s)
      ensures |bk| == NBuckets
      decreases stop - start
    {
      if stop == start then EmptyBuckets()
      else
        var prev := NodeBuckets(s, b, axis, start, stop - 1);
        var key := Key(s, b, axis, stop - 1);
        var p := prims[s[stop - 1]];
        if 0 <= key < NBuckets then AddTo(prev, key, minOf(p), maxOf(p)) else prev
    }

    /** A box that covers a member's bounds holds its centroid, whose bucket is then one of the twenty. */
    lemma KeyInRange(s: seq<int>, b: Box, axis: int, j: int)
      requires CentroidsInBounds() && InRange(s) && Covers(b, s, j)
      ensures ContainsPoint(b, centroidOf(prims[s[j]]))
      ensures 0 <= Key(s, b, axis, j) < NBuckets
    {
      var c := centroidOf(prims[s[j]]);
      OffsetInUnitCube(b, c);
      BucketInRange(Index(Offset(b, c), axis));
    }

    /**
     * On an axis of positive extent, the members whose centroid lies below
     * the plane after boundary best are exactly those whose bucket is at or
     * before it.
     */
    lemma PlaneSeparatesMembers(s: seq<int>, b: Box, axis: int, start: int, stop: int, best: int)
      requires CentroidsInBounds() && InRange(s) && 0 <= start <= stop <= |s|
      requires forall j :: start <= j < stop ==> Covers(b, s, j)
      requires Index(Extents(b), axis) > 0.0 && 0 <= best < NSplits
      ensures forall j :: start <= j < stop ==>
                (Index(centroidOf(prims[s[j]]), axis) < SplitPlane(b, axis, best) <==> Key(s, b, axis, j) <= best)
    {
      forall j | start <= j < stop
        ensures Index(centroidOf(prims[s[j]]), axis) < SplitPlane(b, axis, best) <==> Key(s, b, axis, j) <= best
      {
        KeyInRange(s, b, axis, j);
        PlaneSeparatesOffsets(b, centroidOf(prims[s[j]]), axis, best);
      }
    }

    /** Every member is counted in exactly one bucket. */
    lemma {:induction false} BucketsCountMembers(s: seq<int>, b: Box, axis: int, start: int, stop: int)
      requires 0 <= start <= stop <= |s| && InRange(s)
      requires forall j :: start <= j < stop ==> 0 <= Key(s, b, axis, j) < NBuckets
      ensures SideCount(NodeBuckets(s, b, axis, start, stop), 0, NBuckets) == stop - start
      decreases stop - start
    {
      if stop == start {
        EmptyBucketsCountNothing(NBuckets);
      } else {
        BucketsCountMembers(s, b, axis, start, stop - 1);
        var p := prims[s[stop - 1]];
        var prev, key := NodeBuckets(s, b, axis, start, stop - 1), Key(s, b, axis, stop - 1);
        assert NodeBuckets(s, b, axis, start, stop) == AddTo(prev, key, minOf(p), maxOf(p));
        SideCountAddTo(prev, key, minOf(p), maxOf(p), 0, NBuckets);
        assert SideCount(NodeBuckets(s, b, axis, start, stop), 0, NBuckets) == SideCount(prev, 0, NBuckets) + 1;
      }
    }

    /** Each bucket's box covers the bounds of every member in it. */
    lemma {:induction false} BucketBoxesCover(s: seq<int>, b: Box, axis: int, start: int, stop: int)
      requires 0 <= start <= stop <= |s| && InRange(s)
      ensures forall j :: start <= j < stop && 0 <= Key(s, b, axis, j) < NBuckets ==>
                Covers(NodeBuckets(s, b, axis, start, stop)[Key(s, b, axis, j)].box, s, j)
      decreases stop - start
    {
      if stop > start {
        BucketBoxesCover(s, b, axis, start, stop - 1);
        var prev := NodeBuckets(s, b, axis, start, stop - 1);
        forall j | start <= j < stop && 0 <= Key(s, b, axis, j) < NBuckets
          ensures Covers(NodeBuckets(s, b, axis, start, stop)[Key(s, b, axis, j)].box, s, j)
        {
          if j < stop - 1 && Key(s, b, axis, j) == Key(s, b, axis, stop - 1) {
            assert Covers(prev[Key(s, b, axis, j)].box, s, j);
          }
        }
      }
    }

    /** buckets[b].count++ and buckets[b].bounds.fix(bounds) on the local bucket array. */
    static method AddToBucket(buckets: array<Bucket>, b: int, lo: Vec3, hi: Vec3)
      requires 0 <= b < buckets.Length
      modifies buckets
      ensures buckets[..] == AddTo(old(buckets[..]), b, lo, hi)
    {
      buckets[b] := Bucket(buckets[b].count + 1, Fix(buckets[b].box, lo, hi));
    }

    /** The first loop of sah_divide: every member of the range goes into the bucket of its centroid. */
    method FillBuckets(box: Box, axis: int, first: int, count: int) returns (bk: seq<Bucket>)
      requires CentroidsInBounds() && InRange(indices[..])
      requires 0 <= first && 0 <= count && first + count <= indices.Length
      requires forall j :: first <= j < first + count ==> Covers(box, indices[..], j)
      ensures bk == NodeBuckets(indices[..], box, axis, first, first + count)
    {
      var buckets := new Bucket[NBuckets](_ => EmptyBucket());
      var i := 0;
      while i < count
        invariant 0 <= i <= count
        invariant buckets[..] == NodeBuckets(indices[..], box, axis, first, first + i)
      {
        ghost var key := Key(indices[..], box, axis, first + i);
        KeyInRange(indices[..], box, axis, first + i);
        var p := prims[indices[first + i]];
        var b := BucketOf(Index(Offset(box, centroidOf(p)), axis));
        assert b == key;
        assert NodeBuckets(indices[..], box, axis, first, first + i + 1)
            == AddTo(NodeBuckets(indices[..], box, axis, first, first + i), b, minOf(p), maxOf(p));
        AddToBucket(buckets, b, minOf(p), maxOf(p));
        i := i + 1;
      }
      bk := buckets[..];
    }

    /**
     * The first half of BVH::sah_divide on a leaf: the axis of the largest
     * extent of its box, the twenty buckets filled from its members, the
     * cost of each boundary and the plane of the cheapest (the first of
     * equal ones). On an axis of positive extent, a member's centroid lies
     * below the plane exactly when its bucket is at or before the chosen
     * boundary, so the partition that follows sends left exactly the members
     * that boundary's cost counted on the left.
     */
    method ChooseSplit(k: int) returns (axis: int, split: real)
      requires Shape() && InRange(indices[..]) && CentroidsInBounds() && 0 <= k < nodesUsed
      requires 0 <= lo[k] < hi[k] <= n && nodes[k].firstIndex == lo[k] && nodes[k].count == hi[k] - lo[k]
      requires forall j :: lo[k] <= j < hi[k] ==> Covers(nodes[k].box, indices[..], j)
      ensures axis == SplitAxis(Extents(nodes[k].box))
      ensures split == SplitPlane(nodes[k].box, axis, BestBoundary(indices[..], nodes[k].box, axis, lo[k], hi[k]))
      ensures Index(Extents(nodes[k].box), axis) > 0.0 ==>
                forall j :: lo[k] <= j < hi[k] ==>
                  (CentroidAt(j, axis) < split
                   <==> Key(indices[..], nodes[k].box, axis, j) <= BestBoundary(indices[..], nodes[k].box, axis, lo[k], hi[k]))
    {
      var box := nodes[k].box;
      var extents := Extents(box);
      axis := SplitAxis(extents);
      var first, count := nodes[k].firstIndex, nodes[k].count;
      var buckets := FillBuckets(box, axis, first, count);
      assert first + count == hi[k];
      assert buckets == NodeBuckets(indices[..], box, axis, lo[k], hi[k]);
      var area := Area(box);
      var best := 0;
      if area != 0.0 {
        var cost := SplitCosts(buckets, area);
        best := MinCostSplit(cost);
      }
      assert best == BestSplit(buckets, area);
      split := SplitPlane(box, axis, best);
      if Index(extents, axis) > 0.0 {
        PlaneSeparatesMembers(indices[..], box, axis, lo[k], hi[k], best);
      }
    }

    /**
     * One step of BVH::sah_divide on a leaf with more than two members: its
     * members are partitioned at the chosen plane and, unless one side is
     * empty, the leaf becomes an internal node over two fresh leaves that
     * share its range, each strictly smaller.
     */
    method DivideOnce(k: int) returns (divided: bool, l: int)
      requires Valid() && 0 <= k < nodesUsed && nodes[k].count > 2
      modifies this, nodes, indices
      ensures Valid()
      ensures divided ==> l == old(nodesUsed) && nodesUsed == l + 2
                          && lo[l] == lo[k] < hi[l] == lo[l + 1] < hi[l + 1] == hi[k]
                          && nodes[l].count > 0 && nodes[l + 1].count > 0
      ensures !divided ==> nodesUsed == old(nodesUsed) && nodes[k] == old(nodes[k])
      ensures forall m :: 0 <= m < old(nodesUsed) && m != k ==> nodes[m] == old(nodes[m])
      ensures nodes[k].box == old(nodes[k].box)
      ensures forall m :: 0 <= m < old(nodesUsed) ==> lo[m] == old(lo[m]) && hi[m] == old(hi[m])
      ensures forall j :: 0 <= j < n && !(lo[k] <= j < hi[k]) ==> indices[j] == old(indices[j])
    {
      assert NodeOk(k, indices[..]);
      var axis, split := ChooseSplit(k);
      var i := Partition(k, axis, split);
      var leftCount := i - nodes[k].firstIndex;
      if leftCount == 0 || leftCount == nodes[k].count {
        return false, 0;
      }
      l := Subdivide(k, i);
      divided := true;
    }

    /**
     * BVH::sah_divide: a leaf with more than two members is partitioned at
     * the chosen plane and, unless one side is empty, split into two leaves
     * that are divided in turn. Only the nodes below k and the order of
     * k's own members change.
     */
    method SahDivide(k: int)
      requires Valid() && 0 <= k < nodesUsed && nodes[k].count > 0
      modifies this, nodes, indices
      ensures Valid()
      ensures old(nodesUsed) <= nodesUsed
      ensures forall m :: 0 <= m < old(nodesUsed) && m != k ==> nodes[m] == old(nodes[m])
      ensures nodes[k].box == old(nodes[k].box)
      ensures forall m :: 0 <= m < old(nodesUsed) ==> lo[m] == old(lo[m]) && hi[m] == old(hi[m])
      ensures forall j :: 0 <= j < n && !(lo[k] <= j < hi[k]) ==> indices[j] == old(indices[j])
      ensures old(nodes[k].count) <= 2 ==> nodes[k] == old(nodes[k]) && nodesUsed == old(nodesUsed)
      decreases hi[k] - lo[k]
    {
      if nodes[k].count <= 2 {
        return;
      }
      var divided, l := DivideOnce(k);
      if divided {
        SahDivide(l);
        SahDivide(l + 1);
      }
    }
  
    /**
     * BVH(obs): indices become the identity over [0, N), 2N - 1 default
     * nodes are allocated, the root covers [0, N), and the tree is built.
     * N = 0 would wrap N * 2 - 1 round, so at least one primitive is needed;
     * every centroid must lie within its primitive's bounds, as the bucket
     * index relies on.
     */
    constructor (prims: seq<P>, centroidOf: P -> Vec3, minOf: P -> Vec3, maxOf: P -> Vec3)
      requires |prims| >= 1
      requires forall i :: 0 <= i < |prims| ==>
                 Le(minOf(prims[i]), centroidOf(prims[i])) && Le(centroidOf(prims[i]), maxOf(prims[i]))
      ensures Valid()
      ensures this.prims == prims && this.centroidOf == centroidOf && this.minOf == minOf && this.maxOf == maxOf
      ensures fresh(nodes) && fresh(indices)
      ensures nodes[0].box == MemberBox(Iota(n), 0, n)
    {
      this.prims := prims;
      this.centroidOf := centroidOf;
      this.minOf := minOf;
      this.maxOf := maxOf;
      n := |prims|;
      var ind := new int[|prims|];
      var i := 0;
      while i < |prims|
        invariant 0 <= i <= |prims|
        invariant forall j :: 0 <= j < i ==> ind[j] == j
      {
        ind[i] := i;
        i := i + 1;
      }
      indices := ind;
      nodes := new Node[2 * |prims| - 1](_ => DefaultNode());
      nodesUsed := 1;
      lo := seq(2 * |prims| - 1, _ => 0);
      hi := seq(2 * |prims| - 1, _ => |prims|);
      owner := seq(|prims|, _ => 0);
      leaves := {0};
      new;
      assert indices[..] == Iota(n);
      Build();
    }

    /** BVH::build: the root gets the whole range, is refitted and divided. */
    method Build()
      requires Shape() && nodesUsed == 1 && leaves == {0} && forall j :: 0 <= j < n ==> owner[j] == 0
      requires indices[..] == Iota(n) && CentroidsInBounds()
      modifies this, nodes, indices
      ensures Valid()
      ensures nodes[0].box == MemberBox(Iota(n), 0, n)
    {
      nodes[0] := nodes[0].(firstIndex := 0, count := n);
      RefitNode(0);
      MemberBoxCovers(indices[..], 0, n);
      assert NodeOk(0, indices[..]);
      SahDivide(0);
    }

    /** Every member of a node's range has its bounds inside the node's box. */
    lemma {:induction false} SubtreeEncloses(k: int, j: int)
      requires Traversable() && 0 <= k < nodesUsed && lo[k] <= j < hi[k]
      ensures 0 <= j < n && 0 <= indices[j] < n && Encloses(nodes[k].box, minOf(prims[indices[j]]), maxOf(prims[indices[j]]))
      decreases hi[k] - lo[k]
    {
      assert NodeOk(k, indices[..]);
      if nodes[k].count > 0 {
        assert Covers(nodes[k].box, indices[..], j);
      } else {
        var l := nodes[k].leftChild;
        assert NodeOk(l, indices[..]) && NodeOk(l + 1, indices[..]);
        var c := if j < hi[l] then l else l + 1;
        SubtreeEncloses(c, j);
      }
    }

    /**
     * Every node's box is exactly refit_node over its range, as when it was
     * created: an internal node was refitted as a leaf before its members
     * were partitioned between its children.
     */
    lemma {:induction false} NodeBoxIsRefit(k: int)
      requires Valid() && 0 <= k < nodesUsed
      ensures InRange(indices[..]) && 0 <= lo[k] <= hi[k] <= n
      ensures nodes[k].box == MemberBox(indices[..], lo[k], hi[k])
      decreases hi[k] - lo[k]
    {
      assert NodeOk(k, indices[..]) && BoxOk(k, indices[..]);
      if nodes[k].count == 0 {
        var l := nodes[k].leftChild;
        assert NodeOk(l, indices[..]) && NodeOk(l + 1, indices[..]);
        NodeBoxIsRefit(l);
        NodeBoxIsRefit(l + 1);
        MemberBoxJoin(indices[..], lo[k], hi[l], hi[k]);
      }
    }

    /** BVH::min_vertex: the root box's lower corner, below every primitive's bounds. */
    function MinVertex(): (v: Vec3)
      reads this, nodes, indices
      requires Valid()
      ensures forall i :: 0 <= i < n ==> Le(v, minOf(prims[i]))
    {
      RootEnclosesAll();
      nodes[0].box.min
    }

    /** BVH::max_vertex: the root box's upper corner, above every primitive's bounds. */
    function MaxVertex(): (v: Vec3)
      reads this, nodes, indices
      requires Valid()
      ensures forall i :: 0 <= i < n ==> Le(maxOf(prims[i]), v)
    {
      RootEnclosesAll();
      nodes[0].box.max
    }

    /** BVH::centroid: the center of the root box, which lies between its corners. */
    function Centroid(): (c: Vec3)
      reads this, nodes, indices
      requires Valid()
      ensures Le(MinVertex(), c) && Le(c, MaxVertex())
    {
      RootEnclosesAll();
      assert Le(minOf(prims[0]), maxOf(prims[0]));
      Center(nodes[0].box)
    }

    /** The root box encloses the bounds of every primitive. */
    lemma RootEnclosesAll()
      requires Valid()
      ensures forall i :: 0 <= i < n ==> Encloses(nodes[0].box, minOf(prims[i]), maxOf(prims[i]))
    {
      forall i | 0 <= i < n
        ensures Encloses(nodes[0].box, minOf(prims[i]), maxOf(prims[i]))
      {
        var j := PositionOf(i);
        SubtreeEncloses(0, j);
      }
    }

    /** Every primitive sits at some position of the index permutation. */
    lemma PositionOf(i: int) returns (j: int)
      requires Valid() && 0 <= i < n
      ensures 0 <= j < n && indices[j] == i
    {
      assert Iota(n)[i] == i;
      assert i in multiset(Iota(n));
      assert i in multiset(indices[..]);
      j :| 0 <= j < n && indices[..][j] == i;
    }

    // -------------------------------------------------------------------
    // The iterative traversal

    /** The number of nodes a subtree over a range of this length has: 2 (hi - lo) - 1. */
    ghost function Weight(k: int): int
      reads this
    {
      if 0 <= k < |lo| && k < |hi| then 2 * (hi[k] - lo[k]) - 1 else 0
    }

    /** The weights of the pending subtrees on the stack. */
    ghost function StackWeight(stack: seq<int>): int
      reads this
    {
      if |stack| == 0 then 0 else StackWeight(stack[..|stack| - 1]) + Weight(stack[|stack| - 1])
    }

    /** Position j lies in the range of node k. */
    ghost predicate InSpan(j: int, k: int)
      reads this
    {
      0 <= k < |lo| && k < |hi| && lo[k] <= j < hi[k]
    }

    /** Position j lies in the range of some node on the stack. */
    ghost predicate InStack(j: int, stack: seq<int>)
      reads this
    {
      |stack| > 0 && (InSpan(j, stack[|stack| - 1]) || InStack(j, stack[..|stack| - 1]))
    }

    /**
     * The primitive at position j cannot improve on distance d: it has no
     * candidate distance, or one no smaller than d.
     */
    ghost predicate Settled(cand: CandidateFn<P>, ray: Ray, j: int, d: real)
      reads indices
    {
      0 <= j < indices.Length && 0 <= indices[j] < |prims|
      && (cand(prims[indices[j]], ray).Some? ==> d <= cand(prims[indices[j]], ray).value)
    }

    /** No primitive in the range of node k can improve on d. */
    ghost predicate SpanSettled(cand: CandidateFn<P>, ray: Ray, d: real, k: int)
      reads this, indices
    {
      forall j :: InSpan(j, k) ==> Settled(cand, ray, j, d)
    }

    /** No primitive outside the ranges still to be visited (node and the stack) can improve on d. */
    ghost predicate SettledBeyond(cand: CandidateFn<P>, ray: Ray, d: real, node: int, stack: seq<int>)
      reads this, indices
    {
      forall j :: 0 <= j < n && !InSpan(j, node) && !InStack(j, stack) ==> Settled(cand, ray, j, d)
    }

    /** No primitive at all can improve on d. */
    ghost predicate AllSettled(cand: CandidateFn<P>, ray: Ray, d: real)
      reads indices
    {
      forall j :: 0 <= j < n ==> Settled(cand, ray, j, d)
    }

    /** A smaller distance is as settled as a larger one, since candidates are compared against it from below. */
    lemma SettledBeyondLower(cand: CandidateFn<P>, ray: Ray, d: real, d2: real, node: int, stack: seq<int>)
      requires SettledBeyond(cand, ray, d, node, stack) && d2 <= d
      ensures SettledBeyond(cand, ray, d2, node, stack)
    {
      forall j | 0 <= j < n && !InSpan(j, node) && !InStack(j, stack)
        ensures Settled(cand, ray, j, d2)
      {
        assert Settled(cand, ray, j, d);
      }
    }

    /**
     * Once the current node's range is settled, the next node is the top of
     * the stack, or, with an empty stack, every primitive is settled.
     */
    lemma PopSettled(cand: CandidateFn<P>, ray: Ray, d: real, node: int, stack: seq<int>)
      requires SettledBeyond(cand, ray, d, node, stack) && SpanSettled(cand, ray, d, node)
      ensures |stack| == 0 ==> AllSettled(cand, ray, d)
      ensures |stack| > 0 ==> SettledBeyond(cand, ray, d, stack[|stack| - 1], stack[..|stack| - 1])
    {
    }

    /** The two children of an internal node tile its range, and its weight is theirs plus one. */
    lemma ChildrenTile(k: int)
      requires Traversable() && 0 <= k < nodesUsed && nodes[k].count <= 0
      ensures var l := nodes[k].leftChild;
              k < l && l + 1 < nodesUsed && Weight(l) >= 1 && Weight(l + 1) >= 1
              && Weight(k) == Weight(l) + Weight(l + 1) + 1
              && (forall j :: InSpan(j, k) <==> InSpan(j, l) || InSpan(j, l + 1))
              && Halves(k, l, l + 1) && Halves(k, l + 1, l)
    {
      var l := nodes[k].leftChild;
      assert NodeOk(k, indices[..]);
      assert NodeOk(l, indices[..]) && NodeOk(l + 1, indices[..]);
    }

    /**
     * Descending into child c1 of node, with c2 either pushed or settled,
     * keeps everything outside the ranges still to be visited settled.
     */
    lemma DescendSettled(cand: CandidateFn<P>, ray: Ray, d: real, node: int, stack: seq<int>, c1: int, c2: int,
                         push: bool)
      requires SettledBeyond(cand, ray, d, node, stack)
      requires forall j :: InSpan(j, node) ==> InSpan(j, c1) || InSpan(j, c2)
      requires !push ==> SpanSettled(cand, ray, d, c2)
      ensures SettledBeyond(cand, ray, d, c1, if push then stack + [c2] else stack)
      ensures StackWeight(stack + [c2]) == StackWeight(stack) + Weight(c2)
    {
      assert (stack + [c2])[..|stack|] == stack;
    }

    /** The two pruned children of a node settle the node's whole range. */
    lemma JoinSettled(cand: CandidateFn<P>, ray: Ray, d: real, node: int, c1: int, c2: int)
      requires forall j :: InSpan(j, node) ==> InSpan(j, c1) || InSpan(j, c2)
      requires SpanSettled(cand, ray, d, c1) && SpanSettled(cand, ray, d, c2)
      ensures SpanSettled(cand, ray, d, node)
    {
    }

    /**
     * A node that is not entered, or entered no earlier than distance d,
     * holds no primitive that can improve on d.
     */
    lemma PrunedSettled(cand: CandidateFn<P>, ray: Ray, k: int, d: real)
      requires Traversable() && 0 <= k < nodesUsed && BoxSound(cand, minOf, maxOf, ray)
      requires EntryDistance(nodes[k].box, ray).Miss? || EntryDistance(nodes[k].box, ray).t >= d
      ensures SpanSettled(cand, ray, d, k)
    {
      forall j | lo[k] <= j < hi[k]
        ensures Settled(cand, ray, j, d)
      {
        SubtreeEncloses(k, j);
        var p := prims[indices[j]];
        assert Encloses(nodes[k].box, minOf(p), maxOf(p));
      }
    }

    /**
     * When every position is settled against the distance of the fold over
     * primitives tested so far, that distance is the nearest candidate
     * among all primitives.
     */
    lemma AllSettledIsNearest(intersect: IntersectFn<P>, cand: CandidateFn<P>, ray: Ray, h: RayHit,
                              tested: seq<P>, d: real)
      requires Valid() && ActsAsCandidate(intersect, cand, ray)
      requires d == FoldHits(intersect, tested, ray, h).1.distance
      requires forall t :: 0 <= t < |tested| ==> tested[t] in prims
      requires AllSettled(cand, ray, d)
      ensures d == Nearest(cand, prims, ray, h.distance)
    {
      FoldFindsNearest(intersect, cand, tested, ray, h);
      NearestIsMinimum(cand, tested, ray, h.distance);
      forall i | 0 <= i < |prims| && cand(prims[i], ray).Some?
        ensures d <= cand(prims[i], ray).value
      {
        var j := PositionOf(i);
        assert Settled(cand, ray, j, d);
      }
      if d != h.distance {
        var t :| 0 <= t < |tested| && cand(tested[t], ray) == Some(d);
        var i :| 0 <= i < |prims| && prims[i] == tested[t];
      }
      assert IsNearest(d, h.distance, cand, prims, ray);
      NearestIsMinimum(cand, prims, ray, h.distance);
      NearestUnique(d, Nearest(cand, prims, ray, h.distance), h.distance, cand, prims, ray);
    }

    /** A node in use has a non-empty range. */
    lemma InUseWeight(k: int)
      requires Traversable() && 0 <= k < nodesUsed
      ensures Weight(k) >= 1
    {
      assert NodeOk(k, indices[..]);
    }

    /** Every node in use has a non-empty range, so a stack of them weighs at least its length. */
    lemma {:induction false} StackWeightBound(stack: seq<int>)
      requires Traversable() && InUse(stack)
      ensures StackWeight(stack) >= |stack|
    {
      if |stack| > 0 {
        PopInUse(stack);
        StackWeightBound(stack[..|stack| - 1]);
        assert NodeOk(stack[|stack| - 1], indices[..]);
      }
    }

    /** Every node on the stack is in use. */
    ghost predicate InUse(stack: seq<int>)
      reads this
    {
      forall t :: 0 <= t < |stack| ==> 0 <= stack[t] < nodesUsed
    }

    lemma PopInUse(stack: seq<int>)
      requires InUse(stack) && |stack| > 0
      ensures 0 <= stack[|stack| - 1] < nodesUsed && InUse(stack[..|stack| - 1])
    {
    }

    lemma PushInUse(stack: seq<int>, k: int)
      requires InUse(stack) && 0 <= k < nodesUsed
      ensures InUse(stack + [k])
    {
    }

    // -------------------------------------------------------------------
    // Each position tested once, and the stack bound

    /** The number of positions in node k's range. */
    ghost function Len(k: int): int
      reads this
    {
      if 0 <= k < |lo| && k < |hi| then hi[k] - lo[k] else 0
    }

    /** The number of positions in the ranges of the nodes on the stack. */
    ghost function StackLen(stack: seq<int>): int
      reads this
    {
      if |stack| == 0 then 0 else StackLen(stack[..|stack| - 1]) + Len(stack[|stack| - 1])
    }

    /** The positions start, start + 1, ..., start + count - 1. */
    ghost function Positions(start: int, count: nat): (r: seq<int>)
      ensures |r| == count && forall t :: 0 <= t < count ==> r[t] == start + t
    {
      seq(count, t => start + t)
    }

    /** The positions of node k's range, in order. */
    ghost function Span(k: int): seq<int>
      reads this
    {
      if 0 <= k < |lo| && k < |hi| && lo[k] <= hi[k] then Positions(lo[k], hi[k] - lo[k]) else []
    }

    /** The ranges of nodes a and b share no position. */
    ghost predicate Apart(a: int, b: int)
      reads this
    {
      0 <= a < |lo| && a < |hi| && 0 <= b < |lo| && b < |hi| && (hi[a] <= lo[b] || hi[b] <= lo[a])
    }

    /** Nodes a and b lie inside node k's range, apart from each other, and share its positions between them. */
    ghost predicate Halves(k: int, a: int, b: int)
      reads this
    {
      Apart(a, b) && 0 <= k < |lo| && k < |hi|
      && lo[k] <= lo[a] && hi[a] <= hi[k] && lo[k] <= lo[b] && hi[b] <= hi[k]
      && Len(a) + Len(b) == Len(k)
    }

    /** No position appears twice. */
    ghost predicate Distinct(ps: seq<int>) {
      forall a, b :: 0 <= a < b < |ps| ==> ps[a] != ps[b]
    }

    /** tested holds, in order, the primitives at the given positions of indices. */
    ghost predicate TestedAt(tested: seq<P>, ps: seq<int>)
      reads indices
    {
      |tested| == |ps|
      && forall t :: 0 <= t < |ps| ==>
           0 <= ps[t] < indices.Length && 0 <= indices[ps[t]] < |prims| && tested[t] == prims[indices[ps[t]]]
    }

    /**
     * The ranges still to visit, node's and those on the stack, are
     * pairwise apart and hold no position tested already (seen); together
     * with the tested positions they number at most N.
     */
    ghost predicate Pending(node: int, stack: seq<int>, seen: seq<int>)
      reads this
    {
      (forall t :: 0 <= t < |stack| ==> Apart(node, stack[t]))
      && (forall u, t :: 0 <= u < t < |stack| ==> Apart(stack[u], stack[t]))
      && (forall q :: 0 <= q < |seen| ==> !InSpan(seen[q], node))
      && (forall q, t :: 0 <= q < |seen| && 0 <= t < |stack| ==> !InSpan(seen[q], stack[t]))
      && |seen| + Len(node) + StackLen(stack) <= n
    }

    lemma TestedSnoc(tested: seq<P>, ps: seq<int>, j: int)
      requires TestedAt(tested, ps) && 0 <= j < indices.Length && 0 <= indices[j] < |prims|
      ensures TestedAt(tested + [prims[indices[j]]], ps + [j])
    {
    }

    lemma PositionsSnoc(seen: seq<int>, first: int, i: nat)
      ensures seen + Positions(first, i + 1) == seen + Positions(first, i) + [first + i]
    {
      assert Positions(first, i + 1) == Positions(first, i) + [first + i];
    }

    /** Every node in use has a non-empty range, so the stack holds no more entries than its ranges hold positions. */
    lemma {:induction false} StackLenBound(stack: seq<int>)
      requires Traversable() && InUse(stack)
      ensures StackLen(stack) >= |stack|
    {
      if |stack| > 0 {
        PopInUse(stack);
        StackLenBound(stack[..|stack| - 1]);
        assert NodeOk(stack[|stack| - 1], indices[..]);
      }
    }

    /** While a node is pending, the stack holds at most N - 1 entries. */
    lemma PendingBound(node: int, stack: seq<int>, seen: seq<int>)
      requires Traversable() && 0 <= node < nodesUsed && InUse(stack) && Pending(node, stack, seen)
      ensures |stack| < n
    {
      StackLenBound(stack);
      assert NodeOk(node, indices[..]);
    }

    /** Testing a pending leaf adds positions never tested before. */
    lemma SeenGrows(node: int, stack: seq<int>, seen: seq<int>)
      requires Pending(node, stack, seen) && Distinct(seen)
      ensures Distinct(seen + Span(node))
      ensures forall q :: |seen| <= q < |seen + Span(node)| ==> InSpan((seen + Span(node))[q], node)
    {
      var all := seen + Span(node);
      forall a, b | 0 <= a < b < |all|
        ensures all[a] != all[b]
      {
        if b >= |seen| && a < |seen| {
          assert !InSpan(seen[a], node);
        }
      }
    }

    /**
     * Moving on to the top of the stack once node is done, with the
     * positions done (inside node's range) now tested, keeps the pending
     * ranges apart and untested.
     */
    lemma PopPending(node: int, stack: seq<int>, seen: seq<int>, done: seq<int>)
      requires Pending(node, stack, seen) && |stack| > 0 && |done| <= Len(node)
      requires forall q :: 0 <= q < |done| ==> InSpan(done[q], node)
      ensures Pending(stack[|stack| - 1], stack[..|stack| - 1], seen + done)
    {
      var top, rest, all := stack[|stack| - 1], stack[..|stack| - 1], seen + done;
      forall q, t | 0 <= q < |all| && 0 <= t < |rest|
        ensures !InSpan(all[q], rest[t])
      {
        assert rest[t] == stack[t];
        if q >= |seen| {
          assert InSpan(done[q - |seen|], node) && Apart(node, stack[t]);
        }
      }
      forall q | 0 <= q < |all|
        ensures !InSpan(all[q], top)
      {
        if q >= |seen| {
          assert InSpan(done[q - |seen|], node) && Apart(node, stack[|stack| - 1]);
        }
      }
      forall u, t | 0 <= u < t < |rest|
        ensures Apart(rest[u], rest[t])
      {
        assert rest[u] == stack[u] && rest[t] == stack[t];
      }
      forall t | 0 <= t < |rest|
        ensures Apart(top, rest[t])
      {
        assert rest[t] == stack[t];
      }
    }

    /** Descending into one half of node, the other half pushed or dropped, keeps the pending ranges apart and untested. */
    lemma DescendPending(node: int, stack: seq<int>, seen: seq<int>, near: int, far: int, push: bool)
      requires Pending(node, stack, seen) && Halves(node, near, far)
      ensures Pending(near, if push then stack + [far] else stack, seen)
    {
      var next := if push then stack + [far] else stack;
      assert next[..|stack|] == stack;
      forall t | 0 <= t < |next|
        ensures Apart(near, next[t])
      {
        if t < |stack| {
          assert Apart(node, stack[t]);
        }
      }
      forall u, t | 0 <= u < t < |next|
        ensures Apart(next[u], next[t])
      {
        if t == |stack| {
          assert Apart(node, stack[u]);
        } else {
          assert Apart(stack[u], stack[t]);
        }
      }
      forall q, t | 0 <= q < |seen| && 0 <= t < |next|
        ensures !InSpan(seen[q], next[t])
      {
        if t == |stack| {
          assert !InSpan(seen[q], node);
        } else {
          assert !InSpan(seen[q], stack[t]);
        }
      }
      forall q | 0 <= q < |seen|
        ensures !InSpan(seen[q], near)
      {
        assert !InSpan(seen[q], node);
      }
    }

    /**
     * The leaf branch of BVH::intersect: every member of leaf k is tested
     * in order against the shared record, the answers OR-ed into hit. The
     * fold continues over the members; under the acceptance contract the
     * distance never grows and no member can improve on it afterwards.
     */
    method TestLeaf(intersect: IntersectFn<P>, ghost cand: CandidateFn<P>, ray: Ray, ghost h: RayHit, k: int,
                    hit0: bool, r0: RayHit, ghost tested0: seq<P>, ghost seen: seq<int>)
      returns (hit: bool, r: RayHit, ghost tested: seq<P>)
      requires Traversable() && 0 <= k < nodesUsed && nodes[k].count > 0
      requires (hit0, r0) == FoldHits(intersect, tested0, ray, h)
      requires forall t :: 0 <= t < |tested0| ==> tested0[t] in prims
      ensures (hit, r) == FoldHits(intersect, tested, ray, h)
      ensures forall t :: 0 <= t < |tested| ==> tested[t] in prims
      requires TestedAt(tested0, seen)
      ensures TestedAt(tested, seen + Span(k))
      ensures ActsAsCandidate(intersect, cand, ray) ==>
                r.distance <= r0.distance && SpanSettled(cand, ray, r.distance, k)
    {
      assert NodeOk(k, indices[..]);
      hit, r, tested := TestRange(intersect, cand, ray, h, nodes[k].firstIndex, nodes[k].count, hit0, r0, tested0, seen);
    }

    /** The loop of the leaf branch over the count positions from first. */
    method TestRange(intersect: IntersectFn<P>, ghost cand: CandidateFn<P>, ray: Ray, ghost h: RayHit, first: int, count: int,
                     hit0: bool, r0: RayHit, ghost tested0: seq<P>, ghost seen: seq<int>)
      returns (hit: bool, r: RayHit, ghost tested: seq<P>)
      requires 0 <= first && 0 <= count && first + count <= indices.Length
      requires forall j :: first <= j < first + count ==> 0 <= indices[j] < |prims|
      requires (hit0, r0) == FoldHits(intersect, tested0, ray, h)
      requires forall t :: 0 <= t < |tested0| ==> tested0[t] in prims
      requires TestedAt(tested0, seen)
      ensures (hit, r) == FoldHits(intersect, tested, ray, h)
      ensures forall t :: 0 <= t < |tested| ==> tested[t] in prims
      ensures TestedAt(tested, seen + Positions(first, count))
      ensures ActsAsCandidate(intersect, cand, ray) ==>
                r.distance <= r0.distance && forall j :: first <= j < first + count ==> Settled(cand, ray, j, r.distance)
    {
      hit, r, tested := hit0, r0, tested0;
      ghost var ps := seen;
      var i := 0;
      while i < count
        invariant 0 <= i <= count
        invariant (hit, r) == FoldHits(intersect, tested, ray, h)
        invariant forall t :: 0 <= t < |tested| ==> tested[t] in prims
        invariant ActsAsCandidate(intersect, cand, ray) ==>
                    r.distance <= r0.distance && forall j :: first <= j < first + i ==> Settled(cand, ray, j, r.distance)
        invariant TestedAt(tested, ps) && ps == seen + Positions(first, i)
      {
        hit, r, tested, ps := TestMember(intersect, cand, ray, h, first, first + i, hit, r, tested, ps);
        PositionsSnoc(seen, first, i);
        i := i + 1;
      }
    }

    /**
     * One turn of the leaf loop: the member at position j is tested against
     * the shared record and OR-ed into hit. Under the acceptance contract the
     * distance does not grow, so the members from first up to j stay settled.
     */
    method TestMember(intersect: IntersectFn<P>, ghost cand: CandidateFn<P>, ray: Ray, ghost h: RayHit, first: int, j: int,
                      hit0: bool, r0: RayHit, ghost tested0: seq<P>, ghost ps0: seq<int>)
      returns (hit: bool, r: RayHit, ghost tested: seq<P>, ghost ps: seq<int>)
      requires 0 <= first <= j < indices.Length && 0 <= indices[j] < |prims|
      requires (hit0, r0) == FoldHits(intersect, tested0, ray, h)
      requires forall t :: 0 <= t < |tested0| ==> tested0[t] in prims
      requires TestedAt(tested0, ps0)
      requires ActsAsCandidate(intersect, cand, ray) ==> forall q :: first <= q < j ==> Settled(cand, ray, q, r0.distance)
      ensures (hit, r) == FoldHits(intersect, tested, ray, h)
      ensures forall t :: 0 <= t < |tested| ==> tested[t] in prims
      ensures TestedAt(tested, ps) && ps == ps0 + [j]
      ensures ActsAsCandidate(intersect, cand, ray) ==>
                r.distance <= r0.distance && forall q :: first <= q <= j ==> Settled(cand, ray, q, r.distance)
    {
      var p := prims[indices[j]];
      var step := intersect(p, ray, r0);
      FoldStep(intersect, tested0, p, ray, h);
      TestedSnoc(tested0, ps0, j);
      if ActsAsCandidate(intersect, cand, ray) {
        assert Accepts(step, cand(p, ray), r0);
        forall q | first <= q <= j
          ensures Settled(cand, ray, q, step.1.distance)
        {
          if q < j {
            assert Settled(cand, ray, q, r0.distance);
          }
        }
      }
      hit, r, tested, ps := hit0 || step.0, step.1, tested0 + [p], ps0 + [j];
    }

    /**
     * The internal-node branch of BVH::intersect: the two children ordered
     * by entry distance (the second only when strictly farther), then
     * whether to descend into the nearer one (it is entered, no later than
     * d) and whether to push the farther one (it is entered, strictly before
     * d). The children tile the node's range.
     */
    method OrderChildren(k: int, ray: Ray, d: real) returns (descend: bool, near: int, far: int, push: bool)
      requires Traversable() && 0 <= k < nodesUsed && nodes[k].count <= 0
      ensures {near, far} == {nodes[k].leftChild, nodes[k].leftChild + 1} && near != far
      ensures 0 <= near < nodesUsed && 0 <= far < nodesUsed && Weight(near) >= 1 && Weight(far) >= 1
      ensures Weight(k) == Weight(near) + Weight(far) + 1
      ensures forall j :: InSpan(j, k) ==> InSpan(j, near) || InSpan(j, far)
      ensures Halves(k, near, far)
      ensures !Farther(EntryDistance(nodes[near].box, ray), EntryDistance(nodes[far].box, ray))
      ensures descend <==> EntryDistance(nodes[near].box, ray).At? && EntryDistance(nodes[near].box, ray).t <= d
      ensures push <==> descend && EntryDistance(nodes[far].box, ray).At? && EntryDistance(nodes[far].box, ray).t < d
      ensures !descend ==> EntryDistance(nodes[far].box, ray).Miss? || EntryDistance(nodes[far].box, ray).t >= d
    {
      ChildrenTile(k);
      var c1, c2 := nodes[k].leftChild, nodes[k].leftChild + 1;
      var t1, t2 := EntryDistance(nodes[c1].box, ray), EntryDistance(nodes[c2].box, ray);
      if Farther(t1, t2) {
        c1, c2 := c2, c1;
        t1, t2 := t2, t1;
      }
      near, far := c1, c2;
      if t1.Miss? || t1.t > d {
        descend, push := false, false;
      } else {
        descend := true;
        push := t2.At? && t2.t < d;
      }
    }

    /**
     * Once node is finished, the traversal continues with the node on top
     * of the stack, or stops when the stack is empty. With node's range
     * settled, what lies outside the ranges still to visit stays settled,
     * and the pending weight shrinks.
     */
    method NextNode(ghost cand: CandidateFn<P>, ray: Ray, ghost d: real, ghost settled: bool, node: int, stack: seq<int>)
      returns (searching: bool, next: int, rest: seq<int>)
      requires Traversable() && 0 <= node < nodesUsed && InUse(stack)
      requires settled ==> SettledBeyond(cand, ray, d, node, stack) && SpanSettled(cand, ray, d, node)
      ensures searching <==> |stack| > 0
      ensures 0 <= next < nodesUsed && InUse(rest)
      ensures searching ==> next == stack[|stack| - 1] && rest == stack[..|stack| - 1]
      ensures searching ==> StackWeight(rest) + Weight(next) < StackWeight(stack) + Weight(node)
      ensures settled ==> if searching then SettledBeyond(cand, ray, d, next, rest) else AllSettled(cand, ray, d)
    {
      InUseWeight(node);
      if settled {
        PopSettled(cand, ray, d, node, stack);
      }
      if |stack| == 0 {
        searching, next, rest := false, node, stack;
      } else {
        PopInUse(stack);
        searching, next, rest := true, stack[|stack| - 1], stack[..|stack| - 1];
      }
    }

    /**
     * One visit of a leaf: its members are tested against the shared
     * record, then the traversal moves on to the top of the stack. The
     * fold continues over the members, what lies outside the ranges still
     * to visit stays settled against the new distance, and the pending
     * weight shrinks. The leaf's positions join the tested ones (seen),
     * none of them tested before, and the ranges still to visit stay
     * apart and untested.
     */
    method VisitLeaf(intersect: IntersectFn<P>, ghost cand: CandidateFn<P>, ray: Ray, ghost h: RayHit, ghost sound: bool,
                     node: int, stack: seq<int>, hit0: bool, r0: RayHit, ghost tested0: seq<P>, ghost seen0: seq<int>)
      returns (searching: bool, next: int, rest: seq<int>, hit: bool, r: RayHit, ghost tested: seq<P>, ghost seen: seq<int>)
      requires Traversable() && 0 <= node < nodesUsed && nodes[node].count > 0 && InUse(stack)
      requires (hit0, r0) == FoldHits(intersect, tested0, ray, h)
      requires forall t :: 0 <= t < |tested0| ==> tested0[t] in prims
      requires sound ==> ActsAsCandidate(intersect, cand, ray) && SettledBeyond(cand, ray, r0.distance, node, stack)
      requires TestedAt(tested0, seen0) && Distinct(seen0) && Pending(node, stack, seen0)
      ensures 0 <= next < nodesUsed && InUse(rest)
      ensures (hit, r) == FoldHits(intersect, tested, ray, h)
      ensures forall t :: 0 <= t < |tested| ==> tested[t] in prims
      ensures searching ==> StackWeight(rest) + Weight(next) < StackWeight(stack) + Weight(node)
      ensures sound ==> if searching then SettledBeyond(cand, ray, r.distance, next, rest) else AllSettled(cand, ray, r.distance)
      ensures seen == seen0 + Span(node) && TestedAt(tested, seen) && Distinct(seen)
      ensures searching ==> Pending(next, rest, seen)
    {
      hit, r, tested := TestLeaf(intersect, cand, ray, h, node, hit0, r0, tested0, seen0);
      seen := seen0 + Span(node);
      SeenGrows(node, stack, seen0);
      if sound {
        SettledBeyondLower(cand, ray, r0.distance, r.distance, node, stack);
      }
      searching, next, rest := NextNode(cand, ray, r.distance, sound, node, stack);
      if searching {
        PopPending(node, stack, seen0, Span(node));
      }
    }

    /**
     * One visit of an internal node: descend into the nearer child, pushing
     * the farther one when it too is entered before d, or, when the nearer
     * child is pruned, move on to the top of the stack. What lies outside
     * the ranges still to visit stays settled, and the pending weight
     * shrinks; the ranges still to visit stay apart and untested.
     */
    method VisitInner(ghost cand: CandidateFn<P>, ray: Ray, d: real, ghost sound: bool, node: int, stack: seq<int>,
                      ghost seen: seq<int>)
      returns (searching: bool, next: int, rest: seq<int>)
      requires Traversable() && 0 <= node < nodesUsed && nodes[node].count <= 0 && InUse(stack)
      requires sound ==> BoxSound(cand, minOf, maxOf, ray) && SettledBeyond(cand, ray, d, node, stack)
      requires Pending(node, stack, seen)
      ensures 0 <= next < nodesUsed && InUse(rest)
      ensures searching ==> StackWeight(rest) + Weight(next) < StackWeight(stack) + Weight(node)
      ensures sound ==> if searching then SettledBeyond(cand, ray, d, next, rest) else AllSettled(cand, ray, d)
      ensures searching ==> Pending(next, rest, seen)
    {
      var descend, near, far, push := OrderChildren(node, ray, d);
      if !descend {
        if |stack| > 0 {
          PopPending(node, stack, seen, []);
          assert seen + [] == seen;
        }
        if sound {
          PrunedSettled(cand, ray, near, d);
          PrunedSettled(cand, ray, far, d);
          JoinSettled(cand, ray, d, node, near, far);
        }
        searching, next, rest := NextNode(cand, ray, d, sound, node, stack);
      } else {
        if sound {
          if !push {
            PrunedSettled(cand, ray, far, d);
          }
          DescendSettled(cand, ray, d, node, stack, near, far, push);
        } else {
          assert (stack + [far])[..|stack|] == stack;
        }
        DescendPending(node, stack, seen, near, far, push);
        rest := stack;
        if push {
          PushInUse(stack, far);
          rest := stack + [far];
        }
        searching, next := true, near;
      }
    }

    /** One pass of the loop of BVH::intersect: a leaf is tested, an internal node descended or pruned. */
    method Visit(intersect: IntersectFn<P>, ghost cand: CandidateFn<P>, ray: Ray, ghost h: RayHit, ghost sound: bool,
                 node: int, stack: seq<int>, hit0: bool, r0: RayHit, ghost tested0: seq<P>, ghost seen0: seq<int>)
      returns (searching: bool, next: int, rest: seq<int>, hit: bool, r: RayHit, ghost tested: seq<P>, ghost seen: seq<int>)
      requires Traversable() && 0 <= node < nodesUsed && InUse(stack)
      requires (hit0, r0) == FoldHits(intersect, tested0, ray, h)
      requires forall t :: 0 <= t < |tested0| ==> tested0[t] in prims
      requires sound ==> ActsAsCandidate(intersect, cand, ray) && BoxSound(cand, minOf, maxOf, ray)
                         && SettledBeyond(cand, ray, r0.distance, node, stack)
      requires TestedAt(tested0, seen0) && Distinct(seen0) && Pending(node, stack, seen0)
      ensures 0 <= next < nodesUsed && InUse(rest)
      ensures (hit, r) == FoldHits(intersect, tested, ray, h)
      ensures forall t :: 0 <= t < |tested| ==> tested[t] in prims
      ensures searching ==> StackWeight(rest) + Weight(next) < StackWeight(stack) + Weight(node)
      ensures sound ==> if searching then SettledBeyond(cand, ray, r.distance, next, rest) else AllSettled(cand, ray, r.distance)
      ensures TestedAt(tested, seen) && Distinct(seen)
      ensures searching ==> Pending(next, rest, seen)
    {
      if nodes[node].count > 0 {
        searching, next, rest, hit, r, tested, seen :=
          VisitLeaf(intersect, cand, ray, h, sound, node, stack, hit0, r0, tested0, seen0);
      } else {
        searching, next, rest := VisitInner(cand, ray, r0.distance, sound, node, stack, seen0);
        hit, r, tested, seen := hit0, r0, tested0, seen0;
      }
    }

    /**
     * BVH::intersect: nothing is tested when the root box is missed;
     * otherwise a leaf's members are tested in order against the shared
     * record, and at an internal node the child entered earlier is visited
     * first, unless it is missed or entered beyond the current distance,
     * while the other is pushed only if it is entered before the current
     * distance. The result is always the fold of intersect over the
     * primitives in the order they were tested. When every intersect keeps
     * the acceptance contract and the boxes are sound for the ray, the
     * final distance is the brute-force nearest over all primitives, the
     * answer says whether it improved on the record's, and a miss leaves
     * the record as it was. Whatever the primitives answer, each position
     * of indices is tested at most once (tested lists the primitives at
     * the positions seen), and the stack never holds more than N - 1
     * entries (deepest is the most it held).
     */
    method Intersect(intersect: IntersectFn<P>, ghost cand: CandidateFn<P>, ray: Ray, h: RayHit)
      returns (hit: bool, r: RayHit, ghost tested: seq<P>, ghost seen: seq<int>, ghost deepest: nat)
      requires Valid()
      ensures EntryDistance(nodes[0].box, ray).Miss? ==> !hit && r == h && tested == []
      ensures (hit, r) == FoldHits(intersect, tested, ray, h)
      ensures forall t :: 0 <= t < |tested| ==> tested[t] in prims
      ensures TestedAt(tested, seen) && Distinct(seen)
      ensures deepest < n
      ensures ActsAsCandidate(intersect, cand, ray) && BoxSound(cand, minOf, maxOf, ray) ==>
                r.distance == Nearest(cand, prims, ray, h.distance)
                && (hit <==> r.distance < h.distance) && (!hit ==> r == h)
    {
      ghost var sound := ActsAsCandidate(intersect, cand, ray) && BoxSound(cand, minOf, maxOf, ray);
      tested, seen, deepest := [], [], 0;
      if EntryDistance(nodes[0].box, ray).Miss? {
        if sound {
          PrunedSettled(cand, ray, 0, h.distance);
          PopSettled(cand, ray, h.distance, 0, []);
          AllSettledIsNearest(intersect, cand, ray, h, tested, h.distance);
        }
        return false, h, tested, seen, deepest;
      }
      hit, r, tested, seen, deepest := Search(intersect, cand, ray, h, sound);
      if sound {
        AllSettledIsNearest(intersect, cand, ray, h, tested, r.distance);
        FoldFindsNearest(intersect, cand, tested, ray, h);
      }
    }

    /**
     * The loop of BVH::intersect from the root on: visits until the stack
     * runs empty. The answer is the fold over what was tested, each
     * position is tested at most once, the stack stays below N entries,
     * and under the acceptance contract and sound boxes nothing left
     * untested could improve on the final distance.
     */
    method Search(intersect: IntersectFn<P>, ghost cand: CandidateFn<P>, ray: Ray, h: RayHit, ghost sound: bool)
      returns (hit: bool, r: RayHit, ghost tested: seq<P>, ghost seen: seq<int>, ghost deepest: nat)
      requires Traversable()
      requires sound ==> ActsAsCandidate(intersect, cand, ray) && BoxSound(cand, minOf, maxOf, ray)
      ensures (hit, r) == FoldHits(intersect, tested, ray, h)
      ensures forall t :: 0 <= t < |tested| ==> tested[t] in prims
      ensures TestedAt(tested, seen) && Distinct(seen)
      ensures deepest < n
      ensures sound ==> AllSettled(cand, ray, r.distance)
    {
      tested, seen, deepest := [], [], 0;
      hit, r := false, h;
      var node := 0;
      var stack: seq<int> := [];
      var searching := true;
      while searching
        invariant 0 <= node < nodesUsed
        invariant InUse(stack)
        invariant (hit, r) == FoldHits(intersect, tested, ray, h)
        invariant forall t :: 0 <= t < |tested| ==> tested[t] in prims
        invariant sound ==> if searching then SettledBeyond(cand, ray, r.distance, node, stack)
                            else AllSettled(cand, ray, r.distance)
        invariant TestedAt(tested, seen) && Distinct(seen)
        invariant searching ==> Pending(node, stack, seen)
        invariant deepest < n
        decreases searching, StackWeight(stack) + Weight(node)
      {
        StackWeightBound(stack);
        InUseWeight(node);
        PendingBound(node, stack, seen);
        deepest := if |stack| > deepest then |stack| else deepest;
        searching, node, stack, hit, r, tested, seen :=
          Visit(intersect, cand, ray, h, sound, node, stack, hit, r, tested, seen);
      }
    }
  }
}
