/**
 * The surface area heuristic of BVH::sah_divide (src/BVH.h:133-214): the
 * split axis, the twenty centroid buckets, the cost of each of the
 * nineteen bucket boundaries, the cheapest boundary and its plane.
 */
module Sah {
  import opened Vectors
  import opened Geometry

  /** nbuckets */
  const NBuckets: int := 20
  /** nsplits = nbuckets - 1 */
  const NSplits: int := 19

  /**
   * The axis of the largest extent: y replaces x only when strictly larger,
   * z replaces the axis so far only when strictly larger, so ties go to
   * the earlier axis.
   */
  function SplitAxis(e: Vec3): (axis: int)
    ensures 0 <= axis < 3
    ensures forall a :: 0 <= a < 3 ==> Index(e, a) <= Index(e, axis)
    ensures forall a :: 0 <= a < axis ==> Index(e, a) < Index(e, axis)
  {
    var a := if e.y > e.x then 1 else 0;
    if e.z > Index(e, a) then 2 else a
  }

  /** A float-to-int conversion: truncation toward zero. */
  function Trunc(x: real): (r: int)
    ensures x >= 0.0 ==> r as real <= x < r as real + 1.0
    ensures x < 0.0 ==> r as real - 1.0 < x <= r as real
  {
    if x >= 0.0 then x.Floor else -((-x).Floor)
  }

  /** int b = nbuckets * offset, with b == nbuckets moved into the last bucket. */
  function BucketOf(o: real): int {
    var b := Trunc(NBuckets as real * o);
    if b == NBuckets then NBuckets - 1 else b
  }

  /** An offset inside the unit interval lands in one of the twenty buckets. */
  lemma BucketInRange(o: real)
    requires 0.0 <= o <= 1.0
    ensures 0 <= BucketOf(o) < NBuckets
  {
  }

  /** One bucket: how many centroids fell in it and the box around their primitives. */
  datatype Bucket = Bucket(count: int, box: Box)

  /** BVHSplitBucket(): count 0 and the default box. */
  function EmptyBucket(): Bucket {
    Bucket(0, EmptyBox())
  }

  function EmptyBuckets(): (bk: seq<Bucket>)
    ensures |bk| == NBuckets
  {
    seq(NBuckets, _ => EmptyBucket())
  }

  /** buckets[b].count++ and buckets[b].box.fix(primitive bounds). */
  function AddTo(bk: seq<Bucket>, b: int, lo: Vec3, hi: Vec3): (r: seq<Bucket>)
    requires 0 <= b < |bk|
    ensures |r| == |bk|
  {
    bk[b := Bucket(bk[b].count + 1, Fix(bk[b].box, lo, hi))]
  }

  /** The number of centroids in buckets start..stop-1. */
  function SideCount(bk: seq<Bucket>, start: int, stop: int): int
    requires 0 <= start <= stop <= |bk|
    decreases stop - start
  {
    if stop == start then 0 else SideCount(bk, start, stop - 1) + bk[stop - 1].count
  }

  /** The default box fixed with the boxes of buckets start..stop-1, in order. */
  function SideBox(bk: seq<Bucket>, start: int, stop: int): Box
    requires 0 <= start <= stop <= |bk|
    decreases stop - start
  {
    if stop == start then EmptyBox() else FixBox(SideBox(bk, start, stop - 1), bk[stop - 1].box)
  }

  /** Empty buckets count nothing. */
  lemma {:induction false} EmptyBucketsCountNothing(stop: int)
    requires 0 <= stop <= NBuckets
    ensures SideCount(EmptyBuckets(), 0, stop) == 0
  {
    if stop > 0 {
      EmptyBucketsCountNothing(stop - 1);
    }
  }

  /** Counting buckets start..mid-1 and then mid..stop-1 counts start..stop-1. */
  lemma {:induction false} SideCountSplit(bk: seq<Bucket>, start: int, mid: int, stop: int)
    requires 0 <= start <= mid <= stop <= |bk|
    ensures SideCount(bk, start, mid) + SideCount(bk, mid, stop) == SideCount(bk, start, stop)
    decreases stop - mid
  {
    if stop > mid {
      SideCountSplit(bk, start, mid, stop - 1);
    }
  }

  /** Adding one centroid to a bucket adds one to every range that holds that bucket and nothing to the others. */
  lemma {:induction false} SideCountAddTo(bk: seq<Bucket>, b: int, lo: Vec3, hi: Vec3, start: int, stop: int)
    requires 0 <= b < |bk| && 0 <= start <= stop <= |bk|
    ensures SideCount(AddTo(bk, b, lo, hi), start, stop)
            == SideCount(bk, start, stop) + (if start <= b < stop then 1 else 0)
    decreases stop - start
  {
    if stop > start {
      SideCountAddTo(bk, b, lo, hi, start, stop - 1);
    }
  }

  /** The side box covers every bucket box of its range. */
  lemma {:induction false} SideBoxCovers(bk: seq<Bucket>, start: int, stop: int)
    requires 0 <= start <= stop <= |bk|
    ensures forall c :: start <= c < stop ==> Inside(bk[c].box, SideBox(bk, start, stop))
    decreases stop - start
  {
    if stop > start {
      SideBoxCovers(bk, start, stop - 1);
      forall c | start <= c < stop
        ensures Inside(bk[c].box, SideBox(bk, start, stop))
      {
        if c < stop - 1 {
          InsideTransitive(bk[c].box, SideBox(bk, start, stop - 1), SideBox(bk, start, stop));
        }
      }
    }
  }

  lemma InsideTransitive(a: Box, b: Box, c: Box)
    requires Inside(a, b) && Inside(b, c)
    ensures Inside(a, c)
  {
  }

  /**
   * cost[i]: the traversal cost 0.125 plus the two sides' counts weighted
   * by their surface areas, relative to the node's area, for the boundary
   * after bucket i.
   */
  function Cost(bk: seq<Bucket>, i: int, nodeArea: real): real
    requires |bk| == NBuckets && 0 <= i < NSplits && nodeArea != 0.0
  {
    BoundaryCost(SideCount(bk, 0, i + 1), SideBox(bk, 0, i + 1),
                 SideCount(bk, i + 1, NBuckets), SideBox(bk, i + 1, NBuckets), nodeArea)
  }

  /** 0.125 + (count0 * box0.area() + count1 * box1.area()) / nodes_box.area() */
  function BoundaryCost(count0: int, box0: Box, count1: int, box1: Box, nodeArea: real): real
    requires nodeArea != 0.0
  {
    0.125 + (count0 as real * Area(box0) + count1 as real * Area(box1)) / nodeArea
  }

  function Costs(bk: seq<Bucket>, nodeArea: real): (c: seq<real>)
    requires |bk| == NBuckets && nodeArea != 0.0
    ensures |c| == NSplits && forall i :: 0 <= i < NSplits ==> c[i] == Cost(bk, i, nodeArea)
  {
    seq(NSplits, i requires 0 <= i < NSplits => Cost(bk, i, nodeArea))
  }

  /** Both sides of every boundary together count every centroid in the buckets. */
  lemma SidesCountEverything(bk: seq<Bucket>, i: int)
    requires |bk| == NBuckets && 0 <= i < NSplits
    ensures SideCount(bk, 0, i + 1) + SideCount(bk, i + 1, NBuckets) == SideCount(bk, 0, NBuckets)
  {
    SideCountSplit(bk, 0, i + 1, NBuckets);
  }

  /** The index the min_cost loop settles on: a later cost replaces the minimum only when strictly smaller. */
  function FirstMin(c: seq<real>): (k: int)
    requires |c| > 0
    ensures 0 <= k < |c|
  {
    if |c| == 1 then 0
    else
      var m := FirstMin(c[..|c| - 1]);
      if c[|c| - 1] < c[m] then |c| - 1 else m
  }

  /** k holds the least cost, and every earlier index a strictly larger one. */
  ghost predicate IsFirstMin(c: seq<real>, k: int) {
    0 <= k < |c|
    && (forall j :: 0 <= j < |c| ==> c[k] <= c[j])
    && (forall j :: 0 <= j < k ==> c[j] > c[k])
  }

  lemma {:induction false} FirstMinIsFirstMinimum(c: seq<real>)
    requires |c| > 0
    ensures IsFirstMin(c, FirstMin(c))
  {
    if |c| > 1 {
      var init := c[..|c| - 1];
      FirstMinIsFirstMinimum(init);
      assert forall j :: 0 <= j < |init| ==> init[j] == c[j];
    }
  }

  /** There is only one first minimum. */
  lemma FirstMinUnique(c: seq<real>, k1: int, k2: int)
    requires IsFirstMin(c, k1) && IsFirstMin(c, k2)
    ensures k1 == k2
  {
    assert c[k1] <= c[k2] && c[k2] <= c[k1];
  }

  /**
   * min_cost_split. When the node's area is 0 every cost is 0/0 or x/0 in
   * floating point (NaN or infinity), no later cost compares below cost[0],
   * and boundary 0 is chosen.
   */
  function BestSplit(bk: seq<Bucket>, nodeArea: real): (k: int)
    requires |bk| == NBuckets
    ensures 0 <= k < NSplits
  {
    if nodeArea == 0.0 then 0 else FirstMin(Costs(bk, nodeArea))
  }

  /** split = min[axis] + extents[axis] * (min_cost_split + 1) / nbuckets. */
  function SplitPlane(b: Box, axis: int, k: int): real {
    Index(b.min, axis) + Index(Extents(b), axis) * (k + 1) as real / NBuckets as real
  }

  /** The plane of every boundary lies within the box on its axis. */
  lemma SplitPlaneInside(b: Box, axis: int, k: int)
    requires Le(b.min, b.max) && 0 <= k < NSplits
    ensures Index(b.min, axis) <= SplitPlane(b, axis, k) <= Index(b.max, axis)
  {
    var m, e := Index(b.min, axis), Index(Extents(b), axis);
    assert e == Index(b.max, axis) - m && e >= 0.0;
    FractionOf(e, k);
  }

  /** The fraction (k + 1) / 20 of a non-negative length lies between 0 and that length. */
  lemma FractionOf(e: real, k: int)
    requires e >= 0.0 && 0 <= k < NSplits
    ensures 0.0 <= e * (k + 1) as real / NBuckets as real <= e
  {
    var f := (k + 1) as real / NBuckets as real;
    assert 0.0 < f < 1.0;
    assert e * (k + 1) as real / NBuckets as real == e * f;
    assert e * f <= e * 1.0;
  }

  /**
   * The plane of boundary k separates the buckets exactly: on an axis of
   * positive extent, a centroid lies below the plane if and only if its
   * bucket is at or before k. Partitioning at the plane therefore puts on
   * the left exactly the centroids the cost of boundary k counted there.
   */
  lemma PlaneSeparatesBuckets(lo: real, hi: real, c: real, k: int)
    requires lo < hi && lo <= c <= hi && 0 <= k < NSplits
    ensures BucketOf(AxisOffset(lo, hi, c)) <= k <==> c < lo + (hi - lo) * (k + 1) as real / NBuckets as real
  {
    var o := AxisOffset(lo, hi, c);
    var q := (k + 1) as real / NBuckets as real;
    BelowPlane(lo, hi, c, k);
    OffsetBelow(o, k);
    assert 0.0 <= o <= 1.0 by { AxisOffsetInUnit(lo, hi, c); }
    var t := Trunc(NBuckets as real * o);
    assert 0 <= t <= NBuckets;
    assert BucketOf(o) <= k <==> t <= k;
  }

  /** The plane of boundary k lies a fraction (k + 1) / 20 of the way along the axis. */
  lemma BelowPlane(lo: real, hi: real, c: real, k: int)
    requires lo < hi
    ensures c < lo + (hi - lo) * (k + 1) as real / NBuckets as real
            <==> AxisOffset(lo, hi, c) < (k + 1) as real / NBuckets as real
  {
    var e, q := hi - lo, (k + 1) as real / NBuckets as real;
    var o := (c - lo) / e;
    assert o * e == c - lo;
    assert e * (k + 1) as real / NBuckets as real == q * e;
    OrderScales(o, q, e);
  }

  /** The offset is below (k + 1) / 20 exactly when its truncated bucket is at most k. */
  lemma OffsetBelow(o: real, k: int)
    requires 0.0 <= o
    ensures o < (k + 1) as real / NBuckets as real <==> Trunc(NBuckets as real * o) <= k
  {
    var q := (k + 1) as real / NBuckets as real;
    OrderScales(o, q, NBuckets as real);
    assert q * NBuckets as real == (k + 1) as real;
  }

  /** Multiplying by a positive number keeps a strict order both ways. */
  lemma OrderScales(a: real, b: real, e: real)
    requires e > 0.0
    ensures a < b <==> a * e < b * e
  {
    if a < b {
      assert (b - a) * e > 0.0;
    }
    if a * e < b * e {
      assert (b - a) * e > 0.0;
    }
  }

  /** Offset, extent and split plane read through operator[] are the per-axis quantities. */
  lemma AxisQuantities(b: Box, p: Vec3, axis: int, k: int)
    ensures Index(Offset(b, p), axis) == AxisOffset(Index(b.min, axis), Index(b.max, axis), Index(p, axis))
    ensures Index(Extents(b), axis) == Index(b.max, axis) - Index(b.min, axis)
    ensures SplitPlane(b, axis, k)
            == Index(b.min, axis) + (Index(b.max, axis) - Index(b.min, axis)) * (k + 1) as real / NBuckets as real
    ensures ContainsPoint(b, p) ==> Index(b.min, axis) <= Index(p, axis) <= Index(b.max, axis)
  {
  }

  /**
   * On an axis of positive extent, a point of the box is below the plane of
   * boundary k if and only if its offset falls in bucket k or an earlier one.
   */
  lemma PlaneSeparatesOffsets(b: Box, p: Vec3, axis: int, k: int)
    requires ContainsPoint(b, p) && Index(Extents(b), axis) > 0.0 && 0 <= k < NSplits
    ensures BucketOf(Index(Offset(b, p), axis)) <= k <==> Index(p, axis) < SplitPlane(b, axis, k)
  {
    AxisQuantities(b, p, axis, k);
    PlaneSeparatesBuckets(Index(b.min, axis), Index(b.max, axis), Index(p, axis), k);
  }

  /**
   * The cost loop of sah_divide: for each boundary i, box0 and count0 are
   * gathered over buckets 0..i and box1 and count1 over i+1..19.
   */
  method SplitCosts(bk: seq<Bucket>, nodeArea: real) returns (cost: seq<real>)
    requires |bk| == NBuckets && nodeArea != 0.0
    ensures cost == Costs(bk, nodeArea)
  {
    var c := new real[NSplits];
    var i := 0;
    while i < NSplits
      invariant 0 <= i <= NSplits
      invariant forall m :: 0 <= m < i ==> c[m] == Cost(bk, m, nodeArea)
    {
      var box0, box1 := EmptyBox(), EmptyBox();
      var count0, count1 := 0, 0;
      var j := 0;
      while j <= i
        invariant 0 <= j <= i + 1
        invariant box0 == SideBox(bk, 0, j) && count0 == SideCount(bk, 0, j)
      {
        box0 := FixBox(box0, bk[j].box);
        count0 := count0 + bk[j].count;
        j := j + 1;
      }
      j := i + 1;
      while j < NBuckets
        invariant i + 1 <= j <= NBuckets
        invariant box1 == SideBox(bk, i + 1, j) && count1 == SideCount(bk, i + 1, j)
      {
        box1 := FixBox(box1, bk[j].box);
        count1 := count1 + bk[j].count;
        j := j + 1;
      }
      c[i] := BoundaryCost(count0, box0, count1, box1, nodeArea);
      i := i + 1;
    }
    cost := c[..];
  }

  /** The min_cost loop: keep the first index of the least cost. */
  method MinCostSplit(cost: seq<real>) returns (best: int)
    requires |cost| > 0
    ensures IsFirstMin(cost, best)
    ensures best == FirstMin(cost)
  {
    var minCost := cost[0];
    best := 0;
    var i := 1;
    while i < |cost|
      invariant 1 <= i <= |cost|
      invariant best == FirstMin(cost[..i]) && minCost == cost[best]
    {
      assert cost[..i + 1][..i] == cost[..i];
      if cost[i] < minCost {
        minCost := cost[i];
        best := i;
      }
      i := i + 1;
    }
    assert cost[..i] == cost;
    FirstMinIsFirstMinimum(cost);
  }
}
