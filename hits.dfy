/**
 * The contract every Observable::intersect keeps (src/Observable.h), the
 * sequential fold of such calls over one shared hit record, and the
 * brute-force nearest hit it is compared with.
 */
module Hits {
  import opened Wrappers
  import opened Vectors
  import opened Geometry

  /** Observable::intersect: the updated record and whether it was updated. */
  type IntersectFn<-P> = (P, Ray, RayHit) -> (bool, RayHit)

  /** The distance at which a primitive would be accepted by a record that has nothing nearer. */
  type CandidateFn<-P> = (P, Ray) -> Option<real>

  /**
   * One call's contract: accept exactly when the candidate distance is
   * below the record's distance, and then record that distance; a rejected
   * call leaves the record as it was.
   */
  predicate Accepts(r: (bool, RayHit), c: Option<real>, h: RayHit) {
    (r.0 <==> c.Some? && c.value < h.distance)
    && (r.0 ==> r.1.distance == c.value)
    && (!r.0 ==> r.1 == h)
  }

  /** Every call of intersect on this ray keeps the contract, for every primitive and every record. */
  ghost predicate ActsAsCandidate<P(!new)>(intersect: IntersectFn<P>, cand: CandidateFn<P>, ray: Ray) {
    forall p: P, h: RayHit :: Accepts(intersect(p, ray, h), cand(p, ray), h)
  }

  /**
   * Bounds are sound for the box test: a box that covers a primitive's
   * bounds is entered, and no later than the primitive is hit.
   */
  ghost predicate BoxSound<P(!new)>(cand: CandidateFn<P>, minOf: P -> Vec3, maxOf: P -> Vec3, ray: Ray) {
    forall p: P, b: Box {:trigger Encloses(b, minOf(p), maxOf(p))} ::
      Encloses(b, minOf(p), maxOf(p)) && cand(p, ray).Some? ==>
        EntryDistance(b, ray).At? && EntryDistance(b, ray).t <= cand(p, ray).value
  }

  /**
   * hit |= obj->intersect(ray, inter) for each primitive in order, with one
   * shared record: the OR of the answers and the final record.
   */
  function FoldHits<P>(intersect: IntersectFn<P>, ps: seq<P>, ray: Ray, h: RayHit): (bool, RayHit)
  {
    if |ps| == 0 then (false, h)
    else
      var prev := FoldHits(intersect, ps[..|ps| - 1], ray, h);
      var step := intersect(ps[|ps| - 1], ray, prev.1);
      (prev.0 || step.0, step.1)
  }

  /** The brute-force nearest candidate among ps that is below d, or d itself. */
  function Nearest<P>(cand: CandidateFn<P>, ps: seq<P>, ray: Ray, d: real): real
  {
    if |ps| == 0 then d
    else
      var prev := Nearest(cand, ps[..|ps| - 1], ray, d);
      var c := cand(ps[|ps| - 1], ray);
      if c.Some? && c.value < prev then c.value else prev
  }

  /** m is the least of d and every candidate distance in ps, and is one of them. */
  ghost predicate IsNearest<P>(m: real, d: real, cand: CandidateFn<P>, ps: seq<P>, ray: Ray) {
    m <= d
    && (forall i :: 0 <= i < |ps| && cand(ps[i], ray).Some? ==> m <= cand(ps[i], ray).value)
    && (m == d || exists i :: 0 <= i < |ps| && cand(ps[i], ray) == Some(m))
  }

  /** Nearest is the minimum. */
  lemma {:induction false} NearestIsMinimum<P>(cand: CandidateFn<P>, ps: seq<P>, ray: Ray, d: real)
    ensures IsNearest(Nearest(cand, ps, ray, d), d, cand, ps, ray)
  {
    if |ps| > 0 {
      var init := ps[..|ps| - 1];
      NearestIsMinimum(cand, init, ray, d);
      var prev := Nearest(cand, init, ray, d);
      var m := Nearest(cand, ps, ray, d);
      forall i | 0 <= i < |ps| && cand(ps[i], ray).Some?
        ensures m <= cand(ps[i], ray).value
      {
        if i < |ps| - 1 {
          assert ps[i] == init[i];
        }
      }
      if m != d {
        if m == prev {
          var i :| 0 <= i < |init| && cand(init[i], ray) == Some(m);
          assert ps[i] == init[i];
        } else {
          assert cand(ps[|ps| - 1], ray) == Some(m);
        }
      }
    }
  }

  /** There is only one minimum: any value with the IsNearest property is Nearest. */
  lemma NearestUnique<P>(m1: real, m2: real, d: real, cand: CandidateFn<P>, ps: seq<P>, ray: Ray)
    requires IsNearest(m1, d, cand, ps, ray) && IsNearest(m2, d, cand, ps, ray)
    ensures m1 == m2
  {
    if m1 != d {
      var i :| 0 <= i < |ps| && cand(ps[i], ray) == Some(m1);
    }
    if m2 != d {
      var i :| 0 <= i < |ps| && cand(ps[i], ray) == Some(m2);
    }
  }

  /**
   * Testing primitives in turn against one shared record finds the
   * nearest of them: when every call keeps the contract, the final
   * distance is the brute-force nearest, the OR of the answers says
   * whether it is nearer than the starting distance, and a fold that
   * reports no hit leaves the record unchanged.
   */
  lemma {:induction false} FoldFindsNearest<P(!new)>(intersect: IntersectFn<P>, cand: CandidateFn<P>, ps: seq<P>,
                                               ray: Ray, h: RayHit)
    requires ActsAsCandidate(intersect, cand, ray)
    ensures var r := FoldHits(intersect, ps, ray, h);
            r.1.distance == Nearest(cand, ps, ray, h.distance)
            && (r.0 <==> Nearest(cand, ps, ray, h.distance) < h.distance)
            && (!r.0 ==> r.1 == h)
  {
    if |ps| > 0 {
      var init := ps[..|ps| - 1];
      FoldFindsNearest(intersect, cand, init, ray, h);
      NearestIsMinimum(cand, init, ray, h.distance);
      var prev := FoldHits(intersect, init, ray, h);
      assert Accepts(intersect(ps[|ps| - 1], ray, prev.1), cand(ps[|ps| - 1], ray), prev.1);
    }
  }

  /** The recorded distance never grows: each accepted call only brings it closer. */
  lemma FoldNeverRecedes<P(!new)>(intersect: IntersectFn<P>, cand: CandidateFn<P>, ps: seq<P>, ray: Ray, h: RayHit)
    requires ActsAsCandidate(intersect, cand, ray)
    ensures FoldHits(intersect, ps, ray, h).1.distance <= h.distance
  {
    FoldFindsNearest(intersect, cand, ps, ray, h);
    NearestIsMinimum(cand, ps, ray, h.distance);
  }

  /** Folding over a longer sequence continues from the fold over its prefix. */
  lemma FoldStep<P>(intersect: IntersectFn<P>, ps: seq<P>, p: P, ray: Ray, h: RayHit)
    ensures var prev := FoldHits(intersect, ps, ray, h);
            var step := intersect(p, ray, prev.1);
            FoldHits(intersect, ps + [p], ray, h) == (prev.0 || step.0, step.1)
  {
    assert (ps + [p])[..|ps|] == ps;
  }

  /** Folding over two sequences one after the other is folding over their concatenation. */
  lemma {:induction false} FoldAppend<P>(intersect: IntersectFn<P>, ps: seq<P>, qs: seq<P>, ray: Ray, h: RayHit)
    ensures var a := FoldHits(intersect, ps, ray, h);
            var b := FoldHits(intersect, qs, ray, a.1);
            FoldHits(intersect, ps + qs, ray, h) == (a.0 || b.0, b.1)
  {
    if |qs| == 0 {
      assert ps + qs == ps;
    } else {
      var init := qs[..|qs| - 1];
      FoldAppend(intersect, ps, init, ray, h);
      assert (ps + qs)[..|ps + qs| - 1] == ps + init;
    }
  }
}
