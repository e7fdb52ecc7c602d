/** The scene of src/Scene.h: its object and light lists and the linear nearest-hit query. */
module Scenes {
  import opened Wrappers
  import opened Vectors
  import opened Geometry
  import opened Hits

  /**
   * The record closest_intersection returns after testing objs in order:
   * each accepting object also stamps its own position into index.
   */
  function ClosestFold<O>(intersect: IntersectFn<O>, objs: seq<O>, ray: Ray): RayHit
  {
    if |objs| == 0 then NewRayHit()
    else
      var prev := ClosestFold(intersect, objs[..|objs| - 1], ray);
      var step := intersect(objs[|objs| - 1], ray, prev);
      if step.0 then step.1.(index := |objs| - 1) else step.1
  }

  /**
   * The index a query reports: -1 when nothing is nearer than 1e8,
   * otherwise the first object whose candidate distance is the nearest.
   */
  ghost predicate FirstNearest<O>(r: RayHit, cand: CandidateFn<O>, objs: seq<O>, ray: Ray) {
    if Nearest(cand, objs, ray, FarAway) == FarAway then r == NewRayHit()
    else
      0 <= r.index < |objs| && cand(objs[r.index], ray) == Some(r.distance)
      && forall j :: 0 <= j < r.index && cand(objs[j], ray).Some? ==> cand(objs[j], ray).value > r.distance
  }

  /**
   * When every object's intersect keeps the acceptance contract, the query
   * returns the nearest hit below 1e8, and its index is the first object
   * achieving it, or -1 with the record untouched when nothing is hit.
   */
  lemma {:induction false} ClosestIsFirstNearest<O(!new)>(intersect: IntersectFn<O>, cand: CandidateFn<O>,
                                                          objs: seq<O>, ray: Ray)
    requires ActsAsCandidate(intersect, cand, ray)
    ensures ClosestFold(intersect, objs, ray).distance == Nearest(cand, objs, ray, FarAway)
    ensures FirstNearest(ClosestFold(intersect, objs, ray), cand, objs, ray)
  {
    if |objs| > 0 {
      var init := objs[..|objs| - 1];
      var last := |objs| - 1;
      ClosestIsFirstNearest(intersect, cand, init, ray);
      NearestIsMinimum(cand, init, ray, FarAway);
      var prev := ClosestFold(intersect, init, ray);
      assert Accepts(intersect(objs[last], ray, prev), cand(objs[last], ray), prev);
      forall j | 0 <= j < last
        ensures objs[j] == init[j]
      {
      }
    }
  }

  class Scene<O, Lt> {
    var objects: seq<O>
    var lights: seq<Lt>
    /** Only one ambient colour per scene. */
    var ambientColour: Vec3

    /** An empty scene; Vector3() makes the ambient colour black. */
    constructor ()
      ensures objects == [] && lights == [] && ambientColour == Splat(0.0)
    {
      objects := [];
      lights := [];
      ambientColour := Splat(0.0);
    }

    /** Scene::add_object: append to the object list, nothing else changes. */
    method AddObject(o: O)
      modifies this
      ensures objects == old(objects) + [o]
      ensures lights == old(lights) && ambientColour == old(ambientColour)
    {
      objects := objects + [o];
    }

    /** Scene::add_light: append to the light list, nothing else changes. */
    method AddLight(l: Lt)
      modifies this
      ensures lights == old(lights) + [l]
      ensures objects == old(objects) && ambientColour == old(ambientColour)
    {
      lights := lights + [l];
    }

    /**
     * Scene::closest_intersection: every object in list order against one
     * fresh record; an object that reports a hit stamps its position into
     * index. The answer depends on the objects only, never on the lights or
     * the ambient colour, and nothing is modified.
     */
    method ClosestIntersection(intersect: IntersectFn<O>, ray: Ray) returns (r: RayHit)
      ensures r == ClosestFold(intersect, objects, ray)
    {
      r := NewRayHit();
      var i := 0;
      while i < |objects|
        invariant 0 <= i <= |objects|
        invariant r == ClosestFold(intersect, objects[..i], ray)
      {
        var step := intersect(objects[i], ray, r);
        assert objects[..i + 1][..i] == objects[..i];
        r := step.1;
        if step.0 {
          r := r.(index := i);
        }
        i := i + 1;
      }
      assert objects[..i] == objects;
    }
  }
}
