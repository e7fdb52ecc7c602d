/** Triangles keep the Observable::intersect contract the BVH and the scene rely on. */
module TriangleHits {
  import opened Vectors
  import opened Geometry
  import opened Triangles
  import opened Hits

  /** Triangle::intersect accepts exactly the Moller-Trumbore hits nearer than the record. */
  lemma TrianglesActAsCandidates(ray: Ray)
    ensures ActsAsCandidate(Intersect, Candidate, ray)
  {
    forall tri: Triangle, h: RayHit
      ensures Accepts(Intersect(tri, ray, h), Candidate(tri, ray), h)
    {
    }
  }

  /**
   * A triangle's bounds are sound for the box test on rays whose direction
   * has no zero coordinate: any box covering min_vertex..max_vertex is
   * entered no later than the triangle is hit.
   */
  lemma TriangleBoundsSound(ray: Ray)
    requires ProperInverse(ray)
    ensures BoxSound(Candidate, MinVertex, MaxVertex, ray)
  {
    forall tri: Triangle, b: Box | Encloses(b, MinVertex(tri), MaxVertex(tri)) && Candidate(tri, ray).Some?
      ensures EntryDistance(b, ray).At? && EntryDistance(b, ray).t <= Candidate(tri, ray).value
    {
      BoxEnteredBeforeTriangle(tri, ray, b);
    }
  }
}
