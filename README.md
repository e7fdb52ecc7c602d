# A verified model of a small C++ ray tracer's core

This project is a Dafny model of the algorithmic core of a small C++ ray tracer and of its offline OBJ splitting script. It covers:

- **Vectors and boxes**: `Vector3` indexing, min/max, colour decoding and the random-number step (`src/Vector.h`); the boolean slab test and the crude box-triangle overlap test (`src/AABB.h`); and the `AABB` box operations as the BVH uses them.
- **Triangles and the scene**: the Möller–Trumbore ray-triangle test with its `RayHit` update (`src/Triangle.h`), and the linear nearest-hit loop over scene objects (`src/Scene.h`).
- **The bounding volume hierarchy** (`src/BVH.h`): a flat node array over a permutation of primitive indices, and the top-down surface-area-heuristic build (20 buckets, largest-extent axis, in-place two-pointer partition). Also the iterative nearest-first traversal with its explicit stack.
- **The QOI image codec** (`src/QOI.h`): the writer's run, index, difference and RGB chunk state machine, and the reader's decoding loop.
- **OBJ/MTL loading**:
  - `face_type`, `parse_face` and `replace_slash`;
  - the `load_obj` line dispatch and per-face index remapping, and the `load_mtllib` block state machine (`src/ObjLoader.h`);
  - the mesh bounds, triangle building and intersection (`src/TriangleMesh.h`);
  - `parse_material` and the material constructors (`src/Material.h`).
- **The OBJ splitter** (`compression/object_splitter.py`): it groups faces by object, renumbers the referenced vertices, normals and texture coordinates, and rewrites the faces.
- **The two octrees**: `src/OctreeRec.h`, whose leaves store triangles and answer a nearest hit; and `src/Octree.h`, whose leaves store face index lists and answer a sorted, de-duplicated list of candidate faces.

Coordinates are real numbers. The primitive behind the BVH is abstract: it is given by its centroid, its bounds and an intersect function that only accepts strictly closer hits. Triangles are shown to meet both hypotheses the traversal proof needs.

Where the C++ changes state in place, the model does too:
- the BVH is a class over arrays;
- the scene, the mesh, the QOI streams, the writer and the reader are classes;
- loops stay loops with invariants.

Each such method is proved against a specification function, and the lemmas beside it say what that function means. Examples are:
- the traversal finds the nearest candidate among all primitives;
- decoding an encoded image gives back its pixels;
- a remapped face index names the same vertex as before;
- an octree query returns every face crossing the ray within a leaf.

## Model

| member | source | states |
|---|---|---|
| Vectors.Index | src/Vector.h:22-30 | the indexed component is one of x, y, z |
| Vectors.IndexDetermines | src/Vector.h:22-30 | indices 0, 1 and 2 between them determine the vector |
| Vectors.IndexOutsideReadsZ | src/Vector.h:22-30 | every index other than 0 and 1 reads z |
| Vectors.Min | src/Vector.h:76-82 | each result component is one of the two inputs' components and is at most both |
| Vectors.MinGreatest | src/Vector.h:76-82 | any vector below both inputs is below their `min`, so `min` is the greatest lower bound |
| Vectors.Max | src/Vector.h:84-90 | each result component is one of the two inputs' components and is at least both |
| Vectors.MaxLeast | src/Vector.h:84-90 | any vector above both inputs is above their `max`, so `max` is the least upper bound |
| Vectors.MinComponent | src/Vector.h:113-115 | the result is one of x, y, z and at most each of them |
| Vectors.MaxComponent | src/Vector.h:117-119 | the result is one of x, y, z and at least each of them |
| Vectors.Equal | src/Vector.h:155 | true exactly when the two vectors are equal |
| Vectors.NotEqual | src/Vector.h:156 | the negation of `==` |
| Vectors.StoiHex | src/Vector.h:107-109 | `std::stoi(s, nullptr, 16)` fails exactly when no hex digit follows the optional blanks and sign; an unsigned result is below 16^|s| |
| Vectors.Substr | src/Vector.h:107-109 | `substr` fails exactly when the position is past the end, and otherwise returns a prefix of the rest of at most the requested length |
| Vectors.StoiHexByte | src/Vector.h:107-109 | reading a two-digit hex byte back gives its value |
| Vectors.ToColourOfHexBytes | src/Vector.h:106-111 | `to_colour("#RRGGBB")` is (RR/255, GG/255, BB/255) |
| Vectors.ToColourOfSlices | src/Vector.h:106-111 | the same for any seven-character string whose characters 1-2, 3-4 and 5-6 are hex bytes |
| Vectors.ToColourInUnitCube | src/Vector.h:106-111 | a decoded colour without a minus sign lies in the unit cube |
| Vectors.Output | src/Vector.h:11-13 | the mixed output scaled by 1/UINT32_MAX lies in [0, 1] |
| Vectors.Random.constructor | src/Vector.h:7 | the generator starts from state 727 |
| Vectors.Random.RandomValue | src/Vector.h:9-14 | the state advances to state·747796405 + 2891336453 mod 2^32, and the value is the mixed output of the new state, in [0, 1] |
| Geometry.NewRayHit | src/RayHit.h:10-19 | a fresh hit record has distance 1e8 and index -1 |
| Geometry.Fix | src/BVH.h:80-86 | growing a box by a primitive's bounds gives a box that encloses both |
| Geometry.FixSmallest | src/BVH.h:80-86 | that box is the smallest one that does |
| Geometry.FixEmpty | src/BVH.h:80-86 | growing the sentinel box (1e8, -1e8) by bounds within ±1e8 gives exactly those bounds |
| Geometry.FixBox | src/BVH.h:157-166 | growing a box by another box encloses both |
| Geometry.AreaNonNegative | src/BVH.h:167 | a well-formed box has non-negative surface area |
| Geometry.Center | src/BVH.h:46-48 | the centre of a well-formed box lies in it |
| Geometry.OffsetInUnitCube | src/BVH.h:148 | the offset of a point inside a box lies in the unit cube |
| Geometry.EntryDistance | src/BVH.h:247-271 | a reported entry distance is at most the nearest exit, and that exit is ahead of the origin |
| Geometry.EntryBeforeHit | src/BVH.h:270-289 | a box containing the point at t > 0 on the ray is entered, at a distance at most t |
| Geometry.SlabTestMeetsLine | src/AABB.h:5-14 | the slab test passes for every box containing some point of the ray's line |
| Geometry.SlabTestIgnoresDirection | src/AABB.h:8-13 | the slab test gives the same answer for the reversed ray, so a box wholly behind the origin reports a hit |
| Geometry.SlabTestSymmetric | src/AABB.h:8-11 | swapping `min` and `max` changes neither the per-axis entries and exits nor the answer |
| Geometry.Counters.CountedSlabTest | src/AABB.h:5-14 | the answer is the slab test, and `AABBIntersectionCount` goes up by exactly one |
| Geometry.Counters.constructor | src/AABB.h:3 | the box-test counter starts at zero, and so does the triangle-test counter (`triangle_count`, declared at line 7 of src/Triangle.h) |
| Geometry.Counters.CountTriangleTest | src/Triangle.h:34 | `triangle_count` goes up by exactly one, and the box counter is unchanged |
| Geometry.TriangleBoxOverlapComplete | src/AABB.h:16-35 | the box-triangle test never rejects a triangle with a point strictly inside the box, so it has no false negatives |
| Geometry.BoundsOverlap | src/AABB.h:21-28 | a triangle with a point strictly inside the box passes the three axis checks |
| Geometry.PlaneRejectionSeparates | src/AABB.h:30-34 | when the plane test rejects, the whole box lies on the positive side of the triangle's plane |
| Geometry.PlaneTestOneSided | src/AABB.h:30-34 | past the axis checks, a box centre on the negative side of the plane is always accepted: the test is one-sided |
| Geometry.DegenerateTriangleRejected | src/AABB.h:30-34 | a triangle collapsed to one point is always rejected |
| Triangles.MinVertex | src/Triangle.h:28-30 | the result is below all three vertices |
| Triangles.MaxVertex | src/Triangle.h:24-26 | the result is above all three vertices |
| Triangles.BoundsAreTight | src/Triangle.h:24-30 | each component of both bounds is attained by a vertex |
| Triangles.Centroid | src/Triangle.h:20-22 | the vertex average lies between `min_vertex` and `max_vertex` |
| Triangles.Solve | src/Triangle.h:35-56 | a solution exists only with u ≥ 0, v ≥ 0 and u + v ≤ 1 |
| Triangles.Candidate | src/Triangle.h:58-59 | a candidate distance is always above EPSILON |
| Triangles.Intersect | src/Triangle.h:33-67 | returns true exactly when the candidate is closer than `inter.distance`; then distance, index, hu and hv are set to t, `face_index`, u and v, with 0 ≤ hu, 0 ≤ hv and hu + hv ≤ 1; point, normal, u and v are never written; a miss leaves the record unchanged |
| Triangles.IntersectTightens | src/Triangle.h:58-66 | the distance never grows, and shrinks strictly on acceptance |
| Triangles.SolutionOnTriangle | src/Triangle.h:38-58 | the accepted point on the ray is the barycentric point (u, v) of the triangle |
| Triangles.CandidateInBounds | src/Triangle.h:38-58 | the accepted point lies in the triangle's bounding box |
| Triangles.BoxEnteredBeforeTriangle | src/Triangle.h:38-58 | for a ray with finite inverse direction, any box around the triangle is entered no later than the hit |
| TriangleHits.TrianglesActAsCandidates | src/Triangle.h:33-67 | `Triangle::intersect` accepts exactly the candidates closer than the current distance, as the traversal proof requires |
| TriangleHits.TriangleBoundsSound | src/Triangle.h:24-67 | triangle bounds are sound for the traversal's box pruning |
| Hits.NearestIsMinimum | src/Scene.h:44-50 | the nearest candidate below a bound is at most every candidate, and is either the bound or some candidate |
| Hits.NearestUnique | src/Scene.h:44-50 | that characterisation determines the nearest distance |
| Hits.FoldFindsNearest | src/Scene.h:44-50 | threading one hit record through a sequence of strictly-closer intersect calls ends at the nearest candidate; the result is true exactly when that is below the starting distance, and a miss leaves the record unchanged |
| Hits.FoldNeverRecedes | src/Scene.h:44-50 | the hit distance never increases |
| Hits.FoldAppend | src/BVH.h:254-259 | folding over a concatenation is folding over the second part from the first part's result |
| Hits.FoldStep | src/Scene.h:43-48 | one more object in the loop: the answer is or-ed with its test, which sees the record the earlier objects left |
| Scenes.ClosestIsFirstNearest | src/Scene.h:40-51 | the closest intersection starts from a fresh record and ends at the nearest candidate below 1e8; its index is the first object reaching that distance, or -1 with the record untouched when nothing is hit |
| Scenes.Scene.constructor | src/Scene.h:25-30 | a new scene has no objects and no lights |
| Scenes.Scene.AddObject | src/Scene.h:32-34 | appends the object and changes nothing else |
| Scenes.Scene.AddLight | src/Scene.h:36-38 | appends the light and changes nothing else |
| Scenes.Scene.ClosestIntersection | src/Scene.h:40-51 | the loop computes the fold over the objects in list order, setting the index to the position of each accepting object; it never touches the lights or the ambient colour |
| Bvh.Iota | src/BVH.h:58-61 | the constructor's `indices[i] = i` over [0, N) |
| Bvh.SwapKeepsMultiset | src/BVH.h:191 | `std::swap` inside a range keeps the range's multiset |
| Bvh.BVH.MemberBoxCovers | src/BVH.h:77-87 | the refitted box covers every member's bounds |
| Bvh.BVH.MemberBoxSmallest | src/BVH.h:77-87 | the refitted box is the smallest box covering the members and the sentinel box |
| Bvh.BVH.MemberBoxPermuted | src/BVH.h:77-87 | the refit does not depend on the order of the members |
| Bvh.BVH.MemberBoxJoin | src/BVH.h:77-87 | the refit of a range is the union of the refits of its two halves |
| Bvh.BVH.RefitNode | src/BVH.h:77-87 | the node's box becomes the union of its members' bounds, grown from the sentinel (1e8, -1e8); no other node changes |
| Bvh.BVH.PartitionRange | src/BVH.h:183-194 | the two-pointer loop returns i in [first, end], with i == end when every member lies below the split; members below the split sit in [first, i) and the rest in [i, end); the range keeps its multiset and nothing outside it moves |
| Bvh.BVH.Partition | src/BVH.h:183-196 | partitioning a leaf's range keeps the whole tree invariant, including `indices` being a permutation of [0, N) |
| Bvh.BVH.LeafCountBound | src/BVH.h:196-207 | splitting a leaf with at least two members always finds two free slots below 2N - 1 |
| Bvh.BVH.SplitLeaf | src/BVH.h:200-207 | the children take the two consecutive slots `nodes_used` and `nodes_used + 1`, with ranges [first, i) and [i, first + count); the parent keeps its first index, links to the left child and gets count 0 |
| Bvh.BVH.RefitChildren | src/BVH.h:208-209 | both fresh children get the exact refit of their ranges |
| Bvh.BVH.SplitKeepsValid | src/BVH.h:200-209 | after a split the invariant holds again: the children tile the parent's range, every box is the exact refit of its range, the leaves own all positions, and `nodes_used` is 2·leaves - 1 |
| Bvh.BVH.Subdivide | src/BVH.h:200-209 | a split adds exactly two leaves over the halves and leaves every earlier node other than the parent, and all ranges in use, unchanged |
| Bvh.BVH.KeyInRange | src/BVH.h:148-149 | a member's bucket, trunc(20 · offset) clamped to 19, is one of the twenty |
| Bvh.BVH.BucketsCountMembers | src/BVH.h:147-152 | the bucket counts add up to the member count |
| Bvh.BVH.BucketBoxesCover | src/BVH.h:147-152 | each bucket's box covers every member placed in it |
| Bvh.BVH.PlaneSeparatesMembers | src/BVH.h:148-187 | on an axis of positive extent, a member lies below the split plane of boundary k exactly when its bucket is at most k |
| Bvh.BVH.AddToBucket | src/BVH.h:150-151 | one bucket's count goes up by one and its box grows by the member's bounds |
| Bvh.BVH.FillBuckets | src/BVH.h:147-152 | the loop fills the buckets from the node's members, as the specification function does |
| Bvh.BVH.ChooseSplit | src/BVH.h:141-180 | the axis is the largest extent and the plane is the one after the lowest-cost boundary; members below it are exactly those bucketed at or before that boundary |
| Bvh.BVH.DivideOnce | src/BVH.h:178-207 | a split gives two non-empty children tiling the node's range; otherwise, when one side is empty, nothing changes except the order of the node's own members |
| Bvh.BVH.SahDivide | src/BVH.h:133-214 | the recursive divide keeps the invariant, leaves a node with at most two members untouched, and changes no index outside the node's range |
| Bvh.BVH.constructor | src/BVH.h:55-66 | with N ≥ 1: identity permutation, 2N - 1 node slots, root over [0, N), tree built and valid, and the root box is the refit of all primitives |
| Bvh.BVH.Build | src/BVH.h:68-74 | the root gets the whole range, is refitted and divided, and the result is valid |
| Bvh.BVH.NodeBoxIsRefit | src/BVH.h:77-87 | every node's box is exactly the refit of its range, as it was when the node was created |
| Bvh.BVH.SubtreeEncloses | src/BVH.h:77-87 | every member of a node's range has its bounds inside the node's box |
| Bvh.BVH.RootEnclosesAll | src/BVH.h:68-74 | the root box encloses every primitive |
| Bvh.BVH.PositionOf | src/BVH.h:55-66 | every primitive sits at some position of the index permutation |
| Bvh.BVH.MinVertex | src/BVH.h:38-40 | the root box's lower corner is below every primitive's bounds |
| Bvh.BVH.MaxVertex | src/BVH.h:42-44 | the root box's upper corner is above every primitive's bounds |
| Bvh.BVH.Centroid | src/BVH.h:46-48 | the root box's centre lies between its corners |
| Bvh.BVH.ChildrenTile | src/BVH.h:268-269 | an internal node's children are `left_child` and `left_child + 1`, later slots in use, whose ranges tile its own |
| Bvh.BVH.PrunedSettled | src/BVH.h:276-288 | a box that is not entered, or is entered no earlier than the current distance, holds no primitive that can improve on it |
| Bvh.BVH.AllSettledIsNearest | src/BVH.h:246-292 | once every position is settled, the fold's distance is the nearest candidate among all primitives |
| Bvh.BVH.StackLenBound | src/BVH.h:251 | the stack holds no more entries than its nodes' ranges hold positions |
| Bvh.BVH.PendingBound | src/BVH.h:251 | while a node is pending, the stack holds fewer than N entries |
| Bvh.BVH.SeenGrows | src/BVH.h:254-259 | testing a pending leaf adds only positions never tested before |
| Bvh.BVH.TestLeaf | src/BVH.h:254-259 | a leaf's members are tested in order against the shared record and OR-ed into `hit`; the fold continues, and the leaf's range is settled |
| Bvh.BVH.TestRange | src/BVH.h:256-259 | the member loop continues the fold over the leaf's positions |
| Bvh.BVH.TestMember | src/BVH.h:257-258 | one member test continues the fold and never increases the distance |
| Bvh.BVH.OrderChildren | src/BVH.h:268-289 | children ordered nearer entry first (swapped only when strictly farther); descend iff the nearer one is entered at most at the current distance; push the farther one iff also entered strictly before it |
| Bvh.BVH.NextNode | src/BVH.h:260-283 | the traversal continues with the top of the stack, or stops when it is empty; the weight measure decreases |
| Bvh.BVH.VisitLeaf | src/BVH.h:254-266 | a leaf visit continues the fold, tests only new positions and moves on to the stack top |
| Bvh.BVH.Visit | src/BVH.h:253-290 | one pass of the loop keeps the fold, the stack bound and the settled invariant |
| Bvh.BVH.Search | src/BVH.h:251-290 | the loop ends; the answer is the fold over what was tested, each position is tested at most once, the stack stays below N entries, and under the two hypotheses everything untested is settled |
| Bvh.BVH.Intersect | src/BVH.h:246-292 | a missed root box tests nothing and returns false with the record unchanged; otherwise the result is the OR of the visited members' tests, each tested at most once, with the stack below N; when primitives accept only strictly closer hits and their bounds are sound, the distance is the brute-force nearest candidate over all primitives |
| Sah.SplitAxis | src/BVH.h:142-145 | the axis of the largest extent, ties going to x and then to y |
| Sah.Trunc | src/BVH.h:148 | the `(int)` conversion truncates toward zero |
| Sah.BucketInRange | src/BVH.h:148-149 | an offset in [0, 1] lands in one of the twenty buckets, 1.0 being clamped to 19 |
| Sah.SideCountSplit | src/BVH.h:156-166 | the counts on the two sides of a boundary add up |
| Sah.SidesCountEverything | src/BVH.h:156-166 | each boundary's two sides count every bucket |
| Sah.SideBoxCovers | src/BVH.h:157-166 | each side's box covers its buckets' boxes |
| Sah.Costs | src/BVH.h:155-168 | one cost per boundary, 0.125 + (count0·area0 + count1·area1) / node area |
| Sah.SplitCosts | src/BVH.h:154-168 | the nested loops compute exactly those costs |
| Sah.FirstMinIsFirstMinimum | src/BVH.h:169-176 | the chosen boundary has the least cost, and every earlier boundary costs strictly more |
| Sah.FirstMinUnique | src/BVH.h:169-176 | that characterisation fixes the boundary |
| Sah.FirstMin | src/BVH.h:170-177 | the scan over the 19 costs returns one of their positions |
| Sah.MinCostSplit | src/BVH.h:169-176 | the scan with strict `<` returns the first minimum |
| Sah.BestSplit | src/BVH.h:167-176 | the chosen boundary is one of the 19 |
| Sah.SplitPlaneInside | src/BVH.h:180 | the plane min + extent·(k + 1)/20 lies within the box on that axis |
| Sah.PlaneSeparatesOffsets | src/BVH.h:148-180 | a point's bucket is at most k exactly when it lies below the plane after boundary k |
| Qoi.CRem | src/QOI.h:175-183 | C++ `%` on int: the remainder lies strictly between -m and m and takes the dividend's sign |
| Qoi.GenKey | src/QOI.h:17-19 | for channels in 0..255 the key is (3r + 5g + 7b) mod 64, a valid table slot; the alpha term of the standard hash is absent |
| Qoi.ClampChannel | src/QOI.h:47-48 | floor then clamp: the result is an integer in 0..255, the floor of an input in [0, 256), 0 below and 255 from 255 up |
| Qoi.Clamp | src/QOI.h:45-48 | every channel of the encoded colour is a byte |
| Qoi.Write32 | src/QOI.h:37-42 | a value is written as four bytes |
| Qoi.Read32 | src/QOI.h:116-123 | four bytes reassemble into an unsigned 32-bit value; a file that ends first yields 0xffffffff |
| Qoi.At | src/QOI.h:145 | `get()` yields -1 exactly at the end of the file, otherwise a byte |
| Qoi.Header | src/QOI.h:27-34 | the header is fourteen bytes |
| Qoi.ChunkBytes | src/QOI.h:50-91 | each chunk is one to four bytes |
| Qoi.DeltaChunk | src/QOI.h:74-92 | a colour not found in the table gives a well-formed DIFF, LUMA or RGB chunk |
| Qoi.EncodePixel | src/QOI.h:45-96 | `write_pixel` keeps the writer state well-formed (run below 62) and makes the pixel the previous colour; it writes only well-formed chunks |
| Qoi.FinishRun | src/QOI.h:98-103 | `finish_run` writes only a well-formed run |
| Qoi.EncodeAll | src/QOI.h:45-96 | encoding a pixel sequence keeps the writer state well-formed |
| Qoi.EncodeImage | src/QOI.h:45-103 | the writer's chunks for a whole image, final run included, are all well-formed |
| Qoi.Serialize | src/QOI.h:50-103 | the bytes of a chunk list are at least as many as its chunks: no chunk is written as nothing |
| Qoi.InitialEncoder | src/QOI.h:23-25 | the writer starts from black, an all-black 64-entry table and no run: a well-formed writer state |
| Qoi.BigEndian | src/QOI.h:116-123 | four bytes put together most significant first give a value below 2^32 |
| Qoi.DecodeChunks | src/QOI.h:141-209 | decoding a chunk list keeps the 64-entry table |
| Qoi.ShowChecked | src/QOI.h:155-202 | a decoded colour becomes the previous colour and the single pixel pushed; it fails exactly when its key is negative, which would index `lookup` out of bounds |
| Qoi.Dispatch | src/QOI.h:147-207 | each chunk kind consumes one to four bytes and keeps the 64-entry table |
| Qoi.ReadStep | src/QOI.h:143-207 | one loop pass consumes one to four bytes and keeps the 64-entry table |
| QoiRoundTrip.Read32OfWrite32 | src/QOI.h:37-123 | `read32` after `write32` gives back the value mod 2^32 |
| QoiRoundTrip.HeaderReadsBack | src/QOI.h:27-139 | the written header passes the magic check, and the width, height, channels = 3 and colour space = 1 read back |
| QoiRoundTrip.WrongMagicRejected | src/QOI.h:127-133 | the magic check passes exactly when the first four bytes are "qoif"; otherwise the reader stops after those four bytes |
| QoiRoundTrip.ReadStepOnChunk | src/QOI.h:143-207 | reading the bytes of any well-formed chunk applies that chunk |
| QoiRoundTrip.DiffColourOf | src/QOI.h:79-183 | the reader recovers exactly the DIFF deltas the writer packed |
| QoiRoundTrip.LumaColourOf | src/QOI.h:82-200 | the reader recovers exactly the LUMA deltas the writer packed |
| QoiRoundTrip.DecodeAppend | src/QOI.h:141-209 | decoding a concatenation is decoding the second part from the state after the first |
| QoiRoundTrip.SerializedIsPlaced | src/QOI.h:45-103 | the written bytes hold each chunk's bytes one after another |
| QoiRoundTrip.ReadPlaced | src/QOI.h:141-209 | the corrected loop decodes placed chunks exactly |
| QoiRoundTrip.ReadPlacedAsWritten | src/QOI.h:141-209 | the loop as written decodes placed chunks and then appends 64 copies of the last colour |
| QoiRoundTrip.DeltaChunkDecodes | src/QOI.h:74-92 | the DIFF, LUMA or RGB chunk chosen for a colour decodes to that colour and stores it in the table |
| QoiRoundTrip.EncodePixelDecodes | src/QOI.h:45-96 | what `write_pixel` writes decodes to the pixels it flushed, and the decoder ends in the writer's new state (same previous colour, same table) |
| QoiRoundTrip.InStepStep | src/QOI.h:45-96 | the writer and decoder stay in step: the chunks written so far decode to every pixel except the pending run, which repeats the previous colour |
| QoiRoundTrip.EncodeAllInStep | src/QOI.h:45-96 | this holds after any pixel sequence |
| QoiRoundTrip.EncodeImageDecodes | src/QOI.h:45-103 | after `finish_run`, the chunks decode to exactly the pixel sequence |
| QoiRoundTrip.RoundTrip | src/QOI.h:27-209 | for any pixels with byte channels, the file the writer produces passes the magic check, and reading it with the corrected loop gives back exactly those pixels |
| QoiRoundTrip.AsWrittenAppendsRun | src/QOI.h:141-209 | reading that file with the loop as written gives the pixels followed by 64 copies of the last colour |
| QoiRoundTrip.OnePixelReadsAsSixtyFive | src/QOI.h:141-209 | concretely, a one-pixel image reads back as 65 pixels |
| QoiStreams.ToUnit | src/QOI.h:152 | a byte colour divided by 255 lies in the unit cube |
| QoiStreams.ToUnitInjective | src/QOI.h:152 | dividing by 255 loses nothing |
| QoiStreams.OutputFile.Put | src/QOI.h:38 | `<<` appends one byte to the file |
| QoiStreams.InputFile.Get | src/QOI.h:118 | `get()` returns the byte at the position or -1, advances by at most one, and raises `eof` once it reads past the end |
| QoiStreams.InputFile.Peek | src/QOI.h:143 | the look-ahead does not move the position |
| QoiStreams.Writer.constructor | src/QOI.h:27-34 | the writer starts with black as previous colour, a black table and no run, and writes the header |
| QoiStreams.Writer.Write32 | src/QOI.h:37-42 | `write32` appends the four bytes of the value, most significant first |
| QoiStreams.Writer.WritePixel | src/QOI.h:45-96 | the writer's fields move to the next encoder state and the file grows by that step's chunks |
| QoiStreams.Writer.WriteDelta | src/QOI.h:74-92 | the DIFF, LUMA or RGB branch appends the bytes of the chosen chunk |
| QoiStreams.Writer.FinishRun | src/QOI.h:98-103 | appends the pending run, if there is one |
| QoiStreams.Reader.Read32 | src/QOI.h:116-123 | reads four bytes with the end-of-file behaviour of `get()` |
| QoiStreams.Reader.constructor | src/QOI.h:125-139 | a bad magic is reported after reading four bytes; otherwise width, height, channels and colour space are read from the header |
| QoiStreams.Reader.ReadChunk | src/QOI.h:145-207 | one loop pass pushes the step's pixels scaled by 1/255 and advances past its bytes |
| QoiStreams.Reader.ReadRgb | src/QOI.h:147-158 | the RGB branch reads three channels and shows the colour |
| QoiStreams.Reader.ReadRun | src/QOI.h:160-166 | the run branch pushes (op & 0x3f) + 1 copies of the previous colour |
| QoiStreams.Reader.ReadIndex | src/QOI.h:168-173 | the index branch pushes the table entry and makes it the previous colour, leaving the table alone |
| QoiStreams.Reader.ReadDiff | src/QOI.h:175-186 | the DIFF branch applies the three small deltas with C++ `% 256` |
| QoiStreams.Reader.ReadLuma | src/QOI.h:188-203 | the LUMA branch reads its second byte and applies the green-relative deltas |
| QoiStreams.Reader.ReadAll | src/QOI.h:141-209 | the loop as written pushes exactly what the as-written loop function decodes, scaled by 1/255, and ends with `eof` raised |
| QoiStreams.Reader.ReadAllToEnd | src/QOI.h:141-209 | the corrected loop pushes exactly what the corrected loop function decodes and stops at the end of the file |
| QoiStreams.HeaderIsMagic | src/QOI.h:126-130 | the four header characters equal "qoif" exactly when the magic check passes |
| ObjText.WordsOfJoin | src/ObjLoader.h:164-167 | splitting words joined by single spaces gives the words back, as successive `>>` into a string does |
| ObjText.LineOfWords | src/ObjLoader.h:37-39 | a line made of a keyword and joined words has that keyword and those arguments |
| ObjText.ExtractInt | src/ObjLoader.h:169-176 | `>>` into an int keeps the text, only moves forward, and either leaves the value alone or yields an int in range |
| ObjText.NumberOfNumeral | src/ObjLoader.h:169-176 | a numeral followed by the end or white space is read back exactly |
| ObjText.DecimalOfNatText | src/ObjLoader.h:169-176 | reading the decimal text of a number gives the number |
| ObjText.ReadsAtEnd | src/ObjLoader.h:169-176 | a read from a stream already at its end leaves the value alone |
| ObjText.ReadPair | src/ObjLoader.h:169-176 | three reads of "a b" (or "a  b") give a, b and b again |
| ObjText.ReadTriple | src/ObjLoader.h:169-176 | three reads of "a b c" give a, b and c |
| ObjText.ReadSingle | src/ObjLoader.h:169-176 | three reads of a lone numeral give it three times, the last two leaving the value alone |
| ObjText.ReplaceSlash | src/TriangleMesh.h:12-23 | the result has the same length, with every '/' turned into ' ' and every other character unchanged |
| ObjText.SlashCount | src/ObjLoader.h:204-209 | the count is at most the length |
| ObjText.SlashCountPositive | src/ObjLoader.h:200-209 | a '/' occurs exactly when the count is positive |
| ObjText.ClassifyFace | src/ObjLoader.h:192-221 | the counting loop computes `face_type`: "//" gives 2, no '/' gives 3, six slashes 0, three slashes 1, otherwise -1 (the member of src/TriangleMesh.h:129-158 has the same text) |
| ObjText.CornerInts | src/ObjLoader.h:168-176 | each corner word gives three ints |
| ObjText.Corners | src/ObjLoader.h:167-177 | the face gets three ints per corner word |
| ObjText.FixUp | src/ObjLoader.h:179-185 | the type-1 fix-up keeps the face's length |
| ObjText.FaceIndices | src/ObjLoader.h:161-190 | a parsed face has three ints per corner word |
| ObjText.ReadCorners | src/ObjLoader.h:167-177 | the loop pushes exactly three reads of each corner word, in order |
| ObjText.ParseFace | src/ObjLoader.h:161-190 | `parse_face` pushes the reads of every corner word, then copies slots 0, 3 and 6 into slots 2, 5 and 8 for type 1 (the member of src/TriangleMesh.h:98-127 has the same text) |
| ObjText.ReplaceSlashCorner | src/TriangleMesh.h:12-23 | replacing the slashes of a corner word in any format spaces out its numbers |
| ObjText.CornerIntsOf | src/ObjLoader.h:168-176 | the three reads of a corner word in each format: v/vt/vn gives (v, vt, vn), v/vt gives (v, vt, vt), v//vn gives (v, vn, vn), v gives (v, v, v) |
| ObjText.CornerWordDoubleSlash | src/ObjLoader.h:197 | only the "v//vn" corner word contains "//" |
| ObjText.FaceTypeOfLine | src/ObjLoader.h:192-221 | the type of a face line written in one format: "v//vn" is 2 and "v" is 3 at any corner count, "v/vt/vn" is 0 only with three corners, and "v/vt" is 1 with three corners, 0 with six and -1 otherwise |
| ObjText.TriangleFaceType | src/ObjLoader.h:192-221 | a triangle is recognised in its own format |
| ObjText.CornersOfWords | src/ObjLoader.h:167-177 | the reads of a face line's corner words, before the fix-up |
| ObjText.ArgumentsOfFaceLine | src/ObjLoader.h:162-167 | the corner words of a face line are its arguments after the keyword "f" |
| ObjText.FixUpOfReads | src/ObjLoader.h:179-185 | the type-1 fix-up turns a triangle's reads into the intended indices |
| ObjText.TriangleFaceIndices | src/ObjLoader.h:161-190 | `parse_face` on a triangle written in any format gives each corner's vertex, texture and normal index; a missing texture or normal index is replaced by another index of the same corner |
| ObjText.LastSeparator | src/ObjLoader.h:19 | `find_last_of("/\\")`: a separator at the result and none after it, or none at all |
| ObjText.LastSeparatorAppend | src/ObjLoader.h:19 | a name without separators does not move the last separator |
| ObjText.DirectoryOfPath | src/ObjLoader.h:18-25 | a file name made of a directory ending in a separator and a plain name has that directory, separator included |
| ObjText.DirectoryOfPlainName | src/ObjLoader.h:18-25 | a plain file name gets "./" |
| ObjLoading.MtlStep | src/ObjLoader.h:242-295 | one line of `load_mtllib`: only "newmtl" changes the name and the map, only "map_Kd" changes the texture, and a line with no known key changes nothing |
| ObjLoading.LoadMtllib | src/ObjLoader.h:223-300 | a file that cannot be opened leaves the map as it was; otherwise the loop's result is every block committed under its name |
| ObjLoading.MtlFieldsInherited | src/ObjLoader.h:240-294 | the material is never reset between blocks: its colours and scalars are those `parse_material` gives for all the lines read so far |
| ObjLoading.MtlNamesTracked | src/ObjLoader.h:249-254 | during the loop every announced name is in the map or is the current one, and the map gains only announced names |
| ObjLoading.AnnouncedNamesLoaded | src/ObjLoader.h:249-299 | after `load_mtllib` every name a "newmtl" line announces is in the map, and every name in the map was there before or was announced |
| ObjLoading.Unmapped | src/ObjLoader.h:103-105 | `std::vector<int> map(n, -1)`: n entries, all -1 |
| ObjLoading.PlaceAllFacts | src/ObjLoader.h:106-125 | reindexing one kind of index over a face: the mesh's list keeps its old entries, every new index names an entry pushed for this face holding the global entry of the old index, equal old indices get equal new ones, and every pushed entry is named |
| ObjLoading.PlaceAll | src/ObjLoader.h:106-125 | one kind of index through one map over a face: the map keeps one slot per global entry and there is one new index per old index |
| ObjLoading.PlaceAllSound | src/ObjLoader.h:106-125 | after a face's indices go through a fresh map: the mesh's list keeps its old entries as a prefix, every filled slot names a newly pushed entry equal to its global entry, every new index is the slot of its old index, and every pushed entry is named by some new index |
| ObjLoading.SoundFacts | src/ObjLoader.h:110-124 | the loop invariant of one map gives those same facts |
| ObjLoading.RemapFaceFacts | src/ObjLoader.h:100-126 | one face: the mesh's lists only grow, every new index names the data its old index named in the global lists, and each kind of index is pushed and merged as above |
| ObjLoading.RemapFace | src/ObjLoader.h:100-126 | a reindexed face has as many slots as the face that was read |
| ObjLoading.AllKinds | src/ObjLoader.h:106-125 | the facts of the three kinds of index together make those of the face |
| ObjLoading.RemapFacesFacts | src/ObjLoader.h:98-128 | a reindexed mesh: its lists only grow, and every new face names, in the mesh's own lists, the data the face as read named in the global lists |
| ObjLoading.RemapFaces | src/ObjLoader.h:99-128 | one reindexed face per face |
| ObjLoading.AppendedFaceFacts | src/ObjLoader.h:99-127 | the faces already reindexed keep their data when a later face grows the lists |
| ObjLoading.RemappedTriangle | src/ObjLoader.h:98-133 | the triangle the mesh builds from a reindexed face is the triangle of the face as read, over the global vertices |
| ObjLoading.PlaceIndex | src/ObjLoader.h:110-124 | one index through its map: pushed and recorded the first time it is seen, reused afterwards, exactly the specification's step |
| ObjLoading.ReindexFace | src/ObjLoader.h:100-126 | the body of the face loop: fresh maps of -1, then the corner loop; the mesh's lists and the new face are exactly the reindexing of the face, and the mesh's faces, material and tree are untouched |
| ObjLoading.ReindexCorners | src/ObjLoader.h:106-125 | the corner loop: three maps run corner by corner, the new face interleaving their indices |
| ObjLoading.ReindexMesh | src/ObjLoader.h:98-128 | the loop over a mesh's faces followed by `mesh.faces = new_faces`: the mesh's lists and faces are the reindexing of all its faces in order |
| ObjReading.Reading | src/ObjLoader.h:58-77 | a "vt" line leaves z at 0 |
| ObjReading.ObjStep | src/ObjLoader.h:35-84 | one line of `load_obj`: only "o" pushes a mesh, the material changes only for "o" or a "usemtl" naming a known material (which it then takes), and only "mtllib" changes the material map |
| ObjReading.ObjMeshesFacts | src/ObjLoader.h:33-87 | after the loop every mesh has a face, the meshes' faces are the file's face lines in order with none lost or repeated, and the global lists are the file's "v", "vn" and "vt" lines in order |
| ObjReading.ObjLinesTrack | src/ObjLoader.h:35-84 | the loop invariant: the pushed meshes and the current one hold the face lines read so far, in order, each mesh pushed having a face, and the global lists are the vertex lines read so far |
| ObjReading.Padded | src/ObjLoader.h:89-96 | a list the file left empty becomes one zero vector per vertex; a list with entries is kept |
| ObjReading.RemappedInRange | src/ObjLoader.h:98-133 | reindexed faces name the mesh's own vertices, and each gives the triangle its face names over the global vertices |
| ObjReading.LoadedTriangles | src/ObjLoader.h:98-133 | a finished mesh's tree holds, for every face of the file, the triangle its first three corners name in the global vertex list |
| ObjReading.FinishMesh | src/ObjLoader.h:99-133 | the second loop's body: reindex, box and build the tree, leaving the mesh loaded |
| ObjReading.FinishAt | src/ObjLoader.h:98-134 | finishing mesh i leaves the meshes before it loaded and the ones after it as read |
| ObjReading.FinishMeshes | src/ObjLoader.h:98-134 | after the second loop every mesh is loaded |
| ObjReading.NextObject | src/ObjLoader.h:40-45 | "o": the current mesh is pushed exactly when it has faces, and an empty mesh takes its place |
| ObjReading.SetData | src/ObjLoader.h:51-83 | a change to the current mesh leaves the pushed meshes as they were |
| ObjReading.ReadObjLines | src/ObjLoader.h:33-87 | the getline loop and the final push give exactly the meshes and global lists of the specification |
| ObjReading.UsableMeshes | src/ObjLoader.h:85-128 | on a file whose indices are in range, every mesh kept has a face and every face can be reindexed |
| ObjReading.AllLoadedTriangles | src/ObjLoader.h:98-134 | every loaded mesh's tree holds the triangles its faces name |
| ObjReading.LoadObj | src/ObjLoader.h:11-158 | `load_obj`: a file that cannot be opened gives no meshes; otherwise one mesh per object with faces, each loaded, its tree holding the triangles of the file's faces over the global vertices |
| Meshes.LowerCorner | src/TriangleMesh.h:183-186 | the running minimum from the 1e8 sentinel lies below every vertex and below the sentinel |
| Meshes.UpperCorner | src/TriangleMesh.h:182-185 | the running maximum from the -1e8 sentinel lies above every vertex and above the sentinel |
| Meshes.LowerCornerAttained | src/TriangleMesh.h:183-186 | with coordinates within the sentinels, every coordinate of the minimum is some vertex's coordinate, so the box is tight |
| Meshes.UpperCornerAttained | src/TriangleMesh.h:182-185 | with coordinates within the sentinels, every coordinate of the maximum is some vertex's coordinate |
| Meshes.FaceTriangles | src/TriangleMesh.h:199-204 | one triangle per face |
| Meshes.BuildTriangles | src/TriangleMesh.h:200-204 | the loop of recalc_tree builds exactly the face triangles: triangle i from the first three corners of face i, with face_index i |
| Meshes.FoldNamesTestedFace | src/TriangleMesh.h:253-255 | the index a mesh's triangles report on a hit is the face index of one of them, and a miss leaves the record as it was |
| Meshes.FoldOverFaces | src/TriangleMesh.h:246-255 | folding the triangle test over any of a mesh's face triangles: a miss leaves the record as it was, and a hit names one of the mesh's faces at a distance below the incoming one |
| Meshes.TriangleMesh.constructor | src/TriangleMesh.h:34-36 | a new mesh has no vertices, normals, texture coordinates or faces, the default material and no tree |
| Meshes.TriangleMesh.RecalcBoundingBox | src/TriangleMesh.h:180-196 | the box's corners become the componentwise minimum and maximum of the vertices, started from the sentinels, so the box is fresh for the current vertices |
| Meshes.TriangleMesh.Centroid | src/TriangleMesh.h:212-214 | the midpoint of an ordered box lies inside it; in particular it does for the box recalc_bounding_box leaves over at least one vertex |
| Meshes.TriangleMesh.MaxVertex | src/TriangleMesh.h:216-218 | the upper corner of the box: once recalc_bounding_box has run it is above every vertex, and with at least one vertex it is not below the lower corner |
| Meshes.TriangleMesh.MinVertex | src/TriangleMesh.h:220-222 | the lower corner of the box: once recalc_bounding_box has run it is below every vertex, and with at least one vertex it is not above the upper corner |
| Meshes.TriangleMesh.RecalcTree | src/TriangleMesh.h:198-210 | the tree is rebuilt over exactly one triangle per face, triangle i having face index i and the corners `vertices[face[0]-1]`, `vertices[face[3]-1]` and `vertices[face[6]-1]`; the mesh's lists are untouched |
| Meshes.TriangleMesh.Intersect | src/TriangleMesh.h:246-255 | a miss leaves the record; a hit names a face in range, sets the point on the ray and comes closer than the incoming distance, and with a usable direction it is the nearest triangle |
| Materials.DefaultMaterial | src/Material.h:23-31 | a material exists exactly when the colour parses |
| Materials.DefaultMaterialOfHex | src/Material.h:23-31 | for "#RRGGBB" the material has K_a = K_s = 1, K_d the three bytes over 255, N_s = 10, N_i = 0, d = 1 and no texture |
| Materials.Component | src/Material.h:51-80 | three numbers for a colour key, one for a scalar key, none for any other word |
| Materials.SameComponents | src/Material.h:11-19 | a material is its six fields and its texture: agreeing on those makes two materials equal |
| Materials.SetComponent | src/Material.h:51-80 | setting one key's field sets it and leaves every other field and the texture unchanged |
| Materials.ReadReals | src/Material.h:52-79 | `iss >>` of n numbers gives n numbers |
| Materials.ReadRealsOfNumbers | src/Material.h:52-79 | words that are numbers are read as those numbers |
| Materials.ReadRealsStopAtFailure | src/Material.h:52-79 | from the first word that is not a number, every remaining read gives 0 |
| Materials.ApplyLine | src/Material.h:45-81 | one line changes only its own key's field, to the numbers read from it; an empty line or an unknown key changes nothing; the texture is never touched |
| Materials.ApplyLines | src/Material.h:44-82 | the lines never touch the texture |
| Materials.ParseMaterial | src/Material.h:34-84 | a file that cannot be opened gives the defaults; otherwise the defaults with every line applied in order; never a texture |
| Materials.ApplyLinesAppend | src/Material.h:44-82 | reading a file in two parts is reading it whole |
| Materials.KeyKept | src/Material.h:51-80 | a key that no line names keeps its value |
| Materials.LastOccurrenceWins | src/Material.h:51-80 | for a repeated key the last line naming it decides its field |
| Materials.KeyLine | src/Material.h:51-80 | a line of a key followed by numbers sets that key's field to those numbers |
| Materials.MtlMaterial | src/Material.h:86-95 | the six colour and scalar fields are those `parse_material` gives, and there is no texture |
| Materials.MtlMaterialIsParsed | src/Material.h:86-95 | so an `MtlMaterial` is exactly the material `parse_material` returns |
| Splitter.Ints | compression/object_splitter.py:4-5 | `ints`: never more numbers than characters |
| Splitter.IntsWithoutDigits | compression/object_splitter.py:4-5 | text without digits has no numbers |
| Splitter.IntsAppend | compression/object_splitter.py:4-5 | the numbers of two texts that do not join digit runs are the numbers of each, in order |
| Splitter.IntsOfNumeral | compression/object_splitter.py:4-5 | the decimal text of n reads as [n] |
| Splitter.CornerIndicesExactly | compression/object_splitter.py:37-51 | an index is collected from a face's corners exactly when some corner names it in that kind |
| Splitter.AddCorner | compression/object_splitter.py:38-51 | one corner adds exactly the position, texture and normal indices it names to the three sets |
| Splitter.AddFace | compression/object_splitter.py:37-51 | one face adds exactly the indices its corners name |
| Splitter.CollectIndices | compression/object_splitter.py:33-51 | the three sets are exactly the indices the object's faces name, kind by kind |
| Splitter.FaceReferenced | compression/object_splitter.py:36-51 | every index of any face is collected |
| Splitter.ReferencedByFace | compression/object_splitter.py:36-51 | every collected index comes from some face |
| Splitter.CornerReferenced | compression/object_splitter.py:37-51 | the index any corner of any face names is collected |
| Splitter.Least | compression/object_splitter.py:52-54 | a non-empty set has a least element |
| Splitter.Sorted | compression/object_splitter.py:52-54 | `sorted(list(s))`: strictly increasing, as long as the set, holding exactly its elements |
| Splitter.NumberingAt | compression/object_splitter.py:55-61 | the map's keys are the sorted indices and the i-th of them maps to i + 1 |
| Splitter.NumberingOrder | compression/object_splitter.py:55-61 | the new numbers keep the order of the old ones and run from 1 to the count |
| Splitter.Renumber | compression/object_splitter.py:56-61 | the loop `maps[k][unique[i]] = i + 1` builds exactly that map |
| Splitter.CornerRoundTrip | compression/object_splitter.py:74-84 | a rewritten corner is one word that reads back as the same kinds of index, each through its map, so its format is kept |
| Splitter.FaceRoundTrip | compression/object_splitter.py:72-85 | a rewritten face line is an "f" line whose corners are the rewritten corners, words naming no index dropped |
| Splitter.NewWordsRead | compression/object_splitter.py:74-84 | the rewritten corners are one per kept corner, each reading back as that corner renumbered |
| Splitter.RewriteCorner | compression/object_splitter.py:75-84 | the text one corner adds to the new face |
| Splitter.RewriteFace | compression/object_splitter.py:72-85 | the loop over a face's corners builds the new face line |
| Splitter.NewNumberNamesOldLine | compression/object_splitter.py:66-71 | old index x gets a new number n, and line n of the copied block is line x of the input's list |
| Splitter.CopyLines | compression/object_splitter.py:66-71 | the loop copies the used lines in increasing order of their old index |
| Splitter.ReadLine | compression/object_splitter.py:15-28 | one pass of the reading loop: an "o" line starts (or empties) an object, vertex lines go to their list, face lines to the current object, other lines to its extra lines; words are split on ASCII white space (see "## Left out") |
| Splitter.Read | compression/object_splitter.py:14-28 | the reading loop gives, for every file read without an exception, exactly the specification's pieces |
| Splitter.ReadTracks | compression/object_splitter.py:14-28 | after the loop the current object is the last one declared; the vertex lists are the file's "v", "vn" and "vt" lines in order; the objects are exactly the declared names, each once, each holding its face lines since its last "o" line; extra_info holds, for each object with other lines, all of them when intended and all but the first as written |
| Splitter.FirstOtherLineDropped | compression/object_splitter.py:24-28 | as written, an object keeps every other line after its first one: the first is lost |
| Splitter.OtherLinesKept | compression/object_splitter.py:24-28 | with the evident intent, an object keeps every other line that follows it |
| Splitter.MapsCover | compression/object_splitter.py:55-61 | every index a face names has an entry in its map |
| Splitter.MapsCoverAll | compression/object_splitter.py:55-61 | so every face of the object can be rewritten without a KeyError |
| Splitter.NewFaces | compression/object_splitter.py:72-85 | one new face line per face |
| Splitter.RewriteFaces | compression/object_splitter.py:72-85 | the loop writes exactly the rewritten faces, in order |
| Splitter.WriteObject | compression/object_splitter.py:63-85 | an object's file is its extra lines, then its used "v", "vt" and "vn" lines, then its rewritten faces |
| Splitter.BlockIsCopied | compression/object_splitter.py:66-71 | each vertex block of the file is the used lines of that kind, copied in order |
| Splitter.IndexLands | compression/object_splitter.py:55-71 | any index of a kind that the object's faces use gets a new number within the block, and the line at that number in the written file is the line the old index named in the input |
| Splitter.KindResolves | compression/object_splitter.py:55-84 | a renumbered index of any kind lands, in the object's file, on the very line the old index named in the input |
| Splitter.CornerReadBack | compression/object_splitter.py:72-85 | the k-th corner of a written face reads back as the k-th kept corner of the old face, renumbered |
| Splitter.CornerResolves | compression/object_splitter.py:63-85 | every index of every written corner names, in the object's own file, the line its old index named in the input, and no kind of index is added or lost |
| Splitter.KeptAreCorners | compression/object_splitter.py:74-75 | a kept corner word is a corner word of the face |
| Splitter.KeptReferenced | compression/object_splitter.py:36-51 | every index a kept corner names was collected |
| Splitter.LastSlash | compression/object_splitter.py:8 | `rsplit("/", 1)` splits at a '/' with none after it, or finds none |
| Splitter.OutputNextToInput | compression/object_splitter.py:8 | as written, a path with a directory writes beside the input |
| Splitter.PlainNameAsDirectory | compression/object_splitter.py:8 | as written, a plain file name "a.obj" gives the directory "a.obj/": a path under the input file itself, so the script's first write there fails |
| Splitter.IntendedNextToInput | compression/object_splitter.py:8 | with the evident intent, the output directory is the input's own, empty for a plain name |
| Splitter.Outputs | compression/object_splitter.py:31-85 | one output file per object |
| Splitter.Split | compression/object_splitter.py:7-85 | `split`: one file per object, in the order the objects appear, named after the object in the output directory, with the contents above |
| Splitter.DistinctPaths | compression/object_splitter.py:63 | distinct objects are written to distinct paths |
| Octants.NewCell | src/OctreeRec.h:19-24 | a new node has the given box, no children and no faces, its centre is the box's midpoint and centre ± extents is the box again (the same constructor is src/Octree.h:13-18) |
| Octants.ChildOrderIsComplete | src/OctreeRec.h:56-63 | the eight children are the eight distinct octants, each once |
| Octants.OctantsTile | src/OctreeRec.h:35-54 | every octant of an ordered box is an ordered box inside it, and the octant a point's side of the centre selects holds the point |
| Octants.ChildCorners | src/OctreeRec.h:38-53 | the octant boxes are exactly the corners `build` passes to TRF, TLF, BLF, BRF, BRB, BLB, TLB and TRB, in that order |
| Octants.Build | src/OctreeRec.h:31-64 | `build` keeps the node's box, centre, extents and faces |
| Octants.BuildTree | src/OctreeRec.h:31-64 | the recursive `build` method computes exactly the specification's tree (src/Octree.h:25-58 is the same text) |
| Octants.BuildShape | src/OctreeRec.h:31-64 | `build(d)` on a new node gives a complete 8-ary tree of height d, every inner node split into its eight octants, with no faces anywhere |
| Octants.Assemble | src/OctreeRec.h:56-63 | eight complete, faceless octant children of height d - 1 make a complete tree of height d |
| Octants.NoFacesBelow | src/OctreeRec.h:13-14 | children with no faces hold no faces together |
| Octants.NoFacesInLeaves | src/OctreeRec.h:31-64 | a faceless complete tree trivially keeps its faces in its leaves |
| Octants.FacesOfEmpty | src/OctreeRec.h:13-14 | when children hold no faces together, none of them does |
| Octants.CullTree | src/OctreeRec.h:104-114 | the recursive `cull` computes exactly the specification's pruning and answer (src/Octree.h:97-107 is the same text) |
| Octants.CullFacts | src/OctreeRec.h:104-114 | after `cull` no empty node is left below, the faces are all kept, the answer is true exactly when the subtree held no face, and then the node is empty |
| Octants.SurvivorsFacts | src/OctreeRec.h:105-112 | the kept children are non-empty and pruned, together they hold the same faces, and none are kept exactly when no face was held |
| Octants.CullOfPruned | src/OctreeRec.h:104-114 | a pruned tree is left unchanged by `cull` |
| Octants.SurvivorsOfPruned | src/OctreeRec.h:105-112 | children that are already pruned and non-empty are all kept |
| Octants.CullIdempotent | src/OctreeRec.h:104-114 | culling twice is culling once |
| Octants.CullKeepsShape | src/OctreeRec.h:104-114 | `cull` keeps the node's box, centre, extents and faces, keeps only culled children, and keeps faces in leaves |
| OctreeRec.InsertAll | src/OctreeRec.h:77-79 | inserting into each child keeps the number of children |
| OctreeRec.InsertTree | src/OctreeRec.h:66-82 | the recursive `insert` computes exactly the specification's node and answer |
| OctreeRec.InsertChildren | src/OctreeRec.h:77-79 | the loop over the children inserts into each in turn |
| OctreeRec.InsertFacts | src/OctreeRec.h:66-82 | inserting into a complete tree of height h at depth h + 1 keeps it complete and subdivided, keeps faces in its leaves and adds no face other than the triangle |
| OctreeRec.GrownSelf | src/OctreeRec.h:66-82 | the growth relation is reflexive |
| OctreeRec.GrownFaces | src/OctreeRec.h:66-82 | after an insertion every face of the tree was there before or is the triangle |
| OctreeRec.GrownFacesOf | src/OctreeRec.h:77-79 | the same across a list of children |
| OctreeRec.IntersectionFolds | src/OctreeRec.h:84-102 | the node query is the triangle fold over the faces of the leaves it reaches, each one stored in the tree |
| OctreeRec.ChildrenFold | src/OctreeRec.h:97-99 | the children's queries in order are the fold over their faces in order |
| OctreeRec.NodeFindsNearestTested | src/OctreeRec.h:84-102 | the query's distance is the nearest hit among the triangles it tested, it reports a hit exactly when that beats the incoming distance, and a miss leaves the record untouched |
| OctreeRec.NodeIntersection | src/OctreeRec.h:84-102 | the recursive `intersection` computes exactly the specification's answer and record |
| OctreeRec.NewOctree | src/OctreeRec.h:126-141 | the constructor builds over the box, inserts the triangle of every face into every root child at the tree's depth, and culls |
| OctreeRec.FillStep | src/OctreeRec.h:135-138 | one face inserted into the root's children keeps the root's shape and adds only that triangle |
| OctreeRec.FillFacts | src/OctreeRec.h:132-139 | after k faces the root is still complete and subdivided with faces only in leaves, and every stored triangle is one of the first k faces' |
| OctreeRec.OctreeFacts | src/OctreeRec.h:126-141 | the finished tree is pruned, keeps faces in leaves, has the mesh's box at the root, and stores only triangles of the mesh's faces |
| OctreeRec.OctreeIntersection | src/OctreeRec.h:148-160 | the tree query computes exactly the specification's answer and record |
| OctreeRec.TreeFindsNearestTested | src/OctreeRec.h:148-160 | a ray missing the root box hits nothing; otherwise the result is the nearest hit among stored triangles the query tested, a hit exactly when that beats the incoming distance |
| SpaceTrees.Insert | src/Octree.h:60-77 | `insert` keeps the node's box, centre and extents |
| SpaceTrees.Adopt | src/Octree.h:70-74 | a child given the face keeps its box, centre and extents |
| SpaceTrees.InsertAll | src/Octree.h:70-74 | inserting into each child keeps the number of children |
| SpaceTrees.InsertTree | src/Octree.h:60-77 | the recursive `insert` computes exactly the specification's node and answer |
| SpaceTrees.InsertChildren | src/Octree.h:70-74 | the loop over the children, pushing the face into each that accepts it |
| SpaceTrees.InsertFacts | src/Octree.h:60-77 | a face adopted at depth h + 1 by a complete tree of height h keeps it complete and subdivided, keeps faces in its leaves and adds no other face |
| SpaceTrees.GrownSelf | src/Octree.h:60-77 | the growth relation is reflexive |
| SpaceTrees.GrownFaces | src/Octree.h:60-77 | after an insertion every face of the tree was there before or is the new face |
| SpaceTrees.GrownFacesOf | src/Octree.h:70-74 | the same across a list of children |
| SpaceTrees.CollectInto | src/Octree.h:79-95 | the recursive `intersection` appends exactly the specification's faces to the array and returns its answer |
| SpaceTrees.CollectChildren | src/Octree.h:90-92 | the loop over the children appends their faces in order |
| SpaceTrees.CollectStored | src/Octree.h:79-95 | the faces gathered are stored in the node, each no more often than stored, and a false answer gathers none |
| SpaceTrees.CollectAllStored | src/Octree.h:90-92 | the same over a list of children |
| SpaceTrees.CollectFindsFacesOnLine | src/Octree.h:79-95 | for a ray with a usable direction, every face stored in the leaves that hold any point of its line is gathered |
| SpaceTrees.LexIrreflexive | src/Octree.h:157-162 | the order of `std::set<std::vector<int>>` is irreflexive |
| SpaceTrees.LexTransitive | src/Octree.h:157-162 | and transitive |
| SpaceTrees.LexTotal | src/Octree.h:157-162 | and total on distinct faces |
| SpaceTrees.HasLexLeast | src/Octree.h:157-162 | a non-empty set of faces has a least one |
| SpaceTrees.LexLeast | src/Octree.h:157-162 | the least face precedes every other |
| SpaceTrees.SortedOf | src/Octree.h:157-162 | iterating the set: strictly increasing, as long as the set, holding exactly its elements |
| SpaceTrees.Dedup | src/Octree.h:157-162 | inserting the tests into a set and assigning them back gives the set's faces in order |
| SpaceTrees.DedupFacts | src/Octree.h:157-162 | the result has no duplicates and holds exactly the faces tested |
| SpaceTrees.NewOctree | src/Octree.h:122-137 | the constructor builds over the box, pushes every face into each root child that accepts it at the tree's depth, and culls |
| SpaceTrees.FillStep | src/Octree.h:130-134 | one face inserted keeps the root's shape, each child growing by that face only |
| SpaceTrees.FillFacts | src/Octree.h:128-135 | after k faces the root is still complete and subdivided with faces only in leaves, and every stored face is one of the first k |
| SpaceTrees.OctreeFacts | src/Octree.h:122-137 | the finished tree is pruned, keeps faces in leaves, has the mesh's box at the root, and stores only the mesh's faces |
| SpaceTrees.OctreeIntersection | src/Octree.h:144-164 | the query computes exactly the specification's face list |
| SpaceTrees.QueryFacts | src/Octree.h:144-164 | the result is sorted without duplicates, empty when the ray misses the root box, holds only stored faces, and, for a usable direction, every face stored where the line crosses the root box |
| SpaceTrees.InsertReaches | src/Octree.h:60-77 | a face is stored in the leaf around every point strictly inside a leaf box that lies on its triangle |
| SpaceTrees.FillReaches | src/Octree.h:128-135 | after filling, each face is stored around every point of its triangle |
| SpaceTrees.CullKeepsStored | src/Octree.h:97-107 | `cull` keeps every such stored face |
| SpaceTrees.QueryFindsFace | src/Octree.h:122-164 | a face whose triangle the ray's line crosses inside a leaf is in the query's answer |

## Left out

- Floating point: coordinates, distances, colours and costs are reals. Float rounding, NaN and the IEEE infinities that a zero direction component gives `1 / direction` are not modelled.
- Geometry.EntryDistance: the float-returning `AABBIntersection(AABB, Ray)` and `FINF` are not defined in any of the source files modelled here; src/AABB.h has only the boolean slab test. They are modelled from their uses in src/BVH.h as a slab entry distance, or a miss standing for `FINF`.
- Triangles.Intersect: a zero determinant is a miss. Under IEEE arithmetic every path through the test then returns false as well.
- Bvh.BVH.Intersect: the answer equals the brute-force nearest hit only for rays whose direction has no zero component (`ProperInverse`). Without that, only the bounds on the record are stated.
- Bvh.BVH.Intersect: the fixed `stack[200]` is an unbounded sequence, so overflow on deep trees is not modelled. The stack is proved to stay below N entries (`PendingBound`).
- Sah.BestSplit: when the node's box has zero area, every SAH cost is 0/0, a NaN that never compares as smaller. The model picks boundary 0 directly, which is what the comparisons do.
- Bvh.BVH.constructor: requires N ≥ 1, because `N * 2 - 1` wraps in unsigned arithmetic when there are no primitives.
- `basic_divide` (src/BVH.h:89-131) is never called by `build` and is not modelled. The compiled-out recursive traversal (src/BVH.h:216-244) is not modelled either.
- Geometry.Counters.CountedSlabTest: the global `AABBIntersectionCount` and `triangle_count` are modelled only as "+1 per call". What the profiling output prints is not modelled.
- Primitives behind the BVH are abstract: shared pointers, virtual dispatch and ownership are not modelled. Scenes hold values.
- src/Mat4.h, object transforms, shading, cameras, lights, spheres, planes, textures and rendering are not part of this model. Neither are src/Main.cpp, src/SceneLoader.h and compression/conv.py.
- Meshes.TriangleMesh.Intersect: the normal and texture-coordinate interpolation after a hit (src/TriangleMesh.h:256-265) is not modelled, and neither is `calculate_normals` (src/TriangleMesh.h:161-178).
- ObjReading.LoadObj: `calculate_normals` is not modelled, so for a file without "vn" lines the contract says nothing about the meshes' normals.
- ObjReading.LoadObj: returns the loaded meshes. The outer `BVH bvh(meshes_ptrs)` built over them (src/ObjLoader.h:152-158) is the BVH of this model over mesh primitives and is not rebuilt here. The vertex and face totals printed at src/ObjLoader.h:137-150 are left out.
- ObjReading.LoadObj: requires a file whose faces have at least three corners and whose indices are in range (`ObjDefined`, `Usable`, `FaceDefined`). The source has undefined behaviour otherwise: it indexes past the end of `face` or of the global lists.
- ObjLoading.ReindexFace: the per-face `vmap`, `vtmap` and `vnmap` vectors are sequence values rather than arrays updated in place.
- Opening files, `getline`, and `std::cout`/`std::cerr` logging are not modelled. A file system is a map from names to lines, and an image that fails to load is a name missing from a set of loadable images.
- ObjReading.Reading: parsing a floating-point token is a parameter (`NumberFn`), since the model has no floats. A failed read gives 0, as C++11 streams do, and an uninitialised `int v` that is never assigned is likewise taken as 0. So is the uninitialised `float v` that an "Ns", "Ni" or "d" line with no number after its key stores (src/Material.h:66-80, and the same reads in src/ObjLoader.h:280-295); the source stores an indeterminate value there.
- Materials.ReadReals: a value the stream never reaches keeps 0. That is right for the Vector3() components of Ka, Kd and Ks. For Ns, Ni and d the source keeps an uninitialised `float`, which the model does not represent.
- Texture loading for "map_Kd" (src/ObjLoader.h:255-264) only records the texture's path.
- Splitter.Ints: Python's `\d` also matches non-ASCII decimal digits. The model matches only '0' to '9'.
- Splitter.ReadLine: `line.split()` is modelled with the six ASCII white-space characters that C's `isspace` accepts (space, tab, newline, carriage return, form feed, vertical tab), shared with the C++ loaders' word splitting. Python's `str.split()` also splits on U+001C to U+001F, U+0085, U+00A0, U+1680, U+2000 to U+200A, U+2028, U+2029, U+202F, U+205F and U+3000. A line such as "v\u00a01 2 3" is a vertex line to the script, but the model's keyword is "v\u00a01", so it files the line as another line. The same word splitting is used by `Splitter.ClassOf`, `Splitter.CollectIndices` and `Splitter.RewriteFace`, so for lines holding those characters none of them promises the script's behaviour.
- Splitter.Split: requires every line to be read without an exception, and every object to have an `extra_info` entry and in-range vertex indices. The script raises `IndexError` on a blank line or an "o" line without a name, and `KeyError` on a face before any "o" line or on an object without other lines (compression/object_splitter.py:64). Writing files is a list of (path, lines) results. For an input name without '/', the paths are "name/<object>.obj" under the input file itself, which the script cannot open (`NotADirectoryError` at compression/object_splitter.py:63, with nothing written). The model still returns those results.
- OctreeRec.NewOctree: the depth is a `uint8_t` in the source and a natural number here. The unused `box[2]` field of both octrees is left out, and so are destructors.
- Octants.BuildTree: octree nodes are values, as the source's `std::vector<OctreeNode>` children are. Updating in place and copying children into and out of vectors are not modelled separately.
- OctreeRec.TreeFindsNearestTested: gives the nearest hit among the triangles the query tests, not that this is the nearest hit over all of the mesh's faces. For the other octree the analogue, `SpaceTrees.QueryFindsFace`, is proved for points strictly inside a bottom-level cell.

## Findings

| source | as written | input that shows it | evidently intended | confidence | as-written member | corrected member |
|---|---|---|---|---|---|---|
| src/QOI.h:143-145 | `read_all` tests `eof()` before `get()`, so after the last chunk it makes one more pass: `get()` returns -1, which becomes the byte 0xff, read as a run of 64 copies of the previous colour | any encoded image, e.g. a 1×1 image reads back as 65 pixels | stop when no byte is left, so that decoding returns exactly the encoded pixels | not executed | QoiRoundTrip.AsWrittenAppendsRun | QoiRoundTrip.RoundTrip |
| compression/object_splitter.py:25-28 | the first "other" line of an object only creates its `extra_info` entry and is not stored; only the later ones are | an object followed by "usemtl m" and then "s 1": its output file keeps only "s 1" | store every other line of the object, the first included | not executed | Splitter.FirstOtherLineDropped | Splitter.OtherLinesKept |
| compression/object_splitter.py:8 | `filename.rsplit("/", 1)[0] + "/"` on a name without '/' keeps the whole name, so every output path lies under the input file itself, taken as a directory; since the input is a regular file, the first `open(..., "w")` at line 63 raises `NotADirectoryError` and no file is written | "model.obj" gives the path "model.obj/cube.obj", whose open fails | write next to the input: the text up to and including the last '/', or the current directory | not executed | Splitter.PlainNameAsDirectory | Splitter.IntendedNextToInput |
