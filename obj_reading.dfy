/**
 * The getline loop of load_obj in src/ObjLoader.h: every line is sorted by
 * its first character and first word into a global vertex, normal or
 * texture-coordinate reading, a face of the current mesh, a new object, a
 * material library or a material switch. After the loop the missing
 * texture coordinates and normals are padded with zero vectors, and every
 * mesh is reindexed, boxed and given its triangle tree.
 */
module ObjReading {
  import opened Wrappers
  import opened Vectors
  import opened ObjText
  import opened Materials
  import opened Meshes
  import opened Triangles
  import opened ObjLoading

  /** What the loop reads besides the lines: the directory of the .obj file and what load_mtllib can open. */
  datatype Context = Context(path: string, files: Files, images: set<string>, num: NumberFn)

  /** The branch of the loop a line takes. */
  datatype LineKind = Skip | NewObject | MtlLib | UseMtl | Position | Normal | TexCoord | Face | Ignored

  /**
   * The if-chain of the loop: the first word decides "o", "mtllib" and
   * "usemtl", but the vertex and face branches test the line's first
   * character, so " v 1 2 3" is ignored and any line starting with 'f' is
   * read as a face.
   */
  function KindOf(line: string): LineKind {
    if line == [] || line[0] == '#' then Skip
    else
      var t := Keyword(line);
      if t == "o" then NewObject
      else if t == "mtllib" then MtlLib
      else if t == "usemtl" then UseMtl
      else if line[0] == 'v' then
        if t == "v" then Position else if t == "vn" then Normal else if t == "vt" then TexCoord else Ignored
      else if line[0] == 'f' then Face
      else Ignored
  }

  /** A face line's fix-up stays inside the vector parse_face builds. */
  predicate LineDefined(line: string) {
    KindOf(line) == Face ==> FaceDefined(line)
  }

  predicate LinesDefined(lines: seq<string>) {
    forall i | 0 <= i < |lines| :: LineDefined(lines[i])
  }

  /** `iss >> v.x >> v.y >> v.z` into a Vector3() for "v" and "vn"; "vt" reads two and keeps z at 0. */
  function Reading(line: string, kind: LineKind, num: NumberFn): (r: Vec3)
    ensures kind == TexCoord ==> r.z == 0.0
  {
    if kind == TexCoord then
      var xs := ReadReals(Arguments(line), 2, num);
      Vec3(xs[0], xs[1], 0.0)
    else
      var xs := ReadReals(Arguments(line), 3, num);
      Vec3(xs[0], xs[1], xs[2])
  }

  /** The part of a TriangleMesh the loop fills: its faces as written in the file and its material. */
  datatype MeshFaces = MeshFaces(faces: seq<seq<int>>, mat: Material)

  /** TriangleMesh(): no faces and the default material. */
  const EmptyMesh: MeshFaces := MeshFaces([], Defaults)

  /** The loop's variables: the finished meshes, the current one, the three global lists and the materials. */
  datatype ObjState = ObjState(meshes: seq<MeshFaces>, mesh: MeshFaces, vertices: seq<Vec3>,
                               normals: seq<Vec3>, texcoords: seq<Vec3>, materials: map<string, Material>)

  const Start: ObjState := ObjState([], EmptyMesh, [], [], [], map[])

  /**
   * One line of the loop. A mesh is pushed only when it has faces, and
   * "usemtl" with a name that no library defined leaves the material as it
   * was.
   */
  function ObjStep(st: ObjState, line: string, ctx: Context): (r: ObjState)
    requires LineDefined(line)
    ensures KindOf(line) != NewObject ==> r.meshes == st.meshes
    ensures r.mesh.mat != st.mesh.mat ==>
              KindOf(line) == NewObject
              || (KindOf(line) == UseMtl && FirstArgument(line) in st.materials
                  && r.mesh.mat == st.materials[FirstArgument(line)])
    ensures KindOf(line) != MtlLib ==> r.materials == st.materials
  {
    match KindOf(line)
    case Skip => st
    case NewObject =>
      st.(meshes := if |st.mesh.faces| > 0 then st.meshes + [st.mesh] else st.meshes, mesh := EmptyMesh)
    case MtlLib =>
      st.(materials := LoadedMaterials(ctx.files, ctx.images, ctx.path + FirstArgument(line), ctx.num, st.materials))
    case UseMtl =>
      var name := FirstArgument(line);
      if name in st.materials then st.(mesh := st.mesh.(mat := st.materials[name])) else st
    case Position => st.(vertices := st.vertices + [Reading(line, Position, ctx.num)])
    case Normal => st.(normals := st.normals + [Reading(line, Normal, ctx.num)])
    case TexCoord => st.(texcoords := st.texcoords + [Reading(line, TexCoord, ctx.num)])
    case Face => st.(mesh := st.mesh.(faces := st.mesh.faces + [FaceIndices(line)]))
    case Ignored => st
  }

  function ObjLines(st: ObjState, lines: seq<string>, ctx: Context): ObjState
    requires LinesDefined(lines)
  {
    if lines == [] then st
    else ObjStep(ObjLines(st, lines[..|lines| - 1], ctx), lines[|lines| - 1], ctx)
  }

  /** The meshes after the loop: the last one is pushed too when it has faces. */
  function Finished(st: ObjState): seq<MeshFaces> {
    if |st.mesh.faces| > 0 then st.meshes + [st.mesh] else st.meshes
  }

  /** The meshes load_obj builds from a file; none when it cannot be opened. */
  function ObjMeshes(filename: string, ctx: Context): seq<MeshFaces>
    requires filename in ctx.files ==> LinesDefined(ctx.files[filename])
  {
    if filename in ctx.files then Finished(ObjLines(Start, ctx.files[filename], ctx)) else []
  }

  // ---------------------------------------------------------------------
  // What the loop collects, line by line

  /** The readings of the lines of one kind, in file order. */
  function Readings(lines: seq<string>, kind: LineKind, num: NumberFn): seq<Vec3> {
    if lines == [] then []
    else
      var last := lines[|lines| - 1];
      Readings(lines[..|lines| - 1], kind, num) + (if KindOf(last) == kind then [Reading(last, kind, num)] else [])
  }

  /** The faces of the face lines, in file order. */
  function FacesOf(lines: seq<string>): seq<seq<int>>
    requires LinesDefined(lines)
  {
    if lines == [] then []
    else
      var last := lines[|lines| - 1];
      FacesOf(lines[..|lines| - 1]) + (if KindOf(last) == Face then [FaceIndices(last)] else [])
  }

  /** The faces of the meshes, one mesh after the other. */
  function Flatten(ms: seq<MeshFaces>): seq<seq<int>> {
    if ms == [] then [] else Flatten(ms[..|ms| - 1]) + ms[|ms| - 1].faces
  }

  /** What the loop keeps after some lines. */
  predicate Tracks(st: ObjState, lines: seq<string>, num: NumberFn)
    requires LinesDefined(lines)
  {
    st.vertices == Readings(lines, Position, num)
    && st.normals == Readings(lines, Normal, num)
    && st.texcoords == Readings(lines, TexCoord, num)
    && Flatten(st.meshes) + st.mesh.faces == FacesOf(lines)
    && forall k | 0 <= k < |st.meshes| :: |st.meshes[k].faces| > 0
  }

  lemma FlattenSnoc(ms: seq<MeshFaces>, m: MeshFaces)
    ensures Flatten(ms + [m]) == Flatten(ms) + m.faces
  {
    assert (ms + [m])[..|ms|] == ms;
  }

  lemma ReadingsSnoc(lines: seq<string>, line: string, kind: LineKind, num: NumberFn)
    ensures Readings(lines + [line], kind, num)
            == Readings(lines, kind, num) + (if KindOf(line) == kind then [Reading(line, kind, num)] else [])
  {
    assert (lines + [line])[..|lines|] == lines;
  }

  lemma FacesOfSnoc(lines: seq<string>, line: string)
    requires LinesDefined(lines) && LineDefined(line)
    ensures LinesDefined(lines + [line])
    ensures FacesOf(lines + [line]) == FacesOf(lines) + (if KindOf(line) == Face then [FaceIndices(line)] else [])
  {
    assert (lines + [line])[..|lines|] == lines;
  }

  /** The faces gathered so far grow by the line's face, if it is a face line. */
  lemma FacesStep(st: ObjState, line: string, ctx: Context, r: ObjState)
    requires LineDefined(line) && r == ObjStep(st, line, ctx)
    requires forall k | 0 <= k < |st.meshes| :: |st.meshes[k].faces| > 0
    ensures Flatten(r.meshes) + r.mesh.faces
            == Flatten(st.meshes) + st.mesh.faces + (if KindOf(line) == Face then [FaceIndices(line)] else [])
    ensures forall k | 0 <= k < |r.meshes| :: |r.meshes[k].faces| > 0
  {
    if KindOf(line) == NewObject && |st.mesh.faces| > 0 {
      FlattenSnoc(st.meshes, st.mesh);
    }
  }

  lemma TracksStep(st: ObjState, lines: seq<string>, line: string, ctx: Context)
    requires LinesDefined(lines) && LineDefined(line)
    requires Tracks(st, lines, ctx.num)
    ensures LinesDefined(lines + [line])
    ensures Tracks(ObjStep(st, line, ctx), lines + [line], ctx.num)
  {
    FacesOfSnoc(lines, line);
    ReadingsSnoc(lines, line, Position, ctx.num);
    ReadingsSnoc(lines, line, Normal, ctx.num);
    ReadingsSnoc(lines, line, TexCoord, ctx.num);
    FacesStep(st, line, ctx, ObjStep(st, line, ctx));
  }

  /** The loop after i + 1 lines is one more step after i lines. */
  lemma ObjLinesAt(lines: seq<string>, i: int, ctx: Context)
    requires LinesDefined(lines) && 0 <= i < |lines|
    ensures LinesDefined(lines[..i]) && LinesDefined(lines[..i + 1]) && LineDefined(lines[i])
    ensures ObjLines(Start, lines[..i + 1], ctx) == ObjStep(ObjLines(Start, lines[..i], ctx), lines[i], ctx)
  {
    assert lines[..i + 1][..i] == lines[..i];
  }

  lemma {:induction false} ObjLinesTrack(lines: seq<string>, ctx: Context)
    requires LinesDefined(lines)
    ensures Tracks(ObjLines(Start, lines, ctx), lines, ctx.num)
  {
    if lines != [] {
      var n := |lines| - 1;
      ObjLinesAt(lines, n, ctx);
      assert lines[..n + 1] == lines;
      ObjLinesTrack(lines[..n], ctx);
      TracksStep(ObjLines(Start, lines[..n], ctx), lines[..n], lines[n], ctx);
      assert lines[..n] + [lines[n]] == lines;
    }
  }

  /**
   * What load_obj's loop makes of a file: every mesh has a face, the
   * meshes' faces are the file's face lines in order with none lost or
   * repeated, and the global lists are the "v", "vn" and "vt" readings in
   * file order.
   */
  lemma ObjMeshesFacts(filename: string, ctx: Context)
    requires filename in ctx.files && LinesDefined(ctx.files[filename])
    ensures var ms := ObjMeshes(filename, ctx);
            (forall k | 0 <= k < |ms| :: |ms[k].faces| > 0)
            && Flatten(ms) == FacesOf(ctx.files[filename])
    ensures var st := ObjLines(Start, ctx.files[filename], ctx);
            st.vertices == Readings(ctx.files[filename], Position, ctx.num)
            && st.normals == Readings(ctx.files[filename], Normal, ctx.num)
            && st.texcoords == Readings(ctx.files[filename], TexCoord, ctx.num)
  {
    var st := ObjLines(Start, ctx.files[filename], ctx);
    ObjLinesTrack(ctx.files[filename], ctx);
    if |st.mesh.faces| > 0 {
      FlattenSnoc(st.meshes, st.mesh);
    }
  }

  // ---------------------------------------------------------------------
  // Padding and the lists every face is remapped from

  /** resize(vertices.size(), Vector3(0,0,0)) of a list that came out empty; a list with entries is kept. */
  function Padded(list: seq<Vec3>, n: nat): (r: seq<Vec3>)
    ensures |list| > 0 ==> r == list
    ensures |list| == 0 ==> |r| == n && forall k | 0 <= k < n :: r[k] == Splat(0.0)
  {
    if |list| == 0 then seq(n, _ => Splat(0.0)) else list
  }

  /** The global lists after the loop and the padding. */
  function Globals(st: ObjState): Lists {
    Lists(st.vertices, Padded(st.texcoords, |st.vertices|), Padded(st.normals, |st.vertices|))
  }

  /** need_to_calc_normals: the file had no "vn" line. */
  predicate NeedsNormals(st: ObjState) {
    |st.normals| == 0
  }

  /**
   * A face the reindexing and recalc_tree can use: every index is a
   * position in its global list (vmap[v-1] and vertices[v-1] are read for
   * it) and there are at least three corners (recalc_tree reads face[6]).
   */
  predicate Usable(face: seq<int>, g: Lists) {
    |face| >= 9 && CornersIn(face, g)
  }

  predicate MeshUsable(m: MeshFaces, g: Lists) {
    |m.faces| > 0 && forall i | 0 <= i < |m.faces| :: Usable(m.faces[i], g)
  }

  /** What load_obj demands of a file it opens: defined face lines, and faces it can reindex and build triangles of. */
  predicate ObjDefined(lines: seq<string>, ctx: Context) {
    LinesDefined(lines)
    && var st := ObjLines(Start, lines, ctx);
       forall k | 0 <= k < |Finished(st)| :: forall i | 0 <= i < |Finished(st)[k].faces| ::
         Usable(Finished(st)[k].faces[i], Globals(st))
  }

  // ---------------------------------------------------------------------
  // The meshes as objects

  /** The faces and material of a TriangleMesh object. */
  function Data(m: TriangleMesh): MeshFaces
    reads m
  {
    MeshFaces(m.faces, m.mat)
  }

  function Datas(ms: seq<TriangleMesh>): (ds: seq<MeshFaces>)
    reads ms
  {
    seq(|ms|, k requires 0 <= k < |ms| reads ms => Data(ms[k]))
  }

  /** A mesh as the loop leaves it: no vertex data of its own yet and a two-corner box. */
  predicate Blank(m: TriangleMesh)
    reads m
  {
    m.vertices == [] && m.normals == [] && m.texcoords == [] && m.boundingBox.Length == 2
  }

  /** Different meshes, with different boxes. */
  predicate Separate(ms: seq<TriangleMesh>) {
    forall a, b | 0 <= a < b < |ms| :: ms[a] != ms[b] && ms[a].boundingBox != ms[b].boundingBox
  }

  /**
   * A mesh after the second loop of load_obj: its faces, vertices and
   * texture coordinates are the reindexing of the file's faces onto fresh
   * lists, and so are its normals when they were read from the file
   * (normalsRead; otherwise calculate_normals replaces them), its material
   * is the one "usemtl" chose, its box spans its vertices and its tree
   * holds one triangle per face.
   */
  ghost predicate Loaded(m: TriangleMesh, data: MeshFaces, g: Lists, normalsRead: bool)
    reads m, m.boundingBox, m.tree, if m.tree != null then {m.tree.nodes, m.tree.indices} else {}
  {
    AllCornersIn(data.faces, g)
    && (var r := RemapFaces(Lists([], [], []), data.faces, g);
        m.faces == r.faces && m.vertices == r.lists.v && m.texcoords == r.lists.vt
        && (normalsRead ==> m.normals == r.lists.vn))
    && m.mat == data.mat
    && m.boundingBox.Length == 2
    && m.boundingBox[0] == LowerCorner(m.vertices) && m.boundingBox[1] == UpperCorner(m.vertices)
    && m.TreeBuilt()
  }

  lemma UsableCornersIn(faces: seq<seq<int>>, g: Lists)
    requires forall i | 0 <= i < |faces| :: Usable(faces[i], g)
    ensures AllCornersIn(faces, g)
  {
  }

  /** Reindexed faces are faces of the mesh's own vertices, naming the triangles the file's faces name. */
  lemma RemappedInRange(ls: Lists, faces: seq<seq<int>>, g: Lists, r: MeshRemap)
    requires forall i | 0 <= i < |faces| :: Usable(faces[i], g)
    requires AllCornersIn(faces, g) && r == RemapFaces(ls, faces, g)
    ensures FacesInRange(r.faces, |r.lists.v|)
    ensures forall i | 0 <= i < |faces| ::
              FaceInRange(faces[i], |g.v|) && FaceTriangle(r.lists.v, r.faces[i], i) == FaceTriangle(g.v, faces[i], i)
  {
    RemapFacesFacts(ls, faces, g);
    forall i | 0 <= i < |faces|
      ensures FaceInRange(r.faces[i], |r.lists.v|) && FaceInRange(faces[i], |g.v|)
      ensures FaceTriangle(r.lists.v, r.faces[i], i) == FaceTriangle(g.v, faces[i], i)
    {
      RemappedTriangle(r.faces[i], faces[i], r.lists, g, i);
    }
  }

  /**
   * The point of the reindexing: a loaded mesh's tree holds, for every
   * face of the file, the triangle its first three corners name in the
   * global vertex list, with the face's position as its index.
   */
  lemma LoadedTriangles(m: TriangleMesh, data: MeshFaces, g: Lists, normalsRead: bool)
    requires Loaded(m, data, g, normalsRead) && MeshUsable(data, g)
    ensures |m.tree.prims| == |data.faces|
    ensures forall i | 0 <= i < |data.faces| ::
              FaceInRange(data.faces[i], |g.v|) && m.tree.prims[i] == FaceTriangle(g.v, data.faces[i], i)
  {
    RemappedInRange(Lists([], [], []), data.faces, g, RemapFaces(Lists([], [], []), data.faces, g));
  }

  /** The second loop's body for one mesh: reindex, then recalc_bounding_box and recalc_tree. */
  method FinishMesh(m: TriangleMesh, g: Lists, ghost data: MeshFaces)
    requires Blank(m) && Data(m) == data && MeshUsable(data, g)
    modifies m, m.boundingBox
    ensures Loaded(m, data, g, true)
    ensures fresh(m.tree) && fresh(m.tree.nodes) && fresh(m.tree.indices)
  {
    UsableCornersIn(data.faces, g);
    RemappedInRange(Lists([], [], []), data.faces, g, RemapFaces(Lists([], [], []), data.faces, g));
    ReindexMesh(m, g);
    m.RecalcBoundingBox();
    m.RecalcTree();
  }

  /** A loaded mesh that finishing another mesh leaves alone. */
  datatype Untouched = Untouched(m: TriangleMesh, data: MeshFaces, g: Lists)

  /** Loaded depends only on the mesh, its box and its tree. */
  twostate lemma LoadedKept(u: Untouched)
    requires old(Loaded(u.m, u.data, u.g, true)) && unchanged(u.m, u.m.boundingBox)
    requires unchanged(u.m.tree, u.m.tree.nodes, u.m.tree.indices)
    ensures Loaded(u.m, u.data, u.g, true)
  {
  }

  /** The second loop's body at mesh i: the meshes before it stay loaded, the ones after it stay as read. */
  method FinishAt(meshes: seq<TriangleMesh>, i: int, g: Lists, ghost datas: seq<MeshFaces>)
    requires 0 <= i < |meshes| == |datas| && Separate(meshes) && MeshUsable(datas[i], g)
    requires forall k | 0 <= k < i :: Loaded(meshes[k], datas[k], g, true)
    requires forall k | i <= k < |meshes| :: Blank(meshes[k]) && Data(meshes[k]) == datas[k]
    modifies meshes[i], meshes[i].boundingBox
    ensures forall k | 0 <= k <= i :: Loaded(meshes[k], datas[k], g, true)
    ensures forall k | i < k < |meshes| :: Blank(meshes[k]) && Data(meshes[k]) == datas[k]
  {
    FinishMesh(meshes[i], g, datas[i]);
    forall k | 0 <= k <= i
      ensures Loaded(meshes[k], datas[k], g, true)
    {
      if k < i {
        LoadedKept(Untouched(meshes[k], datas[k], g));
      }
    }
    forall k | i < k < |meshes|
      ensures Blank(meshes[k]) && Data(meshes[k]) == datas[k]
    {
      assert meshes[k] != meshes[i];
    }
  }

  /** The second loop of load_obj, over every mesh in turn. */
  method FinishMeshes(meshes: seq<TriangleMesh>, g: Lists, ghost datas: seq<MeshFaces>)
    requires |datas| == |meshes| && Separate(meshes)
    requires forall k | 0 <= k < |meshes| :: Blank(meshes[k]) && Data(meshes[k]) == datas[k] && MeshUsable(datas[k], g)
    modifies meshes, set k | 0 <= k < |meshes| :: meshes[k].boundingBox
    ensures forall k | 0 <= k < |meshes| :: Loaded(meshes[k], datas[k], g, true)
  {
    for i := 0 to |meshes|
      invariant forall k | 0 <= k < i :: Loaded(meshes[k], datas[k], g, true)
      invariant forall k | i <= k < |meshes| :: Blank(meshes[k]) && Data(meshes[k]) == datas[k]
    {
      FinishAt(meshes, i, g, datas);
    }
  }

  // ---------------------------------------------------------------------
  // load_obj

  /** Different meshes with different boxes, none of them holding vertex data yet. */
  predicate Apart(ms: seq<TriangleMesh>)
    reads ms
  {
    Separate(ms) && forall k | 0 <= k < |ms| :: Blank(ms[k])
  }

  lemma DatasSnoc(ms: seq<TriangleMesh>, m: TriangleMesh)
    ensures Datas(ms + [m]) == Datas(ms) + [Data(m)]
  {
  }

  lemma ApartSplit(ms: seq<TriangleMesh>, m: TriangleMesh)
    requires Apart(ms + [m])
    ensures Apart(ms) && Blank(m) && m !in ms
    ensures forall k | 0 <= k < |ms| :: ms[k].boundingBox != m.boundingBox
  {
    var all := ms + [m];
    assert forall k | 0 <= k < |ms| :: all[k] == ms[k];
    assert all[|ms|] == m;
  }

  lemma ApartJoin(ms: seq<TriangleMesh>, m: TriangleMesh)
    requires Apart(ms) && Blank(m) && m !in ms
    requires forall k | 0 <= k < |ms| :: ms[k].boundingBox != m.boundingBox
    ensures Apart(ms + [m])
  {
    var all := ms + [m];
    assert forall k | 0 <= k < |ms| :: all[k] == ms[k];
    assert all[|ms|] == m;
  }

  /** "o": the current mesh is pushed when it has faces, and a new TriangleMesh takes its place. */
  method NextObject(meshes: seq<TriangleMesh>, mesh: TriangleMesh) returns (meshes': seq<TriangleMesh>, mesh': TriangleMesh)
    requires Apart(meshes + [mesh])
    ensures fresh(mesh') && fresh(mesh'.boundingBox) && Apart(meshes' + [mesh'])
    ensures meshes' == if |mesh.faces| > 0 then meshes + [mesh] else meshes
    ensures Datas(meshes') == if |mesh.faces| > 0 then Datas(meshes) + [Data(mesh)] else Datas(meshes)
    ensures Data(mesh') == EmptyMesh
  {
    ApartSplit(meshes, mesh);
    meshes' := meshes;
    if |mesh.faces| > 0 {
      ApartJoin(meshes, mesh);
      DatasSnoc(meshes, mesh);
      meshes' := meshes + [mesh];
    }
    mesh' := new TriangleMesh();
    assert Apart(meshes') && mesh' !in meshes';
    ApartJoin(meshes', mesh');
  }

  /** A change to the current mesh's faces or material: the pushed meshes stay as they were. */
  method SetData(meshes: seq<TriangleMesh>, mesh: TriangleMesh, data: MeshFaces)
    requires Apart(meshes + [mesh])
    modifies mesh
    ensures Apart(meshes + [mesh]) && Datas(meshes) == old(Datas(meshes)) && Data(mesh) == data
  {
    ApartSplit(meshes, mesh);
    mesh.faces, mesh.mat := data.faces, data.mat;
    ApartJoin(meshes, mesh);
  }

  /**
   * One pass of the loop body: the branch the line takes, on the current
   * mesh object and the loop's lists. "o" starts a new TriangleMesh
   * object; the meshes already pushed are not touched.
   */
  method ReadLine(meshes: seq<TriangleMesh>, mesh: TriangleMesh, vertices: seq<Vec3>, normals: seq<Vec3>,
                  texcoords: seq<Vec3>, materials: map<string, Material>, line: string, ctx: Context,
                  ghost st: ObjState)
    returns (meshes': seq<TriangleMesh>, mesh': TriangleMesh, vertices': seq<Vec3>, normals': seq<Vec3>,
             texcoords': seq<Vec3>, materials': map<string, Material>)
    requires LineDefined(line) && Apart(meshes + [mesh])
    requires st == ObjState(Datas(meshes), Data(mesh), vertices, normals, texcoords, materials)
    modifies mesh
    ensures meshes' == meshes || meshes' == meshes + [mesh]
    ensures mesh' == mesh || (fresh(mesh') && fresh(mesh'.boundingBox))
    ensures Apart(meshes' + [mesh'])
    ensures ObjState(Datas(meshes'), Data(mesh'), vertices', normals', texcoords', materials')
            == ObjStep(st, line, ctx)
  {
    meshes', mesh', vertices', normals', texcoords', materials' := meshes, mesh, vertices, normals, texcoords, materials;
    match KindOf(line) {
    case NewObject =>
      meshes', mesh' := NextObject(meshes, mesh);
    case MtlLib =>
      materials' := LoadMtllib(ctx.files, ctx.images, ctx.path + FirstArgument(line), ctx.num, materials);
    case UseMtl =>
      var name := FirstArgument(line);
      if name in materials {
        SetData(meshes, mesh, MeshFaces(mesh.faces, materials[name]));
      }
    case Position =>
      vertices' := vertices + [Reading(line, Position, ctx.num)];
    case Normal =>
      normals' := normals + [Reading(line, Normal, ctx.num)];
    case TexCoord =>
      texcoords' := texcoords + [Reading(line, TexCoord, ctx.num)];
    case Face =>
      var face := ParseFace(line);
      SetData(meshes, mesh, MeshFaces(mesh.faces + [face], mesh.mat));
    case Skip =>
    case Ignored =>
    }
  }

  /** The getline loop of load_obj over the lines of the opened file. */
  method ReadObjLines(lines: seq<string>, ctx: Context)
    returns (meshes: seq<TriangleMesh>, vertices: seq<Vec3>, normals: seq<Vec3>, texcoords: seq<Vec3>)
    requires LinesDefined(lines)
    ensures Apart(meshes) && forall k | 0 <= k < |meshes| :: fresh(meshes[k]) && fresh(meshes[k].boundingBox)
    ensures var st := ObjLines(Start, lines, ctx);
            Datas(meshes) == Finished(st)
            && vertices == st.vertices && normals == st.normals && texcoords == st.texcoords
  {
    meshes, vertices, normals, texcoords := [], [], [], [];
    var materials: map<string, Material> := map[];
    var mesh := new TriangleMesh();
    for i := 0 to |lines|
      invariant fresh(mesh) && fresh(mesh.boundingBox) && Apart(meshes + [mesh])
      invariant forall k | 0 <= k < |meshes| :: fresh(meshes[k]) && fresh(meshes[k].boundingBox)
      invariant LinesDefined(lines[..i])
      invariant ObjState(Datas(meshes), Data(mesh), vertices, normals, texcoords, materials) == ObjLines(Start, lines[..i], ctx)
    {
      var line := lines[i];
      ObjLinesAt(lines, i, ctx);
      meshes, mesh, vertices, normals, texcoords, materials :=
        ReadLine(meshes, mesh, vertices, normals, texcoords, materials, line, ctx,
                 ObjState(Datas(meshes), Data(mesh), vertices, normals, texcoords, materials));
    }
    ApartSplit(meshes, mesh);
    assert lines[..|lines|] == lines;
    if |mesh.faces| > 0 {
      DatasSnoc(meshes, mesh);
      meshes := meshes + [mesh];
    }
  }

  /** Every mesh load_obj keeps has a face, and every face can be reindexed. */
  lemma UsableMeshes(lines: seq<string>, ctx: Context)
    requires ObjDefined(lines, ctx)
    ensures var st := ObjLines(Start, lines, ctx);
            forall k | 0 <= k < |Finished(st)| :: MeshUsable(Finished(st)[k], Globals(st))
  {
    ObjLinesTrack(lines, ctx);
  }

  lemma AllLoadedTriangles(meshes: seq<TriangleMesh>, datas: seq<MeshFaces>, g: Lists, normalsRead: bool)
    requires |meshes| == |datas|
    requires forall k | 0 <= k < |meshes| :: Loaded(meshes[k], datas[k], g, normalsRead) && MeshUsable(datas[k], g)
    ensures forall k | 0 <= k < |meshes| ::
              meshes[k].tree != null && |meshes[k].tree.prims| == |datas[k].faces|
              && forall i | 0 <= i < |datas[k].faces| ::
                   FaceInRange(datas[k].faces[i], |g.v|) && meshes[k].tree.prims[i] == FaceTriangle(g.v, datas[k].faces[i], i)
  {
    forall k | 0 <= k < |meshes|
      ensures meshes[k].tree != null && |meshes[k].tree.prims| == |datas[k].faces|
      ensures forall i | 0 <= i < |datas[k].faces| ::
                FaceInRange(datas[k].faces[i], |g.v|) && meshes[k].tree.prims[i] == FaceTriangle(g.v, datas[k].faces[i], i)
    {
      LoadedTriangles(meshes[k], datas[k], g, normalsRead);
    }
  }

  /** The loop's context for a file: its directory, as load_obj computes it, and what can be opened. */
  function ObjContext(filename: string, files: Files, images: set<string>, num: NumberFn): Context {
    Context(Directory(filename), files, images, num)
  }

  /**
   * load_obj: read the lines, pad the texture coordinates and normals a
   * file left out, then reindex, box and build the tree of every mesh.
   * A file that cannot be opened gives no meshes. Every mesh's tree holds,
   * face by face, the triangle the file's face names in the file's own
   * vertex list.
   */
  method LoadObj(filename: string, files: Files, images: set<string>, num: NumberFn) returns (meshes: seq<TriangleMesh>)
    requires filename in files ==> ObjDefined(files[filename], ObjContext(filename, files, images, num))
    ensures filename !in files ==> meshes == []
    ensures filename in files ==>
              var st := ObjLines(Start, files[filename], ObjContext(filename, files, images, num));
              |meshes| == |Finished(st)|
              && (forall k | 0 <= k < |meshes| :: Loaded(meshes[k], Finished(st)[k], Globals(st), !NeedsNormals(st)))
              && forall k, i | 0 <= k < |meshes| && 0 <= i < |Finished(st)[k].faces| ::
                   FaceInRange(Finished(st)[k].faces[i], |st.vertices|)
                   && meshes[k].tree.prims[i] == FaceTriangle(st.vertices, Finished(st)[k].faces[i], i)
  {
    var ctx := ObjContext(filename, files, images, num);
    if filename !in files {
      return [];
    }
    var vertices, normals, texcoords;
    meshes, vertices, normals, texcoords := ReadObjLines(files[filename], ctx);
    ghost var st := ObjLines(Start, files[filename], ctx);
    if |texcoords| == 0 {
      texcoords := seq(|vertices|, _ => Splat(0.0));
    }
    if |normals| == 0 {
      normals := seq(|vertices|, _ => Splat(0.0));
    }
    var g := Lists(vertices, texcoords, normals);
    assert g == Globals(st);
    ghost var datas := Finished(st);
    UsableMeshes(files[filename], ctx);
    FinishMeshes(meshes, g, datas);
    AllLoadedTriangles(meshes, datas, g, true);
  }
}
