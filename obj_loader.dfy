/**
 * load_mtllib and load_obj of src/ObjLoader.h: the .mtl block state
 * machine, the .obj line dispatch into global vertex lists and per-object
 * meshes, the padding of missing texture coordinates and normals, and the
 * per-face remapping of global indices into each mesh's own lists.
 *
 * Files are the lines std::getline yields for every name that can be
 * opened; `images` are the texture file names whose image loads, and `num`
 * is the number `>> float` reads from a whole word.
 */
module ObjLoading {
  import opened Wrappers
  import opened Vectors
  import opened ObjText
  import opened Materials
  import opened Meshes
  import opened Triangles

  /** The word `iss >> name` leaves in a std::string that starts empty: the first argument, or "". */
  function FirstArgument(line: string): string {
    var args := Arguments(line);
    if |args| > 0 then args[0] else ""
  }

  // ---------------------------------------------------------------------
  // load_mtllib

  /** The loop state of load_mtllib: the material being filled, its name and the map so far. */
  datatype MtlState = MtlState(mat: Material, name: string, materials: map<string, Material>)

  /** materials[mat_name] = mat, when there is a name. */
  function Commit(st: MtlState): map<string, Material> {
    if st.name != "" then st.materials[st.name := st.mat] else st.materials
  }

  /**
   * One line of load_mtllib: "newmtl" commits the material under the
   * current name and takes the next name, keeping the material as it is;
   * "map_Kd" sets the texture when its image loads; the keys of
   * parse_material set their fields; an empty line or any other word
   * changes nothing.
   */
  function MtlStep(st: MtlState, line: string, path: string, images: set<string>, num: NumberFn): (r: MtlState)
    ensures Keyword(line) != "newmtl" ==> r.name == st.name && r.materials == st.materials
    ensures Keyword(line) != "map_Kd" ==> r.mat.texture == st.mat.texture
    ensures Keyword(line) != "newmtl" && Keyword(line) != "map_Kd" && Arity(Keyword(line)) == 0 ==> r == st
  {
    if line == [] then st
    else
      var component := Keyword(line);
      if component == "newmtl" then
        var args := Arguments(line);
        MtlState(st.mat, if |args| > 0 then args[0] else st.name, Commit(st))
      else if component == "map_Kd" then
        var texture := path + FirstArgument(line);
        if texture in images then st.(mat := st.mat.(texture := Some(texture))) else st
      else
        st.(mat := ApplyLine(st.mat, line, num))
  }

  function MtlLines(st: MtlState, lines: seq<string>, path: string, images: set<string>, num: NumberFn): MtlState {
    if lines == [] then st
    else MtlStep(MtlLines(st, lines[..|lines| - 1], path, images, num), lines[|lines| - 1], path, images, num)
  }

  /** The map load_mtllib leaves: unchanged when the file cannot be opened, else every block committed. */
  function LoadedMaterials(files: Files, images: set<string>, filename: string, num: NumberFn,
                           materials: map<string, Material>): map<string, Material>
  {
    if filename !in files then materials
    else Commit(MtlLines(MtlState(Defaults, "", materials), files[filename], Directory(filename), images, num))
  }

  /** load_mtllib: the getline loop over the file, then the last block's commit. */
  method LoadMtllib(files: Files, images: set<string>, filename: string, num: NumberFn,
                    materials: map<string, Material>) returns (result: map<string, Material>)
    ensures filename !in files ==> result == materials
    ensures result == LoadedMaterials(files, images, filename, num, materials)
  {
    result := materials;
    if filename !in files {
      return;
    }
    var path := Directory(filename);
    var lines := files[filename];
    var mat := Defaults;
    var matName := "";
    for i := 0 to |lines|
      invariant MtlState(mat, matName, result) == MtlLines(MtlState(Defaults, "", materials), lines[..i], path, images, num)
    {
      assert lines[..i + 1][..i] == lines[..i];
      var line := lines[i];
      if line == [] {
        continue;
      }
      var component := Keyword(line);
      if component == "newmtl" {
        if matName != "" {
          result := result[matName := mat];
        }
        var args := Arguments(line);
        if |args| > 0 {
          matName := args[0];
        }
      } else if component == "map_Kd" {
        var textureName := FirstArgument(line);
        if path + textureName in images {
          mat := mat.(texture := Some(path + textureName));
        }
      } else if Arity(component) > 0 {
        mat := SetComponent(mat, component, ReadReals(Arguments(line), Arity(component), num));
      }
    }
    assert lines[..|lines|] == lines;
    if matName != "" {
      result := result[matName := mat];
    }
  }

  /**
   * mat is never reset: at every point its colours and scalars are those
   * parse_material would give for all lines so far, blocks and "newmtl"
   * lines included, so a block inherits every field it does not set.
   */
  lemma {:induction false} MtlFieldsInherited(st: MtlState, lines: seq<string>, path: string, images: set<string>,
                                              num: NumberFn)
    ensures forall key | Arity(key) > 0 ::
              Component(MtlLines(st, lines, path, images, num).mat, key) == Component(ApplyLines(st.mat, lines, num), key)
  {
    if lines != [] {
      var init, line := lines[..|lines| - 1], lines[|lines| - 1];
      MtlFieldsInherited(st, init, path, images, num);
      var prev := MtlLines(st, init, path, images, num);
      var component := Keyword(line);
      if component == "newmtl" || component == "map_Kd" {
        assert Arity(component) == 0;
      }
    }
  }

  /** A line that names a material: "newmtl NAME". */
  predicate Announces(line: string, name: string) {
    Keyword(line) == "newmtl" && |Arguments(line)| > 0 && Arguments(line)[0] == name
  }

  predicate AnnouncedIn(lines: seq<string>, name: string) {
    exists i | 0 <= i < |lines| :: Announces(lines[i], name)
  }

  /**
   * The names load_mtllib's loop has seen: the current name is "" or
   * announced, every announced name is committed or current, and every
   * committed name was in the map before or is announced.
   */
  ghost predicate NamesTracked(m0: map<string, Material>, lines: seq<string>, st: MtlState) {
    (st.name == "" || AnnouncedIn(lines, st.name))
    && (forall i, n | 0 <= i < |lines| && Announces(lines[i], n) :: n in st.materials || n == st.name)
    && (forall n | n in st.materials :: n in m0 || AnnouncedIn(lines, n))
  }

  lemma AnnouncedInPrefix(lines: seq<string>, line: string, name: string)
    requires AnnouncedIn(lines, name)
    ensures AnnouncedIn(lines + [line], name)
  {
    var i :| 0 <= i < |lines| && Announces(lines[i], name);
    assert (lines + [line])[i] == lines[i];
  }

  lemma NamesTrackedStep(m0: map<string, Material>, lines: seq<string>, line: string, st: MtlState, path: string,
                         images: set<string>, num: NumberFn)
    requires NamesTracked(m0, lines, st)
    ensures NamesTracked(m0, lines + [line], MtlStep(st, line, path, images, num))
  {
    var r := MtlStep(st, line, path, images, num);
    var all := lines + [line];
    assert forall i | 0 <= i < |lines| :: all[i] == lines[i];
    assert all[|lines|] == line;
    if r.name != "" {
      if r.name == st.name {
        AnnouncedInPrefix(lines, line, r.name);
      } else {
        assert Announces(all[|lines|], r.name);
      }
    }
    forall n | n in r.materials
      ensures n in m0 || AnnouncedIn(all, n)
    {
      if n in st.materials {
        if !(n in m0) {
          AnnouncedInPrefix(lines, line, n);
        }
      } else {
        assert n == st.name;
        AnnouncedInPrefix(lines, line, n);
      }
    }
  }

  lemma {:induction false} MtlNamesTracked(m0: map<string, Material>, lines: seq<string>, path: string,
                                           images: set<string>, num: NumberFn)
    ensures NamesTracked(m0, lines, MtlLines(MtlState(Defaults, "", m0), lines, path, images, num))
  {
    if lines != [] {
      var init, line := lines[..|lines| - 1], lines[|lines| - 1];
      assert init + [line] == lines;
      var prev := MtlLines(MtlState(Defaults, "", m0), init, path, images, num);
      assert MtlLines(MtlState(Defaults, "", m0), lines, path, images, num) == MtlStep(prev, line, path, images, num);
      MtlNamesTracked(m0, init, path, images, num);
      NamesTrackedStep(m0, init, line, prev, path, images, num);
    }
  }

  /**
   * Every name a "newmtl" line announces ends up in the map, and the map
   * gains no other names.
   */
  lemma AnnouncedNamesLoaded(files: Files, images: set<string>, filename: string, num: NumberFn,
                             materials: map<string, Material>)
    requires filename in files
    ensures var lines := files[filename];
            var result := LoadedMaterials(files, images, filename, num, materials);
            (forall i, n | 0 <= i < |lines| && Announces(lines[i], n) :: n in result)
            && (forall n | n in result :: n in materials || AnnouncedIn(lines, n))
  {
    var lines := files[filename];
    MtlNamesTracked(materials, lines, Directory(filename), images, num);
  }

  // ---------------------------------------------------------------------
  // Remapping one kind of index

  /**
   * What the per-face maps do for one kind of index: `slots` (the map) holds -1 or the
   * 1-based position in the mesh's own `list`; `indices` are the new
   * indices pushed so far.
   */
  datatype Placed = Placed(list: seq<Vec3>, slots: seq<int>, indices: seq<int>)

  /** std::vector<int> map(n, -1). */
  function Unmapped(n: nat): (m: seq<int>)
    ensures |m| == n && forall j | 0 <= j < n :: m[j] == -1
  {
    seq(n, _ => -1)
  }

  predicate AllIn(olds: seq<int>, global: seq<Vec3>) {
    forall t | 0 <= t < |olds| :: 1 <= olds[t] <= |global|
  }

  /**
   * One old index through the map: seen for the first time, it pushes its
   * global entry onto the mesh's list and maps to the new length; seen
   * before, it maps to the position it got then.
   */
  function PlaceOne(p: Placed, idx: int, global: seq<Vec3>): (r: Placed)
    requires |p.slots| == |global| && 1 <= idx <= |global|
    ensures |r.slots| == |global| && |r.indices| == |p.indices| + 1
  {
    if p.slots[idx - 1] == -1 then Placed(p.list + [global[idx - 1]], p.slots[idx - 1 := |p.list| + 1], p.indices + [|p.list| + 1])
    else Placed(p.list, p.slots, p.indices + [p.slots[idx - 1]])
  }

  /** The old indices in order through one map. */
  function PlaceAll(list0: seq<Vec3>, map0: seq<int>, olds: seq<int>, global: seq<Vec3>): (r: Placed)
    requires |map0| == |global| && AllIn(olds, global)
    ensures |r.slots| == |global| && |r.indices| == |olds|
  {
    if olds == [] then Placed(list0, map0, [])
    else PlaceOne(PlaceAll(list0, map0, olds[..|olds| - 1], global), olds[|olds| - 1], global)
  }

  /** Some new index names position q (0-based) of the mesh's list. */
  predicate Named(indices: seq<int>, q: int) {
    exists t | 0 <= t < |indices| :: indices[t] == q + 1
  }

  /** The mesh's list before the run is kept as a prefix. */
  predicate PrefixKept(p: Placed, list0: seq<Vec3>) {
    |list0| <= |p.list| && p.list[..|list0|] == list0
  }

  /** Every mapped entry names a position pushed in this run that holds the same global entry. */
  predicate SlotsSound(p: Placed, list0: seq<Vec3>, global: seq<Vec3>) {
    |p.slots| == |global|
    && forall j | 0 <= j < |global| ::
         p.slots[j] == -1 || (|list0| < p.slots[j] <= |p.list| && p.list[p.slots[j] - 1] == global[j])
  }

  /** Every new index is what the map holds for its old index, past the list before the run. */
  predicate IndicesSound(p: Placed, list0: seq<Vec3>, olds: seq<int>, global: seq<Vec3>)
    requires |p.slots| == |global|
  {
    |p.indices| == |olds|
    && forall t | 0 <= t < |olds| :: 1 <= olds[t] <= |global| && p.slots[olds[t] - 1] == p.indices[t]
                                     && |list0| < p.indices[t]
  }

  /** Every entry pushed in this run is named by a new index. */
  ghost predicate AllNamed(p: Placed, list0: seq<Vec3>) {
    forall q | |list0| <= q < |p.list| :: Named(p.indices, q)
  }

  ghost predicate MapSound(p: Placed, list0: seq<Vec3>, olds: seq<int>, global: seq<Vec3>) {
    PrefixKept(p, list0) && SlotsSound(p, list0, global) && IndicesSound(p, list0, olds, global) && AllNamed(p, list0)
  }

  lemma PlaceOneSound(p: Placed, list0: seq<Vec3>, olds: seq<int>, idx: int, global: seq<Vec3>)
    requires MapSound(p, list0, olds, global) && 1 <= idx <= |global|
    ensures MapSound(PlaceOne(p, idx, global), list0, olds + [idx], global)
  {
    if p.slots[idx - 1] == -1 {
      PushSound(p, list0, olds, idx, global);
    } else {
      ReuseSound(p, list0, olds, idx, global);
    }
  }

  /** An index seen for the first time: its entry is pushed. */
  lemma PushSound(p: Placed, list0: seq<Vec3>, olds: seq<int>, idx: int, global: seq<Vec3>)
    requires MapSound(p, list0, olds, global) && 1 <= idx <= |global| && p.slots[idx - 1] == -1
    ensures MapSound(Placed(p.list + [global[idx - 1]], p.slots[idx - 1 := |p.list| + 1], p.indices + [|p.list| + 1]),
                     list0, olds + [idx], global)
  {
    var r := Placed(p.list + [global[idx - 1]], p.slots[idx - 1 := |p.list| + 1], p.indices + [|p.list| + 1]);
    var all := olds + [idx];
    assert r.list[..|list0|] == p.list[..|list0|];
    assert PrefixKept(r, list0);
    assert SlotsSound(r, list0, global);
    forall t | 0 <= t < |all|
      ensures 1 <= all[t] <= |global| && r.slots[all[t] - 1] == r.indices[t] && |list0| < r.indices[t]
    {
      if t < |olds| {
        assert all[t] == olds[t] && r.indices[t] == p.indices[t];
        assert p.slots[olds[t] - 1] == p.indices[t];
      }
    }
    assert IndicesSound(r, list0, all, global);
    forall q | |list0| <= q < |r.list|
      ensures Named(r.indices, q)
    {
      if q < |p.list| {
        assert Named(p.indices, q);
        var t :| 0 <= t < |p.indices| && p.indices[t] == q + 1;
        assert r.indices[t] == q + 1;
      } else {
        assert r.indices[|olds|] == q + 1;
      }
    }
  }

  /** An index seen before: it maps to the position it got then. */
  lemma ReuseSound(p: Placed, list0: seq<Vec3>, olds: seq<int>, idx: int, global: seq<Vec3>)
    requires MapSound(p, list0, olds, global) && 1 <= idx <= |global| && p.slots[idx - 1] != -1
    ensures MapSound(Placed(p.list, p.slots, p.indices + [p.slots[idx - 1]]), list0, olds + [idx], global)
  {
    var r := Placed(p.list, p.slots, p.indices + [p.slots[idx - 1]]);
    var all := olds + [idx];
    forall t | 0 <= t < |all|
      ensures 1 <= all[t] <= |global| && r.slots[all[t] - 1] == r.indices[t] && |list0| < r.indices[t]
    {
      if t < |olds| {
        assert all[t] == olds[t] && r.indices[t] == p.indices[t];
        assert p.slots[olds[t] - 1] == p.indices[t];
      }
    }
    assert IndicesSound(r, list0, all, global);
    forall q | |list0| <= q < |r.list|
      ensures Named(r.indices, q)
    {
      assert Named(p.indices, q);
      var t :| 0 <= t < |p.indices| && p.indices[t] == q + 1;
      assert r.indices[t] == q + 1;
    }
  }

  lemma {:induction false} PlaceAllSound(list0: seq<Vec3>, olds: seq<int>, global: seq<Vec3>)
    requires AllIn(olds, global)
    ensures MapSound(PlaceAll(list0, Unmapped(|global|), olds, global), list0, olds, global)
  {
    if olds != [] {
      var init := olds[..|olds| - 1];
      PlaceAllSound(list0, init, global);
      PlaceOneSound(PlaceAll(list0, Unmapped(|global|), init, global), list0, init, olds[|olds| - 1], global);
      assert init + [olds[|olds| - 1]] == olds;
    }
  }

  /**
   * Remapping one kind of index: the mesh's old list is kept as a prefix;
   * every new index names an entry pushed for this face that holds the
   * data the old index named in the global list; equal old indices get
   * equal new ones; and every entry pushed is named by some new index.
   */
  lemma PlaceAllFacts(list0: seq<Vec3>, olds: seq<int>, global: seq<Vec3>)
    requires AllIn(olds, global)
    ensures var r := PlaceAll(list0, Unmapped(|global|), olds, global);
            |list0| <= |r.list| && r.list[..|list0|] == list0
            && (forall t | 0 <= t < |olds| ::
                  |list0| < r.indices[t] <= |r.list| && r.list[r.indices[t] - 1] == global[olds[t] - 1])
            && (forall s, t | 0 <= s < |olds| && 0 <= t < |olds| && olds[s] == olds[t] :: r.indices[s] == r.indices[t])
            && (forall q | |list0| <= q < |r.list| :: Named(r.indices, q))
  {
    PlaceAllSound(list0, olds, global);
    SoundFacts(PlaceAll(list0, Unmapped(|global|), olds, global), list0, olds, global);
  }

  /** What MapSound gives of a run's result. */
  lemma SoundFacts(r: Placed, list0: seq<Vec3>, olds: seq<int>, global: seq<Vec3>)
    requires MapSound(r, list0, olds, global)
    ensures |list0| <= |r.list| && r.list[..|list0|] == list0
    ensures forall t | 0 <= t < |olds| ::
              |list0| < r.indices[t] <= |r.list| && r.list[r.indices[t] - 1] == global[olds[t] - 1]
    ensures forall s, t | 0 <= s < |olds| && 0 <= t < |olds| && olds[s] == olds[t] :: r.indices[s] == r.indices[t]
    ensures forall q | |list0| <= q < |r.list| :: Named(r.indices, q)
  {
    assert PrefixKept(r, list0) && AllNamed(r, list0);
    forall t | 0 <= t < |olds|
      ensures |list0| < r.indices[t] <= |r.list| && r.list[r.indices[t] - 1] == global[olds[t] - 1]
    {
      assert r.slots[olds[t] - 1] == r.indices[t];
    }
  }

  // ---------------------------------------------------------------------
  // Remapping a face and a mesh

  /** Positions, texture coordinates and normals: the global lists, or one mesh's own. */
  datatype Lists = Lists(v: seq<Vec3>, vt: seq<Vec3>, vn: seq<Vec3>)

  /** The list slot k of a corner indexes: 0 positions, 1 texture coordinates, 2 normals. */
  function ListOf(ls: Lists, k: int): seq<Vec3> {
    if k == 0 then ls.v else if k == 1 then ls.vt else ls.vn
  }

  /** face[3c + k]: slot k of corner c. */
  function Slot(face: seq<int>, c: int, k: int): int
    requires 0 <= c && 0 <= k < 3 && 3 * c + k < |face|
  {
    face[3 * c + k]
  }

  /** Whole corners only, and every index names an entry of its global list. */
  predicate CornersIn(face: seq<int>, g: Lists) {
    |face| % 3 == 0
    && forall c, k | 0 <= c < |face| / 3 && 0 <= k < 3 :: 1 <= Slot(face, c, k) <= |ListOf(g, k)|
  }

  /** Slot k of every corner, in order. */
  function Column(face: seq<int>, k: int): (col: seq<int>)
    requires |face| % 3 == 0 && 0 <= k < 3
    ensures |col| == |face| / 3 && forall c | 0 <= c < |col| :: col[c] == Slot(face, c, k)
  {
    seq(|face| / 3, c requires 0 <= c < |face| / 3 => Slot(face, c, k))
  }

  /** The three columns, corner by corner. */
  lemma Columns(face: seq<int>)
    requires |face| % 3 == 0
    ensures var cv, ct, cn := Column(face, 0), Column(face, 1), Column(face, 2);
            |face| == 3 * |cv| && |ct| == |cv| && |cn| == |cv|
            && forall c | 0 <= c < |cv| :: cv[c] == face[3 * c] && ct[c] == face[3 * c + 1] && cn[c] == face[3 * c + 2]
  {
    var cv, ct, cn := Column(face, 0), Column(face, 1), Column(face, 2);
    forall c | 0 <= c < |cv|
      ensures cv[c] == face[3 * c] && ct[c] == face[3 * c + 1] && cn[c] == face[3 * c + 2]
    {
      assert Slot(face, c, 0) == face[3 * c] && Slot(face, c, 1) == face[3 * c + 1] && Slot(face, c, 2) == face[3 * c + 2];
    }
  }

  lemma ColumnIn(face: seq<int>, g: Lists, k: int)
    requires CornersIn(face, g) && 0 <= k < 3
    ensures AllIn(Column(face, k), ListOf(g, k))
  {
  }

  /** new_face: the three new indices of each corner, corner after corner. */
  function Interleave(a: seq<int>, b: seq<int>, c: seq<int>): (r: seq<int>)
    requires |a| == |b| == |c|
    ensures |r| == 3 * |a|
  {
    if a == [] then []
    else Interleave(a[..|a| - 1], b[..|b| - 1], c[..|c| - 1]) + [a[|a| - 1], b[|b| - 1], c[|c| - 1]]
  }

  /** Corner t of the interleaved face holds the t-th index of each kind. */
  lemma {:induction false} InterleaveSlots(a: seq<int>, b: seq<int>, c: seq<int>)
    requires |a| == |b| == |c|
    ensures var r := Interleave(a, b, c);
            forall t | 0 <= t < |a| :: Slot(r, t, 0) == a[t] && Slot(r, t, 1) == b[t] && Slot(r, t, 2) == c[t]
  {
    if a != [] {
      var n := |a| - 1;
      InterleaveSlots(a[..n], b[..n], c[..n]);
      var r, prev := Interleave(a, b, c), Interleave(a[..n], b[..n], c[..n]);
      forall t | 0 <= t < |a|
        ensures Slot(r, t, 0) == a[t] && Slot(r, t, 1) == b[t] && Slot(r, t, 2) == c[t]
      {
        if t < n {
          assert Slot(r, t, 0) == Slot(prev, t, 0) && Slot(r, t, 1) == Slot(prev, t, 1) && Slot(r, t, 2) == Slot(prev, t, 2);
        }
      }
    }
  }

  /** A face remapped: the mesh's lists after it and its new indices. */
  datatype Remapped = Remapped(lists: Lists, face: seq<int>)

  /** Slot k of every corner through a fresh map of kind k. */
  function KindPlaced(ls: Lists, face: seq<int>, g: Lists, k: int): (p: Placed)
    requires CornersIn(face, g) && 0 <= k < 3
    ensures |p.indices| == |face| / 3
  {
    ColumnIn(face, g, k);
    PlaceAll(ListOf(ls, k), Unmapped(|ListOf(g, k)|), Column(face, k), ListOf(g, k))
  }

  /** One face of the reindexing loop: fresh maps, then each kind of index through its own map. */
  function RemapFace(ls: Lists, face: seq<int>, g: Lists): (r: Remapped)
    requires CornersIn(face, g)
    ensures |r.face| == |face|
  {
    var pv := KindPlaced(ls, face, g, 0);
    var pt := KindPlaced(ls, face, g, 1);
    var pn := KindPlaced(ls, face, g, 2);
    Remapped(Lists(pv.list, pt.list, pn.list), Interleave(pv.indices, pt.indices, pn.indices))
  }

  /** Kind k of a remapped face is the kind-k map's work. */
  lemma RemapFaceKind(ls: Lists, face: seq<int>, g: Lists, k: int)
    requires CornersIn(face, g) && 0 <= k < 3
    ensures var r, p := RemapFace(ls, face, g), KindPlaced(ls, face, g, k);
            ListOf(r.lists, k) == p.list && forall c | 0 <= c < |face| / 3 :: Slot(r.face, c, k) == p.indices[c]
  {
    var pv, pt, pn := KindPlaced(ls, face, g, 0), KindPlaced(ls, face, g, 1), KindPlaced(ls, face, g, 2);
    assert RemapFace(ls, face, g) == Remapped(Lists(pv.list, pt.list, pn.list), Interleave(pv.indices, pt.indices, pn.indices));
    InterleavedKind(pv, pt, pn, k, KindPlaced(ls, face, g, k));
  }

  /** Kind k of three maps' work put together. */
  lemma InterleavedKind(pv: Placed, pt: Placed, pn: Placed, k: int, p: Placed)
    requires |pv.indices| == |pt.indices| == |pn.indices| && 0 <= k < 3
    requires p == if k == 0 then pv else if k == 1 then pt else pn
    ensures var r := Remapped(Lists(pv.list, pt.list, pn.list), Interleave(pv.indices, pt.indices, pn.indices));
            ListOf(r.lists, k) == p.list && forall c | 0 <= c < |pv.indices| :: Slot(r.face, c, k) == p.indices[c]
  {
    InterleaveSlots(pv.indices, pt.indices, pn.indices);
  }

  /** The mesh's list of kind k only grows: the old list is a prefix of the new one. */
  predicate GrownKind(ls: Lists, ls2: Lists, k: int) {
    |ListOf(ls, k)| <= |ListOf(ls2, k)| && ListOf(ls2, k)[..|ListOf(ls, k)|] == ListOf(ls, k)
  }

  predicate Grown(ls: Lists, ls2: Lists) {
    forall k | 0 <= k < 3 :: GrownKind(ls, ls2, k)
  }

  /** Slot k of corner c names, in the mesh's lists, the data it named in the global lists. */
  predicate SameSlot(newFace: seq<int>, face: seq<int>, ls: Lists, g: Lists, c: int, k: int)
    requires 0 <= c && 0 <= k < 3 && 3 * c + k < |newFace| && 3 * c + k < |face|
  {
    1 <= Slot(newFace, c, k) <= |ListOf(ls, k)| && 1 <= Slot(face, c, k) <= |ListOf(g, k)|
    && ListOf(ls, k)[Slot(newFace, c, k) - 1] == ListOf(g, k)[Slot(face, c, k) - 1]
  }

  /** Every new index of the face names, in the mesh's lists, the data its old index named in the global lists. */
  predicate SameData(newFace: seq<int>, face: seq<int>, ls: Lists, g: Lists) {
    |newFace| == |face| && |face| % 3 == 0
    && forall c, k | 0 <= c < |face| / 3 && 0 <= k < 3 :: SameSlot(newFace, face, ls, g, c, k)
  }

  /** Slot k of corners with the same old index share the new one. */
  predicate MergedKind(newFace: seq<int>, face: seq<int>, k: int)
    requires |newFace| == |face| && |face| % 3 == 0 && 0 <= k < 3
  {
    forall c, d | 0 <= c < |face| / 3 && 0 <= d < |face| / 3 && Slot(face, c, k) == Slot(face, d, k) ::
      Slot(newFace, c, k) == Slot(newFace, d, k)
  }

  /** Slot k of every corner names an entry pushed for this face, past the mesh's old list. */
  predicate PushedKind(newFace: seq<int>, ls: Lists, k: int)
    requires |newFace| % 3 == 0 && 0 <= k < 3
  {
    forall c | 0 <= c < |newFace| / 3 :: |ListOf(ls, k)| < Slot(newFace, c, k)
  }

  /** What PlaceAllFacts says of slot k of the face, for a face remapped with p as its kind-k part. */
  lemma KindFactsOf(ls: Lists, face: seq<int>, g: Lists, k: int, r: Remapped, p: Placed)
    requires CornersIn(face, g) && 0 <= k < 3 && |r.face| == |face|
    requires ListOf(r.lists, k) == p.list && |p.indices| == |face| / 3
    requires forall c | 0 <= c < |face| / 3 :: Slot(r.face, c, k) == p.indices[c]
    requires |ListOf(ls, k)| <= |p.list| && p.list[..|ListOf(ls, k)|] == ListOf(ls, k)
    requires forall c | 0 <= c < |face| / 3 ::
               |ListOf(ls, k)| < p.indices[c] <= |p.list| && p.list[p.indices[c] - 1] == ListOf(g, k)[Slot(face, c, k) - 1]
    requires forall c, d | 0 <= c < |face| / 3 && 0 <= d < |face| / 3 && Slot(face, c, k) == Slot(face, d, k) ::
               p.indices[c] == p.indices[d]
    ensures GrownKind(ls, r.lists, k) && PushedKind(r.face, ls, k) && MergedKind(r.face, face, k)
    ensures forall c | 0 <= c < |face| / 3 :: SameSlot(r.face, face, r.lists, g, c, k)
  {
  }

  /** The facts of kind k for a face remapped to r. */
  predicate KindRemapped(ls: Lists, face: seq<int>, g: Lists, k: int, r: Remapped)
    requires |r.face| == |face| && |face| % 3 == 0 && 0 <= k < 3
  {
    GrownKind(ls, r.lists, k) && PushedKind(r.face, ls, k) && MergedKind(r.face, face, k)
    && forall c | 0 <= c < |face| / 3 :: SameSlot(r.face, face, r.lists, g, c, k)
  }

  /** RemapFaceFacts for one kind of index. */
  lemma KindFacts(ls: Lists, face: seq<int>, g: Lists, k: int)
    requires CornersIn(face, g) && 0 <= k < 3
    ensures KindRemapped(ls, face, g, k, RemapFace(ls, face, g))
  {
    var r, p := RemapFace(ls, face, g), KindPlaced(ls, face, g, k);
    PlacedFacts(ls, face, g, k);
    RemapFaceKind(ls, face, g, k);
    KindFactsOf(ls, face, g, k, r, p);
  }

  /** PlaceAllFacts read through Column: the facts in terms of the face's slots. */
  lemma PlacedFacts(ls: Lists, face: seq<int>, g: Lists, k: int)
    requires CornersIn(face, g) && 0 <= k < 3
    ensures var p := KindPlaced(ls, face, g, k);
            |ListOf(ls, k)| <= |p.list| && p.list[..|ListOf(ls, k)|] == ListOf(ls, k)
            && (forall c | 0 <= c < |face| / 3 ::
                  |ListOf(ls, k)| < p.indices[c] <= |p.list| && p.list[p.indices[c] - 1] == ListOf(g, k)[Slot(face, c, k) - 1])
            && (forall c, d | 0 <= c < |face| / 3 && 0 <= d < |face| / 3 && Slot(face, c, k) == Slot(face, d, k) ::
                  p.indices[c] == p.indices[d])
  {
    var col := Column(face, k);
    ColumnIn(face, g, k);
    PlaceAllFacts(ListOf(ls, k), col, ListOf(g, k));
  }

  /**
   * One face: the mesh's lists grow, every new index names an entry
   * pushed for this face that holds the old index's data, and two corners
   * of the face with the same old index of a kind share the new one.
   */
  lemma RemapFaceFacts(ls: Lists, face: seq<int>, g: Lists)
    requires CornersIn(face, g)
    ensures var r := RemapFace(ls, face, g);
            Grown(ls, r.lists) && SameData(r.face, face, r.lists, g)
            && forall k | 0 <= k < 3 :: PushedKind(r.face, ls, k) && MergedKind(r.face, face, k)
  {
    var r := RemapFace(ls, face, g);
    forall k | 0 <= k < 3
      ensures KindRemapped(ls, face, g, k, r)
    {
      KindFacts(ls, face, g, k);
    }
    AllKinds(ls, face, g, r);
  }

  /** The per-kind facts of a remapped face r, gathered. */
  lemma AllKinds(ls: Lists, face: seq<int>, g: Lists, r: Remapped)
    requires |r.face| == |face| && |face| % 3 == 0
    requires forall k | 0 <= k < 3 :: KindRemapped(ls, face, g, k, r)
    ensures Grown(ls, r.lists) && SameData(r.face, face, r.lists, g)
    ensures forall k | 0 <= k < 3 :: PushedKind(r.face, ls, k) && MergedKind(r.face, face, k)
  {
    forall k | 0 <= k < 3
      ensures GrownKind(ls, r.lists, k) && PushedKind(r.face, ls, k) && MergedKind(r.face, face, k)
    {
      assert KindRemapped(ls, face, g, k, r);
    }
    forall c, k | 0 <= c < |face| / 3 && 0 <= k < 3
      ensures SameSlot(r.face, face, r.lists, g, c, k)
    {
      assert KindRemapped(ls, face, g, k, r);
    }
  }

  /** Growing the lists keeps every index that named data naming the same data. */
  lemma SameDataGrown(newFace: seq<int>, face: seq<int>, ls: Lists, ls2: Lists, g: Lists)
    requires SameData(newFace, face, ls, g) && Grown(ls, ls2)
    ensures SameData(newFace, face, ls2, g)
  {
    forall c, k | 0 <= c < |face| / 3 && 0 <= k < 3
      ensures SameSlot(newFace, face, ls2, g, c, k)
    {
      assert SameSlot(newFace, face, ls, g, c, k) && GrownKind(ls, ls2, k);
      assert ListOf(ls2, k)[..|ListOf(ls, k)|][Slot(newFace, c, k) - 1] == ListOf(ls, k)[Slot(newFace, c, k) - 1];
    }
  }

  /** Growing is transitive. */
  lemma GrownTrans(ls: Lists, ls2: Lists, ls3: Lists)
    requires Grown(ls, ls2) && Grown(ls2, ls3)
    ensures Grown(ls, ls3)
  {
    forall k | 0 <= k < 3
      ensures GrownKind(ls, ls3, k)
    {
      assert GrownKind(ls, ls2, k) && GrownKind(ls2, ls3, k);
      assert ListOf(ls3, k)[..|ListOf(ls, k)|] == ListOf(ls3, k)[..|ListOf(ls2, k)|][..|ListOf(ls, k)|];
    }
  }

  /** The faces of a mesh after reindexing, and the mesh's lists they index. */
  datatype MeshRemap = MeshRemap(lists: Lists, faces: seq<seq<int>>)

  predicate AllCornersIn(faces: seq<seq<int>>, g: Lists) {
    forall i | 0 <= i < |faces| :: CornersIn(faces[i], g)
  }

  /** The loop over a mesh's faces: each face remapped, in order, onto the lists the faces before it left. */
  function RemapFaces(ls: Lists, faces: seq<seq<int>>, g: Lists): (r: MeshRemap)
    requires AllCornersIn(faces, g)
    ensures |r.faces| == |faces|
  {
    if faces == [] then MeshRemap(ls, [])
    else
      var prev := RemapFaces(ls, faces[..|faces| - 1], g);
      var f := RemapFace(prev.lists, faces[|faces| - 1], g);
      MeshRemap(f.lists, prev.faces + [f.face])
  }

  /** One more face of the loop: the prefix's remap followed by that face's. */
  lemma RemapFacesSnoc(ls: Lists, faces: seq<seq<int>>, g: Lists, j: int)
    requires AllCornersIn(faces, g) && 0 <= j < |faces|
    ensures AllCornersIn(faces[..j], g) && AllCornersIn(faces[..j + 1], g) && CornersIn(faces[j], g)
    ensures var prev := RemapFaces(ls, faces[..j], g);
            var f := RemapFace(prev.lists, faces[j], g);
            RemapFaces(ls, faces[..j + 1], g) == MeshRemap(f.lists, prev.faces + [f.face])
  {
    assert faces[..j + 1][..j] == faces[..j] && faces[..j + 1][j] == faces[j];
  }

  /**
   * A reindexed mesh: its lists only grow, and every new index of every
   * face names, in the mesh's lists, the data the old index named in the
   * global lists.
   */
  lemma {:induction false} RemapFacesFacts(ls: Lists, faces: seq<seq<int>>, g: Lists)
    requires AllCornersIn(faces, g)
    ensures var r := RemapFaces(ls, faces, g);
            Grown(ls, r.lists) && forall i | 0 <= i < |faces| :: SameData(r.faces[i], faces[i], r.lists, g)
  {
    var r := RemapFaces(ls, faces, g);
    if faces == [] {
      assert forall k | 0 <= k < 3 :: ListOf(ls, k)[..|ListOf(ls, k)|] == ListOf(ls, k);
    } else {
      var n := |faces| - 1;
      var init := faces[..n];
      assert init + [faces[n]] == faces;
      RemapFacesFacts(ls, init, g);
      var prev := RemapFaces(ls, init, g);
      var f := RemapFace(prev.lists, faces[n], g);
      assert r == MeshRemap(f.lists, prev.faces + [f.face]);
      RemapFaceFacts(prev.lists, faces[n], g);
      GrownTrans(ls, prev.lists, f.lists);
      AppendedFaceFacts(prev, f, init, faces[n], g);
    }
  }

  /** The step of RemapFacesFacts: the faces before keep their data in the grown lists, the new face has its own. */
  lemma AppendedFaceFacts(prev: MeshRemap, f: Remapped, init: seq<seq<int>>, face: seq<int>, g: Lists)
    requires |prev.faces| == |init| && Grown(prev.lists, f.lists) && SameData(f.face, face, f.lists, g)
    requires forall i | 0 <= i < |init| :: SameData(prev.faces[i], init[i], prev.lists, g)
    ensures forall i | 0 <= i < |init| + 1 ::
              SameData((prev.faces + [f.face])[i], (init + [face])[i], f.lists, g)
  {
    forall i | 0 <= i < |init| + 1
      ensures SameData((prev.faces + [f.face])[i], (init + [face])[i], f.lists, g)
    {
      if i < |init| {
        SameDataGrown(prev.faces[i], init[i], prev.lists, f.lists, g);
      }
    }
  }

  /**
   * The triangle recalc_tree makes of a reindexed face of three or more
   * corners is the triangle of the face as read, over the global vertices.
   */
  lemma RemappedTriangle(newFace: seq<int>, face: seq<int>, ls: Lists, g: Lists, i: int)
    requires SameData(newFace, face, ls, g) && |face| >= 9
    ensures FaceInRange(newFace, |ls.v|) && FaceInRange(face, |g.v|)
    ensures FaceTriangle(ls.v, newFace, i) == FaceTriangle(g.v, face, i)
  {
    assert SameSlot(newFace, face, ls, g, 0, 0);
    assert SameSlot(newFace, face, ls, g, 1, 0);
    assert SameSlot(newFace, face, ls, g, 2, 0);
  }

  /** A mesh's own lists, in the order of the slots of a corner. */
  function ListsOf(mesh: TriangleMesh): Lists
    reads mesh
  {
    Lists(mesh.vertices, mesh.texcoords, mesh.normals)
  }

  /** The work of the map of one kind over the first c indices of the column. */
  function PlacedUpTo(list0: seq<Vec3>, col: seq<int>, global: seq<Vec3>, c: int): (p: Placed)
    requires 0 <= c <= |col| && AllIn(col, global)
    ensures |p.slots| == |global| && |p.indices| == c
    decreases c
  {
    if c == 0 then Placed(list0, Unmapped(|global|), [])
    else PlaceOne(PlacedUpTo(list0, col, global, c - 1), col[c - 1], global)
  }

  lemma PlacedUpToStep(list0: seq<Vec3>, col: seq<int>, global: seq<Vec3>, c: int)
    requires 0 <= c < |col| && AllIn(col, global)
    ensures 1 <= col[c] <= |global|
    ensures PlacedUpTo(list0, col, global, c + 1) == PlaceOne(PlacedUpTo(list0, col, global, c), col[c], global)
  {
  }

  /**
   * One index of one kind through its map: the first time it is seen its
   * global entry is pushed onto the mesh's list and the map records the new
   * length; the index it maps to is returned. Run on the c-th index of a
   * column, it extends the map's work over the first c indices by one.
   */
  method PlaceIndex(p: Placed, idx: int, global: seq<Vec3>, ghost list0: seq<Vec3>, ghost col: seq<int>, ghost c: int)
    returns (p': Placed, mapped: int)
    requires 0 <= c < |col| && AllIn(col, global) && idx == col[c]
    requires p == PlacedUpTo(list0, col, global, c)
    ensures p' == PlacedUpTo(list0, col, global, c + 1) && |p'.indices| == c + 1 && mapped == p'.indices[c]
  {
    PlacedUpToStep(list0, col, global, c);
    p' := p;
    if p.slots[idx - 1] == -1 {
      p' := Placed(p.list + [global[idx - 1]], p.slots[idx - 1 := |p.list| + 1], p.indices);
    }
    mapped := p'.slots[idx - 1];
    p' := p'.(indices := p'.indices + [mapped]);
  }

  /** PlacedUpTo is PlaceAll over the prefix. */
  lemma {:induction false} PlacedUpToPrefix(list0: seq<Vec3>, col: seq<int>, global: seq<Vec3>, c: int)
    requires 0 <= c <= |col| && AllIn(col, global)
    ensures AllIn(col[..c], global)
    ensures PlacedUpTo(list0, col, global, c) == PlaceAll(list0, Unmapped(|global|), col[..c], global)
  {
    if c > 0 {
      PlacedUpToPrefix(list0, col, global, c - 1);
      assert col[..c][..c - 1] == col[..c - 1];
    }
  }

  lemma InterleaveSnoc(a: seq<int>, b: seq<int>, c: seq<int>, x: int, y: int, z: int)
    requires |a| == |b| == |c|
    ensures Interleave(a + [x], b + [y], c + [z]) == Interleave(a, b, c) + [x, y, z]
  {
    assert (a + [x])[..|a|] == a && (b + [y])[..|b|] == b && (c + [z])[..|c|] == c;
  }

  /** The three maps run over all c corners of the face make up the remapped face. */
  lemma RemapFaceOfPlaced(ls: Lists, face: seq<int>, g: Lists, c: int, newFace: seq<int>)
    requires CornersIn(face, g) && 0 <= c && |face| == 3 * c
    requires AllIn(Column(face, 0), g.v) && AllIn(Column(face, 1), g.vt) && AllIn(Column(face, 2), g.vn)
    requires newFace == Interleave(PlacedUpTo(ls.v, Column(face, 0), g.v, c).indices,
                                   PlacedUpTo(ls.vt, Column(face, 1), g.vt, c).indices,
                                   PlacedUpTo(ls.vn, Column(face, 2), g.vn, c).indices)
    ensures RemapFace(ls, face, g)
         == Remapped(Lists(PlacedUpTo(ls.v, Column(face, 0), g.v, c).list,
                           PlacedUpTo(ls.vt, Column(face, 1), g.vt, c).list,
                           PlacedUpTo(ls.vn, Column(face, 2), g.vn, c).list), newFace)
  {
    KindUpTo(ls, face, g, 0, c);
    KindUpTo(ls, face, g, 1, c);
    KindUpTo(ls, face, g, 2, c);
  }

  /** The map of kind k run over all c corners is KindPlaced. */
  lemma KindUpTo(ls: Lists, face: seq<int>, g: Lists, k: int, c: int)
    requires CornersIn(face, g) && 0 <= k < 3 && 0 <= c && |face| == 3 * c
    ensures AllIn(Column(face, k), ListOf(g, k))
    ensures PlacedUpTo(ListOf(ls, k), Column(face, k), ListOf(g, k), c) == KindPlaced(ls, face, g, k)
  {
    var col := Column(face, k);
    assert col[..c] == col;
    ColumnIn(face, g, k);
    PlacedUpToPrefix(ListOf(ls, k), col, ListOf(g, k), c);
  }

  /**
   * The body of the loop over one face in load_obj: three maps of -1 the
   * size of the global lists, then corner by corner each index pushes its
   * global entry onto the mesh's list the first time it is seen, and the
   * face's new indices are the mapped ones.
   */
  method ReindexFace(mesh: TriangleMesh, face: seq<int>, g: Lists) returns (newFace: seq<int>)
    requires CornersIn(face, g)
    modifies mesh
    ensures Remapped(ListsOf(mesh), newFace) == RemapFace(old(ListsOf(mesh)), face, g)
    ensures mesh.faces == old(mesh.faces) && mesh.mat == old(mesh.mat) && mesh.tree == old(mesh.tree)
  {
    ghost var ls := ListsOf(mesh);
    ghost var cv, ct, cn := Column(face, 0), Column(face, 1), Column(face, 2);
    Columns(face);
    assert ColumnsOf(face, cv, ct, cn);
    ColumnIn(face, g, 0);
    ColumnIn(face, g, 1);
    ColumnIn(face, g, 2);
    var r := ReindexCorners(ListsOf(mesh), face, g, cv, ct, cn);
    RemapFaceOfPlaced(ls, face, g, |cv|, r.face);
    mesh.vertices, mesh.texcoords, mesh.normals := r.lists.v, r.lists.vt, r.lists.vn;
    newFace := r.face;
  }

  /** The state of the corner loop: each kind's list, map and new indices, and new_face. */
  datatype Corners = Corners(pv: Placed, pt: Placed, pn: Placed, newFace: seq<int>)

  /** The first three corner indices of the face are cv, ct and cn. */
  predicate ColumnsOf(face: seq<int>, cv: seq<int>, ct: seq<int>, cn: seq<int>) {
    |face| == 3 * |cv| && |ct| == |cv| && |cn| == |cv|
    && forall c | 0 <= c < |cv| :: cv[c] == face[3 * c] && ct[c] == face[3 * c + 1] && cn[c] == face[3 * c + 2]
  }

  /** st is the corner loop's state after c corners. */
  ghost predicate CornersDone(ls: Lists, g: Lists, cv: seq<int>, ct: seq<int>, cn: seq<int>, c: int, st: Corners)
    requires |ct| == |cv| && |cn| == |cv| && AllIn(cv, g.v) && AllIn(ct, g.vt) && AllIn(cn, g.vn)
  {
    0 <= c <= |cv|
    && st.pv == PlacedUpTo(ls.v, cv, g.v, c) && st.pt == PlacedUpTo(ls.vt, ct, g.vt, c)
    && st.pn == PlacedUpTo(ls.vn, cn, g.vn, c)
    && st.newFace == Interleave(st.pv.indices, st.pt.indices, st.pn.indices)
  }

  /** One corner of the loop: its three indices through their maps, and three new indices on new_face. */
  method ReindexCorner(st: Corners, face: seq<int>, i: int, g: Lists,
                       ghost ls: Lists, ghost cv: seq<int>, ghost ct: seq<int>, ghost cn: seq<int>, ghost c: int)
    returns (st': Corners)
    requires ColumnsOf(face, cv, ct, cn) && AllIn(cv, g.v) && AllIn(ct, g.vt) && AllIn(cn, g.vn)
    requires i == 3 * c && c < |cv| && CornersDone(ls, g, cv, ct, cn, c, st)
    ensures CornersDone(ls, g, cv, ct, cn, c + 1, st')
  {
    var v, vt, vn := face[i], face[i + 1], face[i + 2];
    assert v == cv[c] && vt == ct[c] && vn == cn[c];
    var pv, a := PlaceIndex(st.pv, v, g.v, ls.v, cv, c);
    var pt, b := PlaceIndex(st.pt, vt, g.vt, ls.vt, ct, c);
    var pn, d := PlaceIndex(st.pn, vn, g.vn, ls.vn, cn, c);
    assert pv.indices == st.pv.indices + [a] && pt.indices == st.pt.indices + [b] && pn.indices == st.pn.indices + [d];
    InterleaveSnoc(st.pv.indices, st.pt.indices, st.pn.indices, a, b, d);
    st' := Corners(pv, pt, pn, st.newFace + [a, b, d]);
  }

  /**
   * The corner loop of ReindexFace, on the mesh's lists ls; cv, ct and cn
   * are the face's position, texture coordinate and normal indices.
   */
  method ReindexCorners(ls: Lists, face: seq<int>, g: Lists, ghost cv: seq<int>, ghost ct: seq<int>, ghost cn: seq<int>)
    returns (r: Remapped)
    requires ColumnsOf(face, cv, ct, cn) && AllIn(cv, g.v) && AllIn(ct, g.vt) && AllIn(cn, g.vn)
    ensures r.lists == Lists(PlacedUpTo(ls.v, cv, g.v, |cv|).list, PlacedUpTo(ls.vt, ct, g.vt, |cv|).list,
                             PlacedUpTo(ls.vn, cn, g.vn, |cv|).list)
    ensures r.face == Interleave(PlacedUpTo(ls.v, cv, g.v, |cv|).indices, PlacedUpTo(ls.vt, ct, g.vt, |cv|).indices,
                                 PlacedUpTo(ls.vn, cn, g.vn, |cv|).indices)
  {
    var st := Corners(Placed(ls.v, Unmapped(|g.v|), []), Placed(ls.vt, Unmapped(|g.vt|), []),
                      Placed(ls.vn, Unmapped(|g.vn|), []), []);
    var i := 0;
    ghost var c := 0;
    while i < |face|
      invariant i == 3 * c && CornersDone(ls, g, cv, ct, cn, c, st)
    {
      st := ReindexCorner(st, face, i, g, ls, cv, ct, cn, c);
      i, c := i + 3, c + 1;
    }
    assert c == |cv|;
    r := Remapped(Lists(st.pv.list, st.pt.list, st.pn.list), st.newFace);
  }

  /** The loop over a mesh's faces in load_obj: each face reindexed in order, then mesh.faces = new_faces. */
  method ReindexMesh(mesh: TriangleMesh, g: Lists)
    requires AllCornersIn(mesh.faces, g)
    modifies mesh
    ensures MeshRemap(ListsOf(mesh), mesh.faces) == RemapFaces(old(ListsOf(mesh)), old(mesh.faces), g)
    ensures mesh.mat == old(mesh.mat) && mesh.tree == old(mesh.tree)
  {
    ghost var ls := ListsOf(mesh);
    var faces := mesh.faces;
    var newFaces := [];
    for j := 0 to |faces|
      invariant MeshRemap(ListsOf(mesh), newFaces) == RemapFaces(ls, faces[..j], g)
      invariant mesh.mat == old(mesh.mat) && mesh.tree == old(mesh.tree)
    {
      RemapFacesSnoc(ls, faces, g, j);
      var newFace := ReindexFace(mesh, faces[j], g);
      newFaces := newFaces + [newFace];
    }
    assert faces[..|faces|] == faces;
    mesh.faces := newFaces;
  }
}
