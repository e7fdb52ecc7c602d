/**
 * Materials of src/Material.h: the default field values, the colour-only
 * DefaultMaterial, and parse_material's loop over the lines of a .mtl
 * file, in which every recognised key overwrites its own field and nothing
 * else.
 *
 * Files are a map from a file name to the lines std::getline yields; a
 * name that is not in the map is a file that cannot be opened. How
 * `iss >> float` converts one word is the parameter `num`: the number it
 * reads from the whole word, or None when it rejects the word.
 */
module Materials {
  import opened Wrappers
  import opened Vectors
  import opened ObjText

  /** Material: three colours, three scalars and the diffuse texture (the file its image came from). */
  datatype Material = Material(ka: Vec3, kd: Vec3, ks: Vec3, ns: real, ni: real, d: real, texture: Option<string>)

  /** The default member initialisers: white colours, scalars 1, no texture. */
  const Defaults: Material := Material(Splat(1.0), Splat(1.0), Splat(1.0), 1.0, 1.0, 1.0, None)

  /** The lines of every file that can be opened. */
  type Files = map<string, seq<string>>

  /** The number `>>` stores for a whole word, or None when the conversion fails. */
  type NumberFn = string -> Option<real>

  // ---------------------------------------------------------------------
  // DefaultMaterial

  /**
   * DefaultMaterial(colour): K_a = K_s = 1, K_d from the "#RRGGBB" colour,
   * N_s = 10, N_i = 0, d = 1. None when to_colour throws.
   */
  function DefaultMaterial(colour: string): (r: Option<Material>)
    ensures r.Some? <==> ToColour(colour).Some?
  {
    match ToColour(colour)
    case None => None
    case Some(kd) => Some(Material(Splat(1.0), kd, Splat(1.0), 10.0, 0.0, 1.0, None))
  }

  /** The diffuse colour of a DefaultMaterial is the three hex bytes of its colour, each over 255. */
  lemma DefaultMaterialOfHex(r: nat, g: nat, b: nat)
    requires r < 256 && g < 256 && b < 256
    ensures DefaultMaterial("#" + HexByte(r) + HexByte(g) + HexByte(b))
         == Some(Material(Splat(1.0), Vec3(UnitChannel(r), UnitChannel(g), UnitChannel(b)), Splat(1.0),
                          10.0, 0.0, 1.0, None))
  {
    ToColourOfHexBytes(r, g, b);
  }

  // ---------------------------------------------------------------------
  // Keys and fields

  /** How many numbers a key's line sets: three for a colour, one for a scalar, none for any other word. */
  function Arity(key: string): nat {
    if key == "Ka" || key == "Kd" || key == "Ks" then 3
    else if key == "Ns" || key == "Ni" || key == "d" then 1
    else 0
  }

  function Coordinates(v: Vec3): seq<real> { [v.x, v.y, v.z] }

  /** The numbers of the field a key names; no numbers for any other word. */
  function Component(m: Material, key: string): (r: seq<real>)
    ensures |r| == Arity(key)
  {
    if key == "Ka" then Coordinates(m.ka)
    else if key == "Kd" then Coordinates(m.kd)
    else if key == "Ks" then Coordinates(m.ks)
    else if key == "Ns" then [m.ns]
    else if key == "Ni" then [m.ni]
    else if key == "d" then [m.d]
    else []
  }

  /** Two materials are equal when their texture and the six fields the keys name are. */
  lemma SameComponents(m: Material, n: Material)
    requires m.texture == n.texture
    requires forall key | Arity(key) > 0 :: Component(m, key) == Component(n, key)
    ensures m == n
  {
    assert Component(m, "Ka") == Component(n, "Ka");
    assert Component(m, "Kd") == Component(n, "Kd");
    assert Component(m, "Ks") == Component(n, "Ks");
    assert Component(m, "Ns") == Component(n, "Ns");
    assert Component(m, "Ni") == Component(n, "Ni");
    assert Component(m, "d") == Component(n, "d");
  }

  /** mat.K_a = v and its siblings: the field the key names takes the numbers; nothing else changes. */
  function SetComponent(m: Material, key: string, vs: seq<real>): (r: Material)
    requires Arity(key) > 0 && |vs| == Arity(key)
    ensures Component(r, key) == vs
    ensures forall k | k != key :: Component(r, k) == Component(m, k)
    ensures r.texture == m.texture
  {
    if key == "Ka" then m.(ka := Vec3(vs[0], vs[1], vs[2]))
    else if key == "Kd" then m.(kd := Vec3(vs[0], vs[1], vs[2]))
    else if key == "Ks" then m.(ks := Vec3(vs[0], vs[1], vs[2]))
    else if key == "Ns" then m.(ns := vs[0])
    else if key == "Ni" then m.(ni := vs[0])
    else m.(d := vs[0])
  }

  // ---------------------------------------------------------------------
  // Reading numbers

  function Zeros(n: nat): (r: seq<real>)
    ensures |r| == n && forall k | 0 <= k < n :: r[k] == 0.0
  {
    seq(n, _ => 0.0)
  }

  /**
   * `iss >> a >> b ...` into n values: a word the conversion accepts gives
   * its number; the first word it rejects stores 0 and fails the stream, so
   * the values after it keep what they held, and so do the values past the
   * last word.  For Ka, Kd and Ks that is the 0 of Vector3(); for Ns, Ni
   * and d the source reads into an uninitialised `float v`, whose value
   * the model takes as 0.
   */
  function ReadReals(words: seq<string>, n: nat, num: NumberFn): (r: seq<real>)
    ensures |r| == n
    decreases n
  {
    if n == 0 then []
    else if words == [] || num(words[0]).None? then Zeros(n)
    else [num(words[0]).value] + ReadReals(words[1..], n - 1, num)
  }

  /** Words that all convert are read as their numbers, in order. */
  lemma {:induction false} ReadRealsOfNumbers(words: seq<string>, xs: seq<real>, num: NumberFn)
    requires |words| == |xs|
    requires forall k | 0 <= k < |words| :: num(words[k]) == Some(xs[k])
    ensures ReadReals(words, |words|, num) == xs
  {
    if words != [] {
      ReadRealsOfNumbers(words[1..], xs[1..], num);
      assert num(words[0]) == Some(xs[0]);
    }
  }

  /** From the first word that does not convert on, every value is 0, whatever follows it. */
  lemma {:induction false} ReadRealsStopAtFailure(words: seq<string>, n: nat, num: NumberFn, j: nat)
    requires j < n && j < |words| && num(words[j]).None?
    ensures forall k | j <= k < n :: ReadReals(words, n, num)[k] == 0.0
  {
    if num(words[0]).Some? {
      ReadRealsStopAtFailure(words[1..], n - 1, num, j - 1);
    }
  }

  // ---------------------------------------------------------------------
  // parse_material

  /**
   * One line of the loop in parse_material: an empty line is skipped; a
   * line whose first word is a key reads its numbers into that key's
   * field and changes nothing else; any other line is ignored.
   */
  function ApplyLine(m: Material, line: string, num: NumberFn): (r: Material)
    ensures r.texture == m.texture
    ensures forall k | k != Keyword(line) :: Component(r, k) == Component(m, k)
    ensures Arity(Keyword(line)) > 0 ==>
              Component(r, Keyword(line)) == ReadReals(Arguments(line), Arity(Keyword(line)), num)
    ensures Arity(Keyword(line)) == 0 ==> r == m
  {
    var key := Keyword(line);
    if line == [] || Arity(key) == 0 then m
    else SetComponent(m, key, ReadReals(Arguments(line), Arity(key), num))
  }

  /** The material after the lines, in order. */
  function ApplyLines(m: Material, lines: seq<string>, num: NumberFn): (r: Material)
    ensures r.texture == m.texture
  {
    if lines == [] then m else ApplyLine(ApplyLines(m, lines[..|lines| - 1], num), lines[|lines| - 1], num)
  }

  /** What parse_material returns: the defaults when the file cannot be opened, else its lines applied to them. */
  function ParsedMaterial(files: Files, filename: string, num: NumberFn): Material {
    if filename in files then ApplyLines(Defaults, files[filename], num) else Defaults
  }

  /** parse_material: start from the defaults and apply the file's lines in order. */
  method ParseMaterial(files: Files, filename: string, num: NumberFn) returns (mat: Material)
    ensures filename !in files ==> mat == Defaults
    ensures filename in files ==> mat == ApplyLines(Defaults, files[filename], num)
    ensures mat.texture == None
  {
    mat := Defaults;
    if filename !in files {
      return;
    }
    var lines := files[filename];
    for i := 0 to |lines|
      invariant mat == ApplyLines(Defaults, lines[..i], num)
    {
      assert lines[..i + 1][..i] == lines[..i];
      var line := lines[i];
      if line == [] {
        continue;
      }
      var component := Keyword(line);
      if Arity(component) > 0 {
        var v := ReadReals(Arguments(line), Arity(component), num);
        mat := SetComponent(mat, component, v);
      }
    }
    assert lines[..|lines|] == lines;
  }

  /** Applying two runs of lines is applying their concatenation. */
  lemma {:induction false} ApplyLinesAppend(m: Material, a: seq<string>, b: seq<string>, num: NumberFn)
    ensures ApplyLines(m, a + b, num) == ApplyLines(ApplyLines(m, a, num), b, num)
  {
    if b != [] {
      ApplyLinesAppend(m, a, b[..|b| - 1], num);
      assert (a + b)[..|a + b| - 1] == a + b[..|b| - 1];
    } else {
      assert a + b == a;
    }
  }

  /** A key that no line names keeps its value. */
  lemma {:induction false} KeyKept(m: Material, lines: seq<string>, key: string, num: NumberFn)
    requires forall i | 0 <= i < |lines| :: Keyword(lines[i]) != key
    ensures Component(ApplyLines(m, lines, num), key) == Component(m, key)
  {
    if lines != [] {
      KeyKept(m, lines[..|lines| - 1], key, num);
    }
  }

  /** For a repeated key, the last line naming it decides its field. */
  lemma LastOccurrenceWins(m: Material, pre: seq<string>, line: string, post: seq<string>, num: NumberFn)
    requires Arity(Keyword(line)) > 0
    requires forall i | 0 <= i < |post| :: Keyword(post[i]) != Keyword(line)
    ensures Component(ApplyLines(m, pre + [line] + post, num), Keyword(line))
         == ReadReals(Arguments(line), Arity(Keyword(line)), num)
  {
    var key := Keyword(line);
    ApplyLinesAppend(m, pre + [line], post, num);
    var before := ApplyLines(m, pre + [line], num);
    assert (pre + [line])[..|pre + [line]| - 1] == pre;
    KeyKept(before, post, key, num);
  }

  /** A line "key x y z" written out word by word sets that key's field to the numbers. */
  lemma KeyLine(m: Material, key: string, words: seq<string>, xs: seq<real>, num: NumberFn)
    requires Arity(key) > 0 && IsWord(key) && |words| == Arity(key) && |xs| == |words|
    requires forall k | 0 <= k < |words| :: IsWord(words[k]) && num(words[k]) == Some(xs[k])
    ensures Component(ApplyLine(m, key + Join(words), num), key) == xs
  {
    LineOfWords(key, words);
    ReadRealsOfNumbers(words, xs, num);
  }

  /**
   * MtlMaterial(filename): a Material whose six colour and scalar fields
   * are copied from parse_material's result; the texture is the default,
   * none.
   */
  method MtlMaterial(files: Files, filename: string, num: NumberFn) returns (m: Material)
    ensures m.texture == None
    ensures forall key | Arity(key) > 0 :: Component(m, key) == Component(ParsedMaterial(files, filename, num), key)
  {
    var mat := ParseMaterial(files, filename, num);
    m := Defaults;
    m := m.(ka := mat.ka, kd := mat.kd, ks := mat.ks);
    m := m.(ns := mat.ns, ni := mat.ni, d := mat.d);
  }

  /** parse_material never sets a texture, so MtlMaterial is parse_material's result itself. */
  lemma MtlMaterialIsParsed(files: Files, filename: string, num: NumberFn, m: Material)
    requires m.texture == None
    requires forall key | Arity(key) > 0 :: Component(m, key) == Component(ParsedMaterial(files, filename, num), key)
    ensures m == ParsedMaterial(files, filename, num)
  {
    SameComponents(m, ParsedMaterial(files, filename, num));
  }
}
