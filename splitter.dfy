/**
 * compression/object_splitter.py: splits a Wavefront OBJ file into one
 * file per object.  Reading sorts every line into the three vertex lists
 * ("v", "vn", "vt"), the face lines of the current object and the other
 * lines of the current object.  Writing gives each object its other
 * lines, then only the vertex lines its faces use, renumbered from 1 in
 * increasing order of their old number, then its faces rewritten with the
 * new numbers.
 */
module Splitter {
  import opened Wrappers
  import opened Vectors
  import opened ObjText

  // ---------------------------------------------------------------------
  // ints(line)

  /** ints: the values of the maximal runs of decimal digits of s, left to right. */
  function Ints(s: string): (r: seq<nat>)
    ensures |r| <= |s|
    decreases |s|
  {
    if s == [] then []
    else if IsDigit(s[0]) then
      var e := DigitsEnd(s, 1);
      [DecimalValue(s[..e])] + Ints(s[e..])
    else Ints(s[1..])
  }

  /** Text without a digit holds no number. */
  lemma {:induction false} IntsWithoutDigits(s: string)
    requires forall k | 0 <= k < |s| :: !IsDigit(s[k])
    ensures Ints(s) == []
    decreases |s|
  {
    if s != [] {
      IntsWithoutDigits(s[1..]);
    }
  }

  /** A run of digits inside a stops where it stops in a when a and b do not meet digit to digit. */
  lemma {:induction false} DigitsEndAppend(a: string, b: string, j: nat)
    requires j < |a|
    requires b == [] || !IsDigit(a[|a| - 1]) || !IsDigit(b[0])
    ensures DigitsEnd(a + b, j) == DigitsEnd(a, j)
    decreases |a| - j
  {
    var s := a + b;
    assert s[j] == a[j];
    if IsDigit(a[j]) {
      if j + 1 < |a| {
        DigitsEndAppend(a, b, j + 1);
      } else if b != [] {
        assert s[j + 1] == b[0];
      }
    }
  }

  /** a and b do not meet digit to digit. */
  predicate Apart(a: string, b: string) {
    a == [] || b == [] || !IsDigit(a[|a| - 1]) || !IsDigit(b[0])
  }

  lemma {:induction false} Regroup<T>(x: seq<T>, y: seq<T>, z: seq<T>)
    ensures x + (y + z) == (x + y) + z
  {
  }

  /** A leading run of digits in a is the same run in a + b. */
  lemma {:induction false} IntsDigitStep(a: string, b: string)
    requires a != [] && IsDigit(a[0]) && Apart(a, b)
    ensures var e := DigitsEnd(a, 1);
      && Ints(a) == [DecimalValue(a[..e])] + Ints(a[e..])
      && Ints(a + b) == [DecimalValue(a[..e])] + Ints(a[e..] + b)
      && Apart(a[e..], b)
  {
    var s := a + b;
    var e := DigitsEnd(a, 1);
    if 1 < |a| {
      DigitsEndAppend(a, b, 1);
    } else if b != [] {
      assert s[1] == b[0];
    }
    assert s[..e] == a[..e];
    assert s[e..] == a[e..] + b;
    if e < |a| {
      assert a[e..][|a[e..]| - 1] == a[|a| - 1];
    }
  }

  /** A leading non-digit of a is skipped in a + b as in a. */
  lemma {:induction false} IntsOtherStep(a: string, b: string)
    requires a != [] && !IsDigit(a[0]) && Apart(a, b)
    ensures Ints(a) == Ints(a[1..]) && Ints(a + b) == Ints(a[1..] + b) && Apart(a[1..], b)
  {
    assert (a + b)[1..] == a[1..] + b;
    if 1 < |a| {
      assert a[1..][|a[1..]| - 1] == a[|a| - 1];
    }
  }

  /** Numbers are found in each part separately when the parts do not meet digit to digit. */
  lemma {:induction false} IntsAppend(a: string, b: string)
    requires Apart(a, b)
    ensures Ints(a + b) == Ints(a) + Ints(b)
    decreases |a|
  {
    if a == [] {
      AppendEmpty(a, b);
      AppendEmpty(Ints(a), Ints(b));
    } else if IsDigit(a[0]) {
      var e := DigitsEnd(a, 1);
      IntsDigitStep(a, b);
      IntsAppend(a[e..], b);
      Regroup([DecimalValue(a[..e])], Ints(a[e..]), Ints(b));
    } else {
      IntsOtherStep(a, b);
      IntsAppend(a[1..], b);
    }
  }

  /** The decimal text of n holds the one number n. */
  lemma {:induction false} IntsOfNumeral(n: nat)
    ensures Ints(NatText(n)) == [n]
  {
    var s := NatText(n);
    NatTextDigits(n);
    DigitsEndAt(s, 1, |s|);
    assert s[..|s|] == s;
    DecimalOfNatText(n);
    assert s[|s|..] == [];
  }

  /** A numeral followed by text that does not start with a digit. */
  lemma {:induction false} IntsAfterNumeral(n: nat, t: string)
    requires t == [] || !IsDigit(t[0])
    ensures Ints(NatText(n) + t) == [n] + Ints(t)
  {
    NatTextDigits(n);
    IntsAppend(NatText(n), t);
    IntsOfNumeral(n);
  }

  /** A separator before a number is skipped. */
  lemma {:induction false} IntsAfterSeparator(c: char, t: string)
    requires !IsDigit(c)
    ensures Ints([c] + t) == Ints(t)
  {
    assert ([c] + t)[1..] == t;
  }

  // ---------------------------------------------------------------------
  // Corners of a face

  /** The indices one corner word names: a position, a texture coordinate and a normal, each possibly absent. */
  datatype Ref = Ref(v: Option<nat>, vt: Option<nat>, vn: Option<nat>)

  /**
   * How the script reads a corner word: one number is a position; three
   * are position, texture coordinate and normal; two are position and
   * normal when "//" occurs in the word and position and texture
   * coordinate otherwise; any other count names nothing.
   */
  function RefOf(word: string): Ref {
    var data := Ints(word);
    if |data| == 1 then Ref(Some(data[0]), None, None)
    else if |data| == 3 then Ref(Some(data[0]), Some(data[1]), Some(data[2]))
    else if |data| == 2 then
      if HasDoubleSlash(word) then Ref(Some(data[0]), None, Some(data[1]))
      else Ref(Some(data[0]), Some(data[1]), None)
    else Ref(None, None, None)
  }

  /** A corner the script rewrites: one to three numbers in it. */
  predicate Kept(word: string) {
    1 <= |Ints(word)| <= 3
  }

  datatype Kind = V | VT | VN

  function Pick(r: Ref, k: Kind): Option<nat> {
    match k
    case V => r.v
    case VT => r.vt
    case VN => r.vn
  }

  /** The index of kind k a reference names, as a set of zero or one element. */
  function Named(r: Ref, k: Kind): set<nat> {
    if Pick(r, k).Some? then {Pick(r, k).value} else {}
  }

  /** The indices of kind k the corner words name. */
  function CornerIndices(words: seq<string>, k: Kind): set<nat> {
    if words == [] then {}
    else CornerIndices(words[..|words| - 1], k) + Named(RefOf(words[|words| - 1]), k)
  }

  /** The indices of kind k the corners of one face line name. */
  function FaceIndices(face: string, k: Kind): set<nat> {
    CornerIndices(Arguments(face), k)
  }

  /** unique_vs, unique_vts, unique_vns: the indices of kind k the corners of the face lines name. */
  function Referenced(faces: seq<string>, k: Kind): set<nat> {
    if faces == [] then {}
    else Referenced(faces[..|faces| - 1], k) + FaceIndices(faces[|faces| - 1], k)
  }

  predicate CornerNames(word: string, k: Kind, x: nat) {
    Pick(RefOf(word), k) == Some(x)
  }

  /** An index is among those of the corners exactly when one corner names it. */
  lemma {:induction false} CornerIndicesExactly(words: seq<string>, k: Kind, x: nat)
    ensures x in CornerIndices(words, k) <==> exists j | 0 <= j < |words| :: CornerNames(words[j], k, x)
  {
    if words != [] {
      var init := words[..|words| - 1];
      CornerIndicesExactly(init, k, x);
      if x in CornerIndices(words, k) {
        if x in CornerIndices(init, k) {
          var j :| 0 <= j < |init| && CornerNames(init[j], k, x);
          assert words[j] == init[j];
        } else {
          assert CornerNames(words[|words| - 1], k, x);
        }
      } else {
        forall j | 0 <= j < |words|
          ensures !CornerNames(words[j], k, x)
        {
          if j < |init| {
            assert words[j] == init[j];
          }
        }
      }
    }
  }

  /** Every index a face names is referenced. */
  lemma {:induction false} FaceReferenced(faces: seq<string>, i: nat, k: Kind)
    requires i < |faces|
    ensures FaceIndices(faces[i], k) <= Referenced(faces, k)
  {
    var init := faces[..|faces| - 1];
    if i < |init| {
      FaceReferenced(init, i, k);
      assert init[i] == faces[i];
    }
  }

  /** Every referenced index is named by some face. */
  lemma {:induction false} ReferencedByFace(faces: seq<string>, k: Kind, x: nat)
    requires x in Referenced(faces, k)
    ensures exists i | 0 <= i < |faces| :: x in FaceIndices(faces[i], k)
  {
    var init := faces[..|faces| - 1];
    if x in Referenced(init, k) {
      ReferencedByFace(init, k, x);
      var i :| 0 <= i < |init| && x in FaceIndices(init[i], k);
      assert faces[i] == init[i];
    } else {
      assert x in FaceIndices(faces[|faces| - 1], k);
    }
  }

  /** What corner j of face i names is among the referenced indices. */
  lemma {:induction false} CornerReferenced(faces: seq<string>, i: nat, j: nat, k: Kind)
    requires i < |faces| && j < |Arguments(faces[i])|
    requires Pick(RefOf(Arguments(faces[i])[j]), k).Some?
    ensures Pick(RefOf(Arguments(faces[i])[j]), k).value in Referenced(faces, k)
  {
    var x := Pick(RefOf(Arguments(faces[i])[j]), k).value;
    assert CornerNames(Arguments(faces[i])[j], k, x);
    CornerIndicesExactly(Arguments(faces[i]), k, x);
    FaceReferenced(faces, i, k);
  }

  /** One pass of the inner loop: the indices one corner adds to the three sets. */
  method AddCorner(word: string, vs: set<nat>, vts: set<nat>, vns: set<nat>) returns (vs': set<nat>, vts': set<nat>, vns': set<nat>)
    ensures vs' == vs + Named(RefOf(word), V)
    ensures vts' == vts + Named(RefOf(word), VT)
    ensures vns' == vns + Named(RefOf(word), VN)
  {
    vs', vts', vns' := vs, vts, vns;
    var data := Ints(word);
    if |data| == 1 {
      vs' := vs' + {data[0]};
    } else if |data| == 3 {
      vs' := vs' + {data[0]};
      vts' := vts' + {data[1]};
      vns' := vns' + {data[2]};
    } else if |data| == 2 {
      if HasDoubleSlash(word) {
        vs' := vs' + {data[0]};
        vns' := vns' + {data[1]};
      } else {
        vs' := vs' + {data[0]};
        vts' := vts' + {data[1]};
      }
    }
  }

  /** The inner loop over the corners of one face. */
  method AddFace(face: string, vs: set<nat>, vts: set<nat>, vns: set<nat>) returns (vs': set<nat>, vts': set<nat>, vns': set<nat>)
    ensures vs' == vs + FaceIndices(face, V)
    ensures vts' == vts + FaceIndices(face, VT)
    ensures vns' == vns + FaceIndices(face, VN)
  {
    var corners := Arguments(face);
    vs', vts', vns' := vs, vts, vns;
    for j := 0 to |corners|
      invariant vs' == vs + CornerIndices(corners[..j], V)
      invariant vts' == vts + CornerIndices(corners[..j], VT)
      invariant vns' == vns + CornerIndices(corners[..j], VN)
    {
      assert corners[..j + 1][..j] == corners[..j];
      vs', vts', vns' := AddCorner(corners[j], vs', vts', vns');
    }
    assert corners[..|corners|] == corners;
  }

  /** The unique-index loops of one object: every index its faces use, by kind. */
  method CollectIndices(faces: seq<string>) returns (vs: set<nat>, vts: set<nat>, vns: set<nat>)
    ensures vs == Referenced(faces, V) && vts == Referenced(faces, VT) && vns == Referenced(faces, VN)
  {
    vs, vts, vns := {}, {}, {};
    for i := 0 to |faces|
      invariant vs == Referenced(faces[..i], V)
      invariant vts == Referenced(faces[..i], VT)
      invariant vns == Referenced(faces[..i], VN)
    {
      assert faces[..i + 1][..i] == faces[..i];
      vs, vts, vns := AddFace(faces[i], vs, vts, vns);
    }
    assert faces[..|faces|] == faces;
  }

  // ---------------------------------------------------------------------
  // sorted(list(...)) and the maps from old indices to new ones

  predicate Increasing(r: seq<nat>) {
    forall i, j | 0 <= i < j < |r| :: r[i] < r[j]
  }

  predicate IsLeast(m: nat, s: set<nat>) {
    m in s && forall y | y in s :: m <= y
  }

  lemma {:induction false} OnlyElementLeast(s: set<nat>, x: nat)
    requires x in s && s - {x} == {}
    ensures IsLeast(x, s)
  {
    forall y | y in s
      ensures x <= y
    {
      assert y !in s - {x};
    }
  }

  lemma {:induction false} LeastOfRest(s: set<nat>, x: nat, m: nat)
    requires x in s && IsLeast(m, s - {x})
    ensures IsLeast(if x < m then x else m, s)
  {
    var least := if x < m then x else m;
    forall y | y in s
      ensures least <= y
    {
      if y != x {
        assert y in s - {x};
      }
    }
  }

  lemma {:induction false} HasLeast(s: set<nat>)
    requires s != {}
    ensures exists m :: IsLeast(m, s)
    decreases |s|
  {
    var x :| x in s;
    if s - {x} == {} {
      OnlyElementLeast(s, x);
    } else {
      HasLeast(s - {x});
      var m :| IsLeast(m, s - {x});
      LeastOfRest(s, x, m);
    }
  }

  /** The least element of a non-empty set. */
  function Least(s: set<nat>): (m: nat)
    requires s != {}
    ensures m in s && forall y | y in s :: m <= y
  {
    HasLeast(s);
    var m :| IsLeast(m, s);
    m
  }

  /** sorted(list(s)): every element of s once, in increasing order. */
  function Sorted(s: set<nat>): (r: seq<nat>)
    ensures Increasing(r)
    ensures |r| == |s|
    ensures forall i | 0 <= i < |r| :: r[i] in s
    ensures forall x | x in s :: x in r
    decreases |s|
  {
    if s == {} then []
    else
      var m := Least(s);
      [m] + Sorted(s - {m})
  }

  /** The map the script builds from a list of old indices: the i-th of them becomes i + 1. */
  function Numbering(sorted: seq<nat>): map<nat, nat> {
    if sorted == [] then map[]
    else Numbering(sorted[..|sorted| - 1])[sorted[|sorted| - 1] := |sorted|]
  }

  /** On a sorted list the map sends exactly the listed indices, the one at position i to i + 1. */
  lemma {:induction false} NumberingAt(sorted: seq<nat>)
    requires Increasing(sorted)
    ensures Numbering(sorted).Keys == set x | x in sorted
    ensures forall i | 0 <= i < |sorted| :: Numbering(sorted)[sorted[i]] == i + 1
  {
    if sorted != [] {
      var n := |sorted| - 1;
      var init := sorted[..n];
      NumberingAt(init);
      forall i | 0 <= i < |sorted|
        ensures sorted[i] in Numbering(sorted) && Numbering(sorted)[sorted[i]] == i + 1
      {
        if i < n {
          assert init[i] == sorted[i];
        }
      }
      forall x | x in sorted
        ensures x in Numbering(sorted)
      {
        var i :| 0 <= i < |sorted| && sorted[i] == x;
      }
      forall x | x in Numbering(sorted)
        ensures x in sorted
      {
        if x != sorted[n] {
          assert x in init;
        }
      }
    }
  }

  /**
   * The new numbers of a sorted list are 1 to its length, given in the
   * order of the old indices.
   */
  lemma {:induction false} NumberingOrder(sorted: seq<nat>)
    requires Increasing(sorted)
    ensures forall x, y | x in Numbering(sorted) && y in Numbering(sorted) :: x < y <==> Numbering(sorted)[x] < Numbering(sorted)[y]
    ensures forall x | x in Numbering(sorted) :: 1 <= Numbering(sorted)[x] <= |sorted|
  {
    var m := Numbering(sorted);
    NumberingAt(sorted);
    forall x | x in m
      ensures exists i | 0 <= i < |sorted| :: sorted[i] == x && m[x] == i + 1
    {
      assert x in sorted;
    }
  }

  /** maps[kind][unique[i]] = i + 1 for every i. */
  method Renumber(sorted: seq<nat>) returns (m: map<nat, nat>)
    ensures m == Numbering(sorted)
  {
    m := map[];
    for i := 0 to |sorted|
      invariant m == Numbering(sorted[..i])
    {
      assert sorted[..i + 1][..i] == sorted[..i];
      m := m[sorted[i] := i + 1];
    }
    assert sorted[..|sorted|] == sorted;
  }

  // ---------------------------------------------------------------------
  // Rewriting a face with the new numbers

  /** maps["v"], maps["vt"], maps["vn"]: old index to new number. */
  datatype Maps = Maps(v: map<nat, nat>, vt: map<nat, nat>, vn: map<nat, nat>)

  /** Every index the reference names has a new number (no KeyError). */
  predicate Covers(ms: Maps, r: Ref) {
    && (r.v.Some? ==> r.v.value in ms.v)
    && (r.vt.Some? ==> r.vt.value in ms.vt)
    && (r.vn.Some? ==> r.vn.value in ms.vn)
  }

  /**
   * maps[kind][x] for an index the map holds.  The script's own maps hold
   * every index its faces use (MapsCover), so the 0 of a missing index is
   * never reached by split().
   */
  function New(m: map<nat, nat>, x: nat): nat {
    if x in m then m[x] else 0
  }

  /** The same reference with every index replaced by its new number. */
  function Renumbered(ms: Maps, r: Ref): Ref {
    Ref(if r.v.Some? then Some(New(ms.v, r.v.value)) else None,
        if r.vt.Some? then Some(New(ms.vt, r.vt.value)) else None,
        if r.vn.Some? then Some(New(ms.vn, r.vn.value)) else None)
  }

  /** The new text of a corner: its new numbers with the separators of its shape; "" for a corner of another count. */
  function NewCorner(ms: Maps, word: string): string {
    var data := Ints(word);
    if |data| == 1 then NatText(New(ms.v, data[0]))
    else if |data| == 3 then NatText(New(ms.v, data[0])) + "/" + NatText(New(ms.vt, data[1])) + "/" + NatText(New(ms.vn, data[2]))
    else if |data| == 2 then
      if HasDoubleSlash(word) then NatText(New(ms.v, data[0])) + "//" + NatText(New(ms.vn, data[1]))
      else NatText(New(ms.v, data[0])) + "/" + NatText(New(ms.vt, data[1]))
    else ""
  }

  lemma {:induction false} NumeralIsWord(n: nat)
    ensures IsWord(NatText(n))
  {
    NatTextDigits(n);
  }

  lemma {:induction false} WordAppend(a: string, b: string)
    requires IsWord(a) && IsWord(b)
    ensures IsWord(a + b)
  {
    assert forall k | 0 <= k < |a + b| :: (a + b)[k] == if k < |a| then a[k] else b[k - |a|];
  }

  lemma {:induction false} PairWord(a: nat, b: nat, sep: string)
    requires sep == "/" || sep == "//"
    ensures IsWord(NatText(a) + sep + NatText(b))
  {
    NumeralIsWord(a);
    NumeralIsWord(b);
    WordAppend(NatText(a), sep);
    WordAppend(NatText(a) + sep, NatText(b));
  }

  lemma {:induction false} PairInts(a: nat, b: nat, sep: string)
    requires sep == "/" || sep == "//"
    ensures Ints(NatText(a) + sep + NatText(b)) == [a, b]
  {
    var ta, tb := NatText(a), NatText(b);
    assert ta + sep + tb == ta + (sep + tb);
    IntsAfterNumeral(a, sep + tb);
    if sep == "/" {
      IntsAfterSeparator('/', tb);
    } else {
      assert sep + tb == ['/'] + (['/'] + tb);
      IntsAfterSeparator('/', ['/'] + tb);
      IntsAfterSeparator('/', tb);
    }
    IntsOfNumeral(b);
  }

  lemma {:induction false} PairDoubleSlash(a: nat, b: nat, sep: string)
    requires sep == "/" || sep == "//"
    ensures HasDoubleSlash(NatText(a) + sep + NatText(b)) <==> sep == "//"
  {
    var ta, tb := NatText(a), NatText(b);
    NatTextDigits(a);
    NatTextDigits(b);
    NoSlashInDigits(ta);
    NoSlashInDigits(tb);
    DoubleSlashAppend(ta, sep);
    DoubleSlashAppend(ta + sep, tb);
  }

  lemma {:induction false} TripleWord(a: nat, b: nat, c: nat)
    ensures IsWord(NatText(a) + "/" + NatText(b) + "/" + NatText(c))
  {
    PairWord(a, b, "/");
    NumeralIsWord(c);
    WordAppend(NatText(a) + "/" + NatText(b), "/");
    WordAppend(NatText(a) + "/" + NatText(b) + "/", NatText(c));
  }

  lemma {:induction false} TripleInts(a: nat, b: nat, c: nat)
    ensures Ints(NatText(a) + "/" + NatText(b) + "/" + NatText(c)) == [a, b, c]
  {
    var ta, tb, tc := NatText(a), NatText(b), NatText(c);
    var rest := tb + "/" + tc;
    PairInts(b, c, "/");
    assert ta + "/" + tb + "/" + tc == ta + ("/" + rest);
    IntsAfterNumeral(a, "/" + rest);
    IntsAfterSeparator('/', rest);
  }

  lemma {:induction false} SingleRef(a: nat)
    ensures IsWord(NatText(a)) && RefOf(NatText(a)) == Ref(Some(a), None, None)
  {
    NumeralIsWord(a);
    IntsOfNumeral(a);
  }

  lemma {:induction false} PairRef(a: nat, b: nat, sep: string)
    requires sep == "/" || sep == "//"
    ensures var t := NatText(a) + sep + NatText(b);
      && IsWord(t)
      && RefOf(t) == if sep == "//" then Ref(Some(a), None, Some(b)) else Ref(Some(a), Some(b), None)
  {
    PairWord(a, b, sep);
    PairInts(a, b, sep);
    PairDoubleSlash(a, b, sep);
  }

  lemma {:induction false} TripleRef(a: nat, b: nat, c: nat)
    ensures var t := NatText(a) + "/" + NatText(b) + "/" + NatText(c);
      IsWord(t) && RefOf(t) == Ref(Some(a), Some(b), Some(c))
  {
    TripleWord(a, b, c);
    TripleInts(a, b, c);
  }

  /**
   * A rewritten corner is one word, and the script's own reading of it
   * finds the same shape ("v", "v/vt/vn", "v//vn" or "v/vt") with every
   * old index replaced by its new number.
   */
  lemma {:induction false} CornerRoundTrip(ms: Maps, word: string)
    requires Kept(word)
    ensures IsWord(NewCorner(ms, word))
    ensures RefOf(NewCorner(ms, word)) == Renumbered(ms, RefOf(word))
  {
    var data := Ints(word);
    if |data| == 1 {
      SingleRef(New(ms.v, data[0]));
    } else if |data| == 3 {
      TripleRef(New(ms.v, data[0]), New(ms.vt, data[1]), New(ms.vn, data[2]));
    } else if HasDoubleSlash(word) {
      PairRef(New(ms.v, data[0]), New(ms.vn, data[1]), "//");
    } else {
      PairRef(New(ms.v, data[0]), New(ms.vt, data[1]), "/");
    }
  }

  predicate AllCovered(ms: Maps, words: seq<string>) {
    forall j | 0 <= j < |words| :: Covers(ms, RefOf(words[j]))
  }

  /** What one corner adds to new_face: its new text and a space, or nothing for a corner of another count. */
  function CornerText(ms: Maps, word: string): string {
    if Kept(word) then NewCorner(ms, word) + " " else ""
  }

  /** new_face after the given corners: "f " and the text of each. */
  function FaceText(ms: Maps, words: seq<string>): string {
    if words == [] then "f "
    else FaceText(ms, words[..|words| - 1]) + CornerText(ms, words[|words| - 1])
  }

  /** The line written for a face. */
  function NewFace(ms: Maps, face: string): string {
    FaceText(ms, Arguments(face)) + "\n"
  }

  /** The corners the script rewrites, in order. */
  function KeptWords(words: seq<string>): seq<string> {
    if words == [] then []
    else KeptWords(words[..|words| - 1]) + if Kept(words[|words| - 1]) then [words[|words| - 1]] else []
  }

  /** The new texts of the kept corners, in order. */
  function NewWords(ms: Maps, words: seq<string>): seq<string> {
    if words == [] then []
    else
      var w := words[|words| - 1];
      NewWords(ms, words[..|words| - 1]) + if Kept(w) then [NewCorner(ms, w)] else []
  }

  /** The k-th new word is the k-th kept corner rewritten, which reads back renumbered. */
  lemma {:induction false} NewWordsRead(ms: Maps, words: seq<string>)
    ensures |NewWords(ms, words)| == |KeptWords(words)|
    ensures forall k | 0 <= k < |KeptWords(words)| :: Kept(KeptWords(words)[k])
    ensures forall k | 0 <= k < |KeptWords(words)| ::
      IsWord(NewWords(ms, words)[k]) && RefOf(NewWords(ms, words)[k]) == Renumbered(ms, RefOf(KeptWords(words)[k]))
  {
    if words != [] {
      var init := words[..|words| - 1];
      var w := words[|words| - 1];
      NewWordsRead(ms, init);
      if Kept(w) {
        CornerRoundTrip(ms, w);
      }
    }
  }

  lemma {:induction false} JoinSnoc(ws: seq<string>, w: string)
    ensures Join(ws + [w]) == Join(ws) + [' '] + w
  {
    if ws == [] {
      assert ws + [w] == [w];
    } else {
      assert (ws + [w])[1..] == ws[1..] + [w];
      JoinSnoc(ws[1..], w);
    }
  }

  lemma {:induction false} SpacedSnoc(joined: string, c: string)
    ensures ("f" + joined + " ") + (c + " ") == "f" + (joined + [' '] + c) + " "
  {
  }

  /** new_face is "f", the new words joined by single spaces, and a trailing space. */
  lemma {:induction false} FaceTextJoin(ms: Maps, words: seq<string>)
    ensures FaceText(ms, words) == "f" + Join(NewWords(ms, words)) + " "
  {
    if words != [] {
      var init := words[..|words| - 1];
      var w := words[|words| - 1];
      FaceTextJoin(ms, init);
      var nw := NewWords(ms, init);
      if Kept(w) {
        var c := NewCorner(ms, w);
        assert FaceText(ms, words) == FaceText(ms, init) + (c + " ");
        assert NewWords(ms, words) == nw + [c];
        JoinSnoc(nw, c);
        SpacedSnoc(Join(nw), c);
      } else {
        EmptyAppended(FaceText(ms, init), "");
        EmptyAppended(nw, []);
        assert FaceText(ms, words) == FaceText(ms, init);
        assert NewWords(ms, words) == nw;
      }
    }
  }

  lemma {:induction false} ConsAppend<T>(xs: seq<T>, u: seq<T>)
    requires xs != []
    ensures [xs[0]] + (xs[1..] + u) == xs + u
  {
  }

  lemma {:induction false} InitLast<T>(xs: seq<T>)
    requires xs != []
    ensures xs[..|xs| - 1] + [xs[|xs| - 1]] == xs
  {
  }

  lemma {:induction false} AppendAssoc<T>(a: seq<T>, b: seq<T>, c: seq<T>, d: seq<T>)
    ensures (a + b + c) + d == a + b + (c + d)
  {
  }

  lemma {:induction false} EmptyAppended<T>(a: seq<T>, b: seq<T>)
    requires b == []
    ensures a + b == a
  {
  }

  lemma {:induction false} AppendEmpty<T>(a: seq<T>, b: seq<T>)
    requires a == []
    ensures a + b == b
  {
  }

  /** Joined words followed by blank text or nothing split back into the words. */
  lemma {:induction false} WordsOfJoinThen(ws: seq<string>, t: string)
    requires forall k | 0 <= k < |ws| :: IsWord(ws[k])
    requires t == [] || IsSpace(t[0])
    ensures Words(Join(ws) + t) == ws + Words(t)
  {
    var u := Words(t);
    if ws == [] {
      AppendEmpty(Join(ws), t);
      AppendEmpty(ws, u);
    } else {
      var w, tail := ws[0], ws[1..];
      var joined := Join(tail);
      var rest := joined + t;
      assert forall k | 0 <= k < |tail| :: tail[k] == ws[k + 1];
      WordsOfJoinThen(tail, t);
      assert rest == [] || IsSpace(rest[0]);
      WordsAfterSpacedWord(w, rest);
      assert Join(ws) == [' '] + w + joined;
      AppendAssoc([' '], w, joined, t);
      calc {
        Words(Join(ws) + t);
        Words([' '] + w + rest);
        [w] + Words(rest);
        [w] + (tail + u);
        { ConsAppend(ws, u); }
        ws + u;
      }
    }
  }

  lemma {:induction false} BlankEnd()
    ensures Words(" \n") == []
  {
    assert SkipSpace(" \n", 0) == 2;
  }

  /**
   * Read back with split(), the written face line starts with "f" and its
   * corners are the kept corners rewritten, in order; corners of any other
   * count are dropped.
   */
  lemma {:induction false} FaceRoundTrip(ms: Maps, face: string)
    ensures Keyword(NewFace(ms, face)) == "f"
    ensures Arguments(NewFace(ms, face)) == NewWords(ms, Arguments(face))
  {
    var ws := NewWords(ms, Arguments(face));
    NewWordsRead(ms, Arguments(face));
    FaceTextJoin(ms, Arguments(face));
    var t := Join(ws) + " \n";
    assert NewFace(ms, face) == "f" + t;
    WordsOfJoinThen(ws, " \n");
    BlankEnd();
    assert ws + [] == ws;
    WordsAfterWord("f", t);
  }

  /** One pass of the new_face loop: the text added for one corner. */
  method RewriteCorner(ms: Maps, word: string) returns (text: string)
    requires Covers(ms, RefOf(word))
    ensures text == CornerText(ms, word)
  {
    var data := Ints(word);
    if |data| == 1 {
      text := NatText(ms.v[data[0]]) + " ";
    } else if |data| == 3 {
      text := NatText(ms.v[data[0]]) + "/" + NatText(ms.vt[data[1]]) + "/" + NatText(ms.vn[data[2]]) + " ";
    } else if |data| == 2 {
      if HasDoubleSlash(word) {
        text := NatText(ms.v[data[0]]) + "//" + NatText(ms.vn[data[1]]) + " ";
      } else {
        text := NatText(ms.v[data[0]]) + "/" + NatText(ms.vt[data[1]]) + " ";
      }
    } else {
      text := "";
    }
  }

  /** The new_face loop over the corners of one face. */
  method RewriteFace(ms: Maps, face: string) returns (line: string)
    requires AllCovered(ms, Arguments(face))
    ensures line == NewFace(ms, face)
  {
    var corners := Arguments(face);
    var newFace := "f ";
    for j := 0 to |corners|
      invariant newFace == FaceText(ms, corners[..j])
    {
      var done := corners[..j + 1];
      assert done[..j] == corners[..j] && done[j] == corners[j];
      var text := RewriteCorner(ms, corners[j]);
      assert FaceText(ms, done) == FaceText(ms, corners[..j]) + text;
      newFace := newFace + text;
    }
    assert corners[..|corners|] == corners;
    line := newFace + "\n";
  }

  // ---------------------------------------------------------------------
  // Copying the used vertex lines

  /** vertices[kind][i] in Python: a negative i counts from the end. */
  predicate PyIndex(list: seq<string>, i: int) {
    -|list| <= i < |list|
  }

  function PyAt(list: seq<string>, i: int): string
    requires PyIndex(list, i)
  {
    if i >= 0 then list[i] else list[|list| + i]
  }

  predicate InRange(list: seq<string>, idx: seq<nat>) {
    forall i | 0 <= i < |idx| :: PyIndex(list, idx[i] as int - 1)
  }

  /** The lines written for the listed old indices: line x - 1 for each x. */
  function Copied(list: seq<string>, idx: seq<nat>): (r: seq<string>)
    requires InRange(list, idx)
    ensures |r| == |idx|
  {
    seq(|idx|, i requires 0 <= i < |idx| => PyAt(list, idx[i] as int - 1))
  }

  /**
   * The line an old index x names in the input is written at the position
   * of its new number: line Numbering[x] of the copied block is line x of
   * the input list.
   */
  lemma {:induction false} NewNumberNamesOldLine(list: seq<string>, sorted: seq<nat>, x: nat)
    requires Increasing(sorted) && InRange(list, sorted) && x in sorted
    ensures x in Numbering(sorted) && 1 <= Numbering(sorted)[x] <= |Copied(list, sorted)|
    ensures PyIndex(list, x - 1) && Copied(list, sorted)[Numbering(sorted)[x] - 1] == PyAt(list, x - 1)
  {
    NumberingAt(sorted);
    var i :| 0 <= i < |sorted| && sorted[i] == x;
  }

  /** for vertex in unique: f.write(vertices[kind][vertex - 1]) */
  method CopyLines(list: seq<string>, idx: seq<nat>) returns (out: seq<string>)
    requires InRange(list, idx)
    ensures out == Copied(list, idx)
  {
    out := [];
    for i := 0 to |idx|
      invariant |out| == i
      invariant forall j | 0 <= j < i :: out[j] == PyAt(list, idx[j] as int - 1)
    {
      var x: int := idx[i];
      out := out + [if x - 1 >= 0 then list[x - 1] else list[|list| + x - 1]];
    }
  }

  // ---------------------------------------------------------------------
  // Reading the file

  /**
   * What the reading loop leaves: the three vertex lists, the object names
   * in the order the objects dictionary keeps them, the face lines and the
   * other lines of each object, and the current object.
   */
  datatype Pieces = Pieces(v: seq<string>, vn: seq<string>, vt: seq<string>,
                           names: seq<string>, objects: map<string, seq<string>>,
                           extra: map<string, seq<string>>, current: string)

  const Nothing := Pieces([], [], [], [], map[], map[], "")

  /** line.startswith("o") */
  predicate IsObjectLine(line: string) {
    |line| > 0 && line[0] == 'o'
  }

  /** line.split()[1], or "" when there is no second word. */
  function ObjectName(line: string): string {
    var ws := Words(line);
    if |ws| >= 2 then ws[1] else ""
  }

  /** Where the reading loop puts a line. */
  datatype LineClass = ObjectLine(name: string) | VertexLine | NormalLine | TexCoordLine | FaceLine | OtherLine

  /**
   * An object line is one that starts with 'o'; any other line is sorted by
   * its first word: "v", "vn", "vt", "f", or anything else.  Words are split
   * on ASCII white space only (Vectors.IsSpace), not on every character
   * Python's str.split() treats as white space.
   */
  function ClassOf(line: string): LineClass {
    if IsObjectLine(line) then ObjectLine(ObjectName(line))
    else
      var start := Keyword(line);
      if start == "v" then VertexLine
      else if start == "vn" then NormalLine
      else if start == "vt" then TexCoordLine
      else if start == "f" then FaceLine
      else OtherLine
  }

  /**
   * The line is read without an exception: an object line has a second
   * word (IndexError), every other line a first one (IndexError on a
   * blank line), and a face line comes after an object line (KeyError).
   */
  predicate Readable(p: Pieces, line: string) {
    if IsObjectLine(line) then |Words(line)| >= 2
    else |Words(line)| >= 1 && (ClassOf(line) == FaceLine ==> p.current in p.objects)
  }

  /**
   * One pass of the reading loop for a line of class c.  The script as
   * written only creates the extra_info entry of an object on its first
   * other line, so that line is lost; with intended set, it is kept.
   */
  function StepAs(p: Pieces, line: string, c: LineClass, intended: bool): Pieces
    requires c == FaceLine ==> p.current in p.objects
  {
    match c
    case ObjectLine(name) =>
      p.(names := if name in p.objects then p.names else p.names + [name],
         objects := p.objects[name := []],
         current := name)
    case VertexLine => p.(v := p.v + [line])
    case NormalLine => p.(vn := p.vn + [line])
    case TexCoordLine => p.(vt := p.vt + [line])
    case FaceLine => p.(objects := p.objects[p.current := p.objects[p.current] + [line]])
    case OtherLine =>
      if p.current !in p.extra then p.(extra := p.extra[p.current := if intended then [line] else []])
      else p.(extra := p.extra[p.current := p.extra[p.current] + [line]])
  }

  function Step(p: Pieces, line: string, intended: bool): Pieces
    requires Readable(p, line)
  {
    StepAs(p, line, ClassOf(line), intended)
  }

  /** Every line of the file is read without an exception. */
  predicate AllReadable(lines: seq<string>, intended: bool)
    decreases |lines|, 0
  {
    lines == [] ||
    (AllReadable(lines[..|lines| - 1], intended) && Readable(ReadAll(lines[..|lines| - 1], intended), lines[|lines| - 1]))
  }

  /** The state after the reading loop over the lines. */
  function ReadAll(lines: seq<string>, intended: bool): Pieces
    requires AllReadable(lines, intended)
    decreases |lines|, 1
  {
    if lines == [] then Nothing
    else Step(ReadAll(lines[..|lines| - 1], intended), lines[|lines| - 1], intended)
  }

  lemma {:induction false} AllReadablePrefix(lines: seq<string>, n: nat, intended: bool)
    requires AllReadable(lines, intended) && n <= |lines|
    ensures AllReadable(lines[..n], intended)
    decreases |lines| - n
  {
    if n < |lines| {
      var init := lines[..|lines| - 1];
      AllReadablePrefix(init, n, intended);
      assert init[..n] == lines[..n];
    } else {
      assert lines[..n] == lines;
    }
  }

  /** The body of the reading loop, on the script's variables. */
  method ReadLine(p: Pieces, line: string, intended: bool) returns (q: Pieces)
    requires Readable(p, line)
    ensures q == Step(p, line, intended)
  {
    var v, vn, vt, names, objects, extra, current := p.v, p.vn, p.vt, p.names, p.objects, p.extra, p.current;
    if |line| > 0 && line[0] == 'o' {
      current := Words(line)[1];
      if current !in objects {
        names := names + [current];
      }
      objects := objects[current := []];
    } else {
      var start := Words(line)[0];
      if start == "v" {
        v := v + [line];
      } else if start == "vn" {
        vn := vn + [line];
      } else if start == "vt" {
        vt := vt + [line];
      } else if start == "f" {
        objects := objects[current := objects[current] + [line]];
      } else if current !in extra {
        extra := extra[current := if intended then [line] else []];
      } else {
        extra := extra[current := extra[current] + [line]];
      }
    }
    q := Pieces(v, vn, vt, names, objects, extra, current);
  }

  /** The for line in obj_file loop. */
  method Read(lines: seq<string>, intended: bool) returns (p: Pieces)
    requires AllReadable(lines, intended)
    ensures p == ReadAll(lines, intended)
  {
    p := Nothing;
    for i := 0 to |lines|
      invariant AllReadable(lines[..i], intended)
      invariant p == ReadAll(lines[..i], intended)
    {
      assert lines[..i + 1][..i] == lines[..i];
      AllReadablePrefix(lines, i + 1, intended);
      p := ReadLine(p, lines[i], intended);
    }
    assert lines[..|lines|] == lines;
  }

  // ---------------------------------------------------------------------
  // What the reading keeps, stated line by line

  /** The name of the last object line, or "" before the first one. */
  function Current(lines: seq<string>): string {
    if lines == [] then ""
    else match ClassOf(lines[|lines| - 1])
      case ObjectLine(name) => name
      case _ => Current(lines[..|lines| - 1])
  }

  /** The lines of class c, in file order. */
  function OfClass(lines: seq<string>, c: LineClass): seq<string> {
    if lines == [] then []
    else OfClass(lines[..|lines| - 1], c) + if ClassOf(lines[|lines| - 1]) == c then [lines[|lines| - 1]] else []
  }

  /** Some object line names the object. */
  predicate Declared(lines: seq<string>, name: string) {
    exists i | 0 <= i < |lines| :: ClassOf(lines[i]) == ObjectLine(name)
  }

  /** The face lines read while name is the current object, since the last object line naming it. */
  function FacesSince(lines: seq<string>, name: string): seq<string> {
    if lines == [] then []
    else
      var line := lines[|lines| - 1];
      var init := lines[..|lines| - 1];
      match ClassOf(line)
      case ObjectLine(m) => if m == name then [] else FacesSince(init, name)
      case FaceLine => FacesSince(init, name) + if Current(init) == name then [line] else []
      case _ => FacesSince(init, name)
  }

  /** The other lines read while name is the current object, anywhere in the file. */
  function Others(lines: seq<string>, name: string): seq<string> {
    if lines == [] then []
    else
      var line := lines[|lines| - 1];
      var init := lines[..|lines| - 1];
      Others(init, name) + if ClassOf(line) == OtherLine && Current(init) == name then [line] else []
  }

  predicate Distinct(names: seq<string>) {
    forall i, j | 0 <= i < j < |names| :: names[i] != names[j]
  }

  /** The vertex lists are the "v", "vn" and "vt" lines in file order. */
  predicate ListsTrack(p: Pieces, lines: seq<string>) {
    && p.current == Current(lines)
    && p.v == OfClass(lines, VertexLine) && p.vn == OfClass(lines, NormalLine) && p.vt == OfClass(lines, TexCoordLine)
  }

  /** The names are the declared objects, each once; each holds its faces since its last declaration. */
  ghost predicate ObjectsTrack(p: Pieces, lines: seq<string>) {
    && Distinct(p.names)
    && (forall n :: n in p.names <==> n in p.objects)
    && (forall n :: n in p.objects <==> Declared(lines, n))
    && (forall n | n in p.objects :: p.objects[n] == FacesSince(lines, n))
  }

  /** extra_info holds the other lines of each object: all of them when intended, all but the first as written. */
  ghost predicate ExtraTrack(p: Pieces, lines: seq<string>, intended: bool) {
    && (forall n :: n in p.extra <==> Others(lines, n) != [])
    && (forall n | n in p.extra :: p.extra[n] == if intended then Others(lines, n) else Others(lines, n)[1..])
  }

  ghost predicate Tracks(p: Pieces, lines: seq<string>, intended: bool) {
    ListsTrack(p, lines) && ObjectsTrack(p, lines) && ExtraTrack(p, lines, intended)
  }

  /** The reference functions one line further on. */
  lemma {:induction false} CurrentSnoc(lines: seq<string>, line: string)
    ensures Current(lines + [line]) == if ClassOf(line).ObjectLine? then ClassOf(line).name else Current(lines)
  {
    assert (lines + [line])[..|lines|] == lines;
  }

  lemma {:induction false} FacesSinceSnoc(lines: seq<string>, line: string, n: string)
    ensures FacesSince(lines + [line], n) ==
      match ClassOf(line)
      case ObjectLine(m) => if m == n then [] else FacesSince(lines, n)
      case FaceLine => FacesSince(lines, n) + if Current(lines) == n then [line] else []
      case _ => FacesSince(lines, n)
  {
    assert (lines + [line])[..|lines|] == lines;
  }

  lemma {:induction false} OthersSnoc(lines: seq<string>, line: string, n: string)
    ensures Others(lines + [line], n) == Others(lines, n) + if ClassOf(line) == OtherLine && Current(lines) == n then [line] else []
  {
    assert (lines + [line])[..|lines|] == lines;
  }

  lemma {:induction false} DeclaredSnoc(lines: seq<string>, line: string, n: string)
    ensures Declared(lines + [line], n) <==> Declared(lines, n) || ClassOf(line) == ObjectLine(n)
  {
    var all := lines + [line];
    assert all[|lines|] == line;
    if Declared(all, n) {
      var i :| 0 <= i < |all| && ClassOf(all[i]) == ObjectLine(n);
      if i < |lines| {
        assert all[i] == lines[i];
      }
    }
    if Declared(lines, n) {
      var i :| 0 <= i < |lines| && ClassOf(lines[i]) == ObjectLine(n);
      assert all[i] == lines[i];
    }
  }

  lemma {:induction false} OfClassSnoc(lines: seq<string>, line: string, c: LineClass)
    ensures OfClass(lines + [line], c) == OfClass(lines, c) + if ClassOf(line) == c then [line] else []
  {
    assert (lines + [line])[..|lines|] == lines;
  }

  lemma {:induction false} ListsStep(p: Pieces, lines: seq<string>, line: string, c: LineClass, intended: bool)
    requires ListsTrack(p, lines) && c == ClassOf(line) && (c == FaceLine ==> p.current in p.objects)
    ensures ListsTrack(StepAs(p, line, c, intended), lines + [line])
  {
    CurrentSnoc(lines, line);
    OfClassSnoc(lines, line, VertexLine);
    OfClassSnoc(lines, line, NormalLine);
    OfClassSnoc(lines, line, TexCoordLine);
  }

  lemma {:induction false} ObjectsStep(p: Pieces, lines: seq<string>, line: string, c: LineClass, intended: bool)
    requires ObjectsTrack(p, lines) && p.current == Current(lines)
    requires c == ClassOf(line) && (c == FaceLine ==> p.current in p.objects)
    ensures ObjectsTrack(StepAs(p, line, c, intended), lines + [line])
  {
    var q := StepAs(p, line, c, intended);
    if c.ObjectLine? {
      var name := c.name;
      assert q.objects == p.objects[name := []];
      assert q.names == if name in p.objects then p.names else p.names + [name];
      if name !in p.objects {
        assert name !in p.names;
        forall i, j | 0 <= i < j < |q.names|
          ensures q.names[i] != q.names[j]
        {
          if j < |p.names| {
            assert q.names[i] == p.names[i] && q.names[j] == p.names[j];
          } else {
            assert q.names[i] == p.names[i];
          }
        }
        forall n
          ensures n in q.names <==> n in q.objects
        {
          assert n in q.names <==> n in p.names || n == name;
        }
      }
    } else if c == FaceLine {
      assert q.objects == p.objects[p.current := p.objects[p.current] + [line]];
      assert q.names == p.names;
    } else {
      assert q.objects == p.objects && q.names == p.names;
    }
    forall n
      ensures n in q.objects <==> Declared(lines + [line], n)
    {
      DeclaredSnoc(lines, line, n);
    }
    forall n | n in q.objects
      ensures q.objects[n] == FacesSince(lines + [line], n)
    {
      FacesSinceSnoc(lines, line, n);
    }
  }

  lemma {:induction false} ExtraStep(p: Pieces, lines: seq<string>, line: string, c: LineClass, intended: bool)
    requires ExtraTrack(p, lines, intended) && p.current == Current(lines)
    requires c == ClassOf(line) && (c == FaceLine ==> p.current in p.objects)
    ensures ExtraTrack(StepAs(p, line, c, intended), lines + [line], intended)
  {
    var q := StepAs(p, line, c, intended);
    forall n
      ensures n in q.extra <==> Others(lines + [line], n) != []
      ensures n in q.extra ==> q.extra[n] == if intended then Others(lines + [line], n) else Others(lines + [line], n)[1..]
    {
      ExtraNameStep(p, lines, line, c, intended, n);
    }
  }

  /** The extra_info entry of one name after one more line. */
  lemma {:induction false} ExtraNameStep(p: Pieces, lines: seq<string>, line: string, c: LineClass, intended: bool, n: string)
    requires ExtraTrack(p, lines, intended) && p.current == Current(lines)
    requires c == ClassOf(line) && (c == FaceLine ==> p.current in p.objects)
    ensures var q, o := StepAs(p, line, c, intended), Others(lines + [line], n);
      && (n in q.extra <==> o != [])
      && (n in q.extra ==> q.extra[n] == if intended then o else o[1..])
  {
    OthersSnoc(lines, line, n);
    if c == OtherLine && n == p.current {
      ExtendEntry(p.extra, n, Others(lines, n), line, intended);
    }
  }

  /** extra_info[n] after one more other line for n, as written and as intended. */
  lemma {:induction false} ExtendEntry(extra: map<string, seq<string>>, n: string, o: seq<string>, line: string, intended: bool)
    requires (n in extra <==> o != []) && (n in extra ==> extra[n] == if intended then o else o[1..])
    ensures var e := if n !in extra then extra[n := if intended then [line] else []] else extra[n := extra[n] + [line]];
      n in e && e[n] == if intended then o + [line] else (o + [line])[1..]
  {
    if n in extra {
      assert (o + [line])[1..] == o[1..] + [line];
    }
  }

  /**
   * After reading, the vertex lists are the "v", "vn" and "vt" lines in
   * file order; the objects are the declared names, each once, in order of
   * first declaration, each holding the face lines since its last
   * declaration; and extra_info holds the other lines read under each
   * object, all of them when intended, all but the first as written.
   */
  lemma {:induction false} ReadTracks(lines: seq<string>, intended: bool)
    requires AllReadable(lines, intended)
    ensures Tracks(ReadAll(lines, intended), lines, intended)
  {
    if lines != [] {
      var init, line := lines[..|lines| - 1], lines[|lines| - 1];
      ReadTracks(init, intended);
      TracksStep(ReadAll(init, intended), init, line, intended);
      InitLast(lines);
    }
  }

  /** One more line read keeps the state in step with the lines read so far. */
  lemma {:induction false} TracksStep(p: Pieces, lines: seq<string>, line: string, intended: bool)
    requires Tracks(p, lines, intended) && Readable(p, line)
    ensures Tracks(Step(p, line, intended), lines + [line], intended)
  {
    var c := ClassOf(line);
    ListsStep(p, lines, line, c, intended);
    ObjectsStep(p, lines, line, c, intended);
    ExtraStep(p, lines, line, c, intended);
  }

  /** As written: an object with other lines gets one fewer of them than it has; the first is lost. */
  lemma {:induction false} FirstOtherLineDropped(lines: seq<string>, name: string)
    requires AllReadable(lines, false) && Others(lines, name) != []
    ensures name in ReadAll(lines, false).extra
    ensures ReadAll(lines, false).extra[name] == Others(lines, name)[1..]
    ensures |ReadAll(lines, false).extra[name]| == |Others(lines, name)| - 1
  {
    ReadTracks(lines, false);
  }

  /** Intended: every other line read under an object is kept for it, in order. */
  lemma {:induction false} OtherLinesKept(lines: seq<string>, name: string)
    requires AllReadable(lines, true) && Others(lines, name) != []
    ensures name in ReadAll(lines, true).extra
    ensures ReadAll(lines, true).extra[name] == Others(lines, name)
  {
    ReadTracks(lines, true);
  }

  // ---------------------------------------------------------------------
  // Writing one object

  /** unique_vs, unique_vts, unique_vns after sorting. */
  function Unique(faces: seq<string>, k: Kind): seq<nat> {
    Sorted(Referenced(faces, k))
  }

  function MapsOf(faces: seq<string>): Maps {
    Maps(Numbering(Unique(faces, V)), Numbering(Unique(faces, VT)), Numbering(Unique(faces, VN)))
  }

  /** Every corner of every face of the object has its new numbers: the maps never raise KeyError. */
  lemma {:induction false} MapsCover(faces: seq<string>, i: nat)
    requires i < |faces|
    ensures AllCovered(MapsOf(faces), Arguments(faces[i]))
  {
    var ms := MapsOf(faces);
    NumberingAt(Unique(faces, V));
    NumberingAt(Unique(faces, VT));
    NumberingAt(Unique(faces, VN));
    forall j | 0 <= j < |Arguments(faces[i])|
      ensures Covers(ms, RefOf(Arguments(faces[i])[j]))
    {
      var r := RefOf(Arguments(faces[i])[j]);
      if r.v.Some? {
        CornerReferenced(faces, i, j, V);
      }
      if r.vt.Some? {
        CornerReferenced(faces, i, j, VT);
      }
      if r.vn.Some? {
        CornerReferenced(faces, i, j, VN);
      }
    }
  }

  predicate FacesCovered(ms: Maps, faces: seq<string>) {
    forall i | 0 <= i < |faces| :: AllCovered(ms, Arguments(faces[i]))
  }

  lemma {:induction false} MapsCoverAll(faces: seq<string>)
    ensures FacesCovered(MapsOf(faces), faces)
  {
    forall i | 0 <= i < |faces|
      ensures AllCovered(MapsOf(faces), Arguments(faces[i]))
    {
      MapsCover(faces, i);
    }
  }

  /** The face lines written for the faces, in order. */
  function NewFaces(ms: Maps, faces: seq<string>): (r: seq<string>)
    ensures |r| == |faces|
  {
    seq(|faces|, i requires 0 <= i < |faces| => NewFace(ms, faces[i]))
  }

  /**
   * The object can be written: it has an extra_info entry (KeyError
   * otherwise) and every index its faces use names a line of its list
   * (IndexError otherwise; 0 reads the last line, as Python's [-1] does).
   */
  predicate Writable(p: Pieces, name: string) {
    && name in p.objects && name in p.extra
    && (forall x | x in Referenced(p.objects[name], V) :: PyIndex(p.v, x - 1))
    && (forall x | x in Referenced(p.objects[name], VT) :: PyIndex(p.vt, x - 1))
    && (forall x | x in Referenced(p.objects[name], VN) :: PyIndex(p.vn, x - 1))
  }

  lemma {:induction false} UniqueInRange(list: seq<string>, faces: seq<string>, k: Kind)
    requires forall x | x in Referenced(faces, k) :: PyIndex(list, x - 1)
    ensures InRange(list, Unique(faces, k))
  {
  }

  /** The blocks of an object's file, in the order they are written. */
  datatype Layout = Layout(extra: seq<string>, v: seq<string>, vt: seq<string>, vn: seq<string>, faces: seq<string>)

  function Lines(l: Layout): seq<string> {
    l.extra + l.v + l.vt + l.vn + l.faces
  }

  function Block(l: Layout, k: Kind): seq<string> {
    match k
    case V => l.v
    case VT => l.vt
    case VN => l.vn
  }

  /** Where the block of kind k starts. */
  function Start(l: Layout, k: Kind): nat {
    |l.extra| + (if k == V then 0 else |l.v|) + (if k == VN then |l.vt| else 0)
  }

  /** Where the face block starts. */
  function FacesStart(l: Layout): nat {
    |l.extra| + |l.v| + |l.vt| + |l.vn|
  }

  lemma {:induction false} LineInBlock(l: Layout, k: Kind, j: nat)
    requires j < |Block(l, k)|
    ensures Start(l, k) + j < |Lines(l)| && Lines(l)[Start(l, k) + j] == Block(l, k)[j]
  {
    var e, a, b, c, f := l.extra, l.v, l.vt, l.vn, l.faces;
    FiveBlocks(e, a, b, c, f);
    match k {
      case V => InBlock(e, a, b + c + f, j);
      case VT => InBlock(e + a, b, c + f, j);
      case VN => InBlock(e + a + b, c, f, j);
    }
  }

  lemma {:induction false} LineInFaces(l: Layout, i: nat)
    requires i < |l.faces|
    ensures FacesStart(l) + i < |Lines(l)| && Lines(l)[FacesStart(l) + i] == l.faces[i]
  {
    FiveBlocks(l.extra, l.v, l.vt, l.vn, l.faces);
    InBlock(l.extra + l.v + l.vt + l.vn, l.faces, [], i);
  }

  /** The blocks written for the object: its other lines, the used vertex lines of each kind, the faces. */
  function LayoutOf(p: Pieces, name: string): Layout
    requires Writable(p, name)
  {
    var faces := p.objects[name];
    UniqueInRange(p.v, faces, V);
    UniqueInRange(p.vt, faces, VT);
    UniqueInRange(p.vn, faces, VN);
    Layout(p.extra[name], Copied(p.v, Unique(faces, V)), Copied(p.vt, Unique(faces, VT)), Copied(p.vn, Unique(faces, VN)),
           NewFaces(MapsOf(faces), faces))
  }

  /** The lines of the file written for the object. */
  function ObjectFile(p: Pieces, name: string): seq<string>
    requires Writable(p, name)
  {
    Lines(LayoutOf(p, name))
  }

  lemma {:induction false} NewFacesSnoc(ms: Maps, faces: seq<string>, i: nat)
    requires i < |faces|
    ensures NewFaces(ms, faces[..i + 1]) == NewFaces(ms, faces[..i]) + [NewFace(ms, faces[i])]
  {
    var before, after := NewFaces(ms, faces[..i]), NewFaces(ms, faces[..i + 1]);
    forall j | 0 <= j <= i
      ensures after[j] == (before + [NewFace(ms, faces[i])])[j]
    {
      if j < i {
        assert faces[..i + 1][j] == faces[..i][j];
      }
    }
  }

  /** The loop writing the rewritten faces. */
  method RewriteFaces(ms: Maps, faces: seq<string>) returns (out: seq<string>)
    requires FacesCovered(ms, faces)
    ensures out == NewFaces(ms, faces)
  {
    out := [];
    for i := 0 to |faces|
      invariant out == NewFaces(ms, faces[..i])
    {
      var line := RewriteFace(ms, faces[i]);
      NewFacesSnoc(ms, faces, i);
      out := out + [line];
    }
    assert faces[..|faces|] == faces;
  }

  /** The with open(...) block for one object. */
  method WriteObject(p: Pieces, name: string) returns (out: seq<string>)
    requires Writable(p, name)
    ensures out == ObjectFile(p, name)
  {
    var faces := p.objects[name];
    var vs, vts, vns := CollectIndices(faces);
    var uv, uvt, uvn := Sorted(vs), Sorted(vts), Sorted(vns);
    var mv := Renumber(uv);
    var mvt := Renumber(uvt);
    var mvn := Renumber(uvn);
    var ms := Maps(mv, mvt, mvn);
    assert ms == MapsOf(faces);
    UniqueInRange(p.v, faces, V);
    UniqueInRange(p.vt, faces, VT);
    UniqueInRange(p.vn, faces, VN);
    MapsCoverAll(faces);
    out := p.extra[name];
    var lines := CopyLines(p.v, uv);
    out := out + lines;
    lines := CopyLines(p.vt, uvt);
    out := out + lines;
    lines := CopyLines(p.vn, uvn);
    out := out + lines;
    lines := RewriteFaces(ms, faces);
    out := out + lines;
  }

  lemma {:induction false} InBlock<T>(before: seq<T>, block: seq<T>, after: seq<T>, j: nat)
    requires j < |block|
    ensures |before| + j < |before + block + after|
    ensures (before + block + after)[|before| + j] == block[j]
  {
  }

  lemma {:induction false} FiveBlocks<T>(e: seq<T>, a: seq<T>, b: seq<T>, c: seq<T>, f: seq<T>)
    ensures e + a + b + c + f == e + a + (b + c + f)
    ensures e + a + b + c + f == (e + a) + b + (c + f)
    ensures e + a + b + c + f == (e + a + b) + c + f
    ensures e + a + b + c + f == (e + a + b + c) + f + []
  {
  }

  /** vertices[kind]: the list of lines of kind k. */
  function ListOf(p: Pieces, k: Kind): seq<string> {
    match k
    case V => p.v
    case VT => p.vt
    case VN => p.vn
  }

  /**
   * The new number y of the old index x leads back to the same line: x
   * names a line of the list, and line y of the file's block of kind k is
   * that line.
   */
  predicate Lands(l: Layout, list: seq<string>, k: Kind, x: nat, y: nat) {
    && 1 <= y
    && PyIndex(list, x - 1)
    && Start(l, k) + y - 1 < |Lines(l)|
    && Lines(l)[Start(l, k) + y - 1] == PyAt(list, x - 1)
  }

  /** The object's block of kind k holds the used lines of that kind, in index order. */
  lemma {:induction false} BlockIsCopied(p: Pieces, name: string, l: Layout, k: Kind)
    requires Writable(p, name) && l == LayoutOf(p, name)
    ensures InRange(ListOf(p, k), Unique(p.objects[name], k))
    ensures Block(l, k) == Copied(ListOf(p, k), Unique(p.objects[name], k))
  {
    UniqueInRange(ListOf(p, k), p.objects[name], k);
  }

  lemma {:induction false} LandsOf(l: Layout, list: seq<string>, k: Kind, x: nat, y: nat)
    requires 1 <= y <= |Block(l, k)| && PyIndex(list, x - 1) && Block(l, k)[y - 1] == PyAt(list, x - 1)
    ensures Lands(l, list, k, x, y)
  {
    LineInBlock(l, k, y - 1);
  }

  /** Where the old index x of kind k ends up: its new number lands on its own line. */
  lemma {:induction false} IndexLands(p: Pieces, name: string, l: Layout, k: Kind, x: nat)
    requires Writable(p, name) && l == LayoutOf(p, name) && x in Referenced(p.objects[name], k)
    ensures var m := Numbering(Unique(p.objects[name], k));
      x in m && m[x] <= |Unique(p.objects[name], k)| && Lands(l, ListOf(p, k), k, x, m[x])
  {
    var list, sorted := ListOf(p, k), Unique(p.objects[name], k);
    BlockIsCopied(p, name, l, k);
    assert x in sorted;
    CopiedLands(l, list, sorted, k, x);
  }

  /** A block copied from a sorted index list holds line x at x's new number. */
  lemma {:induction false} CopiedLands(l: Layout, list: seq<string>, sorted: seq<nat>, k: Kind, x: nat)
    requires Increasing(sorted) && InRange(list, sorted) && x in sorted && Block(l, k) == Copied(list, sorted)
    ensures x in Numbering(sorted) && Numbering(sorted)[x] <= |sorted| && Lands(l, list, k, x, Numbering(sorted)[x])
  {
    NewNumberNamesOldLine(list, sorted, x);
    LandsOf(l, list, k, x, Numbering(sorted)[x]);
  }

  /** Line FacesStart + i of an object's file is its i-th face rewritten. */
  lemma {:induction false} FaceLineAt(p: Pieces, name: string, l: Layout, i: nat)
    requires Writable(p, name) && l == LayoutOf(p, name) && i < |p.objects[name]|
    ensures FacesStart(l) + i < |Lines(l)|
    ensures Lines(l)[FacesStart(l) + i] == NewFace(MapsOf(p.objects[name]), p.objects[name][i])
  {
    LineInFaces(l, i);
  }

  /** The k-th kept corner of face i, read back from its line of the written file, is renumbered. */
  lemma {:induction false} CornerReadBack(p: Pieces, name: string, l: Layout, i: nat, k: nat)
    requires Writable(p, name) && l == LayoutOf(p, name) && i < |p.objects[name]|
    requires k < |KeptWords(Arguments(p.objects[name][i]))|
    ensures var faces, at := p.objects[name], FacesStart(l) + i;
      && at < |Lines(l)|
      && Keyword(Lines(l)[at]) == "f"
      && k < |Arguments(Lines(l)[at])|
      && RefOf(Arguments(Lines(l)[at])[k]) == Renumbered(MapsOf(faces), RefOf(KeptWords(Arguments(faces[i]))[k]))
  {
    var faces := p.objects[name];
    var ms := MapsOf(faces);
    FaceLineAt(p, name, l, i);
    FaceRoundTrip(ms, faces[i]);
    NewWordsRead(ms, Arguments(faces[i]));
  }

  /**
   * The whole round trip for one corner of the object's file l: the k-th
   * kept corner of face i, read back from the written file, names indices
   * of the same kinds ("v", "v/vt/vn", "v//vn" or "v/vt" is kept), and
   * following each of its new numbers into the file's block of that kind
   * gives the line its old number named in the input file.
   */
  lemma {:induction false} CornerResolves(p: Pieces, name: string, l: Layout, i: nat, k: nat)
    requires Writable(p, name) && l == LayoutOf(p, name) && i < |p.objects[name]|
    requires k < |KeptWords(Arguments(p.objects[name][i]))|
    ensures var faces, at := p.objects[name], FacesStart(l) + i;
      var before := RefOf(KeptWords(Arguments(faces[i]))[k]);
      && at < |Lines(l)|
      && Keyword(Lines(l)[at]) == "f"
      && k < |Arguments(Lines(l)[at])|
      && var after := RefOf(Arguments(Lines(l)[at])[k]);
      && forall kind: Kind ::
           && (Pick(before, kind).Some? <==> Pick(after, kind).Some?)
           && (Pick(after, kind).Some? ==> Lands(l, ListOf(p, kind), kind, Pick(before, kind).value, Pick(after, kind).value))
  {
    var faces := p.objects[name];
    CornerReadBack(p, name, l, i, k);
    var before := RefOf(KeptWords(Arguments(faces[i]))[k]);
    forall kind: Kind
      ensures var after := Renumbered(MapsOf(faces), before);
        && (Pick(before, kind).Some? <==> Pick(after, kind).Some?)
        && (Pick(after, kind).Some? ==> Lands(l, ListOf(p, kind), kind, Pick(before, kind).value, Pick(after, kind).value))
    {
      KeptReferenced(faces, i, k, kind);
      KindResolves(p, name, l, before, kind);
    }
  }

  /** One kind of index of a corner the object references: renumbered, it lands on its own line. */
  lemma {:induction false} KindResolves(p: Pieces, name: string, l: Layout, before: Ref, kind: Kind)
    requires Writable(p, name) && l == LayoutOf(p, name)
    requires Pick(before, kind).Some? ==> Pick(before, kind).value in Referenced(p.objects[name], kind)
    ensures var after := Renumbered(MapsOf(p.objects[name]), before);
      && (Pick(before, kind).Some? <==> Pick(after, kind).Some?)
      && (Pick(after, kind).Some? ==> Lands(l, ListOf(p, kind), kind, Pick(before, kind).value, Pick(after, kind).value))
  {
    if Pick(before, kind).Some? {
      IndexLands(p, name, l, kind, Pick(before, kind).value);
    }
  }

  /** The kept corners are corners of the face. */
  lemma {:induction false} KeptAreCorners(words: seq<string>, k: nat)
    requires k < |KeptWords(words)|
    ensures exists j | 0 <= j < |words| :: words[j] == KeptWords(words)[k]
  {
    var init := words[..|words| - 1];
    if k < |KeptWords(init)| {
      KeptAreCorners(init, k);
      var j :| 0 <= j < |init| && init[j] == KeptWords(init)[k];
      assert words[j] == init[j];
    } else {
      assert words[|words| - 1] == KeptWords(words)[k];
    }
  }

  /** What a kept corner names is referenced by the object. */
  lemma {:induction false} KeptReferenced(faces: seq<string>, i: nat, k: nat, kind: Kind)
    requires i < |faces| && k < |KeptWords(Arguments(faces[i]))|
    ensures var r := RefOf(KeptWords(Arguments(faces[i]))[k]);
      Pick(r, kind).Some? ==> Pick(r, kind).value in Referenced(faces, kind)
  {
    var words := Arguments(faces[i]);
    KeptAreCorners(words, k);
    var j :| 0 <= j < |words| && words[j] == KeptWords(words)[k];
    if Pick(RefOf(words[j]), kind).Some? {
      CornerReferenced(faces, i, j, kind);
    }
  }

  // ---------------------------------------------------------------------
  // The output directory and split()

  /** The position of the last '/' in s, if any. */
  function LastSlash(s: string): (r: Option<nat>)
    ensures r.Some? ==> r.value < |s| && s[r.value] == '/' && forall k | r.value < k < |s| :: s[k] != '/'
    ensures r.None? ==> forall k | 0 <= k < |s| :: s[k] != '/'
  {
    if s == [] then None
    else if s[|s| - 1] == '/' then Some(|s| - 1)
    else LastSlash(s[..|s| - 1])
  }

  /** filename.rsplit("/", 1)[0] + "/": a file name without '/' is taken whole, as if it were a directory. */
  function OutputDirectory(filename: string): string {
    match LastSlash(filename)
    case Some(i) => filename[..i] + "/"
    case None => filename + "/"
  }

  /** The directory of the input file: up to its last '/', or the working directory for a plain name. */
  function IntendedDirectory(filename: string): string {
    match LastSlash(filename)
    case Some(i) => filename[..i + 1]
    case None => ""
  }

  lemma {:induction false} LastSlashAppend(dir: string, name: string)
    requires forall k | 0 <= k < |name| :: name[k] != '/'
    ensures LastSlash(dir + name) == LastSlash(dir)
    decreases |name|
  {
    if name != [] {
      var s := dir + name;
      assert s[..|s| - 1] == dir + name[..|name| - 1];
      LastSlashAppend(dir, name[..|name| - 1]);
    } else {
      assert dir + name == dir;
    }
  }

  /** With a '/' in the path, the files go next to the input file. */
  lemma {:induction false} OutputNextToInput(dir: string, name: string)
    requires forall k | 0 <= k < |name| :: name[k] != '/'
    ensures OutputDirectory(dir + "/" + name) == dir + "/"
  {
    LastSlashAppend(dir + "/", name);
    assert (dir + "/" + name)[..|dir|] == dir;
  }

  /**
   * As written: for a plain file name the output directory is the input
   * file's own name plus '/', a path under a regular file, so the script's
   * first write fails with NotADirectoryError and nothing is written.
   */
  lemma {:induction false} PlainNameAsDirectory(name: string)
    requires forall k | 0 <= k < |name| :: name[k] != '/'
    ensures OutputDirectory(name) == name + "/"
  {
  }

  /** Intended: the files always go next to the input file, whether or not its name has a '/'. */
  lemma {:induction false} IntendedNextToInput(dir: string, name: string)
    requires dir == [] || dir[|dir| - 1] == '/'
    requires forall k | 0 <= k < |name| :: name[k] != '/'
    ensures IntendedDirectory(dir + name) == dir
  {
    LastSlashAppend(dir, name);
    if dir != [] {
      assert LastSlash(dir) == Some(|dir| - 1);
      assert (dir + name)[..|dir|] == dir;
    }
  }

  /** One written file: its path and its lines. */
  datatype OutFile = OutFile(path: string, lines: seq<string>)

  function Destination(filename: string, intended: bool): string {
    if intended then IntendedDirectory(filename) else OutputDirectory(filename)
  }

  /** The files written for the named objects, in order: each object's file next to the others in dir. */
  function Outputs(p: Pieces, dir: string, names: seq<string>): (r: seq<OutFile>)
    requires forall i | 0 <= i < |names| :: Writable(p, names[i])
    ensures |r| == |names|
  {
    seq(|names|, i requires 0 <= i < |names| => OutFile(dir + names[i] + ".obj", ObjectFile(p, names[i])))
  }

  lemma {:induction false} OutputsSnoc(p: Pieces, dir: string, names: seq<string>, i: nat)
    requires forall j | 0 <= j < |names| :: Writable(p, names[j])
    requires i < |names|
    ensures Outputs(p, dir, names[..i + 1]) == Outputs(p, dir, names[..i]) + [OutFile(dir + names[i] + ".obj", ObjectFile(p, names[i]))]
  {
    var before, after := Outputs(p, dir, names[..i]), Outputs(p, dir, names[..i + 1]);
    var last := OutFile(dir + names[i] + ".obj", ObjectFile(p, names[i]));
    forall j | 0 <= j <= i
      ensures after[j] == (before + [last])[j]
    {
      if j < i {
        assert names[..i + 1][j] == names[..i][j];
      }
    }
  }

  /**
   * split(filename) over the lines of the file: one output file per
   * object, in the order the objects were first declared.  With intended
   * unset this is the script as written; with it set, the first other line
   * of each object is kept and a plain file name writes next to itself.
   */
  method Split(filename: string, lines: seq<string>, intended: bool) returns (files: seq<OutFile>)
    requires AllReadable(lines, intended)
    requires var p := ReadAll(lines, intended);
      forall i | 0 <= i < |p.names| :: Writable(p, p.names[i])
    ensures var p := ReadAll(lines, intended);
      files == Outputs(p, Destination(filename, intended), p.names)
  {
    var p := Read(lines, intended);
    var filepath := if intended then IntendedDirectory(filename) else OutputDirectory(filename);
    files := [];
    for i := 0 to |p.names|
      invariant files == Outputs(p, filepath, p.names[..i])
    {
      var out := WriteObject(p, p.names[i]);
      OutputsSnoc(p, filepath, p.names, i);
      files := files + [OutFile(filepath + p.names[i] + ".obj", out)];
    }
    assert p.names[..|p.names|] == p.names;
  }

  lemma {:induction false} DistinctMiddles<T>(d: seq<T>, a: seq<T>, b: seq<T>, e: seq<T>)
    requires a != b
    ensures d + a + e != d + b + e
  {
    if |a| == |b| {
      var k :| 0 <= k < |a| && a[k] != b[k];
      assert (d + a + e)[|d| + k] == a[k];
      assert (d + b + e)[|d| + k] == b[k];
    } else {
      assert |d + a + e| != |d + b + e|;
    }
  }

  /** Distinct objects are written to distinct paths, so no file overwrites another. */
  lemma {:induction false} DistinctPaths(lines: seq<string>, intended: bool, filename: string, i: nat, j: nat)
    requires AllReadable(lines, intended)
    requires i < j < |ReadAll(lines, intended).names|
    ensures var p := ReadAll(lines, intended);
      Destination(filename, intended) + p.names[i] + ".obj" != Destination(filename, intended) + p.names[j] + ".obj"
  {
    ReadTracks(lines, intended);
    var p := ReadAll(lines, intended);
    DistinctMiddles(Destination(filename, intended), p.names[i], p.names[j], ".obj");
  }
}
