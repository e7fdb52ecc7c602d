/**
 * Text handling of the OBJ reader (src/ObjLoader.h, src/TriangleMesh.h):
 * the words `iss >> word` yields, the int that `iss >> v` reads,
 * replace_slash, face_type, parse_face and the directory of a file name.
 * The free functions of src/ObjLoader.h and the members of TriangleMesh
 * with the same names have the same text, and one definition here models
 * both.
 */
module ObjText {
  import opened Wrappers
  import opened Vectors

  // ---------------------------------------------------------------------
  // Words

  /** The first white-space character at or after i (or the end). */
  function WordEnd(s: string, i: nat): (j: nat)
    requires i <= |s|
    ensures i <= j <= |s|
    ensures forall k | i <= k < j :: !IsSpace(s[k])
    ensures j < |s| ==> IsSpace(s[j])
    decreases |s| - i
  {
    if i == |s| || IsSpace(s[i]) then i else WordEnd(s, i + 1)
  }

  /** A non-empty run of characters none of which is white space. */
  predicate IsWord(w: string) {
    |w| > 0 && forall k | 0 <= k < |w| :: !IsSpace(w[k])
  }

  /** The white-space separated words of s, in order: what `>>` into a std::string yields call after call. */
  function Words(s: string): (ws: seq<string>)
    ensures forall k | 0 <= k < |ws| :: IsWord(ws[k])
    decreases |s|
  {
    var i := SkipSpace(s, 0);
    if i == |s| then []
    else
      var j := WordEnd(s, i);
      [s[i..j]] + Words(s[j..])
  }

  /** `iss >> type` on a fresh stream: the first word, or "" when the line is blank. */
  function Keyword(line: string): string {
    var ws := Words(line);
    if |ws| > 0 then ws[0] else ""
  }

  /** The words after the keyword: what a loop of `iss >> fc` reads once `iss >> type` is done. */
  function Arguments(line: string): seq<string> {
    var ws := Words(line);
    if |ws| > 0 then ws[1..] else []
  }

  /** " w1 w2 ... wn": the words, each preceded by one space. */
  function Join(ws: seq<string>): (s: string)
    ensures ws != [] ==> |s| > 0 && s[0] == ' '
  {
    if ws == [] then "" else [' '] + ws[0] + Join(ws[1..])
  }

  /** WordEnd stops at the first white space after a run of other characters. */
  lemma {:induction false} WordEndAt(s: string, i: nat, j: nat)
    requires i <= j <= |s| && (j == |s| || IsSpace(s[j]))
    requires forall k | i <= k < j :: !IsSpace(s[k])
    ensures WordEnd(s, i) == j
    decreases j - i
  {
    if i < j {
      WordEndAt(s, i + 1, j);
    }
  }

  /** A word followed by the end or by white space is read whole. */
  lemma WordsAfterWord(w: string, s: string)
    requires IsWord(w) && (s == [] || IsSpace(s[0]))
    ensures Words(w + s) == [w] + Words(s)
  {
    var t := w + s;
    SkipSpacesTo(t, 0, 0);
    assert forall k | 0 <= k < |w| :: t[k] == w[k];
    WordEndAt(t, 0, |w|);
    assert t[0..|w|] == w && t[|w|..] == s;
    calc {
      Words(t);
      [t[0..|w|]] + Words(t[|w|..]);
      [w] + Words(s);
    }
  }

  lemma WordsAfterSpacedWord(w: string, s: string)
    requires IsWord(w) && (s == [] || IsSpace(s[0]))
    ensures Words([' '] + w + s) == [w] + Words(s)
  {
    var t := [' '] + w + s;
    var e := 1 + |w|;
    assert t[1] == w[0];
    SkipSpacesTo(t, 0, 1);
    assert forall k | 1 <= k < e :: t[k] == w[k - 1];
    WordEndAt(t, 1, e);
    assert t[1..e] == w && t[e..] == s;
    calc {
      Words(t);
      [t[1..e]] + Words(t[e..]);
      [w] + Words(s);
    }
  }

  /** Joining words with single spaces and splitting the result gives the words back. */
  lemma {:induction false} WordsOfJoin(ws: seq<string>)
    requires forall k | 0 <= k < |ws| :: IsWord(ws[k])
    ensures Words(Join(ws)) == ws
  {
    if ws != [] {
      WordsOfJoin(ws[1..]);
      WordsAfterSpacedWord(ws[0], Join(ws[1..]));
      assert [' '] + ws[0] + Join(ws[1..]) == Join(ws);
    }
  }

  /** A line made of a keyword and joined words has that keyword and those arguments. */
  lemma LineOfWords(key: string, ws: seq<string>)
    requires IsWord(key) && forall k | 0 <= k < |ws| :: IsWord(ws[k])
    ensures Keyword(key + Join(ws)) == key && Arguments(key + Join(ws)) == ws
  {
    WordsAfterWord(key, Join(ws));
    WordsOfJoin(ws);
  }

  // ---------------------------------------------------------------------
  // Decimal digits

  predicate IsDigit(c: char) { '0' <= c <= '9' }

  predicate AllDigits(s: string) { forall k | 0 <= k < |s| :: IsDigit(s[k]) }

  /** The end of the run of decimal digits starting at j. */
  function DigitsEnd(s: string, j: nat): (e: nat)
    requires j <= |s|
    ensures j <= e <= |s|
    decreases |s| - j
  {
    if j == |s| || !IsDigit(s[j]) then j else DigitsEnd(s, j + 1)
  }

  /** Value of a string of decimal digits. */
  function DecimalValue(s: string): nat {
    if s == [] then 0
    else DecimalValue(s[..|s| - 1]) * 10 + if IsDigit(s[|s| - 1]) then s[|s| - 1] as int - '0' as int else 0
  }

  function DigitChar(d: nat): char
    requires d < 10
  {
    ('0' as int + d) as char
  }

  /** The decimal text of n, without sign or leading zeros (str(n), operator<< on an int). */
  function NatText(n: nat): (s: string)
    ensures |s| > 0
  {
    if n < 10 then [DigitChar(n)] else NatText(n / 10) + [DigitChar(n % 10)]
  }

  lemma {:induction false} NatTextDigits(n: nat)
    ensures AllDigits(NatText(n))
  {
    if n >= 10 {
      NatTextDigits(n / 10);
    }
  }

  /** Reading the decimal text of n gives n back. */
  lemma {:induction false} DecimalOfNatText(n: nat)
    ensures DecimalValue(NatText(n)) == n
  {
    if n >= 10 {
      DecimalOfNatText(n / 10);
      var s := NatText(n);
      assert s[..|s| - 1] == NatText(n / 10);
    }
  }

  /** DigitsEnd stops at the first character that is not a digit. */
  lemma {:induction false} DigitsEndAt(s: string, j: nat, e: nat)
    requires j <= e <= |s| && (e == |s| || !IsDigit(s[e]))
    requires forall i | j <= i < e :: IsDigit(s[i])
    ensures DigitsEnd(s, j) == e
    decreases e - j
  {
    if j < e {
      DigitsEndAt(s, j + 1, e);
    }
  }

  // ---------------------------------------------------------------------
  // `iss >> v` into an int

  const IntMax: int := 0x7fff_ffff
  const IntMin: int := -0x8000_0000

  /** An input string stream: its text, the read position and the fail and eof flags. */
  datatype InStream = InStream(text: string, pos: nat, fail: bool, eof: bool)

  /** A stream over s with nothing read yet. */
  function Open(s: string): InStream {
    InStream(s, 0, false, false)
  }

  /**
   * operator>>(int&): a stream that failed or hit the end leaves the value
   * alone and fails; otherwise white space is skipped (hitting the end
   * fails and leaves the value), then an optional sign and the longest
   * run of decimal digits are read; no digit stores 0 and fails, a value
   * outside the int range stores the nearest bound and fails. Reaching
   * the end of the text sets eof.
   */
  function ExtractInt(st: InStream, v: int): (r: (InStream, int))
    requires st.pos <= |st.text|
    ensures r.0.text == st.text && st.pos <= r.0.pos <= |st.text|
    ensures r.1 == v || IntMin <= r.1 <= IntMax
    decreases |st.text| - st.pos
  {
    if st.fail || st.eof then (st.(fail := true), v)
    else if st.pos == |st.text| then (InStream(st.text, st.pos, true, true), v)
    else if IsSpace(st.text[st.pos]) then ExtractInt(st.(pos := st.pos + 1), v)
    else Number(st.text, st.pos)
  }

  /** The number read from position i on: an optional sign, then digits. */
  function Number(s: string, i: nat): (r: (InStream, int))
    requires i < |s|
    ensures r.0.text == s && i <= r.0.pos <= |s| && IntMin <= r.1 <= IntMax
  {
    var neg := s[i] == '-';
    var j := if neg || s[i] == '+' then i + 1 else i;
    var e := DigitsEnd(s, j);
    var st := InStream(s, e, e == j, e == |s|);
    if e == j then (st, 0) else Convert(st, neg, DecimalValue(s[j..e]))
  }

  /** The digits' value with its sign, or the nearest int bound (and a failure) when out of range. */
  function Convert(st: InStream, neg: bool, m: nat): (r: (InStream, int))
    ensures r.0.text == st.text && r.0.pos == st.pos && IntMin <= r.1 <= IntMax
  {
    if neg && m > -IntMin then (st.(fail := true), IntMin)
    else if !neg && m > IntMax then (st.(fail := true), IntMax)
    else (st, if neg then -(m as int) else m)
  }

  /** t is the decimal text of n, and n fits an int. */
  predicate Numeral(t: string, n: nat) {
    |t| > 0 && AllDigits(t) && DecimalValue(t) == n && n <= IntMax
  }

  lemma NatTextNumeral(n: nat)
    requires n <= IntMax
    ensures Numeral(NatText(n), n)
  {
    NatTextDigits(n);
    DecimalOfNatText(n);
  }

  /** t appears in s from position p on. */
  predicate Occurs(t: string, s: string, p: nat) {
    p + |t| <= |s| && forall k | 0 <= k < |t| :: s[p + k] == t[k]
  }

  /** A numeral at position p, followed by the end or white space, is read back exactly. */
  lemma NumberOfNumeral(s: string, p: nat, t: string, n: nat)
    requires Numeral(t, n) && Occurs(t, s, p)
    requires p + |t| < |s| ==> IsSpace(s[p + |t|])
    ensures Number(s, p) == (InStream(s, p + |t|, false, p + |t| == |s|), n)
  {
    assert forall i | p <= i < p + |t| :: s[i] == t[i - p];
    assert s[p..p + |t|] == t;
    DigitsEndAt(s, p, p + |t|);
    var st := InStream(s, p + |t|, false, p + |t| == |s|);
    calc {
      Number(s, p);
      Convert(st, false, DecimalValue(s[p..p + |t|]));
      Convert(st, false, n);
      (st, n);
    }
  }

  /**
   * count reads into one int variable that starts at v: each read starts
   * from the stream and the value the previous one left.
   */
  function Reads(st: InStream, v: int, count: nat): (r: seq<int>)
    requires st.pos <= |st.text|
    ensures |r| == count
    decreases count
  {
    if count == 0 then []
    else
      var x := ExtractInt(st, v);
      [x.1] + Reads(x.0, x.1, count - 1)
  }

  // ---------------------------------------------------------------------
  // replace_slash

  /** replace_slash: the same string with every '/' turned into a space. */
  function ReplaceSlash(s: string): (r: string)
    ensures |r| == |s|
    ensures forall i | 0 <= i < |s| :: r[i] == if s[i] == '/' then ' ' else s[i]
  {
    if s == [] then []
    else ReplaceSlash(s[..|s| - 1]) + [if s[|s| - 1] == '/' then ' ' else s[|s| - 1]]
  }

  // ---------------------------------------------------------------------
  // face_type

  /** Number of '/' characters in s. */
  function SlashCount(s: string): (n: nat)
    ensures n <= |s|
  {
    if s == [] then 0 else SlashCount(s[..|s| - 1]) + if s[|s| - 1] == '/' then 1 else 0
  }

  /** line.find("//") != npos. */
  predicate HasDoubleSlash(s: string)
    decreases |s|
  {
    |s| >= 2 && ((s[|s| - 2] == '/' && s[|s| - 1] == '/') || HasDoubleSlash(s[..|s| - 1]))
  }

  /**
   * face_type: 2 for "v//vn" corners (any "//"), 3 for "v" corners (no
   * '/'), then by the number of slashes: 6 for a triangle of "v/vt/vn"
   * corners (0), 3 for a triangle of "v/vt" corners (1), anything else is
   * unknown (-1).
   */
  function FaceType(line: string): int {
    if HasDoubleSlash(line) then 2
    else if '/' !in line then 3
    else if SlashCount(line) == 6 then 0
    else if SlashCount(line) == 3 then 1
    else -1
  }

  /** '/' occurs in s exactly when the count of slashes is positive. */
  lemma {:induction false} SlashCountPositive(s: string)
    ensures '/' in s <==> SlashCount(s) > 0
  {
    if s != [] {
      SlashCountPositive(s[..|s| - 1]);
      assert s == s[..|s| - 1] + [s[|s| - 1]];
    }
  }

  lemma {:induction false} SlashCountAppend(a: string, b: string)
    ensures SlashCount(a + b) == SlashCount(a) + SlashCount(b)
    decreases |b|
  {
    if b != [] {
      SlashCountAppend(a, b[..|b| - 1]);
      assert (a + b)[..|a + b| - 1] == a + b[..|b| - 1];
    } else {
      assert a + b == a;
    }
  }

  lemma {:induction false} DoubleSlashAppend(a: string, b: string)
    ensures HasDoubleSlash(a + b)
       <==> HasDoubleSlash(a) || HasDoubleSlash(b) || (|a| > 0 && |b| > 0 && a[|a| - 1] == '/' && b[0] == '/')
    decreases |b|
  {
    if b == [] {
      assert a + b == a;
    } else {
      DoubleSlashAppend(a, b[..|b| - 1]);
      assert (a + b)[..|a + b| - 1] == a + b[..|b| - 1];
      if |b| == 1 {
        assert b[..0] == [];
      }
    }
  }

  lemma NoSlashInDigits(s: string)
    requires AllDigits(s)
    ensures SlashCount(s) == 0 && !HasDoubleSlash(s)
  {
    SlashCountPositive(s);
    if HasDoubleSlash(s) {
      NoDoubleSlashWithoutSlash(s);
    }
  }

  lemma {:induction false} NoDoubleSlashWithoutSlash(s: string)
    requires HasDoubleSlash(s)
    ensures '/' in s
    decreases |s|
  {
    if !(s[|s| - 2] == '/' && s[|s| - 1] == '/') {
      NoDoubleSlashWithoutSlash(s[..|s| - 1]);
    }
  }

  /** ObjLoader.h face_type, with its counting loop. */
  method ClassifyFace(line: string) returns (t: int)
    ensures t == FaceType(line)
  {
    if HasDoubleSlash(line) {
      return 2;
    }
    if '/' !in line {
      return 3;
    }
    var count := 0;
    for i := 0 to |line|
      invariant count == SlashCount(line[..i])
    {
      assert line[..i + 1][..i] == line[..i];
      if line[i] == '/' {
        count := count + 1;
      }
    }
    assert line[..|line|] == line;
    if count == 6 {
      t := 0;
    } else if count == 3 {
      t := 1;
    } else {
      t := -1;
    }
  }

  // ---------------------------------------------------------------------
  // parse_face

  /**
   * The three ints one corner word gives: the word with its slashes
   * replaced by spaces is read three times into the same int. A read
   * after the text is used up leaves the value as it was, so "7" gives
   * 7, 7, 7 and "7 9" (from "7//9") gives 7, 9, 9. The source's `int v`
   * starts uninitialised; here it starts at 0.
   */
  function CornerInts(word: string): (r: seq<int>)
    ensures |r| == 3
  {
    Reads(Open(ReplaceSlash(word)), 0, 3)
  }

  /** The ints pushed for the corner words, three per word, in order. */
  function Corners(words: seq<string>): (face: seq<int>)
    ensures |face| == 3 * |words|
  {
    if words == [] then [] else Corners(words[..|words| - 1]) + CornerInts(words[|words| - 1])
  }

  /**
   * The type-1 fix-up needs slots 2, 5 and 8; with fewer than three
   * corners the source writes past the end of the vector.
   */
  predicate FaceDefined(line: string) {
    FaceType(line) == 1 ==> |Arguments(line)| >= 3
  }

  /** Type 1 ("v/vt") corners take their normal index from the vertex index. */
  function FixUp(face: seq<int>, ftype: int): (r: seq<int>)
    requires ftype == 1 ==> |face| >= 9
    ensures |r| == |face|
  {
    if ftype == 1 then face[2 := face[0]][5 := face[3]][8 := face[6]] else face
  }

  /** The face parse_face builds from a line. */
  function FaceIndices(line: string): (face: seq<int>)
    requires FaceDefined(line)
    ensures |face| == 3 * |Arguments(line)|
  {
    FixUp(Corners(Arguments(line)), FaceType(line))
  }

  /** parse_face's loop over the corner words: three reads of each word, pushed in order. */
  method ReadCorners(words: seq<string>) returns (face: seq<int>)
    ensures face == Corners(words)
  {
    face := [];
    for k := 0 to |words|
      invariant face == Corners(words[..k])
    {
      assert words[..k + 1][..k] == words[..k];
      face := face + CornerInts(words[k]);
    }
    assert words[..|words|] == words;
  }

  /** parse_face: three ints per corner word, then the type-1 fix-up. */
  method ParseFace(line: string) returns (face: seq<int>)
    requires FaceDefined(line)
    ensures face == FaceIndices(line)
  {
    face := ReadCorners(Arguments(line));
    var ftype := ClassifyFace(line);
    if ftype == 1 {
      assert |face| >= 9;
      face := face[2 := face[0]];
      face := face[5 := face[3]];
      face := face[8 := face[6]];
    }
  }

  // ---------------------------------------------------------------------
  // Faces as an exporter writes them

  /** One corner's 1-based vertex, texture and normal indices. */
  datatype Corner = Corner(v: nat, vt: nat, vn: nat)

  /** The four corner formats of face_type: "v/vt/vn" (0), "v/vt" (1), "v//vn" (2) and "v" (3). */
  datatype Format = Full | NoNormal | NoTexture | VertexOnly

  predicate Fits(c: Corner) {
    c.v <= IntMax && c.vt <= IntMax && c.vn <= IntMax
  }

  function CornerWord(c: Corner, f: Format): string {
    match f
    case Full => NatText(c.v) + "/" + NatText(c.vt) + "/" + NatText(c.vn)
    case NoNormal => NatText(c.v) + "/" + NatText(c.vt)
    case NoTexture => NatText(c.v) + "//" + NatText(c.vn)
    case VertexOnly => NatText(c.v)
  }

  function CornerWords(cs: seq<Corner>, f: Format): (ws: seq<string>)
    ensures |ws| == |cs|
  {
    if cs == [] then [] else CornerWords(cs[..|cs| - 1], f) + [CornerWord(cs[|cs| - 1], f)]
  }

  /** "f" followed by the corners in format f. */
  function FaceLine(cs: seq<Corner>, f: Format): string {
    "f" + Join(CornerWords(cs, f))
  }

  /** The face type each format is meant to be recognised as. */
  function TypeOf(f: Format): int {
    match f
    case Full => 0
    case NoNormal => 1
    case NoTexture => 2
    case VertexOnly => 3
  }

  /** The ints parse_face keeps for a corner: a missing texture or normal index repeats another one. */
  function Expected(c: Corner, f: Format): seq<int> {
    match f
    case Full => [c.v, c.vt, c.vn]
    case NoNormal => [c.v, c.vt, c.v]
    case NoTexture => [c.v, c.vn, c.vn]
    case VertexOnly => [c.v, c.v, c.v]
  }

  /** What the three reads of a corner word give, before any fix-up. */
  function Read(c: Corner, f: Format): seq<int> {
    match f
    case Full => [c.v, c.vt, c.vn]
    case NoNormal => [c.v, c.vt, c.vt]
    case NoTexture => [c.v, c.vn, c.vn]
    case VertexOnly => [c.v, c.v, c.v]
  }

  lemma CornerWordIsWord(c: Corner, f: Format)
    ensures IsWord(CornerWord(c, f))
  {
    NatTextDigits(c.v);
    NatTextDigits(c.vt);
    NatTextDigits(c.vn);
  }

  lemma CornerWordsAreWords(cs: seq<Corner>, f: Format)
    ensures forall k | 0 <= k < |CornerWords(cs, f)| :: IsWord(CornerWords(cs, f)[k])
  {
    forall k | 0 <= k < |CornerWords(cs, f)|
      ensures IsWord(CornerWords(cs, f)[k])
    {
      CornerWordAt(cs, f, k);
    }
  }

  lemma {:induction false} CornerWordAt(cs: seq<Corner>, f: Format, k: nat)
    requires k < |cs|
    ensures CornerWords(cs, f)[k] == CornerWord(cs[k], f) && IsWord(CornerWord(cs[k], f))
  {
    CornerWordIsWord(cs[k], f);
    if k < |cs| - 1 {
      CornerWordAt(cs[..|cs| - 1], f, k);
    }
  }

  lemma ReplaceSlashDigits(t: string)
    requires AllDigits(t)
    ensures ReplaceSlash(t) == t
  {
  }

  lemma ReplaceSlashAppend(a: string, b: string)
    ensures ReplaceSlash(a + b) == ReplaceSlash(a) + ReplaceSlash(b)
  {
    var l, r := ReplaceSlash(a + b), ReplaceSlash(a) + ReplaceSlash(b);
    forall i | 0 <= i < |a + b|
      ensures l[i] == r[i]
    {
      if i < |a| {
        assert (a + b)[i] == a[i];
      } else {
        assert (a + b)[i] == b[i - |a|];
      }
    }
  }

  /** SkipSpace stops at the first character that is not white space. */
  lemma {:induction false} SkipSpacesTo(s: string, i: nat, j: nat)
    requires i <= j < |s| && !IsSpace(s[j])
    requires forall k | i <= k < j :: IsSpace(s[k])
    ensures SkipSpace(s, i) == j
    decreases j - i
  {
    if i < j {
      SkipSpacesTo(s, i + 1, j);
    }
  }

  /** An exhausted stream fails every further read and leaves the value alone. */
  lemma ReadsAtEnd(st: InStream, v: int)
    requires st.pos <= |st.text| && st.eof
    ensures Reads(st, v, 1) == [v]
  {
  }

  /** One read, followed by the rest of the reads. */
  lemma ReadsStep(st: InStream, v: int, count: nat, r: (InStream, int))
    requires st.pos <= |st.text| && ExtractInt(st, v) == r
    ensures Reads(st, v, count + 1) == [r.1] + Reads(r.0, r.1, count)
  {
  }

  /** A numeral right at the read position, followed by the end or white space. */
  lemma ReadNumeralAt(s: string, p: nat, t: string, n: nat, e: nat, v: int)
    requires Numeral(t, n) && Occurs(t, s, p) && e == p + |t| && (e < |s| ==> IsSpace(s[e]))
    ensures ExtractInt(InStream(s, p, false, false), v) == (InStream(s, e, false, e == |s|), n)
  {
    assert s[p] == t[0];
    NumberOfNumeral(s, p, t, n);
  }

  /** A white-space character at the read position is skipped. */
  lemma SkipOne(s: string, p: nat, q: nat, v: int)
    requires q == p + 1 && p < |s| && IsSpace(s[p])
    ensures ExtractInt(InStream(s, p, false, false), v) == ExtractInt(InStream(s, q, false, false), v)
  {
  }

  /**
   * Three reads of a + gap + b (gap one or two spaces): a, then b, which
   * sets eof, then b again from the exhausted stream.
   */
  lemma ReadPair(ta: string, a: nat, gap: string, tb: string, b: nat)
    requires Numeral(ta, a) && Numeral(tb, b) && (gap == " " || gap == "  ")
    ensures Reads(Open(ta + gap + tb), 0, 3) == [a, b, b]
  {
    var s := ta + gap + tb;
    var e1, q := |ta|, |ta| + |gap|;
    var st1 := InStream(s, e1, false, false);
    var st2 := InStream(s, |s|, false, true);
    assert ExtractInt(Open(s), 0) == (st1, a) by {
      assert s[e1] == gap[0];
      ReadNumeralAt(s, 0, ta, a, e1, 0);
    }
    assert ExtractInt(st1, a) == (st2, b) by {
      assert forall k | 0 <= k < |tb| :: s[q + k] == tb[k];
      assert |s| == q + |tb|;
      if gap == " " {
        SkipOne(s, e1, q, a);
      } else {
        SkipOne(s, e1, e1 + 1, a);
        SkipOne(s, e1 + 1, q, a);
      }
      ReadNumeralAt(s, q, tb, b, |s|, a);
    }
    ReadsStep(Open(s), 0, 2, (st1, a));
    ReadsStep(st1, a, 1, (st2, b));
    ReadsAtEnd(st2, b);
  }

  /** Three reads of "a b c": a, b and c. */
  lemma ReadTriple(ta: string, a: nat, tb: string, b: nat, tc: string, c: nat)
    requires Numeral(ta, a) && Numeral(tb, b) && Numeral(tc, c)
    ensures Reads(Open(ta + " " + tb + " " + tc), 0, 3) == [a, b, c]
  {
    var s := ta + " " + tb + " " + tc;
    var e1 := |ta|;
    var q1 := e1 + 1;
    var e2 := q1 + |tb|;
    var q2 := e2 + 1;
    var st1 := InStream(s, e1, false, false);
    var st2 := InStream(s, e2, false, false);
    var st3 := InStream(s, |s|, false, true);
    assert ExtractInt(Open(s), 0) == (st1, a) by {
      assert s[e1] == ' ';
      ReadNumeralAt(s, 0, ta, a, e1, 0);
    }
    assert ExtractInt(st1, a) == (st2, b) by {
      assert forall k | 0 <= k < |tb| :: s[q1 + k] == tb[k];
      assert s[e2] == ' ';
      SkipOne(s, e1, q1, a);
      ReadNumeralAt(s, q1, tb, b, e2, a);
    }
    assert ExtractInt(st2, b) == (st3, c) by {
      assert forall k | 0 <= k < |tc| :: s[q2 + k] == tc[k];
      assert |s| == q2 + |tc|;
      SkipOne(s, e2, q2, b);
      ReadNumeralAt(s, q2, tc, c, |s|, b);
    }
    ReadsStep(Open(s), 0, 2, (st1, a));
    ReadsStep(st1, a, 1, (st2, b));
    ReadsStep(st2, b, 0, (st3, c));
  }

  /** Three reads of a lone numeral: the first reaches the end, the others leave the value alone. */
  lemma ReadSingle(t: string, n: nat)
    requires Numeral(t, n)
    ensures Reads(Open(t), 0, 3) == [n, n, n]
  {
    var st := InStream(t, |t|, false, true);
    assert ExtractInt(Open(t), 0) == (st, n) by {
      ReadNumeralAt(t, 0, t, n, |t|, 0);
    }
    ReadsStep(Open(t), 0, 2, (st, n));
    ReadsStep(st, n, 1, (st.(fail := true), n));
    ReadsAtEnd(st.(fail := true), n);
  }

  /** A corner word with its slashes replaced by spaces. */
  function Spaced(c: Corner, f: Format): string {
    match f
    case Full => NatText(c.v) + " " + NatText(c.vt) + " " + NatText(c.vn)
    case NoNormal => NatText(c.v) + " " + NatText(c.vt)
    case NoTexture => NatText(c.v) + "  " + NatText(c.vn)
    case VertexOnly => NatText(c.v)
  }

  lemma ReplaceSlashCorner(c: Corner, f: Format)
    ensures ReplaceSlash(CornerWord(c, f)) == Spaced(c, f)
  {
    var tv, tt, tn := NatText(c.v), NatText(c.vt), NatText(c.vn);
    NatTextDigits(c.v);
    NatTextDigits(c.vt);
    NatTextDigits(c.vn);
    ReplaceSlashDigits(tv);
    ReplaceSlashDigits(tt);
    ReplaceSlashDigits(tn);
    match f
    case Full =>
      ReplaceSlashAppend(tv + "/" + tt + "/", tn);
      ReplaceSlashAppend(tv + "/" + tt, "/");
      ReplaceSlashAppend(tv + "/", tt);
      ReplaceSlashAppend(tv, "/");
    case NoNormal =>
      ReplaceSlashAppend(tv + "/", tt);
      ReplaceSlashAppend(tv, "/");
    case NoTexture =>
      assert ReplaceSlash("//") == "  ";
      ReplaceSlashAppend(tv + "//", tn);
      ReplaceSlashAppend(tv, "//");
    case VertexOnly =>
  }

  /** The three reads of one corner word, in each format. */
  lemma CornerIntsOf(c: Corner, f: Format)
    requires Fits(c)
    ensures CornerInts(CornerWord(c, f)) == Read(c, f)
  {
    var tv, tt, tn := NatText(c.v), NatText(c.vt), NatText(c.vn);
    NatTextNumeral(c.v);
    NatTextNumeral(c.vt);
    NatTextNumeral(c.vn);
    ReplaceSlashCorner(c, f);
    var w := CornerWord(c, f);
    assert CornerInts(w) == Reads(Open(Spaced(c, f)), 0, 3);
    match f
    case Full =>
      ReadTriple(tv, c.v, tt, c.vt, tn, c.vn);
    case NoNormal =>
      ReadPair(tv, c.v, " ", tt, c.vt);
    case NoTexture =>
      ReadPair(tv, c.v, "  ", tn, c.vn);
    case VertexOnly =>
      ReadSingle(tv, c.v);
  }

  // ---------------------------------------------------------------------
  // Face lines written out from corners

  /** The '/' characters in one corner word of format f. */
  function SlashesOf(f: Format): nat {
    match f
    case Full => 2
    case NoNormal => 1
    case NoTexture => 2
    case VertexOnly => 0
  }

  /** The ints the three reads give for every corner, in order. */
  function ReadInts(cs: seq<Corner>, f: Format): (r: seq<int>)
    ensures |r| == 3 * |cs|
  {
    if cs == [] then [] else ReadInts(cs[..|cs| - 1], f) + Read(cs[|cs| - 1], f)
  }

  /** The ints a face of these corners is meant to have, in order. */
  function ExpectedInts(cs: seq<Corner>, f: Format): (r: seq<int>)
    ensures |r| == 3 * |cs|
  {
    if cs == [] then [] else ExpectedInts(cs[..|cs| - 1], f) + Expected(cs[|cs| - 1], f)
  }

  /** A corner word starts with a digit and holds the slashes of its format. */
  lemma CornerWordSlashes(c: Corner, f: Format)
    ensures var w := CornerWord(c, f); |w| > 0 && w[0] != '/' && SlashCount(w) == SlashesOf(f)
  {
    var tv, tt, tn := NatText(c.v), NatText(c.vt), NatText(c.vn);
    NatTextDigits(c.v);
    NatTextDigits(c.vt);
    NatTextDigits(c.vn);
    NoSlashInDigits(tv);
    NoSlashInDigits(tt);
    NoSlashInDigits(tn);
    assert SlashCount("/") == 1;
    assert SlashCount("//") == 2;
    match f
    case Full =>
      SlashCountAppend(tv + "/" + tt + "/", tn);
      SlashCountAppend(tv + "/" + tt, "/");
      SlashCountAppend(tv + "/", tt);
      SlashCountAppend(tv, "/");
    case NoNormal =>
      SlashCountAppend(tv + "/", tt);
      SlashCountAppend(tv, "/");
    case NoTexture =>
      SlashCountAppend(tv + "//", tn);
      SlashCountAppend(tv, "//");
    case VertexOnly =>
  }

  /** Only the "v//vn" corner word holds "//". */
  lemma CornerWordDoubleSlash(c: Corner, f: Format)
    ensures HasDoubleSlash(CornerWord(c, f)) <==> f == NoTexture
  {
    var tv, tt, tn := NatText(c.v), NatText(c.vt), NatText(c.vn);
    NatTextDigits(c.v);
    NatTextDigits(c.vt);
    NatTextDigits(c.vn);
    NoSlashInDigits(tv);
    NoSlashInDigits(tt);
    NoSlashInDigits(tn);
    assert !HasDoubleSlash("/");
    assert HasDoubleSlash("//");
    match f
    case Full =>
      DoubleSlashAppend(tv + "/" + tt + "/", tn);
      DoubleSlashAppend(tv + "/" + tt, "/");
      DoubleSlashAppend(tv + "/", tt);
      DoubleSlashAppend(tv, "/");
    case NoNormal =>
      DoubleSlashAppend(tv + "/", tt);
      DoubleSlashAppend(tv, "/");
    case NoTexture =>
      DoubleSlashAppend(tv + "//", tn);
      DoubleSlashAppend(tv, "//");
    case VertexOnly =>
  }

  /** Joining words each holding m slashes gives m slashes per word. */
  lemma {:induction false} SlashCountJoin(ws: seq<string>, m: nat)
    requires forall k | 0 <= k < |ws| :: SlashCount(ws[k]) == m
    ensures SlashCount(Join(ws)) == m * |ws|
  {
    if ws != [] {
      var rest := ws[1..];
      assert forall k | 0 <= k < |rest| :: SlashCount(rest[k]) == m by {
        forall k | 0 <= k < |rest| ensures SlashCount(rest[k]) == m {
          assert rest[k] == ws[k + 1];
        }
      }
      SlashCountJoin(rest, m);
      assert SlashCount([' ']) == 0;
      SlashCountAppend([' '] + ws[0], Join(rest));
      SlashCountAppend([' '], ws[0]);
      assert Join(ws) == [' '] + ws[0] + Join(rest);
      MulStep(m, |rest|);
    }
  }

  lemma MulStep(m: nat, n: nat)
    ensures m * (n + 1) == m * n + m
  {
  }

  /**
   * Joined words none of which starts with '/' hold "//" exactly when one
   * of them does: the joining space separates the words' slashes.
   */
  lemma {:induction false} DoubleSlashJoin(ws: seq<string>)
    requires forall k | 0 <= k < |ws| :: |ws[k]| > 0 && ws[k][0] != '/'
    ensures HasDoubleSlash(Join(ws)) <==> exists k | 0 <= k < |ws| :: HasDoubleSlash(ws[k])
  {
    if ws != [] {
      DoubleSlashJoin(ws[1..]);
      assert !HasDoubleSlash([' ']);
      DoubleSlashAppend([' '] + ws[0], Join(ws[1..]));
      DoubleSlashAppend([' '], ws[0]);
      if exists k | 0 <= k < |ws[1..]| :: HasDoubleSlash(ws[1..][k]) {
        var k :| 0 <= k < |ws[1..]| && HasDoubleSlash(ws[1..][k]);
        assert HasDoubleSlash(ws[k + 1]);
      }
      if exists k | 0 <= k < |ws| :: HasDoubleSlash(ws[k]) {
        var k :| 0 <= k < |ws| && HasDoubleSlash(ws[k]);
        if k > 0 {
          assert HasDoubleSlash(ws[1..][k - 1]);
        }
      }
    }
  }

  /**
   * face_type of a face line written from corners in one format: the
   * "v//vn" and "v" formats are recognised whatever the corner count; a
   * "v/vt/vn" line is type 0 only with three corners; a "v/vt" line is
   * type 1 with three corners and, having six slashes, type 0 with six.
   */
  lemma FaceTypeOfLine(cs: seq<Corner>, f: Format)
    requires |cs| >= 1
    ensures f == Full ==> FaceType(FaceLine(cs, f)) == (if |cs| == 3 then 0 else -1)
    ensures f == NoNormal ==> FaceType(FaceLine(cs, f)) == (if |cs| == 6 then 0 else if |cs| == 3 then 1 else -1)
    ensures f == NoTexture ==> FaceType(FaceLine(cs, f)) == 2
    ensures f == VertexOnly ==> FaceType(FaceLine(cs, f)) == 3
  {
    var ws := CornerWords(cs, f);
    forall k | 0 <= k < |ws|
      ensures |ws[k]| > 0 && ws[k][0] != '/' && SlashCount(ws[k]) == SlashesOf(f)
      ensures HasDoubleSlash(ws[k]) <==> f == NoTexture
    {
      CornerWordAt(cs, f, k);
      CornerWordSlashes(cs[k], f);
      CornerWordDoubleSlash(cs[k], f);
    }
    SlashCountJoin(ws, SlashesOf(f));
    DoubleSlashJoin(ws);
    assert SlashCount("f") == 0 && !HasDoubleSlash("f");
    SlashCountAppend("f", Join(ws));
    DoubleSlashAppend("f", Join(ws));
    SlashCountPositive(FaceLine(cs, f));
    if f == NoTexture {
      assert HasDoubleSlash(ws[0]);
    }
  }

  /** A triangle written in format f is recognised as that format. */
  lemma TriangleFaceType(cs: seq<Corner>, f: Format)
    requires |cs| == 3
    ensures FaceType(FaceLine(cs, f)) == TypeOf(f)
  {
    FaceTypeOfLine(cs, f);
  }

  /** The reads of a face line's corner words, before the fix-up. */
  lemma {:induction false} CornersOfWords(cs: seq<Corner>, f: Format)
    requires forall k | 0 <= k < |cs| :: Fits(cs[k])
    ensures Corners(CornerWords(cs, f)) == ReadInts(cs, f)
  {
    if cs != [] {
      CornersOfWords(cs[..|cs| - 1], f);
      CornerIntsOf(cs[|cs| - 1], f);
      var ws := CornerWords(cs, f);
      assert ws[..|ws| - 1] == CornerWords(cs[..|cs| - 1], f);
    }
  }

  /** The corner words of a face line are its arguments. */
  lemma ArgumentsOfFaceLine(cs: seq<Corner>, f: Format)
    ensures Keyword(FaceLine(cs, f)) == "f" && Arguments(FaceLine(cs, f)) == CornerWords(cs, f)
  {
    CornerWordsAreWords(cs, f);
    LineOfWords("f", CornerWords(cs, f));
  }

  /**
   * parse_face on a triangle written out in any format gives back the
   * vertex, texture and normal index of every corner, a missing texture or
   * normal index replaced as Expected says.
   */
  lemma TriangleFaceIndices(cs: seq<Corner>, f: Format)
    requires |cs| == 3 && forall k | 0 <= k < |cs| :: Fits(cs[k])
    ensures FaceDefined(FaceLine(cs, f)) && FaceIndices(FaceLine(cs, f)) == ExpectedInts(cs, f)
  {
    var line := FaceLine(cs, f);
    ArgumentsOfFaceLine(cs, f);
    TriangleFaceType(cs, f);
    CornersOfWords(cs, f);
    calc {
      FaceIndices(line);
      FixUp(Corners(CornerWords(cs, f)), TypeOf(f));
      FixUp(ReadInts(cs, f), TypeOf(f));
      { FixUpOfReads(cs, f); }
      ExpectedInts(cs, f);
    }
  }

  /** The type-1 fix-up turns what a triangle's reads give into the expected indices. */
  lemma FixUpOfReads(cs: seq<Corner>, f: Format)
    requires |cs| == 3
    ensures FixUp(ReadInts(cs, f), TypeOf(f)) == ExpectedInts(cs, f)
  {
    assert cs[..2][..1] == cs[..1] && cs[..1][..0] == [];
    assert ReadInts(cs[..1], f) == Read(cs[0], f);
    assert ReadInts(cs[..2], f) == ReadInts(cs[..1], f) + Read(cs[1], f);
    assert ReadInts(cs, f) == ReadInts(cs[..2], f) + Read(cs[2], f);
    assert ExpectedInts(cs[..1], f) == Expected(cs[0], f);
    assert ExpectedInts(cs[..2], f) == ExpectedInts(cs[..1], f) + Expected(cs[1], f);
    assert ExpectedInts(cs, f) == ExpectedInts(cs[..2], f) + Expected(cs[2], f);
  }

  // ---------------------------------------------------------------------
  // Directory of a file name

  /** The position of the last '/' or '\\' in s, if any (find_last_of("/\\")). */
  function LastSeparator(s: string): (r: Option<nat>)
    ensures r.Some? ==> r.value < |s| && (s[r.value] == '/' || s[r.value] == '\\')
    ensures r.Some? ==> forall k | r.value < k < |s| :: s[k] != '/' && s[k] != '\\'
    ensures r.None? ==> forall k | 0 <= k < |s| :: s[k] != '/' && s[k] != '\\'
  {
    if s == [] then None
    else if s[|s| - 1] == '/' || s[|s| - 1] == '\\' then Some(|s| - 1)
    else LastSeparator(s[..|s| - 1])
  }

  /** The path prefix load_obj puts before an mtllib name: up to the last separator, or "./". */
  function Directory(filename: string): string {
    match LastSeparator(filename)
    case Some(i) => filename[..i + 1]
    case None => "./"
  }

  /** Characters with no separator among them do not move the last separator. */
  lemma {:induction false} LastSeparatorAppend(dir: string, name: string)
    requires forall k | 0 <= k < |name| :: name[k] != '/' && name[k] != '\\'
    ensures LastSeparator(dir + name) == LastSeparator(dir)
    decreases |name|
  {
    if name != [] {
      var s := dir + name;
      assert s[|s| - 1] == name[|name| - 1];
      assert s[..|s| - 1] == dir + name[..|name| - 1];
      LastSeparatorAppend(dir, name[..|name| - 1]);
    } else {
      assert dir + name == dir;
    }
  }

  /** A file name made of a directory ending in a separator and a plain name has that directory. */
  lemma DirectoryOfPath(dir: string, name: string)
    requires |dir| > 0 && (dir[|dir| - 1] == '/' || dir[|dir| - 1] == '\\')
    requires forall k | 0 <= k < |name| :: name[k] != '/' && name[k] != '\\'
    ensures Directory(dir + name) == dir
  {
    LastSeparatorAppend(dir, name);
    assert LastSeparator(dir) == Some(|dir| - 1);
    assert (dir + name)[..|dir|] == dir;
  }

  /** A plain file name is looked up next to the working directory. */
  lemma DirectoryOfPlainName(name: string)
    requires forall k | 0 <= k < |name| :: name[k] != '/' && name[k] != '\\'
    ensures Directory(name) == "./"
  {
  }
}
