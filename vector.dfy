/**
 * Vector3 of src/Vector.h: three float coordinates, modelled as reals, the
 * component-wise helpers the acceleration structures use, the colour parser
 * `to_colour` and the global pseudo-random generator `random_value`.
 */
module Vectors {
  import opened Wrappers

  datatype Vec3 = Vec3(x: real, y: real, z: real)

  /** Vector3(float f): the same value in every coordinate. */
  function Splat(f: real): Vec3 { Vec3(f, f, f) }

  function Add(a: Vec3, b: Vec3): Vec3 { Vec3(a.x + b.x, a.y + b.y, a.z + b.z) }

  function Sub(a: Vec3, b: Vec3): Vec3 { Vec3(a.x - b.x, a.y - b.y, a.z - b.z) }

  /** Component-wise product (operator* on two vectors). */
  function Mul(a: Vec3, b: Vec3): Vec3 { Vec3(a.x * b.x, a.y * b.y, a.z * b.z) }

  function Scale(a: Vec3, s: real): Vec3 { Vec3(a.x * s, a.y * s, a.z * s) }

  function Dot(a: Vec3, b: Vec3): real { a.x * b.x + a.y * b.y + a.z * b.z }

  function Cross(a: Vec3, b: Vec3): Vec3 {
    Vec3(a.y * b.z - a.z * b.y, a.z * b.x - a.x * b.z, a.x * b.y - a.y * b.x)
  }

  /** Component-wise "a <= b". */
  predicate Le(a: Vec3, b: Vec3) { a.x <= b.x && a.y <= b.y && a.z <= b.z }

  /** operator==: every coordinate equal, which is equality of the vectors. */
  function Equal(left: Vec3, right: Vec3): (r: bool)
    ensures r <==> left == right
  {
    left.x == right.x && left.y == right.y && left.z == right.z
  }

  /** operator!=: some coordinate differs, which is exactly when operator== is false. */
  function NotEqual(left: Vec3, right: Vec3): (r: bool)
    ensures r <==> !Equal(left, right)
  {
    left.x != right.x || left.y != right.y || left.z != right.z
  }

  /** operator[]: 0 selects x, 1 selects y and every other index selects z. */
  function Index(v: Vec3, ind: int): (r: real)
    ensures r == v.x || r == v.y || r == v.z
  {
    if ind == 0 then v.x else if ind == 1 then v.y else v.z
  }

  /** The three indices 0, 1, 2 reach the three coordinates: a vector is determined by them. */
  lemma IndexDetermines(a: Vec3, b: Vec3)
    requires Index(a, 0) == Index(b, 0) && Index(a, 1) == Index(b, 1) && Index(a, 2) == Index(b, 2)
    ensures a == b
  {
  }

  /** Indices outside 0..2 read z, like the index 2. */
  lemma IndexOutsideReadsZ(v: Vec3, ind: int)
    requires ind != 0 && ind != 1
    ensures Index(v, ind) == Index(v, 2) == v.z
  {
  }

  /** Component-wise minimum, keeping the right operand on ties. */
  function Min(left: Vec3, right: Vec3): (r: Vec3)
    ensures Le(r, left) && Le(r, right)
    ensures (r.x == left.x || r.x == right.x) && (r.y == left.y || r.y == right.y)
    ensures r.z == left.z || r.z == right.z
  {
    Vec3(if left.x < right.x then left.x else right.x,
         if left.y < right.y then left.y else right.y,
         if left.z < right.z then left.z else right.z)
  }

  /** Component-wise maximum, keeping the right operand on ties. */
  function Max(left: Vec3, right: Vec3): (r: Vec3)
    ensures Le(left, r) && Le(right, r)
    ensures (r.x == left.x || r.x == right.x) && (r.y == left.y || r.y == right.y)
    ensures r.z == left.z || r.z == right.z
  {
    Vec3(if left.x > right.x then left.x else right.x,
         if left.y > right.y then left.y else right.y,
         if left.z > right.z then left.z else right.z)
  }

  /** Min is the greatest lower bound for the component-wise order. */
  lemma MinGreatest(left: Vec3, right: Vec3, c: Vec3)
    requires Le(c, left) && Le(c, right)
    ensures Le(c, Min(left, right))
  {
  }

  /** Max is the least upper bound for the component-wise order. */
  lemma MaxLeast(left: Vec3, right: Vec3, c: Vec3)
    requires Le(left, c) && Le(right, c)
    ensures Le(Max(left, right), c)
  {
  }

  function RMin(a: real, b: real): real { if a <= b then a else b }

  function RMax(a: real, b: real): real { if a >= b then a else b }

  /** fmin(fmin(x, y), z): the smallest coordinate. */
  function MinComponent(v: Vec3): (r: real)
    ensures r <= v.x && r <= v.y && r <= v.z
    ensures r == v.x || r == v.y || r == v.z
  {
    RMin(RMin(v.x, v.y), v.z)
  }

  /** fmax(fmax(x, y), z): the largest coordinate. */
  function MaxComponent(v: Vec3): (r: real)
    ensures r >= v.x && r >= v.y && r >= v.z
    ensures r == v.x || r == v.y || r == v.z
  {
    RMax(RMax(v.x, v.y), v.z)
  }

  // ---------------------------------------------------------------------
  // to_colour: "#rrggbb" to a colour with channels in [0, 1]

  function HexDigit(c: char): Option<nat> {
    if '0' <= c <= '9' then Some(c as nat - '0' as nat)
    else if 'a' <= c <= 'f' then Some(c as nat - 'a' as nat + 10)
    else if 'A' <= c <= 'F' then Some(c as nat - 'A' as nat + 10)
    else None
  }

  predicate IsHexDigit(c: char) { HexDigit(c).Some? }

  predicate IsSpace(c: char) {
    c == ' ' || c == '\t' || c == '\n' || c == '\r' || c == '\U{000C}' || c == '\U{000B}'
  }

  /** Number of leading hexadecimal digits of s. */
  function HexRun(s: string): (k: nat)
    ensures k <= |s|
    ensures forall i | 0 <= i < k :: IsHexDigit(s[i])
    ensures k < |s| ==> !IsHexDigit(s[k])
  {
    if s == [] || !IsHexDigit(s[0]) then 0 else 1 + HexRun(s[1..])
  }

  /** Value of a string made only of hexadecimal digits. */
  function HexValue(s: string): nat
    requires forall i | 0 <= i < |s| :: IsHexDigit(s[i])
  {
    if s == [] then 0
    else
      var last := s[|s| - 1];
      assert IsHexDigit(last);
      HexValue(s[..|s| - 1]) * 16 + HexDigit(last).value
  }

  /** Index of the first non-space character at or after i. */
  function SkipSpace(s: string, i: nat): (j: nat)
    requires i <= |s|
    ensures i <= j <= |s|
    ensures forall k | i <= k < j :: IsSpace(s[k])
    ensures j < |s| ==> !IsSpace(s[j])
    decreases |s| - i
  {
    if i == |s| || !IsSpace(s[i]) then i else SkipSpace(s, i + 1)
  }

  /**
   * std::stoi(s, nullptr, 16): leading white space, an optional sign, an
   * optional "0x" prefix, then the longest run of hexadecimal digits; None
   * where the standard library throws invalid_argument (no digit at all).
   */
  function StoiHex(s: string): (r: Option<int>)
    ensures r.None? <==> HexRun(s[DigitsStart(s)..]) == 0
    ensures r.Some? && !HasMinus(s) ==> 0 <= r.value < Pow16(|s|)
  {
    var k := DigitsStart(s);
    var d := HexRun(s[k..]);
    if d == 0 then None
    else
      var magnitude: int := HexValue(s[k..][..d]);
      HexValueBound(s[k..][..d]);
      PowMonotone(d, |s|);
      Some(if SignEnd(s) > SkipSpace(s, 0) && s[SkipSpace(s, 0)] == '-' then -magnitude else magnitude)
  }

  predicate HasMinus(s: string) { exists i | 0 <= i < |s| :: s[i] == '-' }

  /** Position after the leading white space and an optional sign. */
  function SignEnd(s: string): (j: nat)
    ensures j <= |s|
  {
    var i := SkipSpace(s, 0);
    if i < |s| && (s[i] == '+' || s[i] == '-') then i + 1 else i
  }

  /** Position of the first digit: after SignEnd and a "0x" prefix that a digit follows. */
  function DigitsStart(s: string): (k: nat)
    ensures SignEnd(s) <= k <= |s|
  {
    var j := SignEnd(s);
    if j + 2 < |s| && s[j] == '0' && (s[j + 1] == 'x' || s[j + 1] == 'X') && IsHexDigit(s[j + 2])
    then j + 2 else j
  }

  lemma PowMonotone(a: nat, b: nat)
    requires a <= b
    ensures Pow16(a) <= Pow16(b)
  {
    if a < b {
      PowMonotone(a, b - 1);
    }
  }

  /** std::string::substr(pos, len): None where it throws out_of_range (pos past the end). */
  function Substr(s: string, pos: nat, len: nat): (r: Option<string>)
    ensures r.Some? <==> pos <= |s|
    ensures r.Some? ==> |r.value| <= len && r.value <= s[pos..]
  {
    if pos > |s| then None
    else if pos + len <= |s| then Some(s[pos..pos + len]) else Some(s[pos..])
  }

  function ChannelAt(hexstring: string, pos: nat): Option<real> {
    match Substr(hexstring, pos, 2)
    case None => None
    case Some(sub) =>
      match StoiHex(sub)
      case None => None
      case Some(v) => Some(UnitChannel(v))
  }

  /** A channel value 0..255 scaled to [0, 1]. */
  function UnitChannel(v: int): real { v as real / 255.0 }

  /** to_colour: None where std::stoi or substr would throw. */
  function ToColour(hexstring: string): Option<Vec3> {
    match ChannelAt(hexstring, 1)
    case None => None
    case Some(r) =>
      match ChannelAt(hexstring, 3)
      case None => None
      case Some(g) =>
        match ChannelAt(hexstring, 5)
        case None => None
        case Some(b) => Some(Vec3(r, g, b))
  }

  function HexChar(d: nat): char
    requires d < 16
  {
    if d < 10 then ('0' as int + d) as char else ('a' as int + d - 10) as char
  }

  /** Two lower-case hexadecimal digits for a byte value. */
  function HexByte(n: nat): (s: string)
    requires n < 256
    ensures |s| == 2
  {
    [HexChar(n / 16), HexChar(n % 16)]
  }

  lemma HexCharDigit(d: nat)
    requires d < 16
    ensures HexDigit(HexChar(d)) == Some(d)
  {
  }

  lemma StoiHexByte(n: nat)
    requires n < 256
    ensures StoiHex(HexByte(n)) == Some(n)
  {
    var s := HexByte(n);
    HexCharDigit(n / 16);
    HexCharDigit(n % 16);
    assert SkipSpace(s, 0) == 0;
    assert HexRun(s[1..]) == 1;
    assert HexRun(s) == 2;
    assert s[0..][..2] == s;
    assert HexValue(s) == HexValue(s[..1]) * 16 + n % 16;
    assert s[..1][..0] == [];
  }

  lemma ChannelOfHexByte(s: string, pos: nat, n: nat)
    requires n < 256 && pos + 2 <= |s| && s[pos..pos + 2] == HexByte(n)
    ensures ChannelAt(s, pos) == Some(UnitChannel(n))
  {
    StoiHexByte(n);
  }

  lemma HexStringSlices(a: string, b: string, c: string)
    requires |a| == 2 && |b| == 2 && |c| == 2
    ensures ("#" + a + b + c)[1..3] == a && ("#" + a + b + c)[3..5] == b && ("#" + a + b + c)[5..7] == c
  {
  }

  /** Round trip: to_colour reads back the three bytes of "#rrggbb", each divided by 255. */
  lemma ToColourOfHexBytes(r: nat, g: nat, b: nat)
    requires r < 256 && g < 256 && b < 256
    ensures ToColour("#" + HexByte(r) + HexByte(g) + HexByte(b))
         == Some(Vec3(UnitChannel(r), UnitChannel(g), UnitChannel(b)))
  {
    HexStringSlices(HexByte(r), HexByte(g), HexByte(b));
    ToColourOfSlices("#" + HexByte(r) + HexByte(g) + HexByte(b), r, g, b);
  }

  lemma ToColourOfSlices(s: string, r: nat, g: nat, b: nat)
    requires r < 256 && g < 256 && b < 256 && |s| == 7
    requires s[1..3] == HexByte(r) && s[3..5] == HexByte(g) && s[5..7] == HexByte(b)
    ensures ToColour(s) == Some(Vec3(UnitChannel(r), UnitChannel(g), UnitChannel(b)))
  {
    ChannelOfHexByte(s, 1, r);
    ChannelOfHexByte(s, 3, g);
    ChannelOfHexByte(s, 5, b);
  }

  /** A colour read from a string without a minus sign lies in the unit cube. */
  lemma ToColourInUnitCube(hexstring: string)
    requires !HasMinus(hexstring)
    requires ToColour(hexstring).Some?
    ensures Le(Splat(0.0), ToColour(hexstring).value) && Le(ToColour(hexstring).value, Splat(1.0))
  {
    ChannelInUnit(hexstring, 1);
    ChannelInUnit(hexstring, 3);
    ChannelInUnit(hexstring, 5);
  }

  lemma ChannelInUnit(hexstring: string, pos: nat)
    requires !HasMinus(hexstring)
    requires ChannelAt(hexstring, pos).Some?
    ensures 0.0 <= ChannelAt(hexstring, pos).value <= 1.0
  {
    var sub := Substr(hexstring, pos, 2).value;
    assert forall i | 0 <= i < |sub| :: sub[i] == hexstring[pos + i];
    assert !HasMinus(sub);
    assert Pow16(|sub|) <= 256 by {
      PowMonotone(|sub|, 2);
    }
  }

  lemma HexValueBound(s: string)
    requires forall i | 0 <= i < |s| :: IsHexDigit(s[i])
    ensures HexValue(s) < Pow16(|s|)
  {
    if s != [] {
      HexValueBound(s[..|s| - 1]);
    }
  }

  function Pow16(k: nat): nat { if k == 0 then 1 else 16 * Pow16(k - 1) }

  // ---------------------------------------------------------------------
  // random_value: a 32-bit PCG-style hash of a global state

  const InitialState: bv32 := 727

  /** The state update, with uint32 wrap-around. */
  function NextState(s: bv32): bv32 {
    s * 747796405 + 2891336453
  }

  /** The output permutation applied to the new state. */
  function Hash(s: bv32): bv32 {
    var result := ((s >> ((s >> 28) + 4)) ^ s) * 277803737;
    (result >> 22) ^ result
  }

  /** ((float)result) / UINT32_MAX; UINT32_MAX converts to the float 2^32. */
  function Output(s: bv32): (r: real)
    ensures 0.0 <= r <= 1.0
  {
    (Hash(s) as int) as real / 4294967296.0
  }

  /** The global `state` and `random_value`. */
  class Random {
    var state: bv32

    constructor ()
      ensures state == InitialState
    {
      state := InitialState;
    }

    method RandomValue() returns (r: real)
      modifies this
      ensures state == NextState(old(state))
      ensures r == Output(state) && 0.0 <= r <= 1.0
    {
      state := NextState(state);
      r := Output(state);
    }
  }
}
