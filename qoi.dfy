/**
 * The byte format of src/QOI.h: a variant of the QOI image format (version
 * 1.0) whose index hash leaves out alpha, whose deltas do not wrap and which
 * writes no end marker. This module holds the format as values: colours,
 * the five chunk kinds and their bytes, the writer's state machine as a
 * function of the pixels, and the reader's loop as a function of the bytes,
 * including what it does when a read runs past the end of the file.
 */
module Qoi {
  import opened Wrappers
  import opened Vectors

  /** An unsigned char written to or read from the file. */
  type Byte = x: int | 0 <= x < 256

  /**
   * A colour as the writer keeps it after flooring and clamping, and as the
   * reader rebuilds it before scaling by 1/255. The reader can build
   * channels outside 0..255 from malformed files, so channels are int.
   */
  datatype Colour = Colour(r: int, g: int, b: int)

  const Black := Colour(0, 0, 0)

  const OpIndex: int := 0x00
  const OpDiff: int := 0x40
  const OpLuma: int := 0x80
  const OpRun: int := 0xc0
  const OpRgb: int := 0xfe
  const OpRgba: int := 0xff

  /** The magic number "qoif" the header starts with. */
  const Magic: int := 0x716f6966

  /** Size of the colour index. */
  const TableSize: int := 64

  /** A run chunk holds at most 62 pixels (the writer flushes at 62). */
  const MaxRun: int := 62

  predicate InByteRange(c: Colour) {
    0 <= c.r < 256 && 0 <= c.g < 256 && 0 <= c.b < 256
  }

  /** Every colour of ps has its channels in 0..255. */
  predicate AllInByteRange(ps: seq<Colour>) {
    forall i :: 0 <= i < |ps| ==> InByteRange(ps[i])
  }

  /** n copies of c. */
  function Repeat(c: Colour, n: nat): (r: seq<Colour>)
    ensures |r| == n
  {
    seq(n, _ => c)
  }

  /** The index table both sides start from: 64 black entries. */
  function BlackTable(): (t: seq<Colour>)
    ensures |t| == TableSize && forall i :: 0 <= i < |t| ==> t[i] == Black
  {
    Repeat(Black, TableSize)
  }

  /**
   * C++ `%` on int: the quotient truncates toward zero, so the remainder
   * takes the sign of the dividend (unlike Dafny's, which is never negative).
   */
  function CRem(a: int, m: int): (r: int)
    requires m > 0
    ensures -m < r < m
    ensures (a >= 0 ==> 0 <= r) && (a < 0 ==> r <= 0)
  {
    if a >= 0 then a % m else -((-a) % m)
  }

  /**
   * gen_key: (int)(3r + 5g + 7b) % 64 with C++'s remainder. Colours with
   * channels in 0..255 land in the table; a colour with negative channels,
   * which only a malformed file produces, can give a negative key.
   */
  function GenKey(c: Colour): (k: int)
    ensures -TableSize < k < TableSize
    ensures InByteRange(c) ==> 0 <= k < TableSize && k == (3 * c.r + 5 * c.g + 7 * c.b) % TableSize
  {
    CRem(3 * c.r + 5 * c.g + 7 * c.b, TableSize)
  }

  // ---------------------------------------------------------------------
  // write_pixel's floor and clamp

  /** floorf, then fmax(0, fmin(a, 255)). */
  function ClampChannel(a: real): (c: int)
    ensures 0 <= c <= 255
    ensures 0.0 <= a < 256.0 ==> c as real <= a < c as real + 1.0
    ensures a < 0.0 ==> c == 0
    ensures a >= 255.0 ==> c == 255
  {
    var f := a.Floor;
    if f > 255 then 255 else if f < 0 then 0 else f
  }

  /** The colour write_pixel encodes for an input pixel. */
  function Clamp(v: Vec3): (c: Colour)
    ensures InByteRange(c)
  {
    Colour(ClampChannel(v.x), ClampChannel(v.y), ClampChannel(v.z))
  }

  // ---------------------------------------------------------------------
  // 32-bit values

  /**
   * write32(long value): the bytes (value & 0xff000000) >> 24, then the
   * next three bytes down. Masking and shifting a two's-complement value
   * is floor division and a remainder, so every int is written as its
   * low 32 bits.
   */
  function Write32(value: int): (bs: seq<Byte>)
    ensures |bs| == 4
  {
    [(value / 0x100_0000) % 0x100, (value / 0x1_0000) % 0x100, (value / 0x100) % 0x100, value % 0x100]
  }

  /** The four bytes, most significant first, as one unsigned number. */
  function BigEndian(b0: Byte, b1: Byte, b2: Byte, b3: Byte): (v: int)
    ensures 0 <= v < 0x1_0000_0000
  {
    b0 * 0x100_0000 + b1 * 0x1_0000 + b2 * 0x100 + b3
  }

  /**
   * read32 at pos: the four bytes most significant first. When the file
   * ends first, get() returns -1 from then on, and or-ing in the shifted
   * -1 of the last read sets every bit.
   */
  function Read32(data: seq<Byte>, pos: nat): (v: int)
    ensures 0 <= v < 0x1_0000_0000
    ensures pos + 4 > |data| ==> v == 0xffff_ffff
  {
    if pos + 4 <= |data| then BigEndian(data[pos], data[pos + 1], data[pos + 2], data[pos + 3])
    else 0xffff_ffff
  }

  /** The header QOIWriter's constructor writes. */
  function Header(width: int, height: int): (bs: seq<Byte>)
    ensures |bs| == 14
  {
    Write32(Magic) + Write32(width) + Write32(height) + [3, 1]
  }

  /** What a get() returns at pos: the byte, or -1 (EOF) at the end of the file. */
  function At(data: seq<Byte>, pos: nat): (c: int)
    ensures -1 <= c < 256 && (c == -1 <==> pos >= |data|)
  {
    if pos < |data| then data[pos] else -1
  }

  /** The header read by QOIReader's constructor is accepted iff the first four bytes spell "qoif". */
  predicate MagicOk(data: seq<Byte>) {
    |data| >= 4 && data[..4] == Write32(Magic)
  }

  // ---------------------------------------------------------------------
  // Chunks

  /**
   * The five chunk kinds. Run holds the number of pixels, Diff the three
   * channel deltas, Luma the green delta and the red and blue deltas
   * relative to it.
   */
  datatype Chunk =
    | Run(length: int)
    | Index(key: int)
    | Diff(dr: int, dg: int, db: int)
    | Luma(dg: int, drDg: int, dbDg: int)
    | Rgb(c: Colour)

  /** Each field fits the bits its chunk has for it. */
  predicate WellFormed(ch: Chunk) {
    match ch
    case Run(n) => 1 <= n <= MaxRun
    case Index(k) => 0 <= k < TableSize
    case Diff(dr, dg, db) => -2 <= dr <= 1 && -2 <= dg <= 1 && -2 <= db <= 1
    case Luma(dg, drDg, dbDg) => -32 <= dg <= 31 && -8 <= drDg <= 7 && -8 <= dbDg <= 7
    case Rgb(c) => InByteRange(c)
  }

  /**
   * The bytes of one chunk, as write_pixel and finish_run put them. The
   * fields occupy disjoint bits, so the source's `|` is a sum here.
   */
  function ChunkBytes(ch: Chunk): (bs: seq<Byte>)
    requires WellFormed(ch)
    ensures 1 <= |bs| <= 4
  {
    match ch
    case Run(n) => [OpRun + (n - 1)]
    case Index(k) => [OpIndex + k]
    case Diff(dr, dg, db) => [OpDiff + (dr + 2) * 16 + (dg + 2) * 4 + (db + 2)]
    case Luma(dg, drDg, dbDg) => [OpLuma + (dg + 32), (drDg + 8) * 16 + (dbDg + 8)]
    case Rgb(c) => [OpRgb, c.r, c.g, c.b]
  }

  predicate AllWellFormed(chunks: seq<Chunk>) {
    forall i :: 0 <= i < |chunks| ==> WellFormed(chunks[i])
  }

  /** The bytes of a sequence of chunks, one after the other. */
  function Serialize(chunks: seq<Chunk>): (bs: seq<Byte>)
    requires AllWellFormed(chunks)
    ensures |bs| >= |chunks|
  {
    if |chunks| == 0 then [] else ChunkBytes(chunks[0]) + Serialize(chunks[1..])
  }

  // ---------------------------------------------------------------------
  // The writer's state machine

  /** previous_colour, lookup[64] and run_length of a QOIWriter. */
  datatype Encoder = Encoder(prev: Colour, table: seq<Colour>, run: int)

  predicate EncoderOk(e: Encoder) {
    |e.table| == TableSize && 0 <= e.run < MaxRun
  }

  function InitialEncoder(): (e: Encoder)
    ensures EncoderOk(e)
  {
    Encoder(Black, BlackTable(), 0)
  }

  /** The chunk for a colour that is neither the previous one nor in the table. */
  function DeltaChunk(prev: Colour, px: Colour): (ch: Chunk)
    requires InByteRange(prev) && InByteRange(px)
    ensures WellFormed(ch)
  {
    var dr, dg, db := px.r - prev.r, px.g - prev.g, px.b - prev.b;
    if -2 <= dr <= 1 && -2 <= dg <= 1 && -2 <= db <= 1 then Diff(dr, dg, db)
    else if -32 <= dg <= 31 && -8 <= dr - dg <= 7 && -8 <= db - dg <= 7 then Luma(dg, dr - dg, db - dg)
    else Rgb(px)
  }

  /**
   * write_pixel on an already clamped colour: the new state and the chunks
   * it writes. A repeat only grows the run, which is flushed at 62; any
   * other colour first flushes a pending run, then is written as an index
   * if the table holds it, and otherwise enters the table and is written
   * as a delta or in full.
   */
  function EncodePixel(e: Encoder, px: Colour): (r: (Encoder, seq<Chunk>))
    requires EncoderOk(e) && InByteRange(e.prev) && InByteRange(px)
    ensures EncoderOk(r.0) && r.0.prev == px && AllWellFormed(r.1)
  {
    if px == e.prev then
      if e.run + 1 == MaxRun then (e.(run := 0), [Run(MaxRun)])
      else (e.(run := e.run + 1), [])
    else
      var flush := if e.run > 0 then [Run(e.run)] else [];
      var key := GenKey(px);
      if px == e.table[key] then (Encoder(px, e.table, 0), flush + [Index(key)])
      else (Encoder(px, e.table[key := px], 0), flush + [DeltaChunk(e.prev, px)])
  }

  /** finish_run: the pending run, if any. */
  function FinishRun(e: Encoder): (chunks: seq<Chunk>)
    requires EncoderOk(e)
    ensures AllWellFormed(chunks)
  {
    if e.run > 0 then [Run(e.run)] else []
  }

  /** The writer's state after ps, and every chunk written so far. */
  function EncodeAll(ps: seq<Colour>): (r: (Encoder, seq<Chunk>))
    requires AllInByteRange(ps)
    ensures EncoderOk(r.0) && InByteRange(r.0.prev) && AllWellFormed(r.1)
  {
    if |ps| == 0 then (InitialEncoder(), [])
    else
      var prev := EncodeAll(ps[..|ps| - 1]);
      var step := EncodePixel(prev.0, ps[|ps| - 1]);
      (step.0, prev.1 + step.1)
  }

  /** Every chunk the writer produces for ps, up to and including finish_run. */
  function EncodeImage(ps: seq<Colour>): (chunks: seq<Chunk>)
    requires AllInByteRange(ps)
    ensures AllWellFormed(chunks)
  {
    var e := EncodeAll(ps);
    e.1 + FinishRun(e.0)
  }

  /** The whole file: header, then the chunks. */
  function EncodeFile(width: int, height: int, ps: seq<Colour>): seq<Byte>
    requires AllInByteRange(ps)
  {
    Header(width, height) + Serialize(EncodeImage(ps))
  }

  // ---------------------------------------------------------------------
  // The chunks' meaning

  /** previous_colour and lookup[64] of a QOIReader. */
  datatype Decoder = Decoder(prev: Colour, table: seq<Colour>)

  function InitialDecoder(): Decoder {
    Decoder(Black, BlackTable())
  }

  /** The colour a Diff or Luma chunk stands for, from the previous one. */
  function Shifted(prev: Colour, dr: int, dg: int, db: int): Colour {
    Colour(prev.r + dr, prev.g + dg, prev.b + db)
  }

  /** A delta chunk describes a colour within 0..255. */
  predicate Fits(ch: Chunk, d: Decoder) {
    match ch
    case Diff(dr, dg, db) => InByteRange(Shifted(d.prev, dr, dg, db))
    case Luma(dg, drDg, dbDg) => InByteRange(Shifted(d.prev, drDg + dg, dg, dbDg + dg))
    case _ => true
  }

  /** A colour the decoder now shows: it becomes the previous colour and enters the table. */
  function Show(d: Decoder, px: Colour): Decoder
    requires |d.table| == TableSize && InByteRange(px)
  {
    Decoder(px, d.table[GenKey(px) := px])
  }

  /**
   * What a chunk means, as the QOI format defines it: the pixels it stands
   * for and the decoder's next state. Runs and indices leave the table
   * alone.
   */
  function Apply(ch: Chunk, d: Decoder): (r: (seq<Colour>, Decoder))
    requires WellFormed(ch) && Fits(ch, d) && |d.table| == TableSize
    ensures |r.1.table| == TableSize
  {
    match ch
    case Run(n) => (Repeat(d.prev, n), d)
    case Index(k) => ([d.table[k]], Decoder(d.table[k], d.table))
    case Diff(dr, dg, db) => var px := Shifted(d.prev, dr, dg, db); ([px], Show(d, px))
    case Luma(dg, drDg, dbDg) => var px := Shifted(d.prev, drDg + dg, dg, dbDg + dg); ([px], Show(d, px))
    case Rgb(c) => ([c], Show(d, c))
  }

  /** Every chunk is well formed and fits the state the ones before it leave. */
  predicate FitsAll(chunks: seq<Chunk>, d: Decoder)
    requires |d.table| == TableSize
    decreases |chunks|
  {
    |chunks| == 0
    || (WellFormed(chunks[0]) && Fits(chunks[0], d) && FitsAll(chunks[1..], Apply(chunks[0], d).1))
  }

  /** The pixels a sequence of chunks stands for, and the state after them. */
  function DecodeChunks(chunks: seq<Chunk>, d: Decoder): (r: (seq<Colour>, Decoder))
    requires |d.table| == TableSize && FitsAll(chunks, d)
    ensures |r.1.table| == TableSize
    decreases |chunks|
  {
    if |chunks| == 0 then ([], d)
    else
      var first := Apply(chunks[0], d);
      var rest := DecodeChunks(chunks[1..], first.1);
      (first.0 + rest.0, rest.1)
  }

  // ---------------------------------------------------------------------
  // The reader's loop

  /** One pass of read_all's loop: the pixels pushed, the new state, and the number of get() calls it made. */
  datatype Step = Step(pixels: seq<Colour>, next: Decoder, used: nat)

  /**
   * A decoded colour becomes the previous colour and enters the table at
   * its key; None stands for a negative key, which would index lookup out
   * of bounds.
   */
  function ShowChecked(px: Colour, d: Decoder, used: nat): (r: Option<Step>)
    requires |d.table| == TableSize
    ensures r.Some? <==> GenKey(px) >= 0
    ensures r.Some? ==> r.value.pixels == [px] && r.value.next.prev == px && r.value.used == used
  {
    var key := GenKey(px);
    if key < 0 then None else Some(Step([px], Decoder(px, d.table[key := px]), used))
  }

  /** A Diff byte's colour: three two-bit deltas biased by 2, added and reduced with C++'s `%`. */
  function DiffColour(prev: Colour, op: int): Colour {
    Colour(CRem(prev.r + (op / 16 % 4 - 2), 256), CRem(prev.g + (op / 4 % 4 - 2), 256),
           CRem(prev.b + (op % 4 - 2), 256))
  }

  /**
   * A Luma pair's colour: a six-bit green delta biased by 32, and red and
   * blue deltas relative to it, four bits each biased by 8.
   */
  function LumaColour(prev: Colour, op: int, second: int): Colour {
    var dg := op % 64 - 32;
    var drDg, dbDg := second / 16 - 8, second % 16 - 8;
    Colour(CRem(prev.r + drDg + dg, 256), CRem(prev.g + dg, 256), CRem(prev.b + dbDg + dg, 256))
  }

  /**
   * One pass of read_all's loop body at pos. The first get() goes through
   * uint8_t, so the -1 of the end of file reads as 0xff; the colour
   * channels of an RGB chunk keep a -1.
   */
  function ReadStep(data: seq<Byte>, pos: nat, d: Decoder): (r: Option<Step>)
    requires |d.table| == TableSize
    ensures r.Some? ==> |r.value.next.table| == TableSize && 1 <= r.value.used <= 4
  {
    Dispatch(At(data, pos) % 256, data, pos, d)
  }

  /**
   * The loop body once its first byte op is read: 0xfe is RGB, otherwise
   * the top two bits (op & 0xc0) pick the chunk kind, which for a byte is
   * the range op falls in.
   */
  function Dispatch(op: Byte, data: seq<Byte>, pos: nat, d: Decoder): (r: Option<Step>)
    requires |d.table| == TableSize
    ensures r.Some? ==> |r.value.next.table| == TableSize && 1 <= r.value.used <= 4
  {
    if op == OpRgb then
      ShowChecked(Colour(At(data, pos + 1), At(data, pos + 2), At(data, pos + 3)), d, 4)
    else if op >= OpRun then
      Some(Step(Repeat(d.prev, op % 64 + 1), d, 1))
    else if op < OpDiff then
      var px := d.table[op % 64];
      Some(Step([px], Decoder(px, d.table), 1))
    else if op < OpLuma then
      ShowChecked(DiffColour(d.prev, op), d, 1)
    else
      ShowChecked(LumaColour(d.prev, op, At(data, pos + 1) % 256), d, 2)
  }

  /** Pixels already pushed, followed by what the rest of the loop pushes and the state it ends in. */
  function Then(pixels: seq<Colour>, rest: Option<(seq<Colour>, Decoder)>): Option<(seq<Colour>, Decoder)> {
    match rest
    case None => None
    case Some(r) => Some((pixels + r.0, r.1))
  }

  /**
   * read_all as written: `while (!eof()) { byte = get(); … }`. The end-of-file
   * flag is raised only by a get() past the end, so after the last chunk
   * the loop runs once more and reads -1, which decodes as a run of 64.
   * A pass whose reads run past the end ends the loop.
   */
  function ReadLoop(data: seq<Byte>, pos: nat, d: Decoder): (r: Option<(seq<Colour>, Decoder)>)
    requires pos <= |data| && |d.table| == TableSize
    decreases |data| - pos
  {
    match ReadStep(data, pos, d)
    case None => None
    case Some(s) =>
      if pos + s.used > |data| then Some((s.pixels, s.next))
      else Then(s.pixels, ReadLoop(data, pos + s.used, s.next))
  }

  /**
   * read_all with the end of file tested before each chunk instead of
   * after the get() that runs into it: the loop stops when every byte has
   * been consumed.
   */
  function ReadChunks(data: seq<Byte>, pos: nat, d: Decoder): (r: Option<(seq<Colour>, Decoder)>)
    requires pos <= |data| && |d.table| == TableSize
    decreases |data| - pos
  {
    if pos == |data| then Some(([], d))
    else
      match ReadStep(data, pos, d)
      case None => None
      case Some(s) =>
        if pos + s.used > |data| then Some((s.pixels, s.next))
        else Then(s.pixels, ReadChunks(data, pos + s.used, s.next))
  }

  /** Where QOIReader's constructor leaves the stream: after the magic only when it is wrong. */
  function HeaderEnd(data: seq<Byte>): nat {
    if MagicOk(data) then 14 else 4
  }

  /** The constructor's reads already ran past the end, so read_all's loop does not start. */
  predicate HeaderHitEnd(data: seq<Byte>) {
    HeaderEnd(data) > |data|
  }
}
