/**
 * What the QOI writer and reader of src/QOI.h promise each other: the
 * 32-bit fields and the header come back as written, every chunk decodes
 * to what it means, and the bytes written for a sequence of pixels decode
 * to those pixels, except that the reader as written appends a run of 64.
 */
module QoiRoundTrip {
  import opened Wrappers
  import opened Qoi

  // ---------------------------------------------------------------------
  // 32-bit fields and the header

  /** read32 reassembles what write32 wrote: the value's low 32 bits. */
  lemma Read32OfWrite32(data: seq<Byte>, pos: nat, v: int)
    requires pos + 4 <= |data| && data[pos..pos + 4] == Write32(v)
    ensures Read32(data, pos) == v % 0x1_0000_0000
  {
    assert data[pos] == Write32(v)[0] && data[pos + 1] == Write32(v)[1];
    assert data[pos + 2] == Write32(v)[2] && data[pos + 3] == Write32(v)[3];
    var q := v / 0x100_0000;
    var rest := v % 0x100_0000;
    assert v == q * 0x100_0000 + rest;
    Low24(v);
    assert v % 0x1_0000_0000 == (q % 0x100) * 0x100_0000 + rest by {
      TopByte(v, q, rest);
    }
  }

  /** The lower three bytes of write32 hold v % 2^24. */
  lemma Low24(v: int)
    ensures (v / 0x1_0000) % 0x100 * 0x1_0000 + (v / 0x100) % 0x100 * 0x100 + v % 0x100 == v % 0x100_0000
  {
    var a := v / 0x1_0000;
    var r := v % 0x1_0000;
    assert v == a * 0x1_0000 + r;
    var b := v / 0x100;
    assert b == a * 0x100 + r / 0x100;
    assert b % 0x100 == (r / 0x100) % 0x100;
    assert v % 0x100 == r % 0x100;
    assert v % 0x100_0000 == (a % 0x100) * 0x1_0000 + r;
  }

  /** Splitting off the top byte of the low 32 bits. */
  lemma TopByte(v: int, q: int, rest: int)
    requires v == q * 0x100_0000 + rest && 0 <= rest < 0x100_0000
    ensures v % 0x1_0000_0000 == (q % 0x100) * 0x100_0000 + rest
  {
    var k := q / 0x100;
    assert q == k * 0x100 + q % 0x100;
    assert v == k * 0x1_0000_0000 + ((q % 0x100) * 0x100_0000 + rest);
  }

  /**
   * The header the writer emits passes the reader's check, and the reader
   * gets back the width and height modulo 2^32, 3 channels and colour
   * space 1.
   */
  lemma HeaderReadsBack(width: int, height: int, rest: seq<Byte>)
    ensures var data := Header(width, height) + rest;
            MagicOk(data) && HeaderEnd(data) == 14 && !HeaderHitEnd(data)
            && Read32(data, 4) == width % 0x1_0000_0000
            && Read32(data, 8) == height % 0x1_0000_0000
            && data[12] == 3 && data[13] == 1
  {
    var data := Header(width, height) + rest;
    assert data[..4] == Write32(Magic);
    assert data[4..8] == Write32(width);
    assert data[8..12] == Write32(height);
    Read32OfWrite32(data, 4, width);
    Read32OfWrite32(data, 8, height);
  }

  /**
   * The magic check accepts exactly the files that start with the bytes
   * 'q', 'o', 'i', 'f'; any other file is rejected after its first four
   * bytes, whatever follows.
   */
  lemma {:induction false} WrongMagicRejected(data: seq<Byte>)
    requires |data| >= 4
    ensures MagicOk(data) <==> data[0] == 0x71 && data[1] == 0x6f && data[2] == 0x69 && data[3] == 0x66
    ensures !MagicOk(data) ==> HeaderEnd(data) == 4
  {
    var m := Write32(Magic);
    assert m == [0x71, 0x6f, 0x69, 0x66];
    if data[0] == 0x71 && data[1] == 0x6f && data[2] == 0x69 && data[3] == 0x66 {
      assert data[..4] == m;
    }
  }

  // ---------------------------------------------------------------------
  // Single chunks

  /**
   * The reader's loop body, run on the bytes of a well-formed chunk,
   * consumes exactly those bytes and does what the chunk means.
   */
  /** The loop pass one chunk stands for: its pixels, the decoder after it, and its length in bytes. */
  function ChunkStep(ch: Chunk, d: Decoder): Step
    requires WellFormed(ch) && Fits(ch, d) && |d.table| == TableSize
  {
    Step(Apply(ch, d).0, Apply(ch, d).1, |ChunkBytes(ch)|)
  }

  lemma ReadStepOnChunk(ch: Chunk, d: Decoder, data: seq<Byte>, pos: nat)
    requires WellFormed(ch) && Fits(ch, d) && |d.table| == TableSize
    requires pos + |ChunkBytes(ch)| <= |data| && data[pos..pos + |ChunkBytes(ch)|] == ChunkBytes(ch)
    ensures ReadStep(data, pos, d) == Some(ChunkStep(ch, d))
  {
    var bs := ChunkBytes(ch);
    AtOfSlice(data, pos, bs);
    match ch
    case Run(n) => ReadRun(d, data, pos, n);
    case Index(k) => ReadIndex(d, data, pos, k);
    case Diff(dr, dg, db) => ReadDiff(d, data, pos, dr, dg, db);
    case Luma(dg, drDg, dbDg) => ReadLuma(d, data, pos, dg, drDg, dbDg);
    case Rgb(c) => ReadRgb(d, data, pos, c);
  }

  /** The bytes of a slice, as get() returns them. */
  lemma AtOfSlice(data: seq<Byte>, pos: nat, bs: seq<Byte>)
    requires pos + |bs| <= |data| && data[pos..pos + |bs|] == bs
    ensures forall i :: 0 <= i < |bs| ==> At(data, pos + i) == bs[i]
  {
    forall i | 0 <= i < |bs| ensures At(data, pos + i) == bs[i] {
      assert data[pos..pos + |bs|][i] == data[pos + i];
    }
  }

  lemma ReadRun(d: Decoder, data: seq<Byte>, pos: nat, n: int)
    requires |d.table| == TableSize && 1 <= n <= MaxRun && At(data, pos) == OpRun + (n - 1)
    ensures ReadStep(data, pos, d) == Some(Step(Apply(Run(n), d).0, Apply(Run(n), d).1, 1))
  {
    ByteMod(At(data, pos));
    DispatchRun(d, data, pos, n);
  }

  lemma ReadIndex(d: Decoder, data: seq<Byte>, pos: nat, k: int)
    requires |d.table| == TableSize && 0 <= k < TableSize && At(data, pos) == OpIndex + k
    ensures ReadStep(data, pos, d) == Some(Step(Apply(Index(k), d).0, Apply(Index(k), d).1, 1))
  {
    ByteMod(At(data, pos));
    DispatchIndex(d, data, pos, k);
  }

  lemma ReadDiff(d: Decoder, data: seq<Byte>, pos: nat, dr: int, dg: int, db: int)
    requires |d.table| == TableSize && WellFormed(Diff(dr, dg, db)) && Fits(Diff(dr, dg, db), d)
    requires At(data, pos) == ChunkBytes(Diff(dr, dg, db))[0]
    ensures ReadStep(data, pos, d) == Some(Step(Apply(Diff(dr, dg, db), d).0, Apply(Diff(dr, dg, db), d).1, 1))
  {
    ByteMod(At(data, pos));
    DispatchDiff(d, data, pos, dr, dg, db);
  }

  lemma ReadLuma(d: Decoder, data: seq<Byte>, pos: nat, dg: int, drDg: int, dbDg: int)
    requires |d.table| == TableSize && WellFormed(Luma(dg, drDg, dbDg)) && Fits(Luma(dg, drDg, dbDg), d)
    requires At(data, pos) == ChunkBytes(Luma(dg, drDg, dbDg))[0]
    requires At(data, pos + 1) == ChunkBytes(Luma(dg, drDg, dbDg))[1]
    ensures ReadStep(data, pos, d) == Some(Step(Apply(Luma(dg, drDg, dbDg), d).0, Apply(Luma(dg, drDg, dbDg), d).1, 2))
  {
    ByteMod(At(data, pos));
    DispatchLuma(d, data, pos, dg, drDg, dbDg);
  }

  lemma ReadRgb(d: Decoder, data: seq<Byte>, pos: nat, c: Colour)
    requires |d.table| == TableSize && InByteRange(c) && At(data, pos) == OpRgb
    requires At(data, pos + 1) == c.r && At(data, pos + 2) == c.g && At(data, pos + 3) == c.b
    ensures ReadStep(data, pos, d) == Some(Step(Apply(Rgb(c), d).0, Apply(Rgb(c), d).1, 4))
  {
    DispatchRgb(d, data, pos, c);
  }

  /** The loop body on a run byte. */
  lemma DispatchRun(d: Decoder, data: seq<Byte>, pos: nat, n: int)
    requires |d.table| == TableSize && 1 <= n <= MaxRun
    ensures Dispatch(OpRun + (n - 1), data, pos, d) == Some(Step(Repeat(d.prev, n), d, 1))
  {
  }

  /** The loop body on an index byte. */
  lemma DispatchIndex(d: Decoder, data: seq<Byte>, pos: nat, k: int)
    requires |d.table| == TableSize && 0 <= k < TableSize
    ensures Dispatch(OpIndex + k, data, pos, d) == Some(Step([d.table[k]], Decoder(d.table[k], d.table), 1))
  {
  }

  /** The loop body on an RGB tag followed by three channel bytes. */
  lemma DispatchRgb(d: Decoder, data: seq<Byte>, pos: nat, c: Colour)
    requires |d.table| == TableSize && InByteRange(c)
    requires At(data, pos + 1) == c.r && At(data, pos + 2) == c.g && At(data, pos + 3) == c.b
    ensures Dispatch(OpRgb, data, pos, d) == Some(Step([c], Show(d, c), 4))
  {
    ShowCheckedInRange(c, d, 4);
  }

  /** The loop body on a Diff byte. */
  lemma DispatchDiff(d: Decoder, data: seq<Byte>, pos: nat, dr: int, dg: int, db: int)
    requires |d.table| == TableSize && -2 <= dr <= 1 && -2 <= dg <= 1 && -2 <= db <= 1
    requires InByteRange(Shifted(d.prev, dr, dg, db))
    ensures var op := OpDiff + (dr + 2) * 16 + (dg + 2) * 4 + (db + 2);
            0 <= op < 256
            && Dispatch(op, data, pos, d) == Some(Step([Shifted(d.prev, dr, dg, db)], Show(d, Shifted(d.prev, dr, dg, db)), 1))
  {
    var op := OpDiff + (dr + 2) * 16 + (dg + 2) * 4 + (db + 2);
    var px := Shifted(d.prev, dr, dg, db);
    DiffColourOf(d.prev, op, dr, dg, db);
    ShowCheckedInRange(px, d, 1);
  }

  /** The loop body on a Luma pair. */
  lemma DispatchLuma(d: Decoder, data: seq<Byte>, pos: nat, dg: int, drDg: int, dbDg: int)
    requires |d.table| == TableSize && -32 <= dg <= 31 && -8 <= drDg <= 7 && -8 <= dbDg <= 7
    requires At(data, pos + 1) == (drDg + 8) * 16 + (dbDg + 8)
    requires InByteRange(Shifted(d.prev, drDg + dg, dg, dbDg + dg))
    ensures var op := OpLuma + (dg + 32);
            var px := Shifted(d.prev, drDg + dg, dg, dbDg + dg);
            0 <= op < 256 && Dispatch(op, data, pos, d) == Some(Step([px], Show(d, px), 2))
  {
    var op := OpLuma + (dg + 32);
    var second := (drDg + 8) * 16 + (dbDg + 8);
    var px := Shifted(d.prev, drDg + dg, dg, dbDg + dg);
    LumaColourOf(d.prev, op, second, dg, drDg, dbDg);
    ByteMod(second);
    ShowCheckedInRange(px, d, 2);
  }

  /** The bits of a Diff chunk's byte: its tag, and the three biased deltas. */
  lemma DiffBits(dr: int, dg: int, db: int)
    requires -2 <= dr <= 1 && -2 <= dg <= 1 && -2 <= db <= 1
    ensures var op := OpDiff + (dr + 2) * 16 + (dg + 2) * 4 + (db + 2);
            0 <= op < 256 && op / 64 == OpDiff / 64
            && op / 16 % 4 - 2 == dr && op / 4 % 4 - 2 == dg && op % 4 - 2 == db
  {
  }

  /** The bits of a Luma chunk's two bytes. */
  lemma LumaBits(dg: int, drDg: int, dbDg: int)
    requires -32 <= dg <= 31 && -8 <= drDg <= 7 && -8 <= dbDg <= 7
    ensures var op, second := OpLuma + (dg + 32), (drDg + 8) * 16 + (dbDg + 8);
            0 <= op < 256 && op / 64 == OpLuma / 64 && op % 64 - 32 == dg
            && 0 <= second < 256 && second / 16 - 8 == drDg && second % 16 - 8 == dbDg
  {
  }

  /** A byte is its own remainder by 256, the uint8_t conversion changes nothing. */
  lemma ByteMod(x: Byte)
    ensures x % 256 == x
  {
  }

  /** Within 0..255, C++'s `%` by 256 changes nothing. */
  lemma CRemSmall(a: int)
    requires 0 <= a < 256
    ensures CRem(a, 256) == a
  {
  }

  /** A Diff byte, read back, gives the colour its deltas describe. */
  lemma DiffColourOf(prev: Colour, op: int, dr: int, dg: int, db: int)
    requires -2 <= dr <= 1 && -2 <= dg <= 1 && -2 <= db <= 1
    requires op == OpDiff + (dr + 2) * 16 + (dg + 2) * 4 + (db + 2)
    requires InByteRange(Shifted(prev, dr, dg, db))
    ensures 0 <= op < 256 && op != OpRgb && op / 64 == OpDiff / 64
    ensures DiffColour(prev, op) == Shifted(prev, dr, dg, db)
  {
    DiffBits(dr, dg, db);
    CRemSmall(prev.r + dr);
    CRemSmall(prev.g + dg);
    CRemSmall(prev.b + db);
  }

  /** A Luma pair, read back, gives the colour its deltas describe. */
  lemma LumaColourOf(prev: Colour, op: int, second: int, dg: int, drDg: int, dbDg: int)
    requires -32 <= dg <= 31 && -8 <= drDg <= 7 && -8 <= dbDg <= 7
    requires op == OpLuma + (dg + 32) && second == (drDg + 8) * 16 + (dbDg + 8)
    requires InByteRange(Shifted(prev, drDg + dg, dg, dbDg + dg))
    ensures 0 <= op < 256 && op != OpRgb && op / 64 == OpLuma / 64 && 0 <= second < 256
    ensures LumaColour(prev, op, second) == Shifted(prev, drDg + dg, dg, dbDg + dg)
  {
    LumaBits(dg, drDg, dbDg);
    CRemSmall(prev.r + drDg + dg);
    CRemSmall(prev.g + dg);
    CRemSmall(prev.b + dbDg + dg);
  }

  /** A decoded colour within 0..255 always has a place in the table. */
  lemma ShowCheckedInRange(px: Colour, d: Decoder, used: nat)
    requires |d.table| == TableSize && InByteRange(px)
    ensures ShowChecked(px, d, used) == Some(Step([px], Show(d, px), used))
  {
  }

  // ---------------------------------------------------------------------
  // Sequences of chunks

  /** Decoding two sequences of chunks one after the other. */
  lemma {:induction false} DecodeAppend(a: seq<Chunk>, b: seq<Chunk>, d: Decoder)
    requires |d.table| == TableSize && FitsAll(a, d) && FitsAll(b, DecodeChunks(a, d).1)
    ensures FitsAll(a + b, d)
    ensures var first := DecodeChunks(a, d);
            var second := DecodeChunks(b, first.1);
            DecodeChunks(a + b, d) == (first.0 + second.0, second.1)
    decreases |a|
  {
    if |a| > 0 {
      assert (a + b)[0] == a[0];
      assert (a + b)[1..] == a[1..] + b;
      var s := ChunkStep(a[0], d);
      DecodeChunksStep(a, d);
      var tail := DecodeChunks(a[1..], s.next);
      DecodeAppend(a[1..], b, s.next);
      DecodeChunksStep(a + b, d);
      var second := DecodeChunks(b, tail.1);
      assert s.pixels + (tail.0 + second.0) == (s.pixels + tail.0) + second.0;
    } else {
      assert a + b == b;
      var second := DecodeChunks(b, d);
      assert DecodeChunks(a, d) == ([], d);
      assert [] + second.0 == second.0;
    }
  }

  /** A single chunk decodes to what it means. */
  lemma DecodeOne(ch: Chunk, d: Decoder)
    requires |d.table| == TableSize && WellFormed(ch) && Fits(ch, d)
    ensures FitsAll([ch], d) && DecodeChunks([ch], d) == Apply(ch, d)
  {
    assert [ch][1..] == [];
    assert DecodeChunks([], Apply(ch, d).1) == ([], Apply(ch, d).1);
    assert Apply(ch, d).0 + [] == Apply(ch, d).0;
  }

  /** A loop pass that stays within the file is followed by the rest of the loop with the end tested first. */
  lemma ChunksContinue(data: seq<Byte>, pos: nat, d: Decoder, s: Step, rest: (seq<Colour>, Decoder))
    requires pos <= |data| && |d.table| == TableSize
    requires ReadStep(data, pos, d) == Some(s) && pos + s.used <= |data|
    requires ReadChunks(data, pos + s.used, s.next) == Some(rest)
    ensures ReadChunks(data, pos, d) == Some((s.pixels + rest.0, rest.1))
  {
  }

  /** A loop pass that stays within the file is followed by the rest of the loop as written. */
  lemma LoopContinues(data: seq<Byte>, pos: nat, d: Decoder, s: Step, rest: (seq<Colour>, Decoder))
    requires pos <= |data| && |d.table| == TableSize
    requires ReadStep(data, pos, d) == Some(s) && pos + s.used <= |data|
    requires ReadLoop(data, pos + s.used, s.next) == Some(rest)
    ensures ReadLoop(data, pos, d) == Some((s.pixels + rest.0, rest.1))
  {
  }

  /** At the end of the file the loop as written runs once more: a run of 64 of the previous colour. */
  lemma LoopAtEnd(data: seq<Byte>, d: Decoder)
    requires |d.table| == TableSize
    ensures ReadChunks(data, |data|, d) == Some(([], d))
    ensures ReadLoop(data, |data|, d) == Some((Repeat(d.prev, 64), d))
  {
    assert At(data, |data|) % 256 == 255;
    assert ReadStep(data, |data|, d) == Some(Step(Repeat(d.prev, 64), d, 1));
  }

  /** The chunks after the first are still well formed, and their bytes follow the first chunk's. */
  lemma SerializeTail(chunks: seq<Chunk>, data: seq<Byte>, pos: nat)
    requires |chunks| > 0 && AllWellFormed(chunks)
    requires pos <= |data| && data[pos..] == Serialize(chunks)
    ensures var w := |ChunkBytes(chunks[0])|;
            AllWellFormed(chunks[1..]) && pos + w <= |data|
            && data[pos..pos + w] == ChunkBytes(chunks[0]) && data[pos + w..] == Serialize(chunks[1..])
  {
    var w := |ChunkBytes(chunks[0])|;
    assert data[pos..][..w] == ChunkBytes(chunks[0]);
    assert data[pos..pos + w] == data[pos..][..w];
    assert data[pos + w..] == data[pos..][w..];
    forall i | 0 <= i < |chunks| - 1 ensures WellFormed(chunks[1..][i]) {
      assert chunks[1..][i] == chunks[i + 1];
    }
  }

  /** Decoding a non-empty sequence of chunks starts with the first. */
  lemma DecodeChunksStep(chunks: seq<Chunk>, d: Decoder)
    requires |chunks| > 0 && |d.table| == TableSize && FitsAll(chunks, d)
    ensures var s := ChunkStep(chunks[0], d);
            var tail := DecodeChunks(chunks[1..], s.next);
            DecodeChunks(chunks, d) == (s.pixels + tail.0, tail.1)
  {
  }

  /** The bytes of the chunks lie one after the other from pos to the end of data. */
  ghost predicate Placed(data: seq<Byte>, pos: nat, chunks: seq<Chunk>)
    decreases |chunks|
  {
    if |chunks| == 0 then pos == |data|
    else
      var ch := chunks[0];
      WellFormed(ch) && pos + |ChunkBytes(ch)| <= |data|
      && data[pos..pos + |ChunkBytes(ch)|] == ChunkBytes(ch)
      && Placed(data, pos + |ChunkBytes(ch)|, chunks[1..])
  }

  /** The serialization of chunks, at the end of data, places each chunk's bytes in turn. */
  lemma {:induction false} SerializedIsPlaced(chunks: seq<Chunk>, data: seq<Byte>, pos: nat)
    requires AllWellFormed(chunks) && pos <= |data| && data[pos..] == Serialize(chunks)
    ensures Placed(data, pos, chunks)
    decreases |chunks|
  {
    if |chunks| > 0 {
      SerializeTail(chunks, data, pos);
      SerializedIsPlaced(chunks[1..], data, pos + |ChunkBytes(chunks[0])|);
    }
  }

  /**
   * Reading placed chunks, with the end of file tested first, yields
   * exactly what the chunks mean.
   */
  lemma {:induction false} ReadPlaced(chunks: seq<Chunk>, d: Decoder, data: seq<Byte>, pos: nat)
    requires |d.table| == TableSize && FitsAll(chunks, d)
    requires pos <= |data| && Placed(data, pos, chunks)
    ensures ReadChunks(data, pos, d) == Some(DecodeChunks(chunks, d))
    decreases |chunks|
  {
    if |chunks| == 0 {
      LoopAtEnd(data, d);
    } else {
      var s := ChunkStep(chunks[0], d);
      ReadStepOnChunk(chunks[0], d, data, pos);
      ReadPlaced(chunks[1..], s.next, data, pos + s.used);
      var tail := DecodeChunks(chunks[1..], s.next);
      ChunksContinue(data, pos, d, s, tail);
      DecodeChunksStep(chunks, d);
    }
  }

  /**
   * The same bytes read by the loop as written: what the chunks mean, then
   * 64 copies of the last colour.
   */
  lemma {:induction false} ReadPlacedAsWritten(chunks: seq<Chunk>, d: Decoder, data: seq<Byte>, pos: nat)
    requires |d.table| == TableSize && FitsAll(chunks, d)
    requires pos <= |data| && Placed(data, pos, chunks)
    ensures var r := DecodeChunks(chunks, d);
            ReadLoop(data, pos, d) == Some((r.0 + Repeat(r.1.prev, 64), r.1))
    decreases |chunks|
  {
    if |chunks| == 0 {
      LoopAtEnd(data, d);
      assert [] + Repeat(d.prev, 64) == Repeat(d.prev, 64);
    } else {
      var s := ChunkStep(chunks[0], d);
      ReadStepOnChunk(chunks[0], d, data, pos);
      ReadPlacedAsWritten(chunks[1..], s.next, data, pos + s.used);
      var tail := DecodeChunks(chunks[1..], s.next);
      var extra := Repeat(tail.1.prev, 64);
      LoopContinues(data, pos, d, s, (tail.0 + extra, tail.1));
      DecodeChunksStep(chunks, d);
      assert s.pixels + (tail.0 + extra) == (s.pixels + tail.0) + extra;
    }
  }

  // ---------------------------------------------------------------------
  // The writer against the chunks' meaning

  /** The pixels the chunks of one write_pixel stand for. */
  function Emitted(e: Encoder, px: Colour): seq<Colour>
    requires EncoderOk(e)
  {
    if px == e.prev then (if e.run + 1 == MaxRun then Repeat(px, MaxRun) else [])
    else Repeat(e.prev, e.run) + [px]
  }

  /** The chunk write_pixel picks for a new colour decodes to that colour. */
  lemma DeltaChunkDecodes(prev: Colour, px: Colour, table: seq<Colour>)
    requires InByteRange(prev) && InByteRange(px) && |table| == TableSize
    ensures var d := Decoder(prev, table);
            Fits(DeltaChunk(prev, px), d) && Apply(DeltaChunk(prev, px), d) == ([px], Show(d, px))
  {
  }

  /**
   * The chunks of one write_pixel, decoded from the writer's own previous
   * colour and table, yield the pixels the call completes and leave the
   * decoder in the writer's new state.
   */
  lemma EncodePixelDecodes(e: Encoder, px: Colour)
    requires EncoderOk(e) && InByteRange(e.prev) && InByteRange(px)
    ensures var r := EncodePixel(e, px);
            var d := Decoder(e.prev, e.table);
            FitsAll(r.1, d) && DecodeChunks(r.1, d) == (Emitted(e, px), Decoder(r.0.prev, r.0.table))
  {
    var d := Decoder(e.prev, e.table);
    var r := EncodePixel(e, px);
    if px == e.prev {
      if e.run + 1 == MaxRun {
        DecodeOne(Run(MaxRun), d);
      } else {
        assert DecodeChunks([], d) == ([], d);
      }
    } else {
      var key := GenKey(px);
      var last := if px == e.table[key] then Index(key) else DeltaChunk(e.prev, px);
      if !(px == e.table[key]) {
        DeltaChunkDecodes(e.prev, px, e.table);
      }
      var after := Decoder(r.0.prev, r.0.table);
      assert Apply(last, d) == ([px], after);
      DecodeOne(last, d);
      if e.run > 0 {
        DecodeOne(Run(e.run), d);
        DecodeAppend([Run(e.run)], [last], d);
        assert r.1 == [Run(e.run)] + [last];
      } else {
        assert r.1 == [last];
        assert Repeat(e.prev, e.run) + [px] == [px];
      }
    }
  }

  /** The writer's invariant against the decoder, after the pixels ps. */
  ghost predicate InStep(ps: seq<Colour>, e: Encoder, chunks: seq<Chunk>) {
    EncoderOk(e)
    && e.run <= |ps|
    && FitsAll(chunks, InitialDecoder())
    && DecodeChunks(chunks, InitialDecoder()) == (ps[..|ps| - e.run], Decoder(e.prev, e.table))
    && (forall i :: |ps| - e.run <= i < |ps| ==> ps[i] == e.prev)
    && e.prev == (if |ps| == 0 then Black else ps[|ps| - 1])
  }

  /** The pixels completed by one more write_pixel extend the decoded prefix to the new one. */
  lemma PrefixGrows(init: seq<Colour>, px: Colour, e: Encoder)
    requires EncoderOk(e) && InByteRange(e.prev) && InByteRange(px) && e.run <= |init|
    requires forall i :: |init| - e.run <= i < |init| ==> init[i] == e.prev
    ensures var ps, e2 := init + [px], EncodePixel(e, px).0;
            e2.run <= |ps|
            && init[..|init| - e.run] + Emitted(e, px) == ps[..|ps| - e2.run]
            && (forall i :: |ps| - e2.run <= i < |ps| ==> ps[i] == e2.prev)
  {
    var ps, e2 := init + [px], EncodePixel(e, px).0;
    var k := |init| - e.run;
    if px == e.prev && e.run + 1 < MaxRun {
      assert init[..k] + Emitted(e, px) == ps[..|ps| - e2.run];
    } else {
      assert init[..k] + Emitted(e, px) == ps by {
        forall i | 0 <= i < |ps| ensures (init[..k] + Emitted(e, px))[i] == ps[i] {
          if i >= k && i < |init| {
            assert ps[i] == init[i];
          }
        }
      }
      assert ps[..|ps| - e2.run] == ps;
    }
  }

  /** One more write_pixel keeps the writer's invariant against the decoder. */
  lemma InStepStep(init: seq<Colour>, px: Colour, e: Encoder, chunks: seq<Chunk>)
    requires InStep(init, e, chunks) && InByteRange(e.prev) && InByteRange(px)
    ensures var r := EncodePixel(e, px);
            InStep(init + [px], r.0, chunks + r.1)
  {
    var (e2, more) := EncodePixel(e, px);
    EncodePixelDecodes(e, px);
    DecodeAppend(chunks, more, InitialDecoder());
    PrefixGrows(init, px, e);
    var ps := init + [px];
    assert ps[|ps| - 1] == px;
  }

  /**
   * After any sequence of write_pixel calls, the chunks written so far
   * decode to every pixel except the pending run, which repeats the
   * previous colour, and the decoder ends in the writer's own state.
   */
  lemma {:induction false} EncodeAllInStep(ps: seq<Colour>)
    requires AllInByteRange(ps)
    ensures InStep(ps, EncodeAll(ps).0, EncodeAll(ps).1)
  {
    if |ps| == 0 {
      assert DecodeChunks([], InitialDecoder()) == ([], InitialDecoder());
    } else {
      var init := ps[..|ps| - 1];
      var px := ps[|ps| - 1];
      assert AllInByteRange(init) by {
        forall i | 0 <= i < |init| ensures InByteRange(init[i]) {
          assert init[i] == ps[i];
        }
      }
      EncodeAllInStep(init);
      var (e, chunks) := EncodeAll(init);
      InStepStep(init, px, e, chunks);
      assert init + [px] == ps;
    }
  }

  /** Every chunk the writer emits for an image decodes, and together they give back the image. */
  lemma EncodeImageDecodes(ps: seq<Colour>)
    requires AllInByteRange(ps)
    ensures FitsAll(EncodeImage(ps), InitialDecoder())
    ensures var r := DecodeChunks(EncodeImage(ps), InitialDecoder());
            r.0 == ps && r.1.prev == (if |ps| == 0 then Black else ps[|ps| - 1])
  {
    EncodeAllInStep(ps);
    var (e, chunks) := EncodeAll(ps);
    var d := Decoder(e.prev, e.table);
    var tail := FinishRun(e);
    assert FitsAll(tail, d) && DecodeChunks(tail, d) == (Repeat(e.prev, e.run), d) by {
      if e.run > 0 {
        DecodeOne(Run(e.run), d);
      } else {
        assert DecodeChunks([], d) == ([], d);
        assert Repeat(e.prev, 0) == [];
      }
    }
    DecodeAppend(chunks, tail, InitialDecoder());
    var k := |ps| - e.run;
    assert ps[..k] + Repeat(e.prev, e.run) == ps by {
      forall i | 0 <= i < |ps| ensures (ps[..k] + Repeat(e.prev, e.run))[i] == ps[i] {
      }
    }
  }

  /** The colour the reader's extra run repeats: the last pixel, or black for an empty image. */
  function LastColour(ps: seq<Colour>): Colour {
    if |ps| == 0 then Black else ps[|ps| - 1]
  }

  /**
   * Round trip with the end of file tested before each chunk: the file the
   * writer produces for pixels with channels in 0..255 reads back as
   * exactly those pixels.
   */
  lemma RoundTrip(width: int, height: int, ps: seq<Colour>)
    requires AllInByteRange(ps)
    ensures var data := EncodeFile(width, height, ps);
            MagicOk(data) && !HeaderHitEnd(data)
            && ReadChunks(data, HeaderEnd(data), InitialDecoder()).Some?
            && ReadChunks(data, HeaderEnd(data), InitialDecoder()).value.0 == ps
  {
    var chunks := EncodeImage(ps);
    var data := EncodeFile(width, height, ps);
    HeaderReadsBack(width, height, Serialize(chunks));
    assert data[14..] == Serialize(chunks);
    EncodeImageDecodes(ps);
    SerializedIsPlaced(chunks, data, 14);
    ReadPlaced(chunks, InitialDecoder(), data, 14);
  }

  /**
   * read_all as written: the same file reads back as the pixels followed
   * by 64 copies of the last one, because the loop's final get() returns
   * the end of file, which as a byte is 0xff, a run of 64.
   */
  lemma AsWrittenAppendsRun(width: int, height: int, ps: seq<Colour>)
    requires AllInByteRange(ps)
    ensures var data := EncodeFile(width, height, ps);
            ReadLoop(data, HeaderEnd(data), InitialDecoder()).Some?
            && ReadLoop(data, HeaderEnd(data), InitialDecoder()).value.0 == ps + Repeat(LastColour(ps), 64)
  {
    var chunks := EncodeImage(ps);
    var data := EncodeFile(width, height, ps);
    HeaderReadsBack(width, height, Serialize(chunks));
    assert data[14..] == Serialize(chunks);
    EncodeImageDecodes(ps);
    SerializedIsPlaced(chunks, data, 14);
    ReadPlacedAsWritten(chunks, InitialDecoder(), data, 14);
  }

  /** The smallest witness: one written pixel reads back as 65. */
  lemma OnePixelReadsAsSixtyFive()
    ensures var data := EncodeFile(1, 1, [Colour(10, 20, 30)]);
            ReadLoop(data, HeaderEnd(data), InitialDecoder()).Some?
            && |ReadLoop(data, HeaderEnd(data), InitialDecoder()).value.0| == 65
  {
    AsWrittenAppendsRun(1, 1, [Colour(10, 20, 30)]);
  }
}
