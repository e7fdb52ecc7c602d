/**
 * QOIWriter and QOIReader of src/QOI.h as objects: the file streams they
 * hold by reference, the previous colour, the 64-entry lookup array and the
 * run length, updated in place by each call. Every method is proved against
 * the value model of module Qoi, whose round trip is proved in QoiRoundTrip.
 */
module QoiStreams {
  import opened Wrappers
  import opened Vectors
  import opened Qoi

  /** The position after n more get() calls from pos: a get() at the end of the file does not move. */
  function Advance(data: seq<Byte>, pos: nat, n: nat): (p: nat)
    requires pos <= |data|
    ensures p <= |data| && pos <= p
    ensures p == pos + n || (p == |data| && pos + n > |data|)
  {
    if pos + n <= |data| then pos + n else |data|
  }

  /** pixel / 255.0: what the reader pushes for a decoded colour. */
  function ToUnit(c: Colour): (v: Vec3)
    ensures InByteRange(c) ==> 0.0 <= v.x <= 1.0 && 0.0 <= v.y <= 1.0 && 0.0 <= v.z <= 1.0
  {
    Vec3(c.r as real / 255.0, c.g as real / 255.0, c.b as real / 255.0)
  }

  /** Every colour of ps scaled, in order. */
  function ToUnitAll(ps: seq<Colour>): (vs: seq<Vec3>)
    ensures |vs| == |ps|
  {
    if |ps| == 0 then [] else [ToUnit(ps[0])] + ToUnitAll(ps[1..])
  }

  lemma {:induction false} ToUnitAllAt(ps: seq<Colour>, i: nat)
    requires i < |ps|
    ensures ToUnitAll(ps)[i] == ToUnit(ps[i])
    decreases |ps|
  {
    if i > 0 {
      ToUnitAllAt(ps[1..], i - 1);
    }
  }

  /** Scaling distinct colours gives distinct vectors, so nothing is lost by the division. */
  lemma ToUnitInjective(a: Colour, b: Colour)
    requires ToUnit(a) == ToUnit(b)
    ensures a == b
  {
    assert a.r as real == ToUnit(a).x * 255.0;
    assert a.g as real == ToUnit(a).y * 255.0;
    assert a.b as real == ToUnit(a).z * 255.0;
  }

  lemma {:induction false} ToUnitAllAppend(a: seq<Colour>, b: seq<Colour>)
    ensures ToUnitAll(a + b) == ToUnitAll(a) + ToUnitAll(b)
    decreases |a|
  {
    if |a| == 0 {
      assert a + b == b;
    } else {
      assert (a + b)[1..] == a[1..] + b;
      ToUnitAllAppend(a[1..], b);
    }
  }

  lemma ToUnitAllOne(c: Colour)
    ensures ToUnitAll([c]) == [ToUnit(c)]
  {
    assert [c][1..] == [];
  }

  // ---------------------------------------------------------------------
  // The streams

  /** The std::ofstream the writer holds: the bytes written so far. */
  class OutputFile {
    var written: seq<Byte>

    constructor ()
      ensures written == []
    {
      written := [];
    }

    /** `filestream << (unsigned char) b`. */
    method Put(b: Byte)
      modifies this
      ensures written == old(written) + [b]
    {
      written := written + [b];
    }
  }

  /** The std::ifstream the reader holds: the file's bytes, the read position and the end-of-file flag. */
  class InputFile {
    const data: seq<Byte>
    var pos: nat
    var eof: bool

    /** The flag is raised only by a read at the end, which leaves the position there. */
    ghost predicate Valid()
      reads this
    {
      pos <= |data| && (eof ==> pos == |data|)
    }

    constructor (contents: seq<Byte>)
      ensures Valid() && data == contents && pos == 0 && !eof
    {
      data := contents;
      pos := 0;
      eof := false;
    }

    /** get(): the next byte, or -1 at the end of the file, which raises the end-of-file flag. */
    method Get() returns (c: int)
      requires Valid()
      modifies this
      ensures Valid()
      ensures c == At(data, old(pos)) && pos == Advance(data, old(pos), 1)
      ensures eof == (old(eof) || old(pos) == |data|)
    {
      if pos < |data| {
        c := data[pos];
        pos := pos + 1;
      } else {
        c := -1;
        eof := true;
      }
    }

    /** peek(): the next byte without consuming it; at the end of the file it also raises the flag. */
    method Peek() returns (c: int)
      requires Valid()
      modifies this
      ensures Valid() && pos == old(pos)
      ensures c == At(data, pos) && eof == (old(eof) || pos == |data|)
    {
      if pos < |data| {
        c := data[pos];
      } else {
        c := -1;
        eof := true;
      }
    }
  }

  // ---------------------------------------------------------------------
  // QOIWriter

  class Writer {
    const file: OutputFile
    var previous: Colour
    const lookup: array<Colour>
    var runLength: int

    ghost predicate Valid()
      reads this, lookup
    {
      lookup.Length == TableSize && 0 <= runLength < MaxRun && InByteRange(previous)
    }

    /** The writer's state as the value the encoder functions work on. */
    function State(): Encoder
      reads this, lookup
    {
      Encoder(previous, lookup[..], runLength)
    }

    /** QOIWriter(file, width, height): the initial state, and the 14-byte header written to the file. */
    constructor (file: OutputFile, width: int, height: int)
      modifies file
      ensures Valid() && State() == InitialEncoder() && this.file == file && fresh(lookup)
      ensures file.written == old(file.written) + Header(width, height)
    {
      this.file := file;
      previous := Black;
      lookup := new Colour[TableSize](_ => Black);
      runLength := 0;
      new;
      Write32(Magic);
      Write32(width);
      Write32(height);
      file.Put(3);
      file.Put(1);
      assert lookup[..] == BlackTable();
    }

    /** write32: the value's four bytes, most significant first. */
    method Write32(value: int)
      modifies file
      ensures file.written == old(file.written) + Qoi.Write32(value)
    {
      file.Put((value / 0x100_0000) % 0x100);
      file.Put((value / 0x1_0000) % 0x100);
      file.Put((value / 0x100) % 0x100);
      file.Put(value % 0x100);
    }

    /**
     * write_pixel: the pixel is floored and clamped into 0..255, then
     * encoded; the new state and the bytes written are those of
     * EncodePixel.
     */
    method WritePixel(pixel: Vec3)
      requires Valid()
      modifies this, lookup, file
      ensures Valid()
      ensures var step := EncodePixel(old(State()), Clamp(pixel));
              State() == step.0 && file.written == old(file.written) + Serialize(step.1)
    {
      ghost var e := State();
      var px := Clamp(pixel);
      if px == previous {
        runLength := runLength + 1;
        if runLength == MaxRun {
          file.Put(OpRun + (runLength - 1));
          runLength := 0;
          SerializeOne(Run(MaxRun));
        }
      } else {
        ghost var flush: seq<Chunk> := [];
        if runLength > 0 {
          file.Put(OpRun + (runLength - 1));
          flush := [Run(runLength)];
          runLength := 0;
        }
        assert file.written == old(file.written) + Serialize(flush) by {
          if flush != [] { SerializeOne(flush[0]); }
        }
        var key := GenKey(px);
        if px == lookup[key] {
          file.Put(OpIndex + key);
          SerializeAppendOne(flush, Index(key));
        } else {
          lookup[key] := px;
          WriteDelta(previous, px);
          SerializeAppendOne(flush, DeltaChunk(e.prev, px));
        }
      }
      previous := px;
    }

    /**
     * The bytes write_pixel writes for a colour that is neither the
     * previous one nor in the lookup: a Diff if every delta is in -2..1,
     * else a Luma if the green delta is in -32..31 and the red and blue ones
     * are within -8..7 of it, else the colour in full.
     */
    method WriteDelta(prev: Colour, px: Colour)
      requires InByteRange(prev) && InByteRange(px)
      modifies file
      ensures file.written == old(file.written) + ChunkBytes(DeltaChunk(prev, px))
    {
      var dr, dg, db := px.r - prev.r, px.g - prev.g, px.b - prev.b;
      var drDg, dbDg := dr - dg, db - dg;
      if -2 <= dr <= 1 && -2 <= dg <= 1 && -2 <= db <= 1 {
        file.Put(OpDiff + (dr + 2) * 16 + (dg + 2) * 4 + (db + 2));
      } else if -32 <= dg <= 31 && -8 <= drDg <= 7 && -8 <= dbDg <= 7 {
        file.Put(OpLuma + (dg + 32));
        file.Put((drDg + 8) * 16 + (dbDg + 8));
      } else {
        file.Put(OpRgb);
        file.Put(px.r);
        file.Put(px.g);
        file.Put(px.b);
      }
    }

    /** finish_run: the pending run, if any; the state is left as it is. */
    method FinishRun()
      requires Valid()
      modifies file
      ensures file.written == old(file.written) + Serialize(Qoi.FinishRun(State()))
    {
      if runLength > 0 {
        file.Put(OpRun + (runLength - 1));
        SerializeOne(Run(runLength));
      }
    }
  }

  lemma SerializeOne(ch: Chunk)
    requires WellFormed(ch)
    ensures Serialize([ch]) == ChunkBytes(ch)
  {
    assert [ch][1..] == [];
  }

  /** The bytes of chunks with one more at the end. */
  lemma SerializeAppendOne(chunks: seq<Chunk>, ch: Chunk)
    requires |chunks| <= 1 && AllWellFormed(chunks) && WellFormed(ch)
    ensures AllWellFormed(chunks + [ch]) && Serialize(chunks + [ch]) == Serialize(chunks) + ChunkBytes(ch)
  {
    SerializeOne(ch);
    if |chunks| == 1 {
      SerializeOne(chunks[0]);
      assert (chunks + [ch])[1..] == [ch];
    } else {
      assert chunks + [ch] == [ch];
    }
  }

  // ---------------------------------------------------------------------
  // QOIReader

  class Reader {
    const file: InputFile
    var previous: Colour
    const lookup: array<Colour>
    var width: int
    var height: int
    var channels: int
    var colourSpace: int
    /** "Invalid QOI file" was reported on the error stream. */
    var reported: bool

    ghost predicate Valid()
      reads this, lookup, file
    {
      lookup.Length == TableSize && file.Valid()
    }

    /** The reader's state as the value the decoder functions work on. */
    function State(): Decoder
      reads this, lookup
    {
      Decoder(previous, lookup[..])
    }

    /** read32: four get()s, most significant first; a -1 from the end of the file sets every bit. */
    method Read32() returns (v: int)
      requires Valid()
      modifies file
      ensures Valid()
      ensures v == Qoi.Read32(file.data, old(file.pos)) && file.pos == Advance(file.data, old(file.pos), 4)
      ensures file.eof == (old(file.eof) || old(file.pos) + 4 > |file.data|)
    {
      ghost var p := file.pos;
      var b0 := file.Get();
      AdvanceStep(file.data, p, 0);
      var b1 := file.Get();
      AdvanceStep(file.data, p, 1);
      var b2 := file.Get();
      AdvanceStep(file.data, p, 2);
      var b3 := file.Get();
      AdvanceStep(file.data, p, 3);
      // The bytes occupy disjoint bits, so or-ing them in is a sum.
      v := if b3 == -1 then 0xffff_ffff else BigEndian(b0, b1, b2, b3);
    }

    /**
     * QOIReader(file): four get()s for the magic; if they do not spell
     * "qoif" the error is reported and nothing else is read, otherwise the
     * width, height, channels and colour space follow.
     */
    constructor (file: InputFile)
      requires file.Valid()
      modifies file
      ensures Valid() && this.file == file && State() == InitialDecoder() && fresh(lookup)
      ensures var rest := old(file.data[file.pos..]);
              reported == !MagicOk(rest)
              && file.pos == Advance(file.data, old(file.pos), HeaderEnd(rest))
              && file.eof == (old(file.eof) || old(file.pos) + HeaderEnd(rest) > |file.data|)
      ensures var p := old(file.pos);
              MagicOk(file.data[p..]) ==>
                width == Qoi.Read32(file.data, p + 4) && height == Qoi.Read32(file.data, p + 8)
                && channels == At(file.data, p + 12) % 256 && colourSpace == At(file.data, p + 13) % 256
    {
      this.file := file;
      previous := Black;
      lookup := new Colour[TableSize](_ => Black);
      width, height, channels, colourSpace := 0, 0, 0, 0;
      reported := false;
      new;
      assert lookup[..] == BlackTable();
      ghost var p := file.pos;
      ghost var rest := file.data[p..];
      var header: seq<int> := [];
      for i := 0 to 4
        modifies file
        invariant file.Valid() && file.pos == Advance(file.data, p, i)
        invariant file.eof == (old(file.eof) || p + i > |file.data|)
        invariant |header| == i && forall j :: 0 <= j < i ==> header[j] == At(file.data, p + j) % 256
      {
        var c := file.Get();
        header := header + [c % 256];
      }
      HeaderIsMagic(file.data, p, header);
      if header != Qoi.Write32(Magic) {
        reported := true;
        return;
      }
      width := Read32();
      height := Read32();
      var c := file.Get();
      channels := c % 256;
      c := file.Get();
      colourSpace := c % 256;
    }

    /** r and the reader's state are what the loop pass s pushes after pixels and leaves behind. */
    ghost predicate Pushes(r: Option<seq<Vec3>>, pixels: seq<Vec3>, s: Option<Step>)
      reads this, lookup
    {
      match s
      case None => r.None?
      case Some(st) => r == Some(pixels + ToUnitAll(st.pixels)) && State() == st.next
    }

    /**
     * One pass of read_all's loop: one get() for the tag, then the bytes of
     * the chunk; the pixels pushed and the new state are those of
     * ReadStep. None stands for a negative key, which would write lookup
     * out of bounds.
     */
    method ReadChunk(pixels: seq<Vec3>) returns (r: Option<seq<Vec3>>)
      requires Valid()
      modifies this, lookup, file
      ensures Valid()
      ensures var s := ReadStep(file.data, old(file.pos), old(State()));
              Pushes(r, pixels, s)
              && (s.Some? ==> file.pos == Advance(file.data, old(file.pos), s.value.used)
                              && file.eof == (old(file.eof) || old(file.pos) + s.value.used > |file.data|))
    {
      ghost var p := file.pos;
      var c := file.Get();
      var op: Byte := c % 256;
      AtAfter(file.data, p);
      if op == OpRgb {
        r := ReadRgb(pixels);
      } else if op >= OpRun {
        r := ReadRun(pixels, op);
      } else if op < OpDiff {
        r := ReadIndex(pixels, op);
      } else if op < OpLuma {
        r := ReadDiff(pixels, op);
      } else {
        // (op & 0xc0) == QOI_OP_LUMA: the four tags cover every byte.
        r := ReadLuma(pixels, op);
      }
    }

    /** QOI_OP_RGB: three get()s for the channels; the colour is shown. */
    method ReadRgb(pixels: seq<Vec3>) returns (r: Option<seq<Vec3>>)
      requires Valid()
      modifies this, lookup, file
      ensures Valid()
      ensures var q := old(file.pos);
              var px := Colour(At(file.data, q), At(file.data, q + 1), At(file.data, q + 2));
              Pushes(r, pixels, ShowChecked(px, old(State()), 4))
              && file.pos == Advance(file.data, q, 3) && file.eof == (old(file.eof) || q + 3 > |file.data|)
    {
      var x := file.Get();
      var y := file.Get();
      var z := file.Get();
      var px := Colour(x, y, z);
      r := Some(pixels + [ToUnit(px)]);
      ToUnitAllOne(px);
      previous := px;
      var key := GenKey(px);
      if key < 0 {
        return None;
      }
      lookup[key] := px;
    }

    /** QOI_OP_RUN: the previous colour pushed (op & 0x3f) + 1 times; nothing else changes. */
    method ReadRun(pixels: seq<Vec3>, op: Byte) returns (r: Option<seq<Vec3>>)
      requires Valid() && op >= OpRun
      ensures Pushes(r, pixels, Some(Step(Repeat(previous, op % 64 + 1), State(), 1)))
    {
      var n := op % 64 + 1;
      var out := pixels;
      for i := 0 to n
        invariant out == pixels + ToUnitAll(Repeat(previous, i))
      {
        assert Repeat(previous, i + 1) == Repeat(previous, i) + [previous];
        ToUnitAllAppend(Repeat(previous, i), [previous]);
        ToUnitAllOne(previous);
        out := out + [ToUnit(previous)];
      }
      r := Some(out);
    }

    /** QOI_OP_INDEX: the colour at lookup[op & 0x3f] is pushed and becomes the previous one. */
    method ReadIndex(pixels: seq<Vec3>, op: Byte) returns (r: Option<seq<Vec3>>)
      requires Valid() && op < OpDiff
      modifies this
      ensures Valid()
      ensures var px := old(lookup[op % 64]);
              Pushes(r, pixels, Some(Step([px], Decoder(px, old(State()).table), 1)))
    {
      var px := lookup[op % 64];
      r := Some(pixels + [ToUnit(px)]);
      ToUnitAllOne(px);
      previous := px;
    }

    /** QOI_OP_DIFF: three two-bit deltas biased by 2, added to the previous colour. */
    method ReadDiff(pixels: seq<Vec3>, op: Byte) returns (r: Option<seq<Vec3>>)
      requires Valid() && OpDiff <= op < OpLuma
      modifies this, lookup
      ensures Valid()
      ensures Pushes(r, pixels, ShowChecked(DiffColour(old(previous), op), old(State()), 1))
    {
      var dr, dg, db := op / 16 % 4 - 2, op / 4 % 4 - 2, op % 4 - 2;
      previous := Colour(CRem(previous.r + dr, 256), CRem(previous.g + dg, 256), CRem(previous.b + db, 256));
      r := Some(pixels + [ToUnit(previous)]);
      ToUnitAllOne(previous);
      var key := GenKey(previous);
      if key < 0 {
        return None;
      }
      lookup[key] := previous;
    }

    /**
     * QOI_OP_LUMA: a six-bit green delta biased by 32, then one more get()
     * for the red and blue deltas relative to it, four bits each biased by 8.
     */
    method ReadLuma(pixels: seq<Vec3>, op: Byte) returns (r: Option<seq<Vec3>>)
      requires Valid()
      modifies this, lookup, file
      ensures Valid()
      ensures var q := old(file.pos);
              Pushes(r, pixels, ShowChecked(LumaColour(old(previous), op, At(file.data, q) % 256), old(State()), 2))
              && file.pos == Advance(file.data, q, 1) && file.eof == (old(file.eof) || q + 1 > |file.data|)
    {
      var dg := op % 64 - 32;
      var c := file.Get();
      var second: Byte := c % 256;
      var drDg, dbDg := second / 16 - 8, second % 16 - 8;
      var dr, db := drDg + dg, dbDg + dg;
      previous := Colour(CRem(previous.r + dr, 256), CRem(previous.g + dg, 256), CRem(previous.b + db, 256));
      r := Some(pixels + [ToUnit(previous)]);
      ToUnitAllOne(previous);
      var key := GenKey(previous);
      if key < 0 {
        return None;
      }
      lookup[key] := previous;
    }

    /**
     * read_all as written: passes of the loop body until the end-of-file
     * flag is up. If the constructor already ran into the end, nothing is
     * read; otherwise the pixels are those of ReadLoop, which end with a
     * run of 64 read from the end of the file.
     */
    method ReadAll(pixels: seq<Vec3>) returns (r: Option<seq<Vec3>>)
      requires Valid()
      modifies this, lookup, file
      ensures old(file.eof) ==> r == Some(pixels) && State() == old(State())
      ensures !old(file.eof) ==>
                match ReadLoop(file.data, old(file.pos), old(State()))
                case None => r.None?
                case Some(res) => r == Some(pixels + ToUnitAll(res.0)) && Valid() && State() == res.1 && file.eof
    {
      ghost var p0, d0, e0 := file.pos, State(), file.eof;
      ghost var done: seq<Colour> := [];
      var out := pixels;
      ThenNil(ReadLoop(file.data, p0, d0));
      while !file.eof
        invariant Valid() && out == pixels + ToUnitAll(done)
        invariant e0 ==> done == [] && State() == d0
        invariant !e0 && !file.eof ==> ReadLoop(file.data, p0, d0) == Then(done, ReadLoop(file.data, file.pos, State()))
        invariant !e0 && file.eof ==> ReadLoop(file.data, p0, d0) == Some((done, State()))
        decreases |file.data| - file.pos, if file.eof then 0 else 1
      {
        ghost var p, d := file.pos, State();
        var next := ReadChunk(out);
        LoopStep(file.data, p, d);
        if next.None? {
          return None;
        }
        ghost var s := ReadStep(file.data, p, d).value;
        ThenAppend(done, s.pixels, ReadLoop(file.data, file.pos, s.next));
        PushedMore(pixels, done, s.pixels);
        out := next.value;
        done := done + s.pixels;
      }
      r := Some(out);
    }

    /**
     * read_all with the end of the file tested before each chunk (peek()
     * instead of the flag): the pixels are those of ReadChunks.
     */
    method ReadAllToEnd(pixels: seq<Vec3>) returns (r: Option<seq<Vec3>>)
      requires Valid()
      modifies this, lookup, file
      ensures match ReadChunks(file.data, old(file.pos), old(State()))
              case None => r.None?
              case Some(res) =>
                r == Some(pixels + ToUnitAll(res.0)) && Valid() && State() == res.1 && file.pos == |file.data|
    {
      ghost var p0, d0 := file.pos, State();
      ghost var done: seq<Colour> := [];
      var out := pixels;
      var c := file.Peek();
      ThenNil(ReadChunks(file.data, p0, d0));
      while c != -1
        invariant Valid() && out == pixels + ToUnitAll(done)
        invariant c == -1 <==> file.pos == |file.data|
        invariant ReadChunks(file.data, p0, d0) == Then(done, ReadChunks(file.data, file.pos, State()))
        decreases |file.data| - file.pos
      {
        ghost var p, d := file.pos, State();
        var next := ReadChunk(out);
        ChunksStep(file.data, p, d);
        if next.None? {
          return None;
        }
        ghost var s := ReadStep(file.data, p, d).value;
        ThenAppend(done, s.pixels, ReadChunks(file.data, file.pos, s.next));
        PushedMore(pixels, done, s.pixels);
        out := next.value;
        done := done + s.pixels;
        c := file.Peek();
      }
      assert ReadChunks(file.data, file.pos, State()) == Some(([], State()));
      assert done + [] == done;
      r := Some(out);
    }
  }

  /** The four bytes the constructor collects spell "qoif" exactly when the magic is right. */
  lemma HeaderIsMagic(data: seq<Byte>, p: nat, header: seq<int>)
    requires p <= |data| && |header| == 4
    requires forall j :: 0 <= j < 4 ==> header[j] == At(data, p + j) % 256
    ensures header == Qoi.Write32(Magic) <==> MagicOk(data[p..])
  {
    var magic := Qoi.Write32(Magic);
    assert magic == [0x71, 0x6f, 0x69, 0x66];
    if p + 4 <= |data| {
      forall j | 0 <= j < 4 ensures header[j] == data[p..][..4][j] {
        assert At(data, p + j) == data[p + j];
      }
      assert header == data[p..][..4];
    } else {
      assert header[3] == 255;
      assert header != magic;
      assert !MagicOk(data[p..]);
    }
  }

  lemma ThenNil(rest: Option<(seq<Colour>, Decoder)>)
    ensures Then([], rest) == rest
  {
    if rest.Some? {
      assert [] + rest.value.0 == rest.value.0;
    }
  }

  lemma ThenAppend(a: seq<Colour>, b: seq<Colour>, rest: Option<(seq<Colour>, Decoder)>)
    ensures Then(a, Then(b, rest)) == Then(a + b, rest)
  {
    if rest.Some? {
      assert a + (b + rest.value.0) == (a + b) + rest.value.0;
    }
  }

  /** A pass of the corrected loop from inside the file, followed by the rest of it from where the pass ends. */
  lemma ChunksStep(data: seq<Byte>, pos: nat, d: Decoder)
    requires pos < |data| && |d.table| == TableSize
    ensures ReadStep(data, pos, d).None? ==> ReadChunks(data, pos, d).None?
    ensures ReadStep(data, pos, d).Some? ==>
              var s := ReadStep(data, pos, d).value;
              ReadChunks(data, pos, d) == Then(s.pixels, ReadChunks(data, Advance(data, pos, s.used), s.next))
  {
    if ReadStep(data, pos, d).Some? {
      var s := ReadStep(data, pos, d).value;
      if pos + s.used > |data| {
        assert s.pixels + [] == s.pixels;
      }
    }
  }

  /** After the tag's get(), reading on from the new position reads the bytes after the tag. */
  lemma AtAfter(data: seq<Byte>, p: nat)
    requires p <= |data|
    ensures var q := Advance(data, p, 1);
            At(data, q) == At(data, p + 1) && At(data, q + 1) == At(data, p + 2) && At(data, q + 2) == At(data, p + 3)
            && Advance(data, q, 1) == Advance(data, p, 2) && Advance(data, q, 3) == Advance(data, p, 4)
  {
  }

  /** One pass of the loop as written, as ReadLoop takes it. */
  lemma LoopStep(data: seq<Byte>, pos: nat, d: Decoder)
    requires pos <= |data| && |d.table| == TableSize
    ensures ReadStep(data, pos, d).None? ==> ReadLoop(data, pos, d).None?
    ensures ReadStep(data, pos, d).Some? ==>
              var s := ReadStep(data, pos, d).value;
              (pos + s.used > |data| ==> ReadLoop(data, pos, d) == Some((s.pixels, s.next)))
              && (pos + s.used <= |data| ==> ReadLoop(data, pos, d) == Then(s.pixels, ReadLoop(data, pos + s.used, s.next)))
  {
  }

  /** The k-th get() from p reads the byte at p + k, and one more get() advances k + 1 from p. */
  lemma AdvanceStep(data: seq<Byte>, p: nat, k: nat)
    requires p <= |data|
    ensures At(data, Advance(data, p, k)) == At(data, p + k)
    ensures Advance(data, Advance(data, p, k), 1) == Advance(data, p, k + 1)
  {
  }

  /** Pushing the scaled colours of more after those of done is pushing those of done + more. */
  lemma PushedMore(pixels: seq<Vec3>, done: seq<Colour>, more: seq<Colour>)
    ensures (pixels + ToUnitAll(done)) + ToUnitAll(more) == pixels + ToUnitAll(done + more)
  {
    ToUnitAllAppend(done, more);
  }
}
