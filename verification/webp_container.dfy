/**
 The RIFF container of a WebP file (sections 2.3, 2.4 and 2.7 of RFC 9649).

 `Walks` and `ChunksFrom` specify every loop that goes through the chunks; `EncodeChunks` is
 their printer. What the parser accepts beyond what the printer writes is in `WebpGrammar`.
 */
module WebpContainer {
  import opened Wrappers
  import opened Bytes
  import opened Layout

  const RIFF := Tag(0x52, 0x49, 0x46, 0x46)
  const WEBP := Tag(0x57, 0x45, 0x42, 0x50)
  const VP8X := Tag(0x56, 0x50, 0x38, 0x58)
  const VP8 := Tag(0x56, 0x50, 0x38, 0x20)
  const VP8L := Tag(0x56, 0x50, 0x38, 0x4C)
  const ALPH := Tag(0x41, 0x4C, 0x50, 0x48)
  const ANMF := Tag(0x41, 0x4E, 0x4D, 0x46)
  const ICCP := Tag(0x49, 0x43, 0x43, 0x50)
  const EXIF := Tag(0x45, 0x58, 0x49, 0x46)
  const XMP := Tag(0x58, 0x4D, 0x50, 0x20)

  datatype Chunk = Chunk(fourcc: Tag, payload: seq<byte>)

  /** A parsed chunk as truss keeps it: the code and the payload's range in the file. */
  datatype ChunkRange = ChunkRange(fourcc: Tag, start: nat, end: nat)

  // ---------- printing ----------

  function Padding(length: nat): seq<byte> {
    if length % 2 == 0 then [] else [0]
  }

  function EncodeChunk(c: Chunk): seq<byte> {
    c.fourcc.Bytes() + Le32(|c.payload|) + c.payload + Padding(|c.payload|)
  }

  function EncodeChunks(cs: seq<Chunk>): seq<byte> {
    if cs == [] then [] else EncodeChunk(cs[0]) + EncodeChunks(cs[1..])
  }

  function Container(cs: seq<Chunk>): seq<byte> {
    RIFF.Bytes() + Le32(|EncodeChunks(cs)| + 4) + WEBP.Bytes() + EncodeChunks(cs)
  }

  /** Every payload length is one a chunk's 32-bit size field can hold. */
  predicate Sized(cs: seq<Chunk>) {
    forall i | 0 <= i < |cs| :: |cs[i].payload| < U32_LIMIT
  }

  // ---------- parsing ----------

  function End(b: seq<byte>, offset: nat): nat
    requires offset + 8 <= |b|
  {
    offset + 8 + Le32At(b, offset + 4)
  }

  /** Where the next chunk starts: payloads are padded to an even length. */
  function Next(b: seq<byte>, offset: nat): nat
    requires offset + 8 <= |b|
  {
    End(b, offset) + Le32At(b, offset + 4) % 2
  }

  /** Every chunk from `offset` on lies inside the file. */
  predicate Walks(b: seq<byte>, offset: nat)
    decreases |b| - offset
  {
    offset + 8 <= |b| ==> End(b, offset) <= |b| && Walks(b, Next(b, offset))
  }

  function ChunkAt(b: seq<byte>, offset: nat): Chunk
    requires offset + 8 <= |b| && End(b, offset) <= |b|
  {
    Chunk(TagAt(b, offset), b[offset + 8..End(b, offset)])
  }

  function ChunksFrom(b: seq<byte>, offset: nat): seq<Chunk>
    requires Walks(b, offset)
    decreases |b| - offset
  {
    if offset + 8 > |b| then [] else [ChunkAt(b, offset)] + ChunksFrom(b, Next(b, offset))
  }

  predicate HasHeader(b: seq<byte>) {
    |b| >= 12 && TagAt(b, 0) == RIFF && TagAt(b, 8) == WEBP
  }

  function ParseContainer(b: seq<byte>): Option<seq<Chunk>> {
    if HasHeader(b) && Walks(b, 12) then Some(ChunksFrom(b, 12)) else None
  }

  // ---------- the parser inverts the printer ----------

  lemma EncodedChunkAt(b: seq<byte>, offset: nat, c: Chunk)
    requires |c.payload| < U32_LIMIT
    requires Holds(b, offset, EncodeChunk(c))
    ensures End(b, offset) <= |b| && ChunkAt(b, offset) == c && Next(b, offset) == offset + |EncodeChunk(c)|
  {
    var size := |c.payload|;
    var head, pad := c.fourcc.Bytes() + Le32(size), Padding(size);
    HoldsBoth(b, offset, head + c.payload, pad);
    HoldsBoth(b, offset, head, c.payload);
    HoldsBoth(b, offset, c.fourcc.Bytes(), Le32(size));
    ReadAfterWrite(size, 4);
    assert TagAt(b, offset).Bytes() == b[offset..offset + 4];
  }

  lemma {:induction false} ParseEncoded(b: seq<byte>, offset: nat, cs: seq<Chunk>)
    requires Sized(cs)
    requires Holds(b, offset, EncodeChunks(cs)) && |b| < offset + |EncodeChunks(cs)| + 8
    ensures Walks(b, offset) && ChunksFrom(b, offset) == cs
    decreases |cs|
  {
    if cs != [] {
      HoldsBoth(b, offset, EncodeChunk(cs[0]), EncodeChunks(cs[1..]));
      EncodedChunkAt(b, offset, cs[0]);
      ParseEncoded(b, Next(b, offset), cs[1..]);
      assert [cs[0]] + cs[1..] == cs;
    }
  }

  lemma ContainerLayout(body: seq<byte>)
    ensures var b := RIFF.Bytes() + Le32(|body| + 4) + WEBP.Bytes() + body;
            && HasHeader(b)
            && b[12..] == body
            && (|body| + 4 < U32_LIMIT <==> Le32At(b, 4) == |b| - 8)
  {
    var size := Le32(|body| + 4);
    var b := RIFF.Bytes() + size + WEBP.Bytes() + body;
    assert b[4..8] == size;
    if |body| + 4 < U32_LIMIT {
      ReadAfterWrite(|body| + 4, 4);
    }
  }

  /** Round trip: a printed container parses to its chunks. */
  lemma ParseContainerEncoded(cs: seq<Chunk>)
    requires Sized(cs)
    ensures ParseContainer(Container(cs)) == Some(cs)
  {
    var body, b := EncodeChunks(cs), Container(cs);
    ContainerLayout(body);
    ParseEncoded(b, 12, cs);
  }

  /** The RIFF size field of a printed container is honest as long as it can hold the size. */
  lemma RiffSize(cs: seq<Chunk>)
    ensures |EncodeChunks(cs)| + 4 < U32_LIMIT <==> Le32At(Container(cs), 4) == |Container(cs)| - 8
  {
    ContainerLayout(EncodeChunks(cs));
  }

  /** Re-printing what was parsed adds at most the one pad byte the file may have left off. */
  lemma {:induction false} ReencodedLength(b: seq<byte>, offset: nat)
    requires Walks(b, offset) && offset <= |b| + 1
    ensures offset + |EncodeChunks(ChunksFrom(b, offset))| <= |b| + 1
    decreases |b| - offset
  {
    if offset + 8 <= |b| {
      ReencodedLength(b, Next(b, offset));
      var c, rest := ChunkAt(b, offset), ChunksFrom(b, Next(b, offset));
      assert ([c] + rest)[1..] == rest;
    }
  }

  lemma {:induction false} EncodeConcat(cs: seq<Chunk>, ds: seq<Chunk>)
    ensures EncodeChunks(cs + ds) == EncodeChunks(cs) + EncodeChunks(ds)
  {
    if cs == [] {
      assert cs + ds == ds;
    } else {
      assert (cs + ds)[1..] == cs[1..] + ds;
      EncodeConcat(cs[1..], ds);
    }
  }

  lemma EncodeSingle(c: Chunk)
    ensures EncodeChunks([c]) == EncodeChunk(c)
  {
    assert [c][1..] == [];
    assert EncodeChunk(c) + [] == EncodeChunk(c);
  }

  /** A container small enough for its RIFF size field has only chunks that fit theirs. */
  lemma {:induction false} SmallIsSized(cs: seq<Chunk>)
    requires |EncodeChunks(cs)| < U32_LIMIT
    ensures Sized(cs)
  {
    if cs != [] {
      SmallIsSized(cs[1..]);
      forall i | 0 <= i < |cs|
        ensures |cs[i].payload| < U32_LIMIT
      {
        if i > 0 {
          assert cs[i] == cs[1..][i - 1];
        }
      }
    }
  }

  // ---------- the loop ----------

  ghost predicate InFile(b: seq<byte>, ranges: seq<ChunkRange>) {
    forall i | 0 <= i < |ranges| :: ranges[i].start <= ranges[i].end <= |b|
  }

  function ChunkOf(b: seq<byte>, r: ChunkRange): Chunk
    requires r.start <= r.end <= |b|
  {
    Chunk(r.fourcc, b[r.start..r.end])
  }

  ghost function Contents(b: seq<byte>, ranges: seq<ChunkRange>): seq<Chunk>
    requires InFile(b, ranges)
  {
    seq(|ranges|, i requires 0 <= i < |ranges| => ChunkOf(b, ranges[i]))
  }

  lemma ContentsAppend(b: seq<byte>, ranges: seq<ChunkRange>, r: ChunkRange)
    requires InFile(b, ranges) && r.start <= r.end <= |b|
    ensures InFile(b, ranges + [r]) && Contents(b, ranges + [r]) == Contents(b, ranges) + [ChunkOf(b, r)]
  {
  }

  lemma ChunksStep(b: seq<byte>, offset: nat, done: seq<Chunk>)
    requires offset + 8 <= |b| && End(b, offset) <= |b| && Walks(b, offset)
    ensures done + ChunksFrom(b, offset) == done + [ChunkAt(b, offset)] + ChunksFrom(b, Next(b, offset))
  {
    var c, rest := ChunkAt(b, offset), ChunksFrom(b, Next(b, offset));
    assert done + ([c] + rest) == done + [c] + rest;
  }

  /** With these chunks found and this offset reached, the walk has lost nothing. */
  ghost predicate Pending(b: seq<byte>, offset: nat, done: seq<Chunk>) {
    && (Walks(b, 12) <==> Walks(b, offset))
    && (Walks(b, offset) ==> done + ChunksFrom(b, offset) == ChunksFrom(b, 12))
  }

  lemma PendingStep(b: seq<byte>, offset: nat, done: seq<Chunk>)
    requires offset + 8 <= |b| && End(b, offset) <= |b| && Pending(b, offset, done)
    ensures Pending(b, Next(b, offset), done + [ChunkAt(b, offset)])
  {
    if Walks(b, offset) {
      ChunksStep(b, offset, done);
    }
  }

  lemma PendingStart(b: seq<byte>)
    ensures Pending(b, 12, []) && InFile(b, []) && Contents(b, []) == []
  {
    if Walks(b, 12) {
      assert [] + ChunksFrom(b, 12) == ChunksFrom(b, 12);
    }
  }

  lemma PendingDone(b: seq<byte>, offset: nat, done: seq<Chunk>)
    requires |b| < offset + 8 && Pending(b, offset, done)
    ensures Walks(b, 12) && ChunksFrom(b, 12) == done
  {
    assert done + [] == done;
  }

  lemma PendingStuck(b: seq<byte>, offset: nat, done: seq<Chunk>)
    requires offset + 8 <= |b| && End(b, offset) > |b| && Pending(b, offset, done)
    ensures !Walks(b, 12)
  {
  }

  /** Splits a container into its chunks: succeeds exactly where the grammar does. */
  method ParseWebpChunks(encoded: seq<byte>) returns (r: Result<seq<ChunkRange>>)
    ensures r.Ok? <==> ParseContainer(encoded).Some?
    ensures r.Ok? ==> InFile(encoded, r.value) && Contents(encoded, r.value) == ParseContainer(encoded).value
    ensures r.Err? ==> r == Err(EncodeFailed)
  {
    hide Walks, ChunksFrom, Pending, LeValue, Contents;
    if |encoded| < 12 || TagAt(encoded, 0) != RIFF || TagAt(encoded, 8) != WEBP {
      return Err(EncodeFailed);
    }
    var chunks: seq<ChunkRange> := [];
    var offset := 12;
    ghost var done: seq<Chunk> := [];
    PendingStart(encoded);
    while offset + 8 <= |encoded|
      invariant InFile(encoded, chunks) && Contents(encoded, chunks) == done
      invariant Pending(encoded, offset, done)
      decreases |encoded| - offset
    {
      var fourcc := TagAt(encoded, offset);
      var size := Le32At(encoded, offset + 4);
      var start := offset + 8;
      var end := start + size;
      if end > |encoded| {
        PendingStuck(encoded, offset, done);
        return Err(EncodeFailed);
      }
      var found := ChunkRange(fourcc, start, end);
      ContentsAppend(encoded, chunks, found);
      PendingStep(encoded, offset, done);
      done := done + [ChunkOf(encoded, found)];
      chunks := chunks + [found];
      offset := end + size % 2;
    }
    PendingDone(encoded, offset, done);
    return Ok(chunks);
  }

  /** Appends one chunk, padding its payload to an even length. */
  method PushWebpChunk(out: ByteVec, fourcc: Tag, payload: seq<byte>)
    modifies out
    ensures out.data == old(out.data) + EncodeChunk(Chunk(fourcc, payload))
  {
    out.ExtendFromSlice(fourcc.Bytes());
    out.ExtendFromSlice(Le32(|payload|));
    out.ExtendFromSlice(payload);
    if |payload| % 2 != 0 {
      out.Push(0);
    }
    assert out.data == old(out.data) + EncodeChunk(Chunk(fourcc, payload));
  }
}
