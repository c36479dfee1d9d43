/**
 Every file the WebP parser accepts. It accepts more than the printer writes: any size field, pad
 bytes of any value, a missing final pad byte, and up to seven trailing bytes.
 */
module WebpGrammar {
  import opened Wrappers
  import opened Bytes
  import opened Layout
  import opened WebpContainer

  function LooseChunk(c: Chunk, pad: seq<byte>): seq<byte> {
    (c.fourcc.Bytes() + Le32(|c.payload|)) + (c.payload + pad)
  }

  function LooseChunks(cs: seq<Chunk>, pads: seq<seq<byte>>): seq<byte>
    requires |cs| == |pads|
  {
    if cs == [] then [] else LooseChunk(cs[0], pads[0]) + LooseChunks(cs[1..], pads[1..])
  }

  /** An odd payload takes one byte of any value; at the very end of the file it may be missing. */
  predicate PadFits(length: nat, pad: seq<byte>, last: bool) {
    if length % 2 == 0 then pad == [] else |pad| == 1 || (last && pad == [])
  }

  predicate PadsFit(cs: seq<Chunk>, pads: seq<seq<byte>>, tail: seq<byte>)
    requires |cs| == |pads|
  {
    cs == [] || (PadFits(|cs[0].payload|, pads[0], |cs| == 1 && tail == []) && PadsFit(cs[1..], pads[1..], tail))
  }

  predicate FitSize(cs: seq<Chunk>) {
    cs == [] || (|cs[0].payload| < U32_LIMIT && FitSize(cs[1..]))
  }

  /** What the parser reads past the header: the chunks with such pads, and a tail too short for another. */
  ghost predicate Accepted(body: seq<byte>, cs: seq<Chunk>, pads: seq<seq<byte>>, tail: seq<byte>) {
    && |cs| == |pads| && FitSize(cs) && PadsFit(cs, pads, tail) && |tail| < 8
    && body == LooseChunks(cs, pads) + tail
  }

  // ---------- one chunk ----------

  lemma LooseChunkAt(b: seq<byte>, i: nat, c: Chunk, pad: seq<byte>)
    requires |c.payload| < U32_LIMIT && Holds(b, i, LooseChunk(c, pad))
    ensures i + 8 <= |b| && End(b, i) == i + 8 + |c.payload| <= |b| && ChunkAt(b, i) == c
    ensures |LooseChunk(c, pad)| == 8 + |c.payload| + |pad|
  {
    var size := |c.payload|;
    HoldsBoth(b, i, c.fourcc.Bytes() + Le32(size), c.payload + pad);
    HoldsBoth(b, i + 8, c.payload, pad);
    HoldsBoth(b, i, c.fourcc.Bytes(), Le32(size));
    assert Limit(4) == U32_LIMIT;
    ReadAfterWrite(size, 4);
    assert TagAt(b, i).Bytes() == b[i..i + 4];
  }

  /** A chunk is read from bytes that print it, its pad aside. */
  lemma ChunkBytes(b: seq<byte>, i: nat, end: nat)
    requires i + 8 <= |b| && End(b, i) <= end <= |b|
    ensures |ChunkAt(b, i).payload| < U32_LIMIT && |ChunkAt(b, i).payload| == Le32At(b, i + 4)
    ensures b[i..end] == LooseChunk(ChunkAt(b, i), b[End(b, i)..end])
  {
    var c, k := ChunkAt(b, i), End(b, i);
    WriteAfterReadLe(b[i + 4..i + 8]);
    assert c.fourcc.Bytes() == b[i..i + 4];
    assert b[i..i + 4] + b[i + 4..i + 8] == b[i..i + 8];
    assert b[i + 8..k] + b[k..end] == b[i + 8..end];
    assert b[i..i + 8] + b[i + 8..end] == b[i..end];
  }

  // ---------- the list ----------

  lemma LooseStep(b: seq<byte>, i: nat, cs: seq<Chunk>, pads: seq<seq<byte>>, tail: seq<byte>)
    requires |cs| == |pads| && cs != [] && Holds(b, i, LooseChunks(cs, pads) + tail)
    ensures Holds(b, i, LooseChunk(cs[0], pads[0]))
    ensures Holds(b, i + |LooseChunk(cs[0], pads[0])|, LooseChunks(cs[1..], pads[1..]) + tail)
    ensures |LooseChunks(cs, pads) + tail|
            == |LooseChunk(cs[0], pads[0])| + |LooseChunks(cs[1..], pads[1..]) + tail|
  {
    hide LooseChunk;
    var first, rest := LooseChunk(cs[0], pads[0]), LooseChunks(cs[1..], pads[1..]);
    assert LooseChunks(cs, pads) == first + rest;
    hide LooseChunks, Holds;
    Regroup(first, rest, tail);
    HoldsBoth(b, i, first, rest + tail);
  }

  lemma {:induction false} LooseRead(b: seq<byte>, i: nat, cs: seq<Chunk>, pads: seq<seq<byte>>, tail: seq<byte>)
    requires |cs| == |pads| && FitSize(cs) && PadsFit(cs, pads, tail) && |tail| < 8
    requires Holds(b, i, LooseChunks(cs, pads) + tail) && |b| == i + |LooseChunks(cs, pads) + tail|
    ensures Walks(b, i) && ChunksFrom(b, i) == cs
    decreases |cs|
  {
    if cs != [] {
      hide LooseChunks, LooseChunk, Holds, ChunkAt;
      LooseStep(b, i, cs, pads, tail);
      LooseChunkAt(b, i, cs[0], pads[0]);
      var next := i + |LooseChunk(cs[0], pads[0])|;
      if Next(b, i) == next {
        LooseRead(b, next, cs[1..], pads[1..], tail);
      } else {
        NothingLeft(b, next, cs[1..], pads[1..], tail);
      }
    }
  }

  /** A missing pad byte leaves the walk one past the end, with nothing to read. */
  lemma NothingLeft(b: seq<byte>, next: nat, cs: seq<Chunk>, pads: seq<seq<byte>>, tail: seq<byte>)
    requires |cs| == |pads| && cs == [] && tail == [] && |b| == next + |LooseChunks(cs, pads) + tail|
    ensures next == |b| && Walks(b, next + 1) && ChunksFrom(b, next + 1) == []
  {
  }

  lemma Prepend(c: Chunk, pad: seq<byte>, cs: seq<Chunk>, pads: seq<seq<byte>>, tail: seq<byte>)
    requires |cs| == |pads|
    ensures |[c] + cs| == |[pad] + pads|
    ensures LooseChunks([c] + cs, [pad] + pads) == LooseChunk(c, pad) + LooseChunks(cs, pads)
    ensures PadsFit([c] + cs, [pad] + pads, tail)
            <==> PadFits(|c.payload|, pad, cs == [] && tail == []) && PadsFit(cs, pads, tail)
    ensures FitSize([c] + cs) <==> |c.payload| < U32_LIMIT && FitSize(cs)
  {
    hide LooseChunk, PadFits;
    assert ([c] + cs)[1..] == cs && ([pad] + pads)[1..] == pads;
  }

  lemma AcceptedPrepend(c: Chunk, pad: seq<byte>, body: seq<byte>, cs: seq<Chunk>, pads: seq<seq<byte>>,
                        tail: seq<byte>)
    requires Accepted(body, cs, pads, tail) && |c.payload| < U32_LIMIT
    requires PadFits(|c.payload|, pad, cs == [] && tail == [])
    ensures Accepted(LooseChunk(c, pad) + body, [c] + cs, [pad] + pads, tail)
  {
    hide LooseChunks, LooseChunk, PadsFit, FitSize, PadFits;
    Prepend(c, pad, cs, pads, tail);
    Regroup(LooseChunk(c, pad), LooseChunks(cs, pads), tail);
  }

  /** What follows the chunk at `i`; past the end, when its pad byte is missing, there is nothing. */
  function Rest(b: seq<byte>, i: nat): seq<byte>
    requires i + 8 <= |b|
  {
    if Next(b, i) <= |b| then b[Next(b, i)..] else []
  }

  lemma ChunkThenRest(b: seq<byte>, i: nat) returns (pad: seq<byte>)
    requires i + 8 <= |b| && End(b, i) <= |b|
    ensures b[i..] == LooseChunk(ChunkAt(b, i), pad) + Rest(b, i) && |ChunkAt(b, i).payload| < U32_LIMIT
    ensures PadFits(|ChunkAt(b, i).payload|, pad, Next(b, i) > |b|)
  {
    hide LooseChunk, ChunkAt;
    var end := if Next(b, i) <= |b| then Next(b, i) else |b|;
    ChunkBytes(b, i, end);
    pad := b[End(b, i)..end];
    JoinTail(b[i..], 0, end - i);
    assert b[i..][0..end - i] == b[i..end] && b[i..][end - i..] == b[end..];
  }

  lemma {:induction false} LooseExplained(b: seq<byte>, i: nat) returns (pads: seq<seq<byte>>, tail: seq<byte>)
    requires i <= |b| && Walks(b, i)
    ensures Accepted(b[i..], ChunksFrom(b, i), pads, tail)
    decreases |b| - i
  {
    if i + 8 > |b| {
      pads, tail := [], b[i..];
      assert [] + tail == tail;
    } else {
      hide Accepted, LooseChunk, ChunkAt;
      var next := Next(b, i);
      var pad := ChunkThenRest(b, i);
      var rest;
      if next <= |b| {
        rest, tail := LooseExplained(b, next);
      } else {
        rest, tail := [], [];
        EmptyAccepted(b, next);
      }
      pads := [pad] + rest;
      AcceptedPrepend(ChunkAt(b, i), pad, Rest(b, i), ChunksFrom(b, next), rest, tail);
    }
  }

  lemma EmptyAccepted(b: seq<byte>, next: nat)
    requires next > |b|
    ensures Walks(b, next) && ChunksFrom(b, next) == [] && Accepted([], [], [], [])
  {
  }

  // ---------- the file ----------

  /** The signature, any four bytes where the size field is, the form type, and such a body. */
  ghost predicate IsWebpFile(b: seq<byte>, cs: seq<Chunk>, pads: seq<seq<byte>>, tail: seq<byte>) {
    |b| >= 12 && b[..4] == RIFF.Bytes() && b[8..12] == WEBP.Bytes() && Accepted(b[12..], cs, pads, tail)
  }

  lemma TagBytes(b: seq<byte>, i: nat, t: Tag)
    requires i + 4 <= |b|
    ensures TagAt(b, i) == t <==> b[i..i + 4] == t.Bytes()
  {
    assert TagAt(b, i).Bytes() == b[i..i + 4];
    assert b[i..i + 4] == t.Bytes() ==> TagAt(b, i) == Tag(t.Bytes()[0], t.Bytes()[1], t.Bytes()[2], t.Bytes()[3]);
  }

  /** The parser accepts exactly these files, and reads exactly these chunks. */
  lemma ParsesIffWebpFile(b: seq<byte>, cs: seq<Chunk>)
    ensures ParseContainer(b) == Some(cs) <==> exists pads, tail :: IsWebpFile(b, cs, pads, tail)
  {
    hide Walks, ChunksFrom, Accepted;
    if |b| >= 12 {
      TagBytes(b, 0, RIFF);
      TagBytes(b, 8, WEBP);
    }
    if ParseContainer(b) == Some(cs) {
      var pads, tail := LooseExplained(b, 12);
      assert IsWebpFile(b, cs, pads, tail);
    }
    forall pads, tail | IsWebpFile(b, cs, pads, tail)
      ensures ParseContainer(b) == Some(cs)
    {
      BodyRead(b, cs, pads, tail);
    }
  }

  lemma BodyRead(b: seq<byte>, cs: seq<Chunk>, pads: seq<seq<byte>>, tail: seq<byte>)
    requires |b| >= 12 && Accepted(b[12..], cs, pads, tail)
    ensures Walks(b, 12) && ChunksFrom(b, 12) == cs
  {
    hide LooseChunks, PadsFit, FitSize;
    LooseRead(b, 12, cs, pads, tail);
  }

  // ---------- what the printer writes ----------

  /** A zero byte behind every odd payload, and nothing behind an even one. */
  predicate ZeroPads(cs: seq<Chunk>, pads: seq<seq<byte>>) {
    |pads| == |cs| && forall i | 0 <= i < |cs| :: pads[i] == if |cs[i].payload| % 2 == 1 then [0] else []
  }

  /** The printer writes these files with zero pad bytes, the last one too, and no tail. */
  lemma {:induction false} PrintedWithZeroPads(cs: seq<Chunk>, pads: seq<seq<byte>>)
    requires ZeroPads(cs, pads)
    ensures EncodeChunks(cs) == LooseChunks(cs, pads)
  {
    if cs != [] {
      PrintedWithZeroPads(cs[1..], pads[1..]);
      Regroup(cs[0].fourcc.Bytes() + Le32(|cs[0].payload|), cs[0].payload, pads[0]);
    }
  }
}
