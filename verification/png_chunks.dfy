/**
 The chunk list of a PNG file (section 5.3 of the W3C PNG Specification, Second Edition), and
 removing from it the metadata a policy does not keep.

 A file is walkable when its chunks fit the file up to and including `IEND`. What follows
 `IEND` is not part of the list.
 */
module PngChunks {
  import opened Wrappers
  import opened Bytes
  import opened Layout
  import opened MetadataPolicies

  const IHDR := Tag(0x49, 0x48, 0x44, 0x52)
  const PLTE := Tag(0x50, 0x4C, 0x54, 0x45)
  const IDAT := Tag(0x49, 0x44, 0x41, 0x54)
  const IEND := Tag(0x49, 0x45, 0x4E, 0x44)
  const TRNS := Tag(0x74, 0x52, 0x4E, 0x53)
  const ACTL := Tag(0x61, 0x63, 0x54, 0x4C)
  const ICCP := Tag(0x69, 0x43, 0x43, 0x50)
  const EXIF := Tag(0x65, 0x58, 0x49, 0x66)
  const TEXT := Tag(0x74, 0x45, 0x58, 0x74)
  const ZTXT := Tag(0x7A, 0x54, 0x58, 0x74)
  const ITXT := Tag(0x69, 0x54, 0x58, 0x74)

  const SIGNATURE_LENGTH := 8

  datatype Chunk = Chunk(kind: Tag, data: seq<byte>, crc: Tag)

  // ---------- printing ----------

  function EncodeChunk(c: Chunk): seq<byte> {
    Be32(|c.data|) + c.kind.Bytes() + c.data + c.crc.Bytes()
  }

  function EncodeChunks(cs: seq<Chunk>): seq<byte> {
    if cs == [] then [] else EncodeChunk(cs[0]) + EncodeChunks(cs[1..])
  }

  predicate Sized(cs: seq<Chunk>) {
    forall i | 0 <= i < |cs| :: |cs[i].data| < U32_LIMIT
  }

  /** The list ends in `IEND` and has no other. */
  predicate Terminated(cs: seq<Chunk>) {
    |cs| > 0 && forall i | 0 <= i < |cs| :: cs[i].kind == IEND <==> i == |cs| - 1
  }

  // ---------- walking ----------

  function DataEnd(b: seq<byte>, offset: nat): nat
    requires offset + 8 <= |b|
  {
    offset + 8 + Be32At(b, offset)
  }

  function Next(b: seq<byte>, offset: nat): nat
    requires offset + 8 <= |b|
  {
    offset + 12 + Be32At(b, offset)
  }

  function KindAt(b: seq<byte>, offset: nat): Tag
    requires offset + 8 <= |b|
  {
    TagAt(b, offset + 4)
  }

  predicate Walkable(b: seq<byte>, offset: nat)
    decreases |b| - offset
  {
    && offset + 8 <= |b|
    && Next(b, offset) <= |b|
    && (KindAt(b, offset) != IEND ==> Walkable(b, Next(b, offset)))
  }

  function ChunkAt(b: seq<byte>, offset: nat): Chunk
    requires offset + 8 <= |b| && Next(b, offset) <= |b|
  {
    var end := DataEnd(b, offset);
    Chunk(KindAt(b, offset), b[offset + 8..end], TagAt(b, end))
  }

  function ChunksFrom(b: seq<byte>, offset: nat): seq<Chunk>
    requires Walkable(b, offset)
    decreases |b| - offset
  {
    [ChunkAt(b, offset)] + if KindAt(b, offset) == IEND then [] else ChunksFrom(b, Next(b, offset))
  }

  // ---------- the walk inverts the printer ----------

  lemma {:induction false} WalkedList(b: seq<byte>, offset: nat)
    requires Walkable(b, offset)
    ensures Sized(ChunksFrom(b, offset)) && Terminated(ChunksFrom(b, offset))
    decreases |b| - offset
  {
    var c := ChunkAt(b, offset);
    if KindAt(b, offset) != IEND {
      WalkedList(b, Next(b, offset));
      ListPrepend(c, ChunksFrom(b, Next(b, offset)));
    }
  }

  lemma ListPrepend(c: Chunk, cs: seq<Chunk>)
    requires |c.data| < U32_LIMIT && c.kind != IEND && Sized(cs) && Terminated(cs)
    ensures Sized([c] + cs) && Terminated([c] + cs)
  {
  }

  lemma ListRest(cs: seq<Chunk>)
    requires Sized(cs) && Terminated(cs) && cs[0].kind != IEND
    ensures Sized(cs[1..]) && Terminated(cs[1..])
  {
    assert forall i | 0 <= i < |cs| - 1 :: cs[1..][i] == cs[i + 1];
  }

  /** The bytes a chunk was read from are the bytes it prints. */
  lemma RawChunk(b: seq<byte>, offset: nat)
    requires offset + 8 <= |b| && Next(b, offset) <= |b|
    ensures EncodeChunk(ChunkAt(b, offset)) == b[offset..Next(b, offset)]
  {
    var length := Be32At(b, offset);
    WriteAfterReadBe(b[offset..offset + 4]);
    assert Be32(length) == b[offset..offset + 4];
    assert TagAt(b, offset + 4).Bytes() == b[offset + 4..offset + 8];
    assert TagAt(b, offset + 8 + length).Bytes() == b[offset + 8 + length..offset + 12 + length];
    Join4(b, offset, offset + 4, offset + 8, offset + 8 + length, offset + 12 + length);
  }

  lemma Join4(b: seq<byte>, i: nat, j: nat, k: nat, l: nat, m: nat)
    requires i <= j <= k <= l <= m <= |b|
    ensures b[i..j] + b[j..k] + b[k..l] + b[l..m] == b[i..m]
  {
  }

  lemma EncodePrepend(c: Chunk, rest: seq<Chunk>)
    ensures EncodeChunks([c] + rest) == EncodeChunk(c) + EncodeChunks(rest)
  {
    assert ([c] + rest)[1..] == rest;
  }

  lemma {:induction false} RawChunks(b: seq<byte>, offset: nat)
    requires Walkable(b, offset)
    ensures Holds(b, offset, EncodeChunks(ChunksFrom(b, offset)))
    decreases |b| - offset
  {
    var c := ChunkAt(b, offset);
    RawChunk(b, offset);
    var next := Next(b, offset);
    if KindAt(b, offset) == IEND {
      EncodePrepend(c, []);
      assert EncodeChunk(c) + [] == EncodeChunk(c);
    } else {
      var rest := ChunksFrom(b, next);
      RawChunks(b, next);
      EncodePrepend(c, rest);
      HoldsJoined(b, offset, EncodeChunk(c), EncodeChunks(rest));
    }
  }

  lemma EncodedChunkAt(b: seq<byte>, offset: nat, c: Chunk)
    requires |c.data| < U32_LIMIT
    requires Holds(b, offset, EncodeChunk(c))
    ensures Next(b, offset) == offset + |EncodeChunk(c)| <= |b| && ChunkAt(b, offset) == c
  {
    var length := |c.data|;
    HoldsBoth(b, offset, Be32(length) + c.kind.Bytes() + c.data, c.crc.Bytes());
    HoldsBoth(b, offset, Be32(length) + c.kind.Bytes(), c.data);
    HoldsBoth(b, offset, Be32(length), c.kind.Bytes());
    ReadAfterWrite(length, 4);
    assert TagAt(b, offset + 4).Bytes() == b[offset + 4..offset + 8];
    assert TagAt(b, offset + 8 + length).Bytes() == b[offset + 8 + length..offset + 12 + length];
    TagsEqual(TagAt(b, offset + 4), c.kind);
    TagsEqual(TagAt(b, offset + 8 + length), c.crc);
  }

  lemma TagsEqual(s: Tag, t: Tag)
    requires s.Bytes() == t.Bytes()
    ensures s == t
  {
    assert s.Bytes()[0] == t.Bytes()[0] && s.Bytes()[1] == t.Bytes()[1];
    assert s.Bytes()[2] == t.Bytes()[2] && s.Bytes()[3] == t.Bytes()[3];
  }

  /** A printed list is walked back to itself, whatever follows it. */
  lemma {:induction false} WalkEncoded(b: seq<byte>, offset: nat, cs: seq<Chunk>)
    requires Sized(cs) && Terminated(cs)
    requires Holds(b, offset, EncodeChunks(cs))
    ensures Walkable(b, offset) && ChunksFrom(b, offset) == cs
    decreases |cs|
  {
    HoldsBoth(b, offset, EncodeChunk(cs[0]), EncodeChunks(cs[1..]));
    EncodedChunkAt(b, offset, cs[0]);
    if cs[0].kind != IEND {
      ListRest(cs);
      WalkEncoded(b, Next(b, offset), cs[1..]);
      assert [cs[0]] + cs[1..] == cs;
    } else {
      assert cs == [cs[0]];
    }
  }

  // ---------- the metadata policy ----------

  predicate IsMetadata(kind: Tag) {
    kind == ICCP || kind == EXIF || kind == TEXT || kind == ZTXT || kind == ITXT
  }

  function KeptKind(policy: MetadataPolicy): Tag {
    match policy
    case PreserveIcc => ICCP
    case PreserveExif => EXIF
    case StripAll => Tag(0, 0, 0, 0)
    case KeepAll => Tag(0, 0, 0, 0)
  }

  predicate Keeps(policy: MetadataPolicy, kind: Tag) {
    kind == KeptKind(policy) || !IsMetadata(kind)
  }

  function Kept(cs: seq<Chunk>, policy: MetadataPolicy): seq<Chunk> {
    if cs == [] then []
    else if Keeps(policy, cs[0].kind) then [cs[0]] + Kept(cs[1..], policy)
    else Kept(cs[1..], policy)
  }

  function Strip(b: seq<byte>, policy: MetadataPolicy): Option<seq<byte>> {
    if policy == KeepAll then Some(b)
    else if Walkable(b, SIGNATURE_LENGTH)
    then Some(b[..SIGNATURE_LENGTH] + EncodeChunks(Kept(ChunksFrom(b, SIGNATURE_LENGTH), policy)))
    else None
  }

  lemma KeptHead(c: Chunk, rest: seq<Chunk>, policy: MetadataPolicy)
    ensures EncodeChunks(Kept([c] + rest, policy))
            == (if Keeps(policy, c.kind) then EncodeChunk(c) else []) + EncodeChunks(Kept(rest, policy))
  {
    assert ([c] + rest)[1..] == rest;
    var kept := Kept(rest, policy);
    assert ([c] + kept)[1..] == kept;
    assert [] + EncodeChunks(kept) == EncodeChunks(kept);
  }

  /** What is left to copy from an offset on. */
  function KeptFrom(b: seq<byte>, offset: nat, policy: MetadataPolicy): seq<byte>
    requires Walkable(b, offset)
  {
    EncodeChunks(Kept(ChunksFrom(b, offset), policy))
  }

  lemma KeptStep(b: seq<byte>, offset: nat, policy: MetadataPolicy, done: seq<byte>, chunk: seq<byte>)
    requires Walkable(b, offset)
    requires chunk == if Keeps(policy, KindAt(b, offset)) then b[offset..Next(b, offset)] else []
    ensures KindAt(b, offset) == IEND ==> done + KeptFrom(b, offset, policy) == done + chunk
    ensures KindAt(b, offset) != IEND ==>
              done + KeptFrom(b, offset, policy) == (done + chunk) + KeptFrom(b, Next(b, offset), policy)
  {
    RawChunk(b, offset);
    var c := ChunkAt(b, offset);
    var rest := if KindAt(b, offset) == IEND then [] else ChunksFrom(b, Next(b, offset));
    KeptHead(c, rest, policy);
    Regroup(done, chunk, EncodeChunks(Kept(rest, policy)));
  }

  /** Copies the kept chunks through, or gives up where the list cannot be walked. */
  method PngBytesSatisfyingMetadataPolicy(bytes: seq<byte>, policy: MetadataPolicy) returns (r: Option<seq<byte>>)
    ensures r == Strip(bytes, policy)
  {
    if policy == KeepAll {
      return Some(bytes);
    }
    if |bytes| < 8 {
      return None;
    }
    var keptBytes := bytes[..8];
    var offset := 8;
    ghost var goal := Strip(bytes, policy);
    while offset + 8 <= |bytes|
      invariant goal.Some? <==> Walkable(bytes, offset)
      invariant goal.Some? ==> keptBytes + KeptFrom(bytes, offset, policy) == goal.value
      decreases |bytes| - offset
    {
      var length := Be32At(bytes, offset);
      var kind := TagAt(bytes, offset + 4);
      var end := offset + 12 + length;
      if end > |bytes| {
        return None;
      }
      var chunk := [];
      if kind == KeptKind(policy) || !IsMetadata(kind) {
        chunk := bytes[offset..end];
      }
      if goal.Some? {
        KeptStep(bytes, offset, policy, keptBytes, chunk);
      }
      keptBytes := keptBytes + chunk;
      if kind == IEND {
        return Some(keptBytes);
      }
      offset := end;
    }
    return None;
  }

  // ---------- what stripping does ----------

  lemma {:induction false} KeptList(cs: seq<Chunk>, policy: MetadataPolicy)
    requires Sized(cs) && Terminated(cs)
    ensures Sized(Kept(cs, policy)) && Terminated(Kept(cs, policy))
    ensures forall i | 0 <= i < |Kept(cs, policy)| :: Keeps(policy, Kept(cs, policy)[i].kind)
  {
    if cs[0].kind == IEND {
      assert cs == [cs[0]] && cs[1..] == [];
    } else {
      ListRest(cs);
      KeptList(cs[1..], policy);
      if Keeps(policy, cs[0].kind) {
        ListPrepend(cs[0], Kept(cs[1..], policy));
      }
    }
  }

  lemma {:induction false} KeptTwice(cs: seq<Chunk>, policy: MetadataPolicy, next: MetadataPolicy)
    requires next == policy || next == StripAll
    ensures Kept(Kept(cs, policy), next) == Kept(cs, next)
  {
    if cs != [] {
      KeptTwice(cs[1..], policy, next);
      if Keeps(policy, cs[0].kind) {
        assert ([cs[0]] + Kept(cs[1..], policy))[1..] == Kept(cs[1..], policy);
      }
    }
  }

  lemma {:induction false} KeptShrinks(cs: seq<Chunk>, policy: MetadataPolicy)
    ensures |EncodeChunks(Kept(cs, policy))| <= |EncodeChunks(cs)|
  {
    if cs != [] {
      KeptShrinks(cs[1..], policy);
      if Keeps(policy, cs[0].kind) {
        assert ([cs[0]] + Kept(cs[1..], policy))[1..] == Kept(cs[1..], policy);
      }
    }
  }

  /**
   A walkable file is stripped to a walkable file with the same signature, whose chunk list is
   the original one with exactly the metadata kinds the policy does not keep taken out, order
   and bytes unchanged, ending at `IEND`. A file that cannot be walked yields no candidate.
   */
  lemma StripRemovesExactly(b: seq<byte>, policy: MetadataPolicy)
    requires policy != KeepAll
    ensures Strip(b, policy).Some? <==> Walkable(b, SIGNATURE_LENGTH)
    ensures Strip(b, policy).Some? ==>
              var out := Strip(b, policy).value;
              && Walkable(out, SIGNATURE_LENGTH) && out[..8] == b[..8]
              && ChunksFrom(out, SIGNATURE_LENGTH) == Kept(ChunksFrom(b, SIGNATURE_LENGTH), policy)
              && |out| == SIGNATURE_LENGTH + |EncodeChunks(ChunksFrom(out, SIGNATURE_LENGTH))|
  {
    if Walkable(b, SIGNATURE_LENGTH) {
      var cs := ChunksFrom(b, SIGNATURE_LENGTH);
      var kept := Kept(cs, policy);
      WalkedList(b, SIGNATURE_LENGTH);
      KeptList(cs, policy);
      var out := b[..8] + EncodeChunks(kept);
      assert out[8..8 + |EncodeChunks(kept)|] == EncodeChunks(kept);
      WalkEncoded(out, SIGNATURE_LENGTH, kept);
    }
  }

  /** Stripping twice is stripping once, and stripping everything absorbs any policy before it. */
  lemma StripAgain(b: seq<byte>, policy: MetadataPolicy, next: MetadataPolicy)
    requires Strip(b, policy).Some?
    requires next == policy || next == StripAll
    ensures Strip(Strip(b, policy).value, next) == Strip(b, next)
  {
    if policy != KeepAll {
      StripRemovesExactly(b, policy);
      KeptTwice(ChunksFrom(b, SIGNATURE_LENGTH), policy, next);
      var out := Strip(b, policy).value;
      assert out[..8] == b[..8];
    }
  }

  lemma StripNeverGrows(b: seq<byte>, policy: MetadataPolicy)
    requires Strip(b, policy).Some?
    ensures |Strip(b, policy).value| <= |b|
  {
    if policy != KeepAll {
      RawChunks(b, SIGNATURE_LENGTH);
      KeptShrinks(ChunksFrom(b, SIGNATURE_LENGTH), policy);
    }
  }

  // ---------- the palette check ----------

  predicate PaletteFits(kind: Tag, length: nat) {
    kind == PLTE ==> 0 < length <= 768 && length % 3 == 0
  }

  predicate PaletteValid(b: seq<byte>, offset: nat)
    decreases |b| - offset
  {
    offset + 12 <= |b| ==>
      && Next(b, offset) <= |b|
      && PaletteFits(KindAt(b, offset), Be32At(b, offset))
      && (KindAt(b, offset) != IEND ==> PaletteValid(b, Next(b, offset)))
  }

  /** Refuses a palette the decoder could not split into triples. */
  method ValidatePngPalette(bytes: seq<byte>) returns (r: Result<()>)
    ensures r == if PaletteValid(bytes, SIGNATURE_LENGTH) then Ok(()) else Err(DecodeFailed)
  {
    var offset := 8;
    while offset + 12 <= |bytes|
      invariant PaletteValid(bytes, 8) <==> PaletteValid(bytes, offset)
      decreases |bytes| - offset
    {
      var length := Be32At(bytes, offset);
      var end := offset + 12 + length;
      if end > |bytes| {
        return Err(DecodeFailed);
      }
      var kind := TagAt(bytes, offset + 4);
      if kind == PLTE && (length == 0 || length > 768 || length % 3 != 0) {
        return Err(DecodeFailed);
      }
      if kind == IEND {
        break;
      }
      offset := end;
    }
    return Ok(());
  }

  predicate PalettesFit(cs: seq<Chunk>) {
    forall i | 0 <= i < |cs| :: PaletteFits(cs[i].kind, |cs[i].data|)
  }

  lemma PalettesPrepend(c: Chunk, cs: seq<Chunk>)
    ensures PalettesFit([c] + cs) <==> PaletteFits(c.kind, |c.data|) && PalettesFit(cs)
  {
    assert forall i | 0 <= i < |cs| :: ([c] + cs)[i + 1] == cs[i];
    assert ([c] + cs)[0] == c;
  }

  /** On a walkable file the check asks exactly whether every palette in the list fits. */
  lemma {:induction false} PaletteCheckIsExact(b: seq<byte>, offset: nat)
    requires Walkable(b, offset)
    ensures PaletteValid(b, offset) <==> PalettesFit(ChunksFrom(b, offset))
    decreases |b| - offset
  {
    hide BeValue, PaletteFits;
    var c := ChunkAt(b, offset);
    if KindAt(b, offset) != IEND {
      PaletteCheckIsExact(b, Next(b, offset));
      PalettesPrepend(c, ChunksFrom(b, Next(b, offset)));
    } else {
      PalettesPrepend(c, []);
    }
  }

  lemma {:induction false} KeptPalettes(cs: seq<Chunk>, policy: MetadataPolicy)
    ensures PalettesFit(Kept(cs, policy)) <==> PalettesFit(cs)
  {
    if cs != [] {
      KeptPalettes(cs[1..], policy);
      assert cs == [cs[0]] + cs[1..];
      PalettesPrepend(cs[0], cs[1..]);
      PalettesPrepend(cs[0], Kept(cs[1..], policy));
    }
  }

  /** Stripping neither breaks a palette nor hides a broken one. */
  lemma StripKeepsPaletteVerdict(b: seq<byte>, policy: MetadataPolicy)
    requires Strip(b, policy).Some?
    ensures PaletteValid(Strip(b, policy).value, SIGNATURE_LENGTH) <==> PaletteValid(b, SIGNATURE_LENGTH)
  {
    if policy != KeepAll {
      StripRemovesExactly(b, policy);
      PaletteCheckIsExact(b, SIGNATURE_LENGTH);
      PaletteCheckIsExact(Strip(b, policy).value, SIGNATURE_LENGTH);
      KeptPalettes(ChunksFrom(b, SIGNATURE_LENGTH), policy);
    }
  }
}
