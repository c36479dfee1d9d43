/**
 Inserting an XMP packet into a PNG file as an `iTXt` chunk after the first chunk.
 */
module PngInject {
  import opened Wrappers
  import opened Bytes
  import opened Layout
  import opened PngChunks
  import opened PngCrc
  import PngSniffer
  import opened MetadataPolicies

  const SIGNATURE: seq<byte> := [0x89, 0x50, 0x4E, 0x47, 0x0D, 0x0A, 0x1A, 0x0A]

  /** `XML:com.adobe.xmp` */
  const XMP_KEYWORD: seq<byte> :=
    [0x58, 0x4D, 0x4C, 0x3A, 0x63, 0x6F, 0x6D, 0x2E, 0x61, 0x64, 0x6F, 0x62, 0x65, 0x2E, 0x78, 0x6D, 0x70]

  /** Keyword, its terminator, no compression, and two empty strings, then the packet. */
  function TextData(xmp: seq<byte>): seq<byte> {
    XMP_KEYWORD + [0, 0, 0, 0, 0] + xmp
  }

  /** The CRC a chunk of this kind and data is stored with. */
  function StoredCrc(kind: Tag, data: seq<byte>): Tag {
    TagAt(Be32(Value(Crc(kind.Bytes() + data))), 0)
  }

  function TextChunk(xmp: seq<byte>): Chunk {
    Chunk(ITXT, TextData(xmp), StoredCrc(ITXT, TextData(xmp)))
  }

  /** The file with a chunk printed after its first one. */
  function Insert(b: seq<byte>, c: Chunk): seq<byte>
    requires 16 <= |b| && Next(b, SIGNATURE_LENGTH) <= |b|
  {
    b[..Next(b, SIGNATURE_LENGTH)] + EncodeChunk(c) + b[Next(b, SIGNATURE_LENGTH)..]
  }

  function Inject(b: seq<byte>, xmp: seq<byte>): Result<seq<byte>> {
    if |b| < 16 || b[..8] != SIGNATURE || |b| < Next(b, SIGNATURE_LENGTH) then Err(EncodeFailed)
    else Ok(Insert(b, TextChunk(xmp)))
  }

  lemma StoredCrcBytes(kind: Tag, data: seq<byte>)
    ensures StoredCrc(kind, data).Bytes() == Be32(Value(Crc(kind.Bytes() + data)))
  {
  }

  method TextChunkData(xmp: seq<byte>) returns (chunkData: seq<byte>)
    ensures chunkData == TextData(xmp)
  {
    chunkData := XMP_KEYWORD;
    chunkData := chunkData + [0x00]; // keyword terminator
    chunkData := chunkData + [0x00]; // compression flag
    chunkData := chunkData + [0x00]; // compression method
    chunkData := chunkData + [0x00]; // empty language tag
    chunkData := chunkData + [0x00]; // empty translated keyword
    assert chunkData == XMP_KEYWORD + [0, 0, 0, 0, 0];
    chunkData := chunkData + xmp;
  }

  /** Length, type, data and CRC. */
  method BuildTextChunk(xmp: seq<byte>) returns (chunk: seq<byte>)
    ensures chunk == EncodeChunk(TextChunk(xmp))
  {
    var chunkData := TextChunkData(xmp);
    var crc := PngCrc32(ITXT.Bytes() + chunkData);
    StoredCrcBytes(ITXT, chunkData);
    chunk := Be32(|chunkData|) + ITXT.Bytes() + chunkData + Be32(Value(crc));
  }

  method InjectPngXmp(encoded: seq<byte>, xmp: seq<byte>) returns (r: Result<seq<byte>>)
    ensures r == Inject(encoded, xmp)
  {
    hide EncodeChunk, TextChunk, BeValue;
    if |encoded| < 8 || encoded[..8] != SIGNATURE {
      return Err(EncodeFailed);
    }
    if |encoded| < 8 + 4 + 4 {
      return Err(EncodeFailed);
    }
    var ihdrDataLen := Be32At(encoded, 8);
    var ihdrEnd := 8 + 4 + 4 + ihdrDataLen + 4;
    if |encoded| < ihdrEnd {
      return Err(EncodeFailed);
    }
    var chunk := BuildTextChunk(xmp);
    return Ok(encoded[..ihdrEnd] + chunk + encoded[ihdrEnd..]);
  }

  // ---------- an inserted chunk ----------

  predicate Insertable(b: seq<byte>, c: Chunk) {
    && 16 <= |b| && Next(b, SIGNATURE_LENGTH) <= |b|
    && |c.data| < U32_LIMIT && c.kind != IEND
  }

  lemma InsertedLayout(b: seq<byte>, c: Chunk)
    requires 16 <= |b| && Next(b, SIGNATURE_LENGTH) <= |b|
    ensures var split, out, text := Next(b, SIGNATURE_LENGTH), Insert(b, c), EncodeChunk(c);
            && split >= 20
            && out[..split] == b[..split]
            && Holds(out, split, text)
            && out[split + |text|..] == b[split..]
  {
    var split := Next(b, SIGNATURE_LENGTH);
    Split3(b[..split], EncodeChunk(c), b[split..]);
  }

  lemma Split3(left: seq<byte>, middle: seq<byte>, right: seq<byte>)
    ensures var out := left + middle + right;
            && out[..|left|] == left
            && Holds(out, |left|, middle)
            && out[|left| + |middle|..] == right
  {
  }

  /** Walking depends only on the bytes from the offset on. */
  lemma {:induction false} SameTail(b: seq<byte>, i: nat, c: seq<byte>, j: nat)
    requires i <= |b| && j <= |c| && b[i..] == c[j..]
    ensures Walkable(b, i) <==> Walkable(c, j)
    ensures Walkable(b, i) ==> ChunksFrom(b, i) == ChunksFrom(c, j)
    decreases |b| - i
  {
    assert |b| - i == |c| - j;
    if i + 8 <= |b| {
      SameHead(b, i, c, j);
      if Next(b, i) <= |b| && KindAt(b, i) != IEND {
        assert b[i..][Next(b, i) - i..] == b[Next(b, i)..];
        assert c[j..][Next(c, j) - j..] == c[Next(c, j)..];
        SameTail(b, Next(b, i), c, Next(c, j));
      }
    }
  }

  lemma SameHead(b: seq<byte>, i: nat, c: seq<byte>, j: nat)
    requires i + 8 <= |b| && j + 8 <= |c| && b[i..] == c[j..]
    ensures KindAt(b, i) == KindAt(c, j) && Next(b, i) - i == Next(c, j) - j
    ensures Next(b, i) <= |b| ==> Next(c, j) <= |c| && ChunkAt(b, i) == ChunkAt(c, j)
  {
    assert |b| - i == |c| - j;
    assert forall k | 0 <= k < |b| - i :: b[i + k] == b[i..][k] == c[j..][k] == c[j + k];
    assert b[i..i + 4] == c[j..j + 4];
    if Next(b, i) <= |b| {
      assert b[i + 8..DataEnd(b, i)] == c[j + 8..DataEnd(c, j)];
    }
  }

  lemma SameStart(b: seq<byte>, c: seq<byte>, split: nat)
    requires 16 <= split <= |b| && split <= |c| && b[..split] == c[..split] && Next(b, 8) <= split
    ensures Next(c, 8) == Next(b, 8) && ChunkAt(c, 8) == ChunkAt(b, 8)
  {
    assert forall k | 0 <= k < split :: b[k] == b[..split][k] == c[..split][k] == c[k];
    assert b[8..12] == c[8..12];
    assert b[16..DataEnd(b, 8)] == c[16..DataEnd(c, 8)];
  }

  lemma InsertedRest(b: seq<byte>, c: Chunk)
    requires Insertable(b, c)
    ensures var split, out := Next(b, SIGNATURE_LENGTH), Insert(b, c);
            && Next(out, SIGNATURE_LENGTH) == split <= |out|
            && ChunkAt(out, SIGNATURE_LENGTH) == ChunkAt(b, SIGNATURE_LENGTH)
            && (Walkable(out, split) <==> Walkable(b, split))
            && (Walkable(b, split) ==> ChunksFrom(out, split) == [c] + ChunksFrom(b, split))
  {
    InsertedLayout(b, c);
    var split, out := Next(b, SIGNATURE_LENGTH), Insert(b, c);
    SameStart(b, out, split);
    EncodedChunkAt(out, split, c);
    SameTail(out, Next(out, split), b, split);
  }

  /**
   A file with a chunk inserted is walkable if and only if the original was, and its list is
   the original one with that chunk after the first; a first chunk that is `IEND` ends both.
   */
  lemma InsertedList(b: seq<byte>, c: Chunk)
    requires Insertable(b, c)
    ensures Walkable(Insert(b, c), SIGNATURE_LENGTH) <==> Walkable(b, SIGNATURE_LENGTH)
    ensures Walkable(b, SIGNATURE_LENGTH) ==>
              var cs := ChunksFrom(b, SIGNATURE_LENGTH);
              ChunksFrom(Insert(b, c), SIGNATURE_LENGTH)
              == if cs[0].kind == IEND then cs else [cs[0]] + [c] + cs[1..]
  {
    hide Insert, EncodeChunk, BeValue;
    InsertedRest(b, c);
    var split := Next(b, SIGNATURE_LENGTH);
    if Walkable(b, SIGNATURE_LENGTH) && KindAt(b, SIGNATURE_LENGTH) != IEND {
      var first, rest := ChunkAt(b, SIGNATURE_LENGTH), ChunksFrom(b, split);
      assert ([first] + rest)[1..] == rest && ([first] + rest)[0] == first;
      assert [first] + ([c] + rest) == [first] + [c] + rest;
    }
  }

  // ---------- the inserted packet ----------

  /** The packet fits the length field of the chunk it becomes. */
  predicate Fits(xmp: seq<byte>) {
    |TextData(xmp)| < U32_LIMIT
  }

  lemma StoredCrcReads(kind: Tag, data: seq<byte>)
    ensures Be32At(StoredCrc(kind, data).Bytes(), 0) == Value(Crc(kind.Bytes() + data))
  {
    var crc := Crc(kind.Bytes() + data);
    ValueInjective(crc, crc);
    StoredCrcBytes(kind, data);
    ReadAfterWrite(Value(crc), 4);
    assert Be32(Value(crc))[0..4] == Be32(Value(crc));
  }

  /**
   The inserted chunk reads back as an `iTXt` chunk holding the packet after its fixed header,
   and the number stored in its CRC field is the CRC of its type and data. Everything before
   and after it is the original file.
   */
  lemma InjectedChunk(b: seq<byte>, xmp: seq<byte>)
    requires Inject(b, xmp).Ok? && Fits(xmp)
    ensures var split, out := Next(b, SIGNATURE_LENGTH), Inject(b, xmp).value;
            && split + 8 <= |out| && Next(out, split) <= |out|
            && out[..split] == b[..split] && out[Next(out, split)..] == b[split..]
            && var c := ChunkAt(out, split);
            && c.kind == ITXT
            && c.data == XMP_KEYWORD + [0, 0, 0, 0, 0] + xmp
            && Be32At(c.crc.Bytes(), 0) == Value(Crc(c.kind.Bytes() + c.data))
  {
    var split, out, c := Next(b, SIGNATURE_LENGTH), Inject(b, xmp).value, TextChunk(xmp);
    InsertedLayout(b, c);
    EncodedChunkAt(out, split, c);
    StoredCrcReads(ITXT, TextData(xmp));
  }

  lemma LengthField(out: seq<byte>, split: nat, c: Chunk)
    requires Holds(out, split, EncodeChunk(c))
    ensures |out| >= split + 4 && (Be32At(out, split) == |c.data| <==> |c.data| < U32_LIMIT)
  {
    var rest := c.kind.Bytes() + c.data + c.crc.Bytes();
    assert EncodeChunk(c) == Be32(|c.data|) + rest;
    HoldsBoth(out, split, Be32(|c.data|), rest);
    if |c.data| < U32_LIMIT {
      ReadAfterWrite(|c.data|, 4);
    }
  }

  /** The length field is honest exactly when the packet fits it; the code does not check. */
  lemma DeclaredLength(b: seq<byte>, xmp: seq<byte>)
    requires Inject(b, xmp).Ok?
    ensures var split, out := Next(b, SIGNATURE_LENGTH), Inject(b, xmp).value;
            |out| >= split + 4 && (Be32At(out, split) == 22 + |xmp| <==> |xmp| <= U32_MAX - 22)
  {
    InsertedLayout(b, TextChunk(xmp));
    LengthField(Inject(b, xmp).value, Next(b, SIGNATURE_LENGTH), TextChunk(xmp));
  }

  // ---------- stripping undoes injecting ----------

  lemma KeptAfterInsert(first: Chunk, c: Chunk, rest: seq<Chunk>, policy: MetadataPolicy)
    requires !Keeps(policy, c.kind)
    ensures Kept([first] + [c] + rest, policy) == Kept([first] + rest, policy)
  {
    var cs := [first] + [c] + rest;
    assert cs[1..] == [c] + rest && ([c] + rest)[1..] == rest && ([first] + rest)[1..] == rest;
  }

  lemma SameStrip(b: seq<byte>, c: seq<byte>, policy: MetadataPolicy)
    requires |b| >= 8 && |c| >= 8 && b[..8] == c[..8] && policy != KeepAll
    requires Walkable(b, SIGNATURE_LENGTH) <==> Walkable(c, SIGNATURE_LENGTH)
    requires Walkable(b, SIGNATURE_LENGTH) ==>
               Kept(ChunksFrom(b, SIGNATURE_LENGTH), policy) == Kept(ChunksFrom(c, SIGNATURE_LENGTH), policy)
    ensures Strip(b, policy) == Strip(c, policy)
  {
  }

  lemma InsertedKept(b: seq<byte>, c: Chunk, policy: MetadataPolicy)
    requires Insertable(b, c) && !Keeps(policy, c.kind) && Walkable(b, SIGNATURE_LENGTH)
    ensures Walkable(Insert(b, c), SIGNATURE_LENGTH)
    ensures Kept(ChunksFrom(Insert(b, c), SIGNATURE_LENGTH), policy) == Kept(ChunksFrom(b, SIGNATURE_LENGTH), policy)
  {
    InsertedList(b, c);
    var cs := ChunksFrom(b, SIGNATURE_LENGTH);
    assert cs == [cs[0]] + cs[1..];
    KeptAfterInsert(cs[0], c, cs[1..], policy);
  }

  lemma StripUndoesInsert(b: seq<byte>, c: Chunk, policy: MetadataPolicy)
    requires Insertable(b, c) && !Keeps(policy, c.kind) && policy != KeepAll
    ensures Strip(Insert(b, c), policy) == Strip(b, policy)
  {
    var split, out := Next(b, SIGNATURE_LENGTH), Insert(b, c);
    assert |out| >= 8 && out[..8] == b[..8] by {
      InsertedLayout(b, c);
      assert out[..split][..8] == b[..split][..8];
    }
    assert Walkable(out, SIGNATURE_LENGTH) <==> Walkable(b, SIGNATURE_LENGTH) by {
      InsertedList(b, c);
    }
    if Walkable(b, SIGNATURE_LENGTH) {
      InsertedKept(b, c, policy);
    }
    SameStrip(out, b, policy);
  }

  /** Stripping, under any policy that strips at all, undoes the injection. */
  lemma StripUndoesInject(b: seq<byte>, xmp: seq<byte>, policy: MetadataPolicy)
    requires Inject(b, xmp).Ok? && Fits(xmp) && policy != KeepAll
    ensures Strip(Inject(b, xmp).value, policy) == Strip(b, policy)
  {
    StripUndoesInsert(b, TextChunk(xmp), policy);
  }

  /** A file that starts with its header reports the same facts and EXIF before and after. */
  lemma InjectKeepsFacts(b: seq<byte>, xmp: seq<byte>)
    requires Inject(b, xmp).Ok? && Fits(xmp) && PngSniffer.StartsWithHeader(b)
    ensures var out := Inject(b, xmp).value;
            && PngSniffer.Sniff(b).Returned? && PngSniffer.Sniff(out) == PngSniffer.Sniff(b)
            && PngSniffer.ExifFrom(out, SIGNATURE_LENGTH) == PngSniffer.ExifFrom(b, SIGNATURE_LENGTH)
  {
    var c, out, after := TextChunk(xmp), Inject(b, xmp).value, PngSniffer.AFTER_IHDR;
    var start := PngSniffer.Ancillary(false, 1);
    InsertedLayout(b, c);
    InsertedRest(b, c);
    InsertedFacts(c, ChunksFrom(b, after), start);
    PngSniffer.FactsMatch(b, after, start);
    PngSniffer.FactsMatch(out, after, start);
    PngSniffer.SamePrefixSniffs(b, out);
    PngSniffer.ExifMatches(b, after);
    PngSniffer.ExifMatches(out, after);
  }

  lemma InsertedFacts(c: Chunk, rest: seq<Chunk>, start: PngSniffer.Ancillary)
    requires c.kind == ITXT
    ensures PngSniffer.FactsOf([c] + rest, start) == PngSniffer.FactsOf(rest, start)
    ensures PngSniffer.ExifOf([c] + rest) == PngSniffer.ExifOf(rest)
  {
    assert ([c] + rest)[1..] == rest;
  }
}
