/**
 Reading a WebP file's facts by walking its bytes again: size, alpha, frames, and EXIF.

 The loops here share no code with the parser. They are proved to report what the parsed
 chunk list says, and the rewriters are proved to leave those reports alone.
 */
module WebpSniffer {
  import opened Wrappers
  import opened Bytes
  import opened WebpContainer
  import opened WebpFlags
  import opened WebpMetadata
  import opened WebpStrip
  import opened MetadataPolicies

  /** The facts a sniffer reports. The EXIF orientation is read by a foreign crate. */
  datatype Facts = Facts(width: nat, height: nat, frames: nat, alpha: bool)

  // ---------- one header ----------

  function SniffVp8x(data: seq<byte>): Result<Facts> {
    if |data| < 10 then Err(DecodeFailed)
    else Ok(Facts(Le24At(data, 4) + 1, Le24At(data, 7) + 1,
                  if HasFlag(data[0], AnimationFlag) then 2 else 1, HasFlag(data[0], AlphaFlag)))
  }

  function SniffVp8(data: seq<byte>): Result<Facts> {
    if |data| < 10 || data[3] != 0x9D || data[4] != 0x01 || data[5] != 0x2A then Err(DecodeFailed)
    else Ok(Facts(Le16At(data, 6) % 0x4000, Le16At(data, 8) % 0x4000, 1, false))
  }

  function SniffVp8l(data: seq<byte>): Result<Facts> {
    if |data| < 5 || data[0] != 0x2F then Err(DecodeFailed)
    else
      var bits := Le32At(data, 1);
      Ok(Facts(bits % 0x4000 + 1, bits / 0x4000 % 0x4000 + 1, 1, bits / 0x1000_0000 % 2 != 0))
  }

  predicate IsImageHeader(fourcc: Tag) {
    fourcc == VP8X || fourcc == VP8 || fourcc == VP8L
  }

  function SniffHeader(c: Chunk): Result<Facts>
    requires IsImageHeader(c.fourcc)
  {
    if c.fourcc == VP8X then SniffVp8x(c.payload)
    else if c.fourcc == VP8 then SniffVp8(c.payload)
    else SniffVp8l(c.payload)
  }

  // ---------- what the loops compute, on bytes ----------

  function HeaderFrom(b: seq<byte>, offset: nat): Result<Facts>
    decreases |b| - offset
  {
    if offset + 8 > |b| || End(b, offset) > |b| then Err(DecodeFailed)
    else if IsImageHeader(TagAt(b, offset)) then SniffHeader(ChunkAt(b, offset))
    else HeaderFrom(b, Next(b, offset))
  }

  /** The count ignores whether a chunk fits the file; only the header has to be there. */
  function FramesFrom(b: seq<byte>, offset: nat): nat
    decreases |b| - offset
  {
    if offset + 8 > |b| then 0
    else (if TagAt(b, offset) == ANMF then 1 else 0) + FramesFrom(b, Next(b, offset))
  }

  function WithFrames(facts: Facts, count: nat): Facts {
    if facts.frames > 1 then facts.(frames := if Saturated(count) > 2 then Saturated(count) else 2) else facts
  }

  function Sniff(b: seq<byte>): Result<Facts> {
    var header := HeaderFrom(b, 12);
    if header.Ok? then Ok(WithFrames(header.value, FramesFrom(b, 12))) else header
  }

  function ExifFrom(b: seq<byte>, offset: nat): Option<seq<byte>>
    decreases |b| - offset
  {
    if offset + 8 > |b| || End(b, offset) > |b| then None
    else if TagAt(b, offset) == EXIF then Some(StripExifPrefix(ChunkAt(b, offset).payload))
    else ExifFrom(b, Next(b, offset))
  }

  // ---------- the loops ----------

  method SniffWebp(bytes: seq<byte>) returns (r: Result<Facts>)
    ensures r == Sniff(bytes)
  {
    var offset := 12;
    while offset + 8 <= |bytes|
      invariant HeaderFrom(bytes, offset) == HeaderFrom(bytes, 12)
      decreases |bytes| - offset
    {
      var fourcc := TagAt(bytes, offset);
      var size := Le32At(bytes, offset + 4);
      var start := offset + 8;
      var end := start + size;
      if end > |bytes| {
        return Err(DecodeFailed);
      }
      if !IsImageHeader(fourcc) {
        offset := end + size % 2;
        continue;
      }
      var header := SniffHeader(Chunk(fourcc, bytes[start..end]));
      assert HeaderFrom(bytes, 12) == header;
      if header.Err? {
        return header;
      }
      var facts := header.value;
      if facts.frames > 1 {
        var count := CountWebpFrames(bytes);
        facts := facts.(frames := if count > 2 then count else 2);
      }
      return Ok(facts);
    }
    return Err(DecodeFailed);
  }

  method CountWebpFrames(bytes: seq<byte>) returns (frames: nat)
    ensures frames == Saturated(FramesFrom(bytes, 12))
  {
    frames := 0;
    var offset := 12;
    while offset + 8 <= |bytes|
      invariant frames <= U32_MAX
      invariant Saturated(frames + FramesFrom(bytes, offset)) == Saturated(FramesFrom(bytes, 12))
      decreases |bytes| - offset
    {
      var size := Le32At(bytes, offset + 4);
      if TagAt(bytes, offset) == ANMF {
        frames := if frames == U32_MAX then frames else frames + 1;
      }
      offset := offset + 8 + size + size % 2;
    }
  }

  method WebpExifPayload(bytes: seq<byte>) returns (r: Option<seq<byte>>)
    ensures r == ExifFrom(bytes, 12)
  {
    var offset := 12;
    while offset + 8 <= |bytes|
      invariant ExifFrom(bytes, offset) == ExifFrom(bytes, 12)
      decreases |bytes| - offset
    {
      var size := Le32At(bytes, offset + 4);
      var start := offset + 8;
      var end := start + size;
      if end > |bytes| {
        return None;
      }
      if TagAt(bytes, offset) == EXIF {
        return Some(StripExifPrefix(bytes[start..end]));
      }
      offset := end + size % 2;
    }
    return None;
  }

  // ---------- the same facts, on chunks ----------

  /** The first chunk that carries an image header. */
  function FirstHeader(cs: seq<Chunk>): Option<Chunk> {
    if cs == [] then None
    else if IsImageHeader(cs[0].fourcc) then Some(cs[0])
    else FirstHeader(cs[1..])
  }

  /** An extended header, when there is one, comes before the bitstream chunks. */
  predicate HeaderLeads(cs: seq<Chunk>) {
    First(cs, VP8X).Some? ==> FirstHeader(cs).Some? && FirstHeader(cs).value.fourcc == VP8X
  }

  function CountOf(cs: seq<Chunk>, fourcc: Tag): nat {
    if cs == [] then 0 else (if cs[0].fourcc == fourcc then 1 else 0) + CountOf(cs[1..], fourcc)
  }

  lemma {:induction false} FirstHeaderIs(cs: seq<Chunk>)
    ensures FirstHeader(cs).Some? ==> IsImageHeader(FirstHeader(cs).value.fourcc)
  {
    if cs != [] {
      FirstHeaderIs(cs[1..]);
    }
  }

  function SniffChunks(cs: seq<Chunk>): Result<Facts> {
    FirstHeaderIs(cs);
    if FirstHeader(cs).None? then Err(DecodeFailed)
    else
      var header := SniffHeader(FirstHeader(cs).value);
      if header.Ok? then Ok(WithFrames(header.value, CountOf(cs, ANMF))) else header
  }

  function Unprefixed(payload: Option<seq<byte>>): Option<seq<byte>> {
    if payload.Some? then Some(StripExifPrefix(payload.value)) else None
  }

  lemma {:induction false} WalkMatches(b: seq<byte>, offset: nat)
    requires Walks(b, offset)
    ensures var cs := ChunksFrom(b, offset);
            && (FirstHeader(cs).None? ==> HeaderFrom(b, offset) == Err(DecodeFailed))
            && (FirstHeader(cs).Some? ==>
                  && IsImageHeader(FirstHeader(cs).value.fourcc)
                  && HeaderFrom(b, offset) == SniffHeader(FirstHeader(cs).value))
            && FramesFrom(b, offset) == CountOf(cs, ANMF)
            && ExifFrom(b, offset) == Unprefixed(First(cs, EXIF))
    decreases |b| - offset
  {
    if offset + 8 <= |b| {
      WalkMatches(b, Next(b, offset));
      var c, rest := ChunkAt(b, offset), ChunksFrom(b, Next(b, offset));
      assert ([c] + rest)[1..] == rest && ([c] + rest)[0] == c;
    }
  }

  /** On a container that parses, each walker reports what the chunk list says. */
  lemma SnifferMatchesParser(b: seq<byte>)
    requires ParseContainer(b).Some?
    ensures Sniff(b) == SniffChunks(ParseContainer(b).value)
    ensures FramesFrom(b, 12) == CountOf(ParseContainer(b).value, ANMF)
    ensures ExifFrom(b, 12) == Unprefixed(First(ParseContainer(b).value, EXIF))
  {
    WalkMatches(b, 12);
  }

  // ---------- rewriting keeps the facts ----------

  lemma {:induction false} PictureHeaders(cs: seq<Chunk>)
    ensures CountOf(PictureChunks(cs), ANMF) == CountOf(cs, ANMF)
  {
    if cs != [] {
      PictureHeaders(cs[1..]);
      var rest := PictureChunks(cs[1..]);
      assert ([cs[0]] + rest)[1..] == rest;
    }
  }

  lemma {:induction false} CountConcat(cs: seq<Chunk>, ds: seq<Chunk>, fourcc: Tag)
    ensures CountOf(cs + ds, fourcc) == CountOf(cs, fourcc) + CountOf(ds, fourcc)
  {
    if cs == [] {
      assert cs + ds == ds;
    } else {
      assert (cs + ds)[1..] == cs[1..] + ds;
      CountConcat(cs[1..], ds, fourcc);
    }
  }

  lemma CountOptional(fourcc: Tag, payload: Option<seq<byte>>)
    requires IsMetadata(fourcc)
    ensures CountOf(Optional(fourcc, payload), ANMF) == 0
  {
    if payload.Some? {
      assert Optional(fourcc, payload)[1..] == [];
    }
  }

  lemma FramesRewritten(top: Chunk, icc: Option<seq<byte>>, cs: seq<Chunk>, exif: Option<seq<byte>>,
                        xmp: Option<seq<byte>>)
    requires top.fourcc == VP8X
    ensures CountOf([top] + Optional(ICCP, icc) + PictureChunks(cs) + Optional(EXIF, exif) + Optional(XMP, xmp), ANMF)
            == CountOf(cs, ANMF)
  {
    var a := [top];
    var b := a + Optional(ICCP, icc);
    var c := b + PictureChunks(cs);
    var d := c + Optional(EXIF, exif);
    assert a[1..] == [];
    CountOptional(ICCP, icc);
    CountOptional(EXIF, exif);
    CountOptional(XMP, xmp);
    CountConcat(a, Optional(ICCP, icc), ANMF);
    CountConcat(b, PictureChunks(cs), ANMF);
    CountConcat(c, Optional(EXIF, exif), ANMF);
    CountConcat(d, Optional(XMP, xmp), ANMF);
    PictureHeaders(cs);
  }

  /** With no extended header, a readable first header is the canvas an injection builds from. */
  lemma {:induction false} CanvasIsSniffed(cs: seq<Chunk>)
    requires First(cs, VP8X).None?
    requires SniffChunks(cs).Ok?
    ensures var facts := SniffChunks(cs).value;
            CanvasInfo(cs) == Some(Canvas(facts.width, facts.height, facts.alpha)) && facts.frames == 1
  {
    if !IsImageHeader(cs[0].fourcc) {
      assert SniffChunks(cs[1..]).Ok?;
      CanvasIsSniffed(cs[1..]);
    }
  }

  lemma {:induction false} FirstExtended(cs: seq<Chunk>)
    requires FirstHeader(cs).Some? && FirstHeader(cs).value.fourcc == VP8X
    ensures First(cs, VP8X) == Some(FirstHeader(cs).value.payload)
  {
    if cs[0].fourcc != VP8X {
      FirstExtended(cs[1..]);
    }
  }

  lemma AdvertiseKeepsFacts(header: seq<byte>, icc: bool, exif: bool, xmp: bool)
    requires |header| == 10
    ensures SniffVp8x(Advertise(header, icc, exif, xmp)) == SniffVp8x(header)
  {
    var after := Advertise(header, icc, exif, xmp);
    AdvertisedFlag(header, icc, exif, xmp, AnimationFlag);
    AdvertisedFlag(header, icc, exif, xmp, AlphaFlag);
    assert after[4..7] == header[4..7] && after[7..10] == header[7..10];
  }

  lemma BuiltHeaderSniffs(canvas: Canvas, alpha: bool)
    requires 0 < canvas.width <= MAX_CANVAS && 0 < canvas.height <= MAX_CANVAS
    ensures SniffVp8x(BuiltHeader(canvas, alpha)) == Ok(Facts(canvas.width, canvas.height, 1, alpha))
  {
    var header := BuiltHeader(canvas, alpha);
    assert header[4..7] == LeBytes(canvas.width - 1, 3);
    assert header[7..10] == LeBytes(canvas.height - 1, 3);
    assert Limit(3) == MAX_CANVAS;
    ReadAfterWrite(canvas.width - 1, 3);
    ReadAfterWrite(canvas.height - 1, 3);
    FlagAfterSet(0, AlphaFlag, alpha, AlphaFlag);
    FlagAfterSet(0, AlphaFlag, alpha, AnimationFlag);
    NoFlags(AlphaFlag);
    NoFlags(AnimationFlag);
  }

  /**
   The header an injection starts from reports the facts the file's own headers did. Alpha is
   the exception: a simple file with a stray ALPH chunk gains it.
   */
  lemma StartingHeaderSniffs(cs: seq<Chunk>)
    requires SniffChunks(cs).Ok? && HeaderPayload(cs).Ok?
    requires HeaderLeads(cs)
    ensures SniffVp8x(HeaderPayload(cs).value).Ok?
    ensures var before := SniffChunks(cs).value;
            var after := WithFrames(SniffVp8x(HeaderPayload(cs).value).value, CountOf(cs, ANMF));
            && after.(alpha := before.alpha) == before
            && (after.alpha == before.alpha <==> First(cs, VP8X).Some? || First(cs, ALPH).None? || before.alpha)
  {
    FirstHeaderIs(cs);
    if First(cs, VP8X).Some? {
      FirstExtended(cs);
      var own := First(cs, VP8X).value;
      assert own[..10][4..7] == own[4..7] && own[..10][7..10] == own[7..10];
    } else {
      CanvasIsSniffed(cs);
      BuiltHeaderSniffs(CanvasInfo(cs).value, CanvasInfo(cs).value.alpha || First(cs, ALPH).Some?);
    }
  }

  /**
   After an injection the sniffer reports, whatever it reported before, what the header the
   injection started from says, and the frames the file has. The EXIF found is the one the file
   carried, or else the one given.
   */
  lemma InjectedSniff(b: seq<byte>, icc: Option<seq<byte>>, exif: Option<seq<byte>>, xmp: Option<seq<byte>>)
    requires Inject(b, icc, exif, xmp).Ok?
    requires ParseContainer(b).Some? && Adds(ParseContainer(b).value, icc, exif, xmp)
    ensures var cs, out := ParseContainer(b).value, Inject(b, icc, exif, xmp).value;
            && HeaderPayload(cs).Ok? && SniffVp8x(HeaderPayload(cs).value).Ok?
            && Sniff(out) == Ok(WithFrames(SniffVp8x(HeaderPayload(cs).value).value, CountOf(cs, ANMF)))
            && ExifFrom(out, 12) == Unprefixed(OrElse(First(cs, EXIF), exif))
  {
    var cs, header, ds := InjectIsContainer(b, icc, exif, xmp);
    var addIcc, addExif, addXmp := Missing(cs, ICCP, icc), Missing(cs, EXIF, exif), Missing(cs, XMP, xmp);
    var top := Chunk(VP8X, Advertise(header, addIcc.Some?, addExif.Some?, addXmp.Some?));
    SnifferMatchesParser(Container(ds));
    HeaderThenRest(top, Optional(ICCP, OrElse(addIcc, First(cs, ICCP))), PictureChunks(cs),
                   Optional(EXIF, OrElse(addExif, First(cs, EXIF))), Optional(XMP, OrElse(addXmp, First(cs, XMP))));
    assert FirstHeader(ds) == Some(top);
    FramesRewritten(top, OrElse(addIcc, First(cs, ICCP)), cs, OrElse(addExif, First(cs, EXIF)),
                    OrElse(addXmp, First(cs, XMP)));
    AdvertiseKeepsFacts(header, addIcc.Some?, addExif.Some?, addXmp.Some?);
    NoneInPicture(cs, EXIF);
    FirstRewritten(top, OrElse(addIcc, First(cs, ICCP)), PictureChunks(cs), OrElse(addExif, First(cs, EXIF)),
                   OrElse(addXmp, First(cs, XMP)), EXIF);
  }

  /**
   Where an extended header, if there is one, comes first, injecting keeps the size and the frame
   count the sniffer reports, and keeps alpha if and only if the file has an extended header, or
   no ALPH chunk, or alpha already.
   */
  lemma InjectKeepsFacts(b: seq<byte>, icc: Option<seq<byte>>, exif: Option<seq<byte>>, xmp: Option<seq<byte>>)
    requires Inject(b, icc, exif, xmp).Ok?
    requires ParseContainer(b).Some? && Adds(ParseContainer(b).value, icc, exif, xmp)
    requires Sniff(b).Ok?
    requires HeaderLeads(ParseContainer(b).value)
    ensures var cs, out := ParseContainer(b).value, Inject(b, icc, exif, xmp).value;
            && Sniff(out).Ok?
            && Sniff(out).value.(alpha := Sniff(b).value.alpha) == Sniff(b).value
            && (Sniff(out) == Sniff(b) <==> First(cs, VP8X).Some? || First(cs, ALPH).None? || Sniff(b).value.alpha)
            && ExifFrom(out, 12) == Unprefixed(OrElse(First(cs, EXIF), exif))
  {
    hide Inject, Sniff, ExifFrom, SniffVp8x, HeaderPayload;
    SnifferMatchesParser(b);
    InjectedSniff(b, icc, exif, xmp);
    StartingHeaderSniffs(ParseContainer(b).value);
  }

  /** A lossy bitstream header of a 1x1 picture, and an alpha chunk that does not belong to it. */
  function StrayAlpha(): seq<Chunk> {
    [Chunk(VP8, [0, 0, 0, 0x9D, 0x01, 0x2A, 1, 0, 1, 0]), Chunk(ALPH, [])]
  }

  lemma StrayAlphaHeader()
    ensures CanvasInfo(StrayAlpha()) == Some(Canvas(1, 1, false))
    ensures SniffChunks(StrayAlpha()) == Ok(Facts(1, 1, 1, false))
  {
    var data: seq<byte> := [0, 0, 0, 0x9D, 0x01, 0x2A, 1, 0, 1, 0];
    assert data[6..8] == [1, 0] && data[8..10] == [1, 0];
    SmallNumbers();
    assert StrayAlpha()[0].payload == data;
  }

  lemma StrayAlphaLists()
    ensures First(StrayAlpha(), VP8X).None? && First(StrayAlpha(), ICCP).None? && First(StrayAlpha(), ALPH).Some?
    ensures First(StrayAlpha(), EXIF).None? && First(StrayAlpha(), XMP).None?
    ensures PictureChunks(StrayAlpha()) == StrayAlpha() && Sized(StrayAlpha())
  {
    var second := StrayAlpha()[1..];
    assert second == [Chunk(ALPH, [])] && second[1..] == [];
    assert PictureChunks(second) == second;
    assert [StrayAlpha()[0]] + second == StrayAlpha();
  }

  /** That file shows no alpha before a profile is injected, and alpha afterwards. */
  lemma StrayAlphaGainsAlpha()
    ensures var before := Container(StrayAlpha());
            var injected := Inject(before, Some([]), None, None);
            && Sniff(before) == Ok(Facts(1, 1, 1, false))
            && injected.Ok? && Sniff(injected.value) == Ok(Facts(1, 1, 1, true))
  {
    hide CanvasInfo, First, PictureChunks, SniffChunks, StrayAlpha, Sniff, ExifFrom, Sized, EncodeChunk;
    var cs := StrayAlpha();
    StrayAlphaHeader();
    StrayAlphaLists();
    ParseContainerEncoded(cs);
    SnifferMatchesParser(Container(cs));
    StrayAlphaFits();
    InjectKeepsFacts(Container(cs), Some([]), None, None);
  }

  lemma StrayAlphaFits()
    ensures HeaderPayload(StrayAlpha()).Ok?
    ensures |EncodeChunks(StrayAlpha())| <= 1000
    ensures var header := HeaderPayload(StrayAlpha()).value;
            |EncodeChunks(Rewritten(StrayAlpha(), header, Some([]), None, None))| + 4 <= U32_MAX
  {
    hide CanvasInfo, First, PictureChunks, Advertise, BuiltHeader, Rewritten;
    var cs := StrayAlpha();
    StrayAlphaHeader();
    StrayAlphaLists();
    EncodeConcat(cs[..1], cs[1..]);
    assert cs == cs[..1] + cs[1..];
    EncodeSingle(cs[0]);
    EncodeSingle(cs[1]);
    assert cs[..1] == [cs[0]] && cs[1..] == [cs[1]];
    ProfileFits(cs, HeaderPayload(cs).value);
  }

  /** A 1x1 bitstream chunk with an extended header of a 2x2 canvas behind it. */
  function LateHeader(): seq<Chunk> {
    [Chunk(VP8, [0, 0, 0, 0x9D, 0x01, 0x2A, 1, 0, 1, 0]), Chunk(VP8X, [0, 0, 0, 0, 1, 0, 0, 1, 0, 0])]
  }

  lemma LateHeaderLists()
    ensures var cs := LateHeader();
            && First(cs, VP8X) == Some(cs[1].payload) && PictureChunks(cs) == [cs[0]] && Sized(cs)
            && First(cs, ICCP).None? && First(cs, EXIF).None? && First(cs, XMP).None? && CountOf(cs, ANMF) == 0
            && FirstHeader(cs) == Some(cs[0]) && !HeaderLeads(cs)
  {
    var second := LateHeader()[1..];
    assert second == [LateHeader()[1]] && second[1..] == [];
    assert PictureChunks(second) == [];
    assert First(second, VP8X) == Some(LateHeader()[1].payload);
  }

  lemma SmallNumbers()
    ensures LeValue([1, 0]) == 1 && LeValue([1, 0, 0]) == 1
  {
    assert [1 as byte, 0][1..] == [0] && [0 as byte][1..] == [];
    assert [1 as byte, 0, 0][1..] == [0, 0] && [0 as byte, 0][1..] == [0];
  }

  lemma LateHeaderFacts()
    ensures SniffChunks(LateHeader()) == Ok(Facts(1, 1, 1, false))
    ensures HeaderPayload(LateHeader()).Ok? && SniffVp8x(HeaderPayload(LateHeader()).value) == Ok(Facts(2, 2, 1, false))
  {
    LateHeaderLists();
    SmallNumbers();
    var data, header := LateHeader()[0].payload, LateHeader()[1].payload;
    assert data[6..8] == [1, 0] && data[8..10] == [1, 0];
    assert header[..10] == header && header[4..7] == [1, 0, 0] && header[7..10] == [1, 0, 0];
    hide First, HeaderPayload, FirstHeader;
    NoFlags(AlphaFlag);
    NoFlags(AnimationFlag);
  }

  lemma LateHeaderInjects()
    ensures Inject(Container(LateHeader()), Some([]), None, None).Ok?
    ensures ParseContainer(Container(LateHeader())) == Some(LateHeader())
    ensures Adds(LateHeader(), Some([]), None, None)
  {
    hide First, PictureChunks, LateHeader, Sized, Rewritten, Container, HeaderPayload, SniffChunks, SniffVp8x;
    var cs := LateHeader();
    LateHeaderLists();
    LateHeaderFacts();
    ParseContainerEncoded(cs);
    EncodeSingle(cs[0]);
    LateHeaderSize();
    ProfileFits(cs, HeaderPayload(cs).value);
  }

  lemma LateHeaderSize()
    ensures |EncodeChunk(LateHeader()[0])| <= 1000
  {
  }

  /** With the header behind the bitstream an injection changes what is reported: the header takes over. */
  lemma LateHeaderTakesOver()
    ensures var before := Container(LateHeader());
            var injected := Inject(before, Some([]), None, None);
            && Sniff(before) == Ok(Facts(1, 1, 1, false))
            && injected.Ok? && Sniff(injected.value) == Ok(Facts(2, 2, 1, false))
  {
    hide First, LateHeader, Inject, Sniff, SniffChunks, SniffVp8x, HeaderPayload, ExifFrom, ParseContainer, CountOf;
    LateHeaderLists();
    LateHeaderFacts();
    LateHeaderInjects();
    SnifferMatchesParser(Container(LateHeader()));
    InjectedSniff(Container(LateHeader()), Some([]), None, None);
  }

  lemma StripChunkKeepsFacts(c: Chunk, policy: MetadataPolicy)
    requires IsImageHeader(c.fourcc) && (c.fourcc == VP8X ==> |c.payload| > 0)
    ensures SniffHeader(StripChunk(c, policy)) == SniffHeader(c)
  {
    if c.fourcc == VP8X && |c.payload| >= 10 {
      RemovedInStep(policy);
      FlagAfterClear(c.payload[0], RemovedFlags(policy), AlphaFlag);
      FlagAfterClear(c.payload[0], RemovedFlags(policy), AnimationFlag);
      var after := StripChunk(c, policy).payload;
      assert after[4..7] == c.payload[4..7] && after[7..10] == c.payload[7..10];
    }
  }

  lemma {:induction false} StrippedFacts(cs: seq<Chunk>, policy: MetadataPolicy)
    requires HeadersReadable(cs)
    ensures SniffChunks(StripChunks(cs, policy)).Ok? <==> SniffChunks(cs).Ok?
    ensures var ds := StripChunks(cs, policy);
            && CountOf(ds, ANMF) == CountOf(cs, ANMF)
            && (FirstHeader(ds).Some? <==> FirstHeader(cs).Some?)
            && (FirstHeader(cs).Some? ==>
                  && IsImageHeader(FirstHeader(cs).value.fourcc) && IsImageHeader(FirstHeader(ds).value.fourcc)
                  && SniffHeader(FirstHeader(ds).value) == SniffHeader(FirstHeader(cs).value))
  {
    if cs != [] {
      StrippedFacts(cs[1..], policy);
      var rest := StripChunks(cs[1..], policy);
      if !Removes(policy, cs[0].fourcc) {
        var c := StripChunk(cs[0], policy);
        assert ([c] + rest)[1..] == rest && ([c] + rest)[0] == c;
        if IsImageHeader(cs[0].fourcc) {
          StripChunkKeepsFacts(cs[0], policy);
        }
      }
    }
  }

  /**
   Stripping keeps every fact the sniffer reports. The EXIF block is still found, unchanged,
   exactly when the policy does not remove it.
   */
  lemma StripKeepsFacts(b: seq<byte>, policy: MetadataPolicy)
    requires policy != KeepAll && Strip(b, policy).Some?
    ensures Sniff(Strip(b, policy).value) == Sniff(b)
    ensures ExifFrom(Strip(b, policy).value, 12) == if Removes(policy, EXIF) then None else ExifFrom(b, 12)
  {
    var cs, ds := StripIsContainer(b, policy);
    SnifferMatchesParser(b);
    SnifferMatchesParser(Strip(b, policy).value);
    FirstIffHas(cs, EXIF);
    if AnyRemoved(cs, policy) {
      StrippedFacts(cs, policy);
      StrippedFirst(cs, policy, EXIF);
    }
  }
}
