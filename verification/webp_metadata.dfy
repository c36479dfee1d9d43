/**
 Adding metadata payloads to a WebP container.

 The injection is specified on the chunk list and proved to produce its printed form, so what
 it means is read off by parsing its output again.
 */
module WebpMetadata {
  import opened Wrappers
  import opened Bytes
  import opened WebpContainer
  import opened WebpFlags

  // ---------- looking up chunks ----------

  /** The payload of the first chunk with this code. */
  function First(cs: seq<Chunk>, fourcc: Tag): Option<seq<byte>> {
    if cs == [] then None
    else if cs[0].fourcc == fourcc then Some(cs[0].payload)
    else First(cs[1..], fourcc)
  }

  predicate Has(cs: seq<Chunk>, fourcc: Tag) {
    exists i | 0 <= i < |cs| :: cs[i].fourcc == fourcc
  }

  lemma {:induction false} FirstIffHas(cs: seq<Chunk>, fourcc: Tag)
    ensures First(cs, fourcc).Some? <==> Has(cs, fourcc)
  {
    if cs != [] && cs[0].fourcc != fourcc {
      FirstIffHas(cs[1..], fourcc);
      assert forall i | 1 <= i < |cs| :: cs[i] == cs[1..][i - 1];
      assert forall i | 0 <= i < |cs| - 1 :: cs[1..][i] == cs[i + 1];
    }
  }

  lemma {:induction false} FirstConcat(cs: seq<Chunk>, ds: seq<Chunk>, fourcc: Tag)
    ensures First(cs + ds, fourcc) == if First(cs, fourcc).Some? then First(cs, fourcc) else First(ds, fourcc)
  {
    if cs == [] {
      assert cs + ds == ds;
    } else {
      assert (cs + ds)[1..] == cs[1..] + ds;
      FirstConcat(cs[1..], ds, fourcc);
    }
  }

  predicate IsMetadata(fourcc: Tag) {
    fourcc == ICCP || fourcc == EXIF || fourcc == XMP
  }

  /** The chunks an injection copies through: neither the header chunk nor metadata. */
  function PictureChunks(cs: seq<Chunk>): seq<Chunk> {
    if cs == [] then []
    else if cs[0].fourcc == VP8X || IsMetadata(cs[0].fourcc) then PictureChunks(cs[1..])
    else [cs[0]] + PictureChunks(cs[1..])
  }

  function Optional(fourcc: Tag, payload: Option<seq<byte>>): seq<Chunk> {
    if payload.Some? then [Chunk(fourcc, payload.value)] else []
  }

  function OrElse(first: Option<seq<byte>>, second: Option<seq<byte>>): Option<seq<byte>> {
    if first.Some? then first else second
  }

  // ---------- the canvas ----------

  datatype Canvas = Canvas(width: nat, height: nat, alpha: bool)

  const MAX_CANVAS := 0x100_0000

  /** The canvas a lossy bitstream header states, when it is one. */
  function Vp8Canvas(data: seq<byte>): Option<Canvas> {
    if |data| >= 10 && data[3] == 0x9D && data[4] == 0x01 && data[5] == 0x2A
    then Some(Canvas(Le16At(data, 6) % 0x4000, Le16At(data, 8) % 0x4000, false))
    else None
  }

  /** The canvas a lossless bitstream header states, when it is one. */
  function Vp8lCanvas(data: seq<byte>): Option<Canvas> {
    if |data| >= 5 && data[0] == 0x2F then
      var bits := Le32At(data, 1);
      Some(Canvas(bits % 0x4000 + 1, bits / 0x4000 % 0x4000 + 1, bits / 0x1000_0000 % 2 != 0))
    else None
  }

  function ChunkCanvas(c: Chunk): Option<Canvas> {
    if c.fourcc == VP8 then Vp8Canvas(c.payload)
    else if c.fourcc == VP8L then Vp8lCanvas(c.payload)
    else None
  }

  /** The first bitstream chunk with a readable header; unreadable ones are passed over. */
  function CanvasInfo(cs: seq<Chunk>): Option<Canvas> {
    if cs == [] then None
    else if ChunkCanvas(cs[0]).Some? then ChunkCanvas(cs[0])
    else CanvasInfo(cs[1..])
  }

  method WebpCanvasInfo(encoded: seq<byte>, chunks: seq<ChunkRange>) returns (r: Result<Canvas>)
    requires InFile(encoded, chunks)
    ensures CanvasInfo(Contents(encoded, chunks)).Some? ==> r == Ok(CanvasInfo(Contents(encoded, chunks)).value)
    ensures CanvasInfo(Contents(encoded, chunks)).None? ==> r == Err(EncodeFailed)
  {
    ghost var cs := Contents(encoded, chunks);
    for i := 0 to |chunks|
      invariant CanvasInfo(cs[i..]) == CanvasInfo(cs)
    {
      assert cs[i..][1..] == cs[i + 1..];
      var canvas := ChunkCanvas(ChunkOf(encoded, chunks[i]));
      if canvas.Some? {
        return Ok(canvas.value);
      }
    }
    return Err(EncodeFailed);
  }

  // ---------- injecting ----------

  /** The 10 header bytes an injection starts from: the file's own, or ones built to match it. */
  function HeaderPayload(cs: seq<Chunk>): (r: Result<seq<byte>>)
    ensures r.Ok? ==> |r.value| == 10
  {
    var own := First(cs, VP8X);
    if own.Some? && |own.value| >= 10 then Ok(own.value[..10])
    else
      var canvas := CanvasInfo(cs);
      if canvas.None? || canvas.value.width == 0 || canvas.value.height == 0
         || canvas.value.width > MAX_CANVAS || canvas.value.height > MAX_CANVAS
      then Err(EncodeFailed)
      else Ok(BuiltHeader(canvas.value, canvas.value.alpha || First(cs, ALPH).Some?))
  }

  function BuiltHeader(canvas: Canvas, alpha: bool): (s: seq<byte>)
    requires canvas.width > 0 && canvas.height > 0
    ensures |s| == 10
  {
    [SetFlagIf(0, AlphaFlag, alpha), 0, 0, 0] + LeBytes(canvas.width - 1, 3) + LeBytes(canvas.height - 1, 3)
  }

  /** The payload to add: only what the container does not already carry. */
  function Missing(cs: seq<Chunk>, fourcc: Tag, payload: Option<seq<byte>>): Option<seq<byte>> {
    if First(cs, fourcc).Some? then None else payload
  }

  function Advertise(header: seq<byte>, icc: bool, exif: bool, xmp: bool): (s: seq<byte>)
    requires |header| == 10
    ensures |s| == 10
  {
    [SetFlagIf(SetFlagIf(SetFlagIf(header[0], IccFlag, icc), ExifFlag, exif), XmpFlag, xmp)] + header[1..]
  }

  /** The rewritten chunk list, given the payloads to add. */
  function Rewritten(cs: seq<Chunk>, header: seq<byte>, icc: Option<seq<byte>>, exif: Option<seq<byte>>,
                     xmp: Option<seq<byte>>): seq<Chunk>
    requires |header| == 10
  {
    [Chunk(VP8X, Advertise(header, icc.Some?, exif.Some?, xmp.Some?))]
    + Optional(ICCP, OrElse(icc, First(cs, ICCP)))
    + PictureChunks(cs)
    + Optional(EXIF, OrElse(exif, First(cs, EXIF)))
    + Optional(XMP, OrElse(xmp, First(cs, XMP)))
  }

  function Inject(b: seq<byte>, icc: Option<seq<byte>>, exif: Option<seq<byte>>, xmp: Option<seq<byte>>)
    : Result<seq<byte>>
  {
    if icc.None? && exif.None? && xmp.None? then Ok(b)
    else if ParseContainer(b).None? then Err(EncodeFailed)
    else
      var cs := ParseContainer(b).value;
      var addIcc, addExif, addXmp := Missing(cs, ICCP, icc), Missing(cs, EXIF, exif), Missing(cs, XMP, xmp);
      if addIcc.None? && addExif.None? && addXmp.None? then Ok(b)
      else if HeaderPayload(cs).Err? then Err(EncodeFailed)
      else
        var out := Rewritten(cs, HeaderPayload(cs).value, addIcc, addExif, addXmp);
        if |EncodeChunks(out)| + 4 > U32_MAX then Err(EncodeFailed) else Ok(Container(out))
  }

  function FindChunk(chunks: seq<ChunkRange>, fourcc: Tag): (r: Option<ChunkRange>)
    ensures r.Some? ==> r.value in chunks && r.value.fourcc == fourcc
  {
    if chunks == [] then None
    else if chunks[0].fourcc == fourcc then Some(chunks[0])
    else FindChunk(chunks[1..], fourcc)
  }

  lemma {:induction false} FindChunkIsFirst(b: seq<byte>, chunks: seq<ChunkRange>, fourcc: Tag)
    requires InFile(b, chunks)
    ensures var found := FindChunk(chunks, fourcc);
            First(Contents(b, chunks), fourcc) == if found.Some? then Some(ChunkOf(b, found.value).payload) else None
  {
    if chunks != [] {
      assert Contents(b, chunks)[1..] == Contents(b, chunks[1..]);
      FindChunkIsFirst(b, chunks[1..], fourcc);
    }
  }

  lemma {:induction false} PictureConcat(cs: seq<Chunk>, ds: seq<Chunk>)
    ensures PictureChunks(cs + ds) == PictureChunks(cs) + PictureChunks(ds)
  {
    if cs == [] {
      assert cs + ds == ds;
    } else {
      assert (cs + ds)[1..] == cs[1..] + ds;
      PictureConcat(cs[1..], ds);
    }
  }

  lemma PictureStep(cs: seq<Chunk>, i: nat, front: seq<byte>)
    requires i < |cs|
    ensures front + EncodeChunks(PictureChunks(cs[..i + 1]))
            == front + EncodeChunks(PictureChunks(cs[..i]))
               + if cs[i].fourcc == VP8X || IsMetadata(cs[i].fourcc) then [] else EncodeChunk(cs[i])
  {
    assert cs[..i + 1] == cs[..i] + [cs[i]];
    PictureConcat(cs[..i], [cs[i]]);
    assert [cs[i]][1..] == [];
    EncodeConcat(PictureChunks(cs[..i]), PictureChunks([cs[i]]));
    EncodeSingle(cs[i]);
  }

  lemma EncodeOptional(cs: seq<Chunk>, fourcc: Tag, payload: Option<seq<byte>>)
    ensures EncodeChunks(cs + Optional(fourcc, payload))
            == EncodeChunks(cs) + if payload.Some? then EncodeChunk(Chunk(fourcc, payload.value)) else []
  {
    EncodeConcat(cs, Optional(fourcc, payload));
    if payload.Some? {
      EncodeSingle(Chunk(fourcc, payload.value));
    }
  }

  /** Writes the payload to add, or the chunk the container already had, or nothing. */
  method PushPayload(body: ByteVec, encoded: seq<byte>, chunks: seq<ChunkRange>, fourcc: Tag, added: Option<seq<byte>>,
                     ghost before: seq<Chunk>)
    requires InFile(encoded, chunks)
    requires body.data == EncodeChunks(before)
    modifies body
    ensures body.data
            == EncodeChunks(before + Optional(fourcc, OrElse(added, First(Contents(encoded, chunks), fourcc))))
  {
    FindChunkIsFirst(encoded, chunks, fourcc);
    EncodeOptional(before, fourcc, OrElse(added, First(Contents(encoded, chunks), fourcc)));
    if added.Some? {
      PushWebpChunk(body, fourcc, added.value);
    } else {
      var own := FindChunk(chunks, fourcc);
      if own.Some? {
        PushWebpChunk(body, fourcc, encoded[own.value.start..own.value.end]);
      }
    }
  }

  /** The 10 header bytes to start from, read off the parsed ranges. */
  method StartingHeader(encoded: seq<byte>, chunks: seq<ChunkRange>) returns (r: Result<seq<byte>>)
    requires InFile(encoded, chunks)
    ensures r == HeaderPayload(Contents(encoded, chunks))
  {
    var own := FindChunk(chunks, VP8X);
    FindChunkIsFirst(encoded, chunks, VP8X);
    if own.Some? && own.value.end - own.value.start >= 10 {
      var start, end := own.value.start, own.value.end;
      assert own.value in chunks;
      assert encoded[start..end][..10] == encoded[start..start + 10];
      return Ok(encoded[start..start + 10]);
    }
    var canvas := WebpCanvasInfo(encoded, chunks);
    if canvas.Err? {
      return Err(EncodeFailed);
    }
    var width, height := canvas.value.width, canvas.value.height;
    if width == 0 || height == 0 || width > MAX_CANVAS || height > MAX_CANVAS {
      return Err(EncodeFailed);
    }
    var first := 0;
    FindChunkIsFirst(encoded, chunks, ALPH);
    if canvas.value.alpha || FindChunk(chunks, ALPH).Some? {
      first := SetFlag(first, AlphaFlag);
    }
    return Ok([first, 0, 0, 0] + LeBytes(width - 1, 3) + LeBytes(height - 1, 3));
  }

  method KeepMissing(encoded: seq<byte>, chunks: seq<ChunkRange>, fourcc: Tag, payload: Option<seq<byte>>)
    returns (r: Option<seq<byte>>)
    requires InFile(encoded, chunks)
    ensures r == Missing(Contents(encoded, chunks), fourcc, payload)
  {
    FindChunkIsFirst(encoded, chunks, fourcc);
    return if FindChunk(chunks, fourcc).Some? then None else payload;
  }

  /** Rewrites a container so that it carries the payloads it lacks. */
  method InjectWebpMetadata(encoded: seq<byte>, icc: Option<seq<byte>>, exif: Option<seq<byte>>, xmp: Option<seq<byte>>)
    returns (r: Result<seq<byte>>)
    ensures r == Inject(encoded, icc, exif, xmp)
  {
    if icc.None? && exif.None? && xmp.None? {
      return Ok(encoded);
    }
    var parsed := ParseWebpChunks(encoded);
    if parsed.Err? {
      return Err(EncodeFailed);
    }
    var chunks := parsed.value;
    var addIcc := KeepMissing(encoded, chunks, ICCP, icc);
    var addExif := KeepMissing(encoded, chunks, EXIF, exif);
    var addXmp := KeepMissing(encoded, chunks, XMP, xmp);
    if addIcc.None? && addExif.None? && addXmp.None? {
      return Ok(encoded);
    }
    var header := StartingHeader(encoded, chunks);
    if header.Err? {
      return Err(EncodeFailed);
    }
    r := WriteContainer(encoded, chunks, header.value, addIcc, addExif, addXmp);
  }

  /** Sets the flags of the added payloads and writes the whole file. */
  method WriteContainer(encoded: seq<byte>, chunks: seq<ChunkRange>, header: seq<byte>, icc: Option<seq<byte>>,
                        exif: Option<seq<byte>>, xmp: Option<seq<byte>>)
    returns (r: Result<seq<byte>>)
    requires InFile(encoded, chunks) && |header| == 10
    ensures var out := Rewritten(Contents(encoded, chunks), header, icc, exif, xmp);
            r == if |EncodeChunks(out)| + 4 > U32_MAX then Err(EncodeFailed) else Ok(Container(out))
  {
    var flags := header[0];
    if icc.Some? {
      flags := SetFlag(flags, IccFlag);
    }
    if exif.Some? {
      flags := SetFlag(flags, ExifFlag);
    }
    if xmp.Some? {
      flags := SetFlag(flags, XmpFlag);
    }
    var body := WriteBody(encoded, chunks, [flags] + header[1..], icc, exif, xmp);
    if |body| + 4 > U32_MAX {
      return Err(EncodeFailed);
    }
    return Ok(RIFF.Bytes() + Le32(|body| + 4) + WEBP.Bytes() + body);
  }

  /** Copies every chunk through but the header and the metadata. */
  method PushPicture(body: ByteVec, encoded: seq<byte>, chunks: seq<ChunkRange>, ghost before: seq<Chunk>)
    requires InFile(encoded, chunks)
    requires body.data == EncodeChunks(before)
    modifies body
    ensures body.data == EncodeChunks(before + PictureChunks(Contents(encoded, chunks)))
  {
    ghost var cs := Contents(encoded, chunks);
    ghost var front := body.data;
    assert cs[..0] == [] && front + [] == front;
    for i := 0 to |chunks|
      invariant body.data == front + EncodeChunks(PictureChunks(cs[..i]))
    {
      PictureStep(cs, i, front);
      var chunk := chunks[i];
      assert cs[i] == ChunkOf(encoded, chunk);
      if chunk.fourcc == VP8X || chunk.fourcc == ICCP || chunk.fourcc == EXIF || chunk.fourcc == XMP {
        continue;
      }
      PushWebpChunk(body, chunk.fourcc, encoded[chunk.start..chunk.end]);
    }
    assert cs[..|chunks|] == cs;
    EncodeConcat(before, PictureChunks(cs));
  }

  /** The chunks around and including the bitstream, in the order the container format fixes. */
  method WriteBody(encoded: seq<byte>, chunks: seq<ChunkRange>, vp8x: seq<byte>, icc: Option<seq<byte>>,
                   exif: Option<seq<byte>>, xmp: Option<seq<byte>>)
    returns (data: seq<byte>)
    requires InFile(encoded, chunks)
    ensures var cs := Contents(encoded, chunks);
            data == EncodeChunks([Chunk(VP8X, vp8x)]
                                 + Optional(ICCP, OrElse(icc, First(cs, ICCP)))
                                 + PictureChunks(cs)
                                 + Optional(EXIF, OrElse(exif, First(cs, EXIF)))
                                 + Optional(XMP, OrElse(xmp, First(cs, XMP))))
  {
    ghost var cs := Contents(encoded, chunks);
    var body := new ByteVec();
    PushWebpChunk(body, VP8X, vp8x);
    ghost var written := [Chunk(VP8X, vp8x)];
    EncodeSingle(written[0]);
    assert [] + EncodeChunk(written[0]) == EncodeChunk(written[0]);
    PushPayload(body, encoded, chunks, ICCP, icc, written);
    written := written + Optional(ICCP, OrElse(icc, First(cs, ICCP)));
    PushPicture(body, encoded, chunks, written);
    written := written + PictureChunks(cs);
    PushPayload(body, encoded, chunks, EXIF, exif, written);
    written := written + Optional(EXIF, OrElse(exif, First(cs, EXIF)));
    PushPayload(body, encoded, chunks, XMP, xmp, written);
    data := body.data;
  }

  // ---------- what an injection produces ----------

  /** Some payload is given that the container does not carry. */
  predicate Adds(cs: seq<Chunk>, icc: Option<seq<byte>>, exif: Option<seq<byte>>, xmp: Option<seq<byte>>) {
    || Missing(cs, ICCP, icc).Some?
    || Missing(cs, EXIF, exif).Some?
    || Missing(cs, XMP, xmp).Some?
  }

  /** With no payload given any bytes come back, and with nothing to add the file does, byte for byte. */
  lemma InjectNothing(b: seq<byte>, icc: Option<seq<byte>>, exif: Option<seq<byte>>, xmp: Option<seq<byte>>)
    ensures icc.None? && exif.None? && xmp.None? ==> Inject(b, icc, exif, xmp) == Ok(b)
    ensures ParseContainer(b).Some? && !Adds(ParseContainer(b).value, icc, exif, xmp) ==>
              Inject(b, icc, exif, xmp) == Ok(b)
  {
  }

  lemma InjectIsContainer(b: seq<byte>, icc: Option<seq<byte>>, exif: Option<seq<byte>>, xmp: Option<seq<byte>>)
    returns (cs: seq<Chunk>, header: seq<byte>, ds: seq<Chunk>)
    requires Inject(b, icc, exif, xmp).Ok?
    requires ParseContainer(b).Some? && Adds(ParseContainer(b).value, icc, exif, xmp)
    ensures cs == ParseContainer(b).value && HeaderPayload(cs) == Ok(header) && |header| == 10
    ensures ds == Rewritten(cs, header, Missing(cs, ICCP, icc), Missing(cs, EXIF, exif), Missing(cs, XMP, xmp))
    ensures Inject(b, icc, exif, xmp) == Ok(Container(ds)) && |EncodeChunks(ds)| + 4 <= U32_MAX
    ensures ParseContainer(Container(ds)) == Some(ds)
  {
    cs := ParseContainer(b).value;
    header := HeaderPayload(cs).value;
    ds := Rewritten(cs, header, Missing(cs, ICCP, icc), Missing(cs, EXIF, exif), Missing(cs, XMP, xmp));
    SmallIsSized(ds);
    ParseContainerEncoded(ds);
  }

  lemma HeaderThenRest(top: Chunk, icc: seq<Chunk>, picture: seq<Chunk>, exif: seq<Chunk>, xmp: seq<Chunk>)
    ensures var ds := [top] + icc + picture + exif + xmp;
            ds[0] == top && ds[1..] == icc + picture + exif + xmp
  {
  }

  /**
   A successful injection that adds anything parses back to the extended header, the profile,
   the picture chunks in their original order and with their original payloads, the EXIF, and
   the XMP; a payload the container already carried wins over the one given. The RIFF size
   field is the length minus 8.
   */
  lemma InjectParses(b: seq<byte>, icc: Option<seq<byte>>, exif: Option<seq<byte>>, xmp: Option<seq<byte>>)
    requires Inject(b, icc, exif, xmp).Ok?
    requires ParseContainer(b).Some? && Adds(ParseContainer(b).value, icc, exif, xmp)
    ensures var cs, out := ParseContainer(b).value, Inject(b, icc, exif, xmp).value;
            && ParseContainer(out).Some?
            && var ds := ParseContainer(out).value;
            && |ds| > 0 && ds[0].fourcc == VP8X && |ds[0].payload| == 10
            && ds[1..] == Optional(ICCP, OrElse(First(cs, ICCP), icc))
                          + PictureChunks(cs)
                          + Optional(EXIF, OrElse(First(cs, EXIF), exif))
                          + Optional(XMP, OrElse(First(cs, XMP), xmp))
            && Le32At(out, 4) == |out| - 8
  {
    var cs, header, ds := InjectIsContainer(b, icc, exif, xmp);
    RiffSize(ds);
    HeaderThenRest(Chunk(VP8X, Advertise(header, Missing(cs, ICCP, icc).Some?, Missing(cs, EXIF, exif).Some?,
                                         Missing(cs, XMP, xmp).Some?)),
                   Optional(ICCP, OrElse(First(cs, ICCP), icc)), PictureChunks(cs),
                   Optional(EXIF, OrElse(First(cs, EXIF), exif)), Optional(XMP, OrElse(First(cs, XMP), xmp)));
  }

  // ---------- flags and chunks ----------

  /** What the file's extended header says about a flag; a file without one says no. */
  predicate HeaderFlag(cs: seq<Chunk>, f: Flag) {
    First(cs, VP8X).Some? && |First(cs, VP8X).value| >= 10 && HasFlag(First(cs, VP8X).value[0], f)
  }

  /** A metadata flag is set exactly when its chunk is there. */
  predicate Agrees(cs: seq<Chunk>, fourcc: Tag, f: Flag) {
    HeaderFlag(cs, f) <==> Has(cs, fourcc)
  }

  predicate Honest(cs: seq<Chunk>) {
    Agrees(cs, ICCP, IccFlag) && Agrees(cs, EXIF, ExifFlag) && Agrees(cs, XMP, XmpFlag)
  }

  lemma {:induction false} NoneInPicture(cs: seq<Chunk>, fourcc: Tag)
    requires fourcc == VP8X || IsMetadata(fourcc)
    ensures First(PictureChunks(cs), fourcc).None?
  {
    if cs != [] {
      NoneInPicture(cs[1..], fourcc);
      if !(cs[0].fourcc == VP8X || IsMetadata(cs[0].fourcc)) {
        FirstConcat([cs[0]], PictureChunks(cs[1..]), fourcc);
        assert [cs[0]][1..] == [];
      }
    }
  }

  lemma FirstOptional(fourcc: Tag, payload: Option<seq<byte>>, wanted: Tag)
    ensures First(Optional(fourcc, payload), wanted) == if fourcc == wanted then payload else None
  {
    if payload.Some? {
      assert Optional(fourcc, payload)[1..] == [];
    }
  }

  /** The first chunk of each kind in a rewritten list. */
  lemma FirstRewritten(header: Chunk, icc: Option<seq<byte>>, picture: seq<Chunk>, exif: Option<seq<byte>>,
                       xmp: Option<seq<byte>>, wanted: Tag)
    requires header.fourcc == VP8X && (wanted == VP8X || IsMetadata(wanted))
    requires First(picture, wanted).None?
    ensures First([header] + Optional(ICCP, icc) + picture + Optional(EXIF, exif) + Optional(XMP, xmp), wanted)
            == if wanted == VP8X then Some(header.payload)
               else if wanted == ICCP then icc
               else if wanted == EXIF then exif
               else xmp
  {
    var a := [header];
    var b := a + Optional(ICCP, icc);
    var c := b + picture;
    var d := c + Optional(EXIF, exif);
    assert a[1..] == [];
    FirstOptional(ICCP, icc, wanted);
    FirstOptional(EXIF, exif, wanted);
    FirstOptional(XMP, xmp, wanted);
    FirstConcat(a, Optional(ICCP, icc), wanted);
    FirstConcat(b, picture, wanted);
    FirstConcat(c, Optional(EXIF, exif), wanted);
    FirstConcat(d, Optional(XMP, xmp), wanted);
  }

  /** The file has an extended header long enough to start from. */
  predicate HasOwnHeader(cs: seq<Chunk>) {
    First(cs, VP8X).Some? && |First(cs, VP8X).value| >= 10
  }

  lemma HeaderFlagOf(cs: seq<Chunk>, f: Flag)
    requires HeaderPayload(cs).Ok?
    requires f != AlphaFlag || HasOwnHeader(cs)
    ensures HasFlag(HeaderPayload(cs).value[0], f) <==> HeaderFlag(cs, f)
  {
    var own := First(cs, VP8X);
    if own.None? || |own.value| < 10 {
      FlagAfterSet(0, AlphaFlag, CanvasInfo(cs).value.alpha || First(cs, ALPH).Some?, f);
      NoFlags(f);
    }
  }

  lemma NoFlags(f: Flag)
    ensures !HasFlag(0, f)
  {
    NoBits(Index(f));
  }

  lemma {:induction false} NoBits(k: nat)
    ensures !Bit(0, k)
  {
    if k > 0 {
      NoBits(k - 1);
    }
  }

  lemma AdvertisedFlag(header: seq<byte>, icc: bool, exif: bool, xmp: bool, f: Flag)
    requires |header| == 10
    ensures HasFlag(Advertise(header, icc, exif, xmp)[0], f)
            <==> HasFlag(header[0], f) || (f == IccFlag && icc) || (f == ExifFlag && exif) || (f == XmpFlag && xmp)
  {
    var b1 := SetFlagIf(header[0], IccFlag, icc);
    FlagAfterSet(header[0], IccFlag, icc, f);
    FlagAfterSet(b1, ExifFlag, exif, f);
    FlagAfterSet(SetFlagIf(b1, ExifFlag, exif), XmpFlag, xmp, f);
  }

  /**
   After an injection a metadata flag agrees with its chunk if and only if the payload was
   added by this injection or the flag already agreed. The alpha and animation flags of an
   existing header are kept.
   */
  lemma InjectAgreement(b: seq<byte>, icc: Option<seq<byte>>, exif: Option<seq<byte>>, xmp: Option<seq<byte>>)
    requires Inject(b, icc, exif, xmp).Ok?
    requires ParseContainer(b).Some? && Adds(ParseContainer(b).value, icc, exif, xmp)
    ensures var cs, out := ParseContainer(b).value, Inject(b, icc, exif, xmp).value;
            && ParseContainer(out).Some?
            && var ds := ParseContainer(out).value;
            && (Agrees(ds, ICCP, IccFlag) <==> Missing(cs, ICCP, icc).Some? || Agrees(cs, ICCP, IccFlag))
            && (Agrees(ds, EXIF, ExifFlag) <==> Missing(cs, EXIF, exif).Some? || Agrees(cs, EXIF, ExifFlag))
            && (Agrees(ds, XMP, XmpFlag) <==> Missing(cs, XMP, xmp).Some? || Agrees(cs, XMP, XmpFlag))
            && (HeaderFlag(ds, AnimationFlag) <==> HeaderFlag(cs, AnimationFlag))
            && (HasOwnHeader(cs) ==> (HeaderFlag(ds, AlphaFlag) <==> HeaderFlag(cs, AlphaFlag)))
            && (Honest(cs) ==> Honest(ds))
  {
    var cs, header, ds := InjectIsContainer(b, icc, exif, xmp);
    InjectedKind(cs, header, Missing(cs, ICCP, icc), Missing(cs, EXIF, exif), Missing(cs, XMP, xmp), ICCP, IccFlag);
    InjectedKind(cs, header, Missing(cs, ICCP, icc), Missing(cs, EXIF, exif), Missing(cs, XMP, xmp), EXIF, ExifFlag);
    InjectedKind(cs, header, Missing(cs, ICCP, icc), Missing(cs, EXIF, exif), Missing(cs, XMP, xmp), XMP, XmpFlag);
    InjectedKind(cs, header, Missing(cs, ICCP, icc), Missing(cs, EXIF, exif), Missing(cs, XMP, xmp), VP8X,
                 AnimationFlag);
    if HasOwnHeader(cs) {
      InjectedKind(cs, header, Missing(cs, ICCP, icc), Missing(cs, EXIF, exif), Missing(cs, XMP, xmp), VP8X, AlphaFlag);
    }
  }

  lemma InjectedKind(cs: seq<Chunk>, header: seq<byte>, icc: Option<seq<byte>>, exif: Option<seq<byte>>,
                     xmp: Option<seq<byte>>, fourcc: Tag, f: Flag)
    requires HeaderPayload(cs) == Ok(header) && |header| == 10
    requires (fourcc, f) in {(ICCP, IccFlag), (EXIF, ExifFlag), (XMP, XmpFlag), (VP8X, AnimationFlag),
                             (VP8X, AlphaFlag)}
    requires f == AlphaFlag ==> HasOwnHeader(cs)
    ensures var ds := Rewritten(cs, header, icc, exif, xmp);
            var added := match f
                         case IccFlag => icc
                         case ExifFlag => exif
                         case XmpFlag => xmp
                         case _ => None;
            && First(ds, VP8X) == Some(Advertise(header, icc.Some?, exif.Some?, xmp.Some?))
            && (HeaderFlag(ds, f) <==> HeaderFlag(cs, f) || added.Some?)
            && (IsMetadata(fourcc) ==> (Has(ds, fourcc) <==> Has(cs, fourcc) || added.Some?))
  {
    var ds := Rewritten(cs, header, icc, exif, xmp);
    var top := Chunk(VP8X, Advertise(header, icc.Some?, exif.Some?, xmp.Some?));
    NoneInPicture(cs, VP8X);
    NoneInPicture(cs, fourcc);
    FirstRewritten(top, OrElse(icc, First(cs, ICCP)), PictureChunks(cs), OrElse(exif, First(cs, EXIF)),
                   OrElse(xmp, First(cs, XMP)), VP8X);
    FirstRewritten(top, OrElse(icc, First(cs, ICCP)), PictureChunks(cs), OrElse(exif, First(cs, EXIF)),
                   OrElse(xmp, First(cs, XMP)), fourcc);
    FirstIffHas(cs, fourcc);
    FirstIffHas(ds, fourcc);
    HeaderFlagOf(cs, f);
    AdvertisedFlag(header, icc.Some?, exif.Some?, xmp.Some?, f);
  }

  // ---------- a flag that was wrong before ----------

  /** An extended header that advertises EXIF, without an EXIF chunk. */
  function FalseExif(): seq<Chunk> {
    [Chunk(VP8X, [SetFlag(0, ExifFlag), 0, 0, 0, 0, 0, 0, 0, 0, 0])]
  }

  lemma FalseExifLists()
    ensures var cs := FalseExif();
            && First(cs, VP8X) == Some(cs[0].payload) && PictureChunks(cs) == [] && Sized(cs)
            && First(cs, ICCP).None? && First(cs, EXIF).None? && First(cs, XMP).None?
  {
    assert FalseExif()[1..] == [];
  }

  /** A profile on its own makes an injection that fits, when the chunks to copy do. */
  lemma ProfileFits(cs: seq<Chunk>, header: seq<byte>)
    requires |header| == 10 && First(cs, EXIF).None? && First(cs, XMP).None?
    requires |EncodeChunks(PictureChunks(cs))| <= 1000
    ensures |EncodeChunks(Rewritten(cs, header, Some([]), None, None))| + 4 <= U32_MAX
  {
    hide EncodeChunks, PictureChunks, First, Advertise;
    var top, icc, picture := Chunk(VP8X, Advertise(header, true, false, false)), Chunk(ICCP, []), PictureChunks(cs);
    assert Rewritten(cs, header, Some([]), None, None) == [top] + [icc] + picture;
    EncodeConcat([top] + [icc], picture);
    EncodeConcat([top], [icc]);
    EncodeSingle(top);
    EncodeSingle(icc);
  }

  lemma FalseExifInjects()
    ensures Inject(Container(FalseExif()), Some([]), None, None).Ok?
    ensures ParseContainer(Container(FalseExif())) == Some(FalseExif())
    ensures Adds(FalseExif(), Some([]), None, None)
  {
    hide First, PictureChunks, FalseExif, SetFlag, EncodeChunk, Sized, Rewritten, Container;
    var cs := FalseExif();
    FalseExifLists();
    ParseContainerEncoded(cs);
    FalseExifHeader();
    ProfileFits(cs, HeaderPayload(cs).value);
  }

  lemma FalseExifHeader()
    ensures HeaderPayload(FalseExif()).Ok?
  {
    FalseExifLists();
  }

  /** A profile injected into that file does not mend the flag. */
  lemma FalseExifStaysFalse()
    ensures var cs, injected := FalseExif(), Inject(Container(FalseExif()), Some([]), None, None);
            && !Agrees(cs, EXIF, ExifFlag) && injected.Ok? && ParseContainer(injected.value).Some?
            && !Agrees(ParseContainer(injected.value).value, EXIF, ExifFlag)
            && Agrees(ParseContainer(injected.value).value, ICCP, IccFlag)
  {
    var cs := FalseExif();
    FalseExifLists();
    FalseExifInjects();
    FirstIffHas(cs, EXIF);
    FlagAfterSet(0, ExifFlag, true, ExifFlag);
    hide Inject, ParseContainer, FalseExif, Has, First, HeaderFlag;
    InjectAgreement(Container(cs), Some([]), None, None);
  }
}
