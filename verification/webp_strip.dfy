/**
 Removing from a WebP container the metadata a policy names.
 */
module WebpStrip {
  import opened Wrappers
  import opened Bytes
  import opened WebpContainer
  import opened WebpFlags
  import opened WebpMetadata
  import opened MetadataPolicies

  // ---------- what a policy removes ----------

  predicate Removes(policy: MetadataPolicy, fourcc: Tag) {
    match policy
    case KeepAll => false
    case StripAll => fourcc == ICCP || fourcc == EXIF || fourcc == XMP
    case PreserveIcc => fourcc == EXIF || fourcc == XMP
    case PreserveExif => fourcc == ICCP || fourcc == XMP
  }

  function RemovedFlags(policy: MetadataPolicy): seq<Flag> {
    match policy
    case KeepAll => []
    case StripAll => [IccFlag, ExifFlag, XmpFlag]
    case PreserveIcc => [ExifFlag, XmpFlag]
    case PreserveExif => [IccFlag, XmpFlag]
  }

  /** The removed chunks and the cleared flags are the same kinds. */
  lemma RemovedInStep(policy: MetadataPolicy)
    ensures Removes(policy, ICCP) <==> IccFlag in RemovedFlags(policy)
    ensures Removes(policy, EXIF) <==> ExifFlag in RemovedFlags(policy)
    ensures Removes(policy, XMP) <==> XmpFlag in RemovedFlags(policy)
    ensures AlphaFlag !in RemovedFlags(policy) && AnimationFlag !in RemovedFlags(policy)
  {
  }

  predicate AnyRemoved(cs: seq<Chunk>, policy: MetadataPolicy) {
    exists i | 0 <= i < |cs| :: Removes(policy, cs[i].fourcc)
  }

  /** Every extended header has the flag byte the rewrite clears bits in. */
  predicate HeadersReadable(cs: seq<Chunk>) {
    forall i | 0 <= i < |cs| :: cs[i].fourcc == VP8X ==> |cs[i].payload| > 0
  }

  function StripChunk(c: Chunk, policy: MetadataPolicy): Chunk
    requires c.fourcc == VP8X ==> |c.payload| > 0
  {
    if c.fourcc == VP8X
    then Chunk(VP8X, [ClearFlags(c.payload[0], RemovedFlags(policy))] + c.payload[1..])
    else c
  }

  function StripChunks(cs: seq<Chunk>, policy: MetadataPolicy): seq<Chunk>
    requires HeadersReadable(cs)
  {
    if cs == [] then []
    else if Removes(policy, cs[0].fourcc) then StripChunks(cs[1..], policy)
    else [StripChunk(cs[0], policy)] + StripChunks(cs[1..], policy)
  }

  function Strip(b: seq<byte>, policy: MetadataPolicy): Option<seq<byte>> {
    if policy == KeepAll then Some(b)
    else if ParseContainer(b).None? then None
    else
      var cs := ParseContainer(b).value;
      if !AnyRemoved(cs, policy) then Some(b)
      else if !HeadersReadable(cs) then None
      else
        var kept := StripChunks(cs, policy);
        if |EncodeChunks(kept)| + 4 > U32_MAX then None else Some(Container(kept))
  }

  // ---------- the rewriter ----------

  method AnyChunkRemoved(chunks: seq<ChunkRange>, policy: MetadataPolicy) returns (any: bool)
    ensures any <==> exists i | 0 <= i < |chunks| :: Removes(policy, chunks[i].fourcc)
  {
    for i := 0 to |chunks|
      invariant forall j | 0 <= j < i :: !Removes(policy, chunks[j].fourcc)
    {
      if Removes(policy, chunks[i].fourcc) {
        return true;
      }
    }
    return false;
  }

  method WebpBytesSatisfyingMetadataPolicy(bytes: seq<byte>, policy: MetadataPolicy) returns (r: Option<seq<byte>>)
    ensures r == Strip(bytes, policy)
  {
    if policy == KeepAll {
      return Some(bytes);
    }
    var parsed := ParseWebpChunks(bytes);
    if parsed.Err? {
      return None;
    }
    var chunks := parsed.value;
    ghost var cs := Contents(bytes, chunks);
    var any := AnyChunkRemoved(chunks, policy);
    assert AnyRemoved(cs, policy) <==> any by {
      assert forall i | 0 <= i < |cs| :: cs[i].fourcc == chunks[i].fourcc;
    }
    if !any {
      return Some(bytes);
    }
    var body := StrippedBody(bytes, chunks, policy);
    if body.None? || |body.value| + 4 > U32_MAX {
      return None;
    }
    return Some(RIFF.Bytes() + Le32(|body.value| + 4) + WEBP.Bytes() + body.value);
  }

  lemma StripStep(cs: seq<Chunk>, i: nat, policy: MetadataPolicy)
    requires i < |cs| && HeadersReadable(cs[..i]) && (cs[i].fourcc == VP8X ==> |cs[i].payload| > 0)
    ensures HeadersReadable(cs[..i + 1])
    ensures EncodeChunks(StripChunks(cs[..i + 1], policy))
            == EncodeChunks(StripChunks(cs[..i], policy))
               + if Removes(policy, cs[i].fourcc) then [] else EncodeChunk(StripChunk(cs[i], policy))
  {
    assert cs[..i + 1] == cs[..i] + [cs[i]];
    StripConcat(cs[..i], [cs[i]], policy);
    assert [cs[i]][1..] == [];
    EncodeConcat(StripChunks(cs[..i], policy), StripChunks([cs[i]], policy));
    EncodeSingle(StripChunk(cs[i], policy));
  }

  method StrippedBody(bytes: seq<byte>, chunks: seq<ChunkRange>, policy: MetadataPolicy) returns (r: Option<seq<byte>>)
    requires InFile(bytes, chunks)
    ensures var cs := Contents(bytes, chunks);
            r == if HeadersReadable(cs) then Some(EncodeChunks(StripChunks(cs, policy))) else None
  {
    ghost var cs := Contents(bytes, chunks);
    var body := new ByteVec();
    for i := 0 to |chunks|
      invariant HeadersReadable(cs[..i])
      invariant body.data == EncodeChunks(StripChunks(cs[..i], policy))
    {
      var chunk := chunks[i];
      var payload := bytes[chunk.start..chunk.end];
      assert cs[i] == Chunk(chunk.fourcc, payload);
      if chunk.fourcc == VP8X && |payload| == 0 {
        return None;
      }
      StripStep(cs, i, policy);
      if Removes(policy, chunk.fourcc) {
        continue;
      }
      if chunk.fourcc == VP8X {
        var flags := payload[0];
        var removed := RemovedFlags(policy);
        for j := 0 to |removed|
          invariant ClearFlags(flags, removed[j..]) == ClearFlags(payload[0], removed)
        {
          assert removed[j..][1..] == removed[j + 1..];
          flags := ClearFlag(flags, removed[j]);
        }
        PushWebpChunk(body, VP8X, [flags] + payload[1..]);
        continue;
      }
      PushWebpChunk(body, chunk.fourcc, payload);
    }
    assert cs[..|chunks|] == cs;
    return Some(body.data);
  }

  // ---------- laws of the chunk rewrite ----------

  lemma {:induction false} StripConcat(cs: seq<Chunk>, ds: seq<Chunk>, policy: MetadataPolicy)
    requires HeadersReadable(cs) && HeadersReadable(ds)
    ensures HeadersReadable(cs + ds)
    ensures StripChunks(cs + ds, policy) == StripChunks(cs, policy) + StripChunks(ds, policy)
  {
    hide StripChunk, Removes;
    if cs == [] {
      assert cs + ds == ds;
    } else {
      assert (cs + ds)[1..] == cs[1..] + ds;
      StripConcat(cs[1..], ds, policy);
    }
  }

  /** The chunks a policy leaves in, in order. */
  function Kept(cs: seq<Chunk>, policy: MetadataPolicy): seq<Chunk> {
    if cs == [] then []
    else if Removes(policy, cs[0].fourcc) then Kept(cs[1..], policy)
    else [cs[0]] + Kept(cs[1..], policy)
  }

  /** Two chunks that differ at most in the flag byte of an extended header. */
  predicate SameButFlags(c: Chunk, d: Chunk) {
    && c.fourcc == d.fourcc
    && if c.fourcc != VP8X then c == d
       else |c.payload| == |d.payload| && (|c.payload| > 0 ==> c.payload[1..] == d.payload[1..])
  }

  lemma {:induction false} StripKeeps(cs: seq<Chunk>, policy: MetadataPolicy)
    requires HeadersReadable(cs)
    ensures |StripChunks(cs, policy)| == |Kept(cs, policy)|
    ensures forall i | 0 <= i < |Kept(cs, policy)| :: SameButFlags(Kept(cs, policy)[i], StripChunks(cs, policy)[i])
    ensures !AnyRemoved(StripChunks(cs, policy), policy)
  {
    if cs != [] {
      StripKeeps(cs[1..], policy);
    }
  }

  lemma {:induction false} StripShrinks(cs: seq<Chunk>, policy: MetadataPolicy)
    requires HeadersReadable(cs)
    ensures |EncodeChunks(StripChunks(cs, policy))| + (if AnyRemoved(cs, policy) then 8 else 0) <= |EncodeChunks(cs)|
  {
    if cs != [] {
      StripShrinks(cs[1..], policy);
      var rest := StripChunks(cs[1..], policy);
      if Removes(policy, cs[0].fourcc) {
        assert |EncodeChunk(cs[0])| >= 8;
      } else {
        var c := StripChunk(cs[0], policy);
        assert ([c] + rest)[1..] == rest;
        assert |EncodeChunk(c)| == |EncodeChunk(cs[0])|;
        assert AnyRemoved(cs, policy) ==> AnyRemoved(cs[1..], policy) by {
          if AnyRemoved(cs, policy) {
            var i :| 0 <= i < |cs| && Removes(policy, cs[i].fourcc);
            assert cs[1..][i - 1] == cs[i];
          }
        }
      }
    }
  }

  lemma {:induction false} StrippedFirst(cs: seq<Chunk>, policy: MetadataPolicy, fourcc: Tag)
    requires HeadersReadable(cs)
    ensures var own, left := First(cs, fourcc), First(StripChunks(cs, policy), fourcc);
            if own.None? || Removes(policy, fourcc) then left.None?
            else
              && (fourcc == VP8X ==> |own.value| > 0)
              && left == Some(StripChunk(Chunk(fourcc, own.value), policy).payload)
  {
    if cs != [] {
      StrippedFirst(cs[1..], policy, fourcc);
      var rest := StripChunks(cs[1..], policy);
      if !Removes(policy, cs[0].fourcc) {
        var c := StripChunk(cs[0], policy);
        assert ([c] + rest)[1..] == rest && ([c] + rest)[0] == c;
      }
    }
  }

  lemma StrippedAgrees(cs: seq<Chunk>, policy: MetadataPolicy, fourcc: Tag, f: Flag)
    requires HeadersReadable(cs) && Agrees(cs, fourcc, f)
    requires Removes(policy, fourcc) <==> f in RemovedFlags(policy)
    requires fourcc != VP8X
    ensures Agrees(StripChunks(cs, policy), fourcc, f)
  {
    var ds := StripChunks(cs, policy);
    StrippedFirst(cs, policy, VP8X);
    StrippedFirst(cs, policy, fourcc);
    FirstIffHas(cs, fourcc);
    FirstIffHas(ds, fourcc);
    if First(cs, VP8X).Some? && |First(cs, VP8X).value| > 0 {
      FlagAfterClear(First(cs, VP8X).value[0], RemovedFlags(policy), f);
    }
  }

  // ---------- main results ----------

  lemma StripIsContainer(b: seq<byte>, policy: MetadataPolicy) returns (cs: seq<Chunk>, ds: seq<Chunk>)
    requires policy != KeepAll && Strip(b, policy).Some?
    ensures ParseContainer(b) == Some(cs) && ParseContainer(Strip(b, policy).value) == Some(ds)
    ensures if AnyRemoved(cs, policy)
            then HeadersReadable(cs) && ds == StripChunks(cs, policy) && Strip(b, policy).value == Container(ds)
            else ds == cs && Strip(b, policy).value == b
  {
    cs := ParseContainer(b).value;
    if AnyRemoved(cs, policy) {
      ds := StripChunks(cs, policy);
      SmallIsSized(ds);
      ParseContainerEncoded(ds);
    } else {
      ds := cs;
    }
  }

  /**
   A policy removes exactly the chunks it names: the rest survive in order with identical
   payloads, up to the cleared flags of the header. A file whose flags told the truth about
   its metadata still has such flags afterwards.
   */
  lemma StripRemovesExactly(b: seq<byte>, policy: MetadataPolicy)
    requires policy != KeepAll && Strip(b, policy).Some?
    ensures ParseContainer(b).Some? && ParseContainer(Strip(b, policy).value).Some?
    ensures var cs, ds := ParseContainer(b).value, ParseContainer(Strip(b, policy).value).value;
            && |ds| == |Kept(cs, policy)|
            && (forall i | 0 <= i < |ds| :: SameButFlags(Kept(cs, policy)[i], ds[i]))
            && !AnyRemoved(ds, policy)
            && (Honest(cs) ==> Honest(ds))
  {
    var cs, ds := StripIsContainer(b, policy);
    RemovedInStep(policy);
    if AnyRemoved(cs, policy) {
      StripKeeps(cs, policy);
      if Honest(cs) {
        StrippedAgrees(cs, policy, ICCP, IccFlag);
        StrippedAgrees(cs, policy, EXIF, ExifFlag);
        StrippedAgrees(cs, policy, XMP, XmpFlag);
      }
    } else {
      KeepsAll(cs, policy);
    }
  }

  lemma {:induction false} KeepsAll(cs: seq<Chunk>, policy: MetadataPolicy)
    requires !AnyRemoved(cs, policy)
    ensures Kept(cs, policy) == cs
  {
    if cs != [] {
      assert forall i | 0 <= i < |cs| - 1 :: cs[1..][i] == cs[i + 1];
      KeepsAll(cs[1..], policy);
    }
  }

  /** Stripping twice is stripping once. */
  lemma StripIdempotent(b: seq<byte>, policy: MetadataPolicy)
    requires Strip(b, policy).Some?
    ensures Strip(Strip(b, policy).value, policy) == Strip(b, policy)
  {
    if policy != KeepAll {
      StripRemovesExactly(b, policy);
    }
  }

  /**
   The output is never longer than the input, and strictly shorter when anything went: a
   dropped chunk frees at least eight bytes, and re-padding costs at most one.
   */
  lemma StripNeverGrows(b: seq<byte>, policy: MetadataPolicy)
    requires Strip(b, policy).Some?
    ensures |Strip(b, policy).value| <= |b|
    ensures policy != KeepAll && AnyRemoved(ParseContainer(b).value, policy) ==> |Strip(b, policy).value| + 7 <= |b|
  {
    if policy != KeepAll {
      var cs, ds := StripIsContainer(b, policy);
      if AnyRemoved(cs, policy) {
        StripShrinks(cs, policy);
        ReencodedLength(b, 12);
        assert |Container(ds)| == 12 + |EncodeChunks(ds)|;
      }
    }
  }

  // ---------- stripping undoes injecting ----------

  lemma {:induction false} StripPicture(cs: seq<Chunk>)
    ensures HeadersReadable(PictureChunks(cs))
    ensures StripChunks(PictureChunks(cs), StripAll) == PictureChunks(cs)
  {
    if cs != [] {
      StripPicture(cs[1..]);
      var rest := PictureChunks(cs[1..]);
      if !(cs[0].fourcc == VP8X || IsMetadata(cs[0].fourcc)) {
        assert ([cs[0]] + rest)[1..] == rest;
      }
    }
  }

  lemma StripOptional(fourcc: Tag, payload: Option<seq<byte>>)
    requires IsMetadata(fourcc)
    ensures HeadersReadable(Optional(fourcc, payload)) && StripChunks(Optional(fourcc, payload), StripAll) == []
  {
    if payload.Some? {
      assert Optional(fourcc, payload)[1..] == [];
    }
  }

  lemma StripRewritten(top: Chunk, icc: Option<seq<byte>>, cs: seq<Chunk>, exif: Option<seq<byte>>,
                       xmp: Option<seq<byte>>)
    requires top.fourcc == VP8X && |top.payload| > 0
    ensures var ds := [top] + Optional(ICCP, icc) + PictureChunks(cs) + Optional(EXIF, exif) + Optional(XMP, xmp);
            HeadersReadable(ds) && StripChunks(ds, StripAll) == [StripChunk(top, StripAll)] + PictureChunks(cs)
  {
    var a := [top];
    var b := a + Optional(ICCP, icc);
    var c := b + PictureChunks(cs);
    var d := c + Optional(EXIF, exif);
    assert a[1..] == [];
    StripPicture(cs);
    StripOptional(ICCP, icc);
    StripOptional(EXIF, exif);
    StripOptional(XMP, xmp);
    StripConcat(a, Optional(ICCP, icc), StripAll);
    StripConcat(b, PictureChunks(cs), StripAll);
    StripConcat(c, Optional(EXIF, exif), StripAll);
    StripConcat(d, Optional(XMP, xmp), StripAll);
  }

  /** The extended header an injection starts from, with no metadata advertised. */
  function BareHeader(header: seq<byte>): seq<byte>
    requires |header| == 10
  {
    [ClearFlags(header[0], [IccFlag, ExifFlag, XmpFlag])] + header[1..]
  }

  lemma ClearAdvertised(header: seq<byte>, icc: bool, exif: bool, xmp: bool)
    requires |header| == 10
    ensures StripChunk(Chunk(VP8X, Advertise(header, icc, exif, xmp)), StripAll) == Chunk(VP8X, BareHeader(header))
  {
    var fs := [IccFlag, ExifFlag, XmpFlag];
    var flags := Advertise(header, icc, exif, xmp)[0];
    forall k: nat | k < 8
      ensures Bit(ClearFlags(flags, fs), k) <==> Bit(ClearFlags(header[0], fs), k)
    {
      BitAfterClearFlags(flags, fs, k);
      BitAfterClearFlags(header[0], fs, k);
      var b1 := SetFlagIf(header[0], IccFlag, icc);
      BitAfterSet(header[0], 5, k);
      BitAfterSet(b1, 3, k);
      BitAfterSet(SetFlagIf(b1, ExifFlag, exif), 2, k);
      assert fs[0] in fs && fs[1] in fs && fs[2] in fs;
    }
    SameBits(ClearFlags(flags, fs), ClearFlags(header[0], fs), 8);
  }

  /**
   Stripping everything after an injection that added something leaves the bare extended
   header followed by the picture chunks, whatever metadata was there before or was added.
   */
  lemma StripAfterInject(b: seq<byte>, icc: Option<seq<byte>>, exif: Option<seq<byte>>, xmp: Option<seq<byte>>)
    requires Inject(b, icc, exif, xmp).Ok?
    requires ParseContainer(b).Some? && Adds(ParseContainer(b).value, icc, exif, xmp)
    ensures var cs := ParseContainer(b).value;
            && HeaderPayload(cs).Ok?
            && Strip(Inject(b, icc, exif, xmp).value, StripAll)
               == Some(Container([Chunk(VP8X, BareHeader(HeaderPayload(cs).value))] + PictureChunks(cs)))
  {
    var cs, header, ds := InjectIsContainer(b, icc, exif, xmp);
    var addIcc, addExif, addXmp := Missing(cs, ICCP, icc), Missing(cs, EXIF, exif), Missing(cs, XMP, xmp);
    var top := Chunk(VP8X, Advertise(header, addIcc.Some?, addExif.Some?, addXmp.Some?));
    StripRewritten(top, OrElse(addIcc, First(cs, ICCP)), cs, OrElse(addExif, First(cs, EXIF)),
                   OrElse(addXmp, First(cs, XMP)));
    ClearAdvertised(header, addIcc.Some?, addExif.Some?, addXmp.Some?);
    StripShrinks(ds, StripAll);
    assert AnyRemoved(ds, StripAll) by {
      AddedIsRemoved(cs, header, addIcc, addExif, addXmp);
    }
  }

  lemma AddedIsRemoved(cs: seq<Chunk>, header: seq<byte>, icc: Option<seq<byte>>, exif: Option<seq<byte>>,
                       xmp: Option<seq<byte>>)
    requires HeaderPayload(cs) == Ok(header) && |header| == 10
    requires icc.Some? || exif.Some? || xmp.Some?
    ensures AnyRemoved(Rewritten(cs, header, icc, exif, xmp), StripAll)
  {
    var ds := Rewritten(cs, header, icc, exif, xmp);
    InjectedKind(cs, header, icc, exif, xmp, ICCP, IccFlag);
    InjectedKind(cs, header, icc, exif, xmp, EXIF, ExifFlag);
    InjectedKind(cs, header, icc, exif, xmp, XMP, XmpFlag);
    var fourcc := if icc.Some? then ICCP else if exif.Some? then EXIF else XMP;
    assert Has(ds, fourcc);
    var i :| 0 <= i < |ds| && ds[i].fourcc == fourcc;
    assert Removes(StripAll, ds[i].fourcc);
  }

  /** A printed extended container without metadata: header first, then only picture chunks. */
  predicate BareExtended(cs: seq<Chunk>) {
    && |cs| > 0 && cs[0].fourcc == VP8X && |cs[0].payload| == 10
    && !HasFlag(cs[0].payload[0], IccFlag) && !HasFlag(cs[0].payload[0], ExifFlag)
    && !HasFlag(cs[0].payload[0], XmpFlag)
    && PictureChunks(cs) == cs[1..]
  }

  /** On a bare extended container, stripping undoes injecting byte for byte. */
  lemma StripUndoesInject(cs: seq<Chunk>, icc: Option<seq<byte>>, exif: Option<seq<byte>>, xmp: Option<seq<byte>>)
    requires Sized(cs) && BareExtended(cs)
    requires Inject(Container(cs), icc, exif, xmp).Ok?
    ensures Strip(Inject(Container(cs), icc, exif, xmp).value, StripAll) == Some(Container(cs))
  {
    ParseContainerEncoded(cs);
    if Adds(cs, icc, exif, xmp) {
      StripAfterInject(Container(cs), icc, exif, xmp);
      ClearUndoesSet(cs[0].payload[0], false, false, false);
      assert HeaderPayload(cs) == Ok(cs[0].payload[..10]);
      assert BareHeader(cs[0].payload[..10]) == cs[0].payload;
      assert [cs[0]] + cs[1..] == cs;
    } else {
      InjectNothing(Container(cs), icc, exif, xmp);
      NothingToStrip(cs);
    }
  }

  lemma {:induction false} PictureHasNoMetadata(cs: seq<Chunk>)
    ensures !AnyRemoved(PictureChunks(cs), StripAll)
  {
    if cs != [] {
      PictureHasNoMetadata(cs[1..]);
    }
  }

  lemma NothingToStrip(cs: seq<Chunk>)
    requires BareExtended(cs)
    ensures !AnyRemoved(cs, StripAll)
  {
    PictureHasNoMetadata(cs);
    assert forall i | 1 <= i < |cs| :: cs[i] == cs[1..][i - 1];
  }
}
