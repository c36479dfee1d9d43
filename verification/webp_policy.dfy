/**
 The table of a WebP metadata policy, by the names of the chunks, and the header an injection
 writes, byte by byte.
 */
module WebpPolicies {
  import opened Arithmetic
  import opened Wrappers
  import opened Bytes
  import opened Selection
  import opened WebpContainer
  import opened WebpFlags
  import opened WebpMetadata
  import opened WebpStrip
  import opened WebpFields
  import opened MetadataPolicies

  // ---------- what stripping leaves ----------

  predicate Stays(c: Chunk, policy: MetadataPolicy) {
    match policy
    case KeepAll => true
    case StripAll => c.fourcc.Name() != "ICCP" && c.fourcc.Name() != "EXIF" && c.fourcc.Name() != "XMP "
    case PreserveIcc => c.fourcc.Name() != "EXIF" && c.fourcc.Name() != "XMP "
    case PreserveExif => c.fourcc.Name() != "ICCP" && c.fourcc.Name() != "XMP "
  }

  lemma StaysIffNotRemoved(c: Chunk, policy: MetadataPolicy)
    ensures Stays(c, policy) <==> !Removes(policy, c.fourcc)
  {
    CodesSpelled(c.fourcc);
  }

  lemma {:induction false} SelectIsKept(cs: seq<Chunk>, policy: MetadataPolicy)
    ensures Kept(cs, policy) == Select(cs, c => Stays(c, policy))
  {
    if cs != [] {
      StaysIffNotRemoved(cs[0], policy);
      SelectIsKept(cs[1..], policy);
    }
  }

  /** The flags of an extended header once a policy has cleared those of the kinds it removes. */
  predicate FlagsFollow(before: byte, after: byte, policy: MetadataPolicy) {
    && (after as int / 32 % 2 == 1 <==> before as int / 32 % 2 == 1 && policy in {KeepAll, PreserveIcc})
    && (after as int / 8 % 2 == 1 <==> before as int / 8 % 2 == 1 && policy in {KeepAll, PreserveExif})
    && (after as int / 4 % 2 == 1 <==> before as int / 4 % 2 == 1 && policy == KeepAll)
    && (after as int / 16 % 2 == before as int / 16 % 2)
    && (after as int / 2 % 2 == before as int / 2 % 2)
  }

  lemma ClearedFlags(flags: byte, policy: MetadataPolicy)
    ensures FlagsFollow(flags, ClearFlags(flags, RemovedFlags(policy)), policy)
  {
    hide HasFlag, ClearFlags;
    var after := ClearFlags(flags, RemovedFlags(policy));
    FlagsSpelled(flags);
    FlagsSpelled(after);
    FlagAfterClear(flags, RemovedFlags(policy), IccFlag);
    FlagAfterClear(flags, RemovedFlags(policy), ExifFlag);
    FlagAfterClear(flags, RemovedFlags(policy), XmpFlag);
    FlagAfterClear(flags, RemovedFlags(policy), AlphaFlag);
    FlagAfterClear(flags, RemovedFlags(policy), AnimationFlag);
  }

  /** A chunk comes through as it is, but for the flag byte of an extended header. */
  predicate Follows(before: Chunk, after: Chunk, policy: MetadataPolicy) {
    if before.fourcc.Name() != "VP8X" then after == before
    else
      && after.fourcc == before.fourcc && |after.payload| == |before.payload| > 0
      && after.payload[1..] == before.payload[1..] && FlagsFollow(before.payload[0], after.payload[0], policy)
  }

  lemma {:induction false} StripFollows(cs: seq<Chunk>, policy: MetadataPolicy)
    requires HeadersReadable(cs)
    ensures var kept, out := Kept(cs, policy), StripChunks(cs, policy);
            |out| == |kept| && forall i | 0 <= i < |out| :: Follows(kept[i], out[i], policy)
  {
    hide FlagsFollow;
    if cs != [] {
      StripFollows(cs[1..], policy);
      CodesSpelled(cs[0].fourcc);
      if cs[0].fourcc == VP8X {
        ClearedFlags(cs[0].payload[0], policy);
      }
    }
  }

  /**
   A file with nothing to remove comes back as it is, wrong flags and all. Any other comes back
   with the chunks that stay, in order and unchanged but for the cleared flags of its headers.
   */
  lemma StrippedChunks(b: seq<byte>, policy: MetadataPolicy)
    requires Strip(b, policy).Some?
    ensures policy == KeepAll ==> Strip(b, policy).value == b
    ensures policy != KeepAll ==>
              && ParseContainer(b).Some? && ParseContainer(Strip(b, policy).value).Some?
              && var before, after := ParseContainer(b).value, ParseContainer(Strip(b, policy).value).value;
              && var kept := Select(before, c => Stays(c, policy));
              if kept == before then Strip(b, policy).value == b
              else |after| == |kept| && forall i | 0 <= i < |after| :: Follows(kept[i], after[i], policy)
  {
    if policy != KeepAll {
      hide ParseContainer, Follows, StripChunks;
      var cs, ds := StripIsContainer(b, policy);
      SelectIsKept(cs, policy);
      KeptIffNoneRemoved(cs, policy);
      if AnyRemoved(cs, policy) {
        StripFollows(cs, policy);
      }
    }
  }

  lemma {:induction false} KeptIsShorter(cs: seq<Chunk>, policy: MetadataPolicy)
    ensures |Kept(cs, policy)| <= |cs| && (AnyRemoved(cs, policy) ==> |Kept(cs, policy)| < |cs|)
  {
    if cs != [] {
      KeptIsShorter(cs[1..], policy);
      if AnyRemoved(cs, policy) && !Removes(policy, cs[0].fourcc) {
        var i :| 0 <= i < |cs| && Removes(policy, cs[i].fourcc);
        assert cs[1..][i - 1] == cs[i];
      }
    }
  }

  lemma KeptIffNoneRemoved(cs: seq<Chunk>, policy: MetadataPolicy)
    ensures Kept(cs, policy) == cs <==> !AnyRemoved(cs, policy)
  {
    KeptIsShorter(cs, policy);
    if !AnyRemoved(cs, policy) {
      KeepsAll(cs, policy);
    }
  }

  // ---------- the header an injection writes ----------

  lemma {:induction false} SetAdds(n: nat, k: nat)
    requires !Bit(n, k)
    ensures SetBit(n, k) == n + Pow2(k)
    decreases k
  {
    if k > 0 {
      SetAdds(n / 2, k - 1);
    }
  }

  lemma SetFlagAdds(b: byte, f: Flag, on: bool)
    requires !HasFlag(b, f)
    ensures SetFlagIf(b, f, on) as int == b as int + if on then Pow2(Index(f)) else 0
  {
    SetAdds(b, Index(f));
  }

  function FlagByte(icc: bool, alpha: bool, exif: bool, xmp: bool): byte {
    (if icc then 32 else 0) + (if alpha then 16 else 0) + (if exif then 8 else 0) + (if xmp then 4 else 0)
  }

  lemma FlagsWritten(icc: bool, alpha: bool, exif: bool, xmp: bool)
    ensures SetFlagIf(SetFlagIf(SetFlagIf(SetFlagIf(0, AlphaFlag, alpha), IccFlag, icc), ExifFlag, exif), XmpFlag, xmp)
            == FlagByte(icc, alpha, exif, xmp)
  {
    assert Pow2(2) == 4 && Pow2(3) == 8 && Pow2(4) == 16 && Pow2(5) == 32;
    hide HasFlag, SetFlagIf;
    var b1 := SetFlagIf(0, AlphaFlag, alpha);
    var b2 := SetFlagIf(b1, IccFlag, icc);
    var b3 := SetFlagIf(b2, ExifFlag, exif);
    NoFlags(AlphaFlag);
    NoFlags(IccFlag);
    NoFlags(ExifFlag);
    NoFlags(XmpFlag);
    FlagAfterSet(0, AlphaFlag, alpha, IccFlag);
    FlagAfterSet(0, AlphaFlag, alpha, ExifFlag);
    FlagAfterSet(0, AlphaFlag, alpha, XmpFlag);
    FlagAfterSet(b1, IccFlag, icc, ExifFlag);
    FlagAfterSet(b1, IccFlag, icc, XmpFlag);
    FlagAfterSet(b2, ExifFlag, exif, XmpFlag);
    SetFlagAdds(0, AlphaFlag, alpha);
    SetFlagAdds(b1, IccFlag, icc);
    SetFlagAdds(b2, ExifFlag, exif);
    SetFlagAdds(b3, XmpFlag, xmp);
  }

  lemma StartedFrom(cs: seq<Chunk>)
    requires HeaderPayload(cs).Ok? && !HasOwnHeader(cs)
    ensures CanvasInfo(cs).Some? && CanvasInfo(cs).value.width > 0 && CanvasInfo(cs).value.height > 0
    ensures HeaderPayload(cs) == Ok(BuiltHeader(CanvasInfo(cs).value, CanvasInfo(cs).value.alpha || Has(cs, ALPH)))
  {
    hide CanvasInfo, First, Has, BuiltHeader;
    FirstIffHas(cs, ALPH);
  }

  lemma BuiltIsExtended(canvas: Canvas, alpha: bool, icc: bool, exif: bool, xmp: bool)
    requires canvas.width > 0 && canvas.height > 0
    ensures Advertise(BuiltHeader(canvas, alpha), icc, exif, xmp)
            == ExtendedHeader(FlagByte(icc, alpha, exif, xmp), [0, 0, 0], canvas.width, canvas.height, [])
  {
    FlagsWritten(icc, alpha, exif, xmp);
    hide SetFlagIf, FlagByte, LeBytes;
    var w, h := LeBytes(canvas.width - 1, 3), LeBytes(canvas.height - 1, 3);
    var flags: byte := FlagByte(icc, alpha, exif, xmp);
    assert [flags] + ([0, 0, 0] + (w + (h + []))) == [flags] + ([0, 0, 0] + w + h);
    var built := BuiltHeader(canvas, alpha);
    assert built[1..] == [0, 0, 0] + w + h;
  }

  /**
   Into a file without a full extended header an injection writes one: a flag for each payload
   it adds and for alpha, which an `ALPH` chunk declares as much as a bitstream header, three
   zero bytes, and the sides of the canvas less one.
   */
  lemma FreshHeader(b: seq<byte>, icc: Option<seq<byte>>, exif: Option<seq<byte>>, xmp: Option<seq<byte>>)
    requires Inject(b, icc, exif, xmp).Ok?
    requires ParseContainer(b).Some? && Adds(ParseContainer(b).value, icc, exif, xmp)
    requires !HasOwnHeader(ParseContainer(b).value)
    ensures var cs, out := ParseContainer(b).value, Inject(b, icc, exif, xmp).value;
            && ParseContainer(out).Some? && |ParseContainer(out).value| > 0
            && CanvasInfo(cs).Some? && CanvasInfo(cs).value.width > 0 && CanvasInfo(cs).value.height > 0
            && var canvas := CanvasInfo(cs).value;
            ParseContainer(out).value[0].payload
            == ExtendedHeader(FlagByte(Missing(cs, ICCP, icc).Some?, canvas.alpha || Has(cs, ALPH),
                                       Missing(cs, EXIF, exif).Some?, Missing(cs, XMP, xmp).Some?),
                              [0, 0, 0], canvas.width, canvas.height, [])
  {
    hide ParseContainer, Inject, CanvasInfo, FlagByte, First, Has, HasOwnHeader, HeaderPayload, Advertise, BuiltHeader,
      ExtendedHeader, Missing, PictureChunks;
    var cs, header, ds := InjectIsContainer(b, icc, exif, xmp);
    StartedFrom(cs);
    BuiltIsExtended(CanvasInfo(cs).value, CanvasInfo(cs).value.alpha || Has(cs, ALPH), Missing(cs, ICCP, icc).Some?,
                    Missing(cs, EXIF, exif).Some?, Missing(cs, XMP, xmp).Some?);
  }

  /** A file's own extended header keeps everything behind its flags. */
  lemma OwnHeaderKept(b: seq<byte>, icc: Option<seq<byte>>, exif: Option<seq<byte>>, xmp: Option<seq<byte>>)
    requires Inject(b, icc, exif, xmp).Ok?
    requires ParseContainer(b).Some? && Adds(ParseContainer(b).value, icc, exif, xmp)
    requires HasOwnHeader(ParseContainer(b).value)
    ensures var cs, out := ParseContainer(b).value, Inject(b, icc, exif, xmp).value;
            && ParseContainer(out).Some? && |ParseContainer(out).value| > 0
            && |ParseContainer(out).value[0].payload| == 10
            && ParseContainer(out).value[0].payload[1..] == First(cs, VP8X).value[1..10]
  {
    hide ParseContainer, Inject, First;
    var cs, header, ds := InjectIsContainer(b, icc, exif, xmp);
  }

  // ---------- when a rewrite is refused ----------

  lemma {:induction false} StripKeepsLength(cs: seq<Chunk>, policy: MetadataPolicy)
    requires HeadersReadable(cs)
    ensures |EncodeChunks(StripChunks(cs, policy))| == |EncodeChunks(Kept(cs, policy))|
  {
    if cs != [] {
      StripKeepsLength(cs[1..], policy);
      if !Removes(policy, cs[0].fourcc) {
        var c, rest, kept := StripChunk(cs[0], policy), StripChunks(cs[1..], policy), Kept(cs[1..], policy);
        assert ([c] + rest)[1..] == rest && ([cs[0]] + kept)[1..] == kept;
        assert |EncodeChunk(c)| == |EncodeChunk(cs[0])|;
      }
    }
  }

  /**
   A rewrite is given up exactly when the file does not parse or, with something to remove, has
   an empty extended header or would still not fit the size field.
   */
  lemma StripRefusedIff(b: seq<byte>, policy: MetadataPolicy)
    requires policy != KeepAll
    ensures Strip(b, policy).None? <==>
            || ParseContainer(b).None?
            || (var cs := ParseContainer(b).value;
                var kept := Select(cs, c => Stays(c, policy));
                && kept != cs
                && (|EncodeChunks(kept)| + 4 > 4_294_967_295
                    || exists i | 0 <= i < |cs| :: cs[i].fourcc.Name() == "VP8X" && cs[i].payload == []))
  {
    hide ParseContainer, EncodeChunks, StripChunks;
    if ParseContainer(b).Some? {
      var cs := ParseContainer(b).value;
      SelectIsKept(cs, policy);
      KeptIffNoneRemoved(cs, policy);
      ReadableSpelled(cs);
      if HeadersReadable(cs) {
        StripKeepsLength(cs, policy);
      }
    }
  }

  lemma ReadableSpelled(cs: seq<Chunk>)
    ensures HeadersReadable(cs) <==> !exists i | 0 <= i < |cs| :: cs[i].fourcc.Name() == "VP8X" && cs[i].payload == []
  {
    forall i | 0 <= i < |cs|
      ensures cs[i].fourcc == VP8X <==> cs[i].fourcc.Name() == "VP8X"
    {
      CodesSpelled(cs[i].fourcc);
    }
  }

  /** The list an injection would print, whatever its ten header bytes are. */
  function Injected(cs: seq<Chunk>, header: seq<byte>, icc: Option<seq<byte>>, exif: Option<seq<byte>>,
                    xmp: Option<seq<byte>>): seq<Chunk> {
    [Chunk(VP8X, header)] + Optional(ICCP, OrElse(First(cs, ICCP), icc)) + PictureChunks(cs)
    + Optional(EXIF, OrElse(First(cs, EXIF), exif)) + Optional(XMP, OrElse(First(cs, XMP), xmp))
  }

  lemma SameLength(cs: seq<Chunk>, header: seq<byte>, icc: Option<seq<byte>>, exif: Option<seq<byte>>,
                   xmp: Option<seq<byte>>)
    requires |header| == 10
    ensures var out := Rewritten(cs, header, Missing(cs, ICCP, icc), Missing(cs, EXIF, exif), Missing(cs, XMP, xmp));
            |EncodeChunks(out)| == |EncodeChunks(Injected(cs, [0, 0, 0, 0, 0, 0, 0, 0, 0, 0], icc, exif, xmp))|
  {
    hide EncodeChunks, PictureChunks, First, Optional, Advertise;
    var zeros: seq<byte> := [0, 0, 0, 0, 0, 0, 0, 0, 0, 0];
    var addIcc, addExif, addXmp := Missing(cs, ICCP, icc), Missing(cs, EXIF, exif), Missing(cs, XMP, xmp);
    var advertised := Advertise(header, addIcc.Some?, addExif.Some?, addXmp.Some?);
    assert Rewritten(cs, header, addIcc, addExif, addXmp) == Injected(cs, advertised, icc, exif, xmp);
    HeaderLength(cs, advertised, zeros, icc, exif, xmp);
  }

  lemma HeaderLength(cs: seq<Chunk>, header: seq<byte>, other: seq<byte>, icc: Option<seq<byte>>,
                     exif: Option<seq<byte>>, xmp: Option<seq<byte>>)
    requires |header| == |other|
    ensures |EncodeChunks(Injected(cs, header, icc, exif, xmp))| == |EncodeChunks(Injected(cs, other, icc, exif, xmp))|
  {
    hide EncodeChunks, PictureChunks, First, Optional;
    var rest := Injected(cs, header, icc, exif, xmp)[1..];
    assert Injected(cs, header, icc, exif, xmp) == [Chunk(VP8X, header)] + rest;
    assert Injected(cs, other, icc, exif, xmp) == [Chunk(VP8X, other)] + rest;
    hide Injected;
    EncodeConcat([Chunk(VP8X, header)], rest);
    EncodeConcat([Chunk(VP8X, other)], rest);
    EncodeSingle(Chunk(VP8X, header));
    EncodeSingle(Chunk(VP8X, other));
  }

  /**
   An injection fails, always as a failure to encode, exactly when some payload is given and the
   file does not parse or, with something to add, has no full extended header and no bitstream
   header with a canvas that is not empty, or would not fit the size field.
   */
  lemma InjectRefusedIff(b: seq<byte>, icc: Option<seq<byte>>, exif: Option<seq<byte>>, xmp: Option<seq<byte>>)
    ensures Inject(b, icc, exif, xmp).Ok? || Inject(b, icc, exif, xmp) == Err(EncodeFailed)
    ensures Inject(b, icc, exif, xmp).Err? <==>
            && (icc.Some? || exif.Some? || xmp.Some?)
            && (|| ParseContainer(b).None?
                || (var cs := ParseContainer(b).value;
                    && Adds(cs, icc, exif, xmp)
                    && (|| (!HasOwnHeader(cs) && !UsableCanvas(cs))
                        || |EncodeChunks(Injected(cs, [0, 0, 0, 0, 0, 0, 0, 0, 0, 0], icc, exif, xmp))| + 4
                           > 4_294_967_295)))
  {
    hide ParseContainer, EncodeChunks, Rewritten, Injected, First, CanvasInfo, Advertise;
    if ParseContainer(b).Some? {
      var cs := ParseContainer(b).value;
      HeaderIff(cs);
      if HeaderPayload(cs).Ok? {
        SameLength(cs, HeaderPayload(cs).value, icc, exif, xmp);
      }
    }
  }

  /** The first readable bitstream header states a canvas that is not empty. */
  predicate UsableCanvas(cs: seq<Chunk>) {
    CanvasInfo(cs).Some? && CanvasInfo(cs).value.width > 0 && CanvasInfo(cs).value.height > 0
  }

  lemma {:induction false} CanvasBound(cs: seq<Chunk>)
    requires CanvasInfo(cs).Some?
    ensures CanvasInfo(cs).value.width <= 16_384 && CanvasInfo(cs).value.height <= 16_384
  {
    if ChunkCanvas(cs[0]).None? {
      CanvasBound(cs[1..]);
    }
  }

  lemma HeaderIff(cs: seq<Chunk>)
    ensures HeaderPayload(cs).Ok? <==> HasOwnHeader(cs) || UsableCanvas(cs)
    ensures HeaderPayload(cs).Ok? || HeaderPayload(cs) == Err(EncodeFailed)
  {
    hide First;
    if CanvasInfo(cs).Some? {
      CanvasBound(cs);
    }
  }
}
