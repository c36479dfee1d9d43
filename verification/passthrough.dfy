/**
 Handing back the input's own bytes instead of a larger encode.
 */
module Passthrough {
  import opened Wrappers
  import opened Bytes
  import opened MediaTypes
  import opened MetadataPolicies
  import JpegSegments
  import JpegSniffer
  import PngChunks
  import PngSniffer
  import WebpStrip
  import WebpSniffer
  import opened ResizeGeometry
  import opened PixelStages
  import opened Orientation

  datatype OptimizeMode = NoOptimization | Auto | Lossless | Lossy

  datatype Rgba8 = Rgba8(r: byte, g: byte, b: byte, a: byte)

  /** A normalized request: what it asks of the stages that move pixels, and the rest. */
  datatype Request = Request(
    input: seq<byte>,
    inputType: MediaType,
    stages: Stages,
    quality: Option<nat>,
    optimize: OptimizeMode,
    background: Option<Rgba8>,
    policy: MetadataPolicy,
    blur: Option<real>,
    sharpen: Option<real>,
    grayscale: bool)

  predicate OrientationIsNoop(r: Request) {
    r.stages.orientation == None || r.stages.orientation == Some(0) || r.stages.orientation == Some(1)
  }

  /** Asked of the rule that copies JPEG segments, whatever the format. */
  predicate PolicyRetainsExif(policy: MetadataPolicy) {
    JpegSegments.ShouldKeep(0xE1, EXIF_PREFIX, policy)
  }

  predicate Eligible(r: Request) {
    && r.inputType == r.stages.format
    && r.stages.width.None? && r.stages.height.None? && r.quality.None? && r.background.None?
    && r.stages.degrees == 0 && r.stages.crop.None? && r.blur.None? && r.sharpen.None? && !r.grayscale
    && r.stages.watermark.None?
    && (!r.stages.autoOrient || OrientationIsNoop(r) || PolicyRetainsExif(r.policy))
  }

  /** The input's bytes with the policy satisfied, in a container that can be rewritten. */
  function Candidate(r: Request): Option<seq<byte>> {
    match r.stages.format
    case Jpeg =>
      var optimized := JpegSegments.Optimized(r.input, r.policy);
      if optimized.Ok? then Some(optimized.value) else None
    case Png => PngChunks.Strip(r.input, r.policy)
    case Webp => WebpStrip.Strip(r.input, r.policy)
    case _ => None
  }

  function SmallerOf(r: Request, encoded: seq<byte>): Option<seq<byte>> {
    if r.optimize == NoOptimization || !Eligible(r) || Candidate(r).None? then None
    else if |Candidate(r).value| < |encoded| then Candidate(r)
    else None
  }

  method SmallerPassthrough(r: Request, encoded: seq<byte>) returns (bytes: Option<seq<byte>>)
    ensures bytes == SmallerOf(r, encoded)
  {
    if r.optimize == NoOptimization || !Eligible(r) {
      return None;
    }
    var candidate: Option<seq<byte>>;
    match r.stages.format {
      case Jpeg =>
        var optimized := JpegSegments.OptimizeJpegBytesLosslessly(r.input, r.policy);
        if optimized.Err? {
          return None;
        }
        candidate := Some(optimized.value);
      case Png =>
        candidate := PngChunks.PngBytesSatisfyingMetadataPolicy(r.input, r.policy);
      case Webp =>
        candidate := WebpStrip.WebpBytesSatisfyingMetadataPolicy(r.input, r.policy);
      case _ =>
        return None;
    }
    if candidate.None? {
      return None;
    }
    return if |candidate.value| < |encoded| then candidate else None;
  }

  /** A lossless JPEG request is answered before any decode, or refused. */
  function LosslessJpeg(r: Request): Result<Option<seq<byte>>> {
    if r.optimize != Lossless || r.stages.format != Jpeg then Ok(None)
    else if !Eligible(r) then Err(CapabilityMissing)
    else
      var optimized := JpegSegments.Optimized(r.input, r.policy);
      if optimized.Ok? then Ok(Some(optimized.value)) else Err(optimized.error)
  }

  method TryPassthroughLosslessOptimization(r: Request) returns (out: Result<Option<seq<byte>>>)
    ensures out == LosslessJpeg(r)
  {
    if r.optimize != Lossless {
      return Ok(None);
    }
    if r.stages.format != Jpeg {
      return Ok(None);
    }
    if !Eligible(r) {
      return Err(CapabilityMissing);
    }
    var bytes := JpegSegments.OptimizeJpegBytesLosslessly(r.input, r.policy);
    return if bytes.Ok? then Ok(Some(bytes.value)) else Err(bytes.error);
  }

  /** The bytes a request ends with, given what its encoder returned. */
  function Output(r: Request, encoded: seq<byte>): Result<seq<byte>> {
    var lossless := LosslessJpeg(r);
    if lossless.Err? then Err(lossless.error)
    else if lossless.value.Some? then Ok(lossless.value.value)
    else if SmallerOf(r, encoded).Some? then Ok(SmallerOf(r, encoded).value)
    else Ok(encoded)
  }

  // ---------- candidates ----------

  /** In each container a candidate is never longer than the input it was made from. */
  lemma CandidateNeverGrows(r: Request)
    requires Candidate(r).Some?
    ensures |Candidate(r).value| <= |r.input|
  {
    match r.stages.format {
      case Jpeg => JpegSegments.OptimizedNeverGrows(r.input, r.policy);
      case Png => PngChunks.StripNeverGrows(r.input, r.policy);
      case Webp => WebpStrip.StripNeverGrows(r.input, r.policy);
      case _ =>
    }
  }

  /** Making a candidate of a candidate changes nothing more. */
  lemma CandidateStable(r: Request)
    requires Candidate(r).Some?
    ensures Candidate(r.(input := Candidate(r).value)) == Candidate(r)
  {
    match r.stages.format {
      case Jpeg => JpegSegments.OptimizedAgain(r.input, r.policy, r.policy);
      case Png => PngChunks.StripAgain(r.input, r.policy, r.policy);
      case Webp => WebpStrip.StripIdempotent(r.input, r.policy);
      case _ =>
    }
  }

  /** The EXIF block the orientation is read from, where the container has one to search. */
  function ExifPayload(format: MediaType, b: seq<byte>): Option<seq<byte>> {
    match format
    case Jpeg => JpegSniffer.ExifFrom(b, 2)
    case Png => PngSniffer.ExifFrom(b, PngChunks.SIGNATURE_LENGTH)
    case Webp => WebpSniffer.ExifFrom(b, 12)
    case _ => None
  }

  /**
   The question is asked of the JPEG rule, and its answer holds in all three containers: a
   candidate carries the input's EXIF block exactly when the policy retains EXIF.
   */
  lemma CandidateExif(r: Request)
    requires Candidate(r).Some?
    ensures ExifPayload(r.stages.format, Candidate(r).value)
            == if PolicyRetainsExif(r.policy) then ExifPayload(r.stages.format, r.input) else None
  {
    JpegSniffer.RetainsExif(r.policy);
    match r.stages.format {
      case Jpeg => JpegSniffer.OptimizedKeepsFacts(r.input, r.policy);
      case Png =>
        if r.policy != KeepAll {
          PngSniffer.StripKeepsExifIff(r.input, r.policy);
        }
      case Webp =>
        if r.policy != KeepAll {
          WebpSniffer.StripKeepsFacts(r.input, r.policy);
        }
      case _ =>
    }
  }

  // ---------- what a passthrough stands for ----------

  /**
   A lossless JPEG request is refused for want of the capability if and only if it asks for
   another format, a size, an encoding, or a change to the pixels, or for an orientation that
   would have to be applied because its tag is not kept.
   */
  lemma LosslessRefusedIff(r: Request)
    requires r.optimize == Lossless && r.stages.format == Jpeg
    ensures LosslessJpeg(r) == Err(CapabilityMissing)
            <==> || r.inputType != Jpeg || r.stages.width.Some? || r.stages.height.Some?
                 || r.quality.Some? || r.background.Some? || r.stages.degrees != 0 || r.stages.crop.Some?
                 || r.blur.Some? || r.sharpen.Some? || r.grayscale || r.stages.watermark.Some?
                 || (r.stages.autoOrient && (r.policy == StripAll || r.policy == PreserveIcc)
                     && exists tag | tag >= 2 :: r.stages.orientation == Some(tag))
    ensures LosslessJpeg(r) == Err(InvalidInput)
            <==> LosslessJpeg(r) != Err(CapabilityMissing) && !JpegSegments.IsJpeg(r.input)
    ensures LosslessJpeg(r).Ok? ==> LosslessJpeg(r).value.Some?
  {
    JpegSniffer.RetainsExif(r.policy);
    if !OrientationIsNoop(r) {
      assert r.stages.orientation.value >= 2;
    }
  }

  /**
   An encode is replaced by other bytes if and only if they are shorter and are the file
   rewritten in its own container, any optimization was asked for, and the request asks for the
   same format, no size, no encoding, no change to the pixels, and no orientation that would
   have to be applied because its tag is not kept.
   */
  lemma ReplacedIff(r: Request, encoded: seq<byte>, out: seq<byte>)
    ensures SmallerOf(r, encoded) == Some(out)
            <==> && r.optimize in {Auto, Lossless, Lossy}
                 && |out| < |encoded|
                 && (match r.stages.format {
                       case Jpeg => JpegSegments.Optimized(r.input, r.policy) == Ok(out)
                       case Png => PngChunks.Strip(r.input, r.policy) == Some(out)
                       case Webp => WebpStrip.Strip(r.input, r.policy) == Some(out)
                       case _ => false
                     })
                 && r.inputType == r.stages.format && r.stages.width.None? && r.stages.height.None?
                 && r.quality.None? && r.background.None? && r.stages.degrees == 0 && r.stages.crop.None?
                 && r.blur.None? && r.sharpen.None? && !r.grayscale && r.stages.watermark.None?
                 && (r.stages.autoOrient ==>
                       || r.policy == KeepAll || r.policy == PreserveExif
                       || forall tag | tag >= 2 :: r.stages.orientation != Some(tag))
  {
    hide JpegSegments.Optimized, PngChunks.Strip, WebpStrip.Strip;
    JpegSniffer.RetainsExif(r.policy);
    if !OrientationIsNoop(r) {
      assert r.stages.orientation.value >= 2;
    }
  }

  /** The input's own bytes are the answer, before an encode or instead of it. */
  predicate Answers(r: Request, encoded: seq<byte>, out: seq<byte>) {
    LosslessJpeg(r) == Ok(Some(out)) || SmallerOf(r, encoded) == Some(out)
  }

  /** The stored picture, turned by its tag when the request says so. */
  function Shown<P>(a: Image<P>, st: Stages): Image<P> {
    if st.autoOrient && st.orientation.Some? then ApplyExifOrientation(a, st.orientation.value) else a
  }

  /**
   The bytes handed back stand for the picture the stages would have made: those turn the stored
   image upright and leave it at that, at the size it then has, in every pixel. So either that
   is the stored image as it is, or its Exif block is still there to turn it.
   */
  lemma PassthroughIsThePicture<P(!new)>(round: real -> int, a: Image<P>, r: Request, encoded: seq<byte>,
                                         out: seq<byte>)
    requires Answers(r, encoded, out) && ValidImage(a)
    ensures var st := r.stages;
            && ValidStages(st)
            && BeforeResize(a, st) == Ok(Shown(a, st))
            && (TransformPixels(round, a, st).Ok? ==>
                  TransformPixels(round, a, st).value == Size(Shown(a, st).width, Shown(a, st).height))
            && (Same(Shown(a, st), a) || ExifPayload(st.format, out) == ExifPayload(st.format, r.input))
    ensures r.blur.None? && r.sharpen.None? && !r.grayscale && r.stages.watermark.None?
  {
    hide JpegSegments.Optimized, PngChunks.Strip, WebpStrip.Strip, ExifPayload, JpegSegments.ShouldKeep,
      CheckOutputPixelLimit;
    assert Eligible(r) && Candidate(r) == Some(out);
    CandidateExif(r);
  }

  // ---------- main results ----------

  /**
   With any optimization on, an eligible request that has a candidate never ends with more
   bytes than it was given, whatever the encoder returned; it ends with the candidate or with
   something no longer than it.
   */
  lemma NeverGrows(r: Request, encoded: seq<byte>)
    requires r.optimize != NoOptimization && Eligible(r) && Candidate(r).Some?
    ensures Output(r, encoded).Ok?
    ensures |Output(r, encoded).value| <= |Candidate(r).value| <= |r.input|
    ensures Output(r, encoded).value == Candidate(r).value || Output(r, encoded).value == encoded
  {
    CandidateNeverGrows(r);
  }

  /**
   A candidate stands in for an upright picture: with auto-orientation on, either the input
   has no orientation to apply, or its EXIF block is still in the output for a viewer to read.
   */
  lemma PassthroughStaysUpright(r: Request)
    requires Eligible(r) && Candidate(r).Some? && r.stages.autoOrient
    ensures var format := r.stages.format;
            OrientationIsNoop(r) || ExifPayload(format, Candidate(r).value) == ExifPayload(format, r.input)
  {
    CandidateExif(r);
  }
}
