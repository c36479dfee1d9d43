/**
 Inserting XMP and IPTC segments into a JPEG file directly after its start-of-image marker.
 */
module JpegInject {
  import opened Wrappers
  import opened Bytes
  import opened Layout
  import opened JpegSegments
  import JpegSniffer
  import opened MetadataPolicies

  /** `http://ns.adobe.com/xap/1.0/` and its terminator. */
  const XMP_NAMESPACE: seq<byte> :=
    [0x68, 0x74, 0x74, 0x70, 0x3A, 0x2F, 0x2F, 0x6E, 0x73, 0x2E, 0x61, 0x64, 0x6F, 0x62, 0x65, 0x2E, 0x63, 0x6F, 0x6D,
     0x2F, 0x78, 0x61, 0x70, 0x2F, 0x31, 0x2E, 0x30, 0x2F, 0]

  /** `Photoshop 3.0` and its terminator. */
  const PHOTOSHOP_NAMESPACE: seq<byte> :=
    [0x50, 0x68, 0x6F, 0x74, 0x6F, 0x73, 0x68, 0x6F, 0x70, 0x20, 0x33, 0x2E, 0x30, 0]

  /** `8BIM` */
  const BIM_SIGNATURE: seq<byte> := [0x38, 0x42, 0x49, 0x4D]

  const APP1: byte := 0xE1
  const APP13: byte := 0xED

  function XmpPayload(xmp: seq<byte>): seq<byte> {
    XMP_NAMESPACE + xmp
  }

  /** The resource block around the IPTC data: type 0x0404, empty name, size, data, pad byte. */
  function IptcPayload(iptc: seq<byte>): seq<byte> {
    PHOTOSHOP_NAMESPACE + BIM_SIGNATURE + [0x04, 0x04] + [0, 0] + Be32(|iptc|) + iptc
    + if |iptc| % 2 == 0 then [] else [0]
  }

  /** A segment's bytes from the length field on. */
  function Tail(payload: seq<byte>): seq<byte> {
    Be16(|payload| + 2) + payload
  }

  predicate HasSoi(b: seq<byte>) {
    |b| >= 2 && b[0] == 0xFF && b[1] == 0xD8
  }

  function InjectSegment(b: seq<byte>, code: byte, payload: seq<byte>): Result<seq<byte>> {
    if !HasSoi(b) || |payload| + 2 > U16_MAX then Err(EncodeFailed)
    else Ok(SOI + (EncodeItem(Item(code, Tail(payload))) + b[2..]))
  }

  method InjectJpegXmp(encoded: seq<byte>, xmp: seq<byte>) returns (r: Result<seq<byte>>)
    ensures r == InjectSegment(encoded, APP1, XmpPayload(xmp))
  {
    if |encoded| < 2 || encoded[0] != 0xFF || encoded[1] != 0xD8 {
      return Err(EncodeFailed);
    }
    var dataLen := |XMP_NAMESPACE| + |xmp|;
    if dataLen + 2 > U16_MAX {
      return Err(EncodeFailed);
    }
    var segment := [0xFF, APP1];
    segment := segment + (Be16(dataLen + 2) + (XMP_NAMESPACE + xmp));
    assert encoded[..2] == SOI;
    return Ok(encoded[..2] + (segment + encoded[2..]));
  }

  /** The resource block, built up piece by piece. */
  method IptcBlock(iptc: seq<byte>) returns (block: seq<byte>)
    ensures block == IptcPayload(iptc)
  {
    block := PHOTOSHOP_NAMESPACE;
    block := block + BIM_SIGNATURE;
    block := block + [0x04, 0x04];
    block := block + [0x00, 0x00];
    block := block + Be32(|iptc|);
    block := block + iptc;
    if |iptc| % 2 != 0 {
      block := block + [0x00];
    } else {
      assert block + [] == block;
    }
  }

  method InjectJpegIptc(encoded: seq<byte>, iptc: seq<byte>) returns (r: Result<seq<byte>>)
    ensures r == InjectSegment(encoded, APP13, IptcPayload(iptc))
  {
    if |encoded| < 2 || encoded[0] != 0xFF || encoded[1] != 0xD8 {
      return Err(EncodeFailed);
    }
    var block := IptcBlock(iptc);
    if |block| + 2 > U16_MAX {
      return Err(EncodeFailed);
    }
    var segment := [0xFF, APP13];
    segment := segment + (Be16(|block| + 2) + block);
    assert encoded[..2] == SOI;
    return Ok(encoded[..2] + (segment + encoded[2..]));
  }

  /** Injection is best effort: a packet that does not fit leaves the bytes as they were. */
  function Apply(b: seq<byte>, code: byte, payload: Option<seq<byte>>): seq<byte> {
    if payload.Some? && InjectSegment(b, code, payload.value).Ok?
    then InjectSegment(b, code, payload.value).value
    else b
  }

  function InjectMetadata(b: seq<byte>, xmp: Option<seq<byte>>, iptc: Option<seq<byte>>): seq<byte> {
    var withIptc := Apply(b, APP13, if iptc.Some? then Some(IptcPayload(iptc.value)) else None);
    Apply(withIptc, APP1, if xmp.Some? then Some(XmpPayload(xmp.value)) else None)
  }

  /** IPTC goes in first and XMP second, each directly after the start of image. */
  method InjectJpegMetadata(encoded: seq<byte>, xmp: Option<seq<byte>>, iptc: Option<seq<byte>>)
    returns (bytes: seq<byte>)
    ensures bytes == InjectMetadata(encoded, xmp, iptc)
  {
    bytes := encoded;
    if iptc.Some? {
      var r := InjectJpegIptc(bytes, iptc.value);
      if r.Ok? {
        bytes := r.value;
      }
    }
    if xmp.Some? {
      var r := InjectJpegXmp(bytes, xmp.value);
      if r.Ok? {
        bytes := r.value;
      }
    }
  }

  // ---------- reading depends on the rest of the file only ----------

  lemma {:induction false} FillInTail(b: seq<byte>, i: nat, c: seq<byte>, j: nat)
    requires i <= |b| && j <= |c| && b[i..] == c[j..]
    ensures SkipFill(b, i) - i == SkipFill(c, j) - j
    decreases |b| - i
  {
    assert |b| - i == |c| - j;
    if i < |b| {
      assert b[i] == b[i..][0] == c[j..][0] == c[j];
      assert b[i + 1..] == b[i..][1..] == c[j..][1..] == c[j + 1..];
      FillInTail(b, i + 1, c, j + 1);
    }
  }

  lemma TailOfTail(b: seq<byte>, i: nat, c: seq<byte>, j: nat, n: nat)
    requires i + n <= |b| && j + n <= |c| && b[i..] == c[j..]
    ensures b[i + n..] == c[j + n..]
    ensures i + n < |b| ==> j + n < |c| && b[i + n] == c[j + n]
  {
    assert |b| - i == |c| - j;
    assert b[i..][n..] == b[i + n..] && c[j..][n..] == c[j + n..];
    if i + n < |b| {
      assert b[i + n] == b[i..][n] == c[j..][n] == c[j + n];
    }
  }

  lemma SameMarker(b: seq<byte>, i: nat, c: seq<byte>, j: nat)
    requires i <= |b| && j <= |c| && b[i..] == c[j..]
    ensures MarkerAt(b, i) <==> MarkerAt(c, j)
    ensures MarkerAt(b, i) ==>
              && Code(b, i) == Code(c, j)
              && Body(b, i) - i == Body(c, j) - j
              && b[Body(b, i)..] == c[Body(c, j)..]
  {
    assert |b| - i == |c| - j;
    if i + 1 < |b| {
      TailOfTail(b, i, c, j, 0);
      TailOfTail(b, i, c, j, 1);
      FillInTail(b, i + 1, c, j + 1);
      var n := SkipFill(b, i + 1) - i;
      if i + n < |b| {
        TailOfTail(b, i, c, j, n);
        TailOfTail(b, i, c, j, n + 1);
      }
    }
  }

  lemma SameSegment(b: seq<byte>, i: nat, c: seq<byte>, j: nat)
    requires i <= |b| && j <= |c| && b[i..] == c[j..]
    ensures SegmentFits(b, i) <==> SegmentFits(c, j)
    ensures SegmentFits(b, i) ==> SegmentEnd(b, i) - i == SegmentEnd(c, j) - j
  {
    assert |b| - i == |c| - j;
    if i + 2 <= |b| {
      assert b[i..i + 2] == b[i..][..2] == c[j..][..2] == c[j..j + 2];
    }
  }

  lemma SameEnding(b: seq<byte>, i: nat, c: seq<byte>, j: nat)
    requires i <= |b| && j <= |c| && b[i..] == c[j..]
    ensures EndingAt(b, i) <==> EndingAt(c, j)
    ensures EndingAt(b, i) ==> ReadEnding(b, i) == ReadEnding(c, j)
  {
    SameMarker(b, i, c, j);
    if MarkerAt(b, i) {
      ScanInTail(b, Body(b, i));
      ScanInTail(c, Body(c, j));
    }
  }

  lemma SameItem(b: seq<byte>, i: nat, c: seq<byte>, j: nat)
    requires i <= |b| && j <= |c| && b[i..] == c[j..]
    ensures ItemAt(b, i) <==> ItemAt(c, j)
    ensures ItemAt(b, i) ==>
              ReadItem(b, i) == ReadItem(c, j) && Next(b, i) - i == Next(c, j) - j && b[Next(b, i)..] == c[Next(c, j)..]
  {
    SameMarker(b, i, c, j);
    if MarkerAt(b, i) {
      var k, l := Body(b, i), Body(c, j);
      SameSegment(b, k, c, l);
      if ItemAt(b, i) {
        var n := Next(b, i) - k;
        TailOfTail(b, k, c, l, n);
        assert b[k..k + n] == b[k..][..n] == c[l..][..n] == c[l..l + n];
      }
    }
  }

  lemma {:induction false} SameTail(b: seq<byte>, i: nat, c: seq<byte>, j: nat)
    requires i <= |b| && j <= |c| && b[i..] == c[j..]
    ensures Readable(b, i) <==> Readable(c, j)
    ensures Readable(b, i) ==> ItemsFrom(b, i) == ItemsFrom(c, j) && EndingFrom(b, i) == EndingFrom(c, j)
    decreases |b| - i
  {
    SameEnding(b, i, c, j);
    if !EndingAt(b, i) {
      SameItem(b, i, c, j);
      if ItemAt(b, i) {
        SameTail(b, Next(b, i), c, Next(c, j));
      }
    }
  }

  // ---------- what an injection produces ----------

  /** A segment code the injectors use: neither a fill byte nor a marker that stands alone. */
  predicate AppCode(code: byte) {
    0xE0 <= code <= 0xEF
  }

  lemma TailIsValid(code: byte, payload: seq<byte>)
    requires AppCode(code) && |payload| + 2 <= U16_MAX
    ensures ValidItem(Item(code, Tail(payload))) && Payload(Item(code, Tail(payload))) == payload
  {
    var tail := Tail(payload);
    assert tail[0..2] == Be16(|payload| + 2) && tail[2..] == payload;
    assert Limit(2) == 0x1_0000;
    ReadAfterWrite(|payload| + 2, 2);
  }

  lemma InjectedLayout(b: seq<byte>, code: byte, payload: seq<byte>)
    requires InjectSegment(b, code, payload).Ok?
    ensures var out, item := InjectSegment(b, code, payload).value, EncodeItem(Item(code, Tail(payload)));
            && HasSoi(out) && Holds(out, 2, item) && out[2 + |item|..] == b[2..]
  {
    var item := EncodeItem(Item(code, Tail(payload)));
    var out := SOI + (item + b[2..]);
    assert out[2..] == item + b[2..];
    assert out[2..2 + |item|] == item;
  }

  /**
   An injected file is readable if and only if the original was, and its items are the new
   segment followed by the original ones.
   */
  lemma InjectedReads(b: seq<byte>, code: byte, payload: seq<byte>)
    requires AppCode(code) && InjectSegment(b, code, payload).Ok?
    ensures var out, item := InjectSegment(b, code, payload).value, Item(code, Tail(payload));
            && HasSoi(out) && |out| >= 4 && Payload(item) == payload
            && (Readable(out, 2) <==> Readable(b, 2))
            && (Readable(b, 2) ==>
                  ItemsFrom(out, 2) == [item] + ItemsFrom(b, 2) && EndingFrom(out, 2) == EndingFrom(b, 2))
  {
    var out, item := InjectSegment(b, code, payload).value, Item(code, Tail(payload));
    var next := 2 + |EncodeItem(item)|;
    assert HasSoi(out) && |out| >= 4 && out[next..] == b[2..] by {
      InjectedLayout(b, code, payload);
    }
    TailIsValid(code, payload);
    assert ItemAt(out, 2) && !EndingAt(out, 2) && ReadItem(out, 2) == item && Next(out, 2) == next by {
      InjectedLayout(b, code, payload);
      EncodedItem(out, 2, item);
    }
    SameTail(out, next, b, 2);
  }

  lemma StripUndoesSegment(b: seq<byte>, code: byte, payload: seq<byte>, policy: MetadataPolicy)
    requires AppCode(code) && InjectSegment(b, code, payload).Ok?
    requires !ShouldKeep(code, payload, policy)
    ensures Optimized(InjectSegment(b, code, payload).value, policy) == Optimized(b, policy)
  {
    InjectedReads(b, code, payload);
    if Readable(b, 2) {
      var item, rest := Item(code, Tail(payload)), ItemsFrom(b, 2);
      assert Kept([item] + rest, policy) == Kept(rest, policy) by {
        assert ([item] + rest)[1..] == rest;
      }
    }
  }

  lemma DroppedXmp(xmp: seq<byte>, policy: MetadataPolicy)
    requires policy != KeepAll
    ensures !ShouldKeep(APP1, XmpPayload(xmp), policy)
  {
    assert !StartsWith(XmpPayload(xmp), EXIF_PREFIX) by {
      assert XmpPayload(xmp)[0] == XMP_NAMESPACE[0];
    }
  }

  /**
   Stripping, under any policy that strips at all, undoes the whole injection, whichever of
   the two packets there were and whether or not they fitted.
   */
  lemma StripUndoesInject(b: seq<byte>, xmp: Option<seq<byte>>, iptc: Option<seq<byte>>, policy: MetadataPolicy)
    requires policy != KeepAll
    ensures Optimized(InjectMetadata(b, xmp, iptc), policy) == Optimized(b, policy)
  {
    var withIptc := InjectMetadata(b, None, iptc);
    if iptc.Some? && InjectSegment(b, APP13, IptcPayload(iptc.value)).Ok? {
      StripUndoesSegment(b, APP13, IptcPayload(iptc.value), policy);
    }
    if xmp.Some? && InjectSegment(withIptc, APP1, XmpPayload(xmp.value)).Ok? {
      DroppedXmp(xmp.value, policy);
      StripUndoesSegment(withIptc, APP1, XmpPayload(xmp.value), policy);
    }
  }

  lemma SegmentAlike(b: seq<byte>, k: nat, c: seq<byte>, l: nat)
    requires k <= |b| && l <= |c| && b[k..] == c[l..] && SegmentFits(b, k)
    ensures SegmentFits(c, l)
    ensures var m, n := SegmentEnd(b, k), SegmentEnd(c, l);
            b[k..m] == c[l..n] && b[k + 2..m] == c[l + 2..n] && b[m..] == c[n..] && m - k == n - l
  {
    SameSegment(b, k, c, l);
    var length := SegmentEnd(b, k) - k;
    TailOfTail(b, k, c, l, length);
    assert b[k..k + length] == b[k..][..length] == c[l..][..length] == c[l..l + length];
    assert b[k + 2..k + length] == b[k..][2..length] == c[l..][2..length] == c[l + 2..l + length];
  }

  /** The sniffers, too, depend on the rest of the file only, readable or not. */
  lemma {:induction false} SameSniff(b: seq<byte>, i: nat, c: seq<byte>, j: nat, exif: Option<seq<byte>>)
    requires i <= |b| && j <= |c| && b[i..] == c[j..]
    ensures JpegSniffer.SniffFrom(b, i, exif) == JpegSniffer.SniffFrom(c, j, exif)
    ensures JpegSniffer.ExifFrom(b, i) == JpegSniffer.ExifFrom(c, j)
    decreases |b| - i
  {
    hide MarkerAt, Code, Body, SegmentFits, SegmentEnd, Standalone, JpegSniffer.ExifIn, JpegSniffer.FrameSize,
      JpegSniffer.IsSof;
    SameMarker(b, i, c, j);
    if MarkerAt(b, i) {
      var code, k, l := Code(b, i), Body(b, i), Body(c, j);
      SameSegment(b, k, c, l);
      if Standalone(code) {
        SameSniff(b, k, c, l, exif);
      } else if SegmentFits(b, k) {
        SegmentAlike(b, k, c, l);
        SegmentStep(b, k);
        var seen := JpegSniffer.Earlier(exif, JpegSniffer.ExifIn(code, b[k + 2..SegmentEnd(b, k)]));
        SameSniff(b, SegmentEnd(b, k), c, SegmentEnd(c, l), seen);
      }
    }
  }

  lemma SegmentStep(b: seq<byte>, k: nat)
    requires SegmentFits(b, k)
    ensures k + 2 <= SegmentEnd(b, k) <= |b|
  {
  }

  lemma InjectedMarker(b: seq<byte>, code: byte, payload: seq<byte>)
    requires AppCode(code) && InjectSegment(b, code, payload).Ok?
    ensures var out, next := InjectSegment(b, code, payload).value, 4 + |Tail(payload)|;
            && MarkerAt(out, 2) && Code(out, 2) == code && Body(out, 2) == 4
            && SegmentFits(out, 4) && SegmentEnd(out, 4) == next && out[6..next] == payload && out[next..] == b[2..]
  {
    hide BeBytes;
    var out, item := InjectSegment(b, code, payload).value, Item(code, Tail(payload));
    InjectedLayout(b, code, payload);
    TailIsValid(code, payload);
    EncodedMarker(out, 2, code, item.tail);
    assert out[4..4 + |item.tail|] == item.tail;
    assert out[4..6] == item.tail[0..2];
    assert out[6..4 + |item.tail|] == item.tail[2..];
  }

  /** A segment that is neither a frame header nor Exif changes nothing the sniffers report. */
  lemma SegmentKeepsFacts(b: seq<byte>, code: byte, payload: seq<byte>)
    requires AppCode(code) && InjectSegment(b, code, payload).Ok?
    requires JpegSniffer.ExifIn(code, payload).None?
    ensures var out := InjectSegment(b, code, payload).value;
            && JpegSniffer.SniffFrom(out, 2, None) == JpegSniffer.SniffFrom(b, 2, None)
            && JpegSniffer.ExifFrom(out, 2) == JpegSniffer.ExifFrom(b, 2)
            && (Readable(out, 2) <==> Readable(b, 2))
  {
    hide MarkerAt, Code, Body, SegmentFits, SegmentEnd, Readable, Tail, JpegSniffer.ExifIn;
    var out, next := InjectSegment(b, code, payload).value, 4 + |Tail(payload)|;
    InjectedReads(b, code, payload);
    InjectedMarker(b, code, payload);
    SameSniff(out, next, b, 2, None);
  }

  /** Injecting changes neither what the sniffer reports, be it an error, nor the Exif block it finds. */
  lemma InjectKeepsFacts(b: seq<byte>, xmp: Option<seq<byte>>, iptc: Option<seq<byte>>)
    ensures var out := InjectMetadata(b, xmp, iptc);
            && JpegSniffer.SniffFrom(out, 2, None) == JpegSniffer.SniffFrom(b, 2, None)
            && JpegSniffer.ExifFrom(out, 2) == JpegSniffer.ExifFrom(b, 2)
            && (Readable(out, 2) <==> Readable(b, 2))
  {
    hide JpegSniffer.SniffFrom, JpegSniffer.ExifFrom, Readable, InjectSegment;
    var withIptc := InjectMetadata(b, None, iptc);
    if iptc.Some? && InjectSegment(b, APP13, IptcPayload(iptc.value)).Ok? {
      SegmentKeepsFacts(b, APP13, IptcPayload(iptc.value));
    }
    if xmp.Some? && InjectSegment(withIptc, APP1, XmpPayload(xmp.value)).Ok? {
      DroppedXmp(xmp.value, PreserveExif);
      SegmentKeepsFacts(withIptc, APP1, XmpPayload(xmp.value));
    }
  }
}
