/**
 Reading a JPEG file's facts by walking its segment headers again.
 */
module JpegSniffer {
  import opened Wrappers
  import opened Bytes
  import opened Layout
  import opened JpegSegments
  import opened MetadataPolicies

  /** The size, and the first Exif block met before it. The block's contents are not read here. */
  datatype Facts = Facts(width: nat, height: nat, exif: Option<seq<byte>>)

  predicate IsSof(code: byte) {
    0xC0 <= code <= 0xCF && code != 0xC4 && code != 0xC8 && code != 0xCC
  }

  /** The Exif block of an APP1 segment. */
  function ExifIn(code: byte, payload: seq<byte>): Option<seq<byte>> {
    if code == 0xE1 && StartsWith(payload, EXIF_PREFIX) then Some(payload[|EXIF_PREFIX|..]) else None
  }

  function Earlier(exif: Option<seq<byte>>, next: Option<seq<byte>>): Option<seq<byte>> {
    if exif.Some? then exif else next
  }

  /** The frame header's answer, given the segment's bytes from the length field on. */
  function FrameSize(tail: seq<byte>, exif: Option<seq<byte>>): Result<Facts> {
    if |tail| < 7 then Err(DecodeFailed) else Ok(Facts(Be16At(tail, 5), Be16At(tail, 3), exif))
  }

  function SniffFrom(b: seq<byte>, i: nat, exif: Option<seq<byte>>): Result<Facts>
    decreases |b| - i
  {
    if !MarkerAt(b, i) then Err(DecodeFailed)
    else
      var code, j := Code(b, i), Body(b, i);
      if code == EOI || code == SOS then Err(DecodeFailed)
      else if Standalone(code) then SniffFrom(b, j, exif)
      else if !SegmentFits(b, j) then Err(DecodeFailed)
      else
        var end := SegmentEnd(b, j);
        var seen := Earlier(exif, ExifIn(code, b[j + 2..end]));
        if IsSof(code) then FrameSize(b[j..end], seen) else SniffFrom(b, end, seen)
  }

  /** The marker at an offset: its code and the position just past it. */
  method ReadMarker(bytes: seq<byte>, offset: nat) returns (marker: Option<(byte, nat)>)
    ensures marker == if MarkerAt(bytes, offset) then Some((Code(bytes, offset), Body(bytes, offset))) else None
  {
    if offset + 1 >= |bytes| || bytes[offset] != 0xFF {
      return None;
    }
    var marked := FindMarker(bytes, offset + 1);
    return if marked >= |bytes| then None else Some((bytes[marked], marked + 1));
  }

  method SniffJpeg(bytes: seq<byte>) returns (r: Result<Facts>)
    ensures r == SniffFrom(bytes, 2, None)
  {
    hide ExifIn, FrameSize, IsSof, Standalone, Be16At;
    var offset := 2;
    var exif: Option<seq<byte>> := None;
    while offset + 1 < |bytes|
      invariant SniffFrom(bytes, offset, exif) == SniffFrom(bytes, 2, None)
      decreases |bytes| - offset
    {
      var read := ReadMarker(bytes, offset);
      if read.None? {
        return Err(DecodeFailed);
      }
      var marker, body := read.value.0, read.value.1;
      if marker == EOI || marker == SOS {
        break;
      }
      if Standalone(marker) {
        offset := body;
        continue;
      }
      if body + 2 > |bytes| {
        return Err(DecodeFailed);
      }
      var length := Be16At(bytes, body);
      if length < 2 || body + length > |bytes| {
        return Err(DecodeFailed);
      }
      var payload := bytes[body + 2..body + length];
      if exif.None? {
        exif := ExifIn(marker, payload);
      }
      if IsSof(marker) {
        return FrameSize(bytes[body..body + length], exif);
      }
      offset := body + length;
    }
    return Err(DecodeFailed);
  }

  function ExifFrom(b: seq<byte>, i: nat): Option<seq<byte>>
    decreases |b| - i
  {
    if !MarkerAt(b, i) then None
    else
      var code, j := Code(b, i), Body(b, i);
      if code == EOI || code == SOS then None
      else if Standalone(code) then ExifFrom(b, j)
      else if !SegmentFits(b, j) then None
      else Earlier(ExifIn(code, b[j + 2..SegmentEnd(b, j)]), ExifFrom(b, SegmentEnd(b, j)))
  }

  method JpegExifPayload(bytes: seq<byte>) returns (r: Option<seq<byte>>)
    ensures r == ExifFrom(bytes, 2)
  {
    hide ExifIn, Standalone, Be16At;
    var offset := 2;
    while offset + 1 < |bytes|
      invariant ExifFrom(bytes, offset) == ExifFrom(bytes, 2)
      decreases |bytes| - offset
    {
      var read := ReadMarker(bytes, offset);
      if read.None? {
        return None;
      }
      var marker, body := read.value.0, read.value.1;
      if marker == EOI || marker == SOS {
        return None;
      }
      offset := body;
      if Standalone(marker) {
        continue;
      }
      if offset + 2 > |bytes| {
        return None;
      }
      var length := Be16At(bytes, offset);
      if length < 2 || offset + length > |bytes| {
        return None;
      }
      var found := ExifIn(marker, bytes[offset + 2..offset + length]);
      if found.Some? {
        return found;
      }
      offset := offset + length;
    }
    return None;
  }

  // ---------- the same facts, on items ----------

  function SniffItems(items: seq<Item>, exif: Option<seq<byte>>): Result<Facts>
    decreases |items|
  {
    if items == [] then Err(DecodeFailed)
    else
      var seen := Earlier(exif, ExifIn(items[0].code, Payload(items[0])));
      if IsSof(items[0].code) then FrameSize(items[0].tail, seen) else SniffItems(items[1..], seen)
  }

  function ExifOf(items: seq<Item>): Option<seq<byte>> {
    if items == [] then None else Earlier(ExifIn(items[0].code, Payload(items[0])), ExifOf(items[1..]))
  }

  lemma PayloadAt(b: seq<byte>, i: nat)
    requires ItemAt(b, i) && !Standalone(Code(b, i))
    ensures Payload(ReadItem(b, i)) == b[Body(b, i) + 2..Next(b, i)]
  {
    SubSlice(b, Body(b, i), Next(b, i), 2, Next(b, i) - Body(b, i));
  }

  lemma {:induction false} SnifferMatchesReader(b: seq<byte>, i: nat, exif: Option<seq<byte>>)
    requires Readable(b, i)
    ensures SniffFrom(b, i, exif) == SniffItems(ItemsFrom(b, i), exif)
    decreases |b| - i
  {
    if !EndingAt(b, i) {
      var item, rest := ReadItem(b, i), ItemsFrom(b, Next(b, i));
      var seen := Earlier(exif, ExifIn(item.code, Payload(item)));
      assert SniffItems([item] + rest, exif)
             == if IsSof(item.code) then FrameSize(item.tail, seen) else SniffItems(rest, seen) by {
        assert ([item] + rest)[1..] == rest;
      }
      if !Standalone(item.code) {
        PayloadAt(b, i);
      }
      if !IsSof(item.code) {
        SnifferMatchesReader(b, Next(b, i), seen);
      }
    }
  }

  lemma {:induction false} ExifMatchesReader(b: seq<byte>, i: nat)
    requires Readable(b, i)
    ensures ExifFrom(b, i) == ExifOf(ItemsFrom(b, i))
    decreases |b| - i
  {
    if !EndingAt(b, i) {
      var item, rest := ReadItem(b, i), ItemsFrom(b, Next(b, i));
      assert ExifOf([item] + rest) == Earlier(ExifIn(item.code, Payload(item)), ExifOf(rest)) by {
        assert ([item] + rest)[1..] == rest;
      }
      if !Standalone(item.code) {
        PayloadAt(b, i);
      }
      ExifMatchesReader(b, Next(b, i));
    }
  }

  // ---------- rewriting keeps the facts ----------

  predicate KeepsExif(policy: MetadataPolicy) {
    policy == KeepAll || policy == PreserveExif
  }

  /** The question the passthrough asks the segment rule with a bare Exif prefix. */
  lemma RetainsExif(policy: MetadataPolicy)
    ensures ShouldKeep(0xE1, EXIF_PREFIX, policy) <==> KeepsExif(policy)
  {
  }

  function Retained(exif: Option<seq<byte>>, policy: MetadataPolicy): Option<seq<byte>> {
    if KeepsExif(policy) then exif else None
  }

  /** An Exif segment is kept exactly when the policy keeps Exif; a frame header always is. */
  lemma KeptItem(item: Item, policy: MetadataPolicy)
    ensures ExifIn(item.code, Payload(item)).Some? ==> (Keeps(item, policy) <==> KeepsExif(policy))
    ensures IsSof(item.code) ==> Keeps(item, policy) && ExifIn(item.code, Payload(item)).None?
  {
  }

  lemma {:induction false} KeptSniff(items: seq<Item>, policy: MetadataPolicy, exif: Option<seq<byte>>)
    ensures SniffItems(Kept(items, policy), Retained(exif, policy))
            == var before := SniffItems(items, exif);
               if before.Ok? then Ok(before.value.(exif := Retained(before.value.exif, policy))) else before
    decreases |items|
  {
    if items != [] {
      var item, rest := items[0], items[1..];
      var kept, seen := Kept(rest, policy), Earlier(exif, ExifIn(item.code, Payload(item)));
      KeptItem(item, policy);
      assert Keeps(item, policy) ==> ([item] + kept)[0] == item && ([item] + kept)[1..] == kept;
      if !IsSof(item.code) {
        KeptSniff(rest, policy, seen);
      }
    }
  }

  lemma {:induction false} KeptExif(items: seq<Item>, policy: MetadataPolicy)
    ensures ExifOf(Kept(items, policy)) == Retained(ExifOf(items), policy)
  {
    if items != [] {
      var item, kept := items[0], Kept(items[1..], policy);
      KeptItem(item, policy);
      KeptExif(items[1..], policy);
      assert Keeps(item, policy) ==> ([item] + kept)[0] == item && ([item] + kept)[1..] == kept;
    }
  }

  /**
   The sniffer reads the same width and height from the rewritten file, or fails on both; the
   Exif block it meets on the way is the input's when the policy keeps Exif and nothing
   otherwise. The same holds for the whole-file search.
   */
  lemma OptimizedKeepsFacts(b: seq<byte>, policy: MetadataPolicy)
    requires Optimized(b, policy).Ok?
    ensures var out, before := Optimized(b, policy).value, SniffFrom(b, 2, None);
            && SniffFrom(out, 2, None)
               == (if before.Ok? then Ok(before.value.(exif := Retained(before.value.exif, policy))) else before)
            && ExifFrom(out, 2) == Retained(ExifFrom(b, 2), policy)
  {
    OptimizedReads(b, policy);
    var out := Optimized(b, policy).value;
    SnifferMatchesReader(b, 2, None);
    SnifferMatchesReader(out, 2, None);
    ExifMatchesReader(b, 2);
    ExifMatchesReader(out, 2);
    KeptSniff(ItemsFrom(b, 2), policy, None);
    KeptExif(ItemsFrom(b, 2), policy);
  }
}
