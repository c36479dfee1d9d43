/**
 The two packets a JPEG injection writes, spelled out, and where they stand in the new file.
 */
module JpegPackets {
  import opened Wrappers
  import opened Bytes
  import opened Layout
  import opened JpegSegments
  import opened JpegInject
  import opened JpegGrammar

  /** The name of the XMP namespace and its terminator, then the packet. */
  function XmpPacket(xmp: seq<byte>): (s: seq<byte>)
    ensures |s| == 29 + |xmp|
  {
    Ascii("http://ns.adobe.com/xap/1.0/") + [0] + xmp
  }

  /**
   The Photoshop name and its terminator, and one resource of type 0404 with an empty name: its
   size, the data, and a zero byte behind an odd number of bytes.
   */
  function IptcPacket(iptc: seq<byte>): (s: seq<byte>)
    ensures |s| == 26 + |iptc| + |iptc| % 2
  {
    Ascii("Photoshop 3.0") + [0] + Ascii("8BIM") + [0x04, 0x04] + [0, 0] + Be32(|iptc|) + iptc
    + if |iptc| % 2 == 1 then [0] else []
  }

  lemma XmpSpelled(xmp: seq<byte>)
    ensures XmpPayload(xmp) == XmpPacket(xmp)
  {
    assert XMP_NAMESPACE == Ascii("http://ns.adobe.com/xap/1.0/") + [0];
  }

  lemma IptcSpelled(iptc: seq<byte>)
    ensures IptcPayload(iptc) == IptcPacket(iptc)
  {
    assert PHOTOSHOP_NAMESPACE == Ascii("Photoshop 3.0") + [0];
    assert BIM_SIGNATURE == Ascii("8BIM");
    assert PHOTOSHOP_NAMESPACE + BIM_SIGNATURE == Ascii("Photoshop 3.0") + [0] + Ascii("8BIM");
  }

  lemma TailIsSegment(payload: seq<byte>)
    ensures Tail(payload) == Segment(payload)
  {
  }

  /** A packet becomes an item when it and its length field fit 16 bits, and nothing otherwise. */
  function PacketItem(code: byte, payload: Option<seq<byte>>): seq<Item> {
    if payload.Some? && 2 + |payload.value| <= 0xFFFF then [Item(code, Segment(payload.value))] else []
  }

  lemma AppliedItems(b: seq<byte>, code: byte, payload: Option<seq<byte>>)
    requires AppCode(code) && HasSoi(b) && Readable(b, 2)
    ensures var out := Apply(b, code, payload);
            && HasSoi(out) && Readable(out, 2) && EndingFrom(out, 2) == EndingFrom(b, 2)
            && ItemsFrom(out, 2) == PacketItem(code, payload) + ItemsFrom(b, 2)
  {
    hide Readable, EndingFrom, ItemsFrom, Segment;
    if payload.Some? && InjectSegment(b, code, payload.value).Ok? {
      InjectedReads(b, code, payload.value);
      TailIsSegment(payload.value);
    } else {
      assert PacketItem(code, payload) + ItemsFrom(b, 2) == ItemsFrom(b, 2);
    }
  }

  lemma SoiSpelled(b: seq<byte>)
    ensures HasSoi(b) <==> |b| >= 2 && b[..2] == [0xFF, 0xD8]
  {
    if |b| >= 2 {
      assert b[..2] == [b[0], b[1]];
    }
  }

  lemma BothApplied(b: seq<byte>, outer: Option<seq<byte>>, inner: Option<seq<byte>>)
    ensures !HasSoi(b) ==> Apply(Apply(b, APP13, inner), APP1, outer) == b
    ensures HasSoi(b) && Readable(b, 2) ==>
              var out := Apply(Apply(b, APP13, inner), APP1, outer);
              && HasSoi(out) && Readable(out, 2) && EndingFrom(out, 2) == EndingFrom(b, 2)
              && ItemsFrom(out, 2) == PacketItem(0xE1, outer) + PacketItem(0xED, inner) + ItemsFrom(b, 2)
  {
    var middle := Apply(b, APP13, inner);
    if HasSoi(b) && Readable(b, 2) {
      hide Readable, EndingFrom, ItemsFrom, PacketItem, Apply, HasSoi;
      AppliedItems(b, APP13, inner);
      AppliedItems(middle, APP1, outer);
      Regroup(PacketItem(APP1, outer), PacketItem(APP13, inner), ItemsFrom(b, 2));
    }
  }

  /**
   In front of a readable file's own items stand, first, an APP1 segment with the XMP packet
   and then an APP13 segment with the IPTC packet, each where it was given and fits; any bytes
   that do not start as a JPEG come back unchanged.
   */
  lemma InjectedItems(b: seq<byte>, xmp: Option<seq<byte>>, iptc: Option<seq<byte>>)
    ensures |b| < 2 || b[..2] != [0xFF, 0xD8] ==> InjectMetadata(b, xmp, iptc) == b
    ensures HasSoi(b) && Readable(b, 2) ==>
              var out := InjectMetadata(b, xmp, iptc);
              && HasSoi(out) && Readable(out, 2) && EndingFrom(out, 2) == EndingFrom(b, 2)
              && ItemsFrom(out, 2)
                 == PacketItem(0xE1, if xmp.Some? then Some(XmpPacket(xmp.value)) else None)
                    + PacketItem(0xED, if iptc.Some? then Some(IptcPacket(iptc.value)) else None)
                    + ItemsFrom(b, 2)
  {
    hide Readable, EndingFrom, ItemsFrom, PacketItem, XmpPacket, IptcPacket, XmpPayload, IptcPayload, Apply, HasSoi;
    SoiSpelled(b);
    if iptc.Some? {
      IptcSpelled(iptc.value);
    }
    if xmp.Some? {
      XmpSpelled(xmp.value);
    }
    BothApplied(b, if xmp.Some? then Some(XmpPacket(xmp.value)) else None,
                if iptc.Some? then Some(IptcPacket(iptc.value)) else None);
  }
}
