/**
 The frame header the JPEG sniffer answers from (section B.2.2 of ITU-T T.81), printed field by
 field.
 */
module JpegFrames {
  import opened Wrappers
  import opened Bytes
  import opened Layout
  import opened JpegSegments
  import opened JpegSniffer
  import opened JpegGrammar
  import opened JpegPolicies

  /** The thirteen start-of-frame codes; C4, C8 and CC between them mean something else. */
  predicate IsFrameCode(code: byte) {
    code in {0xC0, 0xC1, 0xC2, 0xC3, 0xC5, 0xC6, 0xC7, 0xC9, 0xCA, 0xCB, 0xCD, 0xCE, 0xCF}
  }

  /** A length field, the sample precision, the height, the width, and what is left. */
  function FrameTail(precision: byte, width: nat, height: nat, rest: seq<byte>): seq<byte> {
    Be16(2 + 1 + 2 + 2 + |rest|) + ([precision] + (Be16(height) + (Be16(width) + rest)))
  }

  ghost predicate IsFrame(item: Item, width: nat, height: nat) {
    && IsFrameCode(item.code) && width <= 0xFFFF && height <= 0xFFFF
    && exists precision, rest :: item.tail == FrameTail(precision, width, height, rest)
  }

  /** The contents of the first Exif segment. */
  function FirstExif(items: seq<Item>): Option<seq<byte>> {
    if items == [] then None
    else if IsExif(items[0]) then Some(items[0].tail[8..])
    else FirstExif(items[1..])
  }

  /** After the start marker the file holds these items, and then this one, whatever follows. */
  predicate Leads(b: seq<byte>, items: seq<Item>, fills: seq<nat>, item: Item, fill: nat) {
    && |fills| == |items| && AllWellFormed(items) && WellFormed(item)
    && Holds(b, 2, MarkedItems(items, fills)) && Holds(b, 2 + |MarkedItems(items, fills)|, Marked(fill, item))
  }

  ghost predicate Precedes(b: seq<byte>, items: seq<Item>, item: Item) {
    exists fills, fill :: Leads(b, items, fills, item, fill)
  }

  predicate NoFrames(items: seq<Item>) {
    forall i | 0 <= i < |items| :: !IsFrameCode(items[i].code)
  }

  predicate NoExif(items: seq<Item>) {
    forall i | 0 <= i < |items| :: !IsExif(items[i])
  }

  // ---------- one header ----------

  lemma FrameCodes(code: byte)
    ensures IsSof(code) <==> IsFrameCode(code)
  {
  }

  lemma FrameFields(precision: byte, width: nat, height: nat, rest: seq<byte>)
    requires width <= 0xFFFF && height <= 0xFFFF
    ensures var tail := FrameTail(precision, width, height, rest);
            |tail| >= 7 && Be16At(tail, 3) == height && Be16At(tail, 5) == width
  {
    var tail := FrameTail(precision, width, height, rest);
    assert tail[3..5] == Be16(height) && tail[5..7] == Be16(width);
    assert Limit(2) == 0x1_0000;
    ReadAfterWrite(height, 2);
    ReadAfterWrite(width, 2);
  }

  lemma TailFields(tail: seq<byte>)
    requires IsSegment(tail) && |tail| >= 7
    ensures tail == FrameTail(tail[2], Be16At(tail, 5), Be16At(tail, 3), tail[7..])
  {
    WriteAfterReadBe(tail[3..5]);
    WriteAfterReadBe(tail[5..7]);
    hide Be16At;
    assert tail[2..] == [tail[2]] + (tail[3..5] + (tail[5..7] + tail[7..]));
  }

  /** A header is answered exactly when it has the printed form, and then with its own fields. */
  lemma FrameAnswer(item: Item, exif: Option<seq<byte>>, width: nat, height: nat)
    requires WellFormed(item) && IsFrameCode(item.code)
    ensures FrameSize(item.tail, exif) == Ok(Facts(width, height, exif)) <==> IsFrame(item, width, height)
  {
    hide FrameTail, Be16At, IsSegment;
    var tail := item.tail;
    if FrameSize(tail, exif) == Ok(Facts(width, height, exif)) {
      TailFields(tail);
    }
    if IsFrame(item, width, height) {
      var precision, rest :| tail == FrameTail(precision, width, height, rest);
      FrameFields(precision, width, height, rest);
    }
  }

  // ---------- the items before it ----------

  lemma ExifSpelled(item: Item)
    requires WellFormed(item)
    ensures ExifIn(item.code, Payload(item)) == if IsExif(item) then Some(item.tail[8..]) else None
  {
    NamesSpelled();
    if item.code == 0xE1 {
      PrefixOfPayload(item.tail, EXIF_PREFIX);
      if |item.tail| >= 8 {
        assert item.tail[2..][6..] == item.tail[8..];
      }
    }
  }

  lemma {:induction false} ExifIsFirst(items: seq<Item>)
    requires AllWellFormed(items)
    ensures ExifOf(items) == FirstExif(items)
  {
    if items != [] {
      ExifSpelled(items[0]);
      ExifIsFirst(items[1..]);
    }
  }

  /** What the sniffer does with an item that is no frame header: it remembers an Exif block. */
  lemma SniffPast(b: seq<byte>, i: nat, exif: Option<seq<byte>>)
    requires ItemAt(b, i)
    ensures var item := ReadItem(b, i);
            var seen := Earlier(exif, ExifIn(item.code, Payload(item)));
            SniffFrom(b, i, exif) == if IsFrameCode(item.code) then FrameSize(item.tail, seen)
                                     else SniffFrom(b, Next(b, i), seen)
  {
    FrameCodes(Code(b, i));
    if !Standalone(Code(b, i)) {
      PayloadAt(b, i);
    }
  }

  lemma {:induction false} SniffUpTo(b: seq<byte>, i: nat, exif: Option<seq<byte>>, items: seq<Item>, j: nat)
    requires ItemsUpTo(b, i, items, j) && NoFrames(items)
    ensures SniffFrom(b, i, exif) == SniffFrom(b, j, Earlier(exif, ExifOf(items)))
    decreases |items|
  {
    hide ItemAt, EndingAt, ReadItem, SniffFrom, ExifIn, IsFrameCode;
    if items != [] {
      var seen := Earlier(exif, ExifIn(items[0].code, Payload(items[0])));
      SniffPast(b, i, exif);
      SniffUpTo(b, Next(b, i), seen, items[1..], j);
    }
  }

  /** An answer comes from a frame header, with no other before it. */
  lemma {:induction false} SniffExplained(b: seq<byte>, i: nat, exif: Option<seq<byte>>)
    returns (items: seq<Item>, j: nat)
    requires SniffFrom(b, i, exif).Ok? && i <= |b|
    ensures ItemsUpTo(b, i, items, j) && NoFrames(items) && ItemAt(b, j) && IsFrameCode(ReadItem(b, j).code)
    decreases |b| - i
  {
    assert ItemAt(b, i) && !EndingAt(b, i);
    var item := ReadItem(b, i);
    SniffPast(b, i, exif);
    hide ItemAt, EndingAt, ReadItem, SniffFrom, ExifIn, IsFrameCode;
    if IsFrameCode(item.code) {
      items, j := [], i;
    } else {
      var rest;
      rest, j := SniffExplained(b, Next(b, i), Earlier(exif, ExifIn(item.code, Payload(item))));
      items := [item] + rest;
      assert items[1..] == rest;
    }
  }

  lemma LeadsRead(b: seq<byte>, items: seq<Item>, fills: seq<nat>, item: Item, fill: nat)
    requires Leads(b, items, fills, item, fill)
    ensures var j := 2 + |MarkedItems(items, fills)|;
            ItemsUpTo(b, 2, items, j) && ItemAt(b, j) && ReadItem(b, j) == item
  {
    hide MarkedItems, Marked, ItemsUpTo, ItemAt, ReadItem, WellFormed, Holds;
    ItemsRead(b, 2, items, fills);
    MarkedRead(b, 2 + |MarkedItems(items, fills)|, fill, item);
  }

  lemma LeadsPrinted(b: seq<byte>, items: seq<Item>, j: nat)
    requires |b| >= 2 && ItemsUpTo(b, 2, items, j) && ItemAt(b, j)
    ensures Precedes(b, items, ReadItem(b, j))
  {
    hide MarkedItems, Marked, ItemsUpTo, ReadItem, WellFormed;
    var fills := ItemsPrinted(b, 2, items, j);
    MarkedPrinted(b, j);
    assert Leads(b, items, fills, ReadItem(b, j), Body(b, j) - j - 2);
  }

  // ---------- main results ----------

  /** The sniffer's answer for a file that leads up to a frame header. */
  lemma FrameFound(b: seq<byte>, items: seq<Item>, frame: Item, width: nat, height: nat)
    requires Precedes(b, items, frame) && NoFrames(items) && IsFrame(frame, width, height)
    ensures SniffFrom(b, 2, None) == Ok(Facts(width, height, FirstExif(items)))
  {
    hide SniffFrom, ItemsUpTo, ItemAt, ReadItem, WellFormed, MarkedItems, Marked, FrameSize, ExifIn;
    var fills, fill :| Leads(b, items, fills, frame, fill);
    LeadsRead(b, items, fills, frame, fill);
    var j := 2 + |MarkedItems(items, fills)|;
    SniffUpTo(b, 2, None, items, j);
    ExifIsFirst(items);
    SniffPast(b, j, FirstExif(items));
    ExifSpelled(frame);
    FrameAnswer(frame, FirstExif(items), width, height);
  }

  /**
   The sniffer answers with a width and a height if and only if the file leads, over items that
   are no frame headers, to a frame header in which that height and then that width are printed;
   the Exif block it answers with is the first one on the way.
   */
  lemma AnswersIffFrame(b: seq<byte>, width: nat, height: nat, exif: Option<seq<byte>>)
    ensures SniffFrom(b, 2, None) == Ok(Facts(width, height, exif))
            <==> exists items, frame ::
                   && Precedes(b, items, frame) && NoFrames(items) && IsFrame(frame, width, height)
                   && exif == FirstExif(items)
  {
    hide SniffFrom, Precedes, NoFrames, IsFrame;
    if SniffFrom(b, 2, None) == Ok(Facts(width, height, exif)) {
      var items, frame := FrameOfAnswer(b, width, height, exif);
    }
    forall items, frame | Precedes(b, items, frame) && NoFrames(items) && IsFrame(frame, width, height)
      ensures SniffFrom(b, 2, None) == Ok(Facts(width, height, FirstExif(items)))
    {
      FrameFound(b, items, frame, width, height);
    }
  }

  lemma FrameOfAnswer(b: seq<byte>, width: nat, height: nat, exif: Option<seq<byte>>)
    returns (items: seq<Item>, frame: Item)
    requires SniffFrom(b, 2, None) == Ok(Facts(width, height, exif))
    ensures Precedes(b, items, frame) && NoFrames(items) && IsFrame(frame, width, height)
    ensures exif == FirstExif(items)
  {
    assert |b| >= 2;
    var j;
    items, j := SniffExplained(b, 2, None);
    frame := ReadItem(b, j);
    hide SniffFrom, ItemsUpTo, ItemAt, ReadItem, WellFormed, ExifIn, IsFrame;
    LeadsPrinted(b, items, j);
    MarkedPrinted(b, j);
    AllAreWellFormed(b, items, j);
    SniffUpTo(b, 2, None, items, j);
    ExifIsFirst(items);
    SniffPast(b, j, FirstExif(items));
    ExifSpelled(frame);
    FrameAnswer(frame, FirstExif(items), width, height);
  }

  lemma AllAreWellFormed(b: seq<byte>, items: seq<Item>, j: nat)
    requires |b| >= 2 && ItemsUpTo(b, 2, items, j)
    ensures AllWellFormed(items)
  {
    var fills := ItemsPrinted(b, 2, items, j);
  }

  // ---------- the whole-file search for Exif ----------

  lemma ExifPast(b: seq<byte>, i: nat)
    requires ItemAt(b, i)
    ensures var item := ReadItem(b, i);
            ExifFrom(b, i) == Earlier(ExifIn(item.code, Payload(item)), ExifFrom(b, Next(b, i)))
  {
    if !Standalone(Code(b, i)) {
      PayloadAt(b, i);
    }
  }

  lemma {:induction false} SearchUpTo(b: seq<byte>, i: nat, items: seq<Item>, j: nat)
    requires ItemsUpTo(b, i, items, j)
    ensures ExifFrom(b, i) == Earlier(ExifOf(items), ExifFrom(b, j))
    decreases |items|
  {
    hide ItemAt, EndingAt, ReadItem, ExifFrom, ExifIn;
    if items != [] {
      ExifPast(b, i);
      SearchUpTo(b, Next(b, i), items[1..], j);
    }
  }

  lemma {:induction false} SearchExplained(b: seq<byte>, i: nat) returns (items: seq<Item>, j: nat)
    requires ExifFrom(b, i).Some? && i <= |b|
    ensures ItemsUpTo(b, i, items, j) && NoExif(items) && ItemAt(b, j)
    ensures WellFormed(ReadItem(b, j)) && IsExif(ReadItem(b, j)) && ExifFrom(b, i) == Some(ReadItem(b, j).tail[8..])
    decreases |b| - i
  {
    assert ItemAt(b, i) && !EndingAt(b, i);
    var item := ReadItem(b, i);
    ExifPast(b, i);
    MarkedPrinted(b, i);
    hide ItemAt, EndingAt, ReadItem, ExifFrom, ExifIn, IsExif, WellFormed;
    ExifSpelled(item);
    if IsExif(item) {
      items, j := [], i;
    } else {
      var rest;
      rest, j := SearchExplained(b, Next(b, i));
      items := [item] + rest;
      assert items[1..] == rest;
    }
  }

  lemma {:induction false} NoneFirst(items: seq<Item>)
    requires NoExif(items)
    ensures FirstExif(items) == None
  {
    if items != [] {
      NoneFirst(items[1..]);
    }
  }

  /** The whole-file search finds a block if and only if the file leads to a first Exif segment, which holds it. */
  lemma SearchIffExif(b: seq<byte>, found: seq<byte>)
    ensures ExifFrom(b, 2) == Some(found)
            <==> exists items, item ::
                   Precedes(b, items, item) && NoExif(items) && IsExif(item) && found == item.tail[8..]
  {
    assert ExifFrom(b, 2).Some? ==> |b| >= 2;
    hide ExifFrom, Precedes, NoExif, ItemAt, ItemsUpTo, IsExif, ReadItem, WellFormed;
    if ExifFrom(b, 2) == Some(found) {
      var items, j := SearchExplained(b, 2);
      LeadsPrinted(b, items, j);
      assert Precedes(b, items, ReadItem(b, j));
    }
    forall items, item | Precedes(b, items, item) && NoExif(items) && IsExif(item)
      ensures |item.tail| >= 8 && ExifFrom(b, 2) == Some(item.tail[8..])
    {
      ExifFound(b, items, item);
    }
  }

  lemma ExifFound(b: seq<byte>, items: seq<Item>, item: Item)
    requires Precedes(b, items, item) && NoExif(items) && IsExif(item)
    ensures |item.tail| >= 8 && ExifFrom(b, 2) == Some(item.tail[8..])
  {
    hide ExifFrom, ItemsUpTo, ItemAt, ReadItem, WellFormed, MarkedItems, Marked, ExifIn;
    var fills, fill :| Leads(b, items, fills, item, fill);
    LeadsRead(b, items, fills, item, fill);
    var j := 2 + |MarkedItems(items, fills)|;
    SearchUpTo(b, 2, items, j);
    ExifIsFirst(items);
    NoneFirst(items);
    ExifPast(b, j);
    ExifSpelled(item);
  }

  // ---------- failures ----------

  /** A file without an answer fails to decode. */
  lemma {:induction false} FailsToDecode(b: seq<byte>, i: nat, exif: Option<seq<byte>>)
    ensures SniffFrom(b, i, exif).Ok? || SniffFrom(b, i, exif) == Err(DecodeFailed)
    decreases |b| - i
  {
    hide IsSof, ExifIn, Standalone;
    if MarkerAt(b, i) {
      var code, j := Code(b, i), Body(b, i);
      if Standalone(code) {
        FailsToDecode(b, j, exif);
      } else if SegmentFits(b, j) {
        FailsToDecode(b, SegmentEnd(b, j), Earlier(exif, ExifIn(code, b[j + 2..SegmentEnd(b, j)])));
      }
    }
  }
}
