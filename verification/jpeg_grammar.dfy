/**
 Every file the JPEG reader accepts, as a grammar written forwards: marker codes and length
 fields spelled out, and any number of fill bytes before each code.
 */
module JpegGrammar {
  import opened Wrappers
  import opened Bytes
  import opened Layout
  import opened JpegSegments

  function FillBytes(n: nat): (s: seq<byte>)
    ensures |s| == n
  {
    if n == 0 then [] else [0xFF] + FillBytes(n - 1)
  }

  /** Any code but the fill byte and the two that end the list. */
  predicate IsCode(code: byte) {
    code != 0xFF && code != 0xD9 && code != 0xDA
  }

  /** A length field that counts itself, and a payload. */
  function Segment(payload: seq<byte>): seq<byte> {
    Be16(2 + |payload|) + payload
  }

  predicate IsSegment(tail: seq<byte>) {
    2 <= |tail| <= 0xFFFF && tail == Segment(tail[2..])
  }

  /** The code 01 and the eight restart markers stand alone; every other marker heads a segment. */
  predicate WellFormed(item: Item) {
    && IsCode(item.code)
    && if item.code in {0x01, 0xD0, 0xD1, 0xD2, 0xD3, 0xD4, 0xD5, 0xD6, 0xD7} then item.tail == []
       else IsSegment(item.tail)
  }

  function Marked(fill: nat, item: Item): (s: seq<byte>)
    ensures |s| == 2 + fill + |item.tail|
  {
    [0xFF] + (FillBytes(fill) + ([item.code] + item.tail))
  }

  function MarkedItems(items: seq<Item>, fills: seq<nat>): seq<byte>
    requires |fills| == |items|
  {
    if items == [] then [] else Marked(fills[0], items[0]) + MarkedItems(items[1..], fills[1..])
  }

  predicate AllWellFormed(items: seq<Item>) {
    forall i | 0 <= i < |items| :: WellFormed(items[i])
  }

  /** The two bytes of an end-of-image marker occur. */
  ghost predicate ContainsEnd(s: seq<byte>) {
    exists k | 0 <= k < |s| - 1 :: s[k] == 0xFF && s[k + 1] == 0xD9
  }

  /** A scan header, and coded data in which an end-of-image marker occurs. */
  ghost predicate IsScan(data: seq<byte>) {
    exists n: nat :: n <= |data| && IsSegment(data[..n]) && ContainsEnd(data[n..])
  }

  /**
   After any number of fill bytes: D9 and anything at all, or DA and a scan that is the rest of
   the file.
   */
  ghost predicate IsEnding(s: seq<byte>, fill: nat, ending: Ending) {
    match ending
    case EndOfImage => exists after :: s == Marked(fill, Item(0xD9, after))
    case Scan(data) => s == Marked(fill, Item(0xDA, data)) && IsScan(data)
  }

  // ---------- fill bytes ----------

  lemma {:induction false} FillSkipped(b: seq<byte>, i: nat, n: nat)
    requires Holds(b, i, FillBytes(n)) && i + n < |b| && b[i + n] != 0xFF
    ensures SkipFill(b, i) == i + n
    decreases n
  {
    if n > 0 {
      HoldsBoth(b, i, [0xFF], FillBytes(n - 1));
      HoldsAt(b, i, [0xFF], 0);
      FillSkipped(b, i + 1, n - 1);
    }
  }

  lemma {:induction false} SkippedFill(b: seq<byte>, i: nat)
    requires SkipFill(b, i) < |b|
    ensures Holds(b, i, FillBytes(SkipFill(b, i) - i))
    decreases |b| - i
  {
    if i < |b| && b[i] == 0xFF {
      SkippedFill(b, i + 1);
      HoldsElement(b, i);
      HoldsJoined(b, i, [0xFF], FillBytes(SkipFill(b, i + 1) - (i + 1)));
    }
  }

  /** A marker is a fill prefix and a code, whatever follows. */
  lemma MarkerRead(b: seq<byte>, i: nat, fill: nat, item: Item)
    requires item.code != 0xFF && Holds(b, i, Marked(fill, item))
    ensures MarkerAt(b, i) && Code(b, i) == item.code && Body(b, i) == i + 2 + fill
    ensures Holds(b, i + 2 + fill, item.tail)
  {
    var rest := [item.code] + item.tail;
    HoldsBoth(b, i, [0xFF], FillBytes(fill) + rest);
    HoldsAt(b, i, [0xFF], 0);
    HoldsBoth(b, i + 1, FillBytes(fill), rest);
    HoldsBoth(b, i + 1 + fill, [item.code], item.tail);
    HoldsAt(b, i + 1 + fill, [item.code], 0);
    FillSkipped(b, i + 1, fill);
  }

  lemma MarkerPrinted(b: seq<byte>, i: nat, j: nat)
    requires MarkerAt(b, i) && Body(b, i) <= j <= |b|
    ensures Code(b, i) != 0xFF
    ensures b[i..j] == Marked(Body(b, i) - i - 2, Item(Code(b, i), b[Body(b, i)..j]))
  {
    SkipFillStops(b, i + 1);
    SkippedFill(b, i + 1);
    var body := Body(b, i);
    var rest := [Code(b, i)] + b[body..j];
    HoldsElement(b, body - 1);
    HoldsJoined(b, body - 1, [Code(b, i)], b[body..j]);
    HoldsJoined(b, i + 1, FillBytes(body - i - 2), rest);
    HoldsElement(b, i);
    HoldsJoined(b, i, [0xFF], FillBytes(body - i - 2) + rest);
  }

  // ---------- segments ----------

  lemma SegmentRead(tail: seq<byte>)
    requires IsSegment(tail)
    ensures BeValue(tail[..2]) == |tail|
  {
    assert tail[..2] == Be16(|tail|);
    assert Limit(2) == 0x1_0000;
    ReadAfterWrite(|tail|, 2);
  }

  lemma SegmentPrinted(tail: seq<byte>)
    requires 2 <= |tail| <= 0xFFFF && BeValue(tail[..2]) == |tail|
    ensures IsSegment(tail)
  {
    WriteAfterReadBe(tail[..2]);
    assert tail == tail[..2] + tail[2..];
  }

  /** A length field fits exactly when a well-formed segment stands there. */
  lemma SegmentIsWellFormed(b: seq<byte>, i: nat, j: nat)
    requires i <= j <= |b|
    ensures IsSegment(b[i..j]) <==> SegmentFits(b, i) && SegmentEnd(b, i) == j
  {
    hide BeValue, Be16;
    var tail := b[i..j];
    if i + 2 <= j <= i + 0xFFFF {
      assert tail[..2] == b[i..i + 2];
      assert Be16At(b, i) == BeValue(tail[..2]);
      if Be16At(b, i) == |tail| {
        SegmentPrinted(tail);
      }
      if IsSegment(tail) {
        SegmentRead(tail);
      }
    }
  }

  lemma StandaloneCodes(code: byte)
    ensures Standalone(code) <==> code in {0x01, 0xD0, 0xD1, 0xD2, 0xD3, 0xD4, 0xD5, 0xD6, 0xD7}
  {
  }

  /** One item: what is read is printed, and what is printed is read. */
  lemma MarkedRead(b: seq<byte>, i: nat, fill: nat, item: Item)
    requires WellFormed(item) && Holds(b, i, Marked(fill, item))
    ensures ItemAt(b, i) && !EndingAt(b, i) && ReadItem(b, i) == item && Next(b, i) == i + |Marked(fill, item)|
  {
    MarkerRead(b, i, fill, item);
    StandaloneCodes(item.code);
    var body := i + 2 + fill;
    assert b[body..body + |item.tail|] == item.tail;
    hide IsSegment;
    if !Standalone(item.code) {
      SegmentIsWellFormed(b, body, body + |item.tail|);
    }
  }

  lemma MarkedPrinted(b: seq<byte>, i: nat)
    requires ItemAt(b, i)
    ensures MarkerAt(b, i) && WellFormed(ReadItem(b, i)) && !EndingAt(b, i)
    ensures b[i..Next(b, i)] == Marked(Body(b, i) - i - 2, ReadItem(b, i))
  {
    hide IsSegment, Marked;
    MarkerPrinted(b, i, Next(b, i));
    StandaloneCodes(Code(b, i));
    if !Standalone(Code(b, i)) {
      SegmentIsWellFormed(b, Body(b, i), Next(b, i));
    }
  }

  // ---------- lists of items ----------

  lemma {:induction false} ItemsRead(b: seq<byte>, i: nat, items: seq<Item>, fills: seq<nat>)
    requires |fills| == |items| && AllWellFormed(items) && Holds(b, i, MarkedItems(items, fills))
    ensures ItemsUpTo(b, i, items, i + |MarkedItems(items, fills)|)
    decreases |items|
  {
    hide Marked, WellFormed, ItemAt, EndingAt, ReadItem, Next, Holds;
    if items != [] {
      var first, rest := Marked(fills[0], items[0]), MarkedItems(items[1..], fills[1..]);
      HoldsBoth(b, i, first, rest);
      MarkedRead(b, i, fills[0], items[0]);
      ItemsRead(b, i + |first|, items[1..], fills[1..]);
    }
  }

  lemma {:induction false} ItemsPrinted(b: seq<byte>, i: nat, items: seq<Item>, j: nat) returns (fills: seq<nat>)
    requires ItemsUpTo(b, i, items, j) && i <= |b|
    ensures |fills| == |items| && AllWellFormed(items) && i <= j <= |b|
    ensures b[i..j] == MarkedItems(items, fills)
    decreases |items|
  {
    hide Marked, WellFormed, ItemAt, EndingAt, ReadItem;
    if items == [] {
      fills := [];
    } else {
      var next := Next(b, i);
      MarkedPrinted(b, i);
      var rest := ItemsPrinted(b, next, items[1..], j);
      fills := [Body(b, i) - i - 2] + rest;
      assert fills[1..] == rest && b[i..j] == b[i..next] + b[next..j];
    }
  }

  // ---------- endings ----------

  lemma {:induction false} EndOccurs(b: seq<byte>, k: nat)
    requires k <= |b|
    ensures HasEoi(b, k) <==> ContainsEnd(b[k..])
    decreases |b| - k
  {
    if k + 1 < |b| {
      EndOccurs(b, k + 1);
      var s, t := b[k..], b[k + 1..];
      assert forall m | 0 <= m < |t| :: t[m] == s[m + 1];
      if ContainsEnd(t) {
        var m :| 0 <= m < |t| - 1 && t[m] == 0xFF && t[m + 1] == 0xD9;
        assert s[m + 1] == 0xFF && s[m + 2] == 0xD9;
      }
      if m :| 0 <= m < |s| - 1 && s[m] == 0xFF && s[m + 1] == 0xD9 && m > 0 {
        assert t[m - 1] == 0xFF && t[m] == 0xD9;
      }
    }
  }

  lemma ScanIsWellFormed(data: seq<byte>)
    ensures ScanFits(data, 0) <==> IsScan(data)
  {
    hide IsSegment, HasEoi, ContainsEnd;
    if ScanFits(data, 0) {
      var n := SegmentEnd(data, 0);
      assert data[0..n] == data[..n];
      SegmentIsWellFormed(data, 0, n);
      EndOccurs(data, n);
    }
    if IsScan(data) {
      var n: nat :| n <= |data| && IsSegment(data[..n]) && ContainsEnd(data[n..]);
      assert data[0..n] == data[..n];
      SegmentIsWellFormed(data, 0, n);
      EndOccurs(data, n);
    }
  }

  lemma EndingRead(b: seq<byte>, i: nat, fill: nat, ending: Ending)
    requires i <= |b| && IsEnding(b[i..], fill, ending)
    ensures EndingAt(b, i) && ReadEnding(b, i) == ending
  {
    hide Marked, ScanFits, IsScan;
    match ending {
      case EndOfImage =>
        var after :| b[i..] == Marked(fill, Item(0xD9, after));
        MarkerRead(b, i, fill, Item(0xD9, after));
      case Scan(data) =>
        MarkerRead(b, i, fill, Item(0xDA, data));
        assert b[Body(b, i)..] == data;
        ScanInTail(b, Body(b, i));
        ScanIsWellFormed(data);
    }
  }

  lemma EndingPrinted(b: seq<byte>, i: nat)
    requires EndingAt(b, i)
    ensures IsEnding(b[i..], Body(b, i) - i - 2, ReadEnding(b, i))
  {
    hide Marked, ScanFits, IsScan;
    MarkerPrinted(b, i, |b|);
    assert b[i..|b|] == b[i..] && b[Body(b, i)..|b|] == b[Body(b, i)..];
    if Code(b, i) == SOS {
      ScanInTail(b, Body(b, i));
      ScanIsWellFormed(b[Body(b, i)..]);
    }
  }

  lemma {:induction false} ReadUpTo(b: seq<byte>, i: nat) returns (j: nat)
    requires Readable(b, i)
    ensures ItemsUpTo(b, i, ItemsFrom(b, i), j) && EndingAt(b, j) && ReadEnding(b, j) == EndingFrom(b, i)
    decreases |b| - i
  {
    if EndingAt(b, i) {
      j := i;
    } else {
      j := ReadUpTo(b, Next(b, i));
      assert ([ReadItem(b, i)] + ItemsFrom(b, Next(b, i)))[1..] == ItemsFrom(b, Next(b, i));
    }
  }

  // ---------- the file ----------

  /** The start marker, the items with some fill bytes before each code, and the ending. */
  ghost predicate IsJpegFile(b: seq<byte>, items: seq<Item>, ending: Ending, fills: seq<nat>, fill: nat) {
    && |fills| == |items| && AllWellFormed(items)
    && var n := 2 + |MarkedItems(items, fills)|;
    && n <= |b| && b[..2] == [0xFF, 0xD8] && b[2..n] == MarkedItems(items, fills)
    && IsEnding(b[n..], fill, ending)
  }

  /**
   The reader accepts exactly these files and reads exactly these items and this ending; the
   rewriter refuses all others.
   */
  lemma ReadsIffJpegFile(b: seq<byte>, items: seq<Item>, ending: Ending)
    ensures IsJpeg(b) && ItemsFrom(b, 2) == items && EndingFrom(b, 2) == ending
            <==> exists fills, fill :: IsJpegFile(b, items, ending, fills, fill)
  {
    hide MarkedItems, AllWellFormed, IsEnding, EndingAt, Readable, ItemsFrom, EndingFrom, ItemsUpTo, ReadEnding;
    if IsJpeg(b) && ItemsFrom(b, 2) == items && EndingFrom(b, 2) == ending {
      var j := ReadUpTo(b, 2);
      var fills := ItemsPrinted(b, 2, items, j);
      EndingPrinted(b, j);
      assert IsJpegFile(b, items, ending, fills, Body(b, j) - j - 2);
    }
    forall fills, fill | IsJpegFile(b, items, ending, fills, fill)
      ensures IsJpeg(b) && ItemsFrom(b, 2) == items && EndingFrom(b, 2) == ending
    {
      FileRead(b, items, ending, fills, fill);
    }
  }

  lemma FileRead(b: seq<byte>, items: seq<Item>, ending: Ending, fills: seq<nat>, fill: nat)
    requires IsJpegFile(b, items, ending, fills, fill)
    ensures IsJpeg(b) && ItemsFrom(b, 2) == items && EndingFrom(b, 2) == ending
  {
    hide MarkedItems, AllWellFormed, IsEnding, EndingAt, Readable, ItemsFrom, EndingFrom, ItemsUpTo, ReadEnding;
    var n := 2 + |MarkedItems(items, fills)|;
    ItemsRead(b, 2, items, fills);
    EndingRead(b, n, fill, ending);
    ItemsThenEnding(b, 2, items, n);
    EndingLength(b, n);
    assert b[0] == b[..2][0] && b[1] == b[..2][1];
  }

  lemma EndingLength(b: seq<byte>, n: nat)
    requires EndingAt(b, n)
    ensures n + 2 <= |b|
  {
  }
}
