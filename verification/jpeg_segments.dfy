/**
 The marker stream of a JPEG file (sections B.1.1.2 and B.1.1.4 of ITU-T T.81), and rewriting
 it without touching the coded picture.

 After the start-of-image marker a file is a list of items and an ending: either the
 end-of-image marker, or a start-of-scan marker with everything that follows it.
 */
module JpegSegments {
  import opened Wrappers
  import opened Bytes
  import opened Layout
  import opened MetadataPolicies

  const EOI: byte := 0xD9
  const SOS: byte := 0xDA
  const SOI: seq<byte> := [0xFF, 0xD8]

  predicate Standalone(code: byte) {
    code == 0x01 || 0xD0 <= code <= 0xD7
  }

  /** A marker code and the bytes that belong to it: none, or a length field and a payload. */
  datatype Item = Item(code: byte, tail: seq<byte>)

  datatype Ending = EndOfImage | Scan(data: seq<byte>)

  // ---------- printing ----------

  function EncodeItem(item: Item): seq<byte> {
    [0xFF, item.code] + item.tail
  }

  function EncodeItems(items: seq<Item>): seq<byte> {
    if items == [] then [] else EncodeItem(items[0]) + EncodeItems(items[1..])
  }

  function EncodeEnding(ending: Ending): seq<byte> {
    match ending
    case EndOfImage => [0xFF, EOI]
    case Scan(data) => [0xFF, SOS] + data
  }

  predicate ValidItem(item: Item) {
    && item.code != 0xFF && item.code != EOI && item.code != SOS
    && if Standalone(item.code) then item.tail == []
       else SegmentFits(item.tail, 0) && SegmentEnd(item.tail, 0) == |item.tail|
  }

  function Payload(item: Item): seq<byte> {
    if |item.tail| < 2 then [] else item.tail[2..]
  }

  predicate ValidItems(items: seq<Item>) {
    forall i | 0 <= i < |items| :: ValidItem(items[i])
  }

  predicate ValidEnding(ending: Ending) {
    ending.Scan? ==> ScanFits(ending.data, 0)
  }

  // ---------- reading ----------

  /** The first position from `i` on that does not hold a fill byte. */
  function SkipFill(b: seq<byte>, i: nat): (m: nat)
    ensures i <= m
    ensures i <= |b| ==> m <= |b|
    decreases |b| - i
  {
    if i < |b| && b[i] == 0xFF then SkipFill(b, i + 1) else i
  }

  /** A length field stands at `i` and what it measures is inside the file. */
  predicate SegmentFits(b: seq<byte>, i: nat) {
    i + 2 <= |b| && Be16At(b, i) >= 2 && i + Be16At(b, i) <= |b|
  }

  function SegmentEnd(b: seq<byte>, i: nat): nat
    requires SegmentFits(b, i)
  {
    i + Be16At(b, i)
  }

  /** An end-of-image marker stands somewhere from `k` on. */
  predicate HasEoi(b: seq<byte>, k: nat)
    decreases |b| - k
  {
    k + 1 < |b| && ((b[k] == 0xFF && b[k + 1] == EOI) || HasEoi(b, k + 1))
  }

  /** After a start-of-scan marker: a header that fits, then data in which an EOI occurs. */
  predicate ScanFits(b: seq<byte>, j: nat) {
    SegmentFits(b, j) && HasEoi(b, SegmentEnd(b, j))
  }

  /** A marker starts at `i`, its code after any fill bytes. */
  predicate MarkerAt(b: seq<byte>, i: nat) {
    i + 1 < |b| && b[i] == 0xFF && SkipFill(b, i + 1) < |b|
  }

  function Code(b: seq<byte>, i: nat): byte
    requires MarkerAt(b, i)
  {
    b[SkipFill(b, i + 1)]
  }

  /** The position just past the marker code. */
  function Body(b: seq<byte>, i: nat): (j: nat)
    requires MarkerAt(b, i)
    ensures i + 2 <= j <= |b|
  {
    SkipFill(b, i + 1) + 1
  }

  predicate ItemAt(b: seq<byte>, i: nat) {
    && MarkerAt(b, i)
    && Code(b, i) != EOI && Code(b, i) != SOS
    && (Standalone(Code(b, i)) || SegmentFits(b, Body(b, i)))
  }

  function Next(b: seq<byte>, i: nat): (j: nat)
    requires ItemAt(b, i)
    ensures i + 2 <= j <= |b|
  {
    if Standalone(Code(b, i)) then Body(b, i) else SegmentEnd(b, Body(b, i))
  }

  function ReadItem(b: seq<byte>, i: nat): Item
    requires ItemAt(b, i)
  {
    Item(Code(b, i), b[Body(b, i)..Next(b, i)])
  }

  predicate EndingAt(b: seq<byte>, i: nat) {
    && MarkerAt(b, i)
    && (Code(b, i) == EOI || (Code(b, i) == SOS && ScanFits(b, Body(b, i))))
  }

  function ReadEnding(b: seq<byte>, i: nat): Ending
    requires EndingAt(b, i)
  {
    if Code(b, i) == EOI then EndOfImage else Scan(b[Body(b, i)..])
  }

  predicate Readable(b: seq<byte>, i: nat)
    decreases |b| - i
  {
    EndingAt(b, i) || (ItemAt(b, i) && Readable(b, Next(b, i)))
  }

  function ItemsFrom(b: seq<byte>, i: nat): seq<Item>
    requires Readable(b, i)
    decreases |b| - i
  {
    if EndingAt(b, i) then [] else [ReadItem(b, i)] + ItemsFrom(b, Next(b, i))
  }

  function EndingFrom(b: seq<byte>, i: nat): Ending
    requires Readable(b, i)
    decreases |b| - i
  {
    if EndingAt(b, i) then ReadEnding(b, i) else EndingFrom(b, Next(b, i))
  }

  // ---------- the reader inverts the printer ----------

  lemma {:induction false} EoiInTail(b: seq<byte>, j: nat, k: nat)
    requires j <= k && j <= |b|
    ensures HasEoi(b, k) <==> HasEoi(b[j..], k - j)
    decreases |b| - k
  {
    if k + 1 < |b| {
      EoiInTail(b, j, k + 1);
    }
  }

  lemma ScanInTail(b: seq<byte>, j: nat)
    requires j <= |b|
    ensures ScanFits(b, j) <==> ScanFits(b[j..], 0)
  {
    if j + 2 <= |b| {
      assert b[j..][0..2] == b[j..j + 2];
      EoiInTail(b, j, j + Be16At(b, j));
    }
  }

  lemma EncodedMarker(b: seq<byte>, i: nat, code: byte, rest: seq<byte>)
    requires code != 0xFF
    requires Holds(b, i, [0xFF, code] + rest)
    ensures MarkerAt(b, i) && Code(b, i) == code && Body(b, i) == i + 2
    ensures Holds(b, i + 2, rest)
  {
    HoldsBoth(b, i, [0xFF, code], rest);
    assert b[i..i + 2][0] == 0xFF && b[i..i + 2][1] == code;
    assert SkipFill(b, i + 1) == i + 1;
  }

  lemma EncodedItem(b: seq<byte>, i: nat, item: Item)
    requires ValidItem(item)
    requires Holds(b, i, EncodeItem(item))
    ensures ItemAt(b, i) && !EndingAt(b, i) && ReadItem(b, i) == item && Next(b, i) == i + |EncodeItem(item)|
  {
    EncodedMarker(b, i, item.code, item.tail);
    if !Standalone(item.code) {
      assert b[i + 2..i + 4] == item.tail[0..2];
    }
  }

  lemma EncodedEnding(b: seq<byte>, i: nat, ending: Ending)
    requires ValidEnding(ending)
    requires Holds(b, i, EncodeEnding(ending))
    requires ending.Scan? ==> |b| == i + |EncodeEnding(ending)|
    ensures EndingAt(b, i) && ReadEnding(b, i) == ending
  {
    match ending {
      case EndOfImage =>
        assert [0xFF, EOI] + [] == [0xFF, EOI];
        EncodedMarker(b, i, EOI, []);
      case Scan(data) =>
        EncodedMarker(b, i, SOS, data);
        assert b[i + 2..] == data;
        ScanInTail(b, i + 2);
    }
  }

  /** `b` holds these items, and no ending, from `i` up to `j`. */
  predicate ItemsUpTo(b: seq<byte>, i: nat, items: seq<Item>, j: nat)
    decreases |items|
  {
    if items == [] then i == j
    else
      && ItemAt(b, i) && !EndingAt(b, i) && ReadItem(b, i) == items[0]
      && ItemsUpTo(b, Next(b, i), items[1..], j)
  }

  lemma {:induction false} ItemsThenEnding(b: seq<byte>, i: nat, items: seq<Item>, j: nat)
    requires ItemsUpTo(b, i, items, j) && EndingAt(b, j)
    ensures Readable(b, i) && ItemsFrom(b, i) == items && EndingFrom(b, i) == ReadEnding(b, j)
    decreases |items|
  {
    if items != [] {
      ItemsThenEnding(b, Next(b, i), items[1..], j);
      assert [items[0]] + items[1..] == items;
    }
  }

  /** Printed items are read back. */
  lemma {:induction false} ReadEncoded(b: seq<byte>, i: nat, items: seq<Item>)
    requires ValidItems(items)
    requires Holds(b, i, EncodeItems(items))
    ensures ItemsUpTo(b, i, items, i + |EncodeItems(items)|)
    decreases |items|
  {
    hide EncodeItem, ReadItem, ItemAt, EndingAt, ValidItem, Next;
    if items != [] {
      var left, right := EncodeItem(items[0]), EncodeItems(items[1..]);
      var middle := i + |left|;
      assert Holds(b, i, left) && Holds(b, middle, right) by {
        assert EncodeItems(items) == left + right;
        HoldsBoth(b, i, left, right);
      }
      assert ItemsUpTo(b, middle, items[1..], i + |EncodeItems(items)|) by {
        ReadEncoded(b, middle, items[1..]);
      }
      assert ItemAt(b, i) && !EndingAt(b, i) && ReadItem(b, i) == items[0] && Next(b, i) == middle by {
        EncodedItem(b, i, items[0]);
      }
    }
  }

  lemma ReadItemIsValid(b: seq<byte>, i: nat)
    requires ItemAt(b, i)
    ensures ValidItem(ReadItem(b, i))
  {
    SkipFillStops(b, i + 1);
    if !Standalone(Code(b, i)) {
      SubSlice(b, Body(b, i), Next(b, i), 0, 2);
    }
  }

  lemma {:induction false} ReadIsValid(b: seq<byte>, i: nat)
    requires Readable(b, i)
    ensures ValidItems(ItemsFrom(b, i)) && ValidEnding(EndingFrom(b, i))
    decreases |b| - i
  {
    if EndingAt(b, i) {
      ScanInTail(b, Body(b, i));
    } else {
      ReadIsValid(b, Next(b, i));
      ReadItemIsValid(b, i);
    }
  }

  lemma {:induction false} SkipFillStops(b: seq<byte>, i: nat)
    requires SkipFill(b, i) < |b|
    ensures b[SkipFill(b, i)] != 0xFF
    decreases |b| - i
  {
    if i < |b| && b[i] == 0xFF {
      SkipFillStops(b, i + 1);
    }
  }

  // ---------- the metadata policy ----------

  /** `ICC_PROFILE` and its terminator. */
  const ICC_PREFIX: seq<byte> := [0x49, 0x43, 0x43, 0x5F, 0x50, 0x52, 0x4F, 0x46, 0x49, 0x4C, 0x45, 0]

  predicate ShouldKeep(code: byte, payload: seq<byte>, policy: MetadataPolicy) {
    if code == 0xE0 || code == 0xEE then true
    else if 0xE1 <= code <= 0xEF || code == 0xFE then
      match policy
      case KeepAll => true
      case PreserveIcc => code == 0xE2 && StartsWith(payload, ICC_PREFIX)
      case PreserveExif => code == 0xE1 && StartsWith(payload, EXIF_PREFIX)
      case StripAll => false
    else true
  }

  predicate Keeps(item: Item, policy: MetadataPolicy) {
    Standalone(item.code) || ShouldKeep(item.code, Payload(item), policy)
  }

  function Kept(items: seq<Item>, policy: MetadataPolicy): seq<Item> {
    if items == [] then []
    else if Keeps(items[0], policy) then [items[0]] + Kept(items[1..], policy)
    else Kept(items[1..], policy)
  }

  predicate IsJpeg(b: seq<byte>) {
    |b| >= 4 && b[0] == 0xFF && b[1] == 0xD8 && Readable(b, 2)
  }

  function Printed(items: seq<Item>, ending: Ending): seq<byte> {
    SOI + (EncodeItems(items) + EncodeEnding(ending))
  }

  function Optimized(b: seq<byte>, policy: MetadataPolicy): Result<seq<byte>> {
    if IsJpeg(b) then Ok(Printed(Kept(ItemsFrom(b, 2), policy), EndingFrom(b, 2))) else Err(InvalidInput)
  }

  // ---------- the rewriter ----------

  method JpegSegmentEnd(bytes: seq<byte>, index: nat) returns (r: Result<nat>)
    ensures r == if SegmentFits(bytes, index) then Ok(SegmentEnd(bytes, index)) else Err(InvalidInput)
  {
    if index + 2 > |bytes| {
      return Err(InvalidInput);
    }
    var length := Be16At(bytes, index);
    if length < 2 {
      return Err(InvalidInput);
    }
    var end := index + length;
    if end > |bytes| {
      return Err(InvalidInput);
    }
    return Ok(end);
  }

  method ContainsEoi(bytes: seq<byte>, from: nat) returns (found: bool)
    ensures found == HasEoi(bytes, from)
  {
    var k := from;
    while k + 1 < |bytes|
      invariant HasEoi(bytes, k) <==> HasEoi(bytes, from)
      decreases |bytes| - k
    {
      if bytes[k] == 0xFF && bytes[k + 1] == EOI {
        return true;
      }
      k := k + 1;
    }
    return false;
  }

  /** What is left to write from a position on. */
  function KeptFrom(b: seq<byte>, i: nat, policy: MetadataPolicy): seq<byte>
    requires Readable(b, i)
  {
    EncodeItems(Kept(ItemsFrom(b, i), policy)) + EncodeEnding(EndingFrom(b, i))
  }

  lemma KeptStep(b: seq<byte>, i: nat, policy: MetadataPolicy, done: seq<byte>)
    requires Readable(b, i) && !EndingAt(b, i)
    ensures var item := ReadItem(b, i);
            done + KeptFrom(b, i, policy)
            == (done + if Keeps(item, policy) then EncodeItem(item) else []) + KeptFrom(b, Next(b, i), policy)
  {
    var item, rest, ending := ReadItem(b, i), ItemsFrom(b, Next(b, i)), EncodeEnding(EndingFrom(b, i));
    var kept := Kept(rest, policy);
    assert ([item] + rest)[1..] == rest;
    assert ([item] + kept)[1..] == kept;
    var head := if Keeps(item, policy) then EncodeItem(item) else [];
    assert EncodeItems(Kept(ItemsFrom(b, i), policy)) == head + EncodeItems(kept);
    Regroup(head, EncodeItems(kept), ending);
    Regroup(done, head, EncodeItems(kept) + ending);
  }

  lemma KeptEnd(b: seq<byte>, i: nat, policy: MetadataPolicy, done: seq<byte>)
    requires EndingAt(b, i)
    ensures done + KeptFrom(b, i, policy) == done + EncodeEnding(ReadEnding(b, i))
  {
    assert [] + EncodeEnding(ReadEnding(b, i)) == EncodeEnding(ReadEnding(b, i));
  }

  /** The scan branch: the marker, its header, and all that follows, if an EOI is in there. */
  method CopyScan(bytes: seq<byte>, body: nat) returns (r: Result<seq<byte>>)
    requires body <= |bytes|
    ensures r == if ScanFits(bytes, body) then Ok(EncodeEnding(Scan(bytes[body..]))) else Err(InvalidInput)
  {
    var segmentEnd := JpegSegmentEnd(bytes, body);
    if segmentEnd.Err? {
      return Err(InvalidInput);
    }
    var end := segmentEnd.value;
    var eoi := ContainsEoi(bytes, end);
    if !eoi {
      return Err(InvalidInput);
    }
    assert bytes[body..end] + bytes[end..] == bytes[body..];
    return Ok([0xFF, SOS] + (bytes[body..end] + bytes[end..]));
  }

  /** The segment branch: the marker and its segment when the policy keeps it. */
  method CopySegment(bytes: seq<byte>, marker: byte, body: nat, policy: MetadataPolicy)
    returns (r: Result<nat>, copied: seq<byte>)
    ensures r == if SegmentFits(bytes, body) then Ok(SegmentEnd(bytes, body)) else Err(InvalidInput)
    ensures r.Ok? ==>
              var item := Item(marker, bytes[body..r.value]);
              copied == if ShouldKeep(marker, Payload(item), policy) then EncodeItem(item) else []
  {
    copied := [];
    r := JpegSegmentEnd(bytes, body);
    if r.Ok? {
      var payload := bytes[body + 2..r.value];
      assert bytes[body..r.value][2..] == payload;
      if ShouldKeep(marker, payload, policy) {
        copied := [0xFF, marker] + bytes[body..r.value];
      }
    }
  }

  /** With `output` written and position `i` reached, the loop will end in `goal`. */
  ghost predicate Pending(b: seq<byte>, i: nat, policy: MetadataPolicy, output: seq<byte>, goal: Result<seq<byte>>) {
    goal == if Readable(b, i) then Ok(output + KeptFrom(b, i, policy)) else Err(InvalidInput)
  }

  lemma PendingItem(b: seq<byte>, i: nat, policy: MetadataPolicy, output: seq<byte>, copied: seq<byte>,
                    goal: Result<seq<byte>>)
    requires Pending(b, i, policy, output, goal)
    requires ItemAt(b, i) && !EndingAt(b, i)
    requires copied == if Keeps(ReadItem(b, i), policy) then EncodeItem(ReadItem(b, i)) else []
    ensures Pending(b, Next(b, i), policy, output + copied, goal)
  {
    if Readable(b, i) {
      KeptStep(b, i, policy, output);
    }
  }

  lemma PendingEnd(b: seq<byte>, i: nat, policy: MetadataPolicy, output: seq<byte>, goal: Result<seq<byte>>)
    requires Pending(b, i, policy, output, goal)
    ensures EndingAt(b, i) ==> goal == Ok(output + EncodeEnding(ReadEnding(b, i)))
    ensures !EndingAt(b, i) && !ItemAt(b, i) ==> goal == Err(InvalidInput)
  {
    if EndingAt(b, i) {
      KeptEnd(b, i, policy, output);
    }
  }

  method OptimizeJpegBytesLosslessly(bytes: seq<byte>, policy: MetadataPolicy) returns (r: Result<seq<byte>>)
    ensures r == Optimized(bytes, policy)
  {
    if |bytes| < 4 || bytes[0] != 0xFF || bytes[1] != 0xD8 {
      return Err(InvalidInput);
    }
    var output := SOI;
    var index := 2;
    ghost var goal := Optimized(bytes, policy);
    while index + 1 < |bytes|
      invariant Pending(bytes, index, policy, output, goal)
      decreases |bytes| - index
    {
      var step := NextPiece(bytes, index, policy);
      match step {
        case Refuse =>
          PendingEnd(bytes, index, policy, output, goal);
          return Err(InvalidInput);
        case Finish(last) =>
          PendingEnd(bytes, index, policy, output, goal);
          return Ok(output + last);
        case Continue(copied, next) =>
          PendingItem(bytes, index, policy, output, copied, goal);
          output := output + copied;
          index := next;
      }
    }
    PendingEnd(bytes, index, policy, output, goal);
    return Err(InvalidInput);
  }

  /** What one turn of the loop decides: stop, write the ending, or write a piece and go on. */
  datatype Piece = Refuse | Finish(last: seq<byte>) | Continue(copied: seq<byte>, next: nat)

  /** One turn of the loop: the marker at `index`, read and copied as the policy says. */
  method NextPiece(bytes: seq<byte>, index: nat, policy: MetadataPolicy) returns (piece: Piece)
    requires index + 1 < |bytes|
    ensures piece.Refuse? ==> !EndingAt(bytes, index) && !ItemAt(bytes, index)
    ensures piece.Finish? ==> EndingAt(bytes, index) && piece.last == EncodeEnding(ReadEnding(bytes, index))
    ensures piece.Continue? ==>
              && !EndingAt(bytes, index) && ItemAt(bytes, index) && piece.next == Next(bytes, index)
              && var item := ReadItem(bytes, index);
              piece.copied == if Keeps(item, policy) then EncodeItem(item) else []
  {
    if bytes[index] != 0xFF {
      return Refuse;
    }
    var markerIndex := FindMarker(bytes, index + 1);
    if markerIndex >= |bytes| {
      return Refuse;
    }
    var marker := bytes[markerIndex];
    var body := markerIndex + 1;
    if marker == EOI {
      return Finish([0xFF, marker]);
    }
    if marker == SOS {
      var scan := CopyScan(bytes, body);
      return if scan.Err? then Refuse else Finish(scan.value);
    }
    if Standalone(marker) {
      assert [0xFF, marker] + bytes[body..body] == [0xFF, marker];
      return Continue([0xFF, marker], body);
    }
    var end, copied := CopySegment(bytes, marker, body, policy);
    return if end.Err? then Refuse else Continue(copied, end.value);
  }

  /** Steps over fill bytes. */
  method FindMarker(bytes: seq<byte>, start: nat) returns (markerIndex: nat)
    requires start <= |bytes|
    ensures markerIndex == SkipFill(bytes, start)
  {
    markerIndex := start;
    while markerIndex < |bytes| && bytes[markerIndex] == 0xFF
      invariant start <= markerIndex <= |bytes|
      invariant SkipFill(bytes, markerIndex) == SkipFill(bytes, start)
    {
      markerIndex := markerIndex + 1;
    }
  }

  // ---------- what rewriting does ----------

  lemma {:induction false} KeptIsValid(items: seq<Item>, policy: MetadataPolicy)
    requires ValidItems(items)
    ensures ValidItems(Kept(items, policy))
    ensures forall i | 0 <= i < |Kept(items, policy)| :: Keeps(Kept(items, policy)[i], policy)
  {
    if items != [] {
      KeptIsValid(items[1..], policy);
    }
  }

  lemma {:induction false} KeptTwice(items: seq<Item>, policy: MetadataPolicy, next: MetadataPolicy)
    requires next == policy || next == StripAll || policy == KeepAll
    ensures Kept(Kept(items, policy), next) == Kept(items, next)
  {
    if items != [] {
      KeptTwice(items[1..], policy, next);
      if Keeps(items[0], policy) {
        assert ([items[0]] + Kept(items[1..], policy))[1..] == Kept(items[1..], policy);
      }
    }
  }

  lemma AfterSoi(body: seq<byte>)
    ensures Holds(SOI + body, 2, body)
  {
    assert (SOI + body)[2..] == body;
  }

  /** A printed file is a JPEG and reads back as what was printed. */
  lemma ReadPrinted(items: seq<Item>, ending: Ending)
    requires ValidItems(items) && ValidEnding(ending)
    ensures var out := Printed(items, ending);
            IsJpeg(out) && ItemsFrom(out, 2) == items && EndingFrom(out, 2) == ending
  {
    hide ValidEnding, EndingAt, ReadEnding, EncodeItems, ItemsUpTo, Readable, ItemsFrom, EndingFrom;
    var left, right := EncodeItems(items), EncodeEnding(ending);
    var out, end := SOI + (left + right), 2 + |left|;
    assert Holds(out, 2, left) && Holds(out, end, right) by {
      AfterSoi(left + right);
      HoldsBoth(out, 2, left, right);
    }
    assert EndingAt(out, end) && ReadEnding(out, end) == ending by {
      EncodedEnding(out, end, ending);
    }
    assert ItemsUpTo(out, 2, items, end) by {
      ReadEncoded(out, 2, items);
    }
    ItemsThenEnding(out, 2, items, end);
  }

  /**
   The rewritten file reads back as the items the policy keeps, in order and with identical
   payloads, and the same ending: everything from the first start of scan on is untouched.
   */
  lemma OptimizedReads(b: seq<byte>, policy: MetadataPolicy)
    requires Optimized(b, policy).Ok?
    ensures var out := Optimized(b, policy).value;
            && IsJpeg(b) && IsJpeg(out)
            && ItemsFrom(out, 2) == Kept(ItemsFrom(b, 2), policy)
            && EndingFrom(out, 2) == EndingFrom(b, 2)
  {
    var items, ending := Kept(ItemsFrom(b, 2), policy), EndingFrom(b, 2);
    assert ValidItems(items) && ValidEnding(ending) by {
      ReadIsValid(b, 2);
      KeptIsValid(ItemsFrom(b, 2), policy);
    }
    ReadPrinted(items, ending);
  }

  /**
   Rewriting again changes nothing more, rewriting first under a policy that keeps everything
   changes nothing, and stripping everything absorbs any policy before it.
   */
  lemma OptimizedAgain(b: seq<byte>, policy: MetadataPolicy, next: MetadataPolicy)
    requires Optimized(b, policy).Ok?
    requires next == policy || next == StripAll || policy == KeepAll
    ensures Optimized(Optimized(b, policy).value, next) == Optimized(b, next)
  {
    OptimizedReads(b, policy);
    KeptTwice(ItemsFrom(b, 2), policy, next);
  }

  // ---------- where every byte goes ----------

  /** The fill bytes before marker codes, up to the ending. */
  function Fill(b: seq<byte>, i: nat): nat
    requires Readable(b, i)
    decreases |b| - i
  {
    Body(b, i) - i - 2 + if EndingAt(b, i) then 0 else Fill(b, Next(b, i))
  }

  /** The bytes after an end-of-image marker. */
  function Trailing(b: seq<byte>, i: nat): nat
    requires Readable(b, i)
    decreases |b| - i
  {
    if !EndingAt(b, i) then Trailing(b, Next(b, i))
    else if Code(b, i) == EOI then |b| - Body(b, i)
    else 0
  }

  /** The size of the segments a policy drops. */
  function Dropped(items: seq<Item>, policy: MetadataPolicy): nat {
    if items == [] then 0
    else (if Keeps(items[0], policy) then 0 else |EncodeItem(items[0])|) + Dropped(items[1..], policy)
  }

  lemma ItemSpan(b: seq<byte>, i: nat)
    requires ItemAt(b, i)
    ensures Next(b, i) == Body(b, i) - 2 + |EncodeItem(ReadItem(b, i))|
    ensures Body(b, i) == i + 2 ==> EncodeItem(ReadItem(b, i)) == b[i..Next(b, i)]
  {
    if Body(b, i) == i + 2 {
      assert b[i..i + 2] == [0xFF, Code(b, i)];
      assert b[i..i + 2] + b[i + 2..Next(b, i)] == b[i..Next(b, i)];
    }
  }

  lemma EndingSpan(b: seq<byte>, i: nat)
    requires EndingAt(b, i)
    ensures |b| == i + |EncodeEnding(ReadEnding(b, i))| + Fill(b, i) + Trailing(b, i)
    ensures Fill(b, i) == 0 && Trailing(b, i) == 0 ==> EncodeEnding(ReadEnding(b, i)) == b[i..]
  {
    if Code(b, i) == SOS && Fill(b, i) == 0 {
      assert b[i..] == [0xFF, SOS] + b[i + 2..];
    }
  }

  lemma KeptHead(b: seq<byte>, i: nat, policy: MetadataPolicy)
    requires Readable(b, i) && !EndingAt(b, i)
    ensures var item := ReadItem(b, i);
            KeptFrom(b, i, policy)
            == (if Keeps(item, policy) then EncodeItem(item) else []) + KeptFrom(b, Next(b, i), policy)
  {
    var item := ReadItem(b, i);
    var head := if Keeps(item, policy) then EncodeItem(item) else [];
    KeptStep(b, i, policy, []);
    assert [] + KeptFrom(b, i, policy) == KeptFrom(b, i, policy) && [] + head == head;
  }

  lemma DroppedHead(item: Item, rest: seq<Item>, policy: MetadataPolicy)
    ensures Dropped([item] + rest, policy)
            == (if Keeps(item, policy) then 0 else |EncodeItem(item)|) + Dropped(rest, policy)
  {
    assert ([item] + rest)[1..] == rest;
  }

  /** What the rewrite leaves out from a position on. */
  function Spare(b: seq<byte>, i: nat, policy: MetadataPolicy): nat
    requires Readable(b, i)
  {
    Fill(b, i) + Dropped(ItemsFrom(b, i), policy) + Trailing(b, i)
  }

  lemma SpareStep(b: seq<byte>, i: nat, policy: MetadataPolicy)
    requires Readable(b, i) && !EndingAt(b, i)
    ensures var item := ReadItem(b, i);
            Spare(b, i, policy) == (Body(b, i) - i - 2)
                                   + (if Keeps(item, policy) then 0 else |EncodeItem(item)|)
                                   + Spare(b, Next(b, i), policy)
  {
    DroppedHead(ReadItem(b, i), ItemsFrom(b, Next(b, i)), policy);
  }

  lemma AccountedStep(b: seq<byte>, i: nat, policy: MetadataPolicy)
    requires Readable(b, i) && !EndingAt(b, i)
    ensures |KeptFrom(b, i, policy)| + Spare(b, i, policy)
            == Next(b, i) - i + |KeptFrom(b, Next(b, i), policy)| + Spare(b, Next(b, i), policy)
  {
    SpareStep(b, i, policy);
    ItemSpan(b, i);
    KeptHead(b, i, policy);
  }

  lemma KeptAtEnd(b: seq<byte>, i: nat, policy: MetadataPolicy)
    requires EndingAt(b, i)
    ensures KeptFrom(b, i, policy) == EncodeEnding(ReadEnding(b, i))
    ensures Spare(b, i, policy) == Fill(b, i) + Trailing(b, i)
  {
    assert [] + EncodeEnding(ReadEnding(b, i)) == EncodeEnding(ReadEnding(b, i));
  }

  lemma {:induction false} Accounted(b: seq<byte>, i: nat, policy: MetadataPolicy)
    requires Readable(b, i)
    ensures |b| == i + |KeptFrom(b, i, policy)| + Spare(b, i, policy)
    decreases |b| - i
  {
    if EndingAt(b, i) {
      KeptAtEnd(b, i, policy);
      EndingSpan(b, i);
    } else {
      Accounted(b, Next(b, i), policy);
      AccountedStep(b, i, policy);
    }
  }

  lemma UnsparedStep(b: seq<byte>, i: nat, policy: MetadataPolicy)
    requires Readable(b, i) && !EndingAt(b, i) && Spare(b, i, policy) == 0
    ensures Spare(b, Next(b, i), policy) == 0
    ensures KeptFrom(b, i, policy) == b[i..Next(b, i)] + KeptFrom(b, Next(b, i), policy)
  {
    SpareStep(b, i, policy);
    ItemSpan(b, i);
    KeptHead(b, i, policy);
  }

  lemma {:induction false} Unspared(b: seq<byte>, i: nat, policy: MetadataPolicy)
    requires Readable(b, i) && Spare(b, i, policy) == 0
    ensures KeptFrom(b, i, policy) == b[i..]
    decreases |b| - i
  {
    if EndingAt(b, i) {
      KeptAtEnd(b, i, policy);
      EndingSpan(b, i);
    } else {
      var next := Next(b, i);
      var kept := KeptFrom(b, i, policy);
      assert kept == b[i..next] + b[next..] by {
        UnsparedStep(b, i, policy);
        Unspared(b, next, policy);
      }
      JoinTail(b, i, next);
    }
  }

  /**
   Every byte is accounted for: what the rewrite leaves out is fill bytes, the segments the
   policy drops, and bytes after an end-of-image marker. So the result is never longer, and it
   is the input itself exactly when there is nothing of the three.
   */
  lemma OptimizedConservation(b: seq<byte>, policy: MetadataPolicy)
    requires Optimized(b, policy).Ok?
    ensures IsJpeg(b)
    ensures var out, spare := Optimized(b, policy).value, Spare(b, 2, policy);
            && |b| == |out| + spare
            && (out == b <==> spare == 0)
  {
    Accounted(b, 2, policy);
    if Spare(b, 2, policy) == 0 {
      Unspared(b, 2, policy);
      assert b == SOI + b[2..];
    }
  }

  lemma OptimizedNeverGrows(b: seq<byte>, policy: MetadataPolicy)
    requires Optimized(b, policy).Ok?
    ensures |Optimized(b, policy).value| <= |b|
  {
    OptimizedConservation(b, policy);
  }
}
