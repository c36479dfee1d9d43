/**
 The GIF block stream: the sniffer's walk and the grammar it recognises (sections 15, 16, 20,
 22 and 23 of the GIF89a specification).
 */
module Gif {
  import opened Arithmetic
  import opened Wrappers
  import opened Layout
  import opened Bytes

  const TRAILER := 0x3B
  const EXTENSION := 0x21
  const IMAGE := 0x2C
  const GRAPHIC_CONTROL := 0xF9
  const HEADER_LENGTH := 13

  // ---------- the grammar ----------

  /** A data sub-block chain: runs of 1 to 255 bytes, ended by an empty one. */
  predicate ValidData(data: seq<seq<byte>>) {
    data == [] || (1 <= |data[0]| <= 255 && ValidData(data[1..]))
  }

  function PrintData(data: seq<seq<byte>>): seq<byte>
    requires ValidData(data)
  {
    if data == [] then [0] else [|data[0]|] + (data[0] + PrintData(data[1..]))
  }

  /** Three bytes for each colour that a packed field announces: none, or 2 up to 256 of them. */
  function ColourTable(packed: byte): nat {
    if packed < 0x80 then 0 else 3 * [2, 4, 8, 16, 32, 64, 128, 256][packed % 8]
  }

  datatype Block =
    | Extension(kind: byte, data: seq<seq<byte>>)
    | Image(place: seq<byte>, packed: byte, table: seq<byte>, codeSize: byte, data: seq<seq<byte>>)

  predicate ValidBlock(block: Block) {
    && ValidData(block.data)
    && (block.Image? ==> |block.place| == 8 && |block.table| == ColourTable(block.packed))
  }

  /** The bytes of a block before its data. */
  function PrintHead(block: Block): seq<byte> {
    if block.Extension? then [0x21, block.kind]
    else [0x2C] + block.place + [block.packed] + block.table + [block.codeSize]
  }

  predicate ValidBlocks(blocks: seq<Block>) {
    blocks == [] || (ValidBlock(blocks[0]) && ValidBlocks(blocks[1..]))
  }

  function PrintBlock(block: Block): seq<byte>
    requires ValidBlock(block)
  {
    PrintHead(block) + PrintData(block.data)
  }

  function PrintBlocks(blocks: seq<Block>): seq<byte>
    requires ValidBlocks(blocks)
  {
    if blocks == [] then [] else PrintBlock(blocks[0]) + PrintBlocks(blocks[1..])
  }

  /** A graphic control extension whose packed field sets the transparency bit. */
  predicate IsTransparent(block: Block) {
    && block.Extension? && block.kind == 0xF9
    && block.data != [] && block.data[0] != [] && block.data[0][0] as int % 2 == 1
  }

  function Images(blocks: seq<Block>): nat {
    if blocks == [] then 0 else (if blocks[0].Image? then 1 else 0) + Images(blocks[1..])
  }

  predicate AnyTransparent(blocks: seq<Block>) {
    blocks != [] && (IsTransparent(blocks[0]) || AnyTransparent(blocks[1..]))
  }

  /** Where the walk may stop: at the trailer, or where the file is cut off in a block's first bytes. */
  predicate IsEnding(e: seq<byte>) {
    || e == [] || e[0] == 0x3B || e == [0x21]
    || (e[0] == 0x2C && |e| < 10)
  }

  /** An image cut off in its descriptor is still counted. */
  function CutImages(e: seq<byte>): nat {
    if e != [] && e[0] == 0x2C then 1 else 0
  }

  // ---------- the walk ----------

  /** The bytes of a colour table, as the code shifts them out of the packed field. */
  function TableSize(packed: byte): nat {
    if packed as int < 0x80 then 0 else 3 * Pow2(packed as int % 8 + 1)
  }

  lemma TablesAgree(packed: byte)
    ensures TableSize(packed) == ColourTable(packed)
  {
    var k := packed as int % 8;
    assert Pow2(1) == 2 && Pow2(2) == 4 && Pow2(3) == 8 && Pow2(4) == 16;
    assert Pow2(5) == 32 && Pow2(6) == 64 && Pow2(7) == 128 && Pow2(8) == 256;
    assert k == 0 || k == 1 || k == 2 || k == 3 || k == 4 || k == 5 || k == 6 || k == 7;
  }

  datatype Facts = Facts(images: nat, alpha: bool)

  /** The position after the chain that starts at `i`; none when the file ends inside it. */
  function DataEnd(b: seq<byte>, i: nat): (r: Option<nat>)
    ensures r.Some? ==> i < r.value <= |b|
    decreases |b| - i
  {
    if i >= |b| then None
    else if b[i] == 0 then Some(i + 1)
    else DataEnd(b, i + 1 + b[i] as int)
  }

  /** The transparency bit of the extension whose label is at `i + 1`. */
  predicate DeclaresAlpha(b: seq<byte>, i: nat) {
    && i + 4 < |b| && b[i + 1] as int == GRAPHIC_CONTROL
    && b[i + 2] as int >= 1 && b[i + 3] as int % 2 == 1
  }

  /** Where the data of the image whose descriptor starts at `i` begins. */
  function ImageData(b: seq<byte>, i: nat): nat
    requires i + 10 <= |b|
  {
    i + 10 + TableSize(b[i + 9]) + 1
  }

  function WalkFrom(b: seq<byte>, i: nat): Result<Facts>
    decreases |b| - i
  {
    if i >= |b| || b[i] as int == TRAILER then Ok(Facts(0, false))
    else if b[i] as int == EXTENSION then
      if i + 1 >= |b| then Ok(Facts(0, false))
      else
        var next := DataEnd(b, i + 2);
        if next.None? then Err(DecodeFailed)
        else
          var rest := WalkFrom(b, next.value);
          if rest.Err? then rest else Ok(rest.value.(alpha := rest.value.alpha || DeclaresAlpha(b, i)))
    else if b[i] as int == IMAGE then
      if i + 10 > |b| then Ok(Facts(1, false))
      else
        var next := DataEnd(b, ImageData(b, i));
        if next.None? then Err(DecodeFailed)
        else
          var rest := WalkFrom(b, next.value);
          if rest.Err? then rest else Ok(rest.value.(images := rest.value.images + 1))
    else Err(DecodeFailed)
  }

  datatype GifMetadata = GifMetadata(width: nat, height: nat, frameCount: nat, hasAlpha: bool)

  function MetadataOf(b: seq<byte>, facts: Facts): GifMetadata
    requires |b| >= HEADER_LENGTH
  {
    GifMetadata(Le16At(b, 6), Le16At(b, 8), Saturated(facts.images), facts.alpha)
  }

  function Sniff(b: seq<byte>): Result<GifMetadata> {
    if |b| < HEADER_LENGTH then Err(DecodeFailed)
    else
      var facts := WalkFrom(b, HEADER_LENGTH + TableSize(b[10]));
      if facts.Err? || facts.value.images == 0 then Err(DecodeFailed) else Ok(MetadataOf(b, facts.value))
  }

  // ---------- sub-block chains ----------

  lemma {:induction false} DataPrinted(b: seq<byte>, i: nat, data: seq<seq<byte>>)
    requires ValidData(data) && Holds(b, i, PrintData(data))
    ensures DataEnd(b, i) == Some(i + |PrintData(data)|)
    decreases |data|
  {
    HoldsAt(b, i, PrintData(data), 0);
    if data != [] {
      var rest := PrintData(data[1..]);
      hide Holds;
      HoldsBoth(b, i, [|data[0]|], data[0] + rest);
      HoldsBoth(b, i + 1, data[0], rest);
      DataPrinted(b, i + 1 + |data[0]|, data[1..]);
    }
  }

  lemma {:induction false} DataExplained(b: seq<byte>, i: nat) returns (data: seq<seq<byte>>)
    requires DataEnd(b, i).Some?
    ensures ValidData(data) && Holds(b, i, PrintData(data)) && i + |PrintData(data)| == DataEnd(b, i).value
    decreases |b| - i
  {
    HoldsSlice(b, i, i + 1);
    if b[i] == 0 {
      data := [];
    } else {
      var next := i + 1 + b[i] as int;
      var rest := DataExplained(b, next);
      var first := b[i + 1..next];
      data := [first] + rest;
      assert data[1..] == rest;
      HoldsSlice(b, i + 1, next);
      hide Holds;
      HoldsJoined(b, i + 1, first, PrintData(rest));
      HoldsJoined(b, i, [|first|], first + PrintData(rest));
    }
  }

  // ---------- one block ----------

  lemma DataNotEmpty(data: seq<seq<byte>>)
    requires ValidData(data)
    ensures |PrintData(data)| >= 1
  {
  }

  lemma FirstByte(b: seq<byte>, i: nat, data: seq<seq<byte>>)
    requires ValidData(data) && Holds(b, i, PrintData(data))
    ensures i < |b| && b[i] as int == if data == [] then 0 else |data[0]|
    ensures data != [] ==> i + 2 < |b| && b[i + 1] == data[0][0]
  {
    HoldsAt(b, i, PrintData(data), 0);
    if data != [] {
      DataNotEmpty(data[1..]);
      HoldsAt(b, i, PrintData(data), 1);
    }
  }

  lemma ExtensionPrinted(b: seq<byte>, i: nat, block: Block)
    requires block.Extension? && ValidBlock(block) && Holds(b, i, PrintBlock(block))
    ensures i + 1 < |b| && b[i] as int == EXTENSION
    ensures DataEnd(b, i + 2) == Some(i + |PrintBlock(block)|)
    ensures DeclaresAlpha(b, i) <==> IsTransparent(block)
  {
    hide DataEnd, PrintData, ValidData;
    HoldsBoth(b, i, PrintHead(block), PrintData(block.data));
    HoldsAt(b, i, PrintHead(block), 0);
    HoldsAt(b, i, PrintHead(block), 1);
    FirstByte(b, i + 2, block.data);
    DataPrinted(b, i + 2, block.data);
    if block.data != [] {
      DataSizes(block.data);
    }
  }

  lemma DataSizes(data: seq<seq<byte>>)
    requires ValidData(data) && data != []
    ensures 1 <= |data[0]| <= 255
  {
  }

  lemma ImageHead(block: Block)
    requires block.Image? && ValidBlock(block)
    ensures var head := PrintHead(block);
            && |head| == 10 + TableSize(block.packed) + 1
            && head[0] as int == IMAGE && head[9] == block.packed
  {
    hide TableSize, ColourTable, ValidData;
    TablesAgree(block.packed);
  }

  lemma ImagePrinted(b: seq<byte>, i: nat, block: Block)
    requires block.Image? && ValidBlock(block) && Holds(b, i, PrintBlock(block))
    ensures i + 10 <= |b| && b[i] as int == IMAGE
    ensures DataEnd(b, ImageData(b, i)) == Some(i + |PrintBlock(block)|)
  {
    hide DataEnd, PrintData, ValidData, TableSize, ColourTable, PrintHead, Holds;
    var head := PrintHead(block);
    ImageHead(block);
    HoldsBoth(b, i, head, PrintData(block.data));
    HoldsAt(b, i, head, 0);
    HoldsAt(b, i, head, 9);
    DataPrinted(b, i + |head|, block.data);
  }

  // ---------- the block stream ----------

  lemma EndingPrinted(b: seq<byte>, i: nat, ending: seq<byte>)
    requires IsEnding(ending) && Holds(b, i, ending) && i + |ending| == |b|
    ensures WalkFrom(b, i) == Ok(Facts(CutImages(ending), false))
  {
    hide DataEnd;
    if ending != [] {
      HoldsAt(b, i, ending, 0);
    }
  }

  /** The walk counts a printed block and goes on after it. */
  lemma BlockStep(b: seq<byte>, i: nat, block: Block)
    requires ValidBlock(block) && Holds(b, i, PrintBlock(block))
    ensures var rest := WalkFrom(b, i + |PrintBlock(block)|);
            WalkFrom(b, i) ==
            if rest.Err? then rest
            else Ok(Facts(rest.value.images + (if block.Image? then 1 else 0),
                          rest.value.alpha || IsTransparent(block)))
  {
    hide DataEnd, PrintBlock, ValidBlock, ImageData, DeclaresAlpha;
    if block.Extension? {
      ExtensionPrinted(b, i, block);
    } else {
      ImagePrinted(b, i, block);
    }
  }

  lemma {:induction false} BlocksPrinted(b: seq<byte>, i: nat, blocks: seq<Block>, ending: seq<byte>)
    requires ValidBlocks(blocks) && IsEnding(ending)
    requires Holds(b, i, PrintBlocks(blocks) + ending) && i + |PrintBlocks(blocks) + ending| == |b|
    ensures WalkFrom(b, i) == Ok(Facts(Images(blocks) + CutImages(ending), AnyTransparent(blocks)))
    decreases |blocks|
  {
    hide WalkFrom, PrintBlock, ValidBlock, IsTransparent, IsEnding, Holds;
    if blocks == [] {
      assert [] + ending == ending;
      EndingPrinted(b, i, ending);
    } else {
      var first, rest := PrintBlock(blocks[0]), PrintBlocks(blocks[1..]);
      assert PrintBlocks(blocks) + ending == first + (rest + ending);
      HoldsBoth(b, i, first, rest + ending);
      BlockStep(b, i, blocks[0]);
      BlocksPrinted(b, i + |first|, blocks[1..], ending);
    }
  }

  lemma ExtensionExplained(b: seq<byte>, i: nat, end: nat) returns (block: Block)
    requires i + 1 < |b| && b[i] as int == EXTENSION && DataEnd(b, i + 2) == Some(end)
    ensures ValidBlock(block) && block.Extension? && Holds(b, i, PrintBlock(block)) && i + |PrintBlock(block)| == end
  {
    var data := DataExplained(b, i + 2);
    block := Extension(b[i + 1], data);
    assert b[i..i + 2] == PrintHead(block);
    HoldsSlice(b, i, i + 2);
    hide Holds, PrintData;
    HoldsJoined(b, i, PrintHead(block), PrintData(data));
  }

  lemma ImageExplained(b: seq<byte>, i: nat, end: nat) returns (block: Block)
    requires i + 10 <= |b| && b[i] as int == IMAGE && DataEnd(b, ImageData(b, i)) == Some(end)
    ensures ValidBlock(block) && block.Image? && Holds(b, i, PrintBlock(block)) && i + |PrintBlock(block)| == end
  {
    hide TableSize, ColourTable, DataEnd, PrintData, PrintHead, ValidData, Holds;
    var k := ImageData(b, i);
    var data := DataExplained(b, k);
    block := Image(b[i + 1..i + 9], b[i + 9], b[i + 10..k - 1], b[k - 1], data);
    TablesAgree(block.packed);
    HeadExplained(b, i, k, block);
    HoldsJoined(b, i, PrintHead(block), PrintData(data));
  }

  lemma HeadExplained(b: seq<byte>, i: nat, k: nat, block: Block)
    requires i + 11 <= k <= |b| && b[i] as int == IMAGE && block.Image?
    requires block.place == b[i + 1..i + 9] && block.packed == b[i + 9] && block.table == b[i + 10..k - 1]
    requires block.codeSize == b[k - 1]
    ensures Holds(b, i, PrintHead(block)) && i + |PrintHead(block)| == k
  {
    assert b[i..k] == b[i..i + 1] + b[i + 1..i + 9] + b[i + 9..i + 10] + b[i + 10..k - 1] + b[k - 1..k];
    assert b[i..i + 1] == [IMAGE] && b[i + 9..i + 10] == [b[i + 9]] && b[k - 1..k] == [b[k - 1]];
  }

  lemma PrependBlock(block: Block, blocks: seq<Block>)
    requires ValidBlock(block) && ValidBlocks(blocks)
    ensures ValidBlocks([block] + blocks) && PrintBlocks([block] + blocks) == PrintBlock(block) + PrintBlocks(blocks)
  {
    hide ValidBlock, PrintBlock;
    assert ([block] + blocks)[1..] == blocks;
  }

  /** Where a successful walk stops, or the block it goes over first. */
  lemma NextBlock(b: seq<byte>, i: nat) returns (block: Option<Block>)
    requires i <= |b| && WalkFrom(b, i).Ok?
    ensures block.None? ==> IsEnding(b[i..])
    ensures block.Some? ==>
              && ValidBlock(block.value) && Holds(b, i, PrintBlock(block.value)) && PrintBlock(block.value) != []
              && WalkFrom(b, i + |PrintBlock(block.value)|).Ok?
  {
    hide DataEnd, PrintBlock, ValidBlock, ImageData, DeclaresAlpha;
    block := None;
    if i < |b| && b[i] as int == EXTENSION {
      if i + 1 < |b| {
        var found := ExtensionExplained(b, i, DataEnd(b, i + 2).value);
        block := Some(found);
      } else {
        assert b[i..] == [EXTENSION];
      }
    } else if i + 10 <= |b| && b[i] as int == IMAGE {
      var found := ImageExplained(b, i, DataEnd(b, ImageData(b, i)).value);
      block := Some(found);
    }
  }

  /** Whatever a successful walk went over is a list of blocks and an ending. */
  lemma {:induction false} BlocksExplained(b: seq<byte>, i: nat) returns (blocks: seq<Block>, ending: seq<byte>)
    requires i <= |b| && WalkFrom(b, i).Ok?
    ensures ValidBlocks(blocks) && IsEnding(ending)
    ensures Holds(b, i, PrintBlocks(blocks) + ending) && i + |PrintBlocks(blocks) + ending| == |b|
    decreases |b| - i
  {
    hide WalkFrom, PrintBlock, ValidBlock, IsEnding;
    var block := NextBlock(b, i);
    if block.None? {
      blocks, ending := [], b[i..];
      assert [] + ending == ending;
    } else {
      var first := PrintBlock(block.value);
      var rest;
      rest, ending := BlocksExplained(b, i + |first|);
      blocks := [block.value] + rest;
      PrependBlock(block.value, rest);
      hide Holds, ValidBlocks, PrintBlocks;
      HoldsJoined(b, i, first, PrintBlocks(rest) + ending);
      assert first + (PrintBlocks(rest) + ending) == PrintBlocks(blocks) + ending;
    }
  }

  // ---------- the whole file ----------

  /** The blocks and the ending that a file holds after its screen descriptor and global table. */
  ghost predicate Consists(b: seq<byte>, blocks: seq<Block>, ending: seq<byte>) {
    && |b| >= 13 && ValidBlocks(blocks) && IsEnding(ending)
    && var i := 13 + ColourTable(b[10]);
       Holds(b, i, PrintBlocks(blocks) + ending) && i + |PrintBlocks(blocks) + ending| == |b|
  }

  /** After six bytes of signature the file prints this width and height. */
  predicate PrintsSize(b: seq<byte>, width: nat, height: nat) {
    width <= 0xFFFF && height <= 0xFFFF && Holds(b, 6, LeBytes(width, 2) + LeBytes(height, 2))
  }

  lemma SizeRead(b: seq<byte>, width: nat, height: nat)
    requires |b| >= 13
    ensures PrintsSize(b, width, height) <==> Le16At(b, 6) == width && Le16At(b, 8) == height
  {
    assert Limit(2) == 0x1_0000;
    WriteAfterReadLe(b[6..8]);
    WriteAfterReadLe(b[8..10]);
    HoldsJoined(b, 6, b[6..8], b[8..10]);
    if PrintsSize(b, width, height) {
      HoldsBoth(b, 6, LeBytes(width, 2), LeBytes(height, 2));
      ReadAfterWrite(width, 2);
      ReadAfterWrite(height, 2);
    }
  }

  /** What is reported of a file with these blocks and this ending. */
  predicate Reports(b: seq<byte>, blocks: seq<Block>, ending: seq<byte>, meta: GifMetadata) {
    var images := Images(blocks) + CutImages(ending);
    && images > 0 && PrintsSize(b, meta.width, meta.height)
    && meta.frameCount == (if images > 0xFFFF_FFFF then 0xFFFF_FFFF else images)
    && meta.hasAlpha == AnyTransparent(blocks)
  }

  lemma ReportRead(b: seq<byte>, blocks: seq<Block>, ending: seq<byte>, meta: GifMetadata)
    requires |b| >= 13 && Images(blocks) + CutImages(ending) > 0
    ensures Reports(b, blocks, ending, meta)
            <==> meta == MetadataOf(b, Facts(Images(blocks) + CutImages(ending), AnyTransparent(blocks)))
  {
    hide PrintsSize;
    SizeRead(b, meta.width, meta.height);
  }

  /**
   The sniffer is exact on the grammar: it answers if and only if the file consists of blocks
   and an ending with at least one image, and then it reports the screen size, the number of
   image blocks up to saturation, and whether some graphic control extension is transparent,
   whatever the colour tables and the sub-blocks hold.
   */
  lemma SniffIffBlocks(b: seq<byte>, meta: GifMetadata)
    ensures Sniff(b) == Ok(meta) <==>
            exists blocks, ending :: Consists(b, blocks, ending) && Reports(b, blocks, ending, meta)
  {
    hide WalkFrom, TableSize, ColourTable, ValidBlocks, IsEnding, Holds, PrintBlocks, Images, AnyTransparent,
      CutImages, MetadataOf, PrintsSize;
    if Sniff(b) == Ok(meta) {
      var i := HEADER_LENGTH + TableSize(b[10]);
      TablesAgree(b[10]);
      TableInside(b, i);
      var blocks, ending := BlocksExplained(b, i);
      BlocksPrinted(b, i, blocks, ending);
      assert Consists(b, blocks, ending);
      ReportRead(b, blocks, ending, meta);
    }
    forall blocks, ending | Consists(b, blocks, ending) && Reports(b, blocks, ending, meta)
      ensures Sniff(b) == Ok(meta)
    {
      TablesAgree(b[10]);
      BlocksPrinted(b, HEADER_LENGTH + TableSize(b[10]), blocks, ending);
      ReportRead(b, blocks, ending, meta);
    }
  }

  /** A file without an answer fails to decode. */
  lemma FailsToDecode(b: seq<byte>)
    ensures Sniff(b).Ok? || Sniff(b) == Err(DecodeFailed)
  {
    hide WalkFrom, TableSize;
    if |b| >= HEADER_LENGTH {
      WalkFails(b, HEADER_LENGTH + TableSize(b[10]));
    }
  }

  lemma {:induction false} WalkFails(b: seq<byte>, i: nat)
    ensures WalkFrom(b, i).Ok? || WalkFrom(b, i) == Err(DecodeFailed)
    decreases |b| - i
  {
    hide TableSize, DeclaresAlpha;
    if i + 1 < |b| && b[i] as int == EXTENSION && DataEnd(b, i + 2).Some? {
      WalkFails(b, DataEnd(b, i + 2).value);
    } else if i + 10 <= |b| && b[i] as int == IMAGE && DataEnd(b, ImageData(b, i)).Some? {
      WalkFails(b, DataEnd(b, ImageData(b, i)).value);
    }
  }

  lemma TableInside(b: seq<byte>, i: nat)
    requires WalkFrom(b, i).Ok? && WalkFrom(b, i).value.images > 0
    ensures i < |b|
  {
  }

  // ---------- the loops ----------

  method SkipGifSubBlocks(b: seq<byte>, start: nat) returns (r: Result<nat>)
    ensures r == if DataEnd(b, start).Some? then Ok(DataEnd(b, start).value) else Err(DecodeFailed)
  {
    var offset := start;
    while offset < |b|
      invariant DataEnd(b, offset) == DataEnd(b, start)
      decreases |b| - offset
    {
      var length := b[offset] as int;
      offset := offset + 1;
      if length == 0 {
        return Ok(offset);
      }
      offset := offset + length;
    }
    return Err(DecodeFailed);
  }

  /** What the walk reports once the blocks still ahead are added to those counted so far. */
  ghost function Total(frames: nat, alpha: bool, ahead: Result<Facts>): Result<Facts> {
    if ahead.Err? then ahead else Ok(Facts(Saturated(frames + ahead.value.images), alpha || ahead.value.alpha))
  }

  method SniffGif(b: seq<byte>) returns (r: Result<GifMetadata>)
    ensures r == Sniff(b)
  {
    hide DataEnd, TableSize;
    if |b| < HEADER_LENGTH {
      return Err(DecodeFailed);
    }
    var start: nat := HEADER_LENGTH + TableSize(b[10]);
    var frames: nat := 0;
    var offset, alpha := start, false;
    while offset < |b| && b[offset] as int != TRAILER
      invariant frames <= U32_MAX && Total(frames, alpha, WalkFrom(b, offset)) == Total(0, false, WalkFrom(b, start))
      decreases |b| - offset
    {
      var next;
      if b[offset] as int == EXTENSION {
        if offset + 1 >= |b| {
          break;
        }
        if DeclaresAlpha(b, offset) {
          alpha := true;
        }
        next := SkipGifSubBlocks(b, offset + 2);
      } else if b[offset] as int == IMAGE {
        frames := Saturated(frames + 1);
        if offset + 10 > |b| {
          break;
        }
        next := SkipGifSubBlocks(b, ImageData(b, offset));
      } else {
        return Err(DecodeFailed);
      }
      if next.Err? {
        return Err(DecodeFailed);
      }
      offset := next.value;
    }
    if frames == 0 {
      return Err(DecodeFailed);
    }
    return Ok(GifMetadata(Le16At(b, 6), Le16At(b, 8), frames, alpha));
  }
}
