/**
 The fields of a WebP file as sections 2.5, 2.6 and 2.7 of RFC 9649 print them, and what the
 sniffer and the rewriters do with them.
 */
module WebpFields {
  import opened Arithmetic
  import opened Wrappers
  import opened Bytes
  import opened Selection
  import opened WebpContainer
  import opened WebpFlags
  import opened WebpMetadata
  import opened WebpSniffer

  // ---------- spellings ----------

  lemma CodesSpelled(fourcc: Tag)
    ensures fourcc == RIFF <==> fourcc.Name() == "RIFF"
    ensures fourcc == WEBP <==> fourcc.Name() == "WEBP"
    ensures fourcc == VP8X <==> fourcc.Name() == "VP8X"
    ensures fourcc == VP8 <==> fourcc.Name() == "VP8 "
    ensures fourcc == VP8L <==> fourcc.Name() == "VP8L"
    ensures fourcc == ALPH <==> fourcc.Name() == "ALPH"
    ensures fourcc == ANMF <==> fourcc.Name() == "ANMF"
    ensures fourcc == ICCP <==> fourcc.Name() == "ICCP"
    ensures fourcc == EXIF <==> fourcc.Name() == "EXIF"
    ensures fourcc == XMP <==> fourcc.Name() == "XMP "
  {
  }

  /** Bit `k` of a number is the last one of what is left without the `k` bits below it. */
  lemma {:induction false} BitAt(n: nat, high: nat, k: nat, low: nat)
    requires n == high * Pow2(k) + low && low < Pow2(k)
    ensures Bit(n, k) <==> high % 2 == 1
    decreases k
  {
    if k > 0 {
      var p := Pow2(k - 1);
      assert high * (2 * p) == 2 * (high * p);
      BitAt(n / 2, high, k - 1, low / 2);
    }
  }

  /** Profile 32, alpha 16, EXIF 8, XMP 4, animation 2. */
  lemma FlagsSpelled(b: byte)
    ensures HasFlag(b, IccFlag) <==> b as int / 32 % 2 == 1
    ensures HasFlag(b, AlphaFlag) <==> b as int / 16 % 2 == 1
    ensures HasFlag(b, ExifFlag) <==> b as int / 8 % 2 == 1
    ensures HasFlag(b, XmpFlag) <==> b as int / 4 % 2 == 1
    ensures HasFlag(b, AnimationFlag) <==> b as int / 2 % 2 == 1
  {
    assert Pow2(1) == 2 && Pow2(2) == 4 && Pow2(3) == 8 && Pow2(4) == 16 && Pow2(5) == 32;
    hide Bit;
    var n := b as int;
    BitAt(n, n / 32, 5, n % 32);
    BitAt(n, n / 16, 4, n % 16);
    BitAt(n, n / 8, 3, n % 8);
    BitAt(n, n / 4, 2, n % 4);
    BitAt(n, n / 2, 1, n % 2);
  }

  // ---------- printed headers ----------

  /** An extended header: flags, three reserved bytes, and the canvas's sides less one. */
  function ExtendedHeader(flags: byte, reserved: seq<byte>, width: nat, height: nat, rest: seq<byte>): seq<byte>
    requires 0 < width && 0 < height
  {
    [flags] + (reserved + (LeBytes(width - 1, 3) + (LeBytes(height - 1, 3) + rest)))
  }

  /** A lossy header: a frame tag, a start code, and two sides with two bits of scale each. */
  function LossyHeader(tag: seq<byte>, width: nat, across: nat, height: nat, down: nat, rest: seq<byte>): seq<byte> {
    tag + ([0x9D, 0x01, 0x2A] + (LeBytes(width + 16_384 * across, 2) + (LeBytes(height + 16_384 * down, 2) + rest)))
  }

  /** A lossless header: a signature, and 14, 14, 1 and 3 bits of sides less one, alpha and version. */
  function LosslessHeader(width: nat, height: nat, alpha: nat, version: nat, rest: seq<byte>): seq<byte>
    requires 0 < width && 0 < height
  {
    [0x2F] + (LeBytes(width - 1 + 16_384 * (height - 1) + 268_435_456 * alpha + 536_870_912 * version, 4) + rest)
  }

  lemma FieldAt(front: seq<byte>, n: nat, width: nat, rest: seq<byte>)
    requires n < Limit(width)
    ensures var data := front + (LeBytes(n, width) + rest);
            LeValue(data[|front|..|front| + width]) == n
  {
    ReadAfterWrite(n, width);
    assert (front + (LeBytes(n, width) + rest))[|front|..|front| + width] == LeBytes(n, width);
  }

  lemma ExtendedSniffs(flags: byte, reserved: seq<byte>, width: nat, height: nat, rest: seq<byte>)
    requires |reserved| == 3 && 0 < width <= 16_777_216 && 0 < height <= 16_777_216
    ensures SniffVp8x(ExtendedHeader(flags, reserved, width, height, rest))
            == Ok(Facts(width, height, if flags as int / 2 % 2 == 1 then 2 else 1, flags as int / 16 % 2 == 1))
  {
    var data := ExtendedHeader(flags, reserved, width, height, rest);
    var w, h := LeBytes(width - 1, 3), LeBytes(height - 1, 3);
    FlagsSpelled(flags);
    assert Limit(3) == 16_777_216;
    assert LeValue(data[4..7]) == width - 1 by {
      FieldAt([flags] + reserved, width - 1, 3, h + rest);
      assert data == ([flags] + reserved) + (w + (h + rest));
    }
    assert LeValue(data[7..10]) == height - 1 by {
      FieldAt([flags] + reserved + w, height - 1, 3, rest);
      assert data == ([flags] + reserved + w) + (h + rest);
    }
  }

  lemma LossySniffs(tag: seq<byte>, width: nat, across: nat, height: nat, down: nat, rest: seq<byte>)
    requires |tag| == 3 && width < 16_384 && height < 16_384 && across < 4 && down < 4
    ensures var data := LossyHeader(tag, width, across, height, down, rest);
            && SniffVp8(data) == Ok(Facts(width, height, 1, false))
            && Vp8Canvas(data) == Some(Canvas(width, height, false))
  {
    var data := LossyHeader(tag, width, across, height, down, rest);
    var front := tag + [0x9D, 0x01, 0x2A];
    var w, h := width + 16_384 * across, height + 16_384 * down;
    assert data == front + (LeBytes(w, 2) + (LeBytes(h, 2) + rest)) by {
      assert tag + ([0x9D, 0x01, 0x2A] + (LeBytes(w, 2) + (LeBytes(h, 2) + rest)))
             == tag + [0x9D, 0x01, 0x2A] + (LeBytes(w, 2) + (LeBytes(h, 2) + rest));
    }
    hide LossyHeader;
    assert data[3] == front[3] && data[4] == front[4] && data[5] == front[5];
    SidesAt(data, front, w, h, rest);
    assert w % 0x4000 == width && h % 0x4000 == height;
  }

  lemma SidesAt(data: seq<byte>, front: seq<byte>, w: nat, h: nat, rest: seq<byte>)
    requires |front| == 6 && w < 65_536 && h < 65_536
    requires data == front + (LeBytes(w, 2) + (LeBytes(h, 2) + rest))
    ensures |data| >= 10 && Le16At(data, 6) == w && Le16At(data, 8) == h
  {
    assert Limit(2) == 65_536;
    FieldAt(front, w, 2, LeBytes(h, 2) + rest);
    FieldAt(front + LeBytes(w, 2), h, 2, rest);
    assert data == (front + LeBytes(w, 2)) + (LeBytes(h, 2) + rest);
  }

  lemma LosslessSniffs(width: nat, height: nat, alpha: nat, version: nat, rest: seq<byte>)
    requires 0 < width <= 16_384 && 0 < height <= 16_384 && alpha < 2 && version < 8
    ensures var data := LosslessHeader(width, height, alpha, version, rest);
            && SniffVp8l(data) == Ok(Facts(width, height, 1, alpha == 1))
            && Vp8lCanvas(data) == Some(Canvas(width, height, alpha == 1))
  {
    var data := LosslessHeader(width, height, alpha, version, rest);
    var bits := width - 1 + 16_384 * (height - 1) + 268_435_456 * alpha + 536_870_912 * version;
    assert Limit(4) == 4_294_967_296;
    FieldAt([0x2F], bits, 4, rest);
    BitFields(width - 1, height - 1, alpha, version);
  }

  lemma BitFields(w: nat, h: nat, alpha: nat, version: nat)
    requires w < 16_384 && h < 16_384 && alpha < 2 && version < 8
    ensures var bits := w + 16_384 * h + 268_435_456 * alpha + 536_870_912 * version;
            && bits < 4_294_967_296 && bits % 0x4000 == w && bits / 0x4000 % 0x4000 == h
            && bits / 0x1000_0000 % 2 == alpha
  {
  }

  /** A header is refused exactly when it is too short or does not start as its kind does. */
  lemma RefusedHeaders(data: seq<byte>)
    ensures SniffVp8x(data).Err? <==> |data| < 10
    ensures SniffVp8(data).Err? <==> |data| < 10 || data[3..6] != [0x9D, 0x01, 0x2A]
    ensures SniffVp8l(data).Err? <==> |data| < 5 || data[0] != 0x2F
    ensures SniffVp8(data).Err? <==> Vp8Canvas(data).None?
    ensures SniffVp8l(data).Err? <==> Vp8lCanvas(data).None?
  {
    if |data| >= 10 {
      assert data[3..6] == [data[3], data[4], data[5]];
    }
  }

  // ---------- the file ----------

  predicate IsHeader(c: Chunk) {
    c.fourcc.Name() == "VP8X" || c.fourcc.Name() == "VP8 " || c.fourcc.Name() == "VP8L"
  }

  /** The first chunk with an image header is the one at `i`. */
  predicate HeaderAt(cs: seq<Chunk>, i: nat) {
    i < |cs| && IsHeader(cs[i]) && forall j | 0 <= j < i :: !IsHeader(cs[j])
  }

  predicate IsFrame(c: Chunk) {
    c.fourcc.Name() == "ANMF"
  }

  lemma {:induction false} FirstHeaderAt(cs: seq<Chunk>, i: nat)
    requires HeaderAt(cs, i)
    ensures FirstHeader(cs) == Some(cs[i])
  {
    CodesSpelled(cs[0].fourcc);
    if i > 0 {
      assert forall j | 0 <= j < |cs| - 1 :: cs[1..][j] == cs[j + 1];
      FirstHeaderAt(cs[1..], i - 1);
    }
  }

  lemma {:induction false} NoHeaderAt(cs: seq<Chunk>)
    requires forall i | 0 <= i < |cs| :: !IsHeader(cs[i])
    ensures FirstHeader(cs) == None
  {
    if cs != [] {
      CodesSpelled(cs[0].fourcc);
      NoHeaderAt(cs[1..]);
    }
  }

  lemma {:induction false} FramesSelected(cs: seq<Chunk>)
    ensures CountOf(cs, ANMF) == |Select(cs, IsFrame)|
  {
    if cs != [] {
      CodesSpelled(cs[0].fourcc);
      FramesSelected(cs[1..]);
    }
  }

  /** At least two, and otherwise the number of frame chunks as far as 32 bits count. */
  function AnimationFrames(cs: seq<Chunk>): nat {
    var n := |Select(cs, IsFrame)|;
    if n < 2 then 2 else if n > 4_294_967_295 then 4_294_967_295 else n
  }

  lemma SniffedFirst(b: seq<byte>, cs: seq<Chunk>, i: nat)
    requires ParseContainer(b) == Some(cs) && HeaderAt(cs, i)
    ensures IsImageHeader(cs[i].fourcc)
    ensures SniffHeader(cs[i]).Err? ==> Sniff(b) == SniffHeader(cs[i])
    ensures SniffHeader(cs[i]).Ok? ==>
              var facts := SniffHeader(cs[i]).value;
              Sniff(b) == Ok(facts.(frames := if facts.frames > 1 then AnimationFrames(cs) else facts.frames))
  {
    hide SniffHeader, Sniff, ExifFrom, FramesFrom, ParseContainer;
    SnifferMatchesParser(b);
    FirstHeaderAt(cs, i);
    FramesSelected(cs);
    CodesSpelled(cs[i].fourcc);
  }

  /**
   What the sniffer reports of a file whose first header chunk has one of the three printed
   forms: the width and the height in it; its own alpha bit, which a lossy header has not; and
   more than one frame only under an extended header with the animation bit.
   */
  lemma PrintedFileSniffs(b: seq<byte>, cs: seq<Chunk>, i: nat, flags: byte, front: seq<byte>, width: nat, height: nat,
                          alpha: nat, version: nat, across: nat, down: nat, rest: seq<byte>)
    requires ParseContainer(b) == Some(cs) && HeaderAt(cs, i) && |front| == 3 && 0 < width && 0 < height
    requires alpha < 2 && version < 8 && across < 4 && down < 4
    ensures cs[i].fourcc.Name() == "VP8X" && width <= 16_777_216 && height <= 16_777_216
            && cs[i].payload == ExtendedHeader(flags, front, width, height, rest) ==>
              Sniff(b) == Ok(Facts(width, height, if flags as int / 2 % 2 == 1 then AnimationFrames(cs) else 1,
                                   flags as int / 16 % 2 == 1))
    ensures cs[i].fourcc.Name() == "VP8 " && width < 16_384 && height < 16_384
            && cs[i].payload == LossyHeader(front, width, across, height, down, rest) ==>
              Sniff(b) == Ok(Facts(width, height, 1, false))
    ensures cs[i].fourcc.Name() == "VP8L" && width <= 16_384 && height <= 16_384
            && cs[i].payload == LosslessHeader(width, height, alpha, version, rest) ==>
              Sniff(b) == Ok(Facts(width, height, 1, alpha == 1))
  {
    hide Sniff, ParseContainer, ExtendedHeader, LossyHeader, LosslessHeader, SniffVp8, SniffVp8l, SniffVp8x, IsHeader,
      AnimationFrames;
    SniffedFirst(b, cs, i);
    CodesSpelled(cs[i].fourcc);
    if width <= 16_777_216 && height <= 16_777_216 {
      ExtendedSniffs(flags, front, width, height, rest);
    }
    if width < 16_384 && height < 16_384 {
      LossySniffs(front, width, across, height, down, rest);
    }
    if width <= 16_384 && height <= 16_384 {
      LosslessSniffs(width, height, alpha, version, rest);
    }
  }

  /** A file that parses is refused exactly when it has no header chunk, or the first one cannot be read. */
  lemma RefusedIffUnreadable(b: seq<byte>, cs: seq<Chunk>)
    requires ParseContainer(b) == Some(cs)
    ensures Sniff(b).Err? <==> forall i: nat | HeaderAt(cs, i) ::
              var data := cs[i].payload;
              match cs[i].fourcc.Name()[3]
              case 'X' => |data| < 10
              case ' ' => |data| < 10 || data[3..6] != [0x9D, 0x01, 0x2A]
              case _ => |data| < 5 || data[0] != 0x2F
  {
    hide Sniff, ParseContainer, SniffVp8, SniffVp8l, SniffVp8x, IsHeader;
    if i: nat :| HeaderAt(cs, i) {
      SniffedFirst(b, cs, i);
      CodesSpelled(cs[i].fourcc);
      RefusedHeaders(cs[i].payload);
      SameHeaderAt(cs, i);
    } else {
      NoneIsHeader(cs, |cs|);
      NoHeaderAt(cs);
      SnifferMatchesParser(b);
    }
  }

  lemma SameHeaderAt(cs: seq<Chunk>, i: nat)
    requires HeaderAt(cs, i)
    ensures forall j: nat | HeaderAt(cs, j) :: j == i
  {
  }

  lemma {:induction false} NoneIsHeader(cs: seq<Chunk>, n: nat)
    requires n <= |cs| && forall i: nat :: !HeaderAt(cs, i)
    ensures forall i | 0 <= i < n :: !IsHeader(cs[i])
  {
    if n > 0 {
      NoneIsHeader(cs, n - 1);
      assert !HeaderAt(cs, n - 1);
    }
  }

  /** A file without an answer fails to decode. */
  lemma FailsToDecode(b: seq<byte>)
    ensures Sniff(b).Ok? || Sniff(b) == Err(DecodeFailed)
  {
    HeaderFails(b, 12);
  }

  lemma {:induction false} HeaderFails(b: seq<byte>, offset: nat)
    ensures HeaderFrom(b, offset).Ok? || HeaderFrom(b, offset) == Err(DecodeFailed)
    decreases |b| - offset
  {
    hide IsImageHeader;
    if offset + 8 <= |b| && End(b, offset) <= |b| && !IsImageHeader(TagAt(b, offset)) {
      HeaderFails(b, Next(b, offset));
    }
  }
}
