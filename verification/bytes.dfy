/**
 Bytes, fixed-width integers in both byte orders, four-byte tags, and flag bits.

 A `u32` or `u16` is a natural number here. Writing one with `Le32` or `Be32` keeps its low
 32 bits, which is what the `as u32` cast in truss followed by `to_le_bytes` does.
 */
module Bytes {
  type byte = b: int | 0 <= b < 256

  const U16_MAX := 0xFFFF
  const U32_MAX := 0xFFFF_FFFF
  const U32_LIMIT := 0x1_0000_0000

  /** What counting up to `n` with `saturating_add` on a `u32` arrives at. */
  function Saturated(n: nat): nat {
    if n > U32_MAX then U32_MAX else n
  }

  // ---------- integers ----------

  /** The number of values `width` bytes can hold. */
  function Limit(width: nat): nat {
    if width == 0 then 1 else 0x100 * Limit(width - 1)
  }

  /** The little-endian value of some bytes. */
  function LeValue(s: seq<byte>): (n: nat)
    ensures n < Limit(|s|)
  {
    if s == [] then 0 else s[0] as int + 0x100 * LeValue(s[1..])
  }

  /** The big-endian value of some bytes. */
  function BeValue(s: seq<byte>): (n: nat)
    ensures n < Limit(|s|)
  {
    if s == [] then 0 else 0x100 * BeValue(s[..|s| - 1]) + s[|s| - 1] as int
  }

  /** The low `width` bytes of a number, least significant first. */
  function LeBytes(n: nat, width: nat): (s: seq<byte>)
    ensures |s| == width
    decreases width, n
  {
    if width == 0 then [] else [n % 0x100] + LeBytes(n / 0x100, width - 1)
  }

  /** The low `width` bytes of a number, most significant first. */
  function BeBytes(n: nat, width: nat): (s: seq<byte>)
    ensures |s| == width
    decreases width, n
  {
    if width == 0 then [] else BeBytes(n / 0x100, width - 1) + [n % 0x100]
  }

  /** Writing a number that fits and reading it back is the identity, in either byte order. */
  lemma {:induction false} ReadAfterWrite(n: nat, width: nat)
    requires n < Limit(width)
    ensures LeValue(LeBytes(n, width)) == n
    ensures BeValue(BeBytes(n, width)) == n
  {
    if width != 0 {
      ReadAfterWrite(n / 0x100, width - 1);
      assert LeBytes(n, width)[1..] == LeBytes(n / 0x100, width - 1);
      assert BeBytes(n, width)[..width - 1] == BeBytes(n / 0x100, width - 1);
    }
  }

  lemma HighAndLow(high: nat, low: nat)
    requires low < 0x100
    ensures (0x100 * high + low) % 0x100 == low && (0x100 * high + low) / 0x100 == high
  {
  }

  /** Reading a number and writing it back restores the bytes, in either byte order. */
  lemma {:induction false} WriteAfterReadLe(s: seq<byte>)
    ensures LeBytes(LeValue(s), |s|) == s
  {
    if s != [] {
      var low, high := s[0] as int, LeValue(s[1..]);
      WriteAfterReadLe(s[1..]);
      HighAndLow(high, low);
    }
  }

  lemma {:induction false} WriteAfterReadBe(s: seq<byte>)
    ensures BeBytes(BeValue(s), |s|) == s
  {
    if s != [] {
      var high, low := BeValue(s[..|s| - 1]), s[|s| - 1] as int;
      WriteAfterReadBe(s[..|s| - 1]);
      HighAndLow(high, low);
      assert s == s[..|s| - 1] + [s[|s| - 1]];
    }
  }

  function Le32(n: nat): (s: seq<byte>)
    ensures |s| == 4
  {
    LeBytes(n, 4)
  }

  function Be32(n: nat): (s: seq<byte>)
    ensures |s| == 4
  {
    BeBytes(n, 4)
  }

  function Be16(n: nat): (s: seq<byte>)
    ensures |s| == 2
  {
    BeBytes(n, 2)
  }

  function Le16At(b: seq<byte>, i: nat): (n: nat)
    requires i + 2 <= |b|
    ensures n <= U16_MAX
  {
    assert Limit(2) == 0x1_0000;
    LeValue(b[i..i + 2])
  }

  function Le24At(b: seq<byte>, i: nat): (n: nat)
    requires i + 3 <= |b|
    ensures n < 0x100_0000
  {
    assert Limit(3) == 0x100_0000;
    LeValue(b[i..i + 3])
  }

  function Le32At(b: seq<byte>, i: nat): (n: nat)
    requires i + 4 <= |b|
    ensures n <= U32_MAX
  {
    assert Limit(4) == 0x1_0000_0000;
    LeValue(b[i..i + 4])
  }

  function Be16At(b: seq<byte>, i: nat): (n: nat)
    requires i + 2 <= |b|
    ensures n <= U16_MAX
  {
    assert Limit(2) == 0x1_0000;
    BeValue(b[i..i + 2])
  }

  function Be32At(b: seq<byte>, i: nat): (n: nat)
    requires i + 4 <= |b|
    ensures n <= U32_MAX
  {
    assert Limit(4) == 0x1_0000_0000;
    BeValue(b[i..i + 4])
  }

  // ---------- tags ----------

  /** A RIFF four-character code or a PNG chunk type, a `[u8; 4]` in truss. */
  datatype Tag = Tag(a: byte, b: byte, c: byte, d: byte) {
    function Bytes(): (s: seq<byte>)
      ensures |s| == 4
    {
      [a, b, c, d]
    }

    /** The four letters. */
    function Name(): string {
      [a as char, b as char, c as char, d as char]
    }
  }

  function TagAt(b: seq<byte>, i: nat): Tag
    requires i + 4 <= |b|
  {
    Tag(b[i], b[i + 1], b[i + 2], b[i + 3])
  }

  // ---------- prefixes ----------

  /** The bytes of a text whose characters are ASCII. */
  function Ascii(text: string): (s: seq<byte>)
    requires forall i | 0 <= i < |text| :: (text[i] as int) < 0x80
    ensures |s| == |text|
  {
    seq(|text|, i requires 0 <= i < |text| => text[i] as int)
  }

  const EXIF_PREFIX: seq<byte> := [0x45, 0x78, 0x69, 0x66, 0, 0]

  predicate StartsWith(b: seq<byte>, prefix: seq<byte>) {
    prefix <= b
  }

  /** Drops the JPEG APP1 prefix a writer may have carried into another container. */
  function StripExifPrefix(payload: seq<byte>): seq<byte> {
    if StartsWith(payload, EXIF_PREFIX) then payload[|EXIF_PREFIX|..] else payload
  }

  /** The name and two zero bytes are dropped from the front, once, and nothing else is. */
  lemma PrefixDropped(payload: seq<byte>, rest: seq<byte>)
    ensures payload == Ascii("Exif") + [0, 0] + rest ==> StripExifPrefix(payload) == rest
    ensures |payload| < 6 || payload[..6] != Ascii("Exif") + [0, 0] ==> StripExifPrefix(payload) == payload
  {
    assert EXIF_PREFIX == Ascii("Exif") + [0, 0];
    if StartsWith(payload, EXIF_PREFIX) {
      assert payload[..6] == EXIF_PREFIX;
    }
  }

  // ---------- growable buffers ----------

  /** A `Vec<u8>` that a function of truss takes by mutable reference. */
  class ByteVec {
    var data: seq<byte>

    constructor ()
      ensures data == []
    {
      data := [];
    }

    method ExtendFromSlice(s: seq<byte>)
      modifies this
      ensures data == old(data) + s
    {
      data := data + s;
    }

    method Push(b: byte)
      modifies this
      ensures data == old(data) + [b]
    {
      data := data + [b];
    }
  }
}
