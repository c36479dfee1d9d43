/**
 The CRC-32 of a PNG chunk (section 5.5 of the W3C PNG Specification, Second Edition).

 A register is the 32 bits of a `u32`, least significant first. One step of the computation
 is a linear bijection on registers. Everything below follows from that: equal registers stay
 equal, different ones stay different, and four consecutive bytes are exactly as wide as the
 register.
 */
module PngCrc {
  import opened Arithmetic
  import opened Bytes

  // ---------- registers ----------

  type Register = r: seq<bool> | |r| == 32 witness seq(32, _ => false)

  function Bits(n: nat, width: nat): (s: seq<bool>)
    ensures |s| == width
    decreases width, n
  {
    if width == 0 then [] else [n % 2 == 1] + Bits(n / 2, width - 1)
  }

  /** The number a register holds. */
  function Value(s: seq<bool>): nat {
    if s == [] then 0 else (if s[0] then 1 else 0) + 2 * Value(s[1..])
  }

  function Low(s: seq<bool>): Register
    requires |s| <= 32
  {
    s + seq(32 - |s|, _ => false)
  }

  function Xor(a: Register, b: Register): Register {
    seq(32, i requires 0 <= i < 32 => a[i] != b[i])
  }

  function ShiftRight(a: Register): Register {
    a[1..] + [false]
  }

  const POLYNOMIAL: Register := Bits(0xEDB8_8320, 32)
  const ONES: Register := Bits(0xFFFF_FFFF, 32)

  // ---------- the computation ----------

  function Step(crc: Register): Register {
    if crc[0] then Xor(ShiftRight(crc), POLYNOMIAL) else ShiftRight(crc)
  }

  function Steps(crc: Register, n: nat): Register
    decreases n, crc
  {
    if n == 0 then crc else Steps(Step(crc), n - 1)
  }

  function FeedByte(crc: Register, b: byte): Register {
    Steps(Xor(crc, Low(Bits(b, 8))), 8)
  }

  function Feed(crc: Register, data: seq<byte>): Register
    decreases |data|
  {
    if data == [] then crc else Feed(FeedByte(crc, data[0]), data[1..])
  }

  function Crc(data: seq<byte>): Register {
    Xor(Feed(ONES, data), ONES)
  }

  /** The loop over the message, and over the bits of each byte. */
  method PngCrc32(data: seq<byte>) returns (crc: Register)
    ensures crc == Crc(data)
  {
    crc := ONES;
    for i := 0 to |data|
      invariant Feed(crc, data[i..]) == Feed(ONES, data)
    {
      assert data[i..][1..] == data[i + 1..];
      crc := UpdateCrc(crc, data[i]);
    }
    crc := Xor(crc, ONES);
  }

  /** The inner loop: the byte enters the register, and its eight bits are worked off. */
  method UpdateCrc(before: Register, b: byte) returns (crc: Register)
    ensures crc == FeedByte(before, b)
  {
    hide Bits, Low, Xor, ShiftRight;
    crc := Xor(before, Low(Bits(b, 8)));
    for j := 0 to 8
      invariant Steps(crc, 8 - j) == FeedByte(before, b)
    {
      if crc[0] {
        crc := Xor(ShiftRight(crc), POLYNOMIAL);
      } else {
        crc := ShiftRight(crc);
      }
    }
  }

  // ---------- bits and numbers ----------

  lemma {:induction false} BitsInjective(m: nat, n: nat, width: nat)
    requires Bits(m, width) == Bits(n, width)
    requires m < Pow2(width) && n < Pow2(width)
    ensures m == n
  {
    if width > 0 {
      assert Bits(m, width)[1..] == Bits(n, width)[1..];
      assert Bits(m, width)[0] == Bits(n, width)[0];
      BitsInjective(m / 2, n / 2, width - 1);
    }
  }

  lemma Pow2Add8(n: nat)
    ensures Pow2(n + 8) == 0x100 * Pow2(n)
  {
    assert Pow2(n + 2) == 4 * Pow2(n);
    assert Pow2(n + 4) == 4 * Pow2(n + 2);
    assert Pow2(n + 6) == 4 * Pow2(n + 4);
    assert Pow2(n + 8) == 4 * Pow2(n + 6);
  }

  lemma Pow2Values()
    ensures Pow2(8) == 0x100 && Pow2(31) == 0x8000_0000 && Pow2(32) == 0x1_0000_0000
  {
    Pow2Add8(0);
    Pow2Add8(8);
    Pow2Add8(16);
    Pow2Add8(24);
  }

  lemma {:induction false} ValueFits(s: seq<bool>)
    ensures Value(s) < Pow2(|s|)
  {
    if s != [] {
      ValueFits(s[1..]);
    }
  }

  lemma {:induction false} BitsOfValue(s: seq<bool>)
    ensures Bits(Value(s), |s|) == s
  {
    if s != [] {
      BitsOfValue(s[1..]);
    }
  }

  /** A register and its number determine each other. */
  lemma ValueInjective(a: Register, b: Register)
    ensures Value(a) <= U32_MAX
    ensures Value(a) == Value(b) ==> a == b
  {
    ValueFits(a);
    BitsOfValue(a);
    BitsOfValue(b);
    Pow2Values();
  }

  lemma {:induction false} TopBit(n: nat, width: nat)
    requires width > 0 && Pow2(width - 1) <= n < Pow2(width)
    ensures Bits(n, width)[width - 1]
  {
    if width > 1 {
      TopBit(n / 2, width - 1);
    }
  }

  lemma PolynomialTop()
    ensures POLYNOMIAL[31]
  {
    Pow2Values();
    TopBit(0xEDB8_8320, 32);
  }

  // ---------- one step is a linear bijection ----------

  lemma StepLinear(a: Register, b: Register)
    ensures Step(Xor(a, b)) == Xor(Step(a), Step(b))
  {
    assert ShiftRight(Xor(a, b)) == Xor(ShiftRight(a), ShiftRight(b));
  }

  /** The step backwards: the register's top bit tells which branch was taken. */
  function Unstep(crc: Register): Register {
    if crc[31] then [true] + Xor(crc, POLYNOMIAL)[..31] else [false] + crc[..31]
  }

  lemma XorTwice(a: Register, x: Register)
    ensures Xor(Xor(a, x), x) == a
  {
  }

  lemma XorBit(a: Register, b: Register, i: nat)
    requires i < 32
    ensures Xor(a, b)[i] == (a[i] != b[i])
  {
  }

  lemma ShiftedBits(crc: Register)
    ensures !ShiftRight(crc)[31] && [crc[0]] + ShiftRight(crc)[..31] == crc
  {
    assert ShiftRight(crc)[..31] == crc[1..];
  }

  lemma UnstepAfterStep(crc: Register)
    ensures Unstep(Step(crc)) == crc
  {
    hide Bits, Xor;
    ShiftedBits(crc);
    if crc[0] {
      PolynomialTop();
      XorBit(ShiftRight(crc), POLYNOMIAL, 31);
      XorTwice(ShiftRight(crc), POLYNOMIAL);
    }
  }

  lemma ShiftBack(low: bool, source: Register)
    requires !source[31]
    ensures ShiftRight([low] + source[..31]) == source
  {
    assert ([low] + source[..31])[1..] == source[..31];
  }

  lemma StepAfterUnstep(crc: Register)
    ensures Step(Unstep(crc)) == crc
  {
    if crc[31] {
      PolynomialTop();
      ShiftBack(true, Xor(crc, POLYNOMIAL));
      XorTwice(crc, POLYNOMIAL);
    } else {
      ShiftBack(false, crc);
    }
  }

  lemma {:induction false} StepsInjective(a: Register, b: Register, n: nat)
    requires Steps(a, n) == Steps(b, n)
    ensures a == b
    decreases n
  {
    if n > 0 {
      StepsInjective(Step(a), Step(b), n - 1);
      UnstepAfterStep(a);
      UnstepAfterStep(b);
    }
  }

  lemma XorCancels(a: Register, b: Register, x: Register)
    requires Xor(a, x) == Xor(b, x) || Xor(x, a) == Xor(x, b)
    ensures a == b
  {
    forall i | 0 <= i < 32
      ensures a[i] == b[i]
    {
      if Xor(a, x) == Xor(b, x) {
        assert Xor(a, x)[i] == Xor(b, x)[i];
      } else {
        assert Xor(x, a)[i] == Xor(x, b)[i];
      }
    }
  }

  // ---------- feeding bit by bit ----------

  /** The bits of some bytes, in the order the computation takes them. */
  function AllBits(x: seq<byte>): (s: seq<bool>)
    ensures |s| == 8 * |x|
  {
    if x == [] then [] else Bits(x[0], 8) + AllBits(x[1..])
  }

  function FeedBit(crc: Register, bit: bool): Register {
    Step(Xor(crc, Low([bit])))
  }

  function FeedBits(crc: Register, s: seq<bool>): Register
    decreases |s|
  {
    if s == [] then crc else FeedBits(FeedBit(crc, s[0]), s[1..])
  }

  lemma JoinBits(crc: Register, bit: bool, rest: seq<bool>)
    requires |rest| <= 31
    ensures Xor(crc, Low([bit] + rest)) == Xor(Xor(crc, Low([bit])), Low([false] + rest))
  {
  }

  lemma ZeroShiftsOut(s: seq<bool>)
    requires |s| <= 31
    ensures Step(Low([false] + s)) == Low(s)
  {
  }

  /** Up to 32 bits may as well enter the register at once: that is its width. */
  lemma {:induction false} FeedBitsIsWord(crc: Register, s: seq<bool>)
    requires |s| <= 32
    ensures FeedBits(crc, s) == Steps(Xor(crc, Low(s)), |s|)
    decreases |s|
  {
    if s == [] {
      assert Xor(crc, Low([])) == crc;
    } else {
      hide Step, Xor, Low;
      assert [s[0]] + s[1..] == s;
      FeedBitsIsWord(FeedBit(crc, s[0]), s[1..]);
      JoinBits(crc, s[0], s[1..]);
      StepLinear(Xor(crc, Low([s[0]])), Low([false] + s[1..]));
      ZeroShiftsOut(s[1..]);
    }
  }

  lemma {:induction false} FeedBitsConcat(crc: Register, s: seq<bool>, t: seq<bool>)
    ensures FeedBits(crc, s + t) == FeedBits(FeedBits(crc, s), t)
    decreases |s|
  {
    hide FeedBit;
    if s == [] {
      assert s + t == t;
    } else {
      assert (s + t)[1..] == s[1..] + t;
      FeedBitsConcat(FeedBit(crc, s[0]), s[1..], t);
    }
  }

  /** Feeding bytes is feeding their bits. */
  lemma {:induction false} FeedIsFeedBits(crc: Register, x: seq<byte>)
    ensures Feed(crc, x) == FeedBits(crc, AllBits(x))
    decreases |x|
  {
    if x != [] {
      hide FeedBits, Steps, Bits, Xor, Low;
      FeedBitsIsWord(crc, Bits(x[0], 8));
      FeedBitsConcat(crc, Bits(x[0], 8), AllBits(x[1..]));
      FeedIsFeedBits(FeedByte(crc, x[0]), x[1..]);
    }
  }

  // ---------- linearity of whole messages ----------

  function XorBits(s: seq<bool>, t: seq<bool>): (r: seq<bool>)
    requires |s| == |t|
    ensures |r| == |s|
  {
    seq(|s|, i requires 0 <= i < |s| => s[i] != t[i])
  }

  function XorByte(x: byte, y: byte): byte {
    var s := XorBits(Bits(x, 8), Bits(y, 8));
    ValueFits(s);
    Pow2Values();
    Value(s)
  }

  function XorBytes(x: seq<byte>, y: seq<byte>): (r: seq<byte>)
    requires |x| == |y|
    ensures |r| == |x|
  {
    if x == [] then [] else [XorByte(x[0], y[0])] + XorBytes(x[1..], y[1..])
  }

  lemma XorByteBits(x: byte, y: byte)
    ensures Bits(XorByte(x, y), 8) == XorBits(Bits(x, 8), Bits(y, 8))
  {
    BitsOfValue(XorBits(Bits(x, 8), Bits(y, 8)));
  }

  lemma {:induction false} XorBytesBits(x: seq<byte>, y: seq<byte>)
    requires |x| == |y|
    ensures AllBits(XorBytes(x, y)) == XorBits(AllBits(x), AllBits(y))
  {
    if x != [] {
      hide Bits, XorByte;
      XorByteBits(x[0], y[0]);
      XorBytesBits(x[1..], y[1..]);
      assert XorBytes(x, y)[1..] == XorBytes(x[1..], y[1..]);
    }
  }

  lemma FeedBitLinear(a: Register, b: Register, p: bool, q: bool)
    ensures FeedBit(Xor(a, b), p != q) == Xor(FeedBit(a, p), FeedBit(b, q))
  {
    assert Xor(Xor(a, b), Low([p != q])) == Xor(Xor(a, Low([p])), Xor(b, Low([q])));
    StepLinear(Xor(a, Low([p])), Xor(b, Low([q])));
  }

  lemma {:induction false} FeedBitsLinear(a: Register, b: Register, s: seq<bool>, t: seq<bool>)
    requires |s| == |t|
    ensures FeedBits(Xor(a, b), XorBits(s, t)) == Xor(FeedBits(a, s), FeedBits(b, t))
    decreases |s|
  {
    if s != [] {
      hide FeedBit, Xor;
      FeedBitLinear(a, b, s[0], t[0]);
      FeedBitsLinear(FeedBit(a, s[0]), FeedBit(b, t[0]), s[1..], t[1..]);
      assert XorBits(s, t)[1..] == XorBits(s[1..], t[1..]);
    }
  }

  /** Feeding is linear: equal-length messages, and the registers they start from, may be xored first. */
  lemma FeedLinear(a: Register, b: Register, x: seq<byte>, y: seq<byte>)
    requires |x| == |y|
    ensures Feed(Xor(a, b), XorBytes(x, y)) == Xor(Feed(a, x), Feed(b, y))
  {
    hide Feed, FeedBits, Xor, AllBits, XorBytes;
    FeedIsFeedBits(a, x);
    FeedIsFeedBits(b, y);
    FeedIsFeedBits(Xor(a, b), XorBytes(x, y));
    XorBytesBits(x, y);
    FeedBitsLinear(a, b, AllBits(x), AllBits(y));
  }

  const ZERO: Register := Bits(0, 32)

  lemma {:induction false} ZeroBits(width: nat)
    ensures forall i | 0 <= i < width :: !Bits(0, width)[i]
  {
    if width > 0 {
      ZeroBits(width - 1);
    }
  }

  lemma XorIsZero(a: Register, b: Register)
    ensures Xor(a, b) == ZERO <==> a == b
  {
    ZeroBits(32);
    forall i | 0 <= i < 32
      ensures Xor(a, b)[i] == ZERO[i] <==> a[i] == b[i]
    {
      XorBit(a, b, i);
    }
    if Xor(a, b) == ZERO {
      assert forall i | 0 <= i < 32 :: a[i] == b[i];
    }
  }

  /**
   Whether a damaged message of the same length keeps its CRC depends on the damage alone: on
   the bytewise difference, fed to an empty register, and not on the message.
   */
  lemma DamageDecides(x: seq<byte>, y: seq<byte>)
    requires |x| == |y|
    ensures Crc(x) == Crc(y) <==> Feed(ZERO, XorBytes(x, y)) == ZERO
  {
    hide Feed, Xor, XorBytes, Bits;
    FeedLinear(ONES, ONES, x, y);
    XorIsZero(ONES, ONES);
    XorIsZero(Feed(ONES, x), Feed(ONES, y));
    if Crc(x) == Crc(y) {
      XorCancels(Feed(ONES, x), Feed(ONES, y), ONES);
    }
  }

  // ---------- short bursts ----------

  lemma {:induction false} AllBitsInjective(x: seq<byte>, y: seq<byte>)
    requires |x| == |y| && AllBits(x) == AllBits(y)
    ensures x == y
  {
    if x != [] {
      assert AllBits(x)[..8] == Bits(x[0], 8) && AllBits(y)[..8] == Bits(y[0], 8);
      assert AllBits(x)[8..] == AllBits(x[1..]) && AllBits(y)[8..] == AllBits(y[1..]);
      Pow2Values();
      BitsInjective(x[0], y[0], 8);
      AllBitsInjective(x[1..], y[1..]);
      assert x == [x[0]] + x[1..] && y == [y[0]] + y[1..];
    }
  }

  lemma LowInjective(s: seq<bool>, t: seq<bool>)
    requires |s| == |t| <= 32 && Low(s) == Low(t)
    ensures s == t
  {
    assert Low(s)[..|s|] == s && Low(t)[..|t|] == t;
  }

  lemma FeedBitInjective(a: Register, b: Register, bit: bool)
    requires FeedBit(a, bit) == FeedBit(b, bit)
    ensures a == b
  {
    UnstepAfterStep(Xor(a, Low([bit])));
    UnstepAfterStep(Xor(b, Low([bit])));
    XorCancels(a, b, Low([bit]));
  }

  lemma {:induction false} FeedBitsInjective(a: Register, b: Register, s: seq<bool>)
    requires FeedBits(a, s) == FeedBits(b, s)
    ensures a == b
    decreases |s|
  {
    hide FeedBit;
    if s != [] {
      FeedBitsInjective(FeedBit(a, s[0]), FeedBit(b, s[0]), s[1..]);
      FeedBitInjective(a, b, s[0]);
    }
  }

  lemma ShortBitsInjective(crc: Register, s: seq<bool>, t: seq<bool>)
    requires |s| == |t| <= 32 && FeedBits(crc, s) == FeedBits(crc, t)
    ensures s == t
  {
    hide FeedBits, Steps, Xor, Low;
    FeedBitsIsWord(crc, s);
    FeedBitsIsWord(crc, t);
    StepsInjective(Xor(crc, Low(s)), Xor(crc, Low(t)), |s|);
    XorCancels(Low(s), Low(t), crc);
    LowInjective(s, t);
  }

  lemma FeedParts(crc: Register, front: seq<bool>, u: seq<bool>, tail: seq<bool>)
    ensures FeedBits(crc, front + u + tail) == FeedBits(FeedBits(FeedBits(crc, front), u), tail)
  {
    hide FeedBits;
    FeedBitsConcat(crc, front + u, tail);
    FeedBitsConcat(crc, front, u);
  }

  lemma BurstInBits(crc: Register, front: seq<bool>, u: seq<bool>, v: seq<bool>, tail: seq<bool>)
    requires |u| == |v| <= 32 && FeedBits(crc, front + u + tail) == FeedBits(crc, front + v + tail)
    ensures u == v
  {
    hide FeedBits;
    FeedParts(crc, front, u, tail);
    FeedParts(crc, front, v, tail);
    FeedBitsInjective(FeedBits(FeedBits(crc, front), u), FeedBits(FeedBits(crc, front), v), tail);
    ShortBitsInjective(FeedBits(crc, front), u, v);
  }

  /** The bits of two messages agree outside a window of 32 consecutive ones. */
  predicate AgreeOutside(s: seq<bool>, t: seq<bool>, k: nat)
    requires |s| == |t|
  {
    forall i | 0 <= i < |s| && !(k <= i < k + 32) :: s[i] == t[i]
  }

  lemma SplitWindow(s: seq<bool>, k: nat, e: nat)
    requires k <= e <= |s|
    ensures s == s[..k] + s[k..e] + s[e..]
  {
  }

  lemma BurstOfBits(s: seq<bool>, t: seq<bool>, k: nat)
    requires |s| == |t| && AgreeOutside(s, t, k) && FeedBits(ONES, s) == FeedBits(ONES, t)
    ensures s == t
  {
    hide FeedBits, Bits;
    if k < |s| {
      var e := if k + 32 < |s| then k + 32 else |s|;
      assert s[..k] == t[..k] && s[e..] == t[e..];
      SplitWindow(s, k, e);
      SplitWindow(t, k, e);
      BurstInBits(ONES, s[..k], s[k..e], t[k..e], s[e..]);
    }
  }

  /**
   Two messages of equal length whose bits, in the order they are transmitted, differ only within
   32 consecutive ones never share a CRC.
   */
  lemma BurstDetected(x: seq<byte>, y: seq<byte>, k: nat)
    requires |x| == |y| && x != y && AgreeOutside(AllBits(x), AllBits(y), k)
    ensures Value(Crc(x)) != Value(Crc(y))
  {
    hide Feed, FeedBits, Xor, Bits, AllBits, AgreeOutside;
    ValueInjective(Crc(x), Crc(y));
    if Crc(x) == Crc(y) {
      XorCancels(Feed(ONES, x), Feed(ONES, y), ONES);
      FeedIsFeedBits(ONES, x);
      FeedIsFeedBits(ONES, y);
      BurstOfBits(AllBits(x), AllBits(y), k);
      AllBitsInjective(x, y);
    }
  }

  lemma {:induction false} AllBitsConcat(x: seq<byte>, y: seq<byte>)
    ensures AllBits(x + y) == AllBits(x) + AllBits(y)
  {
    hide Bits;
    if x == [] {
      assert x + y == y;
    } else {
      assert (x + y)[1..] == x[1..] + y;
      AllBitsConcat(x[1..], y);
    }
  }

  /** In particular, messages that differ only within four consecutive bytes. */
  lemma ByteBurstDetected(front: seq<byte>, x: seq<byte>, y: seq<byte>, tail: seq<byte>)
    requires |x| == |y| <= 4 && x != y
    ensures Value(Crc(front + x + tail)) != Value(Crc(front + y + tail))
  {
    hide Crc, Bits;
    var s, t := front + x + tail, front + y + tail;
    assert s != t by {
      assert s[|front|..|front| + |x|] == x && t[|front|..|front| + |y|] == y;
    }
    WindowOfBytes(front, x, y, tail);
    BurstDetected(s, t, 8 * |front|);
  }

  lemma WindowOfBytes(front: seq<byte>, x: seq<byte>, y: seq<byte>, tail: seq<byte>)
    requires |x| == |y| <= 4
    ensures AgreeOutside(AllBits(front + x + tail), AllBits(front + y + tail), 8 * |front|)
  {
    AllBitsConcat(front + x, tail);
    AllBitsConcat(front + y, tail);
    AllBitsConcat(front, x);
    AllBitsConcat(front, y);
    hide AllBits;
  }
}
