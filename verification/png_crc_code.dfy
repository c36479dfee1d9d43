/**
 Which code the CRC of a PNG chunk is: division of the message, as a polynomial over bits, by the
 generator of section 5.5 of the W3C PNG Specification (Second Edition).

 A polynomial is the list of its coefficients, the highest first. The bits of a message in the
 order they are transmitted are one, and so is a register.
 */
module PngCrcCode {
  import opened Arithmetic
  import opened Bytes
  import opened PngCrc

  /** The exponents of the generator. */
  const EXPONENTS: set<nat> := {32, 26, 23, 22, 16, 12, 11, 10, 8, 7, 5, 4, 2, 1, 0}

  function Generator(): (g: seq<bool>)
    ensures |g| == 33
  {
    seq(33, i requires 0 <= i < 33 => (32 - i) as nat in EXPONENTS)
  }

  function Zeros(n: nat): seq<bool> {
    seq(n, _ => false)
  }

  /** One line of the written multiplication: the generator below a digit of the quotient. */
  function Line(digit: bool, n: nat): (p: seq<bool>)
    requires n > 0
    ensures |p| == n + 32
  {
    if digit then Generator() + Zeros(n - 1) else Zeros(n + 32)
  }

  function TimesGenerator(q: seq<bool>): (p: seq<bool>)
    ensures |p| == |q| + 32
  {
    if q == [] then Zeros(32) else XorBits(Line(q[0], |q|), [false] + TimesGenerator(q[1..]))
  }

  /** `p` is `q` times the generator, plus `r`, which is of lower degree. */
  predicate DividesInto(p: seq<bool>, q: seq<bool>, r: seq<bool>) {
    |p| == |q| + 32 && |r| == 32 && p == XorBits(TimesGenerator(q), Zeros(|q|) + r)
  }

  // ---------- division has one answer ----------

  lemma LineHead(p: seq<bool>, q: seq<bool>, r: seq<bool>)
    requires q != [] && DividesInto(p, q, r)
    ensures p[0] == q[0]
  {
    assert Line(q[0], |q|)[0] == q[0] by {
      assert Generator()[0];
    }
  }

  lemma LineRest(p: seq<bool>, q: seq<bool>, r: seq<bool>)
    requires q != [] && DividesInto(p, q, r)
    ensures DividesInto(XorBits(p, Line(q[0], |q|))[1..], q[1..], r)
  {
    var line, rest := Line(q[0], |q|), TimesGenerator(q[1..]);
    forall i | 0 <= i < |q| - 1 + 32
      ensures XorBits(p, line)[1..][i] == XorBits(rest, Zeros(|q| - 1) + r)[i]
    {
      assert p[i + 1] == (XorBits(line, [false] + rest)[i + 1] != (Zeros(|q|) + r)[i + 1]);
    }
    assert XorBits(p, line)[1..] == XorBits(rest, Zeros(|q| - 1) + r);
  }

  /** A dividend has one quotient and one remainder. */
  lemma {:induction false} DivisionIsUnique(p: seq<bool>, q: seq<bool>, r: seq<bool>, q': seq<bool>, r': seq<bool>)
    requires DividesInto(p, q, r) && DividesInto(p, q', r')
    ensures q == q' && r == r'
    decreases |q|
  {
    if q == [] {
      assert forall i | 0 <= i < 32 :: p[i] == r[i] && p[i] == r'[i];
    } else {
      LineHead(p, q, r);
      LineHead(p, q', r');
      LineRest(p, q, r);
      LineRest(p, q', r');
      DivisionIsUnique(XorBits(p, Line(q[0], |q|))[1..], q[1..], r, q'[1..], r');
      assert q == [q[0]] + q[1..] && q' == [q'[0]] + q'[1..];
    }
  }

  // ---------- the register is the remainder ----------

  /** The next four bits of a number. */
  lemma Nibble(n: nat, width: nat)
    requires width >= 4
    ensures Bits(n, width)
            == [n % 2 == 1, n / 2 % 2 == 1, n / 4 % 2 == 1, n / 8 % 2 == 1] + Bits(n / 16, width - 4)
  {
    assert Bits(n, width) == [n % 2 == 1] + Bits(n / 2, width - 1);
    assert Bits(n / 2, width - 1) == [n / 2 % 2 == 1] + Bits(n / 4, width - 2);
    assert Bits(n / 4, width - 2) == [n / 4 % 2 == 1] + Bits(n / 8, width - 3);
    assert Bits(n / 8, width - 3) == [n / 8 % 2 == 1] + Bits(n / 16, width - 4);
  }

  function LowHalf(): seq<bool> {
    [false, false, false, false, false, true, false, false,
     true, true, false, false, false, false, false, true]
  }

  function HighHalf(): seq<bool> {
    [false, false, false, true, true, true, false, true,
     true, false, true, true, false, true, true, true]
  }

  lemma HighBits()
    ensures Bits(0xEDB8, 16) == HighHalf()
  {
    hide Bits;
    Nibble(0xEDB8, 16);
    Nibble(0xEDB, 12);
    Nibble(0xED, 8);
    Nibble(0xE, 4);
  }

  lemma LowBits()
    ensures Bits(0xEDB8_8320, 32) == LowHalf() + Bits(0xEDB8, 16)
  {
    hide Bits;
    Nibble(0xEDB8_8320, 32);
    Nibble(0xEDB_8832, 28);
    Nibble(0xED_B883, 24);
    Nibble(0xE_DB88, 20);
  }

  lemma GeneratorLow(i: nat)
    requires i < 16
    ensures Generator()[i + 1] == LowHalf()[i]
  {
  }

  lemma GeneratorHigh(i: nat)
    requires i < 16
    ensures Generator()[i + 17] == HighHalf()[i]
  {
  }

  /** The constant of the code is the generator without its leading coefficient. */
  lemma PolynomialIsGenerator()
    ensures POLYNOMIAL == Generator()[1..]
  {
    LowBits();
    HighBits();
    hide Bits, Generator;
    assert POLYNOMIAL == LowHalf() + HighHalf();
    forall i | 0 <= i < 32
      ensures POLYNOMIAL[i] == Generator()[1..][i]
    {
      hide LowHalf, HighHalf;
      HalfLengths();
      if i < 16 {
        GeneratorLow(i);
      } else {
        GeneratorHigh(i - 16);
      }
    }
  }

  lemma HalfLengths()
    ensures |LowHalf()| == 16 && |HighHalf()| == 16
  {
  }

  /** The message moved up by 32 places, with the register added to its highest coefficients. */
  function Dividend(a: Register, s: seq<bool>): (p: seq<bool>)
    ensures |p| == |s| + 32
  {
    XorBits(s + Zeros(32), a + Zeros(|s|))
  }

  lemma FeedBitAt(a: Register, bit: bool, i: nat)
    requires i < 32
    ensures FeedBit(a, bit)[i] == ((if i < 31 then a[i + 1] else false) != ((a[0] != bit) && Generator()[i + 1]))
  {
    PolynomialIsGenerator();
    var x := Xor(a, Low([bit]));
    hide Bits, Generator;
    assert x[0] == (a[0] != bit) && forall j | 0 < j < 32 :: x[j] == a[j];
    assert ShiftRight(x)[i] == if i < 31 then a[i + 1] else false;
  }

  /** One bit fed is one line of the division. */
  lemma DividendStep(a: Register, s: seq<bool>)
    requires s != []
    ensures Dividend(a, s) == XorBits(Line(a[0] != s[0], |s|), [false] + Dividend(FeedBit(a, s[0]), s[1..]))
  {
    var n, digit, next := |s|, a[0] != s[0], FeedBit(a, s[0]);
    var line, rest := Line(digit, n), Dividend(next, s[1..]);
    forall i | 0 <= i < n + 32
      ensures Dividend(a, s)[i] == XorBits(line, [false] + rest)[i]
    {
      DividendAt(a, s, i);
      LineAt(digit, n, i);
      if i > 0 {
        DividendAt(next, s[1..], i - 1);
        if i <= 32 {
          FeedBitAt(a, s[0], i - 1);
        }
      } else {
        assert Generator()[0];
      }
    }
  }

  lemma DividendAt(a: Register, s: seq<bool>, i: nat)
    requires i < |s| + 32
    ensures Dividend(a, s)[i] == ((i < |s| && s[i]) != (i < 32 && a[i]))
  {
  }

  lemma LineAt(digit: bool, n: nat, i: nat)
    requires n > 0 && i < n + 32
    ensures Line(digit, n)[i] == (digit && i < 33 && Generator()[i])
  {
    hide Generator;
  }

  /** What is left of a division after its first line. */
  lemma DivideStep(line: seq<bool>, rest: seq<bool>, q: seq<bool>, r: seq<bool>, digit: bool)
    requires line == Line(digit, |q| + 1) && DividesInto(rest, q, r)
    ensures DividesInto(XorBits(line, [false] + rest), [digit] + q, r)
  {
    hide Line;
    var p := XorBits(line, [false] + rest);
    assert ([digit] + q)[1..] == q;
    var times := TimesGenerator([digit] + q);
    assert times == XorBits(line, [false] + TimesGenerator(q));
    forall i | 0 <= i < |p|
      ensures p[i] == XorBits(times, Zeros(|q| + 1) + r)[i]
    {
      if i > 0 {
        assert rest[i - 1] == (TimesGenerator(q)[i - 1] != (Zeros(|q|) + r)[i - 1]);
        assert (Zeros(|q| + 1) + r)[i] == (Zeros(|q|) + r)[i - 1];
      }
    }
    assert p == XorBits(times, Zeros(|q| + 1) + r);
  }

  lemma {:induction false} FeedBitsDivides(a: Register, s: seq<bool>) returns (q: seq<bool>)
    ensures |q| == |s| && DividesInto(Dividend(a, s), q, FeedBits(a, s))
    decreases |s|
  {
    if s == [] {
      q := [];
      assert Dividend(a, s) == XorBits(TimesGenerator(q), Zeros(0) + a) by {
        forall i | 0 <= i < 32
          ensures Dividend(a, s)[i] == XorBits(TimesGenerator(q), Zeros(0) + a)[i]
        {
          DividendAt(a, s, i);
        }
      }
    } else {
      hide FeedBit, Dividend, DividesInto, Line, XorBits;
      var digit := a[0] != s[0];
      var rest := FeedBitsDivides(FeedBit(a, s[0]), s[1..]);
      q := [digit] + rest;
      DividendStep(a, s);
      DivideStep(Line(digit, |s|), Dividend(FeedBit(a, s[0]), s[1..]), rest, FeedBits(a, s), digit);
    }
  }

  function Complement(r: Register): Register {
    seq(32, i requires 0 <= i < 32 => !r[i])
  }

  function AllOnes(): Register {
    seq(32, _ => true)
  }

  lemma {:induction false} OnesOf(n: nat, width: nat)
    requires n + 1 == Pow2(width)
    ensures forall i | 0 <= i < width :: Bits(n, width)[i]
  {
    if width > 0 {
      assert n / 2 + 1 == Pow2(width - 1) && n % 2 == 1;
      OnesOf(n / 2, width - 1);
    }
  }

  lemma OnesAreOnes()
    ensures ONES == AllOnes()
  {
    hide Bits;
    Pow2Values();
    OnesOf(0xFFFF_FFFF, 32);
  }

  /** Feeding a message from any register is division by the generator. */
  lemma FeedIsRemainder(a: Register, x: seq<byte>)
    ensures exists q :: DividesInto(Dividend(a, AllBits(x)), q, Feed(a, x))
  {
    hide FeedBits, Feed, AllBits, Dividend, DividesInto;
    FeedIsFeedBits(a, x);
    var q := FeedBitsDivides(a, AllBits(x));
  }

  /**
   The CRC of a message is the complement of the remainder that the generator leaves of the message,
   moved up by 32 places, with its first 32 coefficients complemented; there is only one.
   */
  lemma CrcIsRemainder(x: seq<byte>, r: Register)
    ensures Crc(x) == Complement(r) <==> exists q :: DividesInto(Dividend(AllOnes(), AllBits(x)), q, r)
  {
    var fed, p := Feed(ONES, x), Dividend(AllOnes(), AllBits(x));
    OnesAreOnes();
    FeedIsRemainder(ONES, x);
    assert Crc(x) == Complement(fed) by {
      hide Feed, Bits;
    }
    ComplementInjective(fed, r);
    hide Feed, AllBits, Dividend, DividesInto, Bits, Complement, Crc;
    var q :| DividesInto(p, q, fed);
    forall q' | DividesInto(p, q', r)
      ensures r == fed
    {
      DivisionIsUnique(p, q, fed, q', r);
    }
  }

  lemma ComplementInjective(a: Register, b: Register)
    ensures Complement(a) == Complement(b) <==> a == b
  {
    if Complement(a) == Complement(b) {
      forall i | 0 <= i < 32
        ensures a[i] == b[i]
      {
        assert Complement(a)[i] == Complement(b)[i];
      }
    }
  }

  // ---------- the order of the bits, and a known value ----------

  /** A number shifted right. */
  function Halved(n: nat, i: nat): nat {
    if i == 0 then n else Halved(n / 2, i - 1)
  }

  lemma {:induction false} BitOfNumber(n: nat, width: nat, i: nat)
    requires i < width
    ensures Bits(n, width)[i] == (Halved(n, i) % 2 == 1)
    decreases i
  {
    if i > 0 {
      BitOfNumber(n / 2, width - 1, i - 1);
    }
  }

  /** The bits of a message, from the least significant of its first byte on. */
  lemma {:induction false} BitOfMessage(x: seq<byte>, k: nat, i: nat)
    requires k < |x| && i < 8
    ensures AllBits(x)[8 * k + i] == (Halved(x[k], i) % 2 == 1)
    decreases |x|
  {
    if k == 0 {
      BitOfNumber(x[0], 8, i);
    } else {
      BitOfMessage(x[1..], k - 1, i);
      hide Bits;
    }
  }

  /** A register with one bit. */
  function OneBit(k: nat): Register
    requires k < 32
  {
    seq(32, i requires 0 <= i < 32 => i == k)
  }

  lemma {:induction false} OneBitFalls(k: nat)
    requires k < 32
    ensures Steps(OneBit(k), k + 1) == POLYNOMIAL
  {
    hide Bits;
    if k == 0 {
      assert Step(OneBit(0)) == POLYNOMIAL;
    } else {
      assert Step(OneBit(k)) == OneBit(k - 1);
      OneBitFalls(k - 1);
    }
  }

  lemma {:induction false} ValueOfBits(n: nat, width: nat)
    requires n < Pow2(width)
    ensures Value(Bits(n, width)) == n
  {
    if width > 0 {
      ValueOfBits(n / 2, width - 1);
    }
  }

  lemma {:induction false} ValueOfComplement(s: seq<bool>)
    ensures var t := seq(|s|, i requires 0 <= i < |s| => !s[i]);
            Value(t) + Value(s) + 1 == Pow2(|s|)
  {
    if s != [] {
      var t := seq(|s|, i requires 0 <= i < |s| => !s[i]);
      var rest := seq(|s| - 1, i requires 0 <= i < |s| - 1 => !s[1..][i]);
      assert t[1..] == rest;
      ValueOfComplement(s[1..]);
    }
  }

  /** All ones but the last. */
  const ALMOST_ONES: seq<byte> := [0xFF, 0xFF, 0xFF, 0x7F]

  lemma AlmostOnesAt(i: nat)
    requires i < 32
    ensures AllBits(ALMOST_ONES)[i] == (i != 31)
  {
    hide AllBits, Halved;
    assert i == 8 * (i / 8) + i % 8;
    BitOfMessage(ALMOST_ONES, i / 8, i % 8);
    AlmostOnesBit(i / 8, i % 8);
  }

  lemma AlmostOnesBits()
    ensures Xor(ONES, Low(AllBits(ALMOST_ONES))) == OneBit(31)
  {
    OnesAreOnes();
    hide AllBits, Bits;
    forall i | 0 <= i < 32
      ensures AllBits(ALMOST_ONES)[i] == (i != 31)
    {
      AlmostOnesAt(i);
    }
  }

  /** The bits of a number one below a power of two. */
  lemma {:induction false} OnesThenZeros(n: nat, width: nat, i: nat)
    requires n + 1 == Pow2(width)
    ensures Halved(n, i) % 2 == if i < width then 1 else 0
    decreases i
  {
    if width == 0 {
      ZeroHalved(i);
    } else {
      OddHalf(n, Pow2(width - 1));
      if i > 0 {
        OnesThenZeros(n / 2, width - 1, i - 1);
      }
    }
  }

  lemma OddHalf(n: nat, half: nat)
    requires n + 1 == 2 * half
    ensures n / 2 + 1 == half && n % 2 == 1
  {
  }

  lemma {:induction false} ZeroHalved(i: nat)
    ensures Halved(0, i) == 0
  {
    if i > 0 {
      ZeroHalved(i - 1);
    }
  }

  lemma AlmostOnesBit(k: nat, i: nat)
    requires k < 4 && i < 8
    ensures (Halved(ALMOST_ONES[k], i) % 2 == 1) == !(k == 3 && i == 7)
  {
    Pow2Values();
    assert Pow2(8) == 2 * Pow2(7);
    hide Pow2, Halved;
    OnesThenZeros(0xFF, 8, i);
    OnesThenZeros(0x7F, 7, i);
  }

  lemma FedAlmostOnes()
    ensures Feed(ONES, ALMOST_ONES) == POLYNOMIAL
  {
    hide FeedBits, AllBits, Xor, Low, Bits, Steps, Feed;
    FeedIsFeedBits(ONES, ALMOST_ONES);
    FeedBitsIsWord(ONES, AllBits(ALMOST_ONES));
    AlmostOnesBits();
    OneBitFalls(31);
  }

  /** The CRC of FF FF FF 7F, whose bits cancel the preset but for the last one. */
  lemma KnownValue()
    ensures Value(Crc(ALMOST_ONES)) == 0x1247_7CDF
  {
    FedAlmostOnes();
    OnesAreOnes();
    hide Feed, Bits, Value, Pow2;
    Pow2Values();
    var complement := seq(32, i requires 0 <= i < 32 => !POLYNOMIAL[i]);
    assert Crc(ALMOST_ONES) == complement;
    ValueOfComplement(POLYNOMIAL);
    assert seq(|POLYNOMIAL|, i requires 0 <= i < |POLYNOMIAL| => !POLYNOMIAL[i]) == complement;
    ValueOfBits(0xEDB8_8320, 32);
  }
}
