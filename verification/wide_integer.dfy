/**
 Integers read at any length: the digit loop that stops where `i64` ends, and the range checks
 that are asked of the value held at that end.
 */
module WideIntegers {
  import opened Bytes
  import opened Wrappers

  const I64_MIN: int := -0x8000_0000_0000_0000
  const I64_MAX: int := 0x7FFF_FFFF_FFFF_FFFF

  datatype WideInteger = Fits(value: int) | Above | Below

  // ---------- decimal text ----------

  predicate IsDigit(c: char) {
    '0' <= c <= '9'
  }

  function DigitOf(c: char): (n: nat)
    requires IsDigit(c)
    ensures n < 10
  {
    c as int - '0' as int
  }

  function CharOf(n: nat): (c: char)
    requires n < 10
    ensures IsDigit(c) && DigitOf(c) == n
  {
    (n + '0' as int) as char
  }

  predicate AllDigits(s: string) {
    forall c | c in s :: IsDigit(c)
  }

  /** The number that digits spell. */
  function Value(s: string): nat
    requires AllDigits(s)
  {
    if s == "" then 0 else 10 * Value(s[..|s| - 1]) + DigitOf(s[|s| - 1])
  }

  /** The shortest digits that spell a number. */
  function Decimal(n: nat): (s: string)
    ensures s != "" && AllDigits(s)
  {
    if n < 10 then [CharOf(n)] else Decimal(n / 10) + [CharOf(n % 10)]
  }

  lemma {:induction false} ValueOfDecimal(n: nat)
    ensures Value(Decimal(n)) == n
  {
    if n < 10 {
      assert Decimal(n)[..0] == "";
    } else {
      ValueOfDecimal(n / 10);
      assert Decimal(n)[..|Decimal(n)| - 1] == Decimal(n / 10);
    }
  }

  /** Where the digits that start at `i` end. */
  function DigitsEnd(s: string, i: nat): (k: nat)
    requires i <= |s|
    ensures i <= k <= |s| && (k < |s| ==> !IsDigit(s[k])) && forall m | i <= m < k :: IsDigit(s[m])
    decreases |s| - i
  {
    if i < |s| && IsDigit(s[i]) then DigitsEnd(s, i + 1) else i
  }

  /** Without its sign. */
  function Body(text: string): string {
    if text != "" && (text[0] == '+' || text[0] == '-') then text[1..] else text
  }

  predicate IsNegative(text: string) {
    text != "" && text[0] == '-'
  }

  function Signed(negative: bool, n: nat): int {
    if negative then -(n as int) else n as int
  }

  /** An optional sign and at least one digit. */
  predicate IsInteger(text: string) {
    Body(text) != "" && AllDigits(Body(text))
  }

  function IntegerValue(text: string): int
    requires IsInteger(text)
  {
    Signed(IsNegative(text), Value(Body(text)))
  }

  function Classify(v: int): WideInteger {
    if v > I64_MAX then Above else if v < I64_MIN then Below else Fits(v)
  }

  /** The number the leading digits spell. */
  function LeadingValue(text: string): int {
    var d := Body(text);
    Signed(IsNegative(text), Value(d[..DigitsEnd(d, 0)]))
  }

  /** What is read: any text whose leading digits are past `i64`, and integers that fit. */
  function Reading(text: string): Option<WideInteger> {
    var d := Body(text);
    var v := LeadingValue(text);
    if d == "" then None
    else if Classify(v).Fits? && DigitsEnd(d, 0) < |d| then None
    else Some(Classify(v))
  }

  // ---------- the digit loop ----------

  lemma ValueStep(d: string, i: nat)
    requires i < DigitsEnd(d, 0)
    ensures AllDigits(d[..i]) && AllDigits(d[..i + 1]) && Value(d[..i + 1]) == 10 * Value(d[..i]) + DigitOf(d[i])
  {
    assert d[..i + 1][..i] == d[..i];
  }

  lemma {:induction false} ValueGrows(d: string, i: nat, k: nat)
    requires i <= k <= DigitsEnd(d, 0)
    ensures AllDigits(d[..i]) && AllDigits(d[..k]) && Value(d[..i]) <= Value(d[..k])
    decreases k - i
  {
    if i < k {
      ValueStep(d, k - 1);
      ValueGrows(d, i, k - 1);
    }
  }

  method ParseWide(text: string) returns (r: Option<WideInteger>)
    ensures r == Reading(text)
  {
    var negative := IsNegative(text);
    var d := Body(text);
    if d == "" {
      return None;
    }
    ghost var end := DigitsEnd(d, 0);
    var result := 0;
    for i := 0 to |d|
      invariant i <= end && AllDigits(d[..i])
      invariant result == Signed(negative, Value(d[..i])) && I64_MIN <= result <= I64_MAX
    {
      if !IsDigit(d[i]) {
        return None;
      }
      ValueStep(d, i);
      ValueGrows(d, i + 1, end);
      var x := DigitOf(d[i]);
      result := 10 * result + Signed(negative, x);
      if result > I64_MAX {
        return Some(Above);
      }
      if result < I64_MIN {
        return Some(Below);
      }
    }
    return Some(Fits(result));
  }

  // ---------- what a reading means ----------

  /** Every integer, of any length, is read as itself or as being past the end it is past. */
  lemma IntegersAreClassified(text: string)
    requires IsInteger(text)
    ensures var v := IntegerValue(text);
            Reading(text) == Some(if v < -9_223_372_036_854_775_808 then Below
                                  else if v > 9_223_372_036_854_775_807 then Above
                                  else Fits(v))
  {
    var d := Body(text);
    assert d[..|d|] == d;
  }

  lemma SignedText(sign: string, digits: string)
    requires digits != "" && AllDigits(digits) && sign in {"", "+", "-"}
    ensures Body(sign + digits) == digits && (IsNegative(sign + digits) <==> sign == "-")
  {
    assert digits[0] in digits;
    assert "" + digits == digits && ("+" + digits)[1..] == digits && ("-" + digits)[1..] == digits;
  }

  lemma FirstIsDigit(text: string)
    requires IsInteger(text)
    ensures Body(text) == text <==> text[0] != '+' && text[0] != '-'
    ensures Body(text) != text ==> text == [text[0]] + Body(text)
  {
    if text[0] == '+' || text[0] == '-' {
      assert |Body(text)| < |text|;
    }
  }

  /** An integer is written with or without a plus sign, or with a minus sign that negates it. */
  lemma IntegersSpelled(text: string, v: int)
    ensures IsInteger(text) && IntegerValue(text) == v
            <==> exists sign, digits ::
                   && sign in {"", "+", "-"} && digits != "" && AllDigits(digits) && text == sign + digits
                   && v == if sign == "-" then -(Value(digits) as int) else Value(digits)
  {
    hide AllDigits, Value;
    if IsInteger(text) && IntegerValue(text) == v {
      var digits := Body(text);
      var sign := if digits == text then "" else if IsNegative(text) then "-" else "+";
      assert text == sign + digits && (IsNegative(text) <==> sign == "-") by {
        FirstIsDigit(text);
      }
    }
    forall sign, digits | sign in {"", "+", "-"} && digits != "" && AllDigits(digits) && text == sign + digits
      ensures IsInteger(text)
      ensures IntegerValue(text) == if sign == "-" then -(Value(digits) as int) else Value(digits)
    {
      SignedText(sign, digits);
    }
  }

  /**
   Text that is no integer is refused exactly when its leading digits fit: the loop gives up on
   the range before it reaches what makes the text no integer.
   */
  lemma OthersAreRefused(text: string)
    requires !IsInteger(text)
    ensures Reading(text) == None <==> Body(text) == "" || I64_MIN <= LeadingValue(text) <= I64_MAX
  {
    var d := Body(text);
    if d != "" {
      var k :| 0 <= k < |d| && !IsDigit(d[k]);
      assert DigitsEnd(d, 0) <= k;
    }
  }

  function Nines(n: nat): (s: string)
    ensures |s| == n && AllDigits(s)
  {
    if n == 0 then "" else Nines(n - 1) + "9"
  }

  function Power(n: nat): nat {
    if n == 0 then 1 else 10 * Power(n - 1)
  }

  lemma PowerOfNineteen()
    ensures Power(19) == 10_000_000_000_000_000_000
  {
    assert Power(4) == 10_000;
    assert Power(8) == 100_000_000;
    assert Power(12) == 1_000_000_000_000;
    assert Power(16) == 10_000_000_000_000_000;
  }

  lemma {:induction false} NinesValue(n: nat)
    ensures Value(Nines(n)) == Power(n) - 1
  {
    if n > 0 {
      NinesValue(n - 1);
      assert Nines(n)[..n - 1] == Nines(n - 1);
    }
  }

  lemma {:induction false} DigitsEndAt(s: string, i: nat, k: nat)
    requires i <= k < |s| && !IsDigit(s[k]) && forall m | i <= m < k :: IsDigit(s[m])
    ensures DigitsEnd(s, i) == k
    decreases k - i
  {
    if i < k {
      DigitsEndAt(s, i + 1, k);
    }
  }

  lemma DigitsThenLetter(digits: string)
    requires AllDigits(digits)
    ensures DigitsEnd(digits + "x", 0) == |digits| && (digits + "x")[..|digits|] == digits
  {
    var text := digits + "x";
    assert forall m | 0 <= m < |digits| :: text[m] in digits;
    DigitsEndAt(text, 0, |digits|);
  }

  /** Such a text: nineteen nines and a letter are read as a number past the end. */
  lemma OverlongTextIsMisread()
    ensures var text := Nines(19) + "x"; !IsInteger(text) && Reading(text) == Some(Above)
  {
    hide Nines, DigitsEnd, Value, Power;
    var text := Nines(19) + "x";
    assert text[0] in Nines(19) && Body(text) == text && !IsNegative(text);
    DigitsThenLetter(Nines(19));
    NinesValue(19);
    PowerOfNineteen();
    assert text[19] == 'x';
  }

  // ---------- range checks ----------

  /** The value held at the end of `i64` it is past. */
  function Saturated(w: WideInteger): int {
    match w
    case Fits(value) => value
    case Above => I64_MAX
    case Below => I64_MIN
  }

  /** A range inside `i64` accepts the held value exactly when it accepts the number itself. */
  lemma SaturationDecides(v: int, low: int, high: int)
    requires I64_MIN < low <= high < I64_MAX
    ensures low <= Saturated(Classify(v)) <= high <==> low <= v <= high
    ensures low <= v <= high ==> Saturated(Classify(v)) == v
    ensures Saturated(Classify(v)) < low <==> v < low
  {
  }

  datatype Verdict = Accepted(value: nat) | TooSmall | TooLarge | OutOfRange

  function DimensionValue(value: int): Verdict {
    if 0 <= value <= U32_MAX then Accepted(value) else if value <= 0 then TooSmall else TooLarge
  }

  function PercentValue(value: int): Verdict {
    if 1 <= value <= 100 then Accepted(value) else OutOfRange
  }

  /**
   A dimension or a margin, a quality and an opacity written with any number of digits are
   answered as the integer itself would be.
   */
  lemma ChecksDecideUnbounded(text: string)
    requires IsInteger(text)
    ensures Reading(text).Some?
    ensures var v, held := IntegerValue(text), Saturated(Reading(text).value);
            && DimensionValue(held) == (if v < 0 then TooSmall else if v > 4_294_967_295 then TooLarge else Accepted(v))
            && PercentValue(held) == (if v < 1 || v > 100 then OutOfRange else Accepted(v))
  {
    IntegersAreClassified(text);
  }
}
