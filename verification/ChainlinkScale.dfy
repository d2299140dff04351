/** Reading an integer string scaled by 10^18 as a decimal
    (src/polymarket/models/rtds_events.py). */
module ChainlinkScale {
  import opened Wrappers
  import opened Numerals
  import opened Decimals
  import opened DigitStrings

  const SCALE_DIGITS := 18
  const PRICE_SCALE := 1_000_000_000_000_000_000

  predicate IsSignedInteger(text: string) {
    var digits := if text != "" && text[0] == '-' then text[1..] else text;
    digits != "" && AreDigits(digits, 10)
  }

  function IntOf(text: string): int
    requires IsSignedInteger(text)
  {
    var v: int := Value(if text[0] == '-' then text[1..] else text, 10);
    if text[0] == '-' then -v else v
  }

  function Abs(n: int): nat {
    if n < 0 then -n else n
  }

  function StripZeros(s: string): (r: string)
    ensures r <= s && s == r + Zeros(|s| - |r|)
    ensures r == "" || r[|r| - 1] != '0'
  {
    if s == "" || s[|s| - 1] != '0' then
      s
    else
      var r := StripZeros(s[..|s| - 1]);
      assert s == s[..|s| - 1] + "0";
      assert Zeros(|s| - |r|) == Zeros(|s| - 1 - |r|) + "0";
      r
  }

  function FractionText(n: int): string {
    StripZeros(Padded(Abs(n) % PRICE_SCALE, 10, SCALE_DIGITS))
  }

  function WholeText(n: int): string {
    Digits(Abs(n) / PRICE_SCALE, 10)
  }

  function Literal(negative: bool, whole: string, fraction: string): string {
    (if negative then "-" else "") + whole + (if fraction == "" then "" else "." + fraction)
  }

  /** The text handed to the decimal constructor. */
  function NormalizedText(n: int): string {
    Literal(n < 0, WholeText(n), FractionText(n))
  }

  /** The index of the first '.', or the length. */
  function PointAt(s: string): (i: nat)
    ensures i <= |s| && (forall j | 0 <= j < i :: s[j] != '.') && (i < |s| ==> s[i] == '.')
  {
    if s == "" || s[0] == '.' then 0 else 1 + PointAt(s[1..])
  }

  /** Whether there is a minus sign, and the digits before and after the point. */
  function SplitLiteral(text: string): (bool, string, string) {
    var negative := text != "" && text[0] == '-';
    var body := if negative then text[1..] else text;
    var point := PointAt(body);
    (negative, body[..point], if point < |body| then body[point + 1..] else "")
  }

  /** The decimal a plain literal denotes, digit for digit. */
  function ParseDecimal(text: string): Option<Decimal> {
    var (negative, whole, fraction) := SplitLiteral(text);
    if whole + fraction == "" || !AreDigits(whole + fraction, 10) then None
    else Some(FromDigits(negative, whole, fraction))
  }

  /** `value` is None when it is not a string. */
  function Rescale(value: Option<string>): Result<Decimal, string> {
    if value.None? || !IsSignedInteger(value.value) then
      Failure("full_accuracy_value must be a signed integer string")
    else
      match ParseDecimal(NormalizedText(IntOf(value.value)))
      case Some(d) => Success(d)
      case None => Failure("InvalidOperation")
  }

  lemma ScaleIsPower()
    ensures Pow(10, SCALE_DIGITS) == PRICE_SCALE
  {
    assert Pow(10, 9) == 1_000_000_000;
    PowAdd(10, 9, 9);
  }

  lemma FractionDigits(n: int)
    ensures |FractionText(n)| <= SCALE_DIGITS && AreDigits(FractionText(n), 10)
    ensures Value(FractionText(n), 10) * Pow(10, SCALE_DIGITS - |FractionText(n)|) == Abs(n) % PRICE_SCALE
  {
    var rest := Abs(n) % PRICE_SCALE;
    var padded, kept := Padded(rest, 10, SCALE_DIGITS), FractionText(n);
    ScaleIsPower();
    PaddedLength(rest, 10, SCALE_DIGITS);
    PaddedValue(rest, 10, SCALE_DIGITS);
    ValueOfConcat(kept, Zeros(SCALE_DIGITS - |kept|), 10);
    ValueOfZeros(SCALE_DIGITS - |kept|, 10);
  }

  lemma {:induction false} PointAfterDigits(whole: string, tail: string)
    requires AreDigits(whole, 10) && (tail == "" || tail[0] == '.')
    ensures PointAt(whole + tail) == |whole|
  {
    if whole == "" {
      assert whole + tail == tail;
    } else {
      assert (whole + tail)[1..] == whole[1..] + tail;
      PointAfterDigits(whole[1..], tail);
    }
  }

  lemma SplitsUnsigned(whole: string, fraction: string, body: string)
    requires whole != "" && AreDigits(whole, 10) && body == Literal(false, whole, fraction)
    ensures body[0] != '-' && |whole| <= |body| && PointAt(body) == |whole| && body[..|whole|] == whole
    ensures if fraction == "" then |body| == |whole| else |whole| < |body| && body[|whole| + 1..] == fraction
  {
    var tail := if fraction == "" then "" else "." + fraction;
    assert body == whole + tail;
    PointAfterDigits(whole, tail);
  }

  lemma SplitsLiteral(negative: bool, whole: string, fraction: string)
    requires whole != "" && AreDigits(whole, 10)
    ensures SplitLiteral(Literal(negative, whole, fraction)) == (negative, whole, fraction)
  {
    var body := Literal(false, whole, fraction);
    SplitsUnsigned(whole, fraction, body);
    if negative {
      assert Literal(true, whole, fraction) == "-" + body;
      assert ("-" + body)[1..] == body;
    }
  }

  /** The decimal with these digits. */
  function FromDigits(negative: bool, whole: string, fraction: string): Decimal {
    Finite(negative, Value(whole + fraction, 10), -|fraction|)
  }

  lemma ParsesLiteral(negative: bool, whole: string, fraction: string)
    requires whole != "" && AreDigits(whole, 10) && AreDigits(fraction, 10)
    ensures ParseDecimal(Literal(negative, whole, fraction)) == Some(FromDigits(negative, whole, fraction))
  {
    SplitsLiteral(negative, whole, fraction);
  }

  function Normalized(n: int): Decimal {
    FromDigits(n < 0, WholeText(n), FractionText(n))
  }

  lemma NormalizedParses(n: int)
    ensures ParseDecimal(NormalizedText(n)) == Some(Normalized(n))
  {
    FractionDigits(n);
    ParsesLiteral(n < 0, WholeText(n), FractionText(n));
  }

  lemma Recombine(w: nat, p: nat, f: nat, q: nat, scale: nat, m: nat)
    requires scale > 0 && p * q == scale && w == m / scale && f * q == m % scale
    ensures (w * p + f) * q == m
  {
    assert w * p * q == w * scale;
  }

  lemma ExactFromParts(whole: string, kept: string, m: nat)
    requires |kept| <= SCALE_DIGITS && Value(whole, 10) == m / PRICE_SCALE
    requires Value(kept, 10) * Pow(10, SCALE_DIGITS - |kept|) == m % PRICE_SCALE
    ensures m == Value(whole + kept, 10) * Pow(10, SCALE_DIGITS - |kept|)
  {
    ValueOfConcat(whole, kept, 10);
    PowAdd(10, |kept|, SCALE_DIGITS - |kept|);
    ScaleIsPower();
    Recombine(Value(whole, 10), Pow(10, |kept|), Value(kept, 10), Pow(10, SCALE_DIGITS - |kept|), PRICE_SCALE, m);
  }

  lemma NormalizedExact(n: int)
    ensures IsUnscaled(Normalized(n), SCALE_DIGITS, Abs(n))
  {
    FractionDigits(n);
    DigitsValue(Abs(n) / PRICE_SCALE, 10);
    ExactFromParts(WholeText(n), FractionText(n), Abs(n));
  }

  lemma RescaleIsNormalized(text: string)
    requires IsSignedInteger(text)
    ensures Rescale(Some(text)) == Success(Normalized(IntOf(text)))
  {
    NormalizedParses(IntOf(text));
  }

  /** Every signed integer string is accepted, nothing else is, and the decimal times 10^18
      is exactly the integer. */
  lemma RescaleExact(value: Option<string>)
    ensures Rescale(value).Success? <==> value.Some? && IsSignedInteger(value.value)
    ensures Rescale(value).Success? ==>
              var d, n := Rescale(value).value, IntOf(value.value);
              IsUnscaled(d, SCALE_DIGITS, Abs(n)) && (d.negative <==> n < 0)
  {
    if value.Some? && IsSignedInteger(value.value) {
      RescaleIsNormalized(value.value);
      NormalizedExact(IntOf(value.value));
    }
  }

  lemma LastDigit(a: string, b: string)
    requires b != "" && AreDigits(b, 10) && b[|b| - 1] != '0'
    ensures Value(a + b, 10) % 10 != 0
  {
    assert (a + b)[..|a + b| - 1] == a + b[..|b| - 1];
  }

  lemma NormalizedHasNoTrailingZero(n: int)
    ensures var d := Normalized(n); -SCALE_DIGITS <= d.exponent <= 0 && (d.exponent < 0 ==> d.coefficient % 10 != 0)
  {
    FractionDigits(n);
    if FractionText(n) != "" {
      LastDigit(WholeText(n), FractionText(n));
    }
  }

  /** The result has between 0 and 18 fractional digits and the last of them is not zero. */
  lemma NoTrailingZero(text: string)
    requires IsSignedInteger(text)
    ensures Rescale(Some(text)).Success?
    ensures var d := Rescale(Some(text)).value;
            d.Finite? && -SCALE_DIGITS <= d.exponent <= 0 && (d.exponent < 0 ==> d.coefficient % 10 != 0)
  {
    RescaleIsNormalized(text);
    NormalizedHasNoTrailingZero(IntOf(text));
  }

  lemma ShorterNeedsZero(c1: nat, e1: nat, c2: nat, e2: nat)
    requires e1 < e2 && c1 * Pow(10, e1) == c2 * Pow(10, e2)
    ensures c1 % 10 == 0
  {
    PowAdd(10, e2 - e1, e1);
    PowPositive(10, e1);
    Factor(c1, c2, Pow(10, e2 - e1 - 1), Pow(10, e1));
  }

  lemma Factor(c1: nat, c2: nat, q: nat, p: nat)
    requires p > 0 && c1 * p == c2 * (10 * q * p)
    ensures c1 % 10 == 0
  {
    assert c2 * (10 * q * p) == 10 * (c2 * q) * p;
    Cancel(c1, 10 * (c2 * q), p);
  }

  lemma Cancel(x: nat, y: nat, k: nat)
    requires k > 0 && x * k == y * k
    ensures x == y
  {}

  lemma ShortestHasNoTrailingZero(d: Decimal, other: Decimal, m: nat)
    requires IsUnscaled(d, SCALE_DIGITS, m) && IsUnscaled(other, SCALE_DIGITS, m)
    requires -SCALE_DIGITS <= d.exponent <= 0 && other.exponent <= 0 && (d.exponent == 0 || d.coefficient % 10 != 0)
    ensures other.exponent <= d.exponent
  {
    if other.exponent > d.exponent {
      ShorterNeedsZero(d.coefficient, d.exponent + SCALE_DIGITS, other.coefficient, other.exponent + SCALE_DIGITS);
    }
  }

  /** It is the shortest: no decimal equal to integer / 10^18 has fewer fractional digits. */
  lemma FewestFractionDigits(text: string, other: Decimal)
    requires IsSignedInteger(text) && other.Finite? && other.exponent <= 0
    requires IsUnscaled(other, SCALE_DIGITS, Abs(IntOf(text)))
    ensures Rescale(Some(text)).Success? && other.exponent <= Rescale(Some(text)).value.exponent
  {
    var n := IntOf(text);
    RescaleIsNormalized(text);
    NormalizedExact(n);
    NormalizedHasNoTrailingZero(n);
    ShortestHasNoTrailingZero(Normalized(n), other, Abs(n));
  }

  lemma SameMagnitude(d: Decimal, n1: int, n2: int)
    requires d.Finite? && d.exponent + SCALE_DIGITS >= 0
    requires IsUnscaled(d, SCALE_DIGITS, Abs(n1)) && IsUnscaled(d, SCALE_DIGITS, Abs(n2))
    requires (n1 < 0) == (n2 < 0)
    ensures n1 == n2
  {}

  lemma NormalizedInjective(n1: int, n2: int)
    ensures Normalized(n1) == Normalized(n2) <==> n1 == n2
  {
    NormalizedExact(n1);
    NormalizedExact(n2);
    FractionDigits(n1);
    if Normalized(n1) == Normalized(n2) {
      SameMagnitude(Normalized(n1), n1, n2);
    }
  }

  /** Two strings give the same decimal exactly when they denote the same integer. */
  lemma SameDecimalIffSameInteger(a: string, b: string)
    requires IsSignedInteger(a) && IsSignedInteger(b)
    ensures Rescale(Some(a)) == Rescale(Some(b)) <==> IntOf(a) == IntOf(b)
  {
    RescaleIsNormalized(a);
    RescaleIsNormalized(b);
    NormalizedInjective(IntOf(a), IntOf(b));
  }

  /** Leading zeros never matter, and neither does a minus sign before zero. */
  lemma SpellingsOfOneInteger(digits: string, zeros: nat, v: int)
    requires digits != "" && AreDigits(digits, 10) && v == Value(digits, 10)
    ensures var padded := Zeros(zeros) + digits;
            && IsSignedInteger(padded) && IntOf(padded) == v
            && IsSignedInteger("-" + padded) && IntOf("-" + padded) == -v
  {
    var padded := Zeros(zeros) + digits;
    LeadingZeros(zeros, digits, 10);
    assert DigitOf(padded[0]) < 10;
    assert ("-" + padded)[1..] == padded;
  }
}
