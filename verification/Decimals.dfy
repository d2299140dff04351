/** Python decimals as sign, coefficient and exponent, and the shape an Arrow
    decimal column needs (src/polymarket/frames/_arrow.py). */
module Decimals {
  import opened Numerals

  datatype Decimal =
    | Finite(negative: bool, coefficient: nat, exponent: int)
    | Special  // infinities and NaNs

  function FromInt(n: int): Decimal {
    Finite(n < 0, if n < 0 then -n else n, 0)
  }

  function Max(a: nat, b: nat): nat {
    if a < b then b else a
  }

  function Scale(d: Decimal): nat
    requires d.Finite?
  {
    if d.exponent >= 0 then 0 else -d.exponent
  }

  function IntegerDigits(d: Decimal): nat
    requires d.Finite?
  {
    var digits := DigitCount(d.coefficient);
    if d.exponent >= 0 then digits + d.exponent else if digits + d.exponent > 0 then digits + d.exponent else 0
  }

  /** The magnitude of `d` is exactly `m / 10^scale`. */
  predicate IsUnscaled(d: Decimal, scale: nat, m: nat) {
    && d.Finite?
    && if d.exponent + scale >= 0
       then m == d.coefficient * Pow(10, d.exponent + scale)
       else d.coefficient == m * Pow(10, -(d.exponent + scale))
  }

  /** `d` is representable in an Arrow decimal of this precision and scale. */
  ghost predicate Fits(d: Decimal, precision: nat, scale: nat) {
    exists m: nat :: m < Pow(10, precision) && IsUnscaled(d, scale, m)
  }

  /** Every value fits, and the scale is not above the precision. */
  ghost predicate AllFit(ds: seq<Decimal>, precision: nat, scale: nat) {
    && 1 <= precision && scale <= precision
    && forall d | d in ds :: Fits(d, precision, scale)
  }

  predicate AllFinite(ds: seq<Decimal>) {
    forall d | d in ds :: d.Finite?
  }

  function MaxScale(ds: seq<Decimal>): (r: nat)
    requires AllFinite(ds)
    ensures forall d | d in ds :: Scale(d) <= r
    ensures r == 0 || exists d | d in ds :: Scale(d) == r
  {
    if ds == [] then 0 else Max(MaxScale(ds[..|ds| - 1]), Scale(ds[|ds| - 1]))
  }

  function MaxIntegerDigits(ds: seq<Decimal>): (r: nat)
    requires AllFinite(ds)
    ensures forall d | d in ds :: IntegerDigits(d) <= r
    ensures r == 0 || exists d | d in ds :: IntegerDigits(d) == r
  {
    if ds == [] then 0
    else Max(MaxIntegerDigits(ds[..|ds| - 1]), IntegerDigits(ds[|ds| - 1]))
  }

  function Precision(ds: seq<Decimal>): nat
    requires AllFinite(ds)
  {
    Max(1, MaxIntegerDigits(ds) + MaxScale(ds))
  }

  /** One value at a scale that covers its own: it fits exactly when its integer
      digits plus the scale do. */
  lemma FitsFromDigits(d: Decimal, precision: nat, scale: nat)
    requires d.Finite? && Scale(d) <= scale
    requires IntegerDigits(d) + scale <= precision
    ensures Fits(d, precision, scale)
  {
    var shift, digits := d.exponent + scale, DigitCount(d.coefficient);
    ShiftedBelow(d.coefficient, digits, shift);
    PowMonotone(10, digits + shift, precision);
    assert IsUnscaled(d, scale, d.coefficient * Pow(10, shift));
  }

  lemma ShiftedBelow(coefficient: nat, digits: nat, shift: nat)
    requires coefficient < Pow(10, digits)
    ensures coefficient * Pow(10, shift) < Pow(10, digits + shift)
  {
    PowPositive(10, shift);
    MulStrictMonotone(Pow(10, shift), coefficient, Pow(10, digits));
    PowAdd(10, digits, shift);
  }

  lemma NonzeroNeedsDigits(d: Decimal, precision: nat, scale: nat)
    requires d.Finite? && d.coefficient > 0 && Scale(d) <= scale
    requires IntegerDigits(d) > 0 && Fits(d, precision, scale)
    ensures IntegerDigits(d) + scale <= precision
  {
    var m: nat :| m < Pow(10, precision) && IsUnscaled(d, scale, m);
    var digits := DigitCount(d.coefficient);
    ShiftedFromBelow(d.coefficient, digits, d.exponent + scale);
    if precision < digits + d.exponent + scale {
      PowMonotone(10, precision, digits - 1 + d.exponent + scale);
    }
  }

  lemma ShiftedFromBelow(coefficient: nat, digits: nat, shift: nat)
    requires digits > 0 && Pow(10, digits - 1) <= coefficient
    ensures Pow(10, digits - 1 + shift) <= coefficient * Pow(10, shift)
  {
    PowAdd(10, digits - 1, shift);
    MulMonotone(Pow(10, shift), Pow(10, digits - 1), coefficient);
  }

  lemma ZeroAlwaysFits(d: Decimal, precision: nat, scale: nat)
    requires d.Finite? && d.coefficient == 0
    ensures Fits(d, precision, scale)
  {
    PowPositive(10, precision);
    assert IsUnscaled(d, scale, 0);
  }

  /** The scale is the least that writes every value with its own digits: no value has more
      fractional digits, and it is zero or some value's. */
  lemma ScaleIsSomeExponent(ds: seq<Decimal>)
    requires AllFinite(ds)
    ensures forall d | d in ds :: MaxScale(ds) >= -d.exponent
    ensures MaxScale(ds) == 0 || exists d | d in ds :: MaxScale(ds) == -d.exponent
  {
    if MaxScale(ds) > 0 {
      var d :| d in ds && Scale(d) == MaxScale(ds);
      assert MaxScale(ds) == -d.exponent;
    }
  }

  lemma ScaleIsLeast(ds: seq<Decimal>, s: nat)
    requires AllFinite(ds) && forall d | d in ds :: s >= -d.exponent
    ensures MaxScale(ds) <= s
  {
    ScaleIsSomeExponent(ds);
  }

  /** The chosen precision and scale represent every value of the column exactly. */
  lemma PrecisionFitsAll(ds: seq<Decimal>)
    requires AllFinite(ds)
    ensures AllFit(ds, Precision(ds), MaxScale(ds))
  {
    forall d | d in ds
      ensures Fits(d, Precision(ds), MaxScale(ds))
    {
      FitsFromDigits(d, Precision(ds), MaxScale(ds));
    }
  }

  /** Some nonzero value is as wide as the widest value of the column. */
  ghost predicate WidestIsNonzero(ds: seq<Decimal>)
    requires AllFinite(ds)
  {
    exists d | d in ds :: d.coefficient > 0 && IntegerDigits(d) == MaxIntegerDigits(ds)
  }

  ghost predicate PrecisionIsLeast(ds: seq<Decimal>)
    requires AllFinite(ds)
  {
    forall p: nat :: AllFit(ds, p, MaxScale(ds)) ==> Precision(ds) <= p
  }

  /** The chosen precision is the least that fits, except when only zeros (such as
      0E+9) reach the column's integer digit count. */
  lemma PrecisionLeastIff(ds: seq<Decimal>)
    requires AllFinite(ds)
    ensures PrecisionIsLeast(ds) <==>
            Precision(ds) == 1 || MaxIntegerDigits(ds) == 0 || WidestIsNonzero(ds)
  {
    var s, w := MaxScale(ds), MaxIntegerDigits(ds);
    if Precision(ds) == 1 || w == 0 {
    } else if WidestIsNonzero(ds) {
      var d :| d in ds && d.coefficient > 0 && IntegerDigits(d) == w;
      forall p: nat | AllFit(ds, p, s)
        ensures Precision(ds) <= p
      {
        NonzeroNeedsDigits(d, p, s);
      }
    } else {
      var p := Precision(ds) - 1;
      forall d | d in ds
        ensures Fits(d, p, s)
      {
        if d.coefficient == 0 {
          ZeroAlwaysFits(d, p, s);
        } else {
          FitsFromDigits(d, p, s);
        }
      }
      assert AllFit(ds, p, s);
    }
  }

  lemma ColumnOfZerosIsWider()
    ensures Precision([Finite(false, 0, 5)]) == 6
    ensures !PrecisionIsLeast([Finite(false, 0, 5)])
  {
    var ds := [Finite(false, 0, 5)];
    assert ds[..0] == [];
    assert DigitCount(0) == 1;
    assert MaxIntegerDigits(ds) == 6 && MaxScale(ds) == 0;
    forall d | d in ds ensures Fits(d, 1, 0) { ZeroAlwaysFits(d, 1, 0); }
    assert AllFit(ds, 1, 0);
  }
}
