/** Digit strings: the number one denotes in a base, and the string that writes a number. */
module DigitStrings {
  import opened Numerals

  /** The digit a character stands for; 16 when it stands for none. */
  function DigitOf(c: char): nat {
    if '0' <= c <= '9' then c as int - '0' as int
    else if 'a' <= c <= 'f' then c as int - 'a' as int + 10
    else if 'A' <= c <= 'F' then c as int - 'A' as int + 10
    else 16
  }

  function DigitChar(digit: nat): (c: char)
    requires digit < 16
    ensures DigitOf(c) == digit && !('A' <= c <= 'F')
  {
    if digit < 10 then (digit + '0' as int) as char else (digit - 10 + 'a' as int) as char
  }

  predicate IsBase(base: nat) {
    2 <= base <= 16
  }

  predicate AreDigits(s: string, base: nat) {
    forall i | 0 <= i < |s| :: DigitOf(s[i]) < base
  }

  /** No upper-case digit. */
  predicate Lower(s: string) {
    forall i | 0 <= i < |s| :: !('A' <= s[i] <= 'F')
  }

  function Value(s: string, base: nat): nat
    decreases |s|
  {
    if s == "" then 0 else Value(s[..|s| - 1], base) * base + DigitOf(s[|s| - 1])
  }

  lemma QuotientShrinks(n: nat, base: nat)
    requires base >= 2 && n >= base
    ensures n / base < n
  {
    if n / base >= n {
      MulMonotone(n / base, 2, base);
      assert false;
    }
  }

  function Digits(n: nat, base: nat): (s: string)
    requires IsBase(base)
    ensures s != "" && AreDigits(s, base) && Lower(s)
  {
    if n < base then
      [DigitChar(n)]
    else
      QuotientShrinks(n, base);
      Digits(n / base, base) + [DigitChar(n % base)]
  }

  lemma ValueOfAppend(s: string, c: char, base: nat)
    ensures Value(s + [c], base) == Value(s, base) * base + DigitOf(c)
  {
    assert (s + [c])[..|s|] == s;
  }

  lemma QuotientAndRemainder(n: nat, base: nat)
    requires base > 0
    ensures n / base * base + n % base == n
  {}

  lemma {:induction false} DigitsValue(n: nat, base: nat)
    requires IsBase(base)
    ensures Value(Digits(n, base), base) == n
  {
    if n < base {
      ValueOfAppend("", DigitChar(n), base);
      assert "" + [DigitChar(n)] == [DigitChar(n)];
    } else {
      QuotientShrinks(n, base);
      DigitsValue(n / base, base);
      ValueOfAppend(Digits(n / base, base), DigitChar(n % base), base);
      QuotientAndRemainder(n, base);
    }
  }

  function Zeros(k: nat): (s: string)
    ensures |s| == k && forall i | 0 <= i < k :: s[i] == '0'
  {
    seq(k, _ => '0')
  }

  function LeftPad(s: string, width: nat): (r: string)
    ensures |r| == if |s| < width then width else |s|
  {
    if |s| < width then Zeros(width - |s|) + s else s
  }

  /** The digits of `n`, padded on the left with zeros to at least `width`. */
  function Padded(n: nat, base: nat, width: nat): (s: string)
    requires IsBase(base)
    ensures |s| >= width && AreDigits(s, base) && Lower(s)
  {
    LeftPad(Digits(n, base), width)
  }

  lemma {:induction false} ValueOfConcat(a: string, b: string, base: nat)
    ensures Value(a + b, base) == Value(a, base) * Pow(base, |b|) + Value(b, base)
    decreases |b|
  {
    if b == "" {
      assert a + b == a;
    } else {
      var init, p := b[..|b| - 1], Pow(base, |b| - 1);
      ValueOfConcat(a, init, base);
      assert (a + b)[..|a + b| - 1] == a + init;
      assert Pow(base, |b|) == base * p;
      Distribute(Value(a, base), p, Value(init, base), base);
    }
  }

  lemma Distribute(x: nat, p: nat, y: nat, base: nat)
    ensures (x * p + y) * base == x * (base * p) + y * base
  {
    assert x * p * base == x * (base * p);
  }

  lemma {:induction false} ValueOfZeros(k: nat, base: nat)
    ensures Value(Zeros(k), base) == 0
  {
    if k == 0 {
    } else {
      ValueOfZeros(k - 1, base);
      assert Zeros(k)[..k - 1] == Zeros(k - 1);
    }
  }

  lemma AppendBelow(v: nat, digit: nat, base: nat, p: nat)
    requires v < p && digit < base
    ensures v * base + digit < base * p
  {
    MulMonotone(base, v + 1, p);
  }

  lemma {:induction false} ValueBelowPower(s: string, base: nat)
    requires AreDigits(s, base)
    ensures Value(s, base) < Pow(base, |s|)
    decreases |s|
  {
    if s == "" {
    } else {
      ValueBelowPower(s[..|s| - 1], base);
      AppendBelow(Value(s[..|s| - 1], base), DigitOf(s[|s| - 1]), base, Pow(base, |s| - 1));
    }
  }

  /** Leading zeros do not change a number. */
  lemma LeadingZeros(k: nat, s: string, base: nat)
    ensures Value(Zeros(k) + s, base) == Value(s, base)
  {
    ValueOfConcat(Zeros(k), s, base);
    ValueOfZeros(k, base);
  }

  lemma LeftPadValue(s: string, base: nat, width: nat)
    ensures Value(LeftPad(s, width), base) == Value(s, base)
  {
    if |s| < width {
      LeadingZeros(width - |s|, s, base);
    }
  }

  lemma PaddedValue(n: nat, base: nat, width: nat)
    requires IsBase(base)
    ensures Value(Padded(n, base, width), base) == n
  {
    DigitsValue(n, base);
    LeftPadValue(Digits(n, base), base, width);
  }

  lemma {:induction false} DigitsFit(n: nat, base: nat, width: nat)
    requires IsBase(base) && width > 0 && n < Pow(base, width)
    ensures |Digits(n, base)| <= width
    decreases width
  {
    if n >= base {
      assert width > 1 by {
        assert Pow(base, 1) == base * Pow(base, 0);
      }
      if n / base >= Pow(base, width - 1) {
        MulMonotone(base, Pow(base, width - 1), n / base);
        assert false;
      }
      DigitsFit(n / base, base, width - 1);
    }
  }

  /** A number below base^width is padded to exactly that width. */
  lemma PaddedLength(n: nat, base: nat, width: nat)
    requires IsBase(base) && width > 0 && n < Pow(base, width)
    ensures |Padded(n, base, width)| == width
  {
    DigitsFit(n, base, width);
  }

  lemma QuotientUnique(q: nat, r: nat, d: nat, n: nat)
    requires r < d && n == q * d + r
    ensures n / d == q && n % d == r
  {
    if n / d < q {
      MulMonotone(d, n / d + 1, q);
      assert false;
    }
    if n / d > q {
      MulMonotone(d, q + 1, n / d);
      assert false;
    }
  }

  /** Cutting a digit string divides its number: the front is the quotient, the back the
      remainder. */
  lemma CutDivides(s: string, k: nat, base: nat)
    requires IsBase(base) && AreDigits(s, base) && k <= |s|
    ensures Pow(base, |s| - k) > 0
    ensures Value(s[..k], base) == Value(s, base) / Pow(base, |s| - k)
    ensures Value(s[k..], base) == Value(s, base) % Pow(base, |s| - k)
  {
    assert s == s[..k] + s[k..];
    ValueOfConcat(s[..k], s[k..], base);
    PowPositive(base, |s| - k);
    ValueBelowPower(s[k..], base);
    QuotientUnique(Value(s[..k], base), Value(s[k..], base), Pow(base, |s| - k), Value(s, base));
  }

  lemma AppendSplits(v: nat, digit: nat, base: nat)
    requires digit < base
    ensures (v * base + digit) / base == v && (v * base + digit) % base == digit
  {
    QuotientUnique(v, digit, base, v * base + digit);
  }

  lemma SameDigitSameChar(a: char, b: char, base: nat)
    requires IsBase(base) && DigitOf(a) == DigitOf(b) < base && !('A' <= a <= 'F') && !('A' <= b <= 'F')
    ensures a == b
  {}

  /** Two lower-case digit strings of one length are equal when they denote one number. */
  lemma {:induction false} SameNumberSameDigits(a: string, b: string, base: nat)
    requires IsBase(base) && AreDigits(a, base) && AreDigits(b, base) && Lower(a) && Lower(b)
    requires |a| == |b| && Value(a, base) == Value(b, base)
    ensures a == b
    decreases |a|
  {
    if a == "" {
    } else {
      var a', b' := a[..|a| - 1], b[..|b| - 1];
      AppendSplits(Value(a', base), DigitOf(a[|a| - 1]), base);
      AppendSplits(Value(b', base), DigitOf(b[|b| - 1]), base);
      SameNumberSameDigits(a', b', base);
      SameDigitSameChar(a[|a| - 1], b[|b| - 1], base);
      assert a == a' + [a[|a| - 1]] && b == b' + [b[|b| - 1]];
    }
  }

  /** A lower-case digit string is the padded form of its own number. */
  lemma PaddedOfValue(s: string, base: nat)
    requires IsBase(base) && s != "" && AreDigits(s, base) && Lower(s)
    ensures Padded(Value(s, base), base, |s|) == s
  {
    ValueBelowPower(s, base);
    PaddedLength(Value(s, base), base, |s|);
    PaddedValue(Value(s, base), base, |s|);
    SameNumberSameDigits(Padded(Value(s, base), base, |s|), s, base);
  }

  lemma {:induction false} ZeroValueIsZeros(s: string, base: nat)
    requires IsBase(base) && AreDigits(s, base) && Lower(s)
    ensures Value(s, base) == 0 <==> s == Zeros(|s|)
  {
    ValueOfZeros(|s|, base);
    if Value(s, base) == 0 {
      assert AreDigits(Zeros(|s|), base) && Lower(Zeros(|s|));
      SameNumberSameDigits(s, Zeros(|s|), base);
    }
  }

  /** `a` comes before `b` in the dictionary, at their first difference. */
  ghost predicate Before(a: string, b: string)
    requires |a| == |b|
  {
    exists i | 0 <= i < |a| :: a[..i] == b[..i] && a[i] < b[i]
  }

  lemma DigitsOrderAsCharacters(a: char, b: char, base: nat)
    requires IsBase(base) && DigitOf(a) < base && DigitOf(b) < base && !('A' <= a <= 'F') && !('A' <= b <= 'F')
    ensures DigitOf(a) < DigitOf(b) <==> a < b
  {}

  lemma {:induction false} BeforeIsLess(a: string, b: string, i: nat, base: nat)
    requires IsBase(base) && AreDigits(a, base) && AreDigits(b, base) && Lower(a) && Lower(b)
    requires |a| == |b| && i < |a| && a[..i] == b[..i] && a[i] < b[i]
    ensures Value(a, base) < Value(b, base)
    decreases |a|
  {
    var a', b' := a[..|a| - 1], b[..|b| - 1];
    var x, y := a[|a| - 1], b[|b| - 1];
    if i == |a| - 1 {
      DigitsOrderAsCharacters(x, y, base);
    } else {
      BeforeIsLess(a', b', i, base);
      AppendKeepsLess(Value(a', base), DigitOf(x), Value(b', base), DigitOf(y), base);
    }
  }

  lemma AppendKeepsLess(v: nat, x: nat, w: nat, y: nat, base: nat)
    requires v < w && x < base
    ensures v * base + x < w * base + y
  {
    MulMonotone(base, v + 1, w);
  }

  lemma {:induction false} DifferentSomewhere(a: string, b: string) returns (i: nat)
    requires |a| == |b| && a != b
    ensures i < |a| && a[..i] == b[..i] && a[i] != b[i]
    decreases |a|
  {
    if a[0] != b[0] {
      i := 0;
    } else {
      assert a == [a[0]] + a[1..] && b == [b[0]] + b[1..];
      var j := DifferentSomewhere(a[1..], b[1..]);
      i := j + 1;
      assert a[..i] == [a[0]] + a[1..][..j] && b[..i] == [b[0]] + b[1..][..j];
    }
  }

  /** Numerals of equal length order as their texts do; with the bound on a numeral of that
      length, this leaves each digit only its usual value. */
  lemma NumeralsOrderAsText(a: string, b: string, base: nat)
    requires IsBase(base) && AreDigits(a, base) && AreDigits(b, base) && Lower(a) && Lower(b) && |a| == |b|
    ensures Value(a, base) < Value(b, base) <==> Before(a, b)
  {
    if a != b {
      var i := DifferentSomewhere(a, b);
      if a[i] < b[i] {
        BeforeIsLess(a, b, i, base);
      } else {
        BeforeIsLess(b, a, i, base);
        if Before(a, b) {
          var k :| 0 <= k < |a| && a[..k] == b[..k] && a[k] < b[k];
          BeforeIsLess(a, b, k, base);
        }
      }
    }
  }
}
