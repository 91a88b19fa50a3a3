/**
 What printf prints: the fixed and scientific layouts of a natural number of decimal units
 (C17, section 7.21.6.1), as functions from numbers to text.
 */
module DecimalWriting {
  import opened Powers
  import opened NumberText

  function DigitChar(d: nat): char
    requires d < 10
  {
    '0' + d as char
  }

  // The k lowest decimal digits of v.
  function LowDigits(v: nat, k: nat): (s: string)
    ensures |s| == k
  {
    if k == 0 then "" else LowDigits(v / 10, k - 1) + [DigitChar(v % 10)]
  }

  // How many digits v takes; zero takes one.
  function DigitCount(v: nat): (k: nat)
    ensures k > 0
  {
    if v < 10 then 1 else DigitCount(v / 10) + 1
  }

  function Decimal(v: nat): string {
    LowDigits(v, DigitCount(v))
  }

  // r units of 10^-precision with precision digits after the point.
  function FixedText(r: nat, precision: nat, alt: bool): string {
    Decimal(r / Pow(10, precision))
    + if precision > 0 then "." + LowDigits(r, precision) else if alt then "." else ""
  }

  // precision + 1 digits with one before the point, and at least two digits of exponent.
  function ScientificText(r: nat, precision: nat, exponent: int, alt: bool, uppercase: bool): string {
    var digits := LowDigits(r, precision + 1);
    [digits[0]]
    + (if precision > 0 then "." + digits[1..] else if alt then "." else "")
    + [if uppercase then 'E' else 'e', if exponent < 0 then '-' else '+']
    + ExponentText(if exponent < 0 then -exponent else exponent)
  }

  function ExponentText(magnitude: nat): string {
    LowDigits(magnitude, Max(2, DigitCount(magnitude)))
  }

  // r and precision without the trailing zeros of the fraction.
  function Stripped(r: nat, precision: nat): (nat, nat) {
    if precision > 0 && r % 10 == 0 then Stripped(r / 10, precision - 1) else (r, precision)
  }

  predicate AllDigits(s: string) {
    forall k :: 0 <= k < |s| ==> IsDigit(s[k])
  }

  lemma {:induction false} LowDigitsNumeral(v: nat, k: nat)
    ensures AllDigits(LowDigits(v, k))
    ensures Numeral(LowDigits(v, k), 10) == v % Pow(10, k)
  {
    hide Pow, Numeral;
    if k == 0 {
      EmptyNumeral(10);
      PowZero(10);
    } else {
      var high, last := LowDigits(v / 10, k - 1), DigitChar(v % 10);
      LowDigitsNumeral(v / 10, k - 1);
      LastDigitChar(v);
      NumeralAppend(high, last, 10);
      PowNext(10, k - 1);
      LowStep(v, Pow(10, k - 1));
    }
  }

  lemma LastDigitChar(v: nat)
    ensures v % 10 < 10 && IsDigit(DigitChar(v % 10)) && DigitValue(DigitChar(v % 10), 10) == v % 10
  {}

  lemma LowStep(v: nat, p: nat)
    requires p > 0
    ensures v % (10 * p) == v / 10 % p * 10 + v % 10
  {
    var q, r := v / 10 / p, v / 10 % p;
    QuotientRemainder(v / 10, p);
    Assoc(q, p, 10);
    Commute(p, 10);
    DivModUnique(v, 10 * p, q, r * 10 + v % 10);
  }

  lemma {:induction false} DigitCountBounds(v: nat)
    ensures v < Pow(10, DigitCount(v))
    ensures v > 0 ==> Pow(10, DigitCount(v) - 1) <= v
  {
    if v < 10 {
      assert Pow(10, 1) == 10 && Pow(10, 0) == 1;
    } else {
      DigitCountBounds(v / 10);
      assert Pow(10, DigitCount(v)) == 10 * Pow(10, DigitCount(v) - 1);
      assert Pow(10, DigitCount(v) - 1) == 10 * Pow(10, DigitCount(v) - 2);
    }
  }

  lemma DigitCountUnique(v: nat, k: nat)
    requires k > 0 && v < Pow(10, k) && (Pow(10, k - 1) <= v || k == 1)
    ensures DigitCount(v) == k
  {
    hide Pow, DigitCount;
    DigitCountBounds(v);
    if DigitCount(v) < k { PowMono(10, DigitCount(v), k - 1); }
    if k < DigitCount(v) { PowMono(10, k, DigitCount(v) - 1); SmallCount(v); }
  }

  lemma SmallCount(v: nat)
    ensures v == 0 ==> DigitCount(v) == 1
  {}

  // A numeral without a leading zero is how its value is written.
  lemma CanonicalText(s: string)
    requires s != "" && AllDigits(s) && (s[0] != '0' || |s| == 1)
    ensures s == Decimal(Numeral(s, 10))
  {
    hide Pow, Numeral, LowDigits;
    var v := Numeral(s, 10);
    NumeralBound(s, 10);
    if |s| > 1 { LeadingDigit(s); }
    DigitCountUnique(v, |s|);
    LowDigitsNumeral(v, |s|);
    ModBelow(v, Pow(10, |s|));
    NumeralInjective(s, LowDigits(v, |s|));
  }

  lemma LeadingDigit(s: string)
    requires s != "" && AllDigits(s) && s[0] != '0'
    ensures Pow(10, |s| - 1) <= Numeral(s, 10)
  {
    hide Pow, Numeral;
    assert s == [s[0]] + s[1..];
    NumeralConcat([s[0]], s[1..], 10);
    OneDigitNumeral(s[0]);
    MulMono(1, Numeral([s[0]], 10), Pow(10, |s| - 1));
  }

  lemma OneDigitNumeral(c: char)
    requires IsDigit(c)
    ensures Numeral([c], 10) == (c - '0') as nat
  {
    DecimalDigit(c);
    assert [c] == "" + [c];
    NumeralAppend("", c, 10);
  }

  // Any digits of the right length and value are the low digits.
  lemma LowDigitsText(s: string, v: nat)
    requires AllDigits(s) && Numeral(s, 10) == v % Pow(10, |s|)
    ensures s == LowDigits(v, |s|)
  {
    LowDigitsNumeral(v, |s|);
    NumeralInjective(s, LowDigits(v, |s|));
  }

  function Zeros(k: nat): (s: string)
    ensures |s| == k && forall i :: 0 <= i < k ==> s[i] == '0'
  {
    seq(k, _ => '0')
  }

  lemma {:induction false} ZerosNumeral(k: nat)
    ensures Numeral(Zeros(k), 10) == 0
  {
    if k > 0 {
      ZerosNumeral(k - 1);
      assert Zeros(k) == Zeros(k - 1) + ['0'];
      NumeralAppend(Zeros(k - 1), '0', 10);
    }
  }

  // Trailing zeros scale a numeral, leading zeros do not change it.
  lemma PaddedNumeral(s: string, k: nat)
    ensures Numeral(s + Zeros(k), 10) == Numeral(s, 10) * Pow(10, k)
    ensures Numeral(Zeros(k) + s, 10) == Numeral(s, 10)
  {
    hide Pow, Numeral;
    ZerosNumeral(k);
    NumeralConcat(s, Zeros(k), 10);
    NumeralConcat(Zeros(k), s, 10);
    TimesZero(Pow(10, |s|));
  }

  // A run of digits with its value split at the point is the fixed layout of that value.
  lemma FixedIs(whole: string, part: string, r: nat, alt: bool)
    requires whole != "" && AllDigits(whole) && AllDigits(part) && (whole[0] != '0' || |whole| == 1)
    requires r == Numeral(whole + part, 10)
    ensures whole + (if |part| > 0 then "." + part else if alt then "." else "") == FixedText(r, |part|, alt)
  {
    hide Pow, Numeral, LowDigits;
    NumeralConcat(whole, part, 10);
    NumeralBound(part, 10);
    DivModUnique(r, Pow(10, |part|), Numeral(whole, 10), Numeral(part, 10));
    CanonicalText(whole);
    LowDigitsText(part, r);
  }

  /** Read back, the fixed layout is r units of 10^-precision, without leading zeros before the point. */
  lemma FixedReads(r: nat, precision: nat, alt: bool)
    ensures var whole, part := Decimal(r / Pow(10, precision)), LowDigits(r, precision);
            && FixedText(r, precision, alt) == whole + (if precision > 0 then "." + part else if alt then "." else "")
            && AllDigits(whole + part) && |part| == precision && Numeral(whole + part, 10) == r
            && (whole[0] != '0' || |whole| == 1)
  {
    hide Pow, Numeral, LowDigits;
    var p := Pow(10, precision);
    var q := r / p;
    QuotientRemainder(r, p);
    DecimalReads(q);
    LowDigitsNumeral(r, precision);
    NumeralConcat(Decimal(q), LowDigits(r, precision), 10);
  }

  lemma DecimalReads(v: nat)
    ensures Decimal(v) != "" && AllDigits(Decimal(v)) && Numeral(Decimal(v), 10) == v
    ensures Decimal(v)[0] != '0' || |Decimal(v)| == 1
  {
    hide Pow, Numeral, LowDigits, DigitCount;
    DigitCountBounds(v);
    LowDigitsNumeral(v, DigitCount(v));
    ModBelow(v, Pow(10, DigitCount(v)));
    LeadingZeroBound(Decimal(v));
    SmallCount(v);
  }

  lemma LeadingZeroBound(s: string)
    requires s != "" && AllDigits(s)
    ensures s[0] == '0' ==> Numeral(s, 10) < Pow(10, |s| - 1)
  {
    hide Pow, Numeral;
    assert s == [s[0]] + s[1..];
    NumeralConcat([s[0]], s[1..], 10);
    OneDigitNumeral(s[0]);
    TimesZero(Pow(10, |s| - 1));
    NumeralBound(s[1..], 10);
  }
}
