/** The inequalities between powers of two, five and ten that the float parser relies on. */
module ScaleBounds {
  import opened Powers
  import opened Limbs
  import opened Ieee754
  import opened DecimalBignum

  // 10^p fits under 2^k as soon as k reaches p * 196/59.
  lemma TenBelowTwo(p: nat, k: nat)
    requires 196 * p <= 59 * k
    ensures Pow(10, p) <= Pow(2, k)
  {
    hide Pow;
    Ten59();
    PowPow(10, p, 59);
    PowPow(10, 59, p);
    PowBaseMono(Pow(10, 59), Pow(2, 196), p);
    PowPow(2, 196, p);
    PowMono(2, 196 * p, k * 59);
    PowPow(2, k, 59);
    PowRootMono(Pow(10, p), Pow(2, k), 59);
  }

  lemma Ten59()
    ensures Pow(10, 59) <= Pow(2, 196)
  {
    hide Pow;
    PowAdd(10, 56, 3);
    PowPow(10, 8, 7);
    PowPow(2, 28, 7);
    SmallPowers();
    SevenfoldSlack();
  }

  lemma SmallPowers()
    ensures Pow(10, 8) == 100000000 && Pow(10, 3) == 1000 && Pow(2, 28) == 268435456
  {
    PowAdd(2, 14, 14);
    assert Pow(2, 14) == 16384;
  }

  lemma SevenfoldSlack()
    ensures Pow(100000000, 7) * 1000 <= Pow(268435456, 7)
  {}

  lemma TwoBelowTen(p: nat)
    ensures Pow(2, 3 * p) <= Pow(10, p)
  {
    PowPow(2, 3, p);
    assert Pow(2, 3) == 8;
    PowBaseMono(8, 10, p);
  }

  // No midpoint between doubles has more than 799 significant digits.
  lemma MidpointDigits(h: nat, t: nat)
    requires h < 4 * FRACTION && t <= 1075
    ensures h * Pow(5, t) < Pow(10, 773) < Pow(10, 799)
  {
    hide Pow;
    PowMono(5, t, 1080);
    PowPow(5, 10, 108);
    FiveTen();
    PowBaseMono(Pow(5, 10), Pow(10, 7), 108);
    PowPow(10, 7, 108);
    PowAdd(10, 17, 756);
    PowStrict(10, 773, 799);
    ProductBelow(h, Pow(5, t), Pow(10, 17), Pow(10, 756));
  }

  lemma ProductBelow(h: nat, a: nat, p: nat, b: nat)
    requires h < p && a <= b && 0 < b
    ensures h * a < p * b
  {
    Commute(h, a);
    Commute(h, b);
    MulMono(a, b, h);
    MulStrict(h, p, b);
  }

  lemma FiveTen()
    ensures Pow(5, 10) <= Pow(10, 7) && 4 * FRACTION <= Pow(10, 17)
  {
    assert Pow(5, 10) == 9765625 && Pow(10, 7) == 10000000 && Pow(10, 17) == 100000000000000000;
  }

  // The parser's scaling shift: the double constant's product with the power, truncated, plus 64.
  function ScaleShift(power: nat): nat {
    power * 33219280948873626 / 10000000000000000 + 64
  }

  lemma ScaleShiftBounds(power: nat)
    requires power <= 1200
    ensures 67 <= ScaleShift(power) || power == 0
    ensures ScaleShift(power) <= 4050
    ensures Pow(10, power) <= Pow(2, ScaleShift(power) - 62)
    ensures power >= 323 ==> ScaleShift(power) > 1075
  {
    TenBelowTwo(power, ScaleShift(power) - 62);
  }

  // Eight hundred digits shifted by the most the parser shifts still fit the bignum.
  lemma ScaledFits(digits: nat, shift: nat)
    requires digits < Pow(10, 800) && shift <= 4050
    ensures Shl(digits, shift) < Capacity()
  {
    hide Pow;
    TenBelowTwo(800, 2658);
    PowAdd(2, 2658, shift);
    MulStrict(digits, Pow(2, 2658), Pow(2, shift));
    PowMono(2, 2658 + shift, 7168);
    BaseIsTwo(224);
  }

  lemma IntegerFits(digits: nat, power: nat)
    requires digits * Pow(10, power) < Pow(10, 350)
    ensures digits * Pow(10, power) < Capacity()
  {
    hide Pow;
    TenBelowTwo(350, 1163);
    PowMono(2, 1163, 7168);
    BaseIsTwo(224);
  }
}
