/**
 DecimalToDouble: scales a decimal exactly, or divides it with every discarded remainder folded
 into the sticky flag, and hands it to AssembleDouble for the only rounding.
 */
module DecimalScaling {
  import opened Powers
  import opened Limbs
  import opened Ieee754
  import opened DecimalBignum
  import opened DoubleAssembly
  import opened ScaleBounds

  // One unit of the last decimal place, 10^exponent, over the denominator d.
  ghost function DecimalUnit(exponent: int, d: nat): (u: nat)
    ensures d > 0 ==> u > 0
  {
    MulMono(1, Pow(2, 1074), d);
    MulMono(1, Up(10, exponent), Pow(2, 1074) * d);
    Up(10, exponent) * (Pow(2, 1074) * d)
  }

  // n/d (in units of 2^-1074) is digits * 10^exponent exactly, or, when sticky, lies strictly
  // between that and the next multiple of 10^exponent.
  ghost predicate DecimalHolds(digits: nat, exponent: int, sticky: bool, n: nat, d: nat) {
    var u, x := DecimalUnit(exponent, d), n * Up(10, -exponent);
    d > 0 && digits * u <= x < digits * u + u && (sticky <==> digits * u < x)
  }

  // What the code computes, on numbers.
  ghost function Scaled(digits: nat, exponent: int, sticky: bool): nat {
    if digits == 0 then Assembled(0, 0, false)
    else if exponent >= 0 then Assembled(digits * Pow(10, exponent), 0, sticky)
    else
      var shift: int, ten := ScaleShift(-exponent), Pow(10, -exponent);
      Assembled(Shl(digits, shift) / ten, -shift, sticky || Shl(digits, shift) % ten != 0)
  }

  // ── Exact integers ──────────────────────────────────────────────

  lemma IntegerHolds(digits: nat, exponent: int, n: nat, d: nat)
    requires DecimalHolds(digits, exponent, false, n, d) && exponent >= 0
    ensures Holds(digits * Pow(10, exponent), 0, false, n, d)
    ensures n == digits * Pow(10, exponent) * (Pow(2, 1074) * d)
  {
    Assoc(digits, Pow(10, exponent), Pow(2, 1074) * d);
    NoFraction(n);
    HoldsExactly(digits * Pow(10, exponent), n, d);
  }

  lemma NoFraction(n: nat)
    ensures n * Pow(10, 0) == n && n * Pow(2, 0) == n
  {}

  lemma HoldsExactly(m: nat, n: nat, d: nat)
    requires d > 0 && n == m * (Pow(2, 1074) * d)
    ensures Holds(m, 0, false, n, d)
  {
    hide Pow;
    assert Unit(0, d) == Pow(2, 1074) * d;
    NoFraction(n);
  }

  lemma IntegerCorrect(digits: nat, exponent: int, n: nat, d: nat)
    requires DecimalHolds(digits, exponent, false, n, d) && exponent >= 0
    ensures NearestEven(n, d, Scaled(digits, exponent, false)) && 2 * n != d
  {
    hide Pow, NearestEven, Assembled, Length, DecimalHolds, Holds;
    IntegerHolds(digits, exponent, n, d);
    if digits == 0 {
      TimesZero(Pow(10, exponent));
      TimesZero(Pow(2, 1074) * d);
      HoldsDenominator(digits * Pow(10, exponent), 0, false, n, d);
      HoldsExactly(0, 0, d);
      AssembledCorrect(0, 0, false, n, d);
    } else {
      HoldsDenominator(digits * Pow(10, exponent), 0, false, n, d);
      AssembledCorrect(digits * Pow(10, exponent), 0, false, n, d);
      IntegerNotHalf(digits, Pow(10, exponent), Pow(2, 1074), n, d);
    }
  }

  lemma HoldsDenominator(m: nat, exponent2: int, sticky: bool, n: nat, d: nat)
    requires Holds(m, exponent2, sticky, n, d)
    ensures d > 0
  {}

  lemma IntegerNotHalf(digits: nat, ten: nat, two: nat, n: nat, d: nat)
    requires digits > 0 && ten > 0 && two > 0 && d > 0 && n == digits * ten * (two * d)
    ensures d <= n
  {
    MulMono(1, digits, ten);
    MulMono(1, two, d);
    MulMono(1, digits * ten, two * d);
  }

  // ── Fractions ───────────────────────────────────────────────────

  // The quotient of the shifted digits carries at least 63 bits.
  lemma QuotientLength(digits: nat, power: nat)
    requires digits > 0 && 0 < power <= 1200
    ensures Length(Shl(digits, ScaleShift(power)) / Pow(10, power)) >= 63
  {
    hide Pow, Length;
    var shift: int := ScaleShift(power);
    var q := Shl(digits, shift) / Pow(10, power);
    ScaleShiftBounds(power);
    PowAdd(2, 62, shift - 62);
    MulMono(Pow(10, power), Pow(2, shift - 62), Pow(2, 62));
    MulMono(1, digits, Pow(2, shift));
    QuotientAtLeast(Shl(digits, shift), Pow(10, power), Pow(2, 62));
    if Length(q) <= 62 { PowMono(2, Length(q), 62); }
  }

  lemma QuotientAtLeast(a: nat, d: nat, lo: nat)
    requires d > 0 && lo * d <= a
    ensures lo <= a / d
  {
    QuotientRemainder(a, d);
    Distribute(d, a / d, 1);
    MulCancelStrict(lo, a / d + 1, d);
  }

  // Scaling x * 10^p by the shift, on both sides of the binary point.
  lemma ShiftBalance(shift: nat)
    ensures Pow(2, 1074) * Up(2, shift - 1074) == Pow(2, shift) * Up(2, 1074 - shift)
  {
    hide Pow;
    TimesOne(Pow(2, shift));
    TimesOne(Pow(2, 1074));
    PowZero(2);
    if shift <= 1074 {
      PowAdd(2, shift, 1074 - shift);
    } else {
      PowAdd(2, 1074, shift - 1074);
    }
  }

  // Dividing exactly held digits leaves a quotient and a sticky flag that hold the same value.
  lemma QuotientHolds(digits: nat, power: nat, n: nat, d: nat)
    requires power > 0 && d > 0
    requires n * Pow(10, power) == digits * (Pow(2, 1074) * d)
    ensures var a, ten, shift: int := Shl(digits, ScaleShift(power)), Pow(10, power), ScaleShift(power);
            Holds(a / ten, -shift, a % ten != 0, n, d)
  {
    hide Pow;
    var shift: int := ScaleShift(power);
    var a, ten := Shl(digits, shift), Pow(10, power);
    var u := Unit(-shift, d);
    ShiftBalance(shift);
    QuotientRemainder(a, ten);
    QuotientScale(digits, Pow(2, 1074), d, n, ten, Up(2, shift - 1074), Pow(2, shift), Up(2, 1074 - shift));
    assert u == Up(2, 1074 - shift) * d;
    QuotientCell(n * Up(2, shift - 1074), ten, a / ten, a % ten, u);
  }

  lemma QuotientScale(digits: int, b: int, d: int, n: int, ten: int, up: int, p: int, down: int)
    requires n * ten == digits * (b * d) && b * up == p * down
    ensures (n * up) * ten == (digits * p) * (down * d)
  {
    Commute(n, up);
    Assoc(up, n, ten);
    FourWay(digits, up, b, d);
    FourWay(digits, p, down, d);
    QuotientScaleOrder(digits, b, d, up, p, down);
  }

  lemma QuotientScaleOrder(digits: int, b: int, d: int, up: int, p: int, down: int)
    requires b * up == p * down
    ensures up * (digits * (b * d)) == (digits * p) * (down * d)
  {
    Assoc(digits, b, d);
    calc {
      up * (digits * (b * d));
      { Assoc(up, digits, b * d); Commute(up, digits); Assoc(digits, up, b * d); Assoc(up, b, d); Commute(up, b); }
      digits * ((b * up) * d);
      { Assoc(p, down, d); Assoc(digits, p, down * d); }
      (digits * p) * (down * d);
    }
  }

  lemma QuotientCell(x: nat, ten: nat, q: nat, r: nat, u: nat)
    requires ten > 0 && u > 0 && r < ten && x * ten == (q * ten + r) * u
    ensures q * u <= x < q * u + u
    ensures r != 0 <==> q * u < x
  {
    Distribute(u, q * ten, r);
    Commute(q, ten);
    Assoc(ten, q, u);
    Commute(ten, q * u);
    Distribute(ten, q * u, u);
    MulMono(0, r, u);
    MulStrict(r, ten, u);
    Commute(ten, u);
    MulCancel(q * u, x, ten);
    MulCancelStrict(x, q * u + u, ten);
    if r != 0 { MulStrict(0, r, u); MulCancelStrict(q * u, x, ten); } else { TimesZero(u); }
  }

  lemma FractionCorrect(digits: nat, power: int, n: nat, d: nat)
    requires DecimalHolds(digits, -power, false, n, d) && 0 < power <= 1200 && digits > 0
    ensures NearestEven(n, d, Scaled(digits, -power, false)) <==> 2 * n != d
    ensures 2 * n == d ==> Scaled(digits, -power, false) == 1
  {
    hide Pow, NearestEven, Assembled, Length, Holds, Shl, ScaleShift;
    FractionScale(digits, power, n, d);
    QuotientHolds(digits, power, n, d);
    QuotientLength(digits, power);
    var a, ten, shift: int := Shl(digits, ScaleShift(power)), Pow(10, power), ScaleShift(power);
    AssembledCorrect(a / ten, -shift, a % ten != 0, n, d);
  }

  lemma FractionScale(digits: nat, power: int, n: nat, d: nat)
    requires power >= 0 && DecimalHolds(digits, -power, false, n, d)
    ensures d > 0 && n * Pow(10, power) == digits * (Pow(2, 1074) * d)
  {
    hide Pow;
    UnitOfFraction(power, d);
  }

  lemma UnitOfFraction(power: int, d: nat)
    requires power >= 0
    ensures DecimalUnit(-power, d) == Pow(2, 1074) * d
  {
    hide Pow;
    PowZero(10);
  }

  // ── Truncated digits ────────────────────────────────────────────

  // A tick above the truncated digits, small enough to stay in the quotient's cell.
  lemma TickHolds(digits: nat, power: nat)
    requires power > 0
    ensures var a, ten, shift: int := Shl(digits, ScaleShift(power)), Pow(10, power), ScaleShift(power);
            Holds(a / ten, -shift, true, (2 * a + 1) * Pow(2, 1074), 2 * Pow(2, shift) * ten)
  {
    hide Pow;
    var shift: int := ScaleShift(power);
    var a, ten, p := Shl(digits, shift), Pow(10, power), Pow(2, shift);
    var n, d := (2 * a + 1) * Pow(2, 1074), 2 * p * ten;
    MulStrict(0, p, ten);
    Assoc(2, p, ten);
    ShiftBalance(shift);
    QuotientRemainder(a, ten);
    var down := Up(2, 1074 - shift);
    TickScale(a, Pow(2, 1074), Up(2, shift - 1074), p, down);
    assert Unit(-shift, d) == down * d;
    TickCell(a, ten, a / ten, a % ten, p, down);
    MulStrict(0, p, down);
    Assoc(down, 2 * p, ten);
    TickUnit(down, p, ten);
  }

  lemma TickScale(a: int, b: int, up: int, p: int, down: int)
    requires b * up == p * down
    ensures (2 * a + 1) * b * up == (2 * a + 1) * (p * down)
  {
    Assoc(2 * a + 1, b, up);
  }

  lemma TickUnit(down: int, p: int, ten: int)
    ensures down * (2 * p * ten) == 2 * ten * (p * down)
  {
    Assoc(2, p, ten);
    Assoc(2, ten, p * down);
    Assoc(ten, p, down);
    Commute(ten, p);
    Commute(p * ten, down);
    TwiceSwap(down, p * ten);
  }

  lemma TickCell(a: nat, ten: nat, q: nat, r: nat, p: nat, down: nat)
    requires ten > 0 && p > 0 && down > 0 && r < ten && a == q * ten + r
    ensures var u := 2 * ten * (p * down);
            q * u < (2 * a + 1) * (p * down) < q * u + u
  {
    var g := p * down;
    MulStrict(0, p, down);
    Assoc(q, 2 * ten, g);
    Assoc(q, 2, ten);
    TwiceSwap(q, ten);
    MulStrict(2 * (q * ten), 2 * a + 1, g);
    Distribute(g, q * (2 * ten), 2 * ten);
    MulStrict(2 * a + 1, 2 * (q * ten) + 2 * ten, g);
  }

  // No midpoint lies strictly between two consecutive decimals of 800 digits.
  lemma NoMidpointBetweenDecimals(digits: nat, power: nat, k: nat)
    requires Pow(10, 799) <= digits && k < INFINITY
    ensures Pow(10, power) * Midpoint(k) <= digits * Pow(2, 1075)
         || (digits + 1) * Pow(2, 1075) <= Pow(10, power) * Midpoint(k)
  {
    hide Pow;
    var h, j := MidpointShape(k);
    var ten := Pow(10, power);
    if digits * Pow(2, 1075) < ten * Midpoint(k) && ten * Midpoint(k) < (digits + 1) * Pow(2, 1075) {
      if j >= 1075 {
        PowAdd(2, j - 1075, 1075);
        Assoc(h, Pow(2, j - 1075), Pow(2, 1075));
        Assoc(ten, h * Pow(2, j - 1075), Pow(2, 1075));
        StrictlyBetween(digits, ten * (h * Pow(2, j - 1075)), Pow(2, 1075));
      } else {
        var t := 1075 - j;
        PowAdd(2, t, j);
        CancelTwos(digits, ten, h, Pow(2, t), Pow(2, j), Pow(2, 1075), Midpoint(k));
        Ten(t);
        TimesFives(digits, ten, h, Pow(2, t), Pow(5, t), Pow(10, t));
        if power >= t {
          PowAdd(10, power - t, t);
          SwapLast(Pow(10, power - t), Pow(10, t), h * Pow(5, t));
          StrictlyBetween(digits, Pow(10, power - t) * (h * Pow(5, t)), Pow(10, t));
        } else {
          PowAdd(10, t - power, power);
          Assoc(digits, Pow(10, t - power), ten);
          Commute(ten, h * Pow(5, t));
          MulCancelStrict(digits * Pow(10, t - power), h * Pow(5, t), ten);
          MidpointDigits(h, t);
          MulMono(1, Pow(10, t - power), digits);
          Commute(digits, Pow(10, t - power));
        }
      }
    }
  }

  lemma StrictlyBetween(a: int, b: int, p: int)
    requires p > 0
    ensures !(a * p < b * p < (a + 1) * p)
  {
    if a * p < b * p < (a + 1) * p {
      MulCancelStrict(a, b, p);
      MulCancelStrict(b, a + 1, p);
    }
  }

  lemma CancelTwos(digits: int, ten: int, h: int, p: int, q: int, pq: int, mid: int)
    requires q > 0 && pq == p * q && mid == h * q
    requires digits * pq < ten * mid < (digits + 1) * pq
    ensures digits * p < ten * h < (digits + 1) * p
  {
    Assoc(digits, p, q);
    Assoc(digits + 1, p, q);
    Assoc(ten, h, q);
    MulCancelStrict(digits * p, ten * h, q);
    MulCancelStrict(ten * h, (digits + 1) * p, q);
  }

  lemma TimesFives(digits: int, ten: int, h: int, p: int, f: int, pf: int)
    requires f > 0 && pf == p * f && digits * p < ten * h < (digits + 1) * p
    ensures digits * pf < ten * (h * f) < (digits + 1) * pf
  {
    MulStrict(digits * p, ten * h, f);
    MulStrict(ten * h, (digits + 1) * p, f);
    Assoc(digits, p, f);
    Assoc(digits + 1, p, f);
    Assoc(ten, h, f);
  }

  // n/d lies strictly between two consecutive multiples of 10^-power, over 2^-1074.
  ghost predicate InGap(digits: nat, ten: nat, n: nat, d: nat) {
    digits * (Pow(2, 1074) * d) < n * ten < (digits + 1) * (Pow(2, 1074) * d)
  }

  lemma GapOfTruncated(digits: nat, power: int, n: nat, d: nat)
    requires power >= 0 && DecimalHolds(digits, -power, true, n, d)
    ensures d > 0 && InGap(digits, Pow(10, power), n, d)
  {
    hide Pow;
    UnitOfFraction(power, d);
    Distribute(Pow(2, 1074) * d, digits, 1);
  }

  lemma GapOfTick(digits: nat, ten: nat, p: nat)
    requires p > 0 && ten > 0
    ensures InGap(digits, ten, (2 * (digits * p) + 1) * Pow(2, 1074), 2 * p * ten)
  {
    hide Pow;
    var two := Pow(2, 1074);
    MulStrict(0, two, ten);
    GapArith(digits, ten, p, two);
    MulStrict(2 * (digits * p), 2 * (digits * p) + 1, two * ten);
    MulStrict(2 * (digits * p) + 1, 2 * ((digits + 1) * p), two * ten);
  }

  lemma GapArith(digits: int, ten: int, p: int, two: int)
    requires p > 0
    ensures digits * (two * (2 * p * ten)) == 2 * (digits * p) * (two * ten)
    ensures (digits + 1) * (two * (2 * p * ten)) == 2 * ((digits + 1) * p) * (two * ten)
    ensures (2 * (digits * p) + 1) * two * ten == (2 * (digits * p) + 1) * (two * ten)
    ensures 2 * (digits * p) + 1 < 2 * ((digits + 1) * p)
  {
    GapSide(digits, ten, p, two);
    GapSide(digits + 1, ten, p, two);
    Assoc(2 * (digits * p) + 1, two, ten);
    Distribute(p, digits, 1);
  }

  lemma GapSide(digits: int, ten: int, p: int, two: int)
    ensures digits * (two * (2 * p * ten)) == 2 * (digits * p) * (two * ten)
  {
    Assoc(two, 2 * p, ten);
    Commute(two, 2 * p);
    Assoc(2 * p, two, ten);
    Assoc(digits, 2 * p, two * ten);
    TwiceSwap(digits, p);
  }

  // No midpoint over the denominator d lies in the gap.
  lemma GapHasNoMidpoint(digits: nat, power: nat, n: nat, d: nat, k: nat)
    requires d > 0 && Pow(10, 799) <= digits && k < INFINITY && InGap(digits, Pow(10, power), n, d)
    ensures d * Midpoint(k) != 2 * n
  {
    hide Pow;
    var ten, mid := Pow(10, power), Midpoint(k);
    NoMidpointBetweenDecimals(digits, power, k);
    PowDouble(1075);
    if d * mid == 2 * n {
      MidpointInGap(digits, ten, n, d, mid, Pow(2, 1074), Pow(2, 1075));
    }
  }

  lemma MidpointInGap(digits: nat, ten: nat, n: nat, d: nat, mid: nat, two: nat, four: nat)
    requires d > 0 && four == 2 * two && d * mid == 2 * n
    requires digits * (two * d) < n * ten < (digits + 1) * (two * d)
    ensures digits * four < ten * mid < (digits + 1) * four
  {
    assert 2 * (n * ten) == (ten * mid) * d by {
      Assoc(2, n, ten);
      Commute(d, mid);
      Assoc(ten, mid, d);
      Commute(ten, 2 * n);
    }
    assert 2 * (digits * (two * d)) == (digits * four) * d by { FourSide(digits, two, d, four); }
    assert 2 * ((digits + 1) * (two * d)) == ((digits + 1) * four) * d by { FourSide(digits + 1, two, d, four); }
    MulCancelStrict(digits * four, ten * mid, d);
    MulCancelStrict(ten * mid, (digits + 1) * four, d);
  }

  lemma FourSide(digits: int, two: int, d: int, four: int)
    requires four == 2 * two
    ensures 2 * (digits * (two * d)) == (digits * four) * d
  {
    Assoc(digits, four, d);
    Assoc(2, two, d);
    TwiceSwap(digits, two * d);
  }

  // Two values in the same gap round alike.
  lemma GapRoundsAlike(digits: nat, power: nat, n: nat, d: nat, n': nat, d': nat, b: nat)
    requires d > 0 && d' > 0 && Pow(10, 799) <= digits
    requires InGap(digits, Pow(10, power), n, d) && InGap(digits, Pow(10, power), n', d')
    requires NearestEven(n', d', b)
    ensures NearestEven(n, d, b)
  {
    hide Pow, NearestEven, InGap, Midpoint;
    NearestIsBracketed(n', d', b);
    if b > 0 {
      GapHasNoMidpoint(digits, power, n, d, b - 1);
      SameSide(digits, power, n, d, n', d', b - 1);
    }
    if b < INFINITY {
      GapHasNoMidpoint(digits, power, n, d, b);
      GapHasNoMidpoint(digits, power, n', d', b);
      SameSide(digits, power, n, d, n', d', b);
    }
    BracketedIsNearest(n, d, b);
  }

  lemma SameSide(digits: nat, power: nat, n: nat, d: nat, n': nat, d': nat, k: nat)
    requires d > 0 && d' > 0 && Pow(10, 799) <= digits && k < INFINITY
    requires InGap(digits, Pow(10, power), n, d) && InGap(digits, Pow(10, power), n', d')
    ensures d * Midpoint(k) <= 2 * n <==> d' * Midpoint(k) <= 2 * n'
  {
    hide Pow;
    var ten, mid := Pow(10, power), Midpoint(k);
    NoMidpointBetweenDecimals(digits, power, k);
    PowDouble(1075);
    if ten * mid <= digits * Pow(2, 1075) {
      BelowGap(digits, ten, n, d, mid, Pow(2, 1074), Pow(2, 1075));
      BelowGap(digits, ten, n', d', mid, Pow(2, 1074), Pow(2, 1075));
    } else {
      AboveGap(digits, ten, n, d, mid, Pow(2, 1074), Pow(2, 1075));
      AboveGap(digits, ten, n', d', mid, Pow(2, 1074), Pow(2, 1075));
    }
  }

  lemma BelowGap(digits: nat, ten: nat, n: nat, d: nat, mid: nat, two: nat, four: nat)
    requires d > 0 && ten > 0 && four == 2 * two && digits * (two * d) < n * ten && ten * mid <= digits * four
    ensures d * mid < 2 * n
  {
    FourSide(digits, two, d, four);
    MulMono(ten * mid, digits * four, d);
    Assoc(ten, mid, d);
    Commute(mid, d);
    Commute(ten, d * mid);
    Assoc(2, n, ten);
    MulCancelStrict(d * mid, 2 * n, ten);
  }

  lemma AboveGap(digits: nat, ten: nat, n: nat, d: nat, mid: nat, two: nat, four: nat)
    requires d > 0 && ten > 0 && four == 2 * two && n * ten < (digits + 1) * (two * d) && (digits + 1) * four <= ten * mid
    ensures 2 * n < d * mid
  {
    FourSide(digits + 1, two, d, four);
    MulMono((digits + 1) * four, ten * mid, d);
    Assoc(ten, mid, d);
    Commute(mid, d);
    Commute(ten, d * mid);
    Assoc(2, n, ten);
    MulCancelStrict(2 * n, d * mid, ten);
  }

  // Digits past the eight hundredth count only through the sticky flag, and that is enough.
  lemma TruncatedCorrect(digits: nat, power: int, n: nat, d: nat)
    requires 0 < power <= 1200 && Pow(10, 799) <= digits && DecimalHolds(digits, -power, true, n, d)
    ensures NearestEven(n, d, Scaled(digits, -power, true)) && 2 * n != d
  {
    hide Pow, NearestEven, Assembled, Length, Holds, ScaleShift, InGap, DecimalHolds;
    var a, ten, shift: int := Shl(digits, ScaleShift(power)), Pow(10, power), ScaleShift(power);
    var n', d' := (2 * a + 1) * Pow(2, 1074), 2 * Pow(2, shift) * ten;
    GapOfTruncated(digits, power, n, d);
    GapOfTick(digits, ten, Pow(2, shift));
    TickHolds(digits, power);
    HoldsDenominator(a / ten, -shift, true, n', d');
    QuotientLength(digits, power);
    assert Midpoint(0) == 1;
    GapHasNoMidpoint(digits, power, n, d, 0);
    GapHasNoMidpoint(digits, power, n', d', 0);
    AssembledCorrect(a / ten, -shift, true, n', d');
    GapRoundsAlike(digits, power, n, d, n', d', Assembled(a / ten, -shift, true));
  }

  /**
   DecimalToDouble is correctly rounded for every exactly held decimal in the parser's range, and
   for every truncated one of 800 digits, except for the exact value 2^-1075.
   */
  lemma ScaledCorrect(digits: nat, exponent: int, sticky: bool, n: nat, d: nat)
    requires DecimalHolds(digits, exponent, sticky, n, d) && -1200 <= exponent
    requires sticky ==> exponent < 0 && Pow(10, 799) <= digits
    ensures NearestEven(n, d, Scaled(digits, exponent, sticky)) <==> 2 * n != d
    ensures 2 * n == d ==> Scaled(digits, exponent, sticky) == 1
  {
    hide Pow, NearestEven, Scaled, DecimalHolds;
    if sticky {
      TruncatedCorrect(digits, -exponent, n, d);
    } else if exponent >= 0 {
      IntegerCorrect(digits, exponent, n, d);
    } else if digits > 0 {
      FractionCorrect(digits, -exponent, n, d);
    } else {
      NothingCorrect(exponent, n, d);
    }
  }

  lemma NothingCorrect(exponent: int, n: nat, d: nat)
    requires DecimalHolds(0, exponent, false, n, d)
    ensures n == 0 && d > 0 && NearestEven(n, d, Scaled(0, exponent, false))
  {
    hide Pow, NearestEven, Assembled;
    TimesZero(DecimalUnit(exponent, d));
    if n > 0 { MulMono(1, n, Up(10, -exponent)); }
    TimesZero(Pow(2, 1074) * d);
    HoldsExactly(0, 0, d);
    AssembledCorrect(0, 0, false, n, d);
  }

  // ── The conversion itself ───────────────────────────────────────

  const POW10: seq<u32> := [1, 10, 100, 1000, 10000, 100000, 1000000, 10000000, 100000000, 1000000000]

  lemma Pow10Table(i: nat)
    requires i <= 9
    ensures POW10[i] as nat == Pow(10, i) > 0
  {
    assert Pow(10, 0) == 1 && Pow(10, 1) == 10 && Pow(10, 2) == 100 && Pow(10, 3) == 1000 && Pow(10, 4) == 10000;
    PowAdd(10, 4, 1);
    PowAdd(10, 4, 2);
    PowAdd(10, 4, 3);
    PowAdd(10, 4, 4);
    PowAdd(10, 8, 1);
  }

  // The caller's bounds: no step of the scaling outgrows the bignum.
  ghost predicate Fits(digits: nat, exponent: int) {
    if exponent >= 0 then digits * Pow(10, exponent) < Capacity() else Shl(digits, ScaleShift(-exponent)) < Capacity()
  }

  // Multiplies by 10^power, nine places at a time.
  method MulPow10(value: BigUInt, power0: nat)
    requires value.Valid() && value.Trimmed() && value.Value() * Pow(10, power0) < Capacity()
    modifies value, value.limb
    ensures value.Valid() && value.Trimmed() && value.Value() == old(value.Value()) * Pow(10, power0)
  {
    hide Pow, Kept, LimbValue;
    var power := power0;
    ghost var total := value.Value() * Pow(10, power0);
    while power >= 9
      invariant 0 <= power && value.Valid() && value.Trimmed() && value.Value() * Pow(10, power) == total
    {
      Pow10Table(9);
      PowAdd(10, 9, power - 9);
      PartialProduct(value.Value(), Pow(10, 9), Pow(10, power - 9));
      KeptSmall(value.Value() * Pow(10, 9));
      value.MulSmall(POW10[9]);
      power := power - 9;
    }
    Pow10Table(power);
    PowZero(10);
    TimesOne(value.Value());
    if power > 0 {
      KeptSmall(total);
      value.MulSmall(POW10[power]);
    }
  }

  // Divides by 10^power, nine places at a time, and reports whether anything was lost.
  method DivPow10(value: BigUInt, power: nat) returns (inexact: bool)
    requires value.Valid() && value.Trimmed()
    modifies value, value.limb
    ensures value.Valid() && value.Trimmed()
    ensures value.Value() == old(value.Value()) / Pow(10, power)
    ensures inexact <==> old(value.Value()) % Pow(10, power) != 0
  {
    hide Pow, LimbValue;
    var remaining: int := power;
    inexact := false;
    ghost var v0 := value.Value();
    PowZero(10);
    DivideByOne(v0);
    while remaining > 0
      invariant 0 <= remaining <= power && value.Valid() && value.Trimmed()
      invariant value.Value() == v0 / Pow(10, power - remaining)
      invariant inexact <==> v0 % Pow(10, power - remaining) != 0
    {
      var chunk := if remaining >= 9 then 9 else remaining;
      Pow10Table(chunk);
      PowAdd(10, power - remaining, chunk);
      DivDiv(v0, Pow(10, power - remaining), Pow(10, chunk));
      var remainder := value.DivModSmall(POW10[chunk]);
      if remainder != 0 {
        inexact := true;
      }
      remaining := remaining - chunk;
    }
  }

  lemma DivideByOne(v: nat)
    ensures v / 1 == v && v % 1 == 0
  {}

  method DecimalToDouble(digits: BigUInt, decimalExponent: int, sticky: bool, negative: bool) returns (bits: u64)
    requires digits.Valid() && digits.Trimmed() && Fits(digits.Value(), decimalExponent)
    ensures Scaled(digits.Value(), decimalExponent, sticky) <= INFINITY
    ensures bits == WithSign(negative, Scaled(digits.Value(), decimalExponent, sticky))
  {
    hide Pow, Kept, Assembled, LimbValue, Shl;
    ghost var v := digits.Value();
    var value := new BigUInt.Copy(digits);
    value.ZeroIff();
    if value.IsZero() {
      bits := AssembleDouble(value, 0, false, negative);
      return;
    }
    if decimalExponent >= 0 {
      MulPow10(value, decimalExponent);
      bits := AssembleDouble(value, 0, sticky, negative);
      return;
    }
    var power := -decimalExponent;
    var shift: int := ScaleShift(power);
    KeptSmall(Shl(v, shift));
    value.ShiftLeft(shift);
    var inexact := DivPow10(value, power);
    bits := AssembleDouble(value, -shift, sticky || inexact, negative);
  }
}
