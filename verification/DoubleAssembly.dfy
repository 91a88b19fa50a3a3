/**
 AssembleDouble: from an exact integer, a power of two and a sticky flag to the bits of a double,
 with one rounding at the precision the result can hold.
 */
module DoubleAssembly {
  import opened Powers
  import opened Limbs
  import opened Ieee754
  import opened DecimalBignum

  // m * 2^exponent2, in units of 2^-1074, is the denominator-free form of this unit times m.
  ghost function Unit(exponent2: int, d: nat): (u: nat)
    ensures d > 0 ==> u > 0
  {
    MulMono(1, Up(2, exponent2 + 1074), d);
    Up(2, exponent2 + 1074) * d
  }

  // The rational n/d (in units of 2^-1074) is m * 2^exponent2 exactly, or, when sticky, lies
  // strictly between that and the next multiple of 2^exponent2.
  ghost predicate Holds(m: nat, exponent2: int, sticky: bool, n: nat, d: nat) {
    var u, x := Unit(exponent2, d), n * Up(2, -(exponent2 + 1074));
    d > 0 && m * u <= x < m * u + u && (sticky <==> m * u < x)
  }

  // The bits of m from 2^lowest up, before rounding.
  ghost function Floor(m: nat, cut: int): nat {
    if cut <= 0 then m * Pow(2, -cut) else High(m, cut)
  }

  ghost function RoundedAt(m: nat, cut: int, sticky: bool): nat {
    var s := Floor(m, cut);
    if cut > 0 && Bit(m, cut - 1) && (sticky || Low(m, cut - 1) != 0 || s % 2 == 1) then s + 1 else s
  }

  // What the code assembles, on numbers: the magnitude without the sign.
  ghost function Assembled(m: nat, exponent2: int, sticky: bool): nat {
    var length := Length(m);
    var msb := length - 1 + exponent2;
    if length == 0 then 0
    else if msb - 52 < -1074 then
      if msb + 1075 <= 0 then
        if msb < -1075 then 0 else if length > 1 || sticky then 1 else 0
      else RoundedAt(m, -1074 - exponent2, sticky)
    else
      var s := RoundedAt(m, msb - 52 - exponent2, sticky);
      var exponent := if s >= 2 * FRACTION then msb + 1 else msb;
      if exponent > 1023 then INFINITY
      else (exponent + 1023) * FRACTION + (if s >= 2 * FRACTION then s / 2 else s) % FRACTION
  }

  // Rescaling between the unit of m and the unit of the rounding position.
  lemma UnitAtCut(exponent2: int, cut: nat, d: nat)
    requires exponent2 + cut >= -1074
    ensures Pow(2, cut) * Unit(exponent2, d)
         == d * Pow(2, exponent2 + cut + 1074) * Up(2, -(exponent2 + 1074))
  {
    var k := exponent2 + 1074;
    if k >= 0 {
      PowAdd(2, cut, k);
      Assoc(Pow(2, cut), Pow(2, k), d);
      Commute(d, Pow(2, k + cut));
    } else {
      PowAdd(2, k + cut, -k);
      Assoc(d, Pow(2, k + cut), Pow(2, -k));
      Commute(d, Pow(2, cut));
    }
  }

  // The value lies in the cell of the rounding grid that Floor names.
  lemma FloorBrackets(m: nat, exponent2: int, sticky: bool, n: nat, d: nat, cut: int, q: nat)
    requires Holds(m, exponent2, sticky, n, d) && exponent2 + cut >= -1074
    requires q == d * Pow(2, exponent2 + cut + 1074) && (sticky ==> cut > 0)
    ensures q > 0 && Floor(m, cut) * q <= n < Floor(m, cut) * q + q
    ensures HalfEven(n, q, RoundedAt(m, cut, sticky))
  {
    MulStrict(0, Pow(2, exponent2 + cut + 1074), d);
    if cut <= 0 {
      ExactFloor(m, exponent2, n, d, cut, q);
    } else {
      var b := Up(2, -(exponent2 + 1074));
      var u := Unit(exponent2, d);
      UnitAtCut(exponent2, cut, d);
      BitStep(m, cut - 1);
      QuotientRemainder(m, Pow(2, cut - 1));
      MulStrict(0, b, q);
      assert Pow(2, cut) == 2 * Pow(2, cut - 1);
      HalfStep(m, Pow(2, cut - 1), High(m, cut), Low(m, cut - 1), Bit(m, cut - 1), sticky, n * b, u, q * b);
      HalfEvenScale(n, q, b, RoundedAt(m, cut, sticky));
      CellScale(n, q, b, High(m, cut));
    }
  }

  lemma CellScale(n: nat, q: nat, b: nat, s: nat)
    requires b > 0 && s * (q * b) <= n * b < s * (q * b) + q * b
    ensures s * q <= n < s * q + q
  {
    Assoc(s, q, b);
    MulCancel(s * q, n, b);
    Distribute(b, s * q, q);
    MulCancelStrict(n, s * q + q, b);
  }

  lemma ExactFloor(m: nat, exponent2: int, n: nat, d: nat, cut: int, q: nat)
    requires Holds(m, exponent2, false, n, d) && exponent2 + cut >= -1074 && cut <= 0
    requires q == d * Pow(2, exponent2 + cut + 1074) && q > 0
    ensures Floor(m, cut) * q == n
    ensures HalfEven(n, q, Floor(m, cut))
  {
    var k, j := exponent2 + 1074, exponent2 + cut + 1074;
    PowAdd(2, j, -cut);
    ExactArith(m, d, Pow(2, -cut), Pow(2, j), Pow(2, k));
  }

  lemma ExactArith(m: int, d: int, a: int, b: int, c: int)
    requires c == b * a
    ensures m * (c * d) == (m * a) * (d * b)
  {
    FourWay(m, a, d, b);
    FourWay(m, d, a, b);
    Commute(a, b);
    Assoc(m, d, a * b);
    Commute(d, c);
  }

  // Round half to even, from the round bit and everything below it.
  lemma HalfStep(m: nat, h: nat, s: nat, low: nat, round: bool, sticky: bool, x: nat, u: nat, q: nat)
    requires h > 0 && u > 0 && q == 2 * h * u && low < h
    requires m == (2 * s + (if round then 1 else 0)) * h + low
    requires m * u <= x < m * u + u && (sticky <==> m * u < x)
    ensures s * q <= x < s * q + q
    ensures HalfEven(x, q, if round && (sticky || low != 0 || s % 2 == 1) then s + 1 else s)
  {
    var r := if round then 1 else 0;
    HalfStepArith(m, h, s, low, r, u, q);
    Assoc(2, h, u);
    MulMono(low + 1, h, u);
    Distribute(u, low, 1);
    if low > 0 { MulMono(1, low, u); } else { TimesZero(u); }
    hide HalfEven;
    HalfDecide(s * q, h * u, low * u, u, m * u, x, round, sticky, s % 2 == 1);
    var up := round && (sticky || low != 0 || s % 2 == 1);
    HalfEvenFrom(x, q, s, up, h * u);
  }

  lemma HalfEvenFrom(x: nat, q: nat, s: nat, up: bool, half: nat)
    requires q > 0 && q == 2 * half && s * q <= x < s * q + q
    requires if up then s * q + half <= x && (x == s * q + half ==> s % 2 == 1)
             else x <= s * q + half && (x == s * q + half ==> s % 2 == 0)
    ensures HalfEven(x, q, if up then s + 1 else s)
  {
    Distribute(q, s, 1);
    Commute(q, s);
    Commute(q, s + 1);
  }

  // The same on a line: base and base + 2 * half are the two candidates.
  lemma HalfDecide(base: int, half: int, rest: int, u: int, mu: int, x: int, round: bool, sticky: bool, odd: bool)
    requires 0 <= rest && rest + u <= half && 0 < u
    requires mu == base + (if round then half else 0) + rest
    requires mu <= x < mu + u && (sticky <==> mu < x)
    ensures base <= x < base + 2 * half
    ensures if round && (sticky || rest != 0 || odd)
            then base + half <= x && (x == base + half ==> odd)
            else x <= base + half && (x == base + half ==> !odd)
  {}

  lemma HalfStepArith(m: int, h: int, s: int, low: int, r: int, u: int, q: int)
    requires m == (2 * s + r) * h + low && q == 2 * h * u
    ensures m * u == s * q + r * (h * u) + low * u
  {
    Distribute(u, (2 * s + r) * h, low);
    Assoc(2 * s + r, h, u);
    Distribute(h * u, 2 * s, r);
    Assoc(2, s, h * u);
    Assoc(2, h, u);
    TwiceSwap(s, h * u);
  }

  lemma TwiceSwap(s: int, t: int)
    ensures 2 * (s * t) == s * (2 * t)
  {}

  // The 53 bits below the leading one, whether they are cut from a longer number or shifted up
  // from a shorter one.
  lemma LeadingBits(m: nat, keep: nat)
    requires m > 0 && keep > 0
    ensures Pow(2, keep - 1) <= Floor(m, Length(m) - keep) < Pow(2, keep)
  {
    var length := Length(m);
    var cut := length - keep;
    if cut <= 0 {
      PowAdd(2, length, -cut);
      PowAdd(2, length - 1, -cut);
      MulStrict(m, Pow(2, length), Pow(2, -cut));
      MulMono(Pow(2, length - 1), m, Pow(2, -cut));
    } else {
      PowAdd(2, keep, cut);
      PowAdd(2, keep - 1, cut);
      QuotientBetween(m, Pow(2, cut), Pow(2, keep - 1), Pow(2, keep));
    }
  }

  lemma QuotientBetween(m: nat, p: nat, lo: nat, hi: nat)
    requires p > 0 && lo * p <= m < hi * p
    ensures lo <= m / p < hi
  {
    QuotientRemainder(m, p);
    Distribute(p, m / p, 1);
    MulCancelStrict(lo, m / p + 1, p);
    MulCancelStrict(m / p, hi, p);
  }

  lemma TwoTo53()
    ensures Pow(2, 52) == FRACTION && Pow(2, 53) == 2 * FRACTION
  {
    TwoTo32();
    PowAdd(2, 32, 20);
    PowAdd(2, 10, 10);
    assert Pow(2, 10) == 1024;
  }

  // The normal regime: rounding to 53 bits and carrying into the exponent.
  lemma NormalCorrect(m: nat, exponent2: int, sticky: bool, n: nat, d: nat)
    requires m > 0 && Holds(m, exponent2, sticky, n, d) && (sticky ==> Length(m) >= 54)
    requires Length(m) - 1 + exponent2 - 52 >= -1074
    ensures NearestEven(n, d, Assembled(m, exponent2, sticky))
  {
    hide Pow, Unit, High, Low, Bit, Holds, HalfEven, NearestEven, RoundedAt, Floor, Assembled;
    var cut := Length(m) - 53;
    var e := Length(m) - 1 + exponent2 + 1023;
    var q := d * Pow(2, e - 1);
    var s := RoundedAt(m, cut, sticky);
    FloorBrackets(m, exponent2, sticky, n, d, cut, q);
    LeadingBits(m, 53);
    TwoTo53();
    CellRange(n, q, Floor(m, cut), FRACTION, 2 * FRACTION);
    SignificandRange(n, q, s, true);
    AssembledNormal(m, exponent2, sticky, e, s);
    if e <= 0x7FE {
      AssembledIsNearest(e, s, n, d, q);
    } else {
      OverflowIsNearest(e, n, d, q);
    }
  }

  // The exponent and fraction fields, carry and overflow included, as one number.
  lemma AssembledNormal(m: nat, exponent2: int, sticky: bool, e: nat, s: nat)
    requires m > 0 && e == Length(m) + exponent2 + 1022 && e >= 1
    requires s == RoundedAt(m, Length(m) - 53, sticky) && FRACTION <= s <= 2 * FRACTION
    ensures Assembled(m, exponent2, sticky) == if e <= 0x7FE then (e - 1) * FRACTION + s else INFINITY
  {
    hide RoundedAt, Length;
    assert Length(m) - 1 + exponent2 - 52 - exponent2 == Length(m) - 53;
    AssembledFields(e, s);
  }

  lemma AssembledSubnormal(m: nat, exponent2: int, sticky: bool, cut: int)
    requires m > 0 && Length(m) - 1 + exponent2 - 52 < -1074 && Length(m) - 1 + exponent2 + 1075 > 0
    requires cut == -1074 - exponent2
    ensures Assembled(m, exponent2, sticky) == RoundedAt(m, cut, sticky)
  {
    hide RoundedAt, Length;
  }

  lemma NoScale(d: nat)
    ensures d * Pow(2, 0) == d
  {}

  lemma CellRange(n: nat, q: nat, f: nat, lo: nat, hi: nat)
    requires f * q <= n < f * q + q && lo <= f < hi
    ensures lo * q <= n < hi * q
  {
    MulMono(lo, f, q);
    MulMono(f + 1, hi, q);
    Distribute(q, f, 1);
  }

  lemma AssembledFields(e: nat, s: nat)
    requires 1 <= e && FRACTION <= s <= 2 * FRACTION
    ensures s < 2 * FRACTION ==> e * FRACTION + s % FRACTION == (e - 1) * FRACTION + s
    ensures s == 2 * FRACTION ==> (e + 1) * FRACTION + s / 2 % FRACTION == (e - 1) * FRACTION + s
  {}

  lemma OverflowIsNearest(e: nat, n: nat, d: nat, q: nat)
    requires d > 0 && e >= 0x7FF && q == d * Pow(2, e - 1) && FRACTION * q <= n
    ensures NearestEven(n, d, INFINITY)
  {
    PowMono(2, 0x7FE, e - 1);
    InfinityUnits();
    UnitsStep(INFINITY - 1);
    OverflowArith(n, d, Pow(2, 0x7FE), Pow(2, e - 1), Midpoint(INFINITY - 1));
    BracketedIsNearest(n, d, INFINITY);
  }

  lemma InfinityUnits()
    ensures Units(INFINITY) == FRACTION * Pow(2, 0x7FE)
  {
    UnitsAssembled(0x7FF, FRACTION);
  }

  lemma OverflowArith(n: nat, d: nat, p: nat, p': nat, mid: nat)
    requires d > 0 && p <= p' && FRACTION * (d * p') <= n && mid < 2 * (FRACTION * p)
    ensures d * mid < 2 * n
  {
    MulStrict(mid, 2 * (FRACTION * p), d);
    MulMono(p, p', d);
    assert d * (2 * (FRACTION * p)) == 2 * (FRACTION * (d * p));
  }

  // The subnormal regime above half the smallest subnormal.
  lemma SubnormalCorrect(m: nat, exponent2: int, sticky: bool, n: nat, d: nat)
    requires m > 0 && Holds(m, exponent2, sticky, n, d) && (sticky ==> Length(m) >= 54)
    requires Length(m) - 1 + exponent2 - 52 < -1074 && Length(m) - 1 + exponent2 + 1075 > 0
    ensures NearestEven(n, d, Assembled(m, exponent2, sticky))
  {
    hide Pow, Unit, High, Low, Bit, Holds, HalfEven, NearestEven, RoundedAt, Floor, Assembled;
    var keep := Length(m) + exponent2 + 1074;
    var cut := Length(m) - keep;
    var s := RoundedAt(m, cut, sticky);
    NoScale(d);
    assert exponent2 + cut + 1074 == 0;
    FloorBrackets(m, exponent2, sticky, n, d, cut, d);
    LeadingBits(m, keep);
    PowMono(2, keep, 52);
    TwoTo53();
    CellRange(n, d, Floor(m, cut), 0, 2 * FRACTION);
    AssembledSubnormal(m, exponent2, sticky, cut);
    AssembledIsNearest(1, s, n, d, d);
  }

  // Below the smallest subnormal: the value against half of it.
  lemma TinyBounds(m: nat, exponent2: int, sticky: bool, n: nat, d: nat)
    requires m > 0 && Holds(m, exponent2, sticky, n, d)
    requires Length(m) - 1 + exponent2 <= -1075
    ensures n < d
    ensures Length(m) - 1 + exponent2 < -1075 ==> 2 * n < d
    ensures Length(m) - 1 + exponent2 == -1075 ==> d <= 2 * n
    ensures Length(m) - 1 + exponent2 == -1075 && (sticky || m != Pow(2, Length(m) - 1)) ==> d < 2 * n
    ensures Length(m) - 1 + exponent2 == -1075 && !sticky && m == Pow(2, Length(m) - 1) ==> d == 2 * n
  {
    hide Pow, Holds, Unit;
    var k := -(exponent2 + 1074);
    var l := Length(m);
    HoldsSmall(m, exponent2, sticky, n, d);
    // The unit divides into 2^k parts and the leading bit of m weighs 2^(l - 1), l <= k.
    PowMono(2, l, k);
    PowDouble(k);
    TinyUpper(m, Pow(2, l), Pow(2, k), n, d);
    if l < k {
      PowMono(2, l, k - 1);
      Halve(n, Pow(2, k - 1));
      TinyUpper(m, Pow(2, l), Pow(2, k - 1), 2 * n, d);
    } else {
      TinyHalf(m, Pow(2, l - 1), n, d, sticky);
    }
  }

  lemma Halve(n: int, p: int)
    ensures (2 * n) * p == n * (2 * p)
  {}

  lemma HoldsSmall(m: nat, exponent2: int, sticky: bool, n: nat, d: nat)
    requires Holds(m, exponent2, sticky, n, d) && exponent2 <= -1074
    ensures d > 0 && m * d <= n * Pow(2, -(exponent2 + 1074)) < m * d + d
    ensures sticky <==> m * d < n * Pow(2, -(exponent2 + 1074))
  {
    PowZero(2);
    assert Unit(exponent2, d) == d;
  }

  lemma PowDouble(k: nat)
    requires k > 0
    ensures Pow(2, k) == 2 * Pow(2, k - 1)
  {}

  lemma TinyUpper(m: nat, p: nat, b: nat, n: nat, d: nat)
    requires d > 0 && b > 0 && m < p <= b && n * b < m * d + d
    ensures n < d
  {
    MulMono(m + 1, p, d);
    Distribute(d, m, 1);
    MulMono(p, b, d);
    Commute(d, b);
    MulCancelStrict(n, d, b);
  }

  lemma TinyHalf(m: nat, h: nat, n: nat, d: nat, sticky: bool)
    requires h > 0 && d > 0 && h <= m && m * d <= n * (2 * h) && (sticky <==> m * d < n * (2 * h))
    ensures d <= 2 * n
    ensures sticky || m != h ==> d < 2 * n
    ensures !sticky && m == h ==> d == 2 * n
  {
    Assoc(n, 2, h);
    Commute(h, d);
    MulMono(h, m, d);
    MulCancel(d, 2 * n, h);
    if m != h { MulStrict(h, m, d); }
    if sticky || m != h { MulCancelStrict(d, 2 * n, h); }
    if !sticky && m == h { MulCancel(2 * n, d, h); }
  }

  // The halfway point itself, 2^-1075, goes to zero; a value just above it does not.
  lemma TinyNearest(n: nat, d: nat)
    requires d > 0 && n < d
    ensures NearestEven(n, d, 0) <==> 2 * n <= d
    ensures NearestEven(n, d, 1) <==> d < 2 * n
  {
    assert Midpoint(0) == 1 && Midpoint(1) == 3;
    if 2 * n <= d { BracketedIsNearest(n, d, 0); } else { BracketedIsNearest(n, d, 1); }
    if NearestEven(n, d, 0) && NearestEven(n, d, 1) { NearestUnique(n, d, 0, 1); }
  }

  lemma TinyOneWay(n: nat, d: nat)
    requires d > 0 && n < d
    ensures NearestEven(n, d, 0) ==> !NearestEven(n, d, 1)
  {
    TinyNearest(n, d);
  }

  lemma ZeroCorrect(exponent2: int, n: nat, d: nat)
    requires Holds(0, exponent2, false, n, d)
    ensures n == 0 && NearestEven(n, d, 0)
  {
    TimesZero(Unit(exponent2, d));
    if n > 0 { MulMono(1, n, Up(2, -(exponent2 + 1074))); }
    TinyNearest(n, d);
  }

  /**
   AssembleDouble rounds correctly, in every regime, with one exception: it returns the smallest
   subnormal for the exact value 2^-1075 whenever that value arrives with more than one bit,
   where ties-to-even asks for zero.
   */
  lemma AssembledCorrect(m: nat, exponent2: int, sticky: bool, n: nat, d: nat)
    requires Holds(m, exponent2, sticky, n, d) && (sticky ==> Length(m) >= 54)
    ensures NearestEven(n, d, Assembled(m, exponent2, sticky)) <==> !(2 * n == d && Length(m) > 1)
    ensures 2 * n == d ==> Assembled(m, exponent2, sticky) == if Length(m) > 1 then 1 else 0
  {
    hide Holds, NearestEven, Assembled, Pow;
    var msb := Length(m) - 1 + exponent2;
    AssembledTiny(m, exponent2, sticky);
    if m == 0 {
      ZeroCorrect(exponent2, n, d);
    } else if msb - 52 >= -1074 {
      NormalCorrect(m, exponent2, sticky, n, d);
      NotHalf(m, exponent2, sticky, n, d);
    } else if msb + 1075 > 0 {
      SubnormalCorrect(m, exponent2, sticky, n, d);
      NotHalf(m, exponent2, sticky, n, d);
    } else {
      TinyBounds(m, exponent2, sticky, n, d);
      TinyNearest(n, d);
      TinyOneWay(n, d);
      if Length(m) == 1 { OneBit(m); PowZero(2); }
    }
  }

  lemma AssembledTiny(m: nat, exponent2: int, sticky: bool)
    ensures m == 0 ==> Assembled(m, exponent2, sticky) == 0
    ensures m > 0 && Length(m) - 1 + exponent2 < -1075 ==> Assembled(m, exponent2, sticky) == 0
    ensures m > 0 && Length(m) - 1 + exponent2 == -1075 ==>
      Assembled(m, exponent2, sticky) == if Length(m) > 1 || sticky then 1 else 0
  {
    hide RoundedAt, Length, Pow;
  }

  lemma OneBit(m: nat)
    requires Length(m) == 1
    ensures m == 1
  {
    hide Pow, Length;
    PowZero(2);
    PowDouble(1);
  }

  // From the smallest subnormal up, the value is not half of it.
  lemma NotHalf(m: nat, exponent2: int, sticky: bool, n: nat, d: nat)
    requires m > 0 && Holds(m, exponent2, sticky, n, d)
    requires Length(m) - 1 + exponent2 >= -1074
    ensures 0 < d <= n
  {
    var k := exponent2 + 1074;
    if k >= 0 {
      hide Length;
      PowZero(2);
      MulMono(1, m, Unit(exponent2, d));
      MulMono(1, Pow(2, k), d);
    } else {
      HoldsSmall(m, exponent2, sticky, n, d);
      NotHalfSmall(m, -k, n, d);
    }
  }

  lemma NotHalfSmall(m: nat, k: nat, n: nat, d: nat)
    requires m > 0 && d > 0 && Length(m) - 1 >= k && m * d <= n * Pow(2, k)
    ensures d <= n
  {
    hide Pow;
    PowMono(2, k, Length(m) - 1);
    MulMono(Pow(2, k), m, d);
    Commute(Pow(2, k), d);
    MulCancel(d, n, Pow(2, k));
  }

  // Halfway below the smallest subnormal, written with two bits: a value the code gets wrong.
  lemma HalfSubnormalRoundsUp()
    ensures Holds(2, -1076, false, 1, 2)
    ensures Assembled(2, -1076, false) == 1 && !NearestEven(1, 2, 1) && NearestEven(1, 2, 0)
  {
    hide Length, Holds, NearestEven, Assembled;
    TinyNearest(1, 2);
    HalfSubnormalHolds();
    HalfSubnormalAssembled();
  }

  lemma HalfSubnormalHolds()
    ensures Holds(2, -1076, false, 1, 2)
    ensures Length(2) == 2
  {
    hide Length;
    assert Pow(2, 0) == 1 && Pow(2, 1) == 2 && Pow(2, 2) == 4;
    BitLengthUnique(2, 2, Length(2));
  }

  lemma HalfSubnormalAssembled()
    requires Length(2) == 2
    ensures Assembled(2, -1076, false) == 1
  {
    hide RoundedAt, Length;
  }

  // The kept bits of an exact integer, the round bit below them and whether anything lies below that.
  method KeptBits(mantissa: BigUInt, cut: int, length: nat, keep: nat) returns (kept: u64, roundBit: bool, rest: bool)
    requires mantissa.Valid() && mantissa.Trimmed()
    requires length == Length(mantissa.Value()) && 0 < keep <= 53 && cut == length - keep
    ensures kept as nat == Floor(mantissa.Value(), cut) < Pow(2, keep)
    ensures roundBit <==> cut > 0 && Bit(mantissa.Value(), cut - 1)
    ensures rest <==> cut > 0 && Low(mantissa.Value(), cut - 1) != 0
  {
    hide High, Low, Bit, Pow, LimbValue;
    ghost var m := mantissa.Value();
    roundBit, rest := false, false;
    KeptBound(m, keep);
    NoLowBits(m);
    if cut <= 0 {
      var unused;
      kept, unused := mantissa.HighBits(length);
      ShiftFits(m, -cut, length);
      kept := ShiftedUp(kept, -cut);
    } else {
      var dropped;
      kept, dropped := mantissa.HighBits(keep);
      roundBit := mantissa.BitAt(cut - 1);
      mantissa.BitAtIsBit(cut - 1);
      rest := mantissa.AnyBitBelow(cut - 1);
    }
  }

  lemma KeptBound(m: nat, keep: nat)
    requires keep > 0
    ensures Floor(m, Length(m) - keep) < Pow(2, keep)
    ensures m < Pow(2, Length(m))
  {
    hide Pow, Floor;
    if m > 0 { LeadingBits(m, keep); } else { NoBits(keep); }
  }

  lemma NoBits(keep: nat)
    requires keep > 0
    ensures Floor(0, Length(0) - keep) < Pow(2, keep)
  {
    TimesZero(Pow(2, keep));
  }

  // value << shift, when it fits.
  function ShiftedUp(value: u64, shift: nat): (r: u64)
    requires value as nat * Pow(2, shift) < 0x1_0000_0000_0000_0000
    ensures r as nat == value as nat * Pow(2, shift)
  {
    (value as nat * Pow(2, shift)) as u64
  }

  // round_at: the kept bits, rounded half to even once.
  method RoundAt(mantissa: BigUInt, exponent2: int, sticky: bool, length: nat, lowest: int, keep: nat) returns (significand: u64)
    requires mantissa.Valid() && mantissa.Trimmed()
    requires length == Length(mantissa.Value()) && 0 < keep <= 53 && lowest - exponent2 == length - keep
    ensures significand as nat == RoundedAt(mantissa.Value(), lowest - exponent2, sticky)
  {
    hide High, Low, Bit, Pow, LimbValue, Floor;
    var roundBit, rest;
    significand, roundBit, rest := KeptBits(mantissa, lowest - exponent2, length, keep);
    FitsU64(53);
    TwoTo53();
    PowMono(2, keep, 53);
    if roundBit && (sticky || rest || significand % 2 == 1) {
      significand := significand + 1;
    }
  }

  lemma ShiftFits(m: nat, shift: nat, length: nat)
    requires length + shift <= 53 && m < Pow(2, length)
    ensures Pow(2, shift) < 0x1_0000_0000_0000_0000
    ensures 0 <= m * Pow(2, shift) < 0x1_0000_0000_0000_0000
  {
    hide Pow;
    FitsU64(shift + 1);
    FitsU64(length + shift);
    PowAdd(2, length, shift);
    MulStrict(m, Pow(2, length), Pow(2, shift));
    MulMono(0, m, Pow(2, shift));
    PowDouble(shift + 1);
  }

  // The sign bit of a double's 64 bits, and the rest.
  function Magnitude(bits: u64): nat {
    bits as nat % SIGN_BIT
  }

  function WithSign(negative: bool, magnitude: nat): (bits: u64)
    requires magnitude < SIGN_BIT
    ensures Magnitude(bits) == magnitude && (bits as nat >= SIGN_BIT <==> negative)
  {
    ((if negative then SIGN_BIT else 0) + magnitude) as u64
  }

  method AssembleDouble(mantissa: BigUInt, exponent2: int, sticky: bool, negative: bool) returns (bits: u64)
    requires mantissa.Valid() && mantissa.Trimmed()
    ensures Assembled(mantissa.Value(), exponent2, sticky) <= INFINITY
    ensures bits == WithSign(negative, Assembled(mantissa.Value(), exponent2, sticky))
  {
    hide High, Low, Pow, LimbValue, RoundedAt;
    ghost var m := mantissa.Value();
    AssembledRange(m, exponent2, sticky);
    var length := mantissa.BitLength();
    if length == 0 {
      return WithSign(negative, 0);
    }
    var msb := length - 1 + exponent2;
    if msb - 52 < -1074 {
      var keep := msb + 1074 + 1;
      if keep <= 0 {
        if msb < -1075 {
          return WithSign(negative, 0);
        }
        var aboveHalf := length > 1 || sticky;
        return WithSign(negative, if aboveHalf then 1 else 0);
      }
      var low := RoundAt(mantissa, exponent2, sticky, length, -1074, keep);
      return WithSign(negative, low as nat);
    }
    var significand := RoundAt(mantissa, exponent2, sticky, length, msb - 52, 53);
    var exponent := msb;
    if significand as nat >= 2 * FRACTION {
      significand := significand / 2;
      exponent := exponent + 1;
    }
    if exponent > 1023 {
      return WithSign(negative, INFINITY);
    }
    bits := WithSign(negative, (exponent + 1023) * FRACTION + significand as nat % FRACTION);
  }

  lemma AssembledRange(m: nat, exponent2: int, sticky: bool)
    ensures Assembled(m, exponent2, sticky) <= INFINITY
  {
    var length := Length(m);
    var msb := length - 1 + exponent2;
    if length > 0 && msb - 52 < -1074 && msb + 1075 > 0 {
      LeadingBits(m, msb + 1075);
      PowMono(2, msb + 1075, 52);
      TwoTo53();
    }
  }
}
