/**
 Seventeen significant digits name a double: printing one with at least as many, in the scientific or
 the general layout, and parsing the text gives back the same 64 bits (IEEE 754-2019, section 5.12.2).
 */
module FloatRoundTrip {
  import opened Powers
  import opened Ieee754
  import opened NumberText
  import opened DecimalWriting
  import opened DecimalRounding
  import F = FloatFormat
  import opened FloatPrinting
  import P = FloatParse
  import G = FloatGrammar
  import A = DoubleAssembly
  import L = Limbs
  import opened ScaleBounds

  // ── The printed decimal lies strictly between the midpoints ─────

  // No magnitude exceeds 2^53 times the gap below it.
  lemma UnitsBelowGap(b: nat)
    requires 0 < b
    ensures Units(b) <= 2 * FRACTION * Gap(b - 1) && Gap(b - 1) <= Gap(b)
  {
    var e, f := b / FRACTION, b % FRACTION;
    if b >= FRACTION {
      if f > 0 {
        DivModUnique(b - 1, FRACTION, e, f - 1);
        MulMono(FRACTION + f, 2 * FRACTION, Pow(2, e - 1));
      } else if e > 1 {
        DivModUnique(b - 1, FRACTION, e - 1, FRACTION - 1);
        PowNext(2, e - 2);
      } else {
        PowZero(2);
      }
    }
  }

  lemma SixteenDigits(p: nat)
    requires p >= 16
    ensures 2 * FRACTION < Pow(10, p)
  {
    PowAdd(10, 8, 8);
    assert Pow(10, 8) == 100000000;
    hide Pow;
    PowMono(10, 16, p);
  }

  // One unit of the last printed digit is smaller than the gap below the value.
  lemma LastDigitFine(b: nat, lead: int, p: nat)
    requires 0 < b && p >= 16 && Leads(Units(b), Pow(2, 1074), lead)
    ensures Pow(2, 1074) * Up(10, lead - p) < Up(10, p - lead) * Gap(b - 1)
  {
    hide Pow, Up, Units, Gap;
    UnitsBelowGap(b);
    SixteenDigits(p);
    P.ScaleBalance(lead - p, p);
    FineArith(Units(b), Pow(2, 1074), Gap(b - 1), Up(10, lead), Up(10, -lead), Up(10, lead - p), Up(10, p - lead),
              Pow(10, p), 2 * FRACTION);
  }

  lemma FineArith(n: nat, d: nat, g: nat, l: nat, l': nat, x: nat, y: nat, t: nat, m: nat)
    requires l * d <= n * l' && n <= m * g && m < t && l * y == t * (x * l')
    requires g > 0 && l' > 0 && y > 0 && t > 0
    ensures d * x < y * g
  {
    // (d x)(t l') = d l y <= n l' y <= m g l' y < t g l' y = (y g)(t l')
    MulMono(l * d, n * l', y);
    MulMono(n, m * g, l' * y);
    MulStrict(0, l', y);
    MulStrict(0, g, l' * y);
    MulStrict(m, t, g * (l' * y));
    Assoc(m, g, l' * y);
    Assoc(n, l', y);
    MulStrict(0, t, l');
    LeftSide(d, x, t, l', l, y);
    RightSide(y, g, t, l');
    MulCancelStrict(d * x, y * g, t * l');
  }

  lemma LeftSide(d: int, x: int, t: int, l': int, l: int, y: int)
    requires l * y == t * (x * l')
    ensures (d * x) * (t * l') == (l * d) * y
  {
    FourWay(d, x, t, l');
    Assoc(d, t, x * l');
    Assoc(d, l, y);
    Commute(l, d);
  }

  lemma RightSide(y: int, g: int, t: int, l': int)
    ensures (y * g) * (t * l') == t * (g * (l' * y))
  {
    Commute(y * g, t * l');
    Assoc(t, l', y * g);
    Commute(y, g);
    Assoc(l', g, y);
    Assoc(g, l', y);
    Commute(l', g);
    Assoc(l', y, g);
  }

  // A value within half a last digit of Units(b) rounds back to b, and is no tie.
  lemma CloseIsNearest(b: nat, r: nat, d: nat, x: nat, y: nat)
    requires 0 < b < INFINITY && y > 0 && d > 0 && x > 0
    requires HalfEven(Units(b) * y, d * x, r)
    requires d * x < y * Gap(b - 1)
    ensures NearestEven(r * x * d, y, b) && 2 * (r * x * d) != y
  {
    hide Units, Gap, NearestEven;
    var n := r * x * d;
    assert n == r * (d * x) by { Assoc(r, x, d); Commute(x, d); }
    UnitsBelowGap(b);
    UnitsStep(b);
    UnitsStep(b - 1);
    MulMono(Gap(b - 1), Gap(b), y);
    Commute(y, Gap(b - 1));
    Commute(y, Gap(b));
    MidpointSplit(y, Units(b), Gap(b));
    MidpointBelow(y, Units(b), Gap(b - 1));
    Commute(y, Units(b));
    assert y * Midpoint(b - 1) < 2 * n;
    assert 2 * n < y * Midpoint(b);
    UnitsMono(0, b);
    MulMono(1, Midpoint(b - 1), y);
    Commute(y, Midpoint(b - 1));
    BracketedIsNearest(n, y, b);
  }

  lemma MidpointSplit(y: int, u: int, g: int)
    ensures y * (u + (u + g)) == 2 * (y * u) + y * g
  {
    Distribute(y, u, u + g);
    Distribute(y, u, g);
  }

  lemma MidpointBelow(y: int, u: int, g: int)
    ensures y * ((u - g) + u) == 2 * (y * u) - y * g
  {
    Distribute(y, u - g, u);
    Distribute(y, u, -g);
    Negated(y, g);
  }

  lemma Negated(y: int, g: int)
    ensures y * -g == -(y * g)
  {}

  // ── The round trip ──────────────────────────────────────────────

  lemma RoundedIsNear(b: nat, lead: int, p: nat)
    requires 0 < b < INFINITY && p >= 16 && Leads(Units(b), Pow(2, 1074), lead)
    ensures var r := Rounded(Units(b), Pow(2, 1074), p - lead);
            && NearestEven(r * Up(10, lead - p) * Pow(2, 1074), Up(10, p - lead), b)
            && 2 * (r * Up(10, lead - p) * Pow(2, 1074)) != Up(10, p - lead)
  {
    hide Pow, Up, Units, Gap, NearestEven, RoundHalfEven, HalfEven, Leads;
    var n, d, x, y := Units(b), Pow(2, 1074), Up(10, lead - p), Up(10, p - lead);
    MulStrict(0, x, d);
    Commute(d, x);
    RoundHalfEvenIs(n * y, d * x);
    LastDigitFine(b, lead, p);
    CloseIsNearest(b, Rounded(n, d, p - lead), d, x, y);
  }

  // Raising the exponent by as much as the digits were divided by leaves the rational.
  lemma ScaledNearest(m: nat, t: nat, scale: int, b: nat)
    requires var n, d := P.Numerator(m * Pow(10, t), scale), P.Denominator(scale); NearestEven(n, d, b) && 2 * n != d
    ensures var n, d := P.Numerator(m, scale + t), P.Denominator(scale + t); NearestEven(n, d, b) && 2 * n != d
  {
    hide Pow, NearestEven, P.Numerator, P.Denominator;
    P.ExponentGap(m, scale, t);
    NumeratorScale(m, Pow(10, t), scale);
    var n, d, n', d' := P.Numerator(m * Pow(10, t), scale), P.Denominator(scale), P.Numerator(m, scale + t), P.Denominator(scale + t);
    assert n * d' == n' * d by { Assoc(Pow(10, t), P.Numerator(m, scale), d'); }
    NearestCongruent(n, d, n', d', b);
    SameRatio(n, d, n', d');
  }

  lemma NumeratorScale(m: nat, t: nat, scale: int)
    ensures P.Numerator(m * t, scale) == t * P.Numerator(m, scale)
  {
    hide Pow, Up;
    Commute(m, t);
    Assoc(t, m, Up(10, scale));
    Assoc(t, m * Up(10, scale), Pow(2, 1074));
  }

  /** A decimal that shows a value rounded to seventeen digits or more has that value's double nearest. */
  lemma PrintedValue(p: G.Decimal, b: nat, lead: int, precision: nat)
    requires 0 < b < INFINITY && precision >= 16 && Leads(Units(b), Pow(2, 1074), lead)
    requires Shows(p, Rounded(Units(b), Pow(2, 1074), precision - lead), lead - precision)
    ensures var x := P.Scale(P.ExponentOf(p.exponentSign == "-", p.exponent), |p.part|);
            var n, d := P.Numerator(Numeral(p.whole + p.part, 10), x), P.Denominator(x);
            NearestEven(n, d, b) && 2 * n != d
  {
    hide Pow, Up, Units, NearestEven, Rounded, Leads, Numeral, P.ExponentOf;
    RoundedIsNear(b, lead, precision);
    var x := P.Scale(P.ExponentOf(p.exponentSign == "-", p.exponent), |p.part|);
    ScaledNearest(Numeral(p.whole + p.part, 10), x - (lead - precision), lead - precision, b);
  }

  lemma SameRatio(n: nat, d: nat, n': nat, d': nat)
    requires d > 0 && d' > 0 && n * d' == n' * d && 2 * n != d
    ensures 2 * n' != d'
  {
    Assoc(2, n', d);
    Assoc(2, n, d');
    Commute(d, d');
    if 2 * n < d { MulStrict(2 * n, d, d'); } else { MulStrict(d, 2 * n, d'); }
  }

  // Whatever the parser may answer for a decimal with a short exponent.
  lemma ParsedBack(p: G.Decimal, minus: bool, b: nat, ok: bool, bits: L.u64, end: nat)
    requires b < INFINITY && -1000000 < P.ExponentOf(p.exponentSign == "-", p.exponent) < 1000000
    requires var x := P.Scale(P.ExponentOf(p.exponentSign == "-", p.exponent), |p.part|);
             var n, d := P.Numerator(Numeral(p.whole + p.part, 10), x), P.Denominator(x);
             NearestEven(n, d, b) && 2 * n != d
    requires P.ParsedAs(P.DecimalText(minus, p.whole + p.part, |p.part|, p.exponentSign == "-", p.exponent, |p.Text()|), ok, bits, end)
    ensures ok && bits == A.WithSign(minus, b) && end == |p.Text()|
  {
    hide Pow, Numeral, NearestEven, P.Numerator, P.Denominator, A.Magnitude, A.WithSign, P.Saturated, P.RoundsToInfinity;
    P.SaturatedBounds(p.exponent);
    var x := P.Scale(P.ExponentOf(p.exponentSign == "-", p.exponent), |p.part|);
    NearestUnique(P.Numerator(Numeral(p.whole + p.part, 10), x), P.Denominator(x), b, A.Magnitude(bits));
  }

  lemma ZeroIsNearest(scale: int)
    ensures NearestEven(P.Numerator(0, scale), P.Denominator(scale), 0)
    ensures 2 * P.Numerator(0, scale) != P.Denominator(scale)
  {
    P.ZeroCase(scale);
  }

  // Seventeen significant digits, in a layout that counts them.
  predicate Enough(layout: char, precision: int) {
    (Lower(layout) == 'e' && precision >= 16) || (Lower(layout) == 'g' && precision >= 17)
  }

  // What either layout shows.
  lemma EnoughShown(p: G.Decimal, b: nat, layout: char, precision: int, alt: bool, lead: int)
    requires b < INFINITY && Enough(layout, precision) && (b > 0 ==> Leads(Units(b), Pow(2, 1074), lead))
    requires if Lower(layout) == 'e' then ScientificShape(p, Units(b), Pow(2, 1074), lead, precision, alt, layout == 'E')
             else GeneralShape(p, Units(b), Pow(2, 1074), lead, precision, alt, layout == 'G')
    requires p.letter == "" ==> p.exponent == ""
    ensures -1000000 < P.ExponentOf(p.exponentSign == "-", p.exponent) < 1000000
    ensures var x := P.Scale(P.ExponentOf(p.exponentSign == "-", p.exponent), |p.part|);
            var n, d := P.Numerator(Numeral(p.whole + p.part, 10), x), P.Denominator(x);
            NearestEven(n, d, b) && 2 * n != d
  {
    hide Pow, Units, NearestEven, Rounded, Leads, P.Numerator, P.Denominator, Shows, WrittenWithExponent;
    F.FieldsAreUnits(b);
    EmptyNumeral(10);
    hide Numeral;
    if b == 0 {
      ZeroIsNearest(P.Scale(P.ExponentOf(p.exponentSign == "-", p.exponent), |p.part|));
    } else {
      LeadRange(b, lead);
      PrintedValue(p, b, lead, if Lower(layout) == 'e' then precision else precision - 1);
    }
  }

  /**
   Every finite double survives being printed with at least seventeen significant digits, in the
   scientific or the general layout, and parsed again: subnormals, both zeros, either case of the
   layout, any sign option.
   */
  lemma RoundTrip(bits: L.u64, layout: char, precision: int, sign: char, alt: bool, lead: int, ok: bool, bits': L.u64, end: nat)
    requires A.Magnitude(bits) < INFINITY && Enough(layout, precision)
    requires A.Magnitude(bits) > 0 ==> Leads(Units(A.Magnitude(bits)), Pow(2, 1074), lead)
    requires var t := F.PrintedText(bits, layout, precision, sign, alt, lead); P.ParsedAs(P.ReadFloat(t), ok, bits', end)
    ensures ok && bits' == bits && end == |F.PrintedText(bits, layout, precision, sign, alt, lead)|
  {
    hide Pow, P.ReadFloat, NearestEven, P.Numerator, P.Denominator, Leads, Units, P.ParsedAs, P.ExponentOf, F.PrintedText;
    hide ScientificShape, GeneralShape, FixedShape, A.WithSign, A.Magnitude;
    var p := Printed(bits, layout, precision, sign, alt, lead);
    EnoughShown(p, A.Magnitude(bits), layout, precision, alt, lead);
    ParsedBack(p, bits as nat >= SIGN_BIT, A.Magnitude(bits), ok, bits', end);
    SignKept(bits);
  }

  lemma SignKept(bits: L.u64)
    ensures A.WithSign(bits as nat >= SIGN_BIT, A.Magnitude(bits)) == bits
  {}

  /** An infinity comes back as itself, and a nan as a nan of its sign. */
  lemma NonFiniteRoundTrip(bits: L.u64, layout: char, precision: int, sign: char, alt: bool, lead: int, ok: bool, bits': L.u64, end: nat)
    requires A.Magnitude(bits) >= INFINITY
    requires var t := F.PrintedText(bits, layout, precision, sign, alt, lead); P.ParsedAs(P.ReadFloat(t), ok, bits', end)
    ensures ok && end == |F.PrintedText(bits, layout, precision, sign, alt, lead)|
    ensures if A.Magnitude(bits) == INFINITY then bits' == bits
            else A.Magnitude(bits') > INFINITY && (bits' as nat >= SIGN_BIT <==> bits as nat >= SIGN_BIT)
  {
    hide P.ReadFloat, F.PrintedText, A.WithSign, A.Magnitude;
    PrintedNonFinite(bits, layout, precision, sign, alt, lead);
    SignKept(bits);
  }

  // The first digit of a double is never far from the point.
  lemma LeadRange(b: nat, lead: int)
    requires 0 < b < INFINITY && Leads(Units(b), Pow(2, 1074), lead)
    ensures -1000 < lead < 1000
  {
    hide Pow, Units, Rounded;
    UpIs(10, lead);
    UpIs(10, -lead);
    TwoBelowTen(1000);
    PowMono(2, 1078, 3000);
    PowMono(2, 2100, 3000);
    PowAdd(2, 4, 1074);
    TwoToFour();
    UnitsMono(0, b);
    LargestUnits(b);
    MulMono(1, Pow(2, 1074), Pow(2, 2100));
    MulMono(1, Units(b), Up(10, -lead));
    Commute(Pow(2, 1074), Pow(2, 2100));
    TimesOne(Units(b));
    TimesOne(Pow(2, 1074));
    if lead >= 0 { MulCancelStrict(Pow(10, lead), Pow(2, 2100), Pow(2, 1074)); }
    if lead >= 1000 { PowMono(10, 1000, lead); }
    if lead <= -1000 { PowMono(10, 1000, -lead); }
  }

  lemma TwoToFour()
    ensures Pow(2, 4) == 16
  {}

  lemma LargestUnits(b: nat)
    requires b < INFINITY
    ensures Units(b) < Pow(2, 2100)
  {
    A.TwoTo53();
    var k := if b < FRACTION then 0 else b / FRACTION - 1;
    var m := if b < FRACTION then b else FRACTION + b % FRACTION;
    PowZero(2);
    hide Pow;
    MulMono(m, 2 * FRACTION, Pow(2, k));
    PowAdd(2, 53, k);
    PowStrict(2, 53 + k, 2100);
  }

  lemma ShortExponent(magnitude: nat)
    requires magnitude <= 1000
    ensures |ExponentText(magnitude)| <= 4
  {
    assert DigitCount(magnitude / 10 / 10 / 10) == 1;
    assert DigitCount(magnitude / 10 / 10) <= 2;
    assert DigitCount(magnitude / 10) <= 3;
    assert DigitCount(magnitude) <= 4;
  }

  lemma ShortText(bits: L.u64, sign: char, alt: bool, lead: int)
    requires A.Magnitude(bits) < INFINITY
    requires A.Magnitude(bits) > 0 ==> Leads(Units(A.Magnitude(bits)), Pow(2, 1074), lead)
    ensures |F.PrintedText(bits, 'e', 16, sign, alt, lead)| <= 26
  {
    hide Pow, Units, Leads, F.Significant, LowDigits, ExponentText;
    var b := A.Magnitude(bits);
    F.FieldsAreUnits(b);
    if b > 0 {
      LeadRange(b, lead);
      CarryScale(Units(b), Pow(2, 1074), lead, 16);
    }
    var s := if Units(b) == 0 then (0, 0) else F.Significant(Units(b), Pow(2, 1074), lead, 16);
    var magnitude: int := if s.1 < 0 then -s.1 else s.1;
    ShortExponent(magnitude);
  }

  /** The formatter and the parser put together. */
  method PrintAndParse(bits: L.u64, sign: char, alt: bool) returns (ok: bool, again: L.u64)
    requires A.Magnitude(bits) < INFINITY
    ensures ok && again == bits
  {
    hide Pow, Units, Leads, F.PrintedText, P.ParsedAs, P.ReadFloat;
    var buffer := new char[32](_ => '\0');
    var length, text, lead := F.FormatFloatTo(buffer, 32, bits, 'e', 16, sign, alt);
    ShortText(bits, sign, alt, lead);
    assert buffer[..length] == text;
    var end;
    ok, again, end := P.ParseFloat(buffer[..length], 0);
    RoundTrip(bits, 'e', 16, sign, alt, lead, ok, again, end);
  }
}
