/** Two texts that the parser does not round to the nearest double, and what it answers for them. */
module FloatParseFailures {
  import opened Powers
  import opened Ieee754
  import opened NumberText
  import opened DecimalWriting
  import opened FloatParse
  import A = DoubleAssembly
  import L = Limbs
  import G = FloatGrammar

  // numeral / 10^places written out, times ten to the exponent if there is one: 0.00...
  function PointParts(numeral: nat, places: nat, exponent: string): G.Decimal {
    G.Decimal("", "", "0", true, LowDigits(numeral, places), if exponent == "" then "" else "e", "", exponent, "")
  }

  lemma PointTextReads(numeral: nat, places: nat, exponent: string)
    requires numeral < Pow(10, places) && AllDigits(exponent)
    ensures var t, digits := PointParts(numeral, places, exponent).Text(), "0" + LowDigits(numeral, places);
            ReadFloat(t) == DecimalText(false, digits, places, false, exponent, |t|) && Numeral(digits, 10) == numeral
  {
    hide Pow, Numeral, LowDigits, ReadFloat;
    LowDigitsNumeral(numeral, places);
    ModBelow(numeral, Pow(10, places));
    PaddedNumeral(LowDigits(numeral, places), 1);
    assert Zeros(1) == "0";
    G.ReadsDecimal(PointParts(numeral, places, exponent));
  }

  /** 5^1075 over 10^1075, written out, is exactly 2^-1075: it should become zero and does not. */
  lemma HalfSubnormalText(ok: bool, bits: L.u64, end: nat)
    requires ParsedAs(ReadFloat(PointParts(Pow(5, 1075), 1075, "").Text()), ok, bits, end)
    ensures 2 * Numerator(Pow(5, 1075), -1075) == Denominator(-1075)
    ensures ok && bits == 1 && !NearestEven(Numerator(Pow(5, 1075), -1075), Denominator(-1075), 1)
  {
    hide Pow, Numeral, LowDigits, ReadFloat, PointParts, NearestEven, Numerator, Denominator, A.Magnitude, A.WithSign;
    Ten(1075);
    PowZero(2);
    PowStrict(2, 0, 1075);
    MulStrict(1, Pow(2, 1075), Pow(5, 1075));
    PointTextReads(Pow(5, 1075), 1075, "");
    NoExponent();
    HalfSubnormalValue();
    A.TinyNearest(Numerator(Pow(5, 1075), -1075), Denominator(-1075));
    PositiveOne(bits);
  }

  lemma NoExponent()
    ensures CodeExponent(false, "") == 0 && ExponentOf(false, "") == 0
  {}

  lemma NextDecimal(s: string, c: char, t: string)
    requires IsDigit(c) && t == s + [c]
    ensures Numeral(t, 10) == Numeral(s, 10) * 10 + (c - '0') as nat
  {
    NumeralAppend(s, c, 10);
    DecimalDigit(c);
  }

  lemma HalfSubnormalValue()
    ensures 2 * Numerator(Pow(5, 1075), -1075) == Denominator(-1075) && Denominator(-1075) > 0
  {
    hide Pow;
    PowZero(10);
    Ten(1075);
    A.PowDouble(1075);
    TimesOne(Pow(5, 1075));
    Assoc(2, Pow(5, 1075), Pow(2, 1074));
    Commute(2, Pow(5, 1075));
    Assoc(Pow(5, 1075), 2, Pow(2, 1074));
    Commute(Pow(2, 1075), Pow(5, 1075));
  }

  lemma PositiveOne(bits: L.u64)
    requires bits == A.WithSign(false, A.Magnitude(bits))
    ensures bits as nat == A.Magnitude(bits)
  {}

  /**
   Zero, the point, zeros and a one at the last place, with the exponent that cancels the places: the
   value is one.  From a million places on the accumulator stops short and the text is parsed as zero.
   */
  lemma LongExponentText(places: nat, exponent: string, ok: bool, bits: L.u64, end: nat)
    requires places >= 1000000 && exponent != "" && AllDigits(exponent) && Numeral(exponent, 10) == places
    requires ParsedAs(ReadFloat(PointParts(1, places, exponent).Text()), ok, bits, end)
    ensures Numerator(1, 0) == Pow(2, 1074) && Denominator(0) == 1
    ensures ok && bits == 0 && !NearestEven(Numerator(1, 0), Denominator(0), 0)
  {
    hide Pow, Numeral, LowDigits, ReadFloat, PointParts, NearestEven, Numerator, Denominator, A.Magnitude, A.WithSign;
    hide Saturated;
    var scale := CodeExponent(false, exponent) - places;
    PowZero(10);
    PowStrict(10, 0, 1);
    PowStrict(10, 0, places);
    SaturatedBounds(exponent);
    PointTextReads(1, places, exponent);
    UnderflowCorrect(1, 1, scale);
    NearestUnique(Numerator(1, scale), Denominator(scale), 0, A.Magnitude(bits));
    PositiveOne(bits);
    OneIsNotZero();
  }

  // Such a text exists: a million zeros and one.
  lemma MillionAndOne()
    ensures AllDigits("1000001") && Numeral("1000001", 10) == 1000001 >= 1000000
  {
    hide Numeral;
    EmptyNumeral(10);
    NextDecimal("", '1', "1");
    NextDecimal("1", '0', "10");
    NextDecimal("10", '0', "100");
    NextDecimal("100", '0', "1000");
    NextDecimal("1000", '0', "10000");
    NextDecimal("10000", '0', "100000");
    NextDecimal("100000", '1', "1000001");
  }

  lemma OneIsNotZero()
    ensures Numerator(1, 0) == Pow(2, 1074) && Denominator(0) == 1
    ensures !NearestEven(Numerator(1, 0), Denominator(0), 0)
  {
    hide Pow, NearestEven;
    PowZero(10);
    PowZero(2);
    PowStrict(2, 0, 1074);
    assert Midpoint(0) == 1;
    if NearestEven(Numerator(1, 0), 1, 0) {
      NearestIsBracketed(Numerator(1, 0), 1, 0);
    }
  }
}
