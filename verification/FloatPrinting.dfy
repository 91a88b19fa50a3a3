/**
 What the printed text of a double says: in every layout the text is a decimal of the grammar whose
 digits and exponent are the value rounded once, with as many digits as the layout asks for.
 */
module FloatPrinting {
  import opened Powers
  import opened Ieee754
  import opened NumberText
  import opened DecimalWriting
  import opened DecimalRounding
  import W = DecimalWriting
  import A = DoubleAssembly
  import L = Limbs
  import F = FloatFormat
  import G = FloatGrammar
  import P = FloatParse

  // ── Decades ─────────────────────────────────────────────────────

  // 10^k <= n/d.
  ghost predicate AtLeast(n: nat, d: nat, k: int) {
    Up(10, k) * d <= n * Up(10, -k)
  }

  // The same counted in units of 10^m.
  lemma InUnits(n: nat, d: nat, m: int, s: nat)
    ensures AtLeast(n, d, m + s) <==> Pow(10, s) * (d * Up(10, m)) <= n * Up(10, -m)
  {
    hide Pow, Up;
    P.ScaleBalance(m, s);
    UnitsArith(n, d, Up(10, m + s), Up(10, -(m + s)), Up(10, m), Up(10, -m), Pow(10, s));
  }

  lemma UnitsArith(n: nat, d: nat, l: nat, l': nat, x: nat, y: nat, t: nat)
    requires l * y == t * (x * l') && y > 0 && l' > 0
    ensures l * d <= n * l' <==> t * (d * x) <= n * y
  {
    var a, b, a', b' := l * d, n * l', t * (d * x), n * y;
    assert a * y == a' * l' by { UnitsSide(l, d, y, t, x, l'); }
    assert b * y == b' * l' by { SwapLast(n, l', y); }
    if a <= b { MulMono(a, b, y); MulCancel(a', b', l'); }
    if a' <= b' { MulMono(a', b', l'); MulCancel(a, b, y); }
  }

  lemma UnitsSide(l: int, d: int, y: int, t: int, x: int, l': int)
    requires l * y == t * (x * l')
    ensures (l * d) * y == (t * (d * x)) * l'
  {
    SwapLast(l, d, y);
    Assoc(t, x, l');
    Commute(d, x);
    Assoc(t, x, d);
    SwapLast(t * x, d, l');
  }

  lemma LowerDecade(n: nat, d: nat, j: int, k: int)
    requires k <= j && AtLeast(n, d, j)
    ensures AtLeast(n, d, k)
  {
    hide Pow, Up;
    InUnits(n, d, k, j - k);
    MulMono(1, Pow(10, j - k), d * Up(10, k));
    Commute(d, Up(10, k));
  }

  lemma LeadsDecade(n: nat, d: nat, lead: int)
    requires d > 0
    ensures Leads(n, d, lead) <==> AtLeast(n, d, lead) && !AtLeast(n, d, lead + 1)
  {
    hide Up;
    InUnits(n, d, lead, 1);
    assert Pow(10, 1) == 10;
    Commute(d, Up(10, lead));
  }

  // ── The significant digits ──────────────────────────────────────

  lemma RoundsAtMost(n: nat, q: nat, m: nat)
    requires q > 0 && n < m * q
    ensures RoundHalfEven(n, q) <= m
  {
    QuotientRemainder(n, q);
    MulCancelStrict(n / q, m, q);
  }

  lemma RoundsAtLeast(n: nat, q: nat, m: nat)
    requires q > 0 && m * q <= n
    ensures m <= RoundHalfEven(n, q)
  {
    QuotientRemainder(n, q);
    MulCancelStrict(m, n / q + 1, q);
  }

  lemma RoundedRange(n: nat, d: nat, lead: int, p: nat)
    requires d > 0 && Leads(n, d, lead)
    ensures Pow(10, p) <= Rounded(n, d, p - lead) <= Pow(10, p + 1)
  {
    hide Pow, Up, RoundHalfEven, Leads, AtLeast;
    LeadsDecade(n, d, lead);
    InUnits(n, d, lead - p, p);
    InUnits(n, d, lead - p, p + 1);
    MulStrict(0, Up(10, lead - p), d);
    Commute(Up(10, lead - p), d);
    RoundsAtLeast(n * Up(10, p - lead), d * Up(10, lead - p), Pow(10, p));
    RoundsAtMost(n * Up(10, p - lead), d * Up(10, lead - p), Pow(10, p + 1));
  }

  /** The digits printed are as many as asked for, the first of them not zero. */
  lemma SignificantRange(n: nat, d: nat, lead: int, p: nat)
    requires d > 0 && Leads(n, d, lead)
    ensures Pow(10, p) <= F.Significant(n, d, lead, p).0 < Pow(10, p + 1)
  {
    hide Pow, Rounded, Leads;
    RoundedRange(n, d, lead, p);
    PowNext(10, p);
  }

  // n/d reaches 10^k, or is near enough to round up to it with count significant digits.
  ghost predicate RoundsTo(n: nat, d: nat, count: nat, k: int) {
    (2 * Pow(10, count) - 1) * (d * Up(10, k - count)) <= 2 * (n * Up(10, count - k))
  }

  /** The exponent printed is the largest power of ten that the value rounds to. */
  lemma SignificantExponent(n: nat, d: nat, lead: int, p: nat, k: int)
    requires d > 0 && Leads(n, d, lead)
    ensures k <= F.Significant(n, d, lead, p).1 <==> RoundsTo(n, d, p + 1, k)
  {
    hide Pow, Up, Rounded, Leads, AtLeast;
    var q, x := d * Up(10, k - (p + 1)), n * Up(10, p + 1 - k);
    LeadsDecade(n, d, lead);
    RoundedRange(n, d, lead, p);
    PowNext(10, p);
    MulStrict(0, Up(10, k - (p + 1)), d);
    Commute(Up(10, k - (p + 1)), d);
    if k <= lead {
      LowerDecade(n, d, lead, k);
      InUnits(n, d, k - (p + 1), p + 1);
      AlmostTwice(Pow(10, p + 1), q, x);
    } else if k == lead + 1 {
      RoundsToPower(n, d, lead, p);
    } else {
      if AtLeast(n, d, k - 1) { LowerDecade(n, d, k - 1, lead + 1); }
      InUnits(n, d, k - (p + 1), p);
      FarBelow(Pow(10, p), q, x);
    }
  }

  lemma AlmostTwice(t: nat, q: nat, x: nat)
    requires t > 0 && t * q <= x
    ensures (2 * t - 1) * q <= 2 * x
  {
    MulMono(2 * t - 1, 2 * t, q);
    Assoc(2, t, q);
  }

  lemma FarBelow(t: nat, q: nat, x: nat)
    requires t > 0 && q > 0 && x < t * q
    ensures 2 * x < (2 * (10 * t) - 1) * q
  {
    MulMono(2 * t, 2 * (10 * t) - 1, q);
    Assoc(2, t, q);
  }

  // Just below a power of ten the last digit before it is odd, so the tie goes up.
  lemma RoundsToPower(n: nat, d: nat, lead: int, p: nat)
    requires d > 0 && Leads(n, d, lead)
    ensures Rounded(n, d, p - lead) == Pow(10, p + 1) <==> RoundsTo(n, d, p + 1, lead + 1)
  {
    hide Pow, Up, Leads, RoundHalfEven;
    var q, x, r := d * Up(10, lead - p), n * Up(10, p - lead), Rounded(n, d, p - lead);
    MulStrict(0, Up(10, lead - p), d);
    Commute(Up(10, lead - p), d);
    RoundedRange(n, d, lead, p);
    RoundHalfEvenIs(x, q);
    PowNext(10, p);
    PowerOrLess(x, q, r, Pow(10, p + 1), Pow(10, p));
  }

  lemma PowerOrLess(x: nat, q: nat, r: nat, t: nat, half: nat)
    requires q > 0 && HalfEven(x, q, r) && r <= t && t == 10 * half && half > 0
    ensures r == t <==> (2 * t - 1) * q <= 2 * x
  {
    if r < t { MulMono(2 * r + 1, 2 * t - 1, q); }
    if 2 * r + 1 < 2 * t - 1 { MulStrict(2 * r + 1, 2 * t - 1, q); }
    OddTerms(r, q);
    OddTerms(t - 1, q);
    assert 2 * (t - 1) + 1 == 2 * t - 1;
    assert (t - 1) % 2 == 1;
    Assoc(2, t, q);
    Distribute(q, 2 * t - 1, 1);
  }

  lemma OddTerms(r: int, q: int)
    ensures (2 * r + 1) * q == 2 * (r * q) + q
  {}

  // ── Texts in parts ──────────────────────────────────────────────

  // What stands before the digits: the space option is blank to a reader.
  predicate Headed(p: G.Decimal, minus: bool, sign: char) {
    && p.sign == (if minus then "-" else if sign == '+' then "+" else "")
    && p.space == (if !minus && sign == ' ' then " " else "")
    && p.rest == ""
  }

  function Body(minus: bool, sign: char, whole: string, point: bool, part: string, letter: string, exponentSign: string, exponent: string): (p: G.Decimal)
    ensures Headed(p, minus, sign)
  {
    G.Decimal(if !minus && sign == ' ' then " " else "", if minus then "-" else if sign == '+' then "+" else "",
              whole, point, part, letter, exponentSign, exponent, "")
  }

  lemma BodyText(minus: bool, sign: char, whole: string, point: bool, part: string, letter: string, exponentSign: string, exponent: string)
    ensures Body(minus, sign, whole, point, part, letter, exponentSign, exponent).Text()
         == F.SignText(minus, sign) + (whole + (if point then "." else "") + part + (letter + exponentSign + exponent))
  {
    var p, head := Body(minus, sign, whole, point, part, letter, exponentSign, exponent), F.SignText(minus, sign);
    assert p.space + p.sign == head;
    hide F.SignText;
    Joined(head, whole, if point then "." else "", part, letter, exponentSign, exponent);
  }

  lemma Joined(head: string, whole: string, dot: string, part: string, letter: string, sign: string, exponent: string)
    ensures head + whole + dot + part + letter + sign + exponent + "" == head + (whole + dot + part + (letter + sign + exponent))
  {
    var m, tail := whole + dot + part, letter + sign + exponent;
    assert head + whole + dot + part == head + m;
    assert head + m + letter + sign + exponent == head + m + tail;
    assert head + m + tail == head + (m + tail);
  }

  // The digits and the exponent are exactly rounded units of 10^scale.
  ghost predicate Shows(p: G.Decimal, rounded: nat, scale: int) {
    var last := P.ExponentOf(p.exponentSign == "-", p.exponent) - |p.part|;
    scale <= last && rounded == Numeral(p.whole + p.part, 10) * Pow(10, last - scale)
  }

  predicate NoLeadingZero(digits: string) {
    digits != "" && (digits[0] != '0' || |digits| == 1)
  }

  lemma FixedBody(minus: bool, sign: char, r: nat, precision: nat, alt: bool) returns (p: G.Decimal)
    ensures p.WellFormed() && Headed(p, minus, sign) && p.Text() == F.SignText(minus, sign) + FixedText(r, precision, alt)
    ensures p.letter == "" && |p.part| == precision && (p.point <==> precision > 0 || alt) && NoLeadingZero(p.whole)
    ensures Numeral(p.whole + p.part, 10) == r && P.ExponentOf(p.exponentSign == "-", p.exponent) == 0
    ensures p.part == LowDigits(r, precision)
  {
    hide Pow, LowDigits, F.SignText;
    FixedReads(r, precision, alt);
    DecimalReads(r / Pow(10, precision));
    LowDigitsNumeral(r, precision);
    var whole, part, point := W.Decimal(r / Pow(10, precision)), LowDigits(r, precision), precision > 0 || alt;
    p := Body(minus, sign, whole, point, part, "", "", "");
    BodyText(minus, sign, whole, point, part, "", "", "");
    hide FixedText;
    assert whole + (if point then "." else "") + part + ("" + "" + "")
        == whole + if precision > 0 then "." + part else if alt then "." else "";
  }

  // What the scientific layout's exponent text says.
  lemma ExponentReads(exponent: int)
    ensures var magnitude := if exponent < 0 then -exponent else exponent;
            var e := ExponentText(magnitude);
            && AllDigits(e) && P.ExponentOf(exponent < 0, e) == exponent && Numeral(e, 10) == magnitude
            && |e| >= 2 && (|e| == 2 || e[0] != '0')
  {
    hide Pow, Numeral, LowDigits, DigitCount;
    var magnitude: int := if exponent < 0 then -exponent else exponent;
    var k := Max(2, DigitCount(magnitude));
    DigitCountBounds(magnitude);
    PowMono(10, DigitCount(magnitude), k);
    LowDigitsNumeral(magnitude, k);
    ModBelow(magnitude, Pow(10, k));
    DecimalReads(magnitude);
  }

  lemma ScientificBody(minus: bool, sign: char, r: nat, precision: nat, exponent: int, alt: bool, uppercase: bool) returns (p: G.Decimal)
    requires r < Pow(10, precision + 1)
    ensures p.WellFormed() && Headed(p, minus, sign)
    ensures p.Text() == F.SignText(minus, sign) + ScientificText(r, precision, exponent, alt, uppercase)
    ensures WithExponent(p, uppercase) && |p.part| == precision && (p.point <==> precision > 0 || alt)
    ensures p.exponentSign == if exponent < 0 then "-" else "+"
    ensures Numeral(p.whole + p.part, 10) == r && P.ExponentOf(p.exponentSign == "-", p.exponent) == exponent
    ensures p.whole + p.part == LowDigits(r, precision + 1)
  {
    hide Pow, LowDigits, F.SignText, ExponentText, Numeral, ScientificText;
    ExponentReads(exponent);
    LowDigitsNumeral(r, precision + 1);
    ModBelow(r, Pow(10, precision + 1));
    var digits, e := LowDigits(r, precision + 1), ExponentText(if exponent < 0 then -exponent else exponent);
    var whole, part, point := [digits[0]], digits[1..], precision > 0 || alt;
    var letter, exponentSign := if uppercase then "E" else "e", if exponent < 0 then "-" else "+";
    assert whole + part == digits;
    p := Body(minus, sign, whole, point, part, letter, exponentSign, e);
    BodyText(minus, sign, whole, point, part, letter, exponentSign, e);
    ScientificJoined(r, precision, exponent, alt, uppercase, letter, exponentSign);
    SplitDigits(digits);
  }

  lemma SplitDigits(digits: string)
    requires digits != "" && AllDigits(digits)
    ensures AllDigits([digits[0]]) && AllDigits(digits[1..])
  {}

  lemma ScientificJoined(r: nat, precision: nat, exponent: int, alt: bool, uppercase: bool, letter: string, sign: string)
    requires letter == (if uppercase then "E" else "e") && sign == (if exponent < 0 then "-" else "+")
    ensures var digits, e := LowDigits(r, precision + 1), ExponentText(if exponent < 0 then -exponent else exponent);
            ScientificText(r, precision, exponent, alt, uppercase)
              == [digits[0]] + (if precision > 0 || alt then "." else "") + digits[1..] + (letter + sign + e)
  {
    hide LowDigits, ExponentText;
    var digits, e := LowDigits(r, precision + 1), ExponentText(if exponent < 0 then -exponent else exponent);
    var mark := [if uppercase then 'E' else 'e', if exponent < 0 then '-' else '+'];
    assert letter + sign == mark;
    var front := [digits[0]] + if precision > 0 then "." + digits[1..] else if alt then "." else "";
    assert front == [digits[0]] + (if precision > 0 || alt then "." else "") + digits[1..];
    assert front + (mark + e) == front + mark + e;
  }

  // ── The three layouts ───────────────────────────────────────────

  // The fixed layout: the value rounded to the places after the point, six unless told.
  ghost predicate FixedShape(p: G.Decimal, n: nat, d: nat, precision: int, alt: bool)
    requires d > 0
  {
    var places := if precision < 0 then 6 else precision;
    && p.letter == "" && NoLeadingZero(p.whole) && |p.part| == places && (p.point <==> places > 0 || alt)
    && Shows(p, Rounded(n, d, places), -places)
  }

  lemma PrintedFixed(n: nat, d: nat, lead: int, layout: char, precision: int, minus: bool, sign: char, alt: bool, uppercase: bool)
    returns (p: G.Decimal)
    requires d > 0 && layout != 'e' && layout != 'g'
    ensures p.WellFormed() && Headed(p, minus, sign)
    ensures p.Text() == F.SignText(minus, sign) + F.FiniteText(n, d, lead, layout, precision, alt, uppercase)
    ensures FixedShape(p, n, d, precision, alt)
  {
    hide Pow, Rounded, FixedText, Numeral, P.ExponentOf, F.SignText;
    var places := if precision < 0 then 6 else precision;
    p := FixedBody(minus, sign, Rounded(n, d, places), places, alt);
    PowZero(10);
    TimesOne(Rounded(n, d, places));
  }

  // A leading digit that is not zero, whatever the layout.
  lemma FirstDigit(digits: string, r: nat, count: nat)
    requires |digits| == count > 0 && AllDigits(digits) && Numeral(digits, 10) == r >= Pow(10, count - 1)
    ensures digits[0] != '0'
  {
    hide Numeral;
    LeadingZeroBound(digits);
  }

  // The carried and the uncarried significant digits are the rounded value.
  lemma SignificantShows(p: G.Decimal, n: nat, d: nat, lead: int, precision: nat)
    requires d > 0
    requires var s := F.Significant(n, d, lead, precision);
             Numeral(p.whole + p.part, 10) == s.0 && P.ExponentOf(p.exponentSign == "-", p.exponent) - |p.part| == s.1 - precision
    ensures Shows(p, Rounded(n, d, precision - lead), lead - precision)
  {
    hide Rounded, Numeral, P.ExponentOf;
    PowZero(10);
    PowNext(10, 0);
    PowNext(10, precision);
    hide Pow;
    TimesOne(F.Significant(n, d, lead, precision).0);
  }

  // The scientific layout: one digit, not zero but for zero, then the places asked for, six unless told.
  ghost predicate ScientificShape(p: G.Decimal, n: nat, d: nat, lead: int, precision: int, alt: bool, uppercase: bool)
    requires d > 0
  {
    var places := if precision < 0 then 6 else precision;
    && WithExponent(p, uppercase) && |p.part| == places && (p.point <==> places > 0 || alt)
    && (if n > 0 then p.whole != "0" && NearLead(p, lead) && Shows(p, Rounded(n, d, places - lead), lead - places)
        else Numeral(p.whole + p.part, 10) == 0 && p.exponentSign == "+" && Numeral(p.exponent, 10) == 0)
  }

  // The exponent is that of the leading digit, or one more after a carry.
  predicate NearLead(p: G.Decimal, lead: int) {
    lead <= P.ExponentOf(p.exponentSign == "-", p.exponent) <= lead + 1
  }

  // One digit, and an exponent of at least two, padded no further.
  predicate WithExponent(p: G.Decimal, uppercase: bool) {
    && p.letter == (if uppercase then "E" else "e") && |p.whole| == 1
    && p.exponentSign != "" && |p.exponent| >= 2 && (|p.exponent| == 2 || p.exponent[0] != '0')
  }

  lemma PrintedScientific(n: nat, d: nat, lead: int, precision: int, minus: bool, sign: char, alt: bool, uppercase: bool)
    returns (p: G.Decimal)
    requires d > 0 && (n > 0 ==> Leads(n, d, lead))
    ensures p.WellFormed() && Headed(p, minus, sign)
    ensures p.Text() == F.SignText(minus, sign) + F.FiniteText(n, d, lead, 'e', precision, alt, uppercase)
    ensures ScientificShape(p, n, d, lead, precision, alt, uppercase)
  {
    hide Pow, Rounded, Leads, ScientificText, Numeral, F.SignText, F.Significant;
    var places := if precision < 0 then 6 else precision;
    var s := if n == 0 then (0, 0) else F.Significant(n, d, lead, places);
    PowStrict(10, 0, places + 1);
    PowZero(10);
    if n > 0 {
      SignificantRange(n, d, lead, places);
      CarryScale(n, d, lead, places);
    }
    p := ScientificBody(minus, sign, s.0, places, s.1, alt, uppercase);
    if n > 0 {
      FirstDigit(p.whole + p.part, s.0, places + 1);
      SignificantShows(p, n, d, lead, places);
    }
  }

  // The general layout's number of significant digits.
  function GeneralDigits(precision: int): nat {
    if precision < 0 then 6 else Max(precision, 1)
  }

  // Whether the exponent is written: the value rounds to 10^count or more, or to less than 10^-4.
  ghost predicate WrittenWithExponent(n: nat, d: nat, count: nat) {
    || (2 * Pow(10, count) - 1) * d <= 2 * n
    || 2 * (n * Pow(10, count + 4)) < (2 * Pow(10, count) - 1) * d
  }

  lemma ExponentRange(n: nat, d: nat, lead: int, count: nat)
    requires d > 0 && count > 0 && Leads(n, d, lead)
    ensures WrittenWithExponent(n, d, count) <==> !(-4 <= F.Significant(n, d, lead, count - 1).1 < count)
  {
    SignificantExponent(n, d, lead, count - 1, count);
    SignificantExponent(n, d, lead, count - 1, -4);
    hide Pow, F.Significant, Leads;
    PowZero(10);
    TimesOne(n);
    TimesOne(d);
  }

  // What stripping leaves is the same value, and in range when the digits are.
  lemma StrippedRange(r: nat, q: nat)
    requires Pow(10, q) <= r < Pow(10, q + 1)
    ensures var s := Stripped(r, q); s.1 <= q && Pow(10, s.1) <= s.0 < Pow(10, s.1 + 1) && r == s.0 * Pow(10, q - s.1)
  {
    hide Pow, Stripped;
    var s := Stripped(r, q);
    F.StrippedKeeps(r, q);
    PowAdd(10, s.1, q - s.1);
    PowAdd(10, s.1 + 1, q - s.1);
    MulCancel(Pow(10, s.1), s.0, Pow(10, q - s.1));
    MulCancelStrict(s.0, Pow(10, s.1 + 1), Pow(10, q - s.1));
  }

  // The last digit of the fraction.
  lemma LastDigit(v: nat, k: nat)
    requires k > 0 && v % 10 != 0
    ensures LowDigits(v, k)[k - 1] != '0'
  {}

  // The value's significant digits, scaled by the carry.
  lemma CarryScale(n: nat, d: nat, lead: int, precision: nat)
    requires d > 0
    ensures var s := F.Significant(n, d, lead, precision);
            lead <= s.1 <= lead + 1 && Rounded(n, d, precision - lead) == s.0 * Pow(10, s.1 - lead)
  {
    hide Rounded;
    PowZero(10);
    PowNext(10, 0);
    PowNext(10, precision);
    hide Pow;
    TimesOne(F.Significant(n, d, lead, precision).0);
  }

  lemma ShowsScaled(p: G.Decimal, rounded: nat, scale: int, r: nat, m: nat, t: nat, c: nat)
    requires rounded == r * Pow(10, c) && r == m * Pow(10, t)
    requires Numeral(p.whole + p.part, 10) == m
    requires P.ExponentOf(p.exponentSign == "-", p.exponent) - |p.part| == scale + t + c
    ensures Shows(p, rounded, scale)
  {
    hide Pow, Numeral, P.ExponentOf;
    PowAdd(10, t, c);
    Assoc(m, Pow(10, t), Pow(10, c));
  }

  /**
   The general layout.  The text of a value other than zero carries an exponent exactly when the value
   rounds, to the significant digits asked for, to 10^count or more or to less than 10^-4; it denotes
   that rounded value.  Unless told otherwise it ends in no zero of the fraction and no bare point;
   else it shows every significant digit.
   */
  ghost predicate GeneralShape(p: G.Decimal, n: nat, d: nat, lead: int, precision: int, alt: bool, uppercase: bool)
    requires d > 0
  {
    var count := GeneralDigits(precision);
    && (if n > 0 then
          (p.letter != "" <==> WrittenWithExponent(n, d, count)) && Shows(p, Rounded(n, d, count - 1 - lead), lead - (count - 1))
        else p.letter == "" && Numeral(p.whole + p.part, 10) == 0)
    && (if p.letter == "" then NoLeadingZero(p.whole) else WithExponent(p, uppercase) && p.whole != "0" && NearLead(p, lead))
    && (if !alt then (p.point <==> p.part != "") && (p.part != "" ==> p.part[|p.part| - 1] != '0')
        else p.point && if n > 0 then Pow(10, count - 1) <= Numeral(p.whole + p.part, 10) < Pow(10, count) else |p.part| == count - 1)
  }

  lemma GeneralFixed(minus: bool, sign: char, r: nat, q: nat, alt: bool) returns (p: G.Decimal)
    ensures var s := if alt then (r, q) else Stripped(r, q);
            && p.WellFormed() && Headed(p, minus, sign) && p.Text() == F.SignText(minus, sign) + FixedText(s.0, s.1, alt)
            && p.letter == "" && NoLeadingZero(p.whole) && (p.point <==> s.1 > 0 || alt) && |p.part| == s.1
            && (!alt && p.part != "" ==> p.part[|p.part| - 1] != '0')
            && Numeral(p.whole + p.part, 10) == s.0 && P.ExponentOf(p.exponentSign == "-", p.exponent) == 0
  {
    hide Pow, Stripped, FixedText, Numeral, F.SignText, P.ExponentOf;
    var s := if alt then (r, q) else Stripped(r, q);
    p := FixedBody(minus, sign, s.0, s.1, alt);
    F.StrippedKeeps(r, q);
    if !alt && s.1 > 0 { LastDigit(s.0, s.1); }
  }

  lemma GeneralScientific(minus: bool, sign: char, r: nat, q: nat, exponent: int, alt: bool, uppercase: bool) returns (p: G.Decimal)
    requires Pow(10, q) <= r < Pow(10, q + 1)
    ensures var s := if alt then (r, q) else Stripped(r, q);
            && p.WellFormed() && Headed(p, minus, sign)
            && p.Text() == F.SignText(minus, sign) + ScientificText(s.0, s.1, exponent, alt, uppercase)
            && (p.point <==> s.1 > 0 || alt) && |p.part| == s.1
            && WithExponent(p, uppercase) && p.whole != "0"
            && (!alt && p.part != "" ==> p.part[|p.part| - 1] != '0')
            && Numeral(p.whole + p.part, 10) == s.0 && P.ExponentOf(p.exponentSign == "-", p.exponent) == exponent
  {
    hide Pow, Stripped, ScientificText, Numeral, F.SignText, P.ExponentOf;
    var s := if alt then (r, q) else Stripped(r, q);
    StrippedRange(r, q);
    F.StrippedKeeps(r, q);
    p := ScientificBody(minus, sign, s.0, s.1, exponent, alt, uppercase);
    FirstDigit(p.whole + p.part, s.0, s.1 + 1);
    if !alt && s.1 > 0 { LastDigit(s.0, s.1 + 1); }
  }

  lemma PrintedGeneral(n: nat, d: nat, lead: int, precision: int, minus: bool, sign: char, alt: bool, uppercase: bool)
    returns (p: G.Decimal)
    requires d > 0 && (n > 0 ==> Leads(n, d, lead))
    ensures p.WellFormed() && Headed(p, minus, sign)
    ensures p.Text() == F.SignText(minus, sign) + F.FiniteText(n, d, lead, 'g', precision, alt, uppercase)
    ensures GeneralShape(p, n, d, lead, precision, alt, uppercase)
  {
    hide Pow, Rounded, Leads, ScientificText, FixedText, Numeral, F.SignText, F.Significant, Stripped, P.ExponentOf, WrittenWithExponent;
    var count := GeneralDigits(precision);
    if n == 0 {
      F.StrippedZero(count - 1);
      p := GeneralFixed(minus, sign, 0, count - 1, alt);
      return;
    }
    var s := F.Significant(n, d, lead, count - 1);
    SignificantRange(n, d, lead, count - 1);
    ExponentRange(n, d, lead, count);
    CarryScale(n, d, lead, count - 1);
    PowZero(10);
    TimesOne(s.0);
    var fixed := -4 <= s.1 < count;
    var q := if fixed then count - 1 - s.1 else count - 1;
    if fixed {
      p := GeneralFixed(minus, sign, s.0, q, alt);
    } else {
      p := GeneralScientific(minus, sign, s.0, q, s.1, alt, uppercase);
    }
    F.StrippedKeeps(s.0, q);
    var m := if alt then (s.0, q) else Stripped(s.0, q);
    ShowsScaled(p, Rounded(n, d, count - 1 - lead), lead - (count - 1), s.0, m.0, q - m.1, s.1 - lead);
  }

  // ── The text of a double ────────────────────────────────────────

  lemma LetterShows(p: G.Decimal)
    requires p.WellFormed() && p.rest == ""
    ensures (exists k :: 0 <= k < |p.Text()| && G.Exponential(p.Text()[k])) <==> p.letter != ""
  {
    var t, m := p.Text(), p.Mantissa();
    assert t == m + (p.letter + p.exponentSign + p.exponent);
    if p.letter == "" {
      assert t == m;
      MantissaPlain(p);
    } else {
      assert t[|m|] == p.letter[0];
    }
  }

  lemma MantissaPlain(p: G.Decimal)
    requires p.WellFormed()
    ensures forall k :: 0 <= k < |p.Mantissa()| ==> !G.Exponential(p.Mantissa()[k])
  {
    Plain(p.space);
    Plain(p.sign);
    Plain(p.whole);
    Plain(p.part);
  }

  lemma Plain(s: string)
    requires G.AllBlank(s) || G.OptionalSign(s) || AllDigits(s)
    ensures forall k :: 0 <= k < |s| ==> !G.Exponential(s[k])
  {}

  /**
   The text of every finite double, in every layout: read back it is the sign and the digits of the
   value rounded once, in the shape the layout promises, with an exponent's letter in it or not.
   */
  lemma Printed(bits: L.u64, layout: char, precision: int, sign: char, alt: bool, lead: int) returns (p: G.Decimal)
    requires A.Magnitude(bits) < INFINITY
    requires A.Magnitude(bits) > 0 ==> Leads(Units(A.Magnitude(bits)), Pow(2, 1074), lead)
    ensures var t := F.PrintedText(bits, layout, precision, sign, alt, lead);
            && p.WellFormed() && p.Text() == t && Headed(p, bits as nat >= SIGN_BIT, sign)
            && P.ReadFloat(t) == P.DecimalText(bits as nat >= SIGN_BIT, p.whole + p.part, |p.part|, p.exponentSign == "-", p.exponent, |t|)
            && ((exists k :: 0 <= k < |t| && (t[k] == 'e' || t[k] == 'E')) <==> p.letter != "")
    ensures var n, d := Units(A.Magnitude(bits)), Pow(2, 1074);
            if layout == 'e' || layout == 'E' then ScientificShape(p, n, d, lead, precision, alt, layout == 'E')
            else if layout == 'g' || layout == 'G' then GeneralShape(p, n, d, lead, precision, alt, layout == 'G')
            else FixedShape(p, n, d, precision, alt)
  {
    hide Pow, Units, Leads, F.FiniteText, F.SignText, P.ReadFloat, ScientificShape, GeneralShape, FixedShape;
    var minus, uppercase, lower := bits as nat >= SIGN_BIT, 'A' <= layout <= 'Z', Lower(layout);
    var n, d := Units(A.Magnitude(bits)), Pow(2, 1074);
    F.FieldsAreUnits(A.Magnitude(bits));
    ZeroUnits(A.Magnitude(bits));
    if lower == 'e' {
      p := PrintedScientific(n, d, lead, precision, minus, sign, alt, uppercase);
    } else if lower == 'g' {
      p := PrintedGeneral(n, d, lead, precision, minus, sign, alt, uppercase);
    } else {
      p := PrintedFixed(n, d, lead, lower, precision, minus, sign, alt, uppercase);
    }
    LetterShows(p);
    G.ReadsDecimal(p);
  }

  lemma ZeroUnits(b: nat)
    ensures Units(b) > 0 ==> b > 0
  {}

  // A word of three letters in one case.
  lemma WordRead(minus: bool, sign: char, isNan: bool, uppercase: bool)
    ensures var t := F.SignText(minus, sign) + F.NonFiniteText(isNan, uppercase);
            P.ReadFloat(t) == if isNan then P.NanText(minus, |t|) else P.InfinityText(minus, |t|)
  {
    hide P.ReadFloat;
    var head, word := F.SignText(minus, sign), F.NonFiniteText(isNan, uppercase);
    var w := G.Word(if head == " " then head else "", if head == " " then "" else head, word, "");
    assert w.Text() == head + word;
    if isNan { G.ReadsNan(w); } else { G.ReadsInfinity(w); }
  }

  lemma WordCase(minus: bool, sign: char, isNan: bool, uppercase: bool)
    ensures var t := F.SignText(minus, sign) + F.NonFiniteText(isNan, uppercase);
            forall k :: 0 <= k < |t| ==> ('a' <= t[k] <= 'z' ==> !uppercase) && ('A' <= t[k] <= 'Z' ==> uppercase)
  {}

  /** Infinities and nans are printed as the words that are read as them, upper case where the layout is. */
  lemma PrintedNonFinite(bits: L.u64, layout: char, precision: int, sign: char, alt: bool, lead: int)
    requires A.Magnitude(bits) >= INFINITY
    ensures var t, minus := F.PrintedText(bits, layout, precision, sign, alt, lead), bits as nat >= SIGN_BIT;
            && P.ReadFloat(t) == (if A.Magnitude(bits) == INFINITY then P.InfinityText(minus, |t|) else P.NanText(minus, |t|))
            && forall k :: 0 <= k < |t| ==> ('a' <= t[k] <= 'z' ==> !('A' <= layout <= 'Z')) && ('A' <= t[k] <= 'Z' ==> 'A' <= layout <= 'Z')
  {
    hide P.ReadFloat, F.SignText, F.NonFiniteText;
    WordRead(bits as nat >= SIGN_BIT, sign, A.Magnitude(bits) > INFINITY, 'A' <= layout <= 'Z');
    WordCase(bits as nat >= SIGN_BIT, sign, A.Magnitude(bits) > INFINITY, 'A' <= layout <= 'Z');
  }
}
