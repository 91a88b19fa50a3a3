/** ParseFloat: decimal text to the nearest double. */
module FloatParse {
  import opened Powers
  import opened Limbs
  import opened Ieee754
  import opened DecimalBignum
  import opened DoubleAssembly
  import opened ScaleBounds
  import opened DecimalScaling
  import opened NumberText

  const MAX_SIGNIFICANT := 800

  // ── What the text says ──────────────────────────────────────────

  datatype FloatText =
    | NotANumber
    | InfinityText(negative: bool, end: nat)
    | NanText(negative: bool, end: nat)
    | DecimalText(negative: bool, digits: string, fraction: nat, exponentNegative: bool, exponentDigits: string, end: nat)

  // Whether the word stands at i, in any case.
  predicate WordAt(t: string, i: nat, word: string) {
    forall k :: 0 <= k < |word| ==> Lower(At(t, i + k)) == word[k]
  }

  // The optional exponent at i: its sign, its digits (none when there is no exponent) and its end.
  function ReadExponent(t: string, i: nat): (r: (bool, string, nat)) {
    var signed := At(t, i + 1) == '+' || At(t, i + 1) == '-';
    var j := if signed then i + 2 else i + 1;
    if Lower(At(t, i)) == 'e' && IsDigit(At(t, j)) then
      (At(t, i + 1) == '-', Slice(t, j, DigitsEnd(t, j, 10)), DigitsEnd(t, j, 10))
    else (false, "", i)
  }

  // Digits from b with an optional point and exponent.
  function ReadDecimal(t: string, b: nat, negative: bool): FloatText {
    var c := DigitsEnd(t, b, 10);
    var point := At(t, c) == '.';
    var d := if point then DigitsEnd(t, c + 1, 10) else c;
    var fraction := if point then Slice(t, c + 1, d) else "";
    var digits := Slice(t, b, c) + fraction;
    if digits == "" then NotANumber
    else
      var r := ReadExponent(t, d);
      DecimalText(negative, digits, |fraction|, r.0, r.1, r.2)
  }

  // Space, sign, then a word or a decimal.
  function ReadFloat(t: string): FloatText {
    var a := SpaceEnd(t, 0);
    var negative := At(t, a) == '-';
    var b := if At(t, a) == '+' || At(t, a) == '-' then a + 1 else a;
    if WordAt(t, b, "inf") then InfinityText(negative, if WordAt(t, b + 3, "inity") then b + 8 else b + 3)
    else if WordAt(t, b, "nan") then NanText(negative, b + 3)
    else ReadDecimal(t, b, negative)
  }

  // The decimal's value is Numerator / Denominator in units of 2^-1074.
  function Scale(exponent: int, fraction: nat): int {
    exponent - fraction
  }

  function ExponentOf(negative: bool, digits: string): int {
    if negative then -(Numeral(digits, 10) as int) else Numeral(digits, 10)
  }

  ghost function Numerator(numeral: nat, scale: int): nat {
    numeral * Up(10, scale) * Pow(2, 1074)
  }

  ghost function Denominator(scale: int): (d: nat)
    ensures d > 0
  {
    Up(10, -scale)
  }

  // ── What the code keeps of the digits ───────────────────────────

  // The digits read so far as a numeral, how many they are and how many of them follow the point.
  datatype Reading = Reading(numeral: nat, length: nat, fraction: nat) {
    function With(digit: nat, after: nat): Reading {
      Reading(numeral * 10 + digit, length + 1, fraction + after)
    }
  }

  // What the parser keeps of them.
  datatype Tally = Tally(value: nat, significant: nat, exponent: int, sticky: bool)

  // The tally stands for the reading: every dropped digit has been moved into the exponent.
  ghost predicate Collected(r: Reading, t: Tally) {
    var dropped := t.exponent + r.fraction;
    && 0 <= dropped && t.significant + dropped <= r.length && r.fraction <= r.length && t.significant <= MAX_SIGNIFICANT
    && (t.value == 0 <==> t.significant == 0) && t.value < Pow(10, t.significant)
    && (t.significant > 0 ==> Pow(10, t.significant - 1) <= t.value)
    && (t.significant < MAX_SIGNIFICANT ==> dropped == 0 && !t.sticky)
    && t.value * Pow(10, dropped) <= r.numeral < t.value * Pow(10, dropped) + Pow(10, dropped)
    && (t.sticky <==> t.value * Pow(10, dropped) < r.numeral)
  }

  lemma CollectNothing()
    ensures Collected(Reading(0, 0, 0), Tally(0, 0, 0, false))
  {
    PowZero(10);
  }

  // A leading zero.
  lemma CollectZero(r: Reading, t: Tally, after: nat)
    requires Collected(r, t) && t.value == 0 && after <= 1
    ensures Collected(r.With(0, after), t.(exponent := t.exponent - after))
  {
    PowZero(10);
  }

  // A digit that is kept.
  lemma CollectKept(r: Reading, t: Tally, c: nat, after: nat)
    requires Collected(r, t) && t.significant < MAX_SIGNIFICANT && c < 10 && (t.value > 0 || c > 0) && after <= 1
    ensures Collected(r.With(c, after), Tally(t.value * 10 + c, t.significant + 1, t.exponent - after, t.sticky))
  {
    PowZero(10);
    assert Pow(10, t.significant + 1) == 10 * Pow(10, t.significant);
    assert t.significant > 0 ==> Pow(10, t.significant) == 10 * Pow(10, t.significant - 1);
  }

  // A digit past the cap: it scales the value, and a nonzero one is remembered.
  lemma CollectDropped(r: Reading, t: Tally, c: nat, after: nat)
    requires Collected(r, t) && t.significant == MAX_SIGNIFICANT && c < 10 && after <= 1
    ensures Collected(r.With(c, after), t.(exponent := t.exponent + 1 - after, sticky := t.sticky || c != 0))
  {
    var dropped := t.exponent + r.fraction;
    hide Pow;
    PowNext(10, dropped);
    DropArith(t.value, Pow(10, dropped), Pow(10, dropped + 1));
  }

  lemma DropArith(v: int, p: int, p': int)
    requires p' == 10 * p
    ensures v * p' == 10 * (v * p)
  {}

  // The kept digits hold the numeral's value, at whatever scale the exponent puts it.
  lemma CollectedHolds(r: Reading, t: Tally, e: int)
    requires Collected(r, t)
    ensures var scale := Scale(e, r.fraction);
            DecimalHolds(t.value, t.exponent + e, t.sticky, Numerator(r.numeral, scale), Denominator(scale))
  {
    hide Pow;
    var scale := Scale(e, r.fraction);
    var dropped, exponent: int := t.exponent + r.fraction, t.exponent + e;
    var n, d := Numerator(r.numeral, scale), Denominator(scale);
    var g := Up(10, scale) * (Up(10, -exponent) * Pow(2, 1074));
    ScaleBalance(scale, dropped);
    MulStrict(0, Up(10, -exponent), Pow(2, 1074));
    MulStrict(0, Up(10, scale), Up(10, -exponent) * Pow(2, 1074));
    UnitFactor(Up(10, exponent), Pow(2, 1074), d, Pow(10, dropped), Up(10, scale), Up(10, -exponent));
    NumeratorFactor(r.numeral, Up(10, scale), Pow(2, 1074), Up(10, -exponent));
    HoldsScale(t.value, Pow(10, dropped), r.numeral, g, DecimalUnit(exponent, d), n * Up(10, -exponent), t.sticky);
  }

  lemma ScaleBalance(scale: int, dropped: nat)
    ensures Up(10, scale + dropped) * Up(10, -scale) == Pow(10, dropped) * (Up(10, scale) * Up(10, -(scale + dropped)))
  {
    hide Pow, Up;
    UpIs(10, scale);
    UpIs(10, -scale);
    UpIs(10, scale + dropped);
    UpIs(10, -(scale + dropped));
    var p := Pow(10, dropped);
    if scale >= 0 {
      PowAdd(10, dropped, scale);
      Balance(Up(10, scale + dropped), Up(10, -scale), p, Up(10, scale), Up(10, -(scale + dropped)));
    } else if scale + dropped >= 0 {
      PowAdd(10, scale + dropped, -scale);
      Balance(Up(10, scale + dropped), Up(10, -scale), p, Up(10, scale), Up(10, -(scale + dropped)));
    } else {
      PowAdd(10, dropped, -(scale + dropped));
      Balance(Up(10, scale + dropped), Up(10, -scale), p, Up(10, scale), Up(10, -(scale + dropped)));
    }
  }

  lemma Balance(a: int, b: int, p: int, c: int, e: int)
    requires (b == 1 && e == 1 && a == p * c) || (c == 1 && e == 1 && a * b == p) || (a == 1 && c == 1 && b == p * e)
    ensures a * b == p * (c * e)
  {}

  lemma UnitFactor(a: int, two: int, d: int, p: int, b: int, c: int)
    requires a * d == p * (b * c)
    ensures a * (two * d) == p * (b * (c * two))
  {
    Commute(two, d);
    Assoc(a, d, two);
    Assoc(b, c, two);
    Assoc(p, b * c, two);
  }

  lemma NumeratorFactor(numeral: int, b: int, two: int, c: int)
    ensures numeral * b * two * c == numeral * (b * (c * two))
  {
    Assoc(numeral * b, two, c);
    Commute(two, c);
    Assoc(numeral, b, c * two);
  }

  lemma HoldsScale(value: nat, p: nat, numeral: nat, g: nat, u: nat, x: nat, sticky: bool)
    requires g > 0 && u == p * g && x == numeral * g
    requires value * p <= numeral < value * p + p && (sticky <==> value * p < numeral)
    ensures value * u <= x < value * u + u && (sticky <==> value * u < x)
  {
    Assoc(value, p, g);
    Distribute(g, value * p, p);
    MulMono(value * p, numeral, g);
    MulStrict(numeral, value * p + p, g);
    if sticky { MulStrict(value * p, numeral, g); }
  }

  // ── The verdict ─────────────────────────────────────────────────

  // The short circuits, then the conversion, with the exponent e added to the tally's.
  ghost function Decided(t: Tally, e: int): nat {
    var exponent := t.exponent + e;
    if t.value == 0 || t.significant + exponent < -400 then 0
    else if t.significant + exponent > 350 then INFINITY
    else Scaled(t.value, exponent, t.sticky)
  }

  lemma UnderflowCorrect(numeral: nat, places: nat, scale: int)
    requires numeral < Pow(10, places) && places + scale <= -401
    ensures 2 * Numerator(numeral, scale) < Denominator(scale)
    ensures NearestEven(Numerator(numeral, scale), Denominator(scale), 0)
  {
    hide Pow, NearestEven;
    PowZero(10);
    TimesOne(numeral);
    TwoBelowTen(401);
    PowMono(2, 1075, 1203);
    PowDouble(1075);
    PowAdd(10, places, 401);
    PowMono(10, places + 401, -scale);
    Halve(numeral, Pow(2, 1074));
    Assoc(2, numeral, Pow(2, 1074));
    MulStrict(numeral, Pow(10, places), Pow(2, 1075));
    MulMono(Pow(2, 1075), Pow(10, 401), Pow(10, places));
    Commute(Pow(10, places), Pow(2, 1075));
    Commute(Pow(10, places), Pow(10, 401));
    TinyNearest(Numerator(numeral, scale), Denominator(scale));
  }

  lemma OverflowCorrect(numeral: nat, places: nat, scale: int)
    requires Pow(10, places) <= numeral && places + scale >= 350
    ensures Denominator(scale) <= Numerator(numeral, scale)
    ensures NearestEven(Numerator(numeral, scale), Denominator(scale), INFINITY)
  {
    hide Pow, NearestEven;
    var n, d := Numerator(numeral, scale), Denominator(scale);
    TwoBelowTen(350);
    PowMono(2, 1024, 1050);
    PowAdd(2, 1024, 1074);
    OverflowScale(numeral, places, scale);
    MulMono(d * Pow(2, 1024), numeral * Up(10, scale), Pow(2, 1074));
    Assoc(d, Pow(2, 1024), Pow(2, 1074));
    MulMono(1, Pow(2, 2098), d);
    Commute(d, Pow(2, 2098));
    TwoTo53();
    PowAdd(2, 52, 2046);
    TimesOne(d);
    Assoc(FRACTION, d, Pow(2, 2046));
    Assoc(d, FRACTION, Pow(2, 2046));
    Commute(d, FRACTION);
    OverflowIsNearest(0x7FF, n, d, d * Pow(2, 2046));
  }

  lemma OverflowScale(numeral: nat, places: nat, scale: int)
    requires Pow(10, places) <= numeral && places + scale >= 350 && Pow(2, 1024) <= Pow(10, 350)
    ensures Denominator(scale) * Pow(2, 1024) <= numeral * Up(10, scale)
  {
    hide Pow;
    PowZero(10);
    TimesOne(numeral);
    TimesOne(Pow(2, 1024));
    if scale >= 0 {
      PowAdd(10, places, scale);
      PowMono(10, 350, places + scale);
      MulMono(Pow(10, places), numeral, Pow(10, scale));
    } else {
      PowAdd(10, -scale, 350);
      PowMono(10, -scale + 350, places);
      MulMono(Pow(2, 1024), Pow(10, 350), Pow(10, -scale));
      Commute(Pow(10, -scale), Pow(2, 1024));
      Commute(Pow(10, -scale), Pow(10, 350));
    }
  }

  lemma ZeroCase(scale: int)
    ensures Numerator(0, scale) == 0 && NearestEven(0, Denominator(scale), 0)
  {
    TimesZero(Up(10, scale));
    TimesZero(Pow(2, 1074));
    TinyNearest(0, Denominator(scale));
  }

  // The nearest magnitude to n/d units, but for 2^-1075, which becomes the smallest subnormal.
  ghost predicate Answered(n: nat, d: nat, b: nat) {
    if 2 * n == d then b == 1 else NearestEven(n, d, b)
  }

  // At the exponent the code adds, its answer is the nearest one or the value is 2^-1075.
  lemma DecidedCorrect(r: Reading, t: Tally, e: int)
    requires Collected(r, t)
    ensures var scale := Scale(e, r.fraction);
            var n, d := Numerator(r.numeral, scale), Denominator(scale);
            Answered(n, d, Decided(t, e)) && (NearestEven(n, d, Decided(t, e)) <==> 2 * n != d)
  {
    hide Pow, NearestEven, Scaled, Numerator, Denominator;
    var scale := Scale(e, r.fraction);
    var dropped := t.exponent + r.fraction;
    var estimate := t.significant + t.exponent + e;
    PowZero(10);
    if t.value == 0 {
      TimesZero(Pow(10, dropped));
      ZeroCase(scale);
    } else if estimate < -400 {
      NumeralBelow(r.numeral, t.value, t.significant, dropped);
      UnderflowCorrect(r.numeral, t.significant + dropped, scale);
    } else if estimate > 350 {
      NumeralAbove(r.numeral, t.value, t.significant, dropped);
      OverflowCorrect(r.numeral, t.significant - 1 + dropped, scale);
    } else {
      CollectedHolds(r, t, e);
      ScaledCorrect(t.value, t.exponent + e, t.sticky, Numerator(r.numeral, scale), Denominator(scale));
    }
  }

  lemma NumeralBelow(numeral: nat, value: nat, significant: nat, dropped: nat)
    requires value < Pow(10, significant) && numeral < value * Pow(10, dropped) + Pow(10, dropped)
    ensures numeral < Pow(10, significant + dropped)
  {
    hide Pow;
    PowAdd(10, significant, dropped);
    MulMono(value + 1, Pow(10, significant), Pow(10, dropped));
    Distribute(Pow(10, dropped), value, 1);
  }

  lemma NumeralAbove(numeral: nat, value: nat, significant: nat, dropped: nat)
    requires significant > 0 && Pow(10, significant - 1) <= value && value * Pow(10, dropped) <= numeral
    ensures Pow(10, significant - 1 + dropped) <= numeral
  {
    hide Pow;
    PowAdd(10, significant - 1, dropped);
    MulMono(Pow(10, significant - 1), value, Pow(10, dropped));
  }

  // ── The parser ──────────────────────────────────────────────────

  // Matches a word in any case; on a mismatch the cursor stays where it was.
  method MatchWord(text: string, p: nat, word: string) returns (matched: bool, q: nat)
    requires forall k :: 0 <= k < |word| ==> word[k] != '\0'
    ensures matched <==> WordAt(text, p, word)
    ensures q == if matched then p + |word| else p
  {
    q := p;
    var k := 0;
    while k < |word|
      invariant 0 <= k <= |word| && q == p + k
      invariant forall j :: 0 <= j < k ==> Lower(At(text, p + j)) == word[j]
    {
      if Lower(At(text, q)) != word[k] {
        return false, p;
      }
      q := q + 1;
      k := k + 1;
    }
    matched := true;
  }

  // One more digit kept, of either part.
  method KeepDigit(digits: BigUInt, c: char, ghost r: Reading, significant: nat, exponent: int, sticky: bool, ghost after: nat)
    returns (kept: nat)
    requires digits.Valid() && digits.Trimmed() && IsDigit(c) && significant < MAX_SIGNIFICANT && after <= 1
    requires Collected(r, Tally(digits.Value(), significant, exponent, sticky)) && (digits.Value() > 0 || c != '0')
    modifies digits, digits.limb
    ensures digits.Valid() && digits.Trimmed() && kept == significant + 1
    ensures Collected(r.With((c - '0') as nat, after), Tally(digits.Value(), kept, exponent - after, sticky))
  {
    hide Pow, Kept, LimbValue;
    ghost var v := digits.Value();
    CollectKept(r, Tally(v, significant, exponent, sticky), (c - '0') as nat, after);
    DigitFits(v * 10 + (c - '0') as nat, significant + 1);
    KeptSmall(v * 10 + (c - '0') as nat);
    digits.MulAddSmall(10, (c - '0') as u32);
    kept := significant + 1;
  }

  lemma DigitFits(v: nat, significant: nat)
    requires v < Pow(10, significant) && significant <= 800
    ensures v < Capacity()
  {
    hide Pow, Kept;
    PowMono(10, significant, 800);
    ScaledFits(v, 0);
    ShlNothing(v);
  }

  // The digits before the point, from p0 to p.
  function WholeRead(text: string, p0: nat, p: nat): Reading
    requires p0 <= p <= |text|
  {
    Reading(Numeral(text[p0..p], 10), p - p0, 0)
  }

  method IntegerPart(text: string, p0: nat, digits: BigUInt) returns (p: nat, significant: nat, exponent: int, sticky: bool)
    requires p0 <= |text| && digits.Valid() && digits.Trimmed() && digits.Value() == 0
    modifies digits, digits.limb
    ensures digits.Valid() && digits.Trimmed() && p0 <= p <= |text| && p == DigitsEnd(text, p0, 10)
    ensures Collected(WholeRead(text, p0, p), Tally(digits.Value(), significant, exponent, sticky))
  {
    hide Pow, LimbValue, Collected, Numeral, DigitsEnd, DigitValue;
    p, significant, exponent, sticky := p0, 0, 0, false;
    CollectNothing();
    EmptyNumeral(10);
    assert text[p0..p0] == "";
    while IsDigit(At(text, p))
      invariant digits.Valid() && digits.Trimmed() && p0 <= p <= |text| && DigitsEnd(text, p, 10) == DigitsEnd(text, p0, 10)
      invariant Collected(WholeRead(text, p0, p), Tally(digits.Value(), significant, exponent, sticky))
      decreases |text| - p
    {
      ghost var r, t := WholeRead(text, p0, p), Tally(digits.Value(), significant, exponent, sticky);
      var c := At(text, p);
      DecimalDigit(c);
      NextDigit(text, p0, p);
      digits.ZeroIff();
      CollectedZero(r, t);
      if digits.IsZero() && c == '0' {
        CollectZero(r, t, 0);
      } else if significant < MAX_SIGNIFICANT {
        significant := KeepDigit(digits, c, r, significant, exponent, sticky, 0);
      } else {
        CollectDropped(r, t, (c - '0') as nat, 0);
        exponent := exponent + 1;
        if c != '0' {
          sticky := true;
        }
      }
      p := p + 1;
    }
    DecimalDigit(At(text, p));
    RunEnds(text, p, 10);
  }

  lemma NextDigit(text: string, p0: nat, p: nat)
    requires p0 <= p < |text| && IsDigit(text[p])
    ensures WholeRead(text, p0, p + 1) == WholeRead(text, p0, p).With((text[p] - '0') as nat, 0)
    ensures DigitsEnd(text, p, 10) == DigitsEnd(text, p + 1, 10)
  {
    assert text[p0..p + 1] == text[p0..p] + [text[p]];
    NumeralAppend(text[p0..p], text[p], 10);
    DecimalDigit(text[p]);
  }

  lemma CollectedZero(r: Reading, t: Tally)
    requires Collected(r, t)
    ensures t.significant <= MAX_SIGNIFICANT && (t.value == 0 <==> t.significant == 0)
  {}

  // The digits before the point followed by those from p0 to p after it.
  function FractionRead(whole: string, text: string, p0: nat, p: nat): Reading
    requires p0 <= p <= |text|
  {
    Reading(Numeral(whole + text[p0..p], 10), |whole| + (p - p0), p - p0)
  }

  method FractionPart(text: string, p0: nat, digits: BigUInt, ghost whole: string, significant0: nat, exponent0: int, sticky0: bool)
    returns (p: nat, significant: nat, exponent: int, sticky: bool)
    requires p0 <= |text| && digits.Valid() && digits.Trimmed()
    requires Collected(Reading(Numeral(whole, 10), |whole|, 0), Tally(digits.Value(), significant0, exponent0, sticky0))
    modifies digits, digits.limb
    ensures digits.Valid() && digits.Trimmed() && p0 <= p <= |text| && p == DigitsEnd(text, p0, 10)
    ensures Collected(FractionRead(whole, text, p0, p), Tally(digits.Value(), significant, exponent, sticky))
  {
    hide Pow, LimbValue, Collected, Numeral, DigitsEnd, DigitValue;
    p, significant, exponent, sticky := p0, significant0, exponent0, sticky0;
    assert whole + text[p0..p0] == whole;
    while IsDigit(At(text, p))
      invariant digits.Valid() && digits.Trimmed() && p0 <= p <= |text| && DigitsEnd(text, p, 10) == DigitsEnd(text, p0, 10)
      invariant Collected(FractionRead(whole, text, p0, p), Tally(digits.Value(), significant, exponent, sticky))
      decreases |text| - p
    {
      ghost var r, t := FractionRead(whole, text, p0, p), Tally(digits.Value(), significant, exponent, sticky);
      var c := At(text, p);
      DecimalDigit(c);
      NextFractionDigit(text, whole, p0, p);
      digits.ZeroIff();
      CollectedZero(r, t);
      if digits.IsZero() && c == '0' {
        CollectZero(r, t, 1);
        exponent := exponent - 1;
      } else if significant < MAX_SIGNIFICANT {
        significant := KeepDigit(digits, c, r, significant, exponent, sticky, 1);
        exponent := exponent - 1;
      } else {
        CollectDropped(r, t, (c - '0') as nat, 1);
        if c != '0' {
          sticky := true;
        }
      }
      p := p + 1;
    }
    DecimalDigit(At(text, p));
    RunEnds(text, p, 10);
  }

  lemma NextFractionDigit(text: string, whole: string, p0: nat, p: nat)
    requires p0 <= p < |text| && IsDigit(text[p])
    ensures FractionRead(whole, text, p0, p + 1) == FractionRead(whole, text, p0, p).With((text[p] - '0') as nat, 1)
    ensures DigitsEnd(text, p, 10) == DigitsEnd(text, p + 1, 10)
  {
    assert whole + text[p0..p + 1] == (whole + text[p0..p]) + [text[p]];
    NumeralAppend(whole + text[p0..p], text[p], 10);
    DecimalDigit(text[p]);
  }

  // The exponent accumulator: it stops growing once it has six digits.
  function Saturated(s: string): nat {
    if s == "" then 0
    else
      var m := Saturated(s[..|s| - 1]);
      if m < 100000 then m * 10 + Max(DigitValue(s[|s| - 1], 10), 0) else m
  }

  lemma {:induction false} SaturatedBounds(s: string)
    ensures Saturated(s) < 1000000
    ensures Numeral(s, 10) < 1000000 ==> Saturated(s) == Numeral(s, 10)
    ensures Numeral(s, 10) >= 1000000 ==> 100000 <= Saturated(s) && 10 * Saturated(s) <= Numeral(s, 10)
  {
    if s != "" { SaturatedBounds(s[..|s| - 1]); }
  }

  function CodeExponent(negative: bool, digits: string): int {
    if negative then -(Saturated(digits) as int) else Saturated(digits)
  }

  // ── The exponent that stopped growing ───────────────────────────

  // n/d units or anything larger rounds to infinity.
  ghost predicate RoundsToInfinity(n: nat, d: nat) {
    d * Midpoint(INFINITY - 1) <= 2 * n
  }

  /**
   When the answer for a numeral with its exponent e, computed with the code's exponent c, is the
   nearest double.  With the right exponent only 2^-1075 goes wrong.  With another one the two values
   are so far apart that they agree only by both vanishing or both overflowing.
   */
  ghost predicate RoundsRight(numeral: nat, fraction: nat, c: int, e: int) {
    var n, d := Numerator(numeral, Scale(e, fraction)), Denominator(Scale(e, fraction));
    var n', d' := Numerator(numeral, Scale(c, fraction)), Denominator(Scale(c, fraction));
    if c == e then 2 * n != d
    else if c < e then 2 * n <= d || RoundsToInfinity(n', d')
    else 2 * n' < d' || RoundsToInfinity(n, d)
  }

  // n/d is k times n'/d': unless the larger overflows the smaller vanishes.
  lemma FarApart(n: nat, d: nat, n': nat, d': nat, k: nat)
    requires d > 0 && d' > 0 && n * d' == k * (n' * d) && k > Midpoint(INFINITY - 1)
    ensures !RoundsToInfinity(n, d) ==> 2 * n' < d'
    ensures 2 * n <= d ==> 2 * n' < d'
    ensures RoundsToInfinity(n', d') ==> RoundsToInfinity(n, d)
  {
    hide Units, Pow;
    var m := Midpoint(INFINITY - 1);
    LargeMidpoint();
    MulMono(1, m, d);
    MulMono(1, m, d');
    Commute(d, m);
    Commute(d', m);
    FarArith(n, d, n', d', k, m);
  }

  lemma LargeMidpoint()
    ensures 1 < Midpoint(INFINITY - 1) < Pow(2, 2100)
  {
    hide Pow;
    UnitsMono(0, INFINITY - 1);
    UnitsMono(INFINITY - 1, INFINITY);
    InfinityUnits();
    TwoTo53();
    PowAdd(2, 52, 2046);
    PowAdd(2, 1, 2098);
    PowStrict(2, 2099, 2100);
    assert Pow(2, 1) == 2 by { PowZero(2); PowNext(2, 0); }
  }

  lemma FarArith(n: int, d: int, n': int, d': int, k: int, m: int)
    requires d > 0 && d' > 0 && n * d' == k * (n' * d) && k > m > 0
    ensures 2 * n < d * m ==> 2 * n' < d'
  {
    FarTerms(n, d, n', d', k, m);
    MulStrict(0, d', d);
    MulStrict(m, k, d' * d);
    if 2 * n < d * m && d' <= 2 * n' {
      MulMono(d', 2 * n', d);
      MulMono(d' * d, 2 * n' * d, k);
      MulStrict(2 * n, d * m, d');
    }
  }

  lemma FarTerms(n: int, d: int, n': int, d': int, k: int, m: int)
    requires n * d' == k * (n' * d)
    ensures (2 * n) * d' == (2 * n' * d) * k
    ensures (d * m) * d' == m * (d' * d)
    ensures (d' * d) * k == k * (d' * d)
  {
    Assoc(2, n, d');
    Assoc(2, n', d);
    Commute(k, n' * d);
    Assoc(2, n' * d, k);
    Commute(d, m);
    Assoc(m, d, d');
    Commute(d, d');
  }

  // What the code decides for n'/d' is right for n/d, k times as large.
  lemma LostAbove(n: nat, d: nat, n': nat, d': nat, k: nat, b: nat)
    requires d > 0 && d' > 0 && n * d' == k * (n' * d) && k > Midpoint(INFINITY - 1)
    requires Answered(n', d', b) && (NearestEven(n', d', b) <==> 2 * n' != d')
    ensures NearestEven(n, d, b) <==> 2 * n <= d || RoundsToInfinity(n', d')
  {
    hide NearestEven, Midpoint;
    FarApart(n, d, n', d', k);
    Extremes(n, d, b);
    Extremes(n', d', b);
  }

  // And what it decides for n/d is right for n'/d'.
  lemma LostBelow(n: nat, d: nat, n': nat, d': nat, k: nat, b: nat)
    requires d > 0 && d' > 0 && n * d' == k * (n' * d) && k > Midpoint(INFINITY - 1)
    requires Answered(n, d, b) && (NearestEven(n, d, b) <==> 2 * n != d)
    ensures NearestEven(n', d', b) <==> 2 * n < d || RoundsToInfinity(n', d')
  {
    hide NearestEven, Midpoint;
    FarApart(n, d, n', d', k);
    Extremes(n, d, b);
    Extremes(n', d', b);
  }

  // Which values round to zero and which to infinity.
  lemma Extremes(n: nat, d: nat, b: nat)
    requires d > 0
    ensures NearestEven(n, d, 0) <==> 2 * n <= d
    ensures NearestEven(n, d, INFINITY) <==> RoundsToInfinity(n, d)
    ensures NearestEven(n, d, b) && 2 * n <= d ==> b == 0
    ensures NearestEven(n, d, b) && RoundsToInfinity(n, d) ==> b == INFINITY
    ensures 2 * n <= d ==> !RoundsToInfinity(n, d)
  {
    hide NearestEven, RoundsToInfinity;
    ZeroIsNearest(n, d);
    InfinityIsNearest(n, d);
    if NearestEven(n, d, b) && 2 * n <= d { NearestUnique(n, d, 0, b); }
    if NearestEven(n, d, b) && RoundsToInfinity(n, d) { NearestUnique(n, d, INFINITY, b); }
  }

  lemma ZeroIsNearest(n: nat, d: nat)
    requires d > 0
    ensures NearestEven(n, d, 0) <==> 2 * n <= d
    ensures 2 * n <= d ==> !RoundsToInfinity(n, d)
  {
    hide NearestEven, Pow;
    LargeMidpoint();
    MulStrict(1, Midpoint(INFINITY - 1), d);
    Commute(d, Midpoint(INFINITY - 1));
    assert Midpoint(0) == 1;
    if 2 * n <= d { BracketedIsNearest(n, d, 0); }
    if NearestEven(n, d, 0) { NearestIsBracketed(n, d, 0); }
  }

  lemma InfinityIsNearest(n: nat, d: nat)
    requires d > 0
    ensures NearestEven(n, d, INFINITY) <==> RoundsToInfinity(n, d)
  {
    hide NearestEven, Midpoint;
    if RoundsToInfinity(n, d) { BracketedIsNearest(n, d, INFINITY); }
    if NearestEven(n, d, INFINITY) { NearestIsBracketed(n, d, INFINITY); }
  }

  // Raising the exponent by gap multiplies the value by its power of ten.
  lemma ExponentGap(numeral: nat, scale: int, gap: nat)
    ensures Numerator(numeral, scale + gap) * Denominator(scale)
         == Pow(10, gap) * (Numerator(numeral, scale) * Denominator(scale + gap))
  {
    hide Pow, Up;
    var v, two := numeral, Pow(2, 1074);
    ScaleBalance(scale, gap);
    GapTerms(v, two, Up(10, scale + gap), Up(10, -scale), Pow(10, gap), Up(10, scale), Up(10, -(scale + gap)));
  }

  lemma GapTerms(v: int, two: int, a: int, b: int, p: int, a': int, b': int)
    requires a * b == p * (a' * b')
    ensures v * a * two * b == p * (v * a' * two * b')
  {
    FourTerms(v, a, two, b);
    FourTerms(v, a', two, b');
    Assoc(p, v * two, a' * b');
    Commute(p, v * two);
    Assoc(v * two, p, a' * b');
  }

  lemma FourTerms(v: int, a: int, two: int, b: int)
    ensures v * a * two * b == (v * two) * (a * b)
  {
    Assoc(v, a, two);
    Commute(a, two);
    Assoc(v, two, a);
    Assoc(v * two, a, b);
  }

  /** The exact condition, for every run of digits and every exponent text. */
  lemma DecidedRight(r: Reading, t: Tally, negative: bool, digits: string)
    requires Collected(r, t)
    ensures var c, e := CodeExponent(negative, digits), ExponentOf(negative, digits);
            var n, d := Numerator(r.numeral, Scale(e, r.fraction)), Denominator(Scale(e, r.fraction));
            var n', d' := Numerator(r.numeral, Scale(c, r.fraction)), Denominator(Scale(c, r.fraction));
            && Answered(n', d', Decided(t, c))
            && (NearestEven(n, d, Decided(t, c)) <==> RoundsRight(r.numeral, r.fraction, c, e))
  {
    hide Pow, NearestEven, Numerator, Denominator, Decided, Collected, Saturated, Numeral, RoundsToInfinity, Midpoint;
    var c, e := CodeExponent(negative, digits), ExponentOf(negative, digits);
    var s, s' := Scale(e, r.fraction), Scale(c, r.fraction);
    DecidedCorrect(r, t, c);
    SaturatedBounds(digits);
    if c < e {
      GapIsWide(e - c);
      ExponentGap(r.numeral, s', e - c);
      LostAbove(Numerator(r.numeral, s), Denominator(s), Numerator(r.numeral, s'), Denominator(s'), Pow(10, e - c), Decided(t, c));
    } else if e < c {
      GapIsWide(c - e);
      ExponentGap(r.numeral, s, c - e);
      LostBelow(Numerator(r.numeral, s'), Denominator(s'), Numerator(r.numeral, s), Denominator(s), Pow(10, c - e), Decided(t, c));
    }
  }

  lemma GapIsWide(gap: nat)
    requires gap >= 900000
    ensures Pow(10, gap) > Midpoint(INFINITY - 1)
  {
    hide Pow, Midpoint;
    LargeMidpoint();
    PowMono(10, 2100, gap);
    PowBaseMono(2, 10, 2100);
  }

  // Below a million the exponent is exact; past it, fewer than 99600 digits cannot bring either
  // value back into range.
  predicate ExponentKept(length: nat, exponentDigits: string) {
    Numeral(exponentDigits, 10) < 1000000 || length < 99600
  }

  // So for such texts nothing but 2^-1075 is rounded wrongly.
  lemma KeptRoundsRight(numeral: nat, length: nat, fraction: nat, negative: bool, digits: string)
    requires ExponentKept(length, digits) && numeral < Pow(10, length) && fraction <= length
    ensures var c, e := CodeExponent(negative, digits), ExponentOf(negative, digits);
            var scale := Scale(e, fraction);
            RoundsRight(numeral, fraction, c, e) <==> 2 * Numerator(numeral, scale) != Denominator(scale)
  {
    hide Pow, NearestEven, Numerator, Denominator, Saturated, Numeral, RoundsToInfinity;
    var c, e := CodeExponent(negative, digits), ExponentOf(negative, digits);
    SaturatedBounds(digits);
    PowZero(10);
    if numeral == 0 {
      ZeroCase(Scale(c, fraction));
      ZeroCase(Scale(e, fraction));
    } else if c < e {
      OverflowCorrect(numeral, 0, Scale(c, fraction));
      OverflowCorrect(numeral, 0, Scale(e, fraction));
      Extremes(Numerator(numeral, Scale(c, fraction)), Denominator(Scale(c, fraction)), INFINITY);
    } else if e < c {
      UnderflowCorrect(numeral, length, Scale(c, fraction));
      UnderflowCorrect(numeral, length, Scale(e, fraction));
    }
  }

  lemma SaturatedNext(text: string, start: nat, p: nat)
    requires start <= p < |text| && IsDigit(text[p])
    ensures var m := Saturated(text[start..p]);
            Saturated(text[start..p + 1]) == if m < 100000 then m * 10 + (text[p] - '0') as nat else m
    ensures DigitsEnd(text, p, 10) == DigitsEnd(text, p + 1, 10)
  {
    assert text[start..p + 1][..p - start] == text[start..p];
    DecimalDigit(text[p]);
  }

  lemma SaturatedNothing()
    ensures Saturated("") == 0
  {}

  method ExponentDigits(text: string, start: nat) returns (magnitude: int, after: nat)
    requires start <= |text|
    ensures start <= after <= |text| && after == DigitsEnd(text, start, 10)
    ensures magnitude == Saturated(text[start..after])
  {
    hide Saturated, Numeral;
    magnitude, after := 0, start;
    assert text[start..start] == "";
    SaturatedNothing();
    while IsDigit(At(text, after))
      invariant start <= after <= |text| && DigitsEnd(text, after, 10) == DigitsEnd(text, start, 10)
      invariant magnitude == Saturated(text[start..after])
      decreases |text| - after
    {
      SaturatedNext(text, start, after);
      if magnitude < 100000 {
        magnitude := magnitude * 10 + (At(text, after) - '0') as int;
      }
      after := after + 1;
    }
    DecimalDigit(At(text, after));
  }

  method ExponentPart(text: string, p0: nat) returns (delta: int, p: nat)
    requires p0 <= |text|
    ensures var r := ReadExponent(text, p0); delta == CodeExponent(r.0, r.1) && p == r.2
  {
    hide Saturated, Numeral, DigitsEnd;
    SaturatedNothing();
    delta, p := 0, p0;
    if Lower(At(text, p)) == 'e' {
      var after := p + 1;
      var exponentNegative := false;
      if At(text, after) == '+' || At(text, after) == '-' {
        exponentNegative := At(text, after) == '-';
        after := after + 1;
      }
      if IsDigit(At(text, after)) {
        var magnitude;
        magnitude, after := ExponentDigits(text, after);
        delta := if exponentNegative then -magnitude else magnitude;
        p := after;
      }
    }
  }

  /**
   The parsed double answers the value at the exponent the code kept, and it is the correctly rounded
   value of the text exactly when RoundsRight says so.
   */
  ghost predicate ParsedAs(text: FloatText, ok: bool, bits: u64, end: nat) {
    match text
    case NotANumber => !ok
    case InfinityText(negative, e) => ok && end == e && bits == WithSign(negative, INFINITY)
    case NanText(negative, e) => ok && end == e && bits == WithSign(negative, INFINITY + FRACTION / 2)
    case DecimalText(negative, digits, fraction, exponentNegative, exponentDigits, after) =>
      var numeral, c, e := Numeral(digits, 10), CodeExponent(exponentNegative, exponentDigits), ExponentOf(exponentNegative, exponentDigits);
      var n, d := Numerator(numeral, Scale(e, fraction)), Denominator(Scale(e, fraction));
      var n', d' := Numerator(numeral, Scale(c, fraction)), Denominator(Scale(c, fraction));
      && ok && end == after
      && Magnitude(bits) <= INFINITY && bits == WithSign(negative, Magnitude(bits))
      && Answered(n', d', Magnitude(bits))
      && (NearestEven(n, d, Magnitude(bits)) <==> RoundsRight(numeral, fraction, c, e))
  }

  // The short circuits and the conversion; delta has been added to the tally's exponent.
  method Decide(digits: BigUInt, significant: nat, exponent: int, sticky: bool, negative: bool, ghost r: Reading, ghost delta: int)
    returns (bits: u64)
    requires digits.Valid() && digits.Trimmed()
    requires Collected(r, Tally(digits.Value(), significant, exponent - delta, sticky))
    ensures Decided(Tally(digits.Value(), significant, exponent - delta, sticky), delta) <= INFINITY
    ensures bits == WithSign(negative, Decided(Tally(digits.Value(), significant, exponent - delta, sticky), delta))
  {
    hide Pow, LimbValue, Scaled;
    digits.ZeroIff();
    var magnitudeEstimate := significant + exponent;
    if digits.IsZero() || magnitudeEstimate < -400 {
      return WithSign(negative, 0);
    }
    if magnitudeEstimate > 350 {
      return WithSign(negative, INFINITY);
    }
    EstimateFits(digits.Value(), significant, exponent);
    bits := DecimalToDouble(digits, exponent, sticky, negative);
  }

  lemma EstimateFits(value: nat, significant: nat, exponent: int)
    requires value < Pow(10, significant) && significant <= 800 && -400 <= significant + exponent <= 350
    ensures Fits(value, exponent)
  {
    hide Pow, Shl, ScaleShift;
    if exponent >= 0 {
      PowAdd(10, significant, exponent);
      MulStrict(value, Pow(10, significant), Pow(10, exponent));
      PowMono(10, significant + exponent, 350);
      IntegerFits(value, exponent);
    } else {
      PowMono(10, significant, 800);
      ScaleShiftBounds(-exponent);
      ScaledFits(value, ScaleShift(-exponent));
    }
  }

  // From the end of the digits: the exponent, the short circuits and the conversion.
  method FinishDecimal(text: string, p: nat, digits: BigUInt, significant: nat, exponent: int, sticky: bool, negative: bool,
                       ghost read: string, ghost fraction: nat)
    returns (bits: u64, end: nat)
    requires p <= |text| && digits.Valid() && digits.Trimmed()
    requires Collected(Reading(Numeral(read, 10), |read|, fraction), Tally(digits.Value(), significant, exponent, sticky))
    ensures var r := ReadExponent(text, p); ParsedAs(DecimalText(negative, read, fraction, r.0, r.1, r.2), true, bits, end)
  {
    hide Pow, LimbValue, Collected, Decided, NearestEven, Numerator, Denominator, Numeral, ReadExponent;
    hide CodeExponent, ExponentOf, DigitsEnd, RoundsRight, Answered;
    var delta;
    delta, end := ExponentPart(text, p);
    ghost var e := ReadExponent(text, p);
    ghost var r := Reading(Numeral(read, 10), |read|, fraction);
    bits := Decide(digits, significant, exponent + delta, sticky, negative, r, delta);
    DecidedRight(r, Tally(digits.Value(), significant, exponent, sticky), e.0, e.1);
  }

  method ParseDecimal(text: string, b: nat, negative: bool, former: u64) returns (ok: bool, bits: u64, end: nat)
    requires b <= |text|
    ensures ParsedAs(ReadDecimal(text, b, negative), ok, bits, end)
    ensures !ok ==> bits == former
  {
    hide Pow, LimbValue, Collected, NearestEven, Numerator, Denominator, Numeral, ReadExponent;
    hide ExponentOf, DigitsEnd, ParsedAs, ReadDecimal, Slice;
    var digits := new BigUInt();
    var p, significant, exponent, sticky := IntegerPart(text, b, digits);
    var anyDigit := p > b;
    ghost var whole, part := text[b..p], "";
    assert whole + part == whole;
    if At(text, p) == '.' {
      var start := p + 1;
      p, significant, exponent, sticky := FractionPart(text, start, digits, whole, significant, exponent, sticky);
      anyDigit := anyDigit || p > start;
      part := text[start..p];
    }
    DecimalRead(text, b, negative, whole, part, p);
    if !anyDigit {
      assert whole + part == "";
      NothingParsed(former);
      return false, former, 0;
    }
    bits, end := FinishDecimal(text, p, digits, significant, exponent, sticky, negative, whole + part, |part|);
    ok := true;
  }

  // What the grammar reads, given where the digit runs end.
  lemma DecimalRead(text: string, b: nat, negative: bool, whole: string, part: string, p: nat)
    requires b <= DigitsEnd(text, b, 10) <= |text| && whole == text[b..DigitsEnd(text, b, 10)] && b <= |text|
    requires var c := DigitsEnd(text, b, 10);
             if At(text, c) == '.' then c < p <= |text| && p == DigitsEnd(text, c + 1, 10) && part == text[c + 1..p]
             else p == c && part == ""
    ensures var r := ReadExponent(text, p);
            ReadDecimal(text, b, negative)
              == if whole + part == "" then NotANumber else DecimalText(negative, whole + part, |part|, r.0, r.1, r.2)
  {
    hide DigitsEnd, ReadExponent;
  }

  lemma NothingParsed(bits: u64)
    ensures ParsedAs(NotANumber, false, bits, 0)
  {}

  // On failure the output is left alone.
  method ParseFloat(text: string, former: u64) returns (ok: bool, bits: u64, end: nat)
    ensures ParsedAs(ReadFloat(text), ok, bits, end)
    ensures !ok ==> bits == former
  {
    hide Pow, NearestEven, Numerator, Denominator, Numeral, ReadDecimal, ExponentOf, WordAt, SpaceEnd, DigitsEnd;
    var p, negative := SkipSpaceAndSign(text);
    var matched, q := MatchWord(text, p, "inf");
    if matched {
      matched, end := MatchWord(text, q, "inity");
      return true, WithSign(negative, INFINITY), end;
    }
    matched, q := MatchWord(text, p, "nan");
    if matched {
      return true, WithSign(negative, INFINITY + FRACTION / 2), q;
    }
    ok, bits, end := ParseDecimal(text, p, negative, former);
  }
}
