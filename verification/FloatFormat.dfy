/** FormatFloatTo: a double in printf's fixed, scientific and general layouts. */
module FloatFormat {
  import opened Powers
  import A = DoubleAssembly
  import L = Limbs
  import opened Ieee754
  import opened NumberText
  import opened DecimalWriting
  import opened DecimalRounding
  import opened DecimalExpansion

  // ── What is to be printed ───────────────────────────────────────

  function SignText(negative: bool, sign: char): string {
    if negative then "-" else if sign == '+' || sign == ' ' then [sign] else ""
  }

  function NonFiniteText(isNan: bool, uppercase: bool): string {
    if isNan then (if uppercase then "NAN" else "nan") else if uppercase then "INF" else "inf"
  }

  // The value rounded to precision + 1 significant digits: the digits as a number, and the power
  // of ten of the first one.
  ghost function Significant(n: nat, d: nat, lead: int, precision: nat): (nat, int)
    requires d > 0
  {
    var r := Rounded(n, d, precision - lead);
    if r == Pow(10, precision + 1) then (Pow(10, precision), lead + 1) else (r, lead)
  }

  // The shorter of the two layouts, with trailing zeros dropped unless alt asks for them.
  function GeneralText(r: nat, exponent: int, significant: nat, alt: bool, uppercase: bool): string
    requires significant > 0
  {
    if -4 <= exponent < significant then
      var s := if alt then (r, significant - 1 - exponent) else Stripped(r, significant - 1 - exponent);
      FixedText(s.0, s.1, alt)
    else
      var s := if alt then (r, significant - 1) else Stripped(r, significant - 1);
      ScientificText(s.0, s.1, exponent, alt, uppercase)
  }

  // The body of a finite value n/d whose leading digit is at 10^lead.
  ghost function FiniteText(n: nat, d: nat, lead: int, layout: char, precision: int, alt: bool, uppercase: bool): string
    requires d > 0
  {
    var digits := if precision < 0 then 6 else precision;
    if layout == 'e' then
      var s := if n == 0 then (0, 0) else Significant(n, d, lead, digits);
      ScientificText(s.0, digits, s.1, alt, uppercase)
    else if layout == 'g' then
      var significant := if digits == 0 then 1 else digits;
      var s := if n == 0 then (0, 0) else Significant(n, d, lead, significant - 1);
      GeneralText(s.0, s.1, significant, alt, uppercase)
    else FixedText(Rounded(n, d, digits), digits, alt)
  }

  // ── The bounded output buffer ───────────────────────────────────

  class Writer {
    const out: array<char>
    const capacity: nat
    var length: nat
    ghost var text: string
    ghost const before: seq<char>

    ghost predicate Valid()
      reads this, out
    {
      && capacity <= out.Length && |before| == out.Length && length == |text|
      && (forall i :: 0 <= i < length && i < capacity ==> out[i] == text[i])
      && (forall i :: 0 <= i < out.Length && (length <= i || capacity <= i) ==> out[i] == before[i])
    }

    constructor (buffer: array<char>, size: nat)
      requires size <= buffer.Length
      ensures Valid() && out == buffer && capacity == size && text == "" && before == buffer[..]
    {
      out := buffer;
      capacity := size;
      length := 0;
      text := "";
      before := buffer[..];
    }

    // Counts every character and stores the ones that fit.
    method Put(c: char)
      requires Valid()
      modifies this, out
      ensures Valid() && text == old(text) + [c]
    {
      if length < capacity {
        out[length] := c;
      }
      length := length + 1;
      text := text + [c];
    }

    method PutAll(s: string)
      requires Valid()
      modifies this, out
      ensures Valid() && text == old(text) + s
    {
      var i := 0;
      while i < |s|
        invariant 0 <= i <= |s| && Valid() && text == old(text) + s[..i]
      {
        Put(s[i]);
        i := i + 1;
      }
      assert s[..|s|] == s;
    }
  }

  // ── Layouts ─────────────────────────────────────────────────────

  // The i-th digit of an expansion that runs on in zeros.
  function DigitAt(s: string, i: int): char {
    if 0 <= i < |s| then s[i] else '0'
  }

  function DigitRun(s: string, from: int, k: nat): (run: string)
    ensures |run| == k && forall i :: 0 <= i < k ==> run[i] == DigitAt(s, from + i)
  {
    seq(k, i requires 0 <= i => DigitAt(s, from + i))
  }

  // The digits before the point.
  function WholeRun(s: string, exponent: int): string {
    if exponent <= 0 then "0" else DigitRun(s, 0, exponent)
  }

  lemma RunDigits(s: string, from: int, k: nat)
    requires AllDigits(s)
    ensures AllDigits(DigitRun(s, from, k))
  {}

  // The digits before and after the point together are the expansion, padded on both sides.
  lemma RunNumeral(s: string, exponent: int, precision: nat)
    requires AllDigits(s) && |s| <= exponent + precision
    ensures Numeral(WholeRun(s, exponent) + DigitRun(s, exponent, precision), 10) == Numeral(s, 10) * Pow(10, exponent + precision - |s|)
  {
    hide Pow, Numeral;
    var whole := WholeRun(s, exponent);
    var tail := exponent + precision - |s|;
    var head := Max(1 - exponent, 0);
    assert whole + DigitRun(s, exponent, precision) == Zeros(head) + (s + Zeros(tail));
    PaddedNumeral(s + Zeros(tail), head);
    PaddedNumeral(s, tail);
  }

  // A rounded expansion as the layouts take it: either empty, standing for zero, or leading with a
  // nonzero digit.
  ghost predicate Printable(s: string, exponent: int) {
    AllDigits(s) && (s == "" ==> exponent == 1) && (s != "" ==> s[0] != '0')
  }

  lemma FixedRun(s: string, exponent: int, precision: nat, alt: bool)
    requires Printable(s, exponent) && |s| <= exponent + precision
    ensures WholeRun(s, exponent) + (if precision > 0 then "." + DigitRun(s, exponent, precision) else if alt then "." else "")
         == FixedText(Numeral(s, 10) * Pow(10, exponent + precision - |s|), precision, alt)
  {
    hide Pow, Numeral, FixedText;
    RunNumeral(s, exponent, precision);
    RunDigits(s, 0, Max(exponent, 0));
    RunDigits(s, exponent, precision);
    FixedIs(WholeRun(s, exponent), DigitRun(s, exponent, precision),
            Numeral(s, 10) * Pow(10, exponent + precision - |s|), alt);
  }

  method PutRun(writer: Writer, value: Decimal, from: int, k: nat)
    requires writer.Valid() && value.Valid() && value.digits != writer.out
    modifies writer, writer.out
    ensures writer.Valid() && writer.text == old(writer.text) + DigitRun(value.digits[..value.count], from, k)
  {
    ghost var s := value.digits[..value.count];
    var i := 0;
    while i < k
      invariant 0 <= i <= k && writer.Valid() && value.digits[..value.count] == s && value.Valid()
      invariant writer.text == old(writer.text) + DigitRun(s, from, k)[..i]
    {
      var index := from + i;
      assert DigitRun(s, from, k)[i] == DigitAt(s, index);
      writer.Put(if index >= 0 && index < value.count then value.digits[index] else '0');
      i := i + 1;
    }
  }

  method WriteFixed(writer: Writer, value: Decimal, precision: int, alt: bool)
    requires writer.Valid() && value.Valid() && value.digits != writer.out
    requires Printable(value.digits[..value.count], value.exponent) && value.count <= value.exponent + Max(precision, 0)
    modifies writer, writer.out
    ensures writer.Valid()
    ensures writer.text == old(writer.text)
      + FixedText(Numeral(value.digits[..value.count], 10) * Pow(10, value.exponent + Max(precision, 0) - value.count),
                  Max(precision, 0), alt)
  {
    hide Pow, Numeral, FixedText;
    FixedRun(value.digits[..value.count], value.exponent, Max(precision, 0), alt);
    if value.exponent <= 0 {
      writer.Put('0');
    } else {
      PutRun(writer, value, 0, value.exponent);
    }
    if precision <= 0 {
      if alt {
        writer.Put('.');
      }
      return;
    }
    writer.Put('.');
    PutRun(writer, value, value.exponent, precision);
  }

  lemma ScientificRun(s: string, precision: nat)
    requires AllDigits(s) && |s| <= precision + 1
    ensures DigitRun(s, 0, precision + 1) == LowDigits(Numeral(s, 10) * Pow(10, precision + 1 - |s|), precision + 1)
    ensures DigitRun(s, 0, precision + 1)[0] == DigitAt(s, 0)
    ensures DigitRun(s, 0, precision + 1)[1..] == DigitRun(s, 1, precision)
  {
    hide Pow, Numeral, LowDigits;
    var run := DigitRun(s, 0, precision + 1);
    RunDigits(s, 0, precision + 1);
    assert run == s + Zeros(precision + 1 - |s|);
    PaddedNumeral(s, precision + 1 - |s|);
    NumeralBound(run, 10);
    ModBelow(Numeral(run, 10), Pow(10, precision + 1));
    LowDigitsText(run, Numeral(run, 10));
  }

  lemma ScientificIs(s: string, precision: nat, exponent: int, alt: bool, uppercase: bool)
    requires AllDigits(s) && |s| <= precision + 1
    ensures ScientificText(Numeral(s, 10) * Pow(10, precision + 1 - |s|), precision, exponent, alt, uppercase)
         == [DigitAt(s, 0)] + (if precision > 0 then "." + DigitRun(s, 1, precision) else if alt then "." else "")
            + [if uppercase then 'E' else 'e', if exponent < 0 then '-' else '+']
            + ExponentText(if exponent < 0 then -exponent else exponent)
  {
    hide Pow, Numeral, LowDigits, ExponentText;
    ScientificRun(s, precision);
  }

  lemma ExponentIs(magnitude: nat)
    requires magnitude < 1000
    ensures ExponentText(magnitude) ==
      if magnitude >= 100 then [DigitChar(magnitude / 100), DigitChar(magnitude / 10 % 10), DigitChar(magnitude % 10)]
      else [DigitChar(magnitude / 10), DigitChar(magnitude % 10)]
  {
    hide LowDigits;
    var tens := magnitude / 10;
    TwoDigits(tens);
    assert tens / 10 == magnitude / 100;
    if magnitude >= 100 {
      assert DigitCount(tens / 10) == 1;
      assert DigitCount(tens) == 2;
      assert DigitCount(magnitude) == 3;
      NextLowDigit(magnitude, 3);
    } else {
      assert DigitCount(magnitude) <= 2;
      TwoDigits(magnitude);
    }
  }

  lemma NextLowDigit(v: nat, k: nat)
    requires k > 0
    ensures LowDigits(v, k) == LowDigits(v / 10, k - 1) + [DigitChar(v % 10)]
  {}

  lemma TwoDigits(v: nat)
    requires v < 100
    ensures LowDigits(v, 2) == [DigitChar(v / 10), DigitChar(v % 10)]
  {
    assert LowDigits(v / 10, 1) == LowDigits(v / 10 / 10, 0) + [DigitChar(v / 10 % 10)];
    NextLowDigit(v, 2);
  }

  method WriteExponent(writer: Writer, exponent: int)
    requires writer.Valid() && -1000 < exponent < 1000
    modifies writer, writer.out
    ensures writer.Valid()
    ensures writer.text == old(writer.text) + [if exponent < 0 then '-' else '+']
                           + ExponentText(if exponent < 0 then -exponent else exponent)
  {
    hide ExponentText;
    writer.Put(if exponent < 0 then '-' else '+');
    var magnitude := if exponent < 0 then -exponent else exponent;
    ExponentIs(magnitude);
    if magnitude >= 100 {
      writer.Put('0' + (magnitude / 100) as char);
      writer.Put('0' + (magnitude / 10 % 10) as char);
      writer.Put('0' + (magnitude % 10) as char);
    } else {
      writer.Put('0' + (magnitude / 10) as char);
      writer.Put('0' + (magnitude % 10) as char);
    }
  }

  method WriteScientific(writer: Writer, value: Decimal, precision: int, alt: bool, uppercase: bool)
    requires writer.Valid() && value.Valid() && value.digits != writer.out
    requires value.count <= Max(precision, 0) + 1 && -900 < value.exponent < 900
    modifies writer, writer.out
    ensures writer.Valid()
    ensures writer.text == old(writer.text)
      + ScientificText(Numeral(value.digits[..value.count], 10) * Pow(10, Max(precision, 0) + 1 - value.count), Max(precision, 0),
                       if value.count == 0 then 0 else value.exponent - 1, alt, uppercase)
  {
    hide Pow, Numeral, ExponentText, ScientificText;
    ghost var s := value.digits[..value.count];
    var zero := value.count == 0;
    var exponent := if zero then 0 else value.exponent - 1;
    ScientificIs(s, Max(precision, 0), exponent, alt, uppercase);
    writer.Put(if zero then '0' else value.digits[0]);
    assert value.digits[..value.count] == s;
    if precision > 0 {
      writer.Put('.');
      PutRun(writer, value, 1, precision);
    } else if alt {
      writer.Put('.');
    }
    writer.Put(if uppercase then 'E' else 'e');
    WriteExponent(writer, exponent);
  }

  // ── The general layout ──────────────────────────────────────────

  // What rounding to keep digits leaves, as the rounded number and the exponent of its first digit.
  lemma RoundedIsSignificant(s: string, exponent: int, n: nat, d: nat, exponent0: int, keep: nat)
    requires d > 0 && keep > 0 && RoundedTo(s, exponent, exponent0, keep, Rounded(n, d, keep - exponent0))
    ensures |s| <= keep && Significant(n, d, exponent0 - 1, keep - 1) == (Numeral(s, 10) * Pow(10, keep - |s|), exponent - 1)
  {
    hide Pow, Numeral, Rounded;
    PowNext(10, keep - 1);
    PowNext(10, keep - |s|);
    if exponent != exponent0 {
      TimesTen(Numeral(s, 10), Pow(10, keep - |s|));
    }
  }

  lemma TenOf(x: nat)
    ensures (10 * x) % 10 == 0 && (10 * x) / 10 == x
  {}

  lemma {:induction false} StrippedAt(m: nat, t: nat, q: nat)
    requires m % 10 != 0
    ensures Stripped(m * Pow(10, t), q) == (m * Pow(10, t - Min(t, q)), q - Min(t, q))
  {
    hide Pow;
    PowZero(10);
    TimesOne(m);
    if t > 0 && q > 0 {
      PowNext(10, t - 1);
      TimesTen(m, Pow(10, t - 1));
      TenOf(m * Pow(10, t - 1));
      StrippedAt(m, t - 1, q - 1);
    }
  }

  lemma {:induction false} StrippedZero(q: nat)
    ensures Stripped(0, q) == (0, 0)
  {
    if q > 0 { StrippedZero(q - 1); }
  }

  // Stripping keeps the value, and stops only at a nonzero digit or at the point.
  lemma {:induction false} StrippedKeeps(r: nat, q: nat)
    ensures var s := Stripped(r, q); s.1 <= q && r == s.0 * Pow(10, q - s.1) && (s.1 > 0 ==> s.0 % 10 != 0)
  {
    PowZero(10);
    TimesOne(r);
    if q > 0 && r % 10 == 0 {
      StrippedKeeps(r / 10, q - 1);
      var s := Stripped(r, q);
      PowNext(10, q - 1 - s.1);
      TimesTen(s.0, Pow(10, q - 1 - s.1));
    }
  }

  lemma DropZero(s: string, k: nat)
    requires s != "" && |s| <= k && s[|s| - 1] == '0'
    ensures Numeral(s[..|s| - 1], 10) * Pow(10, k - (|s| - 1)) == Numeral(s, 10) * Pow(10, k - |s|)
  {
    hide Pow, Numeral;
    assert s == s[..|s| - 1] + ['0'];
    NumeralAppend(s[..|s| - 1], '0', 10);
    PowNext(10, k - |s|);
    Assoc(Numeral(s[..|s| - 1], 10), 10, Pow(10, k - |s|));
  }

  lemma LastNonzero(s: string)
    requires AllDigits(s) && s != "" && s[|s| - 1] != '0'
    ensures Numeral(s, 10) % 10 != 0
  {
    DecimalDigit(s[|s| - 1]);
  }

  // Drops the trailing zeros of the digits.
  method StripZeros(value: Decimal, ghost k: nat)
    requires value.Valid() && value.count <= k && (value.count > 0 ==> value.digits[0] != '0')
    modifies value`count
    ensures value.Valid() && value.count <= k && (value.count == 0 <==> old(value.count) == 0)
    ensures Numeral(value.digits[..value.count], 10) * Pow(10, k - value.count)
         == old(Numeral(value.digits[..value.count], 10) * Pow(10, k - value.count))
    ensures value.count > 0 ==> Numeral(value.digits[..value.count], 10) % 10 != 0
  {
    hide Pow, Numeral;
    ghost var total := Numeral(value.digits[..value.count], 10) * Pow(10, k - value.count);
    while value.count > 0 && value.digits[value.count - 1] == '0'
      invariant value.Valid() && value.count <= k && (value.count == 0 <==> old(value.count) == 0)
      invariant value.count > 0 ==> value.digits[0] != '0'
      invariant Numeral(value.digits[..value.count], 10) * Pow(10, k - value.count) == total
      decreases value.count
    {
      ghost var s := value.digits[..value.count];
      DropZero(s, k);
      assert s[..|s| - 1] == value.digits[..value.count - 1];
      value.count := value.count - 1;
    }
    if value.count > 0 { LastNonzero(value.digits[..value.count]); }
  }

  // The fraction the code keeps is the one stripping leaves: in the fixed layout of m * 10^t, whose
  // first digit is at 10^(exponent - 1), and in the scientific one.
  lemma StrippedFraction(m: nat, count: nat, significant: nat, exponent: int)
    requires count <= significant && m % 10 != 0
    ensures exponent <= significant ==>
      var fraction := Max(count - exponent, 0);
      Stripped(m * Pow(10, significant - count), significant - exponent) == (m * Pow(10, exponent + fraction - count), fraction)
    ensures count > 0 ==> Stripped(m * Pow(10, significant - count), significant - 1) == (m * Pow(10, 0), count - 1)
  {
    hide Pow;
    if exponent <= significant { StrippedAt(m, significant - count, significant - exponent); }
    if count > 0 { StrippedAt(m, significant - count, significant - 1); }
  }

  lemma StrippedDigits(s: string, significant: nat, exponent: int, r: nat)
    requires |s| <= significant && r == Numeral(s, 10) * Pow(10, significant - |s|)
    requires if s == "" then exponent == 1 else Numeral(s, 10) % 10 != 0
    ensures exponent <= significant ==>
      var fraction := Max(|s| - exponent, 0);
      Stripped(r, significant - exponent) == (Numeral(s, 10) * Pow(10, exponent + fraction - |s|), fraction)
    ensures significant > 0 ==>
      var fraction := Max(|s| - 1, 0);
      Stripped(r, significant - 1) == (Numeral(s, 10) * Pow(10, fraction + 1 - |s|), fraction)
  {
    hide Pow, Numeral, Stripped;
    if s == "" {
      EmptyNumeral(10);
      TimesZero(Pow(10, significant));
      TimesZero(Pow(10, 1));
      if significant > 0 { StrippedZero(significant - 1); }
    } else {
      StrippedFraction(Numeral(s, 10), |s|, significant, exponent);
    }
  }

  method WriteGeneral(writer: Writer, value: Decimal, precision: int, alt: bool, uppercase: bool,
                      ghost n: nat, ghost d: nat, ghost lead: int)
    requires writer.Valid() && value.Valid() && value.digits != writer.out && d > 0
    requires Represents(value.digits[..value.count], value.exponent, n, d)
    requires (n > 0 ==> lead == value.exponent - 1) && -850 < value.exponent < 850
    modifies writer, writer.out, value, value.digits
    ensures writer.Valid()
    ensures writer.text == old(writer.text) + FiniteText(n, d, lead, 'g', precision, alt, uppercase)
  {
    hide Pow, Numeral, ScientificText, FixedText, Significant, Rounded, Stripped;
    var significant := if precision < 0 then 6 else if precision == 0 then 1 else precision;
    ghost var exponent0 := value.exponent;
    RoundTo(value, significant, n, d);
    ghost var s := value.digits[..value.count];
    if n > 0 { RoundedIsSignificant(s, value.exponent, n, d, exponent0, significant); }
    EmptyNumeral(10);
    TimesZero(Pow(10, significant));
    var zero := value.count == 0;
    var scientificExponent := if zero then 0 else value.exponent - 1;
    ghost var r := Numeral(s, 10) * Pow(10, significant - |s|);
    if !alt {
      StripZeros(value, significant);
      StrippedDigits(value.digits[..value.count], significant, value.exponent, r);
    }
    if scientificExponent >= -4 && scientificExponent < significant {
      var fraction := significant - 1 - scientificExponent;
      if !alt {
        var needed := value.count - value.exponent;
        fraction := if needed > 0 then needed else 0;
      }
      WriteFixed(writer, value, fraction, alt);
    } else {
      var fraction := significant - 1;
      if !alt {
        fraction := if value.count > 0 then value.count - 1 else 0;
      }
      WriteScientific(writer, value, fraction, alt, uppercase);
    }
  }

  // ── The formatter ───────────────────────────────────────────────

  method WriteSign(writer: Writer, negative: bool, sign: char)
    requires writer.Valid()
    modifies writer, writer.out
    ensures writer.Valid() && writer.text == old(writer.text) + SignText(negative, sign)
  {
    if negative {
      writer.Put('-');
    } else if sign == '+' || sign == ' ' {
      writer.Put(sign);
    }
  }

  method WriteNonFinite(writer: Writer, negative: bool, sign: char, isNan: bool, uppercase: bool)
    requires writer.Valid()
    modifies writer, writer.out
    ensures writer.Valid() && writer.text == old(writer.text) + (SignText(negative, sign) + NonFiniteText(isNan, uppercase))
  {
    WriteSign(writer, negative, sign);
    writer.PutAll(if isNan then (if uppercase then "NAN" else "nan") else if uppercase then "INF" else "inf");
  }

  // The fields of a finite double as mantissa * 2^exponent2.
  function MantissaOf(magnitude: nat): nat {
    if magnitude < FRACTION then magnitude else FRACTION + magnitude % FRACTION
  }

  function ExponentOf(magnitude: nat): int {
    if magnitude < FRACTION then -1074 else magnitude / FRACTION - 1075
  }

  // That is the value counted in units of 2^-1074.
  lemma FieldsAreUnits(b: nat)
    requires b < INFINITY
    ensures MantissaOf(b) < 2 * FRACTION && -1074 <= ExponentOf(b) <= 971
    ensures ValueNumerator(MantissaOf(b), ExponentOf(b)) * Pow(2, 1074) == Units(b) * ValueDenominator(ExponentOf(b))
    ensures MantissaOf(b) == 0 <==> Units(b) == 0
  {
    hide Pow, Up;
    var m, e := MantissaOf(b), ExponentOf(b);
    UpIs(2, e);
    UpIs(2, -e);
    TimesOne(m);
    TimesOne(Units(b));
    if b < FRACTION {
      TimesOne(b);
    } else {
      MulStrict(0, m, Pow(2, b / FRACTION - 1));
      if e >= 0 {
        PowAdd(2, e, 1074);
        Assoc(m, Pow(2, e), Pow(2, 1074));
      } else {
        PowAdd(2, b / FRACTION - 1, -e);
        Assoc(m, Pow(2, b / FRACTION - 1), Pow(2, -e));
      }
    }
  }

  lemma ExactCongruent(digits: string, exponent: int, n: nat, d: nat, n': nat, d': nat)
    requires Exact(digits, exponent, n, d) && d' > 0 && n * d' == n' * d
    ensures Exact(digits, exponent, n', d')
  {
    hide Pow, Numeral;
    Congruent(Numeral(digits, 10), n, d, n', d', Pow(10, |digits| - exponent));
  }

  lemma Congruent(v: int, n: int, d: int, n': int, d': int, p: int)
    requires v * d == n * p && n * d' == n' * d && d > 0
    ensures v * d' == n' * p
  {
    SwapLast(v, d', d);
    SwapLast(n, p, d');
    SwapLast(n', d, p);
    MulCancel(v * d', n' * p, d);
    MulCancel(n' * p, v * d', d);
  }

  // The text of a double: its sign, then a word or the digits of its value in the layout.
  ghost function PrintedText(bits: L.u64, layout: char, precision: int, sign: char, alt: bool, lead: int): string {
    var magnitude, uppercase := A.Magnitude(bits), 'A' <= layout <= 'Z';
    SignText(bits as nat >= SIGN_BIT, sign)
    + if magnitude >= INFINITY then NonFiniteText(magnitude > INFINITY, uppercase)
      else FiniteText(Units(magnitude), Pow(2, 1074), lead, Lower(layout), precision, alt, uppercase)
  }

  // The exact digits of a finite magnitude; none for zero.
  method ExpandFinite(magnitude: nat) returns (value: Decimal)
    requires magnitude < INFINITY
    ensures fresh(value) && fresh(value.digits) && value.Valid() && -537 <= value.exponent <= 800
    ensures Represents(value.digits[..value.count], value.exponent, Units(magnitude), Pow(2, 1074))
  {
    hide Pow, Numeral, Units, ValueNumerator, ValueDenominator, Exact;
    FieldsAreUnits(magnitude);
    var mantissa: L.u64 := (if magnitude / FRACTION == 0 then magnitude else FRACTION + magnitude % FRACTION) as L.u64;
    var exponent2 := if magnitude / FRACTION == 0 then -1074 else magnitude / FRACTION - 1075;
    value := new Decimal();
    if mantissa == 0 {
      return;
    }
    ExpandExact(mantissa, exponent2, value);
    ExactCongruent(value.digits[..value.count], value.exponent, ValueNumerator(mantissa as nat, exponent2), ValueDenominator(exponent2),
                   Units(magnitude), Pow(2, 1074));
  }

  method FormatScientific(writer: Writer, value: Decimal, precision: int, alt: bool, uppercase: bool,
                          ghost n: nat, ghost d: nat, ghost lead: int)
    requires writer.Valid() && value.Valid() && value.digits != writer.out && d > 0
    requires Represents(value.digits[..value.count], value.exponent, n, d)
    requires (n > 0 ==> lead == value.exponent - 1) && -850 < value.exponent < 850
    modifies writer, writer.out, value, value.digits
    ensures writer.Valid()
    ensures writer.text == old(writer.text) + FiniteText(n, d, lead, 'e', precision, alt, uppercase)
  {
    hide Pow, Numeral, ScientificText, FixedText, Significant, Rounded;
    var places := if precision < 0 then 6 else precision;
    ghost var exponent0 := value.exponent;
    RoundTo(value, places + 1, n, d);
    if n > 0 { RoundedIsSignificant(value.digits[..value.count], value.exponent, n, d, exponent0, places + 1); }
    EmptyNumeral(10);
    TimesZero(Pow(10, places + 1));
    WriteScientific(writer, value, places, alt, uppercase);
  }

  method FormatFixed(writer: Writer, value: Decimal, layout: char, precision: int, alt: bool, uppercase: bool,
                     ghost n: nat, ghost d: nat, ghost lead: int)
    requires writer.Valid() && value.Valid() && value.digits != writer.out && d > 0
    requires Represents(value.digits[..value.count], value.exponent, n, d)
    requires layout != 'e' && layout != 'g'
    modifies writer, writer.out, value, value.digits
    ensures writer.Valid()
    ensures writer.text == old(writer.text) + FiniteText(n, d, lead, layout, precision, alt, uppercase)
  {
    hide Pow, Numeral, ScientificText, FixedText, Rounded;
    var places := if precision < 0 then 6 else precision;
    RoundTo(value, value.exponent + places, n, d);
    if n == 0 { NothingRounded(d, places); }
    EmptyNumeral(10);
    if value.count == 0 {
      value.exponent := 1;
      TimesZero(Pow(10, places + 1));
    }
    WriteFixed(writer, value, places, alt);
  }

  lemma NothingRounded(d: nat, decimals: int)
    requires d > 0
    ensures Rounded(0, d, decimals) == 0
  {
    hide Up;
    MulStrict(0, Up(10, -decimals), d);
    TimesZero(Up(10, decimals));
    RoundExact(0, d * Up(10, -decimals));
    TimesZero(d * Up(10, -decimals));
  }

  method FormatFinite(writer: Writer, magnitude: nat, negative: bool, layout: char, precision: int, sign: char, alt: bool, uppercase: bool)
    returns (ghost lead: int)
    requires writer.Valid() && magnitude < INFINITY
    modifies writer, writer.out
    ensures writer.Valid()
    ensures magnitude > 0 ==> Leads(Units(magnitude), Pow(2, 1074), lead)
    ensures writer.text == old(writer.text)
      + (SignText(negative, sign) + FiniteText(Units(magnitude), Pow(2, 1074), lead, layout, precision, alt, uppercase))
  {
    hide Pow, Numeral, Units, FiniteText, Exact, Leads;
    var value := ExpandFinite(magnitude);
    ghost var n, d := Units(magnitude), Pow(2, 1074);
    lead := value.exponent - 1;
    FieldsAreUnits(magnitude);
    if n > 0 { LeadsAt(value.digits[..value.count], value.exponent, n, d); }
    WriteSign(writer, negative, sign);
    if layout == 'e' {
      FormatScientific(writer, value, precision, alt, uppercase, n, d, lead);
    } else if layout == 'g' {
      WriteGeneral(writer, value, precision, alt, uppercase, n, d, lead);
    } else {
      FormatFixed(writer, value, layout, precision, alt, uppercase, n, d, lead);
    }
  }

  // The fields of a double, and which of them mark infinities and nans.
  lemma Fields(bits: L.u64)
    ensures var magnitude := A.Magnitude(bits);
            && (bits as nat / SIGN_BIT != 0 <==> bits as nat >= SIGN_BIT)
            && (magnitude / FRACTION == 0x7FF <==> magnitude >= INFINITY)
            && (magnitude >= INFINITY ==> (magnitude % FRACTION != 0 <==> magnitude > INFINITY))
  {}

  /** Formats a double; what does not fit the buffer is counted and dropped. */
  method FormatFloatTo(out: array<char>, capacity: nat, bits: L.u64, layout: char, precision: int, sign: char, alt: bool)
    returns (length: nat, ghost text: string, ghost lead: int)
    requires capacity <= out.Length
    modifies out
    ensures 0 < A.Magnitude(bits) < INFINITY ==> Leads(Units(A.Magnitude(bits)), Pow(2, 1074), lead)
    ensures text == PrintedText(bits, layout, precision, sign, alt, lead) && length == |text|
    ensures out[..Min(length, capacity)] == text[..Min(length, capacity)]
    ensures out[Min(length, capacity)..] == old(out[Min(length, capacity)..])
  {
    hide Pow, Numeral, Units, FiniteText, Leads, A.Magnitude, SignText, NonFiniteText;
    var writer := new Writer(out, capacity);
    var uppercase := 'A' <= layout <= 'Z';
    var lower := if uppercase then layout - 'A' + 'a' else layout;
    var negative := bits as nat / SIGN_BIT != 0;
    var magnitude := A.Magnitude(bits);
    Fields(bits);
    lead := 0;
    if magnitude / FRACTION == 0x7FF {
      WriteNonFinite(writer, negative, sign, magnitude % FRACTION != 0, uppercase);
    } else {
      lead := FormatFinite(writer, magnitude, negative, lower, precision, sign, alt, uppercase);
    }
    length, text := writer.length, writer.text;
    assert out[..Min(length, capacity)] == text[..Min(length, capacity)];
    assert out[Min(length, capacity)..] == writer.before[Min(length, capacity)..];
  }
}
