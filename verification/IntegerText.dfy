/** Integers to text and back: FormatInteger with its radix prefixes, ParseInteger with radix detection and saturation. */
module IntegerText {
  import opened Powers
  import opened NumberText

  const U64: nat := 0x1_0000_0000_0000_0000
  const I64_MAX: nat := 0x7FFF_FFFF_FFFF_FFFF

  predicate IsI64(v: int) {
    -(I64_MAX as int) - 1 <= v <= I64_MAX
  }

  // The signed reading of 64 bits.
  function AsSigned(bits: nat): int
    requires bits < U64
  {
    if bits <= I64_MAX then bits else bits - U64
  }

  // ── Printing ────────────────────────────────────────────────────

  function DigitFor(d: nat, upper: bool): char
    requires d < 16
  {
    if d < 10 then '0' + d as char else (if upper then 'A' else 'a') + (d - 10) as char
  }

  // The numeral of v, without leading zeros.
  function Digits(v: nat, base: nat, upper: bool): (s: string)
    requires 2 <= base <= 16
    ensures s != ""
    decreases v
  {
    SmallerQuotient(v, base);
    if v < base then [DigitFor(v, upper)] else Digits(v / base, base, upper) + [DigitFor(v % base, upper)]
  }

  lemma SmallerQuotient(v: nat, base: nat)
    requires base >= 2
    ensures v >= base ==> v / base < v
    ensures v % base < base && v / base <= v / 2 && (v / base == 0 <==> v < base)
  {
    QuotientRemainder(v, base);
    if v >= base { MulMono(2, base, v / base); Commute(base, v / base); }
    if v < base { DivModUnique(v, base, 0, v); }
    MulMono(2, base, v / base);
    Commute(base, v / base);
    assert 2 * (v / base) <= v;
  }

  function BaseOf(layout: char): (base: nat)
    ensures 2 <= base <= 16
  {
    if layout == 'x' || layout == 'X' then 16 else if layout == 'o' then 8 else if layout == 'b' || layout == 'B' then 2 else 10
  }

  function PrefixOf(layout: char, alt: bool): string {
    if !alt then ""
    else if layout == 'o' then "0"
    else if layout == 'x' || layout == 'X' || layout == 'b' || layout == 'B' then ['0', layout]
    else ""
  }

  function SignOf(negative: bool, sign: char): string {
    if negative then "-" else if sign == '+' || sign == ' ' then [sign] else ""
  }

  // What FormatInteger writes without padding.
  function IntegerTextOf(magnitude: nat, negative: bool, layout: char, alt: bool, sign: char): string {
    if layout == 'c' then [(magnitude % 256) as char]
    else SignOf(negative, sign) + PrefixOf(layout, alt) + Digits(magnitude, BaseOf(layout), layout == 'X')
  }

  method FormatInteger(magnitude: nat, negative: bool, layout: char, alt: bool, sign: char) returns (text: string)
    requires magnitude < U64
    ensures text == IntegerTextOf(magnitude, negative, layout, alt, sign)
  {
    hide Digits;
    if layout == 'c' {
      return [(magnitude % 256) as char];
    }
    var digits := new char[64](_ => '0');
    var count := FillDigits(digits, magnitude, BaseOf(layout), layout == 'X');
    text := SignOf(negative, sign) + PrefixOf(layout, alt);
    ghost var head, s := text, Digits(magnitude, BaseOf(layout), layout == 'X');
    var i: int := count - 1;
    while i >= 0
      invariant -1 <= i < count && text == head + s[..count - 1 - i]
    {
      assert s[count - 1 - i] == digits[i];
      text := text + [digits[i]];
      i := i - 1;
    }
    assert s[..count] == s;
  }

  // Digits from the least significant up.
  method FillDigits(digits: array<char>, magnitude: nat, base: nat, upper: bool) returns (count: nat)
    requires digits.Length == 64 && magnitude < U64 && 2 <= base <= 16
    modifies digits
    ensures count == |Digits(magnitude, base, upper)| <= 64
    ensures forall i :: 0 <= i < count ==> digits[i] == Digits(magnitude, base, upper)[count - 1 - i]
  {
    hide Pow, DigitFor, Digits;
    if magnitude == 0 {
      digits[0] := '0';
      ZeroDigits(base, upper);
      return 1;
    }
    count := 0;
    var rest: nat := magnitude;
    ghost var all, done := Digits(magnitude, base, upper), "";
    TwoTo64();
    while rest > 0
      invariant count <= 64 && rest < Pow(2, 64 - count) && |done| == count
      invariant all == (if rest == 0 then "" else Digits(rest, base, upper)) + done
      invariant forall i :: 0 <= i < count ==> digits[i] == done[count - 1 - i]
      decreases rest
    {
      HalfPower(rest, 64 - count);
      SmallerQuotient(rest, base);
      LastDigit(rest, base, upper);
      digits[count] := DigitFor(rest % base, upper);
      done := [DigitFor(rest % base, upper)] + done;
      rest := rest / base;
      count := count + 1;
    }
    assert all == done;
  }

  lemma LastDigit(v: nat, base: nat, upper: bool)
    requires 2 <= base <= 16
    ensures v % base < base
    ensures Digits(v, base, upper) == (if v / base == 0 then "" else Digits(v / base, base, upper)) + [DigitFor(v % base, upper)]
  {
    hide DigitFor;
    SmallerQuotient(v, base);
    if v < base { DivModUnique(v, base, 0, v); }
  }

  lemma ZeroDigits(base: nat, upper: bool)
    requires 2 <= base <= 16
    ensures Digits(0, base, upper) == "0"
  {}

  lemma HalfPower(v: nat, k: nat)
    requires 0 < v < Pow(2, k)
    ensures k > 0 && v / 2 < Pow(2, k - 1)
  {
    assert Pow(2, 0) == 1;
  }

  // The signed arm: the magnitude is negated modulo 2^64, so the minimum does not overflow.
  method FormatSigned(v: int, layout: char, alt: bool, sign: char) returns (text: string)
    requires IsI64(v)
    ensures text == IntegerTextOf(if v < 0 then -v else v, v < 0, layout, alt, sign)
  {
    var bits := v % U64;
    var magnitude := if v < 0 then (0 - bits) % U64 else bits;
    NegatedModulo(v);
    text := FormatInteger(magnitude, v < 0, layout, alt, sign);
  }

  lemma NegatedModulo(v: int)
    requires IsI64(v)
    ensures v >= 0 ==> v % U64 == v
    ensures v < 0 ==> v % U64 == v + U64 && (0 - (v % U64)) % U64 == -v
  {}

  // ── Parsing ─────────────────────────────────────────────────────

  datatype Parsed = NoNumber | Number(value: int, end: nat)

  // The radix in force and where the digits start.
  function ResolveRadix(t: string, b: nat, radix: int): (int, nat) {
    if (radix == 0 || radix == 16) && At(t, b) == '0' && Lower(At(t, b + 1)) == 'x' && DigitValue(At(t, b + 2), 16) >= 0 then (16, b + 2)
    else if radix == 0 then (if At(t, b) == '0' && DigitValue(At(t, b + 1), 8) >= 0 then 8 else 10, b)
    else (radix, b)
  }

  // The value clamped to the signed range.
  function Clamp(negative: bool, magnitude: nat): int {
    if negative then -(Min(magnitude, I64_MAX + 1)) else Min(magnitude, I64_MAX)
  }

  function ReadInteger(t: string, baseRadix: int): Parsed {
    var a := SpaceEnd(t, 0);
    var negative := At(t, a) == '-';
    var b := if At(t, a) == '+' || At(t, a) == '-' then a + 1 else a;
    var (radix, p) := ResolveRadix(t, b, baseRadix);
    if radix < 2 || radix > 36 then NoNumber
    else
      var end := DigitsEnd(t, p, radix);
      if end == p then NoNumber else Number(Clamp(negative, Numeral(Slice(t, p, end), radix)), end)
  }

  // The cutoff test is exact: the next value fits just when it does not pass the limit.
  lemma CutoffExact(value: nat, radix: nat, digit: nat, limit: nat)
    requires radix > 0 && digit < radix
    ensures (value > limit / radix || (value == limit / radix && digit > limit % radix)) <==> value * radix + digit > limit
  {
    var q, r := limit / radix, limit % radix;
    QuotientRemainder(limit, radix);
    if value > q { MulMono(q + 1, value, radix); Distribute(radix, q, 1); Commute(q, radix); Commute(q + 1, radix); }
    if value < q { MulMono(value + 1, q, radix); Distribute(radix, value, 1); Commute(value, radix); Commute(value + 1, radix); }
  }

  lemma NextNumeral(t: string, i: nat, p: nat, radix: nat)
    requires i <= p < |t| && DigitValue(t[p], radix) >= 0
    ensures Numeral(t[i..p + 1], radix) == Numeral(t[i..p], radix) * radix + DigitValue(t[p], radix)
    ensures DigitsEnd(t, p, radix) == DigitsEnd(t, p + 1, radix)
  {
    assert t[i..p + 1] == t[i..p] + [t[p]];
    NumeralAppend(t[i..p], t[p], radix);
  }

  lemma NumeralGrows(m: nat, radix: nat, digit: nat)
    requires radix > 0
    ensures m <= m * radix + digit
  {
    MulMono(1, radix, m);
    Commute(m, radix);
  }

  method AccumulateDigits(text: string, start: nat, radix: nat, limit: nat) returns (any: bool, value: nat, p: nat)
    requires start <= |text| && 2 <= radix <= 36
    ensures start <= p <= |text| && p == DigitsEnd(text, start, radix) && (any <==> p > start)
    ensures value == Min(Numeral(text[start..p], radix), limit)
  {
    hide Numeral, DigitsEnd, DigitValue;
    var cutoff, cutoffDigit := limit / radix, limit % radix;
    var saturated := false;
    any, value, p := false, 0, start;
    assert text[start..start] == "";
    EmptyNumeral(radix);
    DigitRange(At(text, p), radix);
    while DigitValue(At(text, p), radix) >= 0
      invariant start <= p <= |text| && DigitsEnd(text, p, radix) == DigitsEnd(text, start, radix) && (any <==> p > start)
      invariant if saturated then value == limit < Numeral(text[start..p], radix) else value == Numeral(text[start..p], radix) <= limit
      invariant DigitValue(At(text, p), radix) >= 0 ==> p < |text| && DigitValue(At(text, p), radix) < radix
      decreases |text| - p
    {
      var digit := DigitValue(At(text, p), radix);
      NextNumeral(text, start, p, radix);
      NumeralGrows(Numeral(text[start..p], radix), radix, digit);
      any := true;
      if !saturated {
        CutoffExact(value, radix, digit, limit);
        if value > cutoff || (value == cutoff && digit > cutoffDigit) {
          saturated := true;
          value := limit;
        } else {
          value := value * radix + digit;
        }
      }
      p := p + 1;
      DigitRange(At(text, p), radix);
      EmptyNumeral(radix);
    }
    RunEnds(text, p, radix);
  }

  lemma DigitRange(c: char, radix: nat)
    ensures DigitValue(c, radix) < Max(radix, 1)
    ensures DigitValue('\0', radix) < 0
  {}

  // The prefix is read from the text, so the digits start within it.
  lemma ResolvedPlace(t: string, radix: int)
    ensures forall b: nat :: b <= |t| ==> ResolveRadix(t, b, radix).1 <= |t|
  {}

  // On failure the output is left alone.
  method ParseInteger(text: string, baseRadix: int, former: int) returns (ok: bool, out: int, end: nat)
    ensures match ReadInteger(text, baseRadix)
            case NoNumber => !ok && out == former
            case Number(value, after) => ok && out == value && end == after
  {
    hide Numeral, DigitsEnd, SpaceEnd, DigitValue, ResolveRadix, Lower;
    ResolvedPlace(text, baseRadix);
    var cursor, negative := SkipSpaceAndSign(text);
    var (radix, p) := ResolveRadix(text, cursor, baseRadix);
    out, end := former, 0;
    if radix < 2 || radix > 36 {
      return false, former, 0;
    }
    var limit := if negative then I64_MAX + 1 else I64_MAX;
    var start := p;
    var any, magnitude, after := AccumulateDigits(text, start, radix, limit);
    if !any {
      return false, former, 0;
    }
    // Two's complement of the magnitude.
    out := AsSigned(if negative then (U64 - 1 - magnitude + 1) % U64 else magnitude);
    ok, end := true, after;
  }

  // ── The round trip ──────────────────────────────────────────────

  lemma {:induction false} DigitsRead(v: nat, base: nat, upper: bool)
    requires 2 <= base <= 16
    ensures var s := Digits(v, base, upper);
            && Numeral(s, base) == v && (v > 0 ==> s[0] != '0') && (v == 0 ==> s == "0")
            && forall k :: 0 <= k < |s| ==> DigitValue(s[k], base) >= 0
    decreases v
  {
    hide Numeral, DigitValue, DigitFor;
    var d := DigitFor(v % base, upper);
    SmallerQuotient(v, base);
    DigitForReads(v % base, upper, base);
    if v >= base {
      var s := Digits(v / base, base, upper);
      DigitsRead(v / base, base, upper);
      NumeralAppend(s, d, base);
      QuotientRemainder(v, base);
    } else {
      assert Digits(v, base, upper) == "" + [d];
      DivModUnique(v, base, 0, v);
      EmptyNumeral(base);
      NumeralAppend("", d, base);
    }
  }

  lemma DigitForReads(d: nat, upper: bool, base: nat)
    requires d < base <= 16
    ensures DigitValue(DigitFor(d, upper), base) == d && (d == 0 <==> DigitFor(d, upper) == '0')
    ensures d < 8 ==> DigitValue(DigitFor(d, upper), 8) == d
    ensures DigitFor(d, upper) != 'x' && DigitFor(d, upper) != 'X' && !IsSpace(DigitFor(d, upper))
    ensures DigitFor(d, upper) != '+' && DigitFor(d, upper) != '-'
  {}

  // The text of a number is a sign, a prefix that the radix asks for, and digits to the end.
  lemma ReadsBack(v: int, digits: string, prefix: string, sign: string, baseRadix: int, radix: nat)
    requires IsI64(v) && 2 <= radix <= 36 && digits != "" && Numeral(digits, radix) == (if v < 0 then -v else v)
    requires forall k :: 0 <= k < |digits| ==> DigitValue(digits[k], radix) >= 0
    requires sign == SignOf(v < 0, if sign == "+" then '+' else if sign == " " then ' ' else '-')
    requires var t := sign + prefix + digits;
             prefix == "" || prefix == "0" || prefix == "0x" || prefix == "0X"
    requires var t, b := sign + prefix + digits, |sign|;
             ResolveRadix(t, b, baseRadix) == (radix, if prefix == "0x" || prefix == "0X" then b + 2 else b)
    requires prefix == "0" ==> DigitValue('0', radix) >= 0
    ensures ReadInteger(sign + prefix + digits, baseRadix) == Number(v, |sign + prefix + digits|)
  {
    hide Numeral, DigitsEnd, ResolveRadix, DigitValue, SpaceEnd, Slice;
    var t := sign + prefix + digits;
    var body := if prefix == "0" then "0" + digits else digits;
    var head := if prefix == "0x" || prefix == "0X" then sign + prefix else sign;
    assert t == head + body;
    RunToEnd(head, body, radix);
    LeadingZero(digits, radix);
    assert t[|sign|] == if prefix == "" then digits[0] else '0';
    WiderRadix(t[|sign|], radix);
    FirstChar(t, sign, radix);
  }

  lemma RunToEnd(head: string, body: string, radix: nat)
    requires forall k :: 0 <= k < |body| ==> DigitValue(body[k], radix) >= 0
    ensures DigitsEnd(head + body, |head|, radix) == |head + body|
    ensures Slice(head + body, |head|, |head + body|) == body
  {
    hide DigitsEnd, DigitValue;
    var t := head + body;
    forall k | |head| <= k < |t| ensures DigitValue(At(t, k), radix) >= 0 { assert At(t, k) == body[k - |head|]; }
    DigitRange('\0', radix);
    DigitsEndUnique(t, |head|, radix, |t|);
  }

  lemma WiderRadix(c: char, radix: nat)
    requires radix <= 36
    ensures DigitValue(c, radix) >= 0 ==> DigitValue(c, 36) >= 0
    ensures DigitValue('0', 36) >= 0
    ensures radix <= 16 && DigitValue(c, radix) >= 0 ==> Lower(c) != 'x'
    ensures Lower('\0') != 'x'
  {}

  lemma LeadingZero(digits: string, radix: nat)
    ensures Numeral("0" + digits, radix) == Numeral(digits, radix)
  {
    hide Pow, Numeral;
    NumeralConcat("0", digits, radix);
    ZeroAlone(radix);
  }

  lemma ZeroAlone(radix: nat)
    ensures Numeral("0", radix) == 0
  {
    assert "0" == "" + ['0'];
    NumeralAppend("", '0', radix);
    EmptyNumeral(radix);
    assert 0 * radix == 0;
  }

  // After the sign stands a digit, which is neither space nor sign.
  lemma FirstChar(t: string, sign: string, radix: nat)
    requires |sign| < |t| && sign <= t && (sign == "" || sign == "-" || sign == "+" || sign == " ")
    requires DigitValue(t[|sign|], 36) >= 0
    ensures SpaceEnd(t, 0) == (if sign == " " then 1 else 0)
    ensures At(t, SpaceEnd(t, 0)) == if sign == "-" || sign == "+" then sign[0] else t[|sign|]
    ensures !(t[|sign|] == '+' || t[|sign|] == '-')
  {
    if sign == " " { assert SpaceEnd(t, 1) == 1; }
  }

  predicate SelfDescribing(layout: char, alt: bool) {
    || ((layout == 'x' || layout == 'X' || layout == 'o') && alt)
    || !(layout == 'x' || layout == 'X' || layout == 'o' || layout == 'b' || layout == 'B' || layout == 'c')
  }

  /**
   Every 64-bit integer, the minimum included, printed in decimal or in hexadecimal or octal with its
   prefix, parses back when the radix is detected from the text.
   */
  lemma RoundTrip(v: int, layout: char, alt: bool, sign: char)
    requires IsI64(v) && SelfDescribing(layout, alt)
    ensures var t := IntegerTextOf(if v < 0 then -v else v, v < 0, layout, alt, sign);
            ReadInteger(t, 0) == Number(v, |t|)
  {
    hide Numeral, Digits, DigitsEnd;
    var magnitude: int := if v < 0 then -v else v;
    var base, upper := BaseOf(layout), layout == 'X';
    var digits, prefix, s := Digits(magnitude, base, upper), PrefixOf(layout, alt), SignOf(v < 0, sign);
    DigitsRead(magnitude, base, upper);
    var t := s + prefix + digits;
    Detected(t, s, prefix, digits, base);
    ReadsBack(v, digits, prefix, s, 0, base);
  }

  lemma Detected(t: string, s: string, prefix: string, digits: string, base: nat)
    requires t == s + prefix + digits && digits != ""
    requires (base == 16 && (prefix == "0x" || prefix == "0X")) || (base == 8 && prefix == "0") || (base == 10 && prefix == "")
    requires forall k :: 0 <= k < |digits| ==> DigitValue(digits[k], base) >= 0
    requires base == 10 ==> digits[0] != '0' || digits == "0"
    ensures ResolveRadix(t, |s|, 0) == (base, if prefix == "0x" || prefix == "0X" then |s| + 2 else |s|)
  {
    var b := |s|;
    assert forall k :: 0 <= k < |prefix| ==> At(t, b + k) == prefix[k];
    assert forall k :: 0 <= k < |digits| ==> At(t, b + |prefix| + k) == digits[k];
    assert At(t, b + |prefix| + 0) == digits[0];
    assert At(t, b + 0) == if prefix == "" then digits[0] else '0';
    if base == 16 { assert At(t, b + 1) == prefix[1]; }
    if base == 10 && digits == "0" { assert At(t, b + 1) == '\0'; }
  }

  /** And any radix the formatter knows parses back when it is given. */
  lemma RoundTripRadix(v: int, layout: char, sign: char)
    requires IsI64(v) && layout != 'c'
    ensures var t := IntegerTextOf(if v < 0 then -v else v, v < 0, layout, false, sign);
            ReadInteger(t, BaseOf(layout)) == Number(v, |t|)
  {
    hide Numeral, Digits, DigitsEnd, DigitValue;
    var magnitude: int := if v < 0 then -v else v;
    var base, upper := BaseOf(layout), layout == 'X';
    var digits, s := Digits(magnitude, base, upper), SignOf(v < 0, sign);
    DigitsRead(magnitude, base, upper);
    var t := s + "" + digits;
    assert t == s + digits;
    var next := At(t, |s| + 1);
    assert next == if |digits| > 1 then digits[1] else '\0';
    WiderRadix(next, base);
    ReadsBack(v, digits, "", s, base, base);
  }
}
