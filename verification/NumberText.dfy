/** Characters, digits and numerals of the text the number parsers read. */
module NumberText {
  import opened Powers

  // A C string: past the last character stands the terminator.
  function At(t: string, i: nat): char {
    if i < |t| then t[i] else '\0'
  }

  predicate IsSpace(c: char) {
    c == ' ' || c == '\t' || c == '\n' || c == 11 as char || c == 12 as char || c == '\r'
  }

  predicate IsDigit(c: char) {
    '0' <= c <= '9'
  }

  function Lower(c: char): char {
    if 'A' <= c <= 'Z' then c - 'A' + 'a' else c
  }

  // The digit c stands for in the radix, or -1.
  function DigitValue(c: char, radix: int): int {
    var value :=
      if '0' <= c <= '9' then (c - '0') as int
      else if 'a' <= c <= 'z' then (c - 'a') as int + 10
      else if 'A' <= c <= 'Z' then (c - 'A') as int + 10
      else radix;
    if value < radix then value else -1
  }

  // The natural number a string of digits denotes.
  function Numeral(s: string, radix: nat): nat {
    if s == [] then 0
    else Numeral(s[..|s| - 1], radix) * radix + Max(DigitValue(s[|s| - 1], radix), 0)
  }

  // Where the run of digits that starts at i ends.
  function DigitsEnd(t: string, i: nat, radix: nat): (end: nat)
    ensures i <= end && (i <= |t| ==> end <= |t|)
    ensures forall k :: i <= k < end ==> DigitValue(At(t, k), radix) >= 0
    ensures DigitValue(At(t, end), radix) < 0
    decreases |t| - i
  {
    if DigitValue(At(t, i), radix) >= 0 then
      DigitsEnd(t, i + 1, radix)
    else i
  }

  // The end is the only place where the run stops.
  lemma {:induction false} DigitsEndUnique(t: string, i: nat, radix: nat, end: nat)
    requires i <= end && (forall k :: i <= k < end ==> DigitValue(At(t, k), radix) >= 0)
    requires DigitValue(At(t, end), radix) < 0
    ensures DigitsEnd(t, i, radix) == end
    decreases end - i
  {
    if i < end { DigitsEndUnique(t, i + 1, radix, end); }
  }

  lemma RunEnds(t: string, p: nat, radix: nat)
    requires DigitValue(At(t, p), radix) < 0
    ensures DigitsEnd(t, p, radix) == p
  {}

  function SpaceEnd(t: string, i: nat): (end: nat)
    ensures i <= end && (i <= |t| ==> end <= |t|)
    ensures forall k :: i <= k < end ==> IsSpace(At(t, k))
    ensures !IsSpace(At(t, end))
    decreases |t| - i
  {
    if IsSpace(At(t, i)) then SpaceEnd(t, i + 1) else i
  }

  lemma {:induction false} SpaceEndUnique(t: string, i: nat, end: nat)
    requires i <= end && (forall k :: i <= k < end ==> IsSpace(At(t, k))) && !IsSpace(At(t, end))
    ensures SpaceEnd(t, i) == end
    decreases end - i
  {
    if i < end { SpaceEndUnique(t, i + 1, end); }
  }

  // Decimal digits are told apart by their character range alone.
  lemma DecimalDigit(c: char)
    ensures IsDigit(c) <==> DigitValue(c, 10) >= 0
    ensures IsDigit(c) ==> DigitValue(c, 10) == (c - '0') as int < 10
  {}

  lemma EmptyNumeral(radix: nat)
    ensures Numeral("", radix) == 0
  {}

  lemma NumeralAppend(s: string, c: char, radix: nat)
    ensures Numeral(s + [c], radix) == Numeral(s, radix) * radix + Max(DigitValue(c, radix), 0)
  {
    assert (s + [c])[..|s|] == s;
  }

  lemma {:induction false} NumeralConcat(a: string, b: string, radix: nat)
    ensures Numeral(a + b, radix) == Numeral(a, radix) * Pow(radix, |b|) + Numeral(b, radix)
  {
    if b == [] {
      assert a + b == a;
    } else {
      var b', c := b[..|b| - 1], b[|b| - 1];
      assert a + b == (a + b') + [c];
      NumeralConcat(a, b', radix);
      NumeralAppend(a + b', c, radix);
      ConcatStep(Numeral(a, radix), Pow(radix, |b'|), Numeral(b', radix), radix);
    }
  }

  lemma ConcatStep(a: int, p: int, b: int, r: int)
    ensures (a * p + b) * r == a * (r * p) + b * r
  {
    Distribute(r, a * p, b);
    Assoc(a, p, r);
    Commute(p, r);
  }

  lemma {:induction false} NumeralBound(s: string, radix: nat)
    requires radix > 0
    ensures Numeral(s, radix) < Pow(radix, |s|)
  {
    if s != [] {
      var s' := s[..|s| - 1];
      NumeralBound(s', radix);
      BoundStep(Numeral(s', radix), Pow(radix, |s'|), Max(DigitValue(s[|s| - 1], radix), 0), radix);
    }
  }

  lemma BoundStep(v: int, p: int, digit: int, r: int)
    requires v < p && 0 <= digit < r
    ensures v * r + digit < r * p
  {
    MulMono(v + 1, p, r);
    Distribute(r, v, 1);
    Commute(p, r);
  }

  // Equal-length numerals with equal values are the same digits.
  lemma {:induction false} NumeralInjective(a: string, b: string)
    requires |a| == |b| && Numeral(a, 10) == Numeral(b, 10)
    requires forall k :: 0 <= k < |a| ==> IsDigit(a[k]) && IsDigit(b[k])
    ensures a == b
  {
    if a != [] {
      var x, y := a[|a| - 1], b[|b| - 1];
      DecimalDigit(x);
      DecimalDigit(y);
      NumeralInjective(a[..|a| - 1], b[..|b| - 1]);
      assert a == a[..|a| - 1] + [x] && b == b[..|b| - 1] + [y];
    }
  }

  function Slice(t: string, i: nat, j: nat): string
    requires i <= j
  {
    if j <= |t| then t[i..j] else ""
  }

  // Skips space and one sign, which it reports.
  method SkipSpaceAndSign(text: string) returns (p: nat, negative: bool)
    ensures var a := SpaceEnd(text, 0);
            && p == (if At(text, a) == '+' || At(text, a) == '-' then a + 1 else a) <= |text|
            && (negative <==> At(text, a) == '-')
  {
    p := 0;
    while IsSpace(At(text, p))
      invariant p <= |text| && SpaceEnd(text, p) == SpaceEnd(text, 0)
      decreases |text| - p
    {
      p := p + 1;
    }
    negative := false;
    if At(text, p) == '+' || At(text, p) == '-' {
      negative := At(text, p) == '-';
      p := p + 1;
    }
  }
}
