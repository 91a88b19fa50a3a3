/**
 The exact decimal expansion of a double, held as digits, and its single rounding at a digit
 position, half to even against the exact remainder.
 */
module DecimalRounding {
  import opened Powers
  import opened Ieee754
  import opened NumberText
  import opened DecimalWriting

  // The digits, read as 0.digits * 10^exponent, are exactly n/d.
  ghost predicate Exact(digits: string, exponent: int, n: nat, d: nat) {
    && d > 0 && digits != "" && AllDigits(digits) && digits[0] != '0' && exponent <= |digits|
    && Numeral(digits, 10) * d == n * Pow(10, |digits| - exponent)
  }

  // n/d rounded to a whole number of units of 10^-decimals.
  ghost function Rounded(n: nat, d: nat, decimals: int): nat
    requires d > 0
  {
    MulStrict(0, Up(10, -decimals), d);
    RoundHalfEven(n * Up(10, decimals), d * Up(10, -decimals))
  }

  // 10^lead <= n/d < 10^(lead + 1).
  ghost predicate Leads(n: nat, d: nat, lead: int) {
    Up(10, lead) * d <= n * Up(10, -lead) < 10 * (Up(10, lead) * d)
  }

  lemma RoundCongruent(n: nat, q: nat, n': nat, q': nat)
    requires q > 0 && q' > 0 && n * q' == n' * q
    ensures RoundHalfEven(n, q) == RoundHalfEven(n', q')
  {
    hide RoundHalfEven, HalfEven;
    var s, s' := RoundHalfEven(n, q), RoundHalfEven(n', q');
    RoundHalfEvenIs(n, q);
    RoundHalfEvenIs(n', q');
    HalfEvenScale(n, q, q', s);
    HalfEvenScale(n', q', q, s');
    Commute(q, q');
    HalfEvenUnique(n * q', q * q', s, s');
  }

  // Rounding an exact multiple changes nothing.
  lemma RoundExact(v: nat, q: nat)
    requires q > 0
    ensures RoundHalfEven(v * q, q) == v
  {
    DivModUnique(v * q, q, v, 0);
  }

  predicate HasNonzero(s: string) {
    exists k :: 0 <= k < |s| && s[k] != '0'
  }

  // What the code decides from the first dropped digit and whether anything follows it.
  predicate RoundsUp(s: string, keep: nat)
    requires keep < |s| && AllDigits(s)
  {
    s[keep] > '5' || (s[keep] == '5' && ((exists k :: keep < k < |s| && s[k] != '0') || (keep > 0 && (s[keep - 1] - '0') as int % 2 == 1)))
  }

  // The kept digits, and the dropped ones as a first digit and the rest.
  lemma SplitNumeral(s: string, keep: nat)
    requires AllDigits(s) && keep < |s|
    ensures var p := Pow(10, |s| - keep - 1);
            && Pow(10, |s| - keep) == 10 * p
            && Numeral(s[keep + 1..], 10) < p
            && Numeral(s, 10) == Numeral(s[..keep], 10) * (10 * p) + (s[keep] - '0') as nat * p + Numeral(s[keep + 1..], 10)
  {
    hide Pow, Numeral;
    var rest := s[keep + 1..];
    PowNext(10, |rest|);
    NumeralBound(rest, 10);
    OneDigitNumeral(s[keep]);
    NumeralConcat([s[keep]], rest, 10);
    assert s[keep..] == [s[keep]] + rest;
    assert s == s[..keep] + s[keep..];
    NumeralConcat(s[..keep], s[keep..], 10);
  }

  lemma {:induction false} NonzeroNumeral(s: string)
    requires AllDigits(s)
    ensures Numeral(s, 10) > 0 <==> HasNonzero(s)
  {
    if s != "" {
      var s' := s[..|s| - 1];
      NonzeroNumeral(s');
      DecimalDigit(s[|s| - 1]);
      if k :| 0 <= k < |s| && s[k] != '0' && k < |s| - 1 {
        assert s'[k] != '0';
      }
      if k :| 0 <= k < |s'| && s'[k] != '0' {
        assert s[k] != '0';
      }
    }
  }

  lemma RoundDecision(a: nat, x: nat, rest: nat, p: nat, n: nat)
    requires p > 0 && x < 10 && rest < p && n == a * (10 * p) + x * p + rest
    ensures RoundHalfEven(n, 10 * p) == if x > 5 || (x == 5 && (rest > 0 || a % 2 == 1)) then a + 1 else a
  {
    MulMono(x, 9, p);
    DivModUnique(n, 10 * p, a, x * p + rest);
    if x > 5 { MulMono(6, x, p); } else if x < 5 { MulMono(x, 4, p); }
  }

  lemma RoundDigits(s: string, keep: nat)
    requires AllDigits(s) && keep < |s|
    ensures RoundHalfEven(Numeral(s, 10), Pow(10, |s| - keep)) == Numeral(s[..keep], 10) + (if RoundsUp(s, keep) then 1 else 0)
  {
    hide Pow, Numeral, RoundHalfEven;
    SplitNumeral(s, keep);
    RoundDecision(Numeral(s[..keep], 10), (s[keep] - '0') as nat, Numeral(s[keep + 1..], 10), Pow(10, |s| - keep - 1), Numeral(s, 10));
    NonzeroNumeral(s[keep + 1..]);
    RestNonzero(s, keep);
    LastParity(s[..keep]);
  }

  lemma RestNonzero(s: string, keep: nat)
    requires keep < |s|
    ensures HasNonzero(s[keep + 1..]) <==> exists k :: keep < k < |s| && s[k] != '0'
  {
    var rest := s[keep + 1..];
    if k :| 0 <= k < |rest| && rest[k] != '0' { assert s[keep + 1 + k] != '0'; }
    if k :| keep < k < |s| && s[k] != '0' { assert rest[k - keep - 1] != '0'; }
  }

  lemma LastParity(s: string)
    requires AllDigits(s)
    ensures Numeral(s, 10) % 2 == if s == "" then 0 else (s[|s| - 1] - '0') as int % 2
  {
    if s != "" {
      DecimalDigit(s[|s| - 1]);
      TenParity(Numeral(s[..|s| - 1], 10), (s[|s| - 1] - '0') as int);
    }
  }

  lemma TenParity(v: int, digit: int)
    ensures (v * 10 + digit) % 2 == digit % 2
  {}

  // Changing one digit changes the value by the difference at its weight.
  lemma SetDigit(s: string, i: nat, c: char)
    requires AllDigits(s) && i < |s| && IsDigit(c)
    ensures Numeral(s[i := c], 10) - (c - '0') as int * Pow(10, |s| - 1 - i)
         == Numeral(s, 10) - (s[i] - '0') as int * Pow(10, |s| - 1 - i)
  {
    hide Pow, Numeral;
    var t := s[i := c];
    SplitNumeral(s, i);
    SplitNumeral(t, i);
    assert t[..i] == s[..i] && t[i + 1..] == s[i + 1..];
  }

  // The outcome of rounding at keep digits, for the digits and exponent it leaves: units of
  // 10^(exponent - keep) of the value before, which the new digits show exactly.
  ghost predicate RoundedTo(digits: string, exponent: int, exponent0: int, keep: int, r: nat) {
    && AllDigits(digits) && exponent0 <= exponent <= exponent0 + 1
    && (digits == "" ==> r == 0 && exponent == exponent0)
    && (digits != "" ==>
         var places := keep + (exponent - exponent0);
         |digits| <= places && digits[0] != '0' && r == Numeral(digits, 10) * Pow(10, places - |digits|))
    && (keep > 0 ==>
         && digits != "" && |digits| <= keep && Pow(10, keep - 1) <= r <= Pow(10, keep)
         && (exponent != exponent0 <==> r == Pow(10, keep)))
  }

  lemma RoundedScale(digits: string, exponent: int, n: nat, d: nat, keep: int)
    requires Exact(digits, exponent, n, d)
    ensures keep <= |digits| ==> Rounded(n, d, keep - exponent) == RoundHalfEven(Numeral(digits, 10), Pow(10, |digits| - keep))
    ensures keep >= |digits| ==> Rounded(n, d, keep - exponent) == Numeral(digits, 10) * Pow(10, keep - |digits|)
  {
    hide Pow, Numeral, RoundHalfEven, Up;
    var f := |digits| - exponent;
    var j := keep - exponent;
    var v := Numeral(digits, 10);
    UpIs(10, j);
    UpIs(10, -j);
    MulStrict(0, Up(10, -j), d);
    TimesOne(n);
    TimesOne(d);
    if keep <= |digits| {
      if j >= 0 {
        PowAdd(10, f - j, j);
        CrossPositive(v, d, n, Pow(10, f), Pow(10, j), Pow(10, f - j));
      } else {
        PowAdd(10, f, -j);
        CrossNegative(v, d, n, Pow(10, f), Pow(10, -j), Pow(10, f - j));
      }
      RoundCongruent(n * Up(10, j), d * Up(10, -j), v, Pow(10, |digits| - keep));
    }
    if keep >= |digits| {
      PowAdd(10, f, j - f);
      CrossExact(v, d, n, Pow(10, f), Pow(10, j), Pow(10, j - f));
      RoundExact(v * Pow(10, j - f), d);
    }
  }

  lemma CrossPositive(v: int, d: int, n: int, f: int, j: int, g: int)
    requires v * d == n * f && f == g * j
    ensures (n * j) * g == v * d
  {
    Assoc(n, j, g);
    Commute(j, g);
  }

  lemma CrossNegative(v: int, d: int, n: int, f: int, j: int, g: int)
    requires v * d == n * f && g == f * j
    ensures n * g == v * (d * j)
  {
    Assoc(n, f, j);
    Assoc(v, d, j);
  }

  lemma CrossExact(v: int, d: int, n: int, f: int, j: int, g: int)
    requires v * d == n * f && j == f * g
    ensures n * j == (v * g) * d
  {
    Assoc(n, f, g);
    Assoc(v, d, g);
    Assoc(v, g, d);
    Commute(d, g);
  }

  lemma LeadsAt(digits: string, exponent: int, n: nat, d: nat)
    requires Exact(digits, exponent, n, d)
    ensures Leads(n, d, exponent - 1)
  {
    hide Pow, Numeral, Up;
    var f, c, lead := |digits| - exponent, |digits|, exponent - 1;
    var v := Numeral(digits, 10);
    NumeralBound(digits, 10);
    LeadingDigit(digits);
    PowNext(10, c - 1);
    UpIs(10, lead);
    UpIs(10, -lead);
    TimesOne(n);
    TimesOne(d);
    if lead >= 0 {
      PowAdd(10, f, lead);
      LeadPositive(v, d, n, Pow(10, f), Pow(10, lead), Pow(10, c - 1));
    } else {
      PowAdd(10, c - 1, -lead);
      LeadNegative(v, d, n, Pow(10, f), Pow(10, -lead), Pow(10, c - 1));
    }
  }

  // A value has only one leading position.
  lemma LeadUnique(n: nat, d: nat, a: int, b: int)
    requires d > 0 && Leads(n, d, a) && Leads(n, d, b)
    ensures a == b
  {
    LeadOrder(n, d, a, b);
    LeadOrder(n, d, b, a);
  }

  lemma LeadOrder(n: nat, d: nat, a: int, b: int)
    requires d > 0 && Leads(n, d, a) && Leads(n, d, b)
    ensures b <= a
  {
    hide Pow, Up;
    LeadCross(n, d, Up(10, a), Up(10, -a), Up(10, b), Up(10, -b));
    if a < b {
      UpIs(10, a);
      UpIs(10, -a);
      UpIs(10, b);
      UpIs(10, -b);
      PowNext(10, Max(a, 0));
      PowNext(10, Max(-b, 0));
      PowMono(10, Max(a, 0), Max(b, 0));
      PowMono(10, Max(-b, 0), Max(-a, 0));
      if b > 0 { PowMono(10, Max(a, 0) + 1, b); } else { PowMono(10, -b + 1, -a); }
      WiderProduct(Up(10, a), Up(10, -a), Up(10, b), Up(10, -b));
    }
  }

  // Multiplying b d <= n b' by a' and n a' < 10 a d by b'.
  lemma LeadCross(n: nat, d: nat, a: nat, a': nat, b: nat, b': nat)
    requires d > 0 && a' > 0 && b' > 0 && b * d <= n * b' && n * a' < 10 * (a * d)
    ensures b * a' < 10 * (a * b')
  {
    MulMono(b * d, n * b', a');
    MulStrict(n * a', 10 * (a * d), b');
    SwapLast(n, b', a');
    SwapLast(b, d, a');
    Assoc(10, a * d, b');
    SwapLast(a, d, b');
    Assoc(10, a * b', d);
    MulCancelStrict(b * a', 10 * (a * b'), d);
  }

  lemma WiderProduct(a: nat, a': nat, b: nat, b': nat)
    requires a <= b && b' <= a' && (10 * a <= b || 10 * b' <= a')
    ensures 10 * (a * b') <= b * a'
  {
    if 10 * a <= b {
      MulMono(10 * a, b, b');
      Commute(b, b');
      Commute(b, a');
      MulMono(b', a', b);
      Assoc(10, a, b');
    } else {
      MulMono(10 * b', a', a);
      Commute(10 * b', a);
      MulMono(a, b, a');
      Commute(a, a');
      Commute(a, b');
      Assoc(10, b', a);
    }
  }

  lemma LeadPositive(v: nat, d: nat, n: nat, f: nat, l: nat, p: nat)
    requires d > 0 && f > 0 && v * d == n * f && p == f * l && p <= v < 10 * p
    ensures l * d <= n < 10 * (l * d)
  {
    MulMono(p, v, d);
    MulStrict(v, 10 * p, d);
    Assoc(10, p, d);
    Commute(f, l);
    SwapLast(l, f, d);
    MulCancel(l * d, n, f);
    Assoc(10, l * d, f);
    MulCancelStrict(n, 10 * (l * d), f);
  }

  lemma LeadNegative(v: nat, d: nat, n: nat, f: nat, l: nat, p: nat)
    requires d > 0 && l > 0 && p > 0 && v * d == n * f && f == p * l && p <= v < 10 * p
    ensures d <= n * l < 10 * d
  {
    MulMono(p, v, d);
    MulStrict(v, 10 * p, d);
    Assoc(10, p, d);
    Commute(p, l);
    Assoc(n, l, p);
    Commute(p, d);
    MulCancel(d, n * l, p);
    Assoc(10, d, p);
    MulCancelStrict(n * l, 10 * d, p);
  }

  // ── The digits and their rounding in place ──────────────────────

  class Decimal {
    const digits: array<char>
    var count: nat
    var exponent: int

    ghost predicate Valid()
      reads this, digits
    {
      digits.Length == 800 && count <= 800 && AllDigits(digits[..count])
    }

    constructor ()
      ensures Valid() && fresh(digits) && count == 0 && exponent == 1
    {
      digits := new char[800](_ => '0');
      count := 0;
      exponent := 1;
    }
  }

  // Adds one in the last of the first keep digits; reports a carry out of the first.
  method Increment(value: Decimal, keep: nat) returns (carried: bool)
    requires value.digits.Length == 800 && keep <= 800 && AllDigits(value.digits[..keep])
    modifies value.digits
    ensures AllDigits(value.digits[..keep])
    ensures if carried
            then Numeral(old(value.digits[..keep]), 10) + 1 == Pow(10, keep) && forall k :: 0 <= k < keep ==> value.digits[k] == '0'
            else Numeral(value.digits[..keep], 10) == Numeral(old(value.digits[..keep]), 10) + 1
  {
    hide Pow, Numeral;
    ghost var n0 := Numeral(value.digits[..keep], 10);
    var i: int := keep - 1;
    PowZero(10);
    while i >= 0
      invariant -1 <= i < keep && AllDigits(value.digits[..keep])
      invariant forall k :: i < k < keep ==> value.digits[k] == '0'
      invariant Numeral(value.digits[..keep], 10) + Pow(10, keep - 1 - i) == n0 + 1
    {
      ghost var s := value.digits[..keep];
      if value.digits[i] != '9' {
        var next := value.digits[i] + 1 as char;
        SetDigit(s, i, next);
        StepUp(Numeral(s[i := next], 10), Numeral(s, 10), (s[i] - '0') as int, Pow(10, keep - 1 - i));
        value.digits[i] := next;
        assert value.digits[..keep] == s[i := next];
        return false;
      }
      SetDigit(s, i, '0');
      PowNext(10, keep - 1 - i);
      NineDown(Numeral(s[i := '0'], 10), Numeral(s, 10), Pow(10, keep - 1 - i));
      value.digits[i] := '0';
      assert value.digits[..keep] == s[i := '0'];
      i := i - 1;
    }
    assert value.digits[..keep] == Zeros(keep);
    ZerosNumeral(keep);
    carried := true;
  }

  lemma StepUp(after: int, before: int, x: int, p: int)
    requires after - (x + 1) * p == before - x * p
    ensures after == before + p
  {
    Distribute(p, x, 1);
    Commute(p, x);
    Commute(p, x + 1);
  }

  lemma NineDown(after: int, before: int, p: int)
    requires after - 0 * p == before - 9 * p
    ensures after + 10 * p == before + p
  {}

  // Zero is held as no digits at all.
  ghost predicate Represents(digits: string, exponent: int, n: nat, d: nat) {
    if n == 0 then d > 0 && digits == "" && exponent == 1 else Exact(digits, exponent, n, d)
  }

  // Rounds to keep significant digits, half to even; keep may be zero or negative.
  method RoundTo(value: Decimal, keep: int, ghost n: nat, ghost d: nat)
    requires value.Valid() && Represents(value.digits[..value.count], value.exponent, n, d)
    modifies value, value.digits
    ensures value.Valid()
    ensures n == 0 ==> value.count == 0 && value.exponent == old(value.exponent)
    ensures n > 0 ==>
      RoundedTo(value.digits[..value.count], value.exponent, old(value.exponent), keep, Rounded(n, d, keep - old(value.exponent)))
  {
    hide Pow, Numeral, RoundHalfEven, Rounded;
    ghost var s, x := value.digits[..value.count], value.exponent;
    if n > 0 { RoundedScale(s, x, n, d, keep); }
    if keep >= value.count {
      if n > 0 { NotRounded(s, x, keep, Rounded(n, d, keep - x)); }
      return;
    }
    if keep < 0 {
      if n > 0 { RoundedAway(s, x, n, d, keep); }
      value.count := 0;
      assert value.digits[..0] == "";
      EmptyRounded(x, keep);
      return;
    }
    var firstDropped := value.digits[keep];
    var roundUp;
    if firstDropped > '5' {
      roundUp := true;
    } else if firstDropped < '5' {
      roundUp := false;
    } else {
      var restNonzero := false;
      var k := keep + 1;
      while k < value.count
        invariant keep < k <= value.count && !restNonzero
        invariant forall j :: keep < j < k ==> value.digits[j] == '0'
      {
        if value.digits[k] != '0' {
          restNonzero := true;
          assert s[k] != '0';
          break;
        }
        k := k + 1;
      }
      assert restNonzero <==> exists j :: keep < j < |s| && s[j] != '0';
      roundUp := restNonzero || (keep > 0 && (value.digits[keep - 1] - '0') as int % 2 != 0);
    }
    RoundDigits(s, keep);
    assert roundUp == RoundsUp(s, keep);
    assert value.digits[..keep] == s[..keep];
    KeptLeads(s, keep);
    value.count := keep;
    if !roundUp {
      Kept(s[..keep], x, keep, Numeral(s[..keep], 10));
      return;
    }
    var carried := Increment(value, keep);
    if !carried {
      LeadsFrom(value.digits[..keep]);
      Kept(value.digits[..keep], x, keep, Numeral(value.digits[..keep], 10));
      return;
    }
    value.digits[0] := '1';
    value.count := if keep > 0 then keep else 1;
    value.exponent := value.exponent + 1;
    assert value.digits[..value.count] == "1" + Zeros(value.count - 1);
    CarriedOut(x, keep);
  }

  lemma NotRounded(s: string, x: int, keep: nat, r: nat)
    requires AllDigits(s) && s != "" && s[0] != '0' && |s| <= keep && r == Numeral(s, 10) * Pow(10, keep - |s|)
    ensures RoundedTo(s, x, x, keep, r)
  {
    hide Pow, Numeral;
    NumeralBound(s, 10);
    LeadingDigit(s);
    PowAdd(10, |s|, keep - |s|);
    PowAdd(10, |s| - 1, keep - |s|);
    MulStrict(Numeral(s, 10), Pow(10, |s|), Pow(10, keep - |s|));
    MulMono(Pow(10, |s| - 1), Numeral(s, 10), Pow(10, keep - |s|));
  }

  lemma EmptyRounded(x: int, keep: int)
    requires keep <= 0
    ensures RoundedTo("", x, x, keep, 0)
  {}

  // More than a whole place below the position, nothing is left to round up.
  lemma RoundedAway(s: string, x: int, n: nat, d: nat, keep: int)
    requires Exact(s, x, n, d) && keep < 0
    ensures Rounded(n, d, keep - x) == 0
  {
    hide Pow, Numeral, RoundHalfEven, Rounded;
    RoundedScale(s, x, n, d, keep);
    NumeralBound(s, 10);
    PowMono(10, |s| + 1, |s| - keep);
    PowNext(10, |s|);
    RoundsToNothing(Numeral(s, 10), Pow(10, |s| - keep));
  }

  lemma RoundsToNothing(v: nat, q: nat)
    requires 2 * v < q
    ensures RoundHalfEven(v, q) == 0
  {
    DivModUnique(v, q, 0, v);
  }

  lemma KeptLeads(s: string, keep: nat)
    requires AllDigits(s) && s != "" && s[0] != '0' && keep < |s|
    ensures keep > 0 ==> Pow(10, keep - 1) <= Numeral(s[..keep], 10)
    ensures Numeral(s[..keep], 10) < Pow(10, keep)
  {
    NumeralBound(s[..keep], 10);
    if keep > 0 { LeadingDigit(s[..keep]); }
  }

  lemma LeadsFrom(s: string)
    requires AllDigits(s)
    ensures Numeral(s, 10) < Pow(10, |s|)
    ensures s != "" && Pow(10, |s| - 1) <= Numeral(s, 10) ==> s[0] != '0'
  {
    hide Pow, Numeral;
    NumeralBound(s, 10);
    if s != "" && s[0] == '0' {
      assert s == ['0'] + s[1..];
      NumeralConcat(['0'], s[1..], 10);
      OneDigitNumeral('0');
      TimesZero(Pow(10, |s| - 1));
      NumeralBound(s[1..], 10);
    }
  }

  lemma Kept(s: string, x: int, keep: nat, r: nat)
    requires AllDigits(s) && |s| == keep && r == Numeral(s, 10)
    requires keep > 0 ==> Pow(10, keep - 1) <= r
    ensures RoundedTo(s, x, x, keep, r)
  {
    PowZero(10);
    LeadsFrom(s);
  }

  lemma CarriedOut(x: int, keep: nat)
    ensures RoundedTo("1" + Zeros(Max(keep, 1) - 1), x + 1, x, keep, Pow(10, keep))
  {
    hide Pow, Numeral, RoundedTo;
    var k := Max(keep, 1) - 1;
    OneAndZeros(k);
    PowAdd(10, k, keep - k);
    PowMono(10, k, keep);
    OneCarried("1" + Zeros(k), x, keep, Pow(10, keep), Pow(10, k), Pow(10, keep - k));
  }

  lemma OneCarried(t: string, x: int, keep: nat, r: nat, p: nat, q: nat)
    requires AllDigits(t) && |t| == Max(keep, 1) && t[0] != '0' && Numeral(t, 10) == p
    requires p == Pow(10, |t| - 1) && q == Pow(10, keep + 1 - |t|) && r == Pow(10, keep) && r == p * q && p <= r
    ensures RoundedTo(t, x + 1, x, keep, r)
  {
    hide Pow, Numeral;
  }

  lemma OneAndZeros(k: nat)
    ensures AllDigits("1" + Zeros(k)) && Numeral("1" + Zeros(k), 10) == Pow(10, k)
  {
    hide Pow, Numeral;
    PaddedNumeral("1", k);
    OneDigitNumeral('1');
  }
}
