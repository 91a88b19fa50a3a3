/** ExpandExact: the decimal digits of a finite double, none of them approximate. */
module DecimalExpansion {
  import opened Powers
  import opened Limbs
  import opened Ieee754
  import opened DecimalBignum
  import opened ScaleBounds
  import opened NumberText
  import opened DecimalWriting
  import opened DecimalRounding

  // mantissa * 2^exponent2 as a fraction.
  ghost function ValueNumerator(mantissa: nat, exponent2: int): nat {
    mantissa * Up(2, exponent2)
  }

  ghost function ValueDenominator(exponent2: int): (d: nat)
    ensures d > 0
  {
    Up(2, -exponent2)
  }

  // The integer whose digits are the value's: 5^k over 10^k is 1 over 2^k.
  ghost function Expanded(mantissa: nat, exponent2: int): nat {
    if exponent2 >= 0 then Shl(mantissa, exponent2) else mantissa * Pow(5, -exponent2)
  }

  lemma ExpandedIsValue(mantissa: nat, exponent2: int)
    ensures Expanded(mantissa, exponent2) * ValueDenominator(exponent2)
         == ValueNumerator(mantissa, exponent2) * Pow(10, Max(-exponent2, 0))
  {
    hide Pow, Up;
    UpIs(2, exponent2);
    UpIs(2, -exponent2);
    PowZero(10);
    if exponent2 >= 0 {
      TimesOne(Expanded(mantissa, exponent2));
      TimesOne(ValueNumerator(mantissa, exponent2));
    } else {
      Ten(-exponent2);
      Assoc(mantissa, Pow(5, -exponent2), Pow(2, -exponent2));
      Commute(Pow(5, -exponent2), Pow(2, -exponent2));
      TimesOne(mantissa);
    }
  }

  // The widest expansion: it fits the digit buffer and the bignum with room to spare.
  lemma ExpandedBound(mantissa: nat, exponent2: int)
    requires mantissa < 2 * FRACTION && -1074 <= exponent2 <= 971
    ensures Expanded(mantissa, exponent2) < Pow(10, 773) < Capacity()
  {
    hide Pow;
    if exponent2 >= 0 {
      Mantissa53(mantissa);
      PowAdd(2, 53, exponent2);
      MulStrict(mantissa, Pow(2, 53), Pow(2, exponent2));
      PowMono(2, 53 + exponent2, 1026);
      TwoBelowTen(342);
      PowStrict(10, 342, 773);
    } else {
      MidpointDigits(mantissa, -exponent2);
    }
    TenBelowTwo(773, 2568);
    PowStrict(2, 2568, 7168);
    BaseIsTwo(224);
  }

  lemma Mantissa53(mantissa: nat)
    requires mantissa < 2 * FRACTION
    ensures mantissa < Pow(2, 53)
  {
    TwoTo32();
    PowAdd(2, 32, 21);
    PowAdd(2, 11, 10);
    assert Pow(2, 10) == 1024 && Pow(2, 11) == 2048;
  }

  const POW5: seq<u32> :=
    [1, 5, 25, 125, 625, 3125, 15625, 78125, 390625, 1953125, 9765625, 48828125, 244140625, 1220703125]

  lemma Pow5Table(i: nat)
    requires i <= 13
    ensures POW5[i] as nat == Pow(5, i) > 0
  {
    assert Pow(5, 0) == 1 && Pow(5, 1) == 5 && Pow(5, 2) == 25 && Pow(5, 3) == 125 && Pow(5, 4) == 625;
    PowAdd(5, 4, 1);
    PowAdd(5, 4, 2);
    PowAdd(5, 4, 3);
    PowAdd(5, 4, 4);
    PowAdd(5, 8, 1);
    PowAdd(5, 8, 2);
    PowAdd(5, 8, 3);
    PowAdd(5, 8, 4);
    PowAdd(5, 9, 4);
  }

  // Multiplies by 5^power, thirteen powers at a time.
  method MulPow5(n: BigUInt, power0: nat)
    requires n.Valid() && n.Trimmed() && n.Value() * Pow(5, power0) < Capacity()
    modifies n, n.limb
    ensures n.Valid() && n.Trimmed() && n.Value() == old(n.Value()) * Pow(5, power0)
  {
    hide Pow, DecimalBignum.Kept, LimbValue;
    var power := power0;
    ghost var total := n.Value() * Pow(5, power0);
    while power >= 13
      invariant 0 <= power && n.Valid() && n.Trimmed() && n.Value() * Pow(5, power) == total
    {
      Pow5Table(13);
      PowAdd(5, 13, power - 13);
      PartialProduct(n.Value(), Pow(5, 13), Pow(5, power - 13));
      KeptSmall(n.Value() * Pow(5, 13));
      n.MulSmall(POW5[13]);
      power := power - 13;
    }
    Pow5Table(power);
    FiveNothing(n.Value());
    if power > 0 {
      KeptSmall(total);
      n.MulSmall(POW5[power]);
    }
  }

  lemma FiveNothing(v: nat)
    ensures v * Pow(5, 0) == v
  {}

  function Reversed(s: string): (r: string)
    ensures |r| == |s|
    ensures forall k :: 0 <= k < |s| ==> r[k] == s[|s| - 1 - k]
  {
    if s == "" then "" else [s[|s| - 1]] + Reversed(s[..|s| - 1])
  }

  lemma ReversedAppend(s: string, c: char)
    requires IsDigit(c)
    ensures Reversed(s + [c]) == [c] + Reversed(s)
    ensures Numeral(Reversed(s + [c]), 10) == (c - '0') as nat * Pow(10, |s|) + Numeral(Reversed(s), 10)
  {
    hide Pow, Numeral;
    assert (s + [c])[..|s|] == s;
    NumeralConcat([c], Reversed(s), 10);
    OneDigitNumeral(c);
  }

  // The digits taken so far, least significant first, and what is left above them.
  ghost predicate Taken(s: string, rest: nat, total: nat) {
    AllDigits(s) && Numeral(Reversed(s), 10) + rest * Pow(10, |s|) == total
  }

  lemma TakeDigit(s: string, rest: nat, total: nat)
    requires Taken(s, rest, total)
    ensures Taken(s + [DigitChar(rest % 10)], rest / 10, total)
  {
    hide Pow, Numeral, Reversed;
    ReversedAppend(s, DigitChar(rest % 10));
    PowNext(10, |s|);
    TakeArith(rest, rest / 10, rest % 10, Pow(10, |s|), Pow(10, |s| + 1));
  }

  lemma TakeArith(rest: int, q: int, r: int, p: int, p': int)
    requires rest == 10 * q + r && p' == 10 * p
    ensures rest * p == r * p + q * p'
  {
    Distribute(p, 10 * q, r);
    Assoc(q, 10, p);
    Commute(q, 10);
  }

  // What is left of a group of nine, above the digits of it already taken.
  lemma GroupStep(group: nat, higher: nat, k: nat)
    requires k > 0
    ensures (group + higher * Pow(10, k)) % 10 == group % 10
    ensures (group + higher * Pow(10, k)) / 10 == group / 10 + higher * Pow(10, k - 1)
  {
    hide Pow;
    PowNext(10, k - 1);
    GroupArith(group, higher, Pow(10, k - 1), Pow(10, k));
  }

  lemma GroupArith(group: nat, higher: nat, p: nat, p': nat)
    requires p' == 10 * p
    ensures (group + higher * p') % 10 == group % 10
    ensures (group + higher * p') / 10 == group / 10 + higher * p
  {
    TimesTen(higher, p);
    DivModUnique(group + higher * p', 10, group / 10 + higher * p, group % 10);
  }

  lemma RoomLeft(s: string, rest: nat, total: nat)
    requires Taken(s, rest, total) && rest > 0 && total < Pow(10, 773)
    ensures |s| < 773
  {
    hide Pow, Numeral, Reversed;
    MulMono(1, rest, Pow(10, |s|));
    if |s| >= 773 { PowMono(10, 773, |s|); }
  }

  // Nine digits of one group.
  method TakeGroup(reversed: array<char>, length0: nat, group0: u32, ghost higher: nat, ghost total: nat) returns (length: nat)
    requires length0 + 9 <= reversed.Length
    requires Taken(reversed[..length0], group0 as nat + higher * Pow(10, 9), total) && group0 < 1000000000
    modifies reversed
    ensures length == length0 + 9 && Taken(reversed[..length], higher, total)
  {
    hide Pow, Taken;
    length := length0;
    var group := group0;
    var i := 0;
    while i < 9
      invariant 0 <= i <= 9 && length == length0 + i
      invariant Taken(reversed[..length], group as nat + higher * Pow(10, 9 - i), total)
      invariant group as nat < [1000000000, 100000000, 10000000, 1000000, 100000, 10000, 1000, 100, 10, 1][i]
    {
      ghost var s := reversed[..length];
      TakeDigit(s, group as nat + higher * Pow(10, 9 - i), total);
      GroupStep(group as nat, higher, 9 - i);
      reversed[length] := '0' + (group % 10) as char;
      length := length + 1;
      assert reversed[..length] == s + [reversed[length - 1]];
      group := group / 10;
      i := i + 1;
    }
    PowZero(10);
    TimesOne(higher);
  }

  // Nine digits per division until nothing is left.
  method TakeDigits(n: BigUInt, reversed: array<char>) returns (length: nat)
    requires n.Valid() && n.Trimmed() && reversed.Length == 800 && n.Value() < Pow(10, 773)
    modifies n, n.limb, reversed
    ensures length <= 800 && Taken(reversed[..length], 0, old(n.Value()))
  {
    hide Pow, Taken, LimbValue;
    ghost var total := n.Value();
    length := 0;
    assert reversed[..0] == "";
    TakenNone(total);
    n.ZeroIff();
    while !n.IsZero()
      invariant n.Valid() && n.Trimmed() && length <= 800 && Taken(reversed[..length], n.Value(), total)
      decreases n.Value()
    {
      ghost var before := n.Value();
      n.ZeroIff();
      RoomLeft(reversed[..length], before, total);
      SplitGroup(before);
      Nine();
      var group := n.DivModSmall(1000000000);
      length := TakeGroup(reversed, length, group, n.Value(), total);
    }
    n.ZeroIff();
  }

  lemma TakenNone(total: nat)
    ensures Taken("", total, total)
  {
    PowZero(10);
    TimesOne(total);
  }

  lemma SplitGroup(v: nat)
    ensures v == v % 1000000000 + v / 1000000000 * 1000000000
    ensures v > 0 ==> v / 1000000000 < v
  {}

  lemma Nine()
    ensures Pow(10, 9) == 1000000000
  {
    assert Pow(10, 4) == 10000 && Pow(10, 5) == 100000;
    PowAdd(10, 4, 5);
  }

  lemma StripLeading(s: string, total: nat)
    requires s != "" && s[|s| - 1] == '0' && Taken(s, 0, total)
    ensures Taken(s[..|s| - 1], 0, total)
  {
    hide Pow, Numeral, Reversed;
    var s' := s[..|s| - 1];
    assert s == s' + ['0'];
    ReversedAppend(s', '0');
    TimesZero(Pow(10, |s'|));
    TimesZero(Pow(10, |s|));
  }

  lemma TakenAll(s: string, total: nat)
    requires Taken(s, 0, total) && total > 0
    ensures s != "" && AllDigits(Reversed(s)) && Numeral(Reversed(s), 10) == total
  {
    TimesZero(Pow(10, |s|));
  }

  // The integer holding the value's digits, and how many of them fall after the point.
  method ScaleToInteger(n: BigUInt, mantissa: u64, exponent2: int) returns (fractionDigits: nat)
    requires 0 < mantissa as nat < 2 * FRACTION && -1074 <= exponent2 <= 971 && n.Valid()
    modifies n, n.limb
    ensures n.Valid() && n.Trimmed() && n.Value() == Expanded(mantissa as nat, exponent2)
    ensures fractionDigits == Max(-exponent2, 0)
  {
    hide Pow, DecimalBignum.Kept, Shl, LimbValue;
    ExpandedBound(mantissa as nat, exponent2);
    KeptSmall(Expanded(mantissa as nat, exponent2));
    ShlNothing(mantissa as nat);
    n.SetU64(mantissa);
    fractionDigits := 0;
    if exponent2 >= 0 {
      n.ShiftLeft(exponent2);
    } else {
      fractionDigits := -exponent2;
      MulPow5(n, fractionDigits);
    }
  }

  // Drops the leading zeros of the last group, which sit at the end of the reversed digits.
  method StripGroup(reversed: array<char>, length0: nat, ghost total: nat) returns (length: nat)
    requires length0 <= reversed.Length && total > 0 && Taken(reversed[..length0], 0, total)
    ensures 0 < length <= length0 && Taken(reversed[..length], 0, total) && reversed[length - 1] != '0'
  {
    hide Pow, Taken, Numeral, Reversed;
    length := length0;
    while length > 0 && reversed[length - 1] == '0'
      invariant 0 <= length <= length0 && Taken(reversed[..length], 0, total)
    {
      StripLeading(reversed[..length], total);
      assert reversed[..length][..length - 1] == reversed[..length - 1];
      length := length - 1;
    }
    TakenAll(reversed[..length], total);
  }

  method CopyReversed(reversed: array<char>, length: nat, out: Decimal)
    requires length <= reversed.Length && length <= 800 && out.digits.Length == 800 && reversed != out.digits
    modifies out.digits
    ensures out.digits[..length] == Reversed(reversed[..length])
  {
    hide Reversed;
    ghost var s := reversed[..length];
    var i := 0;
    while i < length
      invariant 0 <= i <= length && reversed[..length] == s
      invariant forall k :: 0 <= k < i ==> out.digits[k] == Reversed(s)[k]
    {
      assert reversed[length - 1 - i] == s[length - 1 - i];
      ReversedAt(s, i);
      out.digits[i] := reversed[length - 1 - i];
      i := i + 1;
    }
  }

  method ExpandExact(mantissa: u64, exponent2: int, out: Decimal)
    requires 0 < mantissa as nat < 2 * FRACTION && -1074 <= exponent2 <= 971 && out.Valid()
    modifies out, out.digits
    ensures out.Valid() && -537 <= out.exponent <= 800
    ensures Exact(out.digits[..out.count], out.exponent, ValueNumerator(mantissa as nat, exponent2), ValueDenominator(exponent2))
  {
    hide Pow, Taken, LimbValue, Numeral, ValueNumerator, ValueDenominator, Reversed, Expanded;
    ghost var total := Expanded(mantissa as nat, exponent2);
    ExpandedBound(mantissa as nat, exponent2);
    ExpandedPositive(mantissa as nat, exponent2);
    var n := new BigUInt();
    var fractionDigits: int := ScaleToInteger(n, mantissa, exponent2);
    var reversed := new char[800](_ => '0');
    var length := TakeDigits(n, reversed);
    length := StripGroup(reversed, length, total);
    TakenAll(reversed[..length], total);
    CopyReversed(reversed, length, out);
    ReversedAt(reversed[..length], 0);
    out.count := length;
    out.exponent := length - fractionDigits;
    ExpandedIsValue(mantissa as nat, exponent2);
    ExpandedExponent(out.digits[..length], mantissa as nat, exponent2);
  }

  lemma ReversedAt(s: string, k: nat)
    requires k < |s|
    ensures Reversed(s)[k] == s[|s| - 1 - k]
  {}

  lemma ExpandedPositive(mantissa: nat, exponent2: int)
    requires mantissa > 0
    ensures Expanded(mantissa, exponent2) > 0
  {
    if exponent2 >= 0 { MulMono(1, mantissa, Pow(2, exponent2)); } else { MulMono(1, mantissa, Pow(5, -exponent2)); }
  }

  // The digits outnumber half the places after the point.
  lemma ExpandedExponent(s: string, mantissa: nat, exponent2: int)
    requires AllDigits(s) && mantissa > 0 && exponent2 >= -1074 && Numeral(s, 10) == Expanded(mantissa, exponent2)
    ensures exponent2 < 0 ==> -537 <= |s| + exponent2
  {
    hide Pow, Numeral, Shl;
    if exponent2 < 0 {
      var k := -exponent2;
      NumeralBound(s, 10);
      MulMono(1, mantissa, Pow(5, k));
      PowBaseMono(4, 5, k);
      TwoSquared();
      PowPow(2, 2, k);
      PowBaseMono(10, 16, |s|);
      PowPow(2, 4, |s|);
      if 4 * |s| <= 2 * k { PowMono(2, 4 * |s|, 2 * k); }
    }
  }

  lemma TwoSquared()
    ensures Pow(2, 2) == 4 && Pow(2, 4) == 16
  {}
}
