/**
 The texts ParseInteger accepts, built from their parts: the value each is read as, and that there are
 no others.
 */
module IntegerGrammar {
  import opened Powers
  import opened NumberText
  import opened IntegerText
  import opened FloatGrammar

  // ── The value ───────────────────────────────────────────────────

  const SMALL := "0123456789abcdefghijklmnopqrstuvwxyz"
  const CAPITAL := "0123456789ABCDEFGHIJKLMNOPQRSTUVWXYZ"

  // c is the digit v: ten digits and the letters of either case.
  predicate Denotes(c: char, v: int) {
    0 <= v < 36 && (c == SMALL[v] || c == CAPITAL[v])
  }

  /** A character has a value in a radix if and only if it is a digit below the radix, and that digit is the value. */
  lemma DigitDenotes(c: char, radix: int, v: int)
    requires 2 <= radix <= 36 && v >= 0
    ensures DigitValue(c, radix) == v <==> Denotes(c, v) && v < radix
  {
    if v < 10 {
      SmallDigits(v);
    } else if v < 36 {
      LetterDigits(v - 10);
    }
  }

  lemma SmallDigits(v: nat)
    requires v < 10
    ensures SMALL[v] == '0' + v as char && CAPITAL[v] == '0' + v as char
  {}

  lemma LetterDigits(k: nat)
    requires k < 26
    ensures SMALL[10 + k] == 'a' + k as char && CAPITAL[10 + k] == 'A' + k as char
  {}

  function Distance(a: int, b: int): int {
    if a < b then b - a else a - b
  }

  // r is the 64-bit value nearest v.
  ghost predicate NearestI64(r: int, v: int) {
    IsI64(r) && forall w :: IsI64(w) && w != r ==> Distance(r, v) < Distance(w, v)
  }

  /** Clamping gives the 64-bit value nearest the mathematical one, which is that value whenever it fits. */
  lemma ClampIsNearest(negative: bool, magnitude: nat)
    ensures var v := if negative then -(magnitude as int) else magnitude;
            NearestI64(Clamp(negative, magnitude), v) && (IsI64(v) ==> Clamp(negative, magnitude) == v)
  {}

  // ── Parts ───────────────────────────────────────────────────────

  predicate AllIn(s: string, radix: int) {
    forall k :: 0 <= k < |s| ==> DigitValue(s[k], radix) >= 0
  }

  // The text goes on with 0x and a hexadecimal digit.
  predicate StartsHex(y: string) {
    |y| > 2 && y[0] == '0' && (y[1] == 'x' || y[1] == 'X') && DigitValue(y[2], 16) >= 0
  }

  predicate StartsOctal(y: string) {
    |y| > 1 && y[0] == '0' && DigitValue(y[1], 8) >= 0
  }

  // An integer with what stands before and after it, and the radix of its digits.
  datatype Integer = Integer(space: string, sign: string, prefix: string, digits: string, rest: string, radix: int) {
    // What follows the sign.
    function Body(): string {
      digits + rest
    }

    function Text(): string {
      space + (sign + (prefix + (digits + rest)))
    }

    function Value(): int
      requires 2 <= radix <= 36
    {
      if sign == "-" then -(Numeral(digits, radix) as int) else Numeral(digits, radix)
    }

    // The radix that was asked for, or the one the text shows when none was.
    predicate RadixFor(baseRadix: int) {
      if prefix != "" then
        (prefix == "0x" || prefix == "0X") && (baseRadix == 0 || baseRadix == 16) && radix == 16
      else if baseRadix == 0 then
        !StartsHex(Body()) && radix == (if StartsOctal(Body()) then 8 else 10)
      else
        radix == baseRadix && (radix == 16 ==> !StartsHex(Body()))
    }

    predicate WellFormed(baseRadix: int) {
      && AllBlank(space) && OptionalSign(sign)
      && 2 <= radix <= 36 && RadixFor(baseRadix)
      && digits != "" && AllIn(digits, radix) && (rest == "" || DigitValue(rest[0], radix) < 0)
    }
  }

  // ── What they are read as ───────────────────────────────────────

  lemma BodyStarts(n: Integer, baseRadix: int)
    requires n.WellFormed(baseRadix)
    ensures var y := n.prefix + (n.digits + n.rest);
            y != "" && !Blank(y[0]) && y[0] != '+' && y[0] != '-'
  {
    var y := n.prefix + (n.digits + n.rest);
    assert y[0] == if n.prefix != "" then '0' else n.digits[0];
  }

  lemma HexIs(t: string, x: string, y: string)
    requires t == x + y
    ensures StartsHex(y) <==> At(t, |x|) == '0' && Lower(At(t, |x| + 1)) == 'x' && DigitValue(At(t, |x| + 2), 16) >= 0
    ensures StartsOctal(y) <==> At(t, |x|) == '0' && DigitValue(At(t, |x| + 1), 8) >= 0
  {
    CharAt(t, x, y, 0);
    CharAt(t, x, y, 1);
    CharAt(t, x, y, 2);
  }

  lemma RadixIs(n: Integer, t: string, x: string, baseRadix: int)
    requires n.WellFormed(baseRadix) && t == x + (n.prefix + (n.digits + n.rest))
    ensures ResolveRadix(t, |x|, baseRadix) == (n.radix, |x| + |n.prefix|)
  {
    hide AllBlank, OptionalSign, AllIn;
    var y := n.prefix + (n.digits + n.rest);
    HexIs(t, x, y);
    if n.prefix != "" {
      assert y[0] == '0' && y[1] == n.prefix[1] && y[2] == n.digits[0];
      FirstIn(n.digits, 16);
    } else {
      assert y == n.Body();
    }
  }

  lemma FirstIn(digits: string, radix: int)
    requires digits != "" && AllIn(digits, radix)
    ensures DigitValue(digits[0], radix) >= 0
  {}

  lemma DigitsIn(t: string, x: string, run: string, y: string, radix: nat)
    requires t == x + (run + y) && AllIn(run, radix) && (y == "" || DigitValue(y[0], radix) < 0)
    ensures DigitsEnd(t, |x|, radix) == |x| + |run| && Slice(t, |x|, |x| + |run|) == run
  {
    hide DigitsEnd, DigitValue;
    assert t == x + run + y;
    PartAt(t, x, run, y);
    forall k | |x| <= k < |x| + |run| ensures DigitValue(At(t, k), radix) >= 0 {
      assert At(t, |x| + (k - |x|)) == run[k - |x|];
    }
    assert At(t, |x| + |run| + 0) == At(y, 0);
    DigitRange('\0', radix);
    DigitsEndUnique(t, |x|, radix, |x| + |run|);
  }

  /** Every integer is read as the 64-bit value nearest its own, whatever precedes and follows it. */
  lemma ReadsInteger(n: Integer, baseRadix: int)
    requires n.WellFormed(baseRadix)
    ensures var r := ReadInteger(n.Text(), baseRadix);
            r.Number? && NearestI64(r.value, n.Value()) && r.end == |n.Text()| - |n.rest|
  {
    hide SpaceEnd, DigitsEnd, ResolveRadix, Numeral, NearestI64, Clamp, AllIn, AllBlank, DigitValue, Slice, n.RadixFor, StartsHex;
    var t, y := n.Text(), n.prefix + (n.digits + n.rest);
    BodyStarts(n, baseRadix);
    StartAt(t, n.space, n.sign, y);
    var x := n.space + n.sign;
    assert t == x + y;
    RadixIs(n, t, x, baseRadix);
    assert t == (x + n.prefix) + (n.digits + n.rest);
    DigitsIn(t, x + n.prefix, n.digits, n.rest, n.radix);
    ClampIsNearest(n.sign == "-", Numeral(n.digits, n.radix));
  }

  // ── There are no others ─────────────────────────────────────────

  lemma RadixOfText(t: string, b: nat, baseRadix: int) returns (n: Integer)
    requires b <= |t|
    requires var (radix, p) := ResolveRadix(t, b, baseRadix);
             2 <= radix <= 36 && DigitValue(At(t, p), radix) >= 0
    ensures 2 <= n.radix <= 36 && n.RadixFor(baseRadix) && t[b..] == n.prefix + (n.digits + n.rest)
    ensures n.digits != "" && AllIn(n.digits, n.radix) && (n.rest == "" || DigitValue(n.rest[0], n.radix) < 0)
  {
    hide DigitsEnd, DigitValue;
    var (radix, p) := ResolveRadix(t, b, baseRadix);
    var end := DigitsEnd(t, p, radix);
    ResolvedPlace(t, baseRadix);
    assert t == t[..b] + t[b..];
    HexIs(t, t[..b], t[b..]);
    n := Integer("", "", t[b..p], t[p..end], t[end..], radix);
    assert t[b..] == t[b..p] + (t[p..end] + t[end..]);
    forall k | 0 <= k < |n.digits| ensures DigitValue(n.digits[k], radix) >= 0 {
      assert n.digits[k] == At(t, p + k);
    }
    assert p > b ==> t[b..p] == [t[b], t[b + 1]];
    assert p == b ==> t[b..p] == "" && n.Body() == t[b..];
  }

  lemma Framed(m: Integer, space: string, sign: string, baseRadix: int)
    ensures m.(space := space, sign := sign).RadixFor(baseRadix) <==> m.RadixFor(baseRadix)
  {}

  /** A text in which a number is found is one of those above. */
  lemma IntegerOfText(t: string, baseRadix: int) returns (n: Integer)
    requires ReadInteger(t, baseRadix).Number?
    ensures n.WellFormed(baseRadix) && n.Text() == t
  {
    hide SpaceEnd, DigitsEnd, ResolveRadix, AllIn, AllBlank, OptionalSign, Numeral, DigitValue, Clamp, Slice, Integer.RadixFor;
    var a := SpaceEnd(t, 0);
    var b := HeadOf(t);
    var (radix, p) := ResolveRadix(t, b, baseRadix);
    assert DigitValue(At(t, p), radix) >= 0;
    var m := RadixOfText(t, b, baseRadix);
    n := m.(space := t[..a], sign := t[a..b]);
    Framed(m, t[..a], t[a..b], baseRadix);
    assert t == t[..a] + (t[a..b] + t[b..]);
  }

  lemma Accepted(t: string, baseRadix: int)
    ensures ReadInteger(t, baseRadix).Number? <==> exists n: Integer :: n.WellFormed(baseRadix) && n.Text() == t
  {
    hide ReadInteger;
    if ReadInteger(t, baseRadix).Number? { var n := IntegerOfText(t, baseRadix); }
    forall n: Integer | n.WellFormed(baseRadix) && n.Text() == t ensures ReadInteger(t, baseRadix).Number? {
      ReadsInteger(n, baseRadix);
    }
  }
}
