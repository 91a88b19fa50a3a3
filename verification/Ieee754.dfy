/**
 Binary64 magnitudes as bit patterns, and what it means for one of them to be the correctly
 rounded form of an exact rational (IEEE 754-2019, section 4.3.1, roundTiesToEven).

 A magnitude b is the low 63 bits of a double.  Units(b) is its value counted in units of
 2^-1074, the smallest subnormal, so every magnitude has a natural-number value.  The infinity
 pattern stands for 2^1024: rounding to nearest with that stand-in overflows exactly from
 2^1024 - 2^970 on, which is the standard's rule.
 */
module Ieee754 {
  import opened Powers

  const FRACTION: nat := 0x10_0000_0000_0000 // 2^52
  const INFINITY: nat := 0x7FF * FRACTION
  const SIGN_BIT: nat := 0x8000_0000_0000_0000

  // The distance from b to the next magnitude.
  function Gap(b: nat): (g: nat)
    ensures g > 0
  {
    if b < FRACTION then 1 else Pow(2, b / FRACTION - 1)
  }

  function Units(b: nat): nat {
    if b < FRACTION then b else (FRACTION + b % FRACTION) * Pow(2, b / FRACTION - 1)
  }

  // n/q rounded to an integer, ties to even.
  function RoundHalfEven(n: nat, q: nat): nat
    requires q > 0
  {
    var floor, rest := n / q, n % q;
    if 2 * rest > q || (2 * rest == q && floor % 2 == 1) then floor + 1 else floor
  }

  // s is an integer nearest to n/q, and the even one when two are.
  ghost predicate HalfEven(n: nat, q: nat, s: nat)
    requires q > 0
  {
    && 2 * (s * q) <= 2 * n + q
    && 2 * n <= 2 * (s * q) + q
    && (2 * (s * q) == 2 * n + q || 2 * n == 2 * (s * q) + q ==> s % 2 == 0)
  }

  lemma RoundHalfEvenIs(n: nat, q: nat)
    requires q > 0
    ensures HalfEven(n, q, RoundHalfEven(n, q))
  {
    var floor, rest := n / q, n % q;
    assert n == floor * q + rest;
    assert (floor + 1) * q == floor * q + q;
  }

  lemma HalfEvenUnique(n: nat, q: nat, s: nat, t: nat)
    requires q > 0 && HalfEven(n, q, s) && HalfEven(n, q, t)
    ensures s == t
  {
    if s < t {
      Distribute(q, s, 1);
      MulCancel(t, s + 1, q);
    } else if t < s {
      HalfEvenUnique(n, q, t, s);
    }
  }

  // Scaling numerator and denominator together changes nothing.
  lemma HalfEvenScale(n: nat, q: nat, k: nat, s: nat)
    requires q > 0 && k > 0
    ensures q * k > 0
    ensures HalfEven(n, q, s) <==> HalfEven(n * k, q * k, s)
  {
    MulStrict(0, q, k);
    var a, b := 2 * (s * q), 2 * n + q;
    var c, d := 2 * n, 2 * (s * q) + q;
    assert 2 * (s * (q * k)) == a * k && 2 * (n * k) + q * k == b * k;
    assert 2 * (n * k) == c * k && 2 * (s * (q * k)) + q * k == d * k;
    if a < b { MulStrict(a, b, k); } else if b < a { MulStrict(b, a, k); }
    if c < d { MulStrict(c, d, k); } else if d < c { MulStrict(d, c, k); }
  }

  function Abs(x: int): nat {
    if x < 0 then -x else x
  }

  // How far b is from n/d units, times d.
  function Distance(n: nat, d: nat, b: nat): nat {
    Abs(n - d * Units(b))
  }

  // b is the magnitude nearest to n/d units, and the even one when two are equally near.
  ghost predicate NearestEven(n: nat, d: nat, b: nat) {
    && b <= INFINITY
    && forall c: nat | c <= INFINITY && c != b ::
         Distance(n, d, b) < Distance(n, d, c) || (Distance(n, d, b) == Distance(n, d, c) && b % 2 == 0)
  }

  // The same, said with the two midpoints around b only.
  ghost predicate Bracketed(n: nat, d: nat, b: nat) {
    && b <= INFINITY
    && (b > 0 ==> d * Midpoint(b - 1) <= 2 * n && (d * Midpoint(b - 1) == 2 * n ==> b % 2 == 0))
    && (b < INFINITY ==> 2 * n <= d * Midpoint(b) && (2 * n == d * Midpoint(b) ==> b % 2 == 0))
  }

  // The point halfway between b and the next magnitude, in half units.
  function Midpoint(b: nat): nat {
    Units(b) + Units(b + 1)
  }

  lemma UnitsStep(b: nat)
    ensures Units(b + 1) == Units(b) + Gap(b)
  {
    var e, f := b / FRACTION, b % FRACTION;
    assert b == e * FRACTION + f;
    if b >= FRACTION && f + 1 < FRACTION {
      DivModUnique(b + 1, FRACTION, e, f + 1);
      assert (FRACTION + f + 1) * Pow(2, e - 1) == (FRACTION + f) * Pow(2, e - 1) + Pow(2, e - 1);
    } else if b >= FRACTION {
      DivModUnique(b + 1, FRACTION, e + 1, 0);
      assert Pow(2, e) == 2 * Pow(2, e - 1);
    }
  }

  lemma {:induction false} UnitsMono(a: nat, b: nat)
    requires a <= b
    ensures Units(a) + (b - a) <= Units(b)
    decreases b - a
  {
    if a < b {
      UnitsMono(a, b - 1);
      UnitsStep(b - 1);
    }
  }

  // On a line, a point at or before the middle of [u, v] is nearer to u than to anything past v.
  lemma NearerBelow(n: int, u: int, v: int, w: int)
    requires u < v <= w && 2 * n <= u + v
    ensures Abs(n - u) < Abs(n - w) || (Abs(n - u) == Abs(n - w) && 2 * n == u + v)
  {}

  lemma NearerAbove(n: int, u: int, v: int, w: int)
    requires w <= v < u && u + v <= 2 * n
    ensures Abs(n - u) < Abs(n - w) || (Abs(n - u) == Abs(n - w) && 2 * n == u + v)
  {}

  lemma BracketedIsNearest(n: nat, d: nat, b: nat)
    requires d > 0 && Bracketed(n, d, b)
    ensures NearestEven(n, d, b)
  {
    forall c: nat | c <= INFINITY && c != b
      ensures Distance(n, d, b) < Distance(n, d, c) || (Distance(n, d, b) == Distance(n, d, c) && b % 2 == 0)
    {
      if b < c { NearestAgainstAbove(n, d, b, c); } else { NearestAgainstBelow(n, d, b, c); }
    }
  }

  lemma NearestAgainstAbove(n: nat, d: nat, b: nat, c: nat)
    requires d > 0 && b < c && 2 * n <= d * Midpoint(b)
    ensures Distance(n, d, b) < Distance(n, d, c)
         || (Distance(n, d, b) == Distance(n, d, c) && 2 * n == d * Midpoint(b))
  {
    UnitsMono(b + 1, c);
    UnitsStep(b);
    MulMono(Units(b + 1), Units(c), d);
    MulStrict(Units(b), Units(b + 1), d);
    Distribute(d, Units(b), Units(b + 1));
    NearerBelow(n, d * Units(b), d * Units(b + 1), d * Units(c));
  }

  lemma NearestAgainstBelow(n: nat, d: nat, b: nat, c: nat)
    requires d > 0 && c < b && d * Midpoint(b - 1) <= 2 * n
    ensures Distance(n, d, b) < Distance(n, d, c)
         || (Distance(n, d, b) == Distance(n, d, c) && 2 * n == d * Midpoint(b - 1))
  {
    UnitsMono(c, b - 1);
    UnitsStep(b - 1);
    MulMono(Units(c), Units(b - 1), d);
    MulStrict(Units(b - 1), Units(b), d);
    Distribute(d, Units(b - 1), Units(b));
    NearerAbove(n, d * Units(b), d * Units(b - 1), d * Units(c));
  }

  lemma NearestIsBracketed(n: nat, d: nat, b: nat)
    requires d > 0 && NearestEven(n, d, b)
    ensures Bracketed(n, d, b)
  {
    if b > 0 { NotNearerBelow(n, d, b); }
    if b < INFINITY { NotNearerAbove(n, d, b); }
  }

  lemma NotNearerBelow(n: nat, d: nat, b: nat)
    requires d > 0 && b > 0 && Distance(n, d, b) <= Distance(n, d, b - 1)
    ensures d * Midpoint(b - 1) <= 2 * n
    ensures d * Midpoint(b - 1) == 2 * n ==> Distance(n, d, b) == Distance(n, d, b - 1)
  {
    UnitsStep(b - 1);
    FromDistances(n, d, Units(b), Units(b - 1));
  }

  lemma NotNearerAbove(n: nat, d: nat, b: nat)
    requires d > 0 && Distance(n, d, b) <= Distance(n, d, b + 1)
    ensures 2 * n <= d * Midpoint(b)
    ensures 2 * n == d * Midpoint(b) ==> Distance(n, d, b) == Distance(n, d, b + 1)
  {
    UnitsStep(b);
    FromDistances(n, d, Units(b), Units(b + 1));
  }

  lemma FromDistances(n: int, d: nat, u: nat, v: nat)
    requires d > 0 && u != v && Abs(n - d * u) <= Abs(n - d * v)
    ensures if u < v then 2 * n <= d * (u + v) else d * (u + v) <= 2 * n
    ensures Abs(n - d * u) == Abs(n - d * v) <==> 2 * n == d * (u + v)
  {
    Distribute(d, u, v);
    if u < v { MulStrict(u, v, d); } else { MulStrict(v, u, d); }
  }

  lemma BracketedOrder(n: nat, d: nat, a: nat, b: nat)
    requires d > 0 && Bracketed(n, d, a) && Bracketed(n, d, b)
    ensures b <= a
  {
    if a + 1 < b {
      UnitsMono(a, b - 1);
      UnitsMono(a + 1, b);
      MulStrict(Midpoint(a), Midpoint(b - 1), d);
    }
  }

  // Correct rounding determines the result.
  lemma NearestUnique(n: nat, d: nat, a: nat, b: nat)
    requires d > 0 && NearestEven(n, d, a) && NearestEven(n, d, b)
    ensures a == b
  {
    NearestIsBracketed(n, d, a);
    NearestIsBracketed(n, d, b);
    BracketedOrder(n, d, a, b);
    BracketedOrder(n, d, b, a);
  }

  // Equal rationals round to the same magnitudes.
  lemma NearestCongruent(n: nat, d: nat, n': nat, d': nat, b: nat)
    requires d > 0 && d' > 0 && n * d' == n' * d && NearestEven(n, d, b)
    ensures NearestEven(n', d', b)
  {
    NearestIsBracketed(n, d, b);
    if b > 0 { CrossCompare(n, d, n', d', Midpoint(b - 1)); }
    if b < INFINITY { CrossCompare(n, d, n', d', Midpoint(b)); }
    BracketedIsNearest(n', d', b);
  }

  lemma CrossCompare(n: nat, d: nat, n': nat, d': nat, m: nat)
    requires d > 0 && d' > 0 && n * d' == n' * d
    ensures d * m <= 2 * n <==> d' * m <= 2 * n'
    ensures d * m == 2 * n <==> d' * m == 2 * n'
  {
    var x, y := d * m, 2 * n;
    var x', y' := d' * m, 2 * n';
    assert x * d' == x' * d && y * d' == y' * d;
    if x < y { MulStrict(x, y, d'); MulCancelStrict(x', y', d); }
    if y < x { MulStrict(y, x, d'); MulCancelStrict(y', x', d); }
    if x' < y' { MulStrict(x', y', d); MulCancelStrict(x, y, d'); }
    if y' < x' { MulStrict(y', x', d); MulCancelStrict(y, x, d'); }
  }

  // A bit pattern put together from an exponent and a significand that may have carried
  // to 2^53 has the value the two denote.
  lemma UnitsAssembled(e: nat, s: nat)
    requires 1 <= e && s <= 2 * FRACTION && (e == 1 || FRACTION <= s)
    ensures Units((e - 1) * FRACTION + s) == s * Pow(2, e - 1)
  {
    if s < FRACTION {
    } else if s < 2 * FRACTION {
      DivModUnique((e - 1) * FRACTION + s, FRACTION, e, s - FRACTION);
    } else {
      DivModUnique((e - 1) * FRACTION + s, FRACTION, e + 1, 0);
      assert Pow(2, e) == 2 * Pow(2, e - 1);
    }
  }

  lemma SumOfNeighbours(s: int, p: int)
    ensures s * p + (s + 1) * p == (2 * s + 1) * p
  {}

  lemma SignificandMidpoint(e: nat, s: nat)
    requires 1 <= e && s < 2 * FRACTION && (e == 1 || FRACTION <= s)
    ensures Midpoint((e - 1) * FRACTION + s) == (2 * s + 1) * Pow(2, e - 1)
  {
    UnitsAssembled(e, s);
    UnitsAssembled(e, s + 1);
    SumOfNeighbours(s, Pow(2, e - 1));
  }

  // Rounding a value once at the last place of its own binade, and writing the significand
  // over the exponent field, rounds correctly: in the subnormal range (e == 1), in the normal
  // range, when the significand carries into the next binade and when it overflows.
  lemma AssembledIsNearest(e: nat, s: nat, n: nat, d: nat, q: nat)
    requires d > 0 && q > 0 && 1 <= e <= 0x7FE
    requires q == d * Pow(2, e - 1)
    requires e == 1 || FRACTION * q <= n
    requires n < 2 * FRACTION * q
    requires HalfEven(n, q, s)
    ensures s <= 2 * FRACTION
    ensures NearestEven(n, d, (e - 1) * FRACTION + s)
  {
    SignificandRange(n, q, s, e > 1);
    var b := (e - 1) * FRACTION + s;
    if b > 0 { AssembledAbove(e, s, n, d, q); }
    if b < INFINITY { AssembledBelow(e, s, n, d, q); }
    SameParity(e - 1, s);
    BracketedIsNearest(n, d, b);
  }

  lemma SameParity(k: nat, s: nat)
    ensures (k * FRACTION + s) % 2 == s % 2
  {
    var half := k * (FRACTION / 2) + s / 2;
    DivModUnique(k * FRACTION + s, 2, half, s % 2);
  }

  lemma SignificandRange(n: nat, q: nat, s: nat, normal: bool)
    requires q > 0 && n < 2 * FRACTION * q && (normal ==> FRACTION * q <= n)
    requires HalfEven(n, q, s)
    ensures s <= 2 * FRACTION && (normal ==> FRACTION <= s)
  {
    if s > 2 * FRACTION { MulMono(2 * FRACTION + 1, s, q); }
    if normal && s < FRACTION { MulMono(s, FRACTION - 1, q); }
  }

  lemma AssembledAbove(e: nat, s: nat, n: nat, d: nat, q: nat)
    requires d > 0 && q > 0 && 1 <= e && s <= 2 * FRACTION && (e == 1 || FRACTION <= s) && (e - 1) * FRACTION + s > 0
    requires q == d * Pow(2, e - 1)
    requires e == 1 || FRACTION * q <= n
    requires HalfEven(n, q, s)
    ensures d * Midpoint((e - 1) * FRACTION + s - 1) <= 2 * n
    ensures d * Midpoint((e - 1) * FRACTION + s - 1) == 2 * n ==> s % 2 == 0
  {
    hide Pow, Units, Gap;
    var p := Pow(2, e - 1);
    var b := (e - 1) * FRACTION + s;
    if e == 1 || s > FRACTION {
      SignificandMidpoint(e, s - 1);
      assert b - 1 == (e - 1) * FRACTION + (s - 1);
      assert 2 * (s - 1) + 1 == 2 * s - 1;
      ScaledMidpoint(d, p, s);
    } else {
      // Below a power of two the gap halves; the value is not under the power at all.
      UnitsAssembled(e, s);
      UnitsStep(b - 1);
      MulStrict(Midpoint(b - 1), 2 * Units(b), d);
      DoubleScale(d, s, p);
    }
  }

  lemma AssembledBelow(e: nat, s: nat, n: nat, d: nat, q: nat)
    requires d > 0 && q > 0 && 1 <= e && s <= 2 * FRACTION && (e == 1 || FRACTION <= s)
    requires q == d * Pow(2, e - 1)
    requires n < 2 * FRACTION * q
    requires HalfEven(n, q, s)
    ensures 2 * n <= d * Midpoint((e - 1) * FRACTION + s)
    ensures 2 * n == d * Midpoint((e - 1) * FRACTION + s) ==> s % 2 == 0
  {
    hide Pow, Units, Gap;
    var p := Pow(2, e - 1);
    var b := (e - 1) * FRACTION + s;
    if s < 2 * FRACTION {
      SignificandMidpoint(e, s);
      ScaledMidpoint(d, p, s);
    } else {
      UnitsAssembled(e, s);
      UnitsStep(b);
      MulStrict(2 * Units(b), Midpoint(b), d);
      DoubleScale(d, s, p);
    }
  }

  lemma DoubleScale(d: int, s: int, p: int)
    ensures d * (2 * (s * p)) == 2 * (s * (d * p))
  {}

  lemma ScaledMidpoint(d: nat, p: nat, s: nat)
    ensures d * ((2 * s + 1) * p) == 2 * (s * (d * p)) + d * p
    ensures s > 0 ==> d * ((2 * s - 1) * p) == 2 * (s * (d * p)) - d * p
  {
    assert (2 * s + 1) * p == 2 * (s * p) + p;
    assert (2 * s - 1) * p == 2 * (s * p) - p;
    Distribute(d, 2 * (s * p), p);
    Distribute(d, 2 * (s * p) - p, p);
    assert d * (2 * (s * p)) == 2 * (s * (d * p));
  }

  // Every midpoint is a natural number below 2^54 times a power of two.
  lemma MidpointShape(b: nat) returns (h: nat, j: nat)
    ensures h < 4 * FRACTION && Midpoint(b) == h * Pow(2, j)
    ensures b < INFINITY ==> j <= 0x7FD
  {
    var e, f := b / FRACTION, b % FRACTION;
    assert b == e * FRACTION + f;
    if b < FRACTION {
      h, j := 2 * b + 1, 0;
      SignificandMidpoint(1, b);
    } else {
      h, j := 2 * (FRACTION + f) + 1, e - 1;
      SignificandMidpoint(e, FRACTION + f);
    }
  }
}
