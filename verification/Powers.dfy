/** Natural-number powers and the division facts the exact number conversions rest on. */
module Powers {

  function Pow(b: nat, e: nat): (r: nat)
    ensures b > 0 ==> r > 0
  {
    if e == 0 then 1 else b * Pow(b, e - 1)
  }

  function Max(a: int, b: int): int {
    if a < b then b else a
  }

  function Min(a: int, b: int): int {
    if a < b then a else b
  }

  // 2^max(k, 0) and 10^max(k, 0): the numerator side of a scaling by a possibly negative power.
  function Up(b: nat, k: int): (r: nat)
    ensures b > 0 ==> r > 0
  {
    Pow(b, Max(k, 0))
  }

  lemma MulMono(a: int, b: int, c: int)
    requires a <= b && 0 <= c
    ensures a * c <= b * c
  {}

  lemma Distribute(d: int, a: int, b: int)
    ensures d * (a + b) == d * a + d * b
  {}

  lemma Assoc(a: int, b: int, c: int)
    ensures (a * b) * c == a * (b * c)
  {}

  lemma Commute(a: int, b: int)
    ensures a * b == b * a
  {}

  lemma SwapLast(a: int, b: int, c: int)
    ensures (a * b) * c == (a * c) * b
  {
    Assoc(a, b, c);
    Assoc(a, c, b);
    Commute(b, c);
  }

  lemma TimesOne(a: int)
    ensures a * 1 == a
  {}

  lemma TimesZero(a: int)
    ensures 0 * a == 0
  {}

  lemma TimesTen(a: int, b: int)
    ensures a * (10 * b) == 10 * (a * b)
  {}

  lemma PowZero(b: nat)
    ensures Pow(b, 0) == 1
  {}

  lemma PowNext(b: nat, k: nat)
    ensures Pow(b, k + 1) == b * Pow(b, k)
  {}

  lemma UpIs(b: nat, k: int)
    ensures k >= 0 ==> Up(b, k) == Pow(b, k)
    ensures k <= 0 ==> Up(b, k) == 1
  {
    PowZero(b);
  }

  lemma MulStrict(a: int, b: int, c: int)
    requires a < b && 0 < c
    ensures a * c < b * c
  {}

  lemma MulCancel(a: int, b: int, c: int)
    requires a * c <= b * c && 0 < c
    ensures a <= b
  {
    if b < a { MulStrict(b, a, c); }
  }

  lemma MulCancelStrict(a: int, b: int, c: int)
    requires a * c < b * c && 0 < c
    ensures a < b
  {
    if b <= a { MulMono(b, a, c); }
  }

  lemma QuotientRemainder(a: nat, d: nat)
    requires d > 0
    ensures a == a / d * d + a % d && a % d < d
  {}

  lemma DivModUnique(a: nat, d: nat, q: nat, r: nat)
    requires d > 0 && a == q * d + r && r < d
    ensures a / d == q && a % d == r
  {
    var q', r' := a / d, a % d;
    assert a == q' * d + r';
    if q' < q { MulMono(q' + 1, q, d); }
    if q < q' { MulMono(q + 1, q', d); }
  }

  lemma DivModOf(a: nat, d: nat, q: nat, r: nat)
    requires d > 0 && a == r + d * q && r < d
    ensures a / d == q && a % d == r
  {
    Commute(d, q);
    DivModUnique(a, d, q, r);
  }

  // Dividing by b and then by c splits a as one division by b * c would.
  lemma DivTwice(a: nat, b: nat, c: nat, q2: nat, r2: nat, r: nat)
    requires a == (q2 * c + r2) * b + r && r < b && r2 < c
    ensures b * c > 0
    ensures a / (b * c) == q2
    ensures (r == 0 && r2 == 0) <==> a % (b * c) == 0
  {
    MulStrict(0, b, c);
    MulMono(r2 + 1, c, b);
    var rest := r2 * b + r;
    assert (q2 * c + r2) * b == q2 * (b * c) + r2 * b by {
      assert (q2 * c) * b == q2 * (b * c);
    }
    assert rest < b * c by {
      assert (r2 + 1) * b == r2 * b + b;
    }
    DivModUnique(a, b * c, q2, rest);
    if r2 > 0 { MulMono(1, r2, b); }
  }

  lemma DivDiv(a: nat, b: nat, c: nat)
    requires b > 0 && c > 0
    ensures b * c > 0
    ensures a / b / c == a / (b * c)
    ensures (a % b == 0 && a / b % c == 0) <==> a % (b * c) == 0
  {
    DivTwice(a, b, c, a / b / c, a / b % c, a % b);
  }

  lemma {:induction false} PowAdd(b: nat, m: nat, n: nat)
    ensures Pow(b, m + n) == Pow(b, m) * Pow(b, n)
  {
    if m > 0 {
      PowAdd(b, m - 1, n);
      Assoc(b, Pow(b, m - 1), Pow(b, n));
    }
  }

  lemma {:induction false} PowBase(a: nat, b: nat, e: nat)
    ensures Pow(a * b, e) == Pow(a, e) * Pow(b, e)
  {
    if e > 0 {
      PowBase(a, b, e - 1);
      FourWay(a, b, Pow(a, e - 1), Pow(b, e - 1));
    }
  }

  lemma FourWay(a: int, b: int, x: int, y: int)
    ensures (a * b) * (x * y) == (a * x) * (b * y)
  {
    Assoc(a, b, x * y);
    Assoc(a, x, b * y);
    Assoc(b, x, y);
    Assoc(x, b, y);
  }

  lemma {:induction false} PowPow(b: nat, m: nat, n: nat)
    ensures Pow(Pow(b, m), n) == Pow(b, m * n)
  {
    if n > 0 {
      PowPow(b, m, n - 1);
      PowAdd(b, m, m * (n - 1));
      assert m + m * (n - 1) == m * n;
    }
  }

  lemma {:induction false} PowMono(b: nat, m: nat, n: nat)
    requires b > 0 && m <= n
    ensures Pow(b, m) <= Pow(b, n)
  {
    PowAdd(b, m, n - m);
    MulMono(1, Pow(b, n - m), Pow(b, m));
  }

  lemma {:induction false} PowStrict(b: nat, m: nat, n: nat)
    requires b > 1 && m < n
    ensures Pow(b, m) < Pow(b, n)
  {
    PowMono(b, m, n - 1);
    MulMono(2, b, Pow(b, n - 1));
  }

  lemma {:induction false} PowBaseMono(a: nat, b: nat, e: nat)
    requires a <= b
    ensures Pow(a, e) <= Pow(b, e)
  {
    if e > 0 {
      PowBaseMono(a, b, e - 1);
      MulMono(a, b, Pow(a, e - 1));
      MulMono(Pow(a, e - 1), Pow(b, e - 1), b);
    }
  }

  // Comparing k-th powers compares the bases.
  lemma PowRootMono(a: nat, b: nat, e: nat)
    requires e > 0 && Pow(a, e) <= Pow(b, e)
    ensures a <= b
  {
    if b < a {
      PowBaseMono(b, a, e - 1);
      MulMono(Pow(b, e - 1), Pow(a, e - 1), b);
      MulStrict(b, a, Pow(a, e - 1));
    }
  }

  lemma TwoTo32()
    ensures Pow(2, 32) == 0x1_0000_0000
  {
    PowAdd(2, 8, 8);
    PowAdd(2, 16, 16);
    assert Pow(2, 8) == 256;
  }

  lemma TwoTo64()
    ensures Pow(2, 64) == 0x1_0000_0000_0000_0000
  {
    TwoTo32();
    PowAdd(2, 32, 32);
  }

  lemma ModBelow(v: nat, p: nat)
    requires v < p
    ensures v % p == v && v / p == 0
  {}

  // One chunk of a product taken in pieces is no larger than the whole.
  lemma PartialProduct(v: nat, a: nat, b: nat)
    requires b > 0
    ensures v * (a * b) == (v * a) * b
    ensures v * a <= v * (a * b)
  {
    Assoc(v, a, b);
    MulMono(1, b, v * a);
    Commute(b, v * a);
  }

  lemma Ten(e: nat)
    ensures Pow(10, e) == Pow(2, e) * Pow(5, e)
  {
    PowBase(2, 5, e);
  }
}
