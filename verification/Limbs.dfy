/** Little-endian sequences of 32-bit limbs and the natural numbers they stand for. */
module Limbs {
  import opened Powers

  const BASE: nat := 0x1_0000_0000
  newtype u32 = x: int | 0 <= x < 0x1_0000_0000
  newtype u64 = x: int | 0 <= x < 0x1_0000_0000_0000_0000

  function LimbValue(s: seq<u32>): nat {
    if s == [] then 0 else LimbValue(s[..|s| - 1]) + s[|s| - 1] as nat * Pow(BASE, |s| - 1)
  }

  // v without its lowest i bits, and those bits.
  ghost function High(v: nat, i: nat): nat {
    v / Pow(2, i)
  }

  ghost function Low(v: nat, i: nat): nat {
    v % Pow(2, i)
  }

  // Bit i of v, counting from zero.
  ghost predicate Bit(v: nat, i: nat) {
    High(v, i) % 2 == 1
  }

  lemma Append(s: seq<u32>, x: u32)
    ensures LimbValue(s + [x]) == LimbValue(s) + x as nat * Pow(BASE, |s|)
  {
    assert (s + [x])[..|s|] == s;
  }

  lemma {:induction false} Bound(s: seq<u32>)
    ensures LimbValue(s) < Pow(BASE, |s|)
  {
    if s != [] {
      Bound(s[..|s| - 1]);
      var p := Pow(BASE, |s| - 1);
      MulMono(s[|s| - 1] as nat, BASE - 1, p);
      assert BASE * p == (BASE - 1) * p + p;
    }
  }

  lemma {:induction false} Concat(a: seq<u32>, b: seq<u32>)
    ensures LimbValue(a + b) == LimbValue(a) + Pow(BASE, |a|) * LimbValue(b)
  {
    if b == [] {
      assert a + b == a;
    } else {
      var b', x := b[..|b| - 1], b[|b| - 1];
      assert a + b == (a + b') + [x];
      Concat(a, b');
      Append(a + b', x);
      PowAdd(BASE, |a|, |b'|);
      ConcatArith(Pow(BASE, |a|), LimbValue(b'), x as nat, Pow(BASE, |b'|));
    }
  }

  lemma ConcatArith(p: int, v: int, x: int, q: int)
    ensures p * (v + x * q) == p * v + x * (p * q)
  {
    Distribute(p, v, x * q);
    Assoc(x, p, q);
    Assoc(p, x, q);
    Commute(x, p);
  }

  lemma Cons(x: u32, s: seq<u32>)
    ensures LimbValue([x] + s) == x as nat + BASE * LimbValue(s)
  {
    Concat([x], s);
    assert LimbValue([x]) == x as nat * Pow(BASE, 0);
    assert Pow(BASE, 1) == BASE;
  }

  lemma {:induction false} Zeros(s: seq<u32>)
    requires forall i :: 0 <= i < |s| ==> s[i] == 0
    ensures LimbValue(s) == 0
  {
    if s != [] { Zeros(s[..|s| - 1]); }
  }

  // Dropping high limbs reduces the value modulo the weight of the first limb dropped.
  lemma Truncate(s: seq<u32>, k: nat)
    requires k <= |s|
    ensures LimbValue(s[..k]) == LimbValue(s) % Pow(BASE, k)
  {
    assert s == s[..k] + s[k..];
    Concat(s[..k], s[k..]);
    Bound(s[..k]);
    DivModOf(LimbValue(s), Pow(BASE, k), LimbValue(s[k..]), LimbValue(s[..k]));
  }

  // A number whose top limb is nonzero reaches the weight of that limb, and only such a one does.
  lemma TopLimb(s: seq<u32>)
    requires s != []
    ensures s[|s| - 1] != 0 <==> Pow(BASE, |s| - 1) <= LimbValue(s)
  {
    var x, p := s[|s| - 1] as nat, Pow(BASE, |s| - 1);
    Bound(s[..|s| - 1]);
    if x > 0 { MulMono(1, x, p); }
  }

  // One step of a limb-by-limb multiply: the invariant advances when the low half of the
  // product is stored and the high half is carried.
  lemma MulStep(done: seq<u32>, before: seq<u32>, x: u32, m: nat, a: nat, carry: nat, low: u32, high: nat)
    requires |done| == |before|
    requires LimbValue(done) + carry * Pow(BASE, |done|) == LimbValue(before) * m + a
    requires low as nat + high * BASE == x as nat * m + carry
    ensures LimbValue(done + [low]) + high * Pow(BASE, |done| + 1) == LimbValue(before + [x]) * m + a
  {
    Append(done, low);
    Append(before, x);
    MulStepArith(LimbValue(done), LimbValue(before), Pow(BASE, |done|), x as nat, m, a, carry, low as nat, high,
                 LimbValue(done + [low]), LimbValue(before + [x]), Pow(BASE, |done| + 1));
  }

  lemma MulStepArith(d: int, b: int, p: int, x: int, m: int, a: int, carry: int, low: int, high: int,
                     d': int, b': int, p': int)
    requires d' == d + low * p && b' == b + x * p && p' == BASE * p
    requires d + carry * p == b * m + a
    requires low + high * BASE == x * m + carry
    ensures d' + high * p' == b' * m + a
  {
    Assoc(high, BASE, p);
    Distribute(p, low, high * BASE);
    Distribute(p, x * m, carry);
    Distribute(m, b, x * p);
    TripleSwap(x, m, p);
  }

  lemma TripleSwap(x: int, m: int, p: int)
    ensures p * (x * m) == m * (x * p)
  {
    Assoc(p, x, m);
    Assoc(m, x, p);
  }

  // One step of a limb-by-limb division from the top.
  lemma DivStep(rest: seq<u32>, before: seq<u32>, x: u32, d: nat, r: nat, q: u32, r': nat)
    requires LimbValue(before) == LimbValue(rest) * d + r
    requires r * BASE + x as nat == q as nat * d + r'
    ensures LimbValue([x] + before) == LimbValue([q] + rest) * d + r'
  {
    Cons(x, before);
    Cons(q, rest);
    DivStepArith(LimbValue(rest), LimbValue(before), LimbValue([x] + before), LimbValue([q] + rest),
                 d, r, x as nat, q as nat, r');
  }

  lemma DivStepArith(v: int, w: int, w': int, v': int, d: int, r: int, x: int, q: int, r': int)
    requires w == v * d + r && r * BASE + x == q * d + r'
    requires w' == x + BASE * w && v' == q + BASE * v
    ensures w' == v' * d + r'
  {
    Distribute(BASE, v * d, r);
    Assoc(BASE, v, d);
    Distribute(d, q, BASE * v);
    Commute(d, v');
  }

  // Shifting a limb left by part bits, and the bits that leave it at the top.
  lemma ShiftParts(x: nat, part: nat, carry: nat)
    requires x < BASE && 0 < part < 32 && carry < Pow(2, part)
    ensures (x * Pow(2, part)) % BASE + carry < BASE
    ensures (x * Pow(2, part)) % BASE + carry + (x / Pow(2, 32 - part)) * BASE == x * Pow(2, part) + carry
    ensures x / Pow(2, 32 - part) < Pow(2, part)
  {
    PowAdd(2, part, 32 - part);
    TwoTo32();
    ShiftArith(x, Pow(2, part), Pow(2, 32 - part), carry);
  }

  lemma ShiftArith(x: nat, p: nat, q: nat, carry: nat)
    requires p > 0 && q > 0 && p * q == BASE && x < BASE && carry < p
    ensures (x * p) % BASE + carry < BASE
    ensures (x * p) % BASE + carry + (x / q) * BASE == x * p + carry
    ensures x / q < p
  {
    var h, l := x / q, x % q;
    QuotientRemainder(x, q);
    ShiftSplit(h, l, p, q);
    DivModUnique(x * p, BASE, h, l * p);
    if p <= h { MulMono(p, h, q); }
  }

  lemma ShiftSplit(h: int, l: int, p: int, q: int)
    requires p > 0 && l < q
    ensures (h * q + l) * p == h * (p * q) + l * p
    ensures l * p + p <= p * q
  {
    Distribute(p, h * q, l);
    TripleSwap(h, q, p);
    Assoc(h, p, q);
    Commute(p, h);
    MulMono(l + 1, q, p);
    Distribute(p, l, 1);
  }

  lemma BaseIsTwo(k: nat)
    ensures Pow(BASE, k) == Pow(2, 32 * k)
  {
    TwoTo32();
    PowPow(2, 32, k);
  }

  // A bit of the number is a bit of one limb.
  lemma BitOfLimb(s: seq<u32>, k: nat, j: nat)
    requires k < |s| && j < 32
    ensures Bit(LimbValue(s), 32 * k + j) <==> Bit(s[k] as nat, j)
  {
    var h := LimbValue(s[k + 1..]);
    BaseIsTwo(k);
    LimbQuotient(s, k);
    PowAdd(2, 32 * k, j);
    DivDiv(LimbValue(s), Pow(2, 32 * k), Pow(2, j));
    LowBit(s[k] as nat, h, j);
  }

  lemma LimbQuotient(s: seq<u32>, k: nat)
    requires k < |s|
    ensures LimbValue(s) / Pow(BASE, k) == s[k] as nat + BASE * LimbValue(s[k + 1..])
  {
    var high := [s[k]] + s[k + 1..];
    assert s == s[..k] + high;
    Concat(s[..k], high);
    Bound(s[..k]);
    DivModOf(LimbValue(s), Pow(BASE, k), LimbValue(high), LimbValue(s[..k]));
    Cons(s[k], s[k + 1..]);
  }

  lemma LowBit(x: nat, h: nat, j: nat)
    requires j < 32
    ensures Bit(x + BASE * h, j) <==> Bit(x, j)
  {
    var p, r := Pow(2, j), Pow(2, 31 - j);
    PowAdd(2, j, 32 - j);
    assert Pow(2, 32 - j) == 2 * r;
    TwoTo32();
    LowBitArith(x, h, p, r);
  }

  lemma LowBitArith(x: nat, h: nat, p: nat, r: nat)
    requires p > 0 && p * (2 * r) == BASE
    ensures (x + BASE * h) / p % 2 == x / p % 2
  {
    QuotientRemainder(x, p);
    var q, t := x / p, 2 * r * h;
    Assoc(p, 2 * r, h);
    Distribute(p, q, t);
    DivModUnique(x + BASE * h, p, q + t, x % p);
    Assoc(2, r, h);
    EvenShift(q, r * h);
  }

  lemma EvenShift(q: nat, t: nat)
    ensures (q + 2 * t) % 2 == q % 2
  {}

  // Peeling one bit off the bottom of a quotient, and one off the top of a remainder.
  lemma BitStep(v: nat, i: nat)
    ensures High(v, i) == 2 * High(v, i + 1) + (if Bit(v, i) then 1 else 0)
    ensures Low(v, i + 1) == Low(v, i) + (if Bit(v, i) then Pow(2, i) else 0)
  {
    BitStepArith(v, Pow(2, i));
  }

  lemma BitsBeyond(v: nat, i: nat)
    requires v < Pow(2, i)
    ensures High(v, i) == 0 && Low(v, i) == v && !Bit(v, i)
  {
    DivModOf(v, Pow(2, i), 0, v);
  }

  lemma NoLowBits(v: nat)
    ensures Low(v, 0) == 0 && High(v, 0) == v
  {}

  // A remainder that is nonzero stays nonzero when more bits are kept.
  lemma {:induction false} LowGrows(v: nat, i: nat, k: nat)
    requires i <= k
    ensures Low(v, i) <= Low(v, k)
    decreases k
  {
    if i < k {
      LowGrows(v, i, k - 1);
      BitStep(v, k - 1);
    }
  }

  lemma BitStepArith(v: nat, p: nat)
    requires p > 0
    ensures v / p == 2 * (v / (2 * p)) + v / p % 2
    ensures v % (2 * p) == v % p + v / p % 2 * p
  {
    QuotientRemainder(v, p);
    BitSplit(v, p, v / p, v % p, v / p / 2, v / p % 2);
  }

  lemma BitSplit(v: nat, p: nat, q: nat, r: nat, h: nat, b: nat)
    requires v == q * p + r && r < p && q == 2 * h + b && b < 2
    ensures v / (2 * p) == h && v % (2 * p) == b * p + r
  {
    Distribute(p, 2 * h, b);
    Assoc(2, h, p);
    Assoc(2, p, h);
    Commute(h, p);
    if b == 0 {} else { assert b * p == p; }
    DivModOf(v, 2 * p, h, b * p + r);
  }
}
