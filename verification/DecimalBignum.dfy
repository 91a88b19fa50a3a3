/**
 The fixed-capacity big integer behind both directions of the float text conversion.

 Limbs change in place; Value() is the natural number they hold.  Every operation is specified
 for every input, the saturated case included: what does not fit in 224 limbs is reduced modulo
 2^7168, and nothing is lost when the exact result is below that.
 */
module DecimalBignum {
  import opened Powers
  import opened Limbs

  const MAX_LIMBS: nat := 224

  ghost function Capacity(): (c: nat)
    ensures c > 0
  {
    Pow(BASE, MAX_LIMBS)
  }

  // What the fixed capacity keeps of v.
  ghost function Kept(v: nat): nat {
    v % Capacity()
  }

  ghost function Shl(v: nat, bits: nat): nat {
    v * Pow(2, bits)
  }

  // The number whose low part is in the used limbs and whose carry has yet to be stored.
  ghost function WithCarry(v: nat, carry: nat, used: nat): nat {
    v + carry * Pow(BASE, used)
  }

  lemma KeptSmall(v: nat)
    requires v < Capacity()
    ensures Kept(v) == v
  {
    ModBelow(v, Capacity());
  }

  // Truncating between two shifts changes nothing that survives the second.
  lemma KeptShl(v: nat, a: nat, b: nat)
    ensures Kept(Shl(Kept(Shl(v, a)), b)) == Kept(Shl(v, a + b))
  {
    PowAdd(2, a, b);
    Assoc(v, Pow(2, a), Pow(2, b));
    ModScale(v * Pow(2, a), Pow(2, b), Capacity());
  }

  lemma ShlGrows(v: nat, a: nat, b: nat)
    ensures v <= Shl(v, a) <= Shl(v, a + b)
    ensures Shl(v, a + b) == Shl(Shl(v, a), b)
  {
    PowAdd(2, a, b);
    Assoc(v, Pow(2, a), Pow(2, b));
    MulMono(1, Pow(2, a), v);
    MulMono(1, Pow(2, b), v * Pow(2, a));
  }

  // The highest set bit of v counted from one; zero for zero.
  ghost predicate IsBitLength(v: nat, length: nat) {
    v < Pow(2, length) && (v > 0 ==> length > 0 && Pow(2, length - 1) <= v)
  }

  ghost function Length(v: nat): (length: nat)
    ensures IsBitLength(v, length) && (v == 0 <==> length == 0)
  {
    if v == 0 then 0 else
      var length := 1 + Length(v / 2);
      assert Pow(2, length) == 2 * Pow(2, length - 1);
      length
  }

  lemma BitLengthUnique(v: nat, a: nat, b: nat)
    requires IsBitLength(v, a) && IsBitLength(v, b) && v > 0
    ensures a == b
  {
    if a < b { PowMono(2, a, b - 1); }
    if b < a { PowMono(2, b, a - 1); }
  }

  // Truncating before a multiplication changes nothing that survives the truncation after it.
  lemma ModScale(v: nat, p: nat, c: nat)
    requires c > 0
    ensures (v % c) * p % c == v * p % c
  {
    QuotientRemainder(v, c);
    ScaleSplit(v, v / c, v % c, c, p);
    ModShift(v % c * p, c, v / c * p);
  }

  lemma ScaleSplit(v: int, q: int, r: int, c: int, p: int)
    requires v == q * c + r
    ensures v * p == r * p + c * (q * p)
  {
    Distribute(p, q * c, r);
    TripleSwap(q, c, p);
  }

  lemma ModShift(a: nat, c: nat, k: nat)
    requires c > 0
    ensures (a + c * k) % c == a % c
  {
    QuotientRemainder(a, c);
    Distribute(c, a / c, k);
    Commute(c, a / c);
    DivModOf(a + c * k, c, a / c + k, a % c);
  }

  class BigUInt {
    const limb: array<u32>
    var used: nat

    ghost predicate Valid()
      reads this, limb
    {
      limb.Length == MAX_LIMBS && used <= MAX_LIMBS
    }

    // No leading zero limb: what makes IsZero and BitLength right.
    ghost predicate Trimmed()
      requires Valid()
      reads this, limb
    {
      used > 0 ==> limb[used - 1] != 0
    }

    ghost function Value(): nat
      requires Valid()
      reads this, limb
    {
      LimbValue(limb[..used])
    }

    constructor ()
      ensures Valid() && Trimmed() && fresh(limb) && Value() == 0
    {
      limb := new u32[224](_ => 0);
      used := 0;
    }

    constructor Copy(other: BigUInt)
      requires other.Valid()
      ensures Valid() && fresh(limb) && Value() == other.Value() && (other.Trimmed() ==> Trimmed())
    {
      limb := new u32[224](i requires other.limb.Length == MAX_LIMBS && 0 <= i < 224 reads other.limb => other.limb[i]);
      used := other.used;
      new;
      assert limb[..used] == other.limb[..other.used];
    }

    lemma ValueBound()
      requires Valid()
      ensures Value() < Capacity() && Value() < Pow(2, 32 * used)
    {
      Bound(limb[..used]);
      PowMono(BASE, used, MAX_LIMBS);
      BaseIsTwo(used);
    }

    lemma TrimmedIff()
      requires Valid()
      ensures Trimmed() <==> (used > 0 ==> Pow(BASE, used - 1) <= Value())
    {
      if used > 0 { TopLimb(limb[..used]); }
    }

    lemma ZeroIff()
      requires Valid() && Trimmed()
      ensures used == 0 <==> Value() == 0
    {
      TrimmedIff();
    }

    method SetU64(value: u64)
      requires Valid()
      modifies this, limb
      ensures Valid() && Trimmed() && Value() == value as nat
    {
      used := 0;
      var rest := value;
      while rest > 0
        invariant Valid() && used <= 2 && limb[..used] == Split(value)[..used]
        invariant rest == if used == 0 then value else if used == 1 then value / 0x1_0000_0000 else 0
        invariant used == 0 || (used == 1 && value > 0) || (used == 2 && value >= 0x1_0000_0000)
        decreases rest
      {
        ghost var done := limb[..used];
        limb[used] := (rest % 0x1_0000_0000) as u32;
        used := used + 1;
        assert limb[..used] == done + [limb[used - 1]];
        rest := rest / 0x1_0000_0000;
      }
      SplitValue(value, used);
    }

    // Multiplies the limbs in use and hands back what carries out of the top one.
    method MulLimbs(multiplier: u32, addend: u32) returns (carry: u64)
      requires Valid()
      modifies limb
      ensures Valid() && carry < 0x1_0000_0000
      ensures WithCarry(Value(), carry as nat, used) == old(Value()) * multiplier as nat + addend as nat
    {
      hide LimbValue, Multiplied, WithCarry, Pow;
      ghost var before := limb[..used];
      MultipliedNone(multiplier, addend);
      carry := addend as u64;
      var i := 0;
      assert limb[..0] == [] && before[..0] == [];
      while i < used
        invariant Valid() && 0 <= i <= used && limb[i..used] == before[i..]
        invariant Multiplied(before[..i], multiplier, addend) == (limb[..i], carry)
      {
        ghost var done := limb[..i];
        assert limb[i] == limb[i..used][0] == before[i];
        MultipliedNext(before, i, multiplier, addend);
        var product := LimbProduct(limb[i], multiplier, carry);
        limb[i] := (product % 0x1_0000_0000) as u32;
        carry := product / 0x1_0000_0000;
        assert limb[..i + 1] == done + [limb[i]];
        i := i + 1;
      }
      assert before[..used] == before;
      MultipliedValue(before, multiplier, addend);
    }

    // Stores a carry above the top limb, when there is room for one more.
    method PushCarry(carry0: u64, ghost exact: nat)
      requires Valid() && carry0 < 0x1_0000_0000
      requires exact == WithCarry(Value(), carry0 as nat, used)
      modifies this, limb
      ensures Valid()
      ensures carry0 == 0 || old(used) == MAX_LIMBS ==> used == old(used) && limb[..] == old(limb[..])
      ensures carry0 > 0 && old(used) < MAX_LIMBS ==> used == old(used) + 1 && Trimmed() && Value() == exact
      ensures Value() == Kept(exact)
    {
      hide Kept, Pow;
      var carry := carry0;
      ghost var done := limb[..used];
      ValueBound();
      CarryDropped(Value(), carry0 as nat, used, exact);
      while carry > 0 && used < 224
        invariant Valid()
        invariant carry == carry0 && used == |done| ==> limb[..] == old(limb[..])
        invariant (carry == carry0 && used == |done|) || (carry == 0 && used == |done| + 1 && limb[..used] == done + [carry0 as u32] && carry0 > 0)
        decreases carry
      {
        limb[used] := (carry % 0x1_0000_0000) as u32;
        used := used + 1;
        carry := carry / 0x1_0000_0000;
      }
      if carry0 > 0 && |done| < MAX_LIMBS {
        Append(done, carry0 as u32);
        ValueBound();
        KeptSmall(Value());
      } else {
        assert limb[..used] == done;
      }
    }

    // Saturates rather than growing past the capacity.
    method MulAddSmall(multiplier: u32, addend: u32)
      requires Valid()
      modifies this, limb
      ensures Valid()
      ensures Value() == Kept(old(Value()) * multiplier as nat + addend as nat)
      ensures old(Trimmed()) && multiplier > 0 && old(Value()) * multiplier as nat + addend as nat < Capacity() ==> Trimmed()
    {
      hide Kept, WithCarry, Pow, LimbValue;
      ghost var exact := Value() * multiplier as nat + addend as nat;
      TrimmedIff();
      if multiplier > 0 { MulMono(1, multiplier as nat, Value()); }
      var carry := MulLimbs(multiplier, addend);
      ValueBound();
      CarryDropped(Value(), carry as nat, used, exact);
      TrimmedIff();
      PushCarry(carry, exact);
    }

    method MulSmall(multiplier: u32)
      requires Valid()
      modifies this, limb
      ensures Valid()
      ensures Value() == Kept(old(Value()) * multiplier as nat)
      ensures old(Trimmed()) && multiplier > 0 && old(Value()) * multiplier as nat < Capacity() ==> Trimmed()
    {
      MulAddSmall(multiplier, 0);
    }

    predicate IsZero()
      reads this
    {
      used == 0
    }

    // Moves every limb up by part bits; returns the bits that leave the top one.
    method ShiftBits(part: nat) returns (carry: u64)
      requires Valid() && 0 < part < 32
      modifies limb
      ensures Valid() && carry < 0x1_0000_0000
      ensures WithCarry(Value(), carry as nat, used) == Shl(old(Value()), part)
    {
      hide LimbValue, Multiplied, WithCarry, Shl, Pow;
      PartFits(part);
      ghost var before := limb[..used];
      ghost var m := Pow(2, part) as u32;
      MultipliedNone(m, 0);
      carry := 0;
      var i := 0;
      assert limb[..0] == [] && before[..0] == [];
      while i < used
        invariant Valid() && 0 <= i <= used && limb[i..used] == before[i..]
        invariant carry as nat < Pow(2, part)
        invariant Multiplied(before[..i], m, 0) == (limb[..i], carry)
      {
        ghost var done := limb[..i];
        assert limb[i] == limb[i..used][0] == before[i];
        MultipliedNext(before, i, m, 0);
        ShiftIsProduct(limb[i], part, carry);
        var next := limb[i] / Pow(2, 32 - part) as u32;
        limb[i] := (ShiftedOut(limb[i], part) + carry as nat) as u32;
        carry := next as u64;
        assert limb[..i + 1] == done + [limb[i]];
        i := i + 1;
      }
      assert before[..used] == before;
      MultipliedValue(before, m, 0);
      ShlIsProduct(LimbValue(before), part);
    }

    // Moves every limb up by whole limbs; the ones past the capacity are lost.
    method ShiftLimbs(whole: nat)
      requires Valid() && whole > 0
      modifies this, limb
      ensures Valid()
      ensures used == Min(old(used) + whole, MAX_LIMBS)
      ensures Value() == Kept(Shl(old(Value()), 32 * whole))
    {
      hide Kept, Shl, Pow, LimbValue;
      ghost var before := limb[..used];
      ValueBound();
      var i := used - 1;
      while i >= 0
        invariant Valid() && used == |before| && -1 <= i < used
        invariant limb[..i + 1] == before[..i + 1]
        invariant forall k :: i < k < used && k + whole < MAX_LIMBS ==> limb[k + whole] == before[k]
      {
        assert limb[i] == limb[..i + 1][i] == before[i];
        if i + whole < 224 {
          limb[i + whole] := limb[i];
        }
        assert limb[..i] == limb[..i + 1][..i];
        i := i - 1;
      }
      i := 0;
      while i < whole && i < 224
        invariant Valid() && used == |before| && 0 <= i
        invariant forall k :: 0 <= k < i && k < MAX_LIMBS ==> limb[k] == 0
        invariant forall k :: 0 <= k < used && k + whole < MAX_LIMBS ==> limb[k + whole] == before[k]
      {
        limb[i] := 0;
        i := i + 1;
      }
      used := used + whole;
      if used > 224 {
        used := 224;
      }
      ghost var zeros: seq<u32> := seq(whole, _ => 0 as u32);
      assert limb[..used] == (zeros + before)[..used];
      MovedUp(zeros, before, used);
    }

    // The part of a shift that is less than a limb.
    method ShiftPart(part: nat)
      requires Valid() && 0 < part < 32
      modifies this, limb
      ensures Valid() && used >= old(used)
      ensures Value() == Kept(Shl(old(Value()), part))
      ensures old(Trimmed()) && Shl(old(Value()), part) < Capacity() ==> Trimmed()
    {
      hide Kept, WithCarry, Shl, Pow, LimbValue;
      ghost var exact := Shl(Value(), part);
      TrimmedIff();
      ShlGrows(Value(), part, 0);
      var carry := ShiftBits(part);
      ValueBound();
      CarryDropped(Value(), carry as nat, used, exact);
      TrimmedIff();
      PushCarry(carry, exact);
    }

    method ShiftLeft(bits: int)
      requires Valid()
      modifies this, limb
      ensures Valid()
      ensures Value() == if bits <= 0 then old(Value()) else Kept(Shl(old(Value()), bits))
      ensures old(Trimmed()) && (bits > 0 ==> Shl(old(Value()), bits) < Capacity()) ==> Trimmed()
    {
      hide Kept, Shl, Pow, LimbValue;
      if IsZero() || bits <= 0 {
        if used == 0 { ZeroIff(); }
        if bits > 0 { ZeroShl(bits); }
        return;
      }
      var whole, part := bits / 32, bits % 32;
      assert part + 32 * whole == bits;
      ghost var v0 := Value();
      ValueBound();
      ShlGrows(v0, part, 32 * whole);
      KeptShl(v0, part, 32 * whole);
      ShlNothing(v0);
      KeptSmall(v0);
      if part > 0 {
        ShiftPart(part);
      }
      ghost var v1, before, trimmed := Value(), used, Trimmed();
      ValueBound();
      TrimmedIff();
      ShlNothing(v1);
      KeptSmall(v1);
      if whole > 0 {
        ShiftLimbs(whole);
      }
      if trimmed && Shl(v0, bits) < Capacity() {
        KeptSmall(Shl(v0, part));
        KeptSmall(Shl(v0, bits));
        ShiftedTop(v1, whole, before);
      }
      TrimmedIff();
    }

    // Drops leading zero limbs.
    method Trim()
      requires Valid()
      modifies this
      ensures Valid() && Trimmed() && Value() == old(Value())
    {
      while used > 0 && limb[used - 1] == 0
        invariant Valid() && Value() == old(Value())
      {
        assert limb[..used] == limb[..used - 1] + [0];
        Append(limb[..used - 1], 0);
        used := used - 1;
      }
    }

    // The division loop, from the top limb down; leading zeros are left in place.
    method DivLimbs(divisor: u32) returns (remainder: u64)
      requires Valid() && divisor > 0
      modifies limb
      ensures Valid() && limb[..used] == Divided(old(limb[..used]), divisor).0
      ensures remainder == Divided(old(limb[..used]), divisor).1
    {
      hide LimbValue, Divided, DivLimb;
      ghost var before, done := limb[..used], [];
      DividedNone(divisor);
      remainder := 0;
      var i := used;
      assert before[used..] == [];
      while i > 0
        invariant Valid() && used == |before| && 0 <= i <= used && remainder < divisor as u64
        invariant |done| == used - i && limb[..used] == before[..i] + done
        invariant Divided(before[i..], divisor).0 == done && Divided(before[i..], divisor).1 == remainder
      {
        i := i - 1;
        assert limb[i] == limb[..used][i] == before[i];
        DividedNext(before, i, divisor);
        var step := DivLimb(remainder, limb[i], divisor);
        limb[i] := step.0;
        remainder := step.1;
        done := [step.0] + done;
        assert limb[..used] == before[..i] + done;
      }
      assert before[0..] == before && before[..0] == [];
    }

    // Divides in place and returns the remainder.
    method DivModSmall(divisor: u32) returns (r: u32)
      requires Valid() && divisor > 0
      modifies this, limb
      ensures Valid() && Trimmed()
      ensures Value() == old(Value()) / divisor as nat
      ensures r as nat == old(Value()) % divisor as nat
    {
      hide LimbValue, Divided;
      DividedIs(limb[..used], divisor);
      var remainder := DivLimbs(divisor);
      Trim();
      r := remainder as u32;
    }

    // Position of the highest set bit, counting from one; zero for a zero value.
    method BitLength() returns (length: nat)
      requires Valid() && Trimmed()
      ensures length == Length(Value())
      ensures used > 0 ==> 32 * (used - 1) < length <= 32 * used
    {
      if used == 0 {
        return 0;
      }
      var top := limb[used - 1];
      var bits := 0;
      var v := top;
      while v > 0
        invariant 0 <= bits <= 32 && v as nat == top as nat / Pow(2, bits)
        invariant bits > 0 ==> Pow(2, bits - 1) <= top as nat
        decreases v
      {
        HalveTop(top, bits);
        bits := bits + 1;
        v := v / 2;
      }
      length := (used - 1) * 32 + bits;
      TopBits(limb[..used], bits);
      ZeroIff();
      BitLengthUnique(Value(), length, Length(Value()));
    }

    predicate BitAt(index: int)
      requires Valid()
      reads this, limb
    {
      if index < 0 || index >= used * 32 then false
      else limb[index / 32] as nat / Pow(2, index % 32) % 2 == 1
    }

    // Reading a bit of a limb reads a bit of the number.
    lemma BitAtIsBit(index: nat)
      requires Valid()
      ensures BitAt(index) <==> Bit(Value(), index)
    {
      if index < used * 32 {
        BitOfLimb(limb[..used], index / 32, index % 32);
      } else {
        ValueBound();
        PowMono(2, 32 * used, index);
        BitsBeyond(Value(), index);
      }
    }

    // Whether any bit strictly below index is set.
    method AnyBitBelow(index: int) returns (any: bool)
      requires Valid()
      ensures any <==> index > 0 && Low(Value(), index) != 0
    {
      hide Low, High, Pow, LimbValue;
      if index <= 0 {
        return false;
      }
      var limit := if index < used * 32 then index else used * 32;
      NoLowBits(Value());
      for i := 0 to limit
        invariant Low(Value(), i) == 0
      {
        BitAtIsBit(i);
        BitStep(Value(), i);
        if BitAt(i) {
          LowGrows(Value(), i + 1, index);
          return true;
        }
      }
      ValueBound();
      if limit < index {
        BitsBeyond(Value(), 32 * used);
        PowMono(2, 32 * used, index);
        BitsBeyond(Value(), index);
      }
      return false;
    }

    // The bits from length - 1 down to lowest, as one number.
    method ReadBits(length: nat, lowest: int) returns (value: u64)
      requires Valid() && Value() < Pow(2, length) && length - 64 <= lowest
      ensures value as nat == High(Value(), Min(Max(lowest, 0), length))
    {
      hide Low, High, Pow, LimbValue;
      ghost var v := Value();
      value := 0;
      var i := length - 1;
      BitsBeyond(v, length);
      PowZero(2);
      while i >= 0 && i >= lowest
        invariant -1 <= i < length && (i == length - 1 || i >= Max(lowest, 0) - 1)
        invariant value as nat == High(v, i + 1) && value as nat < Pow(2, length - 1 - i)
      {
        BitAtIsBit(i);
        BitStep(v, i);
        DoubleBelow(value as nat, length - 1 - i);
        FitsU64(length - i);
        value := value * 2 + (if BitAt(i) then 1 else 0);
        i := i - 1;
      }
    }

    // The count bits below the most significant one, and whether anything below them is set.
    method HighBits(count: nat) returns (value: u64, dropped: bool)
      requires Valid() && Trimmed() && count <= 64
      ensures value as nat == High(Value(), Max(Length(Value()) - count, 0))
      ensures dropped <==> Length(Value()) > count && Low(Value(), Length(Value()) - count) != 0
    {
      hide Low, High, Pow, LimbValue;
      var length := BitLength();
      var lowest := length - count;
      value := ReadBits(length, lowest);
      dropped := false;
      var k := 0;
      NoLowBits(Value());
      while k < lowest
        invariant 0 <= k && (lowest > 0 ==> k <= lowest) && Low(Value(), k) == 0
      {
        BitAtIsBit(k);
        BitStep(Value(), k);
        if BitAt(k) {
          dropped := true;
          LowGrows(Value(), k + 1, lowest);
          break;
        }
        k := k + 1;
      }
    }
  }

  // One 32 by 32 bit product and carry: it fits in 64 bits, and what carries on fits in 32.
  function LimbProduct(x: u32, m: u32, carry: u64): (product: u64)
    requires carry < 0x1_0000_0000
    ensures product as nat == x as nat * m as nat + carry as nat
    ensures product / 0x1_0000_0000 < 0x1_0000_0000
  {
    ProductFits(x as nat, m as nat, carry as nat);
    var product: u64 := x as u64 * m as u64 + carry;
    assert product as nat == x as nat * m as nat + carry as nat;
    product
  }

  // The limbs of s * m + a, and the carry out of the last one.
  ghost function Multiplied(s: seq<u32>, m: u32, a: u32): (r: (seq<u32>, u64))
    ensures |r.0| == |s| && r.1 < 0x1_0000_0000
  {
    if s == [] then ([], a as u64) else
      var r := Multiplied(s[..|s| - 1], m, a);
      var product := LimbProduct(s[|s| - 1], m, r.1);
      (r.0 + [(product % 0x1_0000_0000) as u32], product / 0x1_0000_0000)
  }

  lemma MultipliedNone(m: u32, a: u32)
    ensures Multiplied([], m, a) == ([], a as u64)
  {}

  lemma MultipliedNext(s: seq<u32>, i: nat, m: u32, a: u32)
    requires i < |s|
    ensures var r := Multiplied(s[..i], m, a);
            var product := LimbProduct(s[i], m, r.1);
            Multiplied(s[..i + 1], m, a) == (r.0 + [(product % 0x1_0000_0000) as u32], product / 0x1_0000_0000)
  {
    hide LimbProduct;
    assert s[..i + 1][..i] == s[..i];
  }

  lemma {:induction false} MultipliedValue(s: seq<u32>, m: u32, a: u32)
    ensures var r := Multiplied(s, m, a);
            WithCarry(LimbValue(r.0), r.1 as nat, |s|) == LimbValue(s) * m as nat + a as nat
  {
    if s != [] {
      var s', x := s[..|s| - 1], s[|s| - 1];
      var r := Multiplied(s', m, a);
      MultipliedValue(s', m, a);
      var product := LimbProduct(x, m, r.1);
      assert s == s' + [x];
      MulStep(r.0, s', x, m as nat, a as nat, r.1 as nat, (product % 0x1_0000_0000) as u32, (product / 0x1_0000_0000) as nat);
    }
  }

  // A carry out of the last limb is what reduction modulo the capacity drops.
  lemma CarryDropped(v: nat, carry: nat, used: nat, exact: nat)
    requires used <= MAX_LIMBS && v < Capacity() && exact == WithCarry(v, carry, used)
    ensures carry == 0 ==> v == exact && Kept(exact) == v
    ensures used == MAX_LIMBS ==> Kept(exact) == v
    ensures used == MAX_LIMBS && carry > 0 ==> Capacity() <= exact
  {
    hide Pow;
    KeptSmall(v);
    if used == MAX_LIMBS {
      Commute(Capacity(), carry);
      ModShift(v, Capacity(), carry);
      if carry > 0 { MulMono(1, carry, Capacity()); }
    }
  }

  lemma ProductFits(x: nat, m: nat, c: nat)
    requires x < BASE && m < BASE && c < BASE
    ensures 0 <= x * m <= x * m + c < 0x1_0000_0000_0000_0000
    ensures (x * m + c) / BASE < BASE
  {
    MulMono(x, BASE - 1, m);
    MulMono(0, x, m);
    var p := x * m + c;
    HighHalf(p);
  }

  lemma HighHalf(p: nat)
    requires p < 0x1_0000_0000_0000_0000
    ensures p / BASE < BASE
  {}

  // The two limbs of a 64-bit value.
  ghost function Split(value: u64): seq<u32> {
    [(value % 0x1_0000_0000) as u32, (value / 0x1_0000_0000) as u32]
  }

  lemma SplitValue(value: u64, used: nat)
    requires used <= 2 && (used < 2 ==> value < 0x1_0000_0000) && (used < 1 ==> value == 0)
    ensures LimbValue(Split(value)[..used]) == value as nat
  {
    var s := Split(value);
    assert s == [s[0]] + [s[1]];
    Cons(s[0], [s[1]]);
    assert [s[1]] == [] + [s[1]] && [s[0]] == [] + [s[0]];
    Append([], s[1]);
    Append([], s[0]);
    if used == 1 { assert s[..used] == [s[0]]; }
    if used == 2 { assert s[..used] == s; }
  }

  lemma PartFits(part: nat)
    requires 0 < part < 32
    ensures Pow(2, part) < BASE && Pow(2, 32 - part) < BASE
  {
    TwoTo32();
    PowStrict(2, part, 32);
    PowStrict(2, 32 - part, 32);
  }

  // A 32-bit left shift: the bits that stay in the limb.
  function ShiftedOut(x: u32, part: nat): nat {
    x as nat * Pow(2, part) % 0x1_0000_0000
  }

  // Shifting one limb is multiplying it by a power of two.
  lemma ShiftIsProduct(x: u32, part: nat, carry: u64)
    requires 0 < part < 32 && carry as nat < Pow(2, part) < BASE && Pow(2, 32 - part) < BASE
    ensures ShiftedOut(x, part) + carry as nat < BASE
    ensures var product := LimbProduct(x, Pow(2, part) as u32, carry);
            && (product % 0x1_0000_0000) as nat == ShiftedOut(x, part) + carry as nat
            && product / 0x1_0000_0000 == (x / Pow(2, 32 - part) as u32) as u64
    ensures (x / Pow(2, 32 - part) as u32) as nat < Pow(2, part)
  {
    hide Pow, LimbProduct;
    ShiftParts(x as nat, part, carry as nat);
    var product := LimbProduct(x, Pow(2, part) as u32, carry);
    DivModUnique(product as nat, BASE, x as nat / Pow(2, 32 - part), ShiftedOut(x, part) + carry as nat);
  }

  lemma ShlIsProduct(v: nat, part: nat)
    ensures Shl(v, part) == v * Pow(2, part)
  {}

  lemma MovedUp(zeros: seq<u32>, s: seq<u32>, used: nat)
    requires (forall i :: 0 <= i < |zeros| ==> zeros[i] == 0) && |s| <= MAX_LIMBS
    requires used == Min(|s| + |zeros|, MAX_LIMBS)
    ensures LimbValue((zeros + s)[..used]) == Kept(Shl(LimbValue(s), 32 * |zeros|))
  {
    ZerosBelow(zeros, s);
    TruncatedIsKept(zeros + s, used);
  }

  lemma ZerosBelow(zeros: seq<u32>, s: seq<u32>)
    requires forall i :: 0 <= i < |zeros| ==> zeros[i] == 0
    ensures LimbValue(zeros + s) == Shl(LimbValue(s), 32 * |zeros|)
  {
    BaseIsTwo(|zeros|);
    Zeros(zeros);
    Concat(zeros, s);
    Commute(Pow(BASE, |zeros|), LimbValue(s));
  }

  lemma TruncatedIsKept(s: seq<u32>, used: nat)
    requires used == Min(|s|, MAX_LIMBS)
    ensures LimbValue(s[..used]) == Kept(LimbValue(s))
  {
    if used < MAX_LIMBS {
      assert s[..used] == s;
      Bound(s);
      PowMono(BASE, used, MAX_LIMBS);
      KeptSmall(LimbValue(s));
    } else {
      Truncate(s, used);
    }
  }

  lemma ZeroShl(bits: nat)
    ensures Kept(Shl(0, bits)) == 0
  {
    KeptSmall(0);
  }

  lemma ShlNothing(v: nat)
    ensures Shl(v, 0) == v
  {}

  // When nothing is lost, the top limb stays where its weight puts it.
  lemma ShiftedTop(v: nat, whole: nat, used: nat)
    requires used > 0 && Pow(BASE, used - 1) <= v
    ensures Pow(BASE, Min(used + whole, MAX_LIMBS) - 1) <= Shl(v, 32 * whole)
  {
    BaseIsTwo(whole);
    PowAdd(BASE, used - 1, whole);
    MulMono(Pow(BASE, used - 1), v, Pow(BASE, whole));
    PowMono(BASE, Min(used + whole, MAX_LIMBS) - 1, used + whole - 1);
  }

  // A remainder followed by one more limb still divides to a single limb.
  lemma QuotientFits(r: nat, x: nat, d: nat)
    requires r < d < BASE && x < BASE
    ensures r * BASE + x < 0x1_0000_0000_0000_0000
    ensures (r * BASE + x) / d < BASE
  {
    var q := (r * BASE + x) / d;
    QuotientRemainder(r * BASE + x, d);
    if BASE <= q { MulMono(BASE, q, d); }
  }

  // One step of the division: the running remainder is joined with the next limb down, and
  // the quotient of that by the divisor is a single limb.
  function DivLimb(r: u64, x: u32, d: u32): (step: (u32, u64))
    requires r < d as u64
    ensures step.1 < d as u64
  {
    QuotientFits(r as nat, x as nat, d as nat);
    var current: u64 := r * 0x1_0000_0000 + x as u64;
    assert current as nat == r as nat * BASE + x as nat;
    ((current / d as u64) as u32, current % d as u64)
  }

  lemma DivLimbIs(r: u64, x: u32, d: u32)
    requires r < d as u64
    ensures var step := DivLimb(r, x, d);
            r as nat * BASE + x as nat == step.0 as nat * d as nat + step.1 as nat
  {
    QuotientFits(r as nat, x as nat, d as nat);
    QuotientRemainder(r as nat * BASE + x as nat, d as nat);
  }

  // The limbs of s / d, and the remainder.
  ghost function Divided(s: seq<u32>, d: u32): (r: (seq<u32>, u64))
    requires d > 0
    ensures |r.0| == |s| && r.1 < d as u64
  {
    if s == [] then ([], 0) else
      var r := Divided(s[1..], d);
      var step := DivLimb(r.1, s[0], d);
      ([step.0] + r.0, step.1)
  }

  lemma DividedNone(d: u32)
    requires d > 0
    ensures Divided([], d) == ([], 0)
  {}

  lemma DividedNext(s: seq<u32>, i: nat, d: u32)
    requires i < |s| && d > 0
    ensures var r := Divided(s[i + 1..], d);
            var step := DivLimb(r.1, s[i], d);
            Divided(s[i..], d) == ([step.0] + r.0, step.1)
  {
    hide DivLimb;
    assert s[i..][1..] == s[i + 1..];
  }

  lemma {:induction false} DividedValue(s: seq<u32>, d: u32)
    requires d > 0
    ensures var r := Divided(s, d);
            LimbValue(s) == LimbValue(r.0) * d as nat + r.1 as nat
  {
    if s != [] {
      var r, r' := Divided(s[1..], d), Divided(s, d);
      DividedValue(s[1..], d);
      assert s == [s[0]] + s[1..];
      DivLimbIs(r.1, s[0], d);
      DivStep(r.0, s[1..], s[0], d as nat, r.1 as nat, r'.0[0], r'.1 as nat);
    }
  }

  lemma DividedIs(s: seq<u32>, d: u32)
    requires d > 0
    ensures LimbValue(Divided(s, d).0) == LimbValue(s) / d as nat
    ensures Divided(s, d).1 as nat == LimbValue(s) % d as nat
  {
    hide LimbValue, DivLimb;
    DividedValue(s, d);
    DivModUnique(LimbValue(s), d as nat, LimbValue(Divided(s, d).0), Divided(s, d).1 as nat);
  }

  lemma HalveTop(top: u32, bits: nat)
    requires top as nat / Pow(2, bits) > 0
    ensures bits < 32 && Pow(2, bits) <= top as nat
    ensures top as nat / Pow(2, bits + 1) == top as nat / Pow(2, bits) / 2
  {
    DivDiv(top as nat, Pow(2, bits), 2);
    if top as nat < Pow(2, bits) { ModBelow(top as nat, Pow(2, bits)); }
    if 32 <= bits { TwoTo32(); PowMono(2, 32, bits); }
  }

  // The top limb's bits are the number's top bits.
  lemma TopBits(s: seq<u32>, bits: nat)
    requires s != [] && s[|s| - 1] as nat < Pow(2, bits)
    requires bits > 0 && Pow(2, bits - 1) <= s[|s| - 1] as nat
    ensures IsBitLength(LimbValue(s), (|s| - 1) * 32 + bits)
  {
    var k := |s| - 1;
    Bound(s[..k]);
    BaseIsTwo(k);
    PowAdd(2, 32 * k, bits);
    PowAdd(2, 32 * k, bits - 1);
    TopArith(LimbValue(s[..k]), s[k] as nat, Pow(BASE, k), Pow(2, bits), Pow(2, bits - 1));
  }

  lemma TopArith(low: nat, x: nat, p: nat, hi: nat, lo: nat)
    requires low < p && lo <= x < hi
    ensures p * lo <= low + x * p < p * hi
  {
    MulMono(lo, x, p);
    MulMono(x + 1, hi, p);
    Distribute(p, x, 1);
  }

  lemma FitsU64(k: nat)
    requires k <= 64
    ensures Pow(2, k) <= 0x1_0000_0000_0000_0000
  {
    PowMono(2, k, 64);
    TwoTo64();
  }

  lemma DoubleBelow(v: nat, k: nat)
    requires v < Pow(2, k)
    ensures 2 * v + 1 < Pow(2, k + 1)
  {}
}
