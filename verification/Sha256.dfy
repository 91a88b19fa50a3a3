/**
 SHA-256 (FIPS 180-4): the padded message and its block fold as the standard defines them, and the
 incremental context that buffers a message arriving in pieces.
 */
module Sha256 {
  import opened Powers

  type Byte = bv8
  type Word = bv32

  // Section 4.2.2.
  function ConstantNumber(t: int): (r: int)
    ensures 0 <= r < 0x1_0000_0000
  {
    match t
    case 0 => 0x428a2f98 case 1 => 0x71374491 case 2 => 0xb5c0fbcf case 3 => 0xe9b5dba5
    case 4 => 0x3956c25b case 5 => 0x59f111f1 case 6 => 0x923f82a4 case 7 => 0xab1c5ed5
    case 8 => 0xd807aa98 case 9 => 0x12835b01 case 10 => 0x243185be case 11 => 0x550c7dc3
    case 12 => 0x72be5d74 case 13 => 0x80deb1fe case 14 => 0x9bdc06a7 case 15 => 0xc19bf174
    case 16 => 0xe49b69c1 case 17 => 0xefbe4786 case 18 => 0x0fc19dc6 case 19 => 0x240ca1cc
    case 20 => 0x2de92c6f case 21 => 0x4a7484aa case 22 => 0x5cb0a9dc case 23 => 0x76f988da
    case 24 => 0x983e5152 case 25 => 0xa831c66d case 26 => 0xb00327c8 case 27 => 0xbf597fc7
    case 28 => 0xc6e00bf3 case 29 => 0xd5a79147 case 30 => 0x06ca6351 case 31 => 0x14292967
    case 32 => 0x27b70a85 case 33 => 0x2e1b2138 case 34 => 0x4d2c6dfc case 35 => 0x53380d13
    case 36 => 0x650a7354 case 37 => 0x766a0abb case 38 => 0x81c2c92e case 39 => 0x92722c85
    case 40 => 0xa2bfe8a1 case 41 => 0xa81a664b case 42 => 0xc24b8b70 case 43 => 0xc76c51a3
    case 44 => 0xd192e819 case 45 => 0xd6990624 case 46 => 0xf40e3585 case 47 => 0x106aa070
    case 48 => 0x19a4c116 case 49 => 0x1e376c08 case 50 => 0x2748774c case 51 => 0x34b0bcb5
    case 52 => 0x391c0cb3 case 53 => 0x4ed8aa4a case 54 => 0x5b9cca4f case 55 => 0x682e6ff3
    case 56 => 0x748f82ee case 57 => 0x78a5636f case 58 => 0x84c87814 case 59 => 0x8cc70208
    case 60 => 0x90befffa case 61 => 0xa4506ceb case 62 => 0xbef9a3f7 case 63 => 0xc67178f2
    case _ => 0
  }

  function RoundConstant(t: nat): Word
    requires t < 64
  {
    ConstantNumber(t) as Word
  }

  // Section 5.3.3.
  function InitialNumber(i: int): (r: int)
    ensures 0 <= r < 0x1_0000_0000
  {
    match i
    case 0 => 0x6a09e667 case 1 => 0xbb67ae85 case 2 => 0x3c6ef372 case 3 => 0xa54ff53a
    case 4 => 0x510e527f case 5 => 0x9b05688c case 6 => 0x1f83d9ab case 7 => 0x5be0cd19
    case _ => 0
  }

  function InitialState(): (r: seq<Word>)
    ensures |r| == 8
  {
    seq(8, i => InitialNumber(i) as Word)
  }

  // ── Section 4.1.2: the functions ────────────────────────────────

  // Addition modulo 2^32.
  function Plus(x: Word, y: Word): Word {
    x + y
  }

  function Rotr(x: Word, n: Word): Word
    requires 0 < n < 32
  {
    (x >> n) | (x << (32 - n))
  }

  function Ch(x: Word, y: Word, z: Word): Word {
    (x & y) ^ (!x & z)
  }

  function Maj(x: Word, y: Word, z: Word): Word {
    (x & y) ^ (x & z) ^ (y & z)
  }

  function BigSigma0(x: Word): Word {
    Rotr(x, 2) ^ Rotr(x, 13) ^ Rotr(x, 22)
  }

  function BigSigma1(x: Word): Word {
    Rotr(x, 6) ^ Rotr(x, 11) ^ Rotr(x, 25)
  }

  function SmallSigma0(x: Word): Word {
    Rotr(x, 7) ^ Rotr(x, 18) ^ (x >> 3)
  }

  function SmallSigma1(x: Word): Word {
    Rotr(x, 17) ^ Rotr(x, 19) ^ (x >> 10)
  }

  /** Choose takes each bit from y where x has a one, and from z where it has a zero. */
  lemma Chooses(x: Word, y: Word, z: Word)
    ensures Ch(x, y, z) & x == y & x && Ch(x, y, z) & !x == z & !x
  {}

  /** Majority has a one where at least two of the three have one. */
  lemma Majority(x: Word, y: Word, z: Word)
    ensures Maj(x, y, z) == (x & y) | (y & z) | (z & x)
  {}

  /** A rotation by one halves a word and puts the remainder on top. */
  lemma RotatesOnce(x: Word)
    ensures Rotr(x, 1) == (x / 2) | (x * 0x8000_0000)
  {}

  /** A rotation by one more place is another rotation by one. */
  lemma RotatesOnceMore(x: Word, n: Word)
    requires 0 < n < 31
    ensures Rotr(x, n + 1) == Rotr(Rotr(x, n), 1)
  {}

  // The first 64 primes.
  function Prime(t: int): int {
    match t
    case 0 => 2 case 1 => 3 case 2 => 5 case 3 => 7 case 4 => 11 case 5 => 13 case 6 => 17 case 7 => 19
    case 8 => 23 case 9 => 29 case 10 => 31 case 11 => 37 case 12 => 41 case 13 => 43 case 14 => 47 case 15 => 53
    case 16 => 59 case 17 => 61 case 18 => 67 case 19 => 71 case 20 => 73 case 21 => 79 case 22 => 83 case 23 => 89
    case 24 => 97 case 25 => 101 case 26 => 103 case 27 => 107 case 28 => 109 case 29 => 113 case 30 => 127 case 31 => 131
    case 32 => 137 case 33 => 139 case 34 => 149 case 35 => 151 case 36 => 157 case 37 => 163 case 38 => 167 case 39 => 173
    case 40 => 179 case 41 => 181 case 42 => 191 case 43 => 193 case 44 => 197 case 45 => 199 case 46 => 211 case 47 => 223
    case 48 => 227 case 49 => 229 case 50 => 233 case 51 => 239 case 52 => 241 case 53 => 251 case 54 => 257 case 55 => 263
    case 56 => 269 case 57 => 271 case 58 => 277 case 59 => 281 case 60 => 283 case 61 => 293 case 62 => 307 case 63 => 311
    case _ => 0
  }

  // The whole part of the cube root of a number below 343, and of the square root of one below 25.
  function CubeRoot(p: int): int {
    if p < 8 then 1 else if p < 27 then 2 else if p < 64 then 3 else if p < 125 then 4 else if p < 216 then 5 else 6
  }

  function SquareRoot(p: int): int {
    if p < 4 then 1 else if p < 9 then 2 else if p < 16 then 3 else 4
  }

  // word is the first 32 bits of the fraction of the cube root of p.
  predicate CubeRootBits(p: int, word: int) {
    var x := CubeRoot(p) * 0x1_0000_0000 + word;
    x * x * x <= p * 0x1_0000_0000_0000_0000_0000_0000 < (x + 1) * (x + 1) * (x + 1)
  }

  predicate SquareRootBits(p: int, word: int) {
    var x := SquareRoot(p) * 0x1_0000_0000 + word;
    x * x <= p * 0x1_0000_0000_0000_0000 < (x + 1) * (x + 1)
  }

  lemma Cubes0()
    ensures CubeRootBits(2, 0x428a2f98) && CubeRootBits(3, 0x71374491) && CubeRootBits(5, 0xb5c0fbcf) && CubeRootBits(7, 0xe9b5dba5)
    ensures CubeRootBits(11, 0x3956c25b) && CubeRootBits(13, 0x59f111f1) && CubeRootBits(17, 0x923f82a4) && CubeRootBits(19, 0xab1c5ed5)
  {}

  lemma Cubes8()
    ensures CubeRootBits(23, 0xd807aa98) && CubeRootBits(29, 0x12835b01) && CubeRootBits(31, 0x243185be) && CubeRootBits(37, 0x550c7dc3)
    ensures CubeRootBits(41, 0x72be5d74) && CubeRootBits(43, 0x80deb1fe) && CubeRootBits(47, 0x9bdc06a7) && CubeRootBits(53, 0xc19bf174)
  {}

  lemma Cubes16()
    ensures CubeRootBits(59, 0xe49b69c1) && CubeRootBits(61, 0xefbe4786) && CubeRootBits(67, 0x0fc19dc6) && CubeRootBits(71, 0x240ca1cc)
    ensures CubeRootBits(73, 0x2de92c6f) && CubeRootBits(79, 0x4a7484aa) && CubeRootBits(83, 0x5cb0a9dc) && CubeRootBits(89, 0x76f988da)
  {}

  lemma Cubes24()
    ensures CubeRootBits(97, 0x983e5152) && CubeRootBits(101, 0xa831c66d) && CubeRootBits(103, 0xb00327c8) && CubeRootBits(107, 0xbf597fc7)
    ensures CubeRootBits(109, 0xc6e00bf3) && CubeRootBits(113, 0xd5a79147) && CubeRootBits(127, 0x06ca6351) && CubeRootBits(131, 0x14292967)
  {}

  lemma Cubes32()
    ensures CubeRootBits(137, 0x27b70a85) && CubeRootBits(139, 0x2e1b2138) && CubeRootBits(149, 0x4d2c6dfc) && CubeRootBits(151, 0x53380d13)
    ensures CubeRootBits(157, 0x650a7354) && CubeRootBits(163, 0x766a0abb) && CubeRootBits(167, 0x81c2c92e) && CubeRootBits(173, 0x92722c85)
  {}

  lemma Cubes40()
    ensures CubeRootBits(179, 0xa2bfe8a1) && CubeRootBits(181, 0xa81a664b) && CubeRootBits(191, 0xc24b8b70) && CubeRootBits(193, 0xc76c51a3)
    ensures CubeRootBits(197, 0xd192e819) && CubeRootBits(199, 0xd6990624) && CubeRootBits(211, 0xf40e3585) && CubeRootBits(223, 0x106aa070)
  {}

  lemma Cubes48()
    ensures CubeRootBits(227, 0x19a4c116) && CubeRootBits(229, 0x1e376c08) && CubeRootBits(233, 0x2748774c) && CubeRootBits(239, 0x34b0bcb5)
    ensures CubeRootBits(241, 0x391c0cb3) && CubeRootBits(251, 0x4ed8aa4a) && CubeRootBits(257, 0x5b9cca4f) && CubeRootBits(263, 0x682e6ff3)
  {}

  lemma Cubes56()
    ensures CubeRootBits(269, 0x748f82ee) && CubeRootBits(271, 0x78a5636f) && CubeRootBits(277, 0x84c87814) && CubeRootBits(281, 0x8cc70208)
    ensures CubeRootBits(283, 0x90befffa) && CubeRootBits(293, 0xa4506ceb) && CubeRootBits(307, 0xbef9a3f7) && CubeRootBits(311, 0xc67178f2)
  {}

  /** Each round constant is the first 32 bits of the fraction of the cube root of a prime. */
  lemma ConstantsAreCubeRoots(t: int)
    requires 0 <= t < 64
    ensures CubeRootBits(Prime(t), ConstantNumber(t))
  {
    hide CubeRootBits;
    Cubes0();
    Cubes8();
    Cubes16();
    Cubes24();
    Cubes32();
    Cubes40();
    Cubes48();
    Cubes56();
  }

  /** Each word of the initial state is the first 32 bits of the fraction of the square root of a prime. */
  lemma InitialAreSquareRoots(i: int)
    requires 0 <= i < 8
    ensures SquareRootBits(Prime(i), InitialNumber(i))
  {
    match i case 0 => case 1 => case 2 => case 3 => case 4 => case 5 => case 6 => case _ =>
  }

  // ── Section 6.2.2: one block ────────────────────────────────────

  // Word t of a block, most significant byte first.
  function BlockWord(block: seq<Byte>, t: nat): Word
    requires 4 * t + 4 <= |block|
  {
    ((block[4 * t] as Word) << 24) | ((block[4 * t + 1] as Word) << 16) | ((block[4 * t + 2] as Word) << 8) | (block[4 * t + 3] as Word)
  }

  function Schedule(block: seq<Byte>, t: nat): Word
    requires |block| == 64
  {
    if t < 16 then BlockWord(block, t)
    else
      Plus(Plus(Plus(SmallSigma1(Schedule(block, t - 2)), Schedule(block, t - 7)), SmallSigma0(Schedule(block, t - 15))),
           Schedule(block, t - 16))
  }

  lemma ScheduleAt(block: seq<Byte>, t: nat)
    requires |block| == 64
    ensures t < 16 ==> Schedule(block, t) == BlockWord(block, t)
    ensures t >= 16 ==>
      Schedule(block, t) == Plus(Plus(Plus(SmallSigma1(Schedule(block, t - 2)), Schedule(block, t - 7)),
                                      SmallSigma0(Schedule(block, t - 15))), Schedule(block, t - 16))
  {
    hide BlockWord, SmallSigma0, SmallSigma1, Plus;
  }

  datatype Vars = Vars(a: Word, b: Word, c: Word, d: Word, e: Word, f: Word, g: Word, h: Word)

  function Round(v: Vars, k: Word, w: Word): Vars {
    var t1 := Plus(Plus(Plus(Plus(v.h, BigSigma1(v.e)), Ch(v.e, v.f, v.g)), k), w);
    var t2 := Plus(BigSigma0(v.a), Maj(v.a, v.b, v.c));
    Vars(Plus(t1, t2), v.a, v.b, v.c, Plus(v.d, t1), v.e, v.f, v.g)
  }

  function Rounds(state: seq<Word>, block: seq<Byte>, n: nat): Vars
    requires |state| == 8 && |block| == 64 && n <= 64
  {
    if n == 0 then Vars(state[0], state[1], state[2], state[3], state[4], state[5], state[6], state[7])
    else Round(Rounds(state, block, n - 1), RoundConstant(n - 1), Schedule(block, n - 1))
  }

  function Compress(state: seq<Word>, block: seq<Byte>): (r: seq<Word>)
    requires |state| == 8 && |block| == 64
    ensures |r| == 8
  {
    Added(state, Rounds(state, block, 64))
  }

  function Added(state: seq<Word>, v: Vars): (r: seq<Word>)
    requires |state| == 8
    ensures |r| == 8
  {
    [Plus(state[0], v.a), Plus(state[1], v.b), Plus(state[2], v.c), Plus(state[3], v.d),
     Plus(state[4], v.e), Plus(state[5], v.f), Plus(state[6], v.g), Plus(state[7], v.h)]
  }

  // The state after the blocks of a padded message, or of a prefix of it.
  function Fold(blocks: seq<Byte>): (r: seq<Word>)
    requires |blocks| % 64 == 0
    ensures |r| == 8
  {
    if blocks == [] then InitialState() else Compress(Fold(blocks[..|blocks| - 64]), blocks[|blocks| - 64..])
  }

  // The part of a message that fills blocks, and the rest.
  function Whole(message: seq<Byte>): (r: seq<Byte>)
    ensures |r| % 64 == 0
  {
    message[..|message| - |message| % 64]
  }

  function Tail(message: seq<Byte>): (r: seq<Byte>)
    ensures |r| < 64
  {
    message[|message| - |message| % 64..]
  }

  // ── Section 5.1.1: padding ──────────────────────────────────────

  // The zero bytes after the one bit that bring a message of this length to 56 past a block boundary.
  function ZeroBytes(length: nat): (k: nat)
    ensures k < 64 && (length + 1 + k) % 64 == 56
  {
    (119 - length % 64) % 64
  }

  function LowByte(v: nat): Byte {
    (v % 256) as Byte
  }

  function BigEndian(v: nat, bytes: nat): (r: seq<Byte>)
    ensures |r| == bytes
  {
    if bytes == 0 then [] else BigEndian(v / 256, bytes - 1) + [LowByte(v)]
  }

  lemma LengthFits(n: nat)
    requires n % 64 == 56
    ensures (n + 8) % 64 == 0
  {}

  function Padded(message: seq<Byte>): (r: seq<Byte>)
    ensures |r| % 64 == 0
  {
    LengthFits(|message| + 1 + ZeroBytes(|message|));
    message + [0x80] + seq(ZeroBytes(|message|), _ => 0) + BigEndian(8 * |message|, 8)
  }

  function WordBytes(w: Word): seq<Byte> {
    [((w >> 24) & 0xff) as Byte, ((w >> 16) & 0xff) as Byte, ((w >> 8) & 0xff) as Byte, (w & 0xff) as Byte]
  }

  function Digest(state: seq<Word>): seq<Byte> {
    if state == [] then [] else Digest(state[..|state| - 1]) + WordBytes(state[|state| - 1])
  }

  // The number bytes stand for, the first the most significant.
  function Value(bytes: seq<Byte>): nat {
    if bytes == [] then 0 else Value(bytes[..|bytes| - 1]) * 256 + bytes[|bytes| - 1] as nat
  }

  lemma ByteIs(b: nat)
    requires b < 256
    ensures (b as Byte) as nat == b
  {}

  lemma LowByteIs(v: nat)
    ensures LowByte(v) as nat == v % 256
  {
    ByteIs(v % 256);
  }

  lemma {:induction false} BigEndianValue(v: nat, bytes: nat)
    ensures Value(BigEndian(v, bytes)) == v % Pow(256, bytes)
  {
    if bytes > 0 {
      BigEndianValue(v / 256, bytes - 1);
      LowByteIs(v);
      var r := BigEndian(v, bytes);
      assert r[..|r| - 1] == BigEndian(v / 256, bytes - 1);
      SplitModulo(v, Pow(256, bytes - 1));
    }
  }

  lemma SplitModulo(v: nat, p: nat)
    requires p > 0
    ensures 256 * p > 0 && v / 256 % p * 256 + v % 256 == v % (256 * p)
  {
    var q, low := v / 256, v % 256;
    var h, m := q / p, q % p;
    QuotientRemainder(v, 256);
    QuotientRemainder(q, p);
    MulMono(m + 1, p, 256);
    Distribute(256, h * p, m);
    Assoc(h, p, 256);
    Commute(p, 256);
    DivModUnique(v, 256 * p, h, m * 256 + low);
  }

  /**
   The padded message is a whole number of blocks: the message, a one bit, the fewest zeros that make it
   so, and the message's length in bits, most significant byte first.
   */
  lemma PaddedShape(message: seq<Byte>)
    requires 8 * |message| < Pow(256, 8)
    ensures var p, n := Padded(message), |message|;
            && |p| % 64 == 0 && |p| >= n + 9 && p[..n] == message && p[n] == 0x80
            && (forall k :: n < k < |p| - 8 ==> p[k] == 0) && Value(p[|p| - 8..]) == 8 * n
    ensures forall k: nat :: FillsBlock(|message|, k) ==> ZeroBytes(|message|) <= k
  {
    hide Pow, BigEndian;
    var n := |message| + 1 + ZeroBytes(|message|);
    var p := Padded(message);
    assert |p| == n + 8 && p[n..] == BigEndian(8 * |message|, 8);
    BigEndianValue(8 * |message|, 8);
    ModBelow(8 * |message|, Pow(256, 8));
    forall k: nat | FillsBlock(|message|, k) ensures ZeroBytes(|message|) <= k {
      Congruent(|message| + 1, k, ZeroBytes(|message|));
    }
  }

  /** So no two messages are padded alike. */
  lemma PaddingDiffers(a: seq<Byte>, b: seq<Byte>)
    requires 8 * |a| < Pow(256, 8) && 8 * |b| < Pow(256, 8) && Padded(a) == Padded(b)
    ensures a == b
  {
    hide Pow, Padded, Value;
    PaddedShape(a);
    PaddedShape(b);
  }

  /** The digest has a word's bytes most significant first, */
  lemma WordBytesOrder(w: Word)
    ensures var r := WordBytes(w);
            |r| == 4 && r[0] as Word == w / 0x100_0000 && r[1] as Word == w / 0x1_0000 % 0x100
            && r[2] as Word == w / 0x100 % 0x100 && r[3] as Word == w % 0x100
  {}

  /** and so has a block. */
  lemma BlockWordOrder(a: Byte, b: Byte, c: Byte, d: Byte)
    ensures BlockWord([a, b, c, d], 0) == a as Word * 0x100_0000 + b as Word * 0x1_0000 + c as Word * 0x100 + d as Word
  {}

  // The one bit's byte, k zero bytes and the length end on a block boundary.
  predicate FillsBlock(length: nat, k: nat) {
    (length + 1 + k + 8) % 64 == 0
  }

  lemma Congruent(l: nat, k: nat, z: nat)
    requires (l + k + 8) % 64 == 0 && (l + z) % 64 == 56 && z < 64
    ensures z <= k
  {}

  lemma FoldBlock(blocks: seq<Byte>, block: seq<Byte>)
    requires |blocks| % 64 == 0 && |block| == 64
    ensures |blocks + block| % 64 == 0 && Fold(blocks + block) == Compress(Fold(blocks), block)
  {
    hide Compress;
    var m := blocks + block;
    assert m[..|m| - 64] == blocks && m[|m| - 64..] == block;
  }

  // How a message is split is determined.
  lemma SplitAt(message: seq<Byte>, whole: seq<Byte>, tail: seq<Byte>)
    requires message == whole + tail && |whole| % 64 == 0 && |tail| < 64
    ensures Whole(message) == whole && Tail(message) == tail && |message| % 64 == |tail|
  {
    TailEnd(|whole|, |tail|);
  }

  lemma SplitJoins(message: seq<Byte>)
    ensures Whole(message) + Tail(message) == message && |Tail(message)| == |message| % 64
  {}

  lemma TailEnd(n: nat, t: nat)
    requires n % 64 == 0 && t < 64
    ensures (n + t) % 64 == t
  {}

  class Sha256Ctx {
    const state: array<Word>
    var count: nat
    const buffer: array<Byte>
    ghost var message: seq<Byte>

    ghost predicate Valid()
      reads this, state, buffer
    {
      && state.Length == 8 && buffer.Length == 64
      && count == |message| % 0x1_0000_0000_0000_0000
      && state[..] == Fold(Whole(message))
      && buffer[..|Tail(message)|] == Tail(message)
    }

    constructor ()
      ensures Valid() && message == [] && fresh(state) && fresh(buffer)
    {
      state := new Word[8](i requires 0 <= i < 8 => InitialState()[i]);
      buffer := new Byte[64](_ => 0);
      count := 0;
      message := [];
      new;
      assert state[..] == InitialState();
    }

    method Transform(block: seq<Byte>)
      requires state.Length == 8 && |block| == 64
      modifies state
      ensures state[..] == Compress(old(state[..]), block)
    {
      hide Rounds, Schedule;
      var w := Expand(block);
      var v := Mix(block, w);
      Add(v);
    }

    method Add(v: Vars)
      requires state.Length == 8
      modifies state
      ensures state[..] == Added(old(state[..]), v)
    {
      hide Plus;
      ghost var before := state[..];
      state[0] := Plus(state[0], v.a);
      state[1] := Plus(state[1], v.b);
      state[2] := Plus(state[2], v.c);
      state[3] := Plus(state[3], v.d);
      state[4] := Plus(state[4], v.e);
      state[5] := Plus(state[5], v.f);
      state[6] := Plus(state[6], v.g);
      state[7] := Plus(state[7], v.h);
      assert state[..] == Added(before, v);
    }

    // The message schedule of a block.
    method Expand(block: seq<Byte>) returns (w: array<Word>)
      requires |block| == 64
      ensures fresh(w) && w.Length == 64 && forall t :: 0 <= t < 64 ==> w[t] == Schedule(block, t)
    {
      hide Schedule, BlockWord, SmallSigma0, SmallSigma1, Plus;
      w := new Word[64](_ => 0);
      var i := 0;
      while i < 16
        invariant 0 <= i <= 16 && forall t :: 0 <= t < i ==> w[t] == Schedule(block, t)
      {
        ScheduleAt(block, i);
        w[i] := BlockWord(block, i);
        i := i + 1;
      }
      while i < 64
        invariant 16 <= i <= 64 && forall t :: 0 <= t < i ==> w[t] == Schedule(block, t)
      {
        ScheduleAt(block, i);
        w[i] := Plus(Plus(Plus(SmallSigma1(w[i - 2]), w[i - 7]), SmallSigma0(w[i - 15])), w[i - 16]);
        i := i + 1;
      }
    }

    method Mix(block: seq<Byte>, w: array<Word>) returns (v: Vars)
      requires state.Length == 8 && |block| == 64 && w.Length == 64 && forall t :: 0 <= t < 64 ==> w[t] == Schedule(block, t)
      ensures v == Rounds(state[..], block, 64)
    {
      hide Schedule, BigSigma0, BigSigma1, Ch, Maj, Plus, RoundConstant;
      var a, b, c, d := state[0], state[1], state[2], state[3];
      var e, f, g, h := state[4], state[5], state[6], state[7];
      var i := 0;
      while i < 64
        invariant 0 <= i <= 64 && Vars(a, b, c, d, e, f, g, h) == Rounds(state[..], block, i)
      {
        var t1 := Plus(Plus(Plus(Plus(h, BigSigma1(e)), Ch(e, f, g)), RoundConstant(i)), w[i]);
        var t2 := Plus(BigSigma0(a), Maj(a, b, c));
        h := g;
        g := f;
        f := e;
        e := Plus(d, t1);
        d := c;
        c := b;
        b := a;
        a := Plus(t1, t2);
        i := i + 1;
      }
      v := Vars(a, b, c, d, e, f, g, h);
    }

    // MemCopy into the buffer.
    method Buffer(index: nat, data: seq<Byte>)
      requires index + |data| <= buffer.Length
      modifies buffer
      ensures buffer[..] == old(buffer[..index]) + data + old(buffer[index + |data|..])
    {
      var i := 0;
      while i < |data|
        invariant 0 <= i <= |data|
        invariant buffer[..] == old(buffer[..index]) + data[..i] + old(buffer[index + i..])
      {
        buffer[index + i] := data[i];
        i := i + 1;
      }
    }

    // Any number of bytes; what does not fill a block waits in the buffer.
    method Update(data: seq<Byte>)
      requires Valid()
      modifies this`count, this`message, state, buffer
      ensures Valid() && message == old(message) + data
    {
      hide Compress, Fold, Whole, Tail;
      ghost var whole, held := Whole(message), Tail(message);
      SplitJoins(message);
      CountIndex(|message|, |data|);
      var index := count % 64;
      count := (count + |data|) % 0x1_0000_0000_0000_0000;
      message := message + data;
      var i := 0;
      if index != 0 {
        var part := 64 - index;
        if |data| >= part {
          Buffer(index, data[..part]);
          assert buffer[..] == held + data[..part];
          Transform(buffer[..]);
          FoldBlock(whole, held + data[..part]);
          whole, held := whole + (held + data[..part]), [];
          i := part;
        } else {
          Buffer(index, data);
          assert buffer[..index + |data|] == held + data;
          assert message == whole + (held + data);
          SplitAt(message, whole, held + data);
          return;
        }
      }
      assert message == whole + data[i..];
      i, whole := Blocks(data, i, whole);
      if i < |data| {
        Buffer(0, data[i..]);
      }
      assert buffer[..|data| - i] == data[i..];
      SplitAt(message, whole, data[i..]);
    }

    // Whole blocks straight from the data.
    method Blocks(data: seq<Byte>, from: nat, ghost whole0: seq<Byte>) returns (i: nat, ghost whole: seq<Byte>)
      requires state.Length == 8 && from <= |data| && |whole0| % 64 == 0 && state[..] == Fold(whole0)
      modifies state
      ensures from <= i <= |data| < i + 64 && |whole| % 64 == 0 && state[..] == Fold(whole)
      ensures whole + data[i..] == whole0 + data[from..]
    {
      hide Compress, Fold;
      i, whole := from, whole0;
      while i + 64 <= |data|
        invariant from <= i <= |data| && |whole| % 64 == 0 && state[..] == Fold(whole)
        invariant whole + data[i..] == whole0 + data[from..]
      {
        Transform(data[i..i + 64]);
        FoldBlock(whole, data[i..i + 64]);
        assert data[i..] == data[i..i + 64] + data[i + 64..];
        whole := whole + data[i..i + 64];
        i := i + 64;
      }
    }

    // Pads the message and returns its digest.
    method Finalize() returns (hash: seq<Byte>)
      requires Valid() && |message| < 0x2000_0000_0000_0000
      modifies this`count, this`message, state, buffer
      ensures hash == Digest(Fold(Padded(old(message))))
    {
      hide Compress, Fold, BigEndian, Whole, Tail, Digest;
      ghost var text := message;
      CountIndex(|message|, 0);
      WholeCount(|message|);
      var bits := count * 8 % 0x1_0000_0000_0000_0000;
      var index := count % 64;
      var pad := if index < 56 then 56 - index else 120 - index;
      PadLength(|text|, index, pad);
      var padding: seq<Byte> := [0x80] + seq(127, _ => 0);
      Update(padding[..pad]);
      assert padding[..pad] == [0x80] + seq(ZeroBytes(|text|), _ => 0);
      var lengthBytes := BigEndianBytes(bits);
      Update(lengthBytes);
      assert message == Padded(text);
      SplitAt(message, Padded(text), []);
      hash := Output();
    }

    // Byte i of the length is its bits from 56 - 8 i up.
    static method BigEndianBytes(bits: nat) returns (r: seq<Byte>)
      requires bits < 0x1_0000_0000_0000_0000
      ensures r == BigEndian(bits, 8)
    {
      hide LowByte, BigEndian, Shift;
      r := [];
      var i := 0;
      NoShift(bits);
      while i < 8
        invariant 0 <= i <= 8 && r == BigEndian(Shift(bits, 8 - i), i)
      {
        NextByte(bits, i);
        r := r + [LowByte(Shift(bits, 7 - i))];
        i := i + 1;
      }
    }

    method Output() returns (hash: seq<Byte>)
      requires state.Length == 8
      ensures hash == Digest(state[..])
    {
      hide WordBytes;
      hash := [];
      var i := 0;
      while i < 8
        invariant 0 <= i <= 8 && hash == Digest(state[..i])
      {
        assert state[..i + 1][..i] == state[..i];
        hash := hash + WordBytes(state[i]);
        i := i + 1;
      }
      assert state[..8] == state[..];
    }
  }

  lemma CountIndex(length: nat, more: nat)
    ensures length % 0x1_0000_0000_0000_0000 % 64 == length % 64
    ensures (length % 0x1_0000_0000_0000_0000 + more) % 0x1_0000_0000_0000_0000 == (length + more) % 0x1_0000_0000_0000_0000
  {
    var m := 0x1_0000_0000_0000_0000;
    var q, r := length / m, length % m;
    Shifted(r, 64, q * 0x400_0000_0000_0000);
    Shifted(r + more, m, q);
  }

  lemma Shifted(x: nat, m: nat, q: nat)
    requires m > 0
    ensures (x + q * m) % m == x % m
  {
    QuotientRemainder(x, m);
    Commute(x / m, m);
    Commute(q, m);
    Distribute(m, q, x / m);
    DivModOf(x + q * m, m, q + x / m, x % m);
  }

  // Short of 2^61 bytes the count and its bits are exact.
  lemma WholeCount(length: nat)
    requires length < 0x2000_0000_0000_0000
    ensures length % 0x1_0000_0000_0000_0000 * 8 % 0x1_0000_0000_0000_0000 == 8 * length
  {}

  lemma PadLength(length: nat, index: nat, pad: nat)
    requires index == length % 64 && pad == if index < 56 then 56 - index else 120 - index
    ensures pad == 1 + ZeroBytes(length) && pad <= 64
  {}

  // bits >> 8 k.
  function Shift(bits: nat, k: nat): nat {
    bits / Pow(256, k)
  }

  lemma ShiftMore(bits: nat, k: nat)
    ensures Shift(bits, k) / 256 == Shift(bits, k + 1)
  {
    PowNext(256, k);
    Commute(256, Pow(256, k));
    hide Pow;
    DivDiv(bits, Pow(256, k), 256);
  }

  lemma NoShift(bits: nat)
    ensures BigEndian(Shift(bits, 8), 0) == [] && Shift(bits, 0) == bits
  {}

  lemma NextByte(bits: nat, i: nat)
    requires i < 8
    ensures BigEndian(Shift(bits, 7 - i), i + 1) == BigEndian(Shift(bits, 8 - i), i) + [LowByte(Shift(bits, 7 - i))]
  {
    hide Shift, LowByte;
    ShiftMore(bits, 7 - i);
  }

  /** A message hashes the same however it was split into updates. */
  method HashPieces(pieces: seq<seq<Byte>>) returns (hash: seq<Byte>)
    requires |Joined(pieces)| < 0x2000_0000_0000_0000
    ensures hash == Digest(Fold(Padded(Joined(pieces))))
  {
    hide Fold, Digest, Padded;
    var ctx := new Sha256Ctx();
    var i := 0;
    while i < |pieces|
      invariant 0 <= i <= |pieces| && ctx.Valid() && ctx.message == Joined(pieces[..i])
      invariant fresh(ctx) && fresh(ctx.state) && fresh(ctx.buffer)
    {
      assert pieces[..i + 1][..i] == pieces[..i];
      ctx.Update(pieces[i]);
      i := i + 1;
    }
    assert pieces[..|pieces|] == pieces;
    hash := ctx.Finalize();
  }

  function Joined(pieces: seq<seq<Byte>>): seq<Byte> {
    if pieces == [] then [] else Joined(pieces[..|pieces| - 1]) + pieces[|pieces| - 1]
  }
}
