/** The reflected IEEE CRC-32 as a 32-bit shift register that is fed one message
    bit at a time, and the algebra of that register over GF(2).  Everything else
    about the CRC is proved against this module. */
module BitSerialCrc {

  const POLY: bv32 := 0xEDB88320

  type Byte = bv8

  /** Addition over GF(2).  Kept as a function so that proofs can hide it. */
  function Xor(a: bv32, b: bv32): bv32 {
    a ^ b
  }

  /** One clock of the register with no input. */
  function BitStep(c: bv32): bv32 {
    if c & 1 == 1 then POLY ^ (c >> 1) else c >> 1
  }

  /** `k` clocks of the register with no input. */
  function Steps(c: bv32, k: nat): bv32 {
    if k == 0 then c else BitStep(Steps(c, k - 1))
  }

  function BitWord(bit: bool): bv32 {
    if bit then 1 else 0
  }

  /** One clock of the register that absorbs a message bit. */
  function FeedBit(c: bv32, bit: bool): bv32 {
    BitStep(Xor(c, BitWord(bit)))
  }

  function FeedBits(c: bv32, bits: seq<bool>): bv32 {
    if bits == [] then c else FeedBit(FeedBits(c, bits[..|bits| - 1]), bits[|bits| - 1])
  }

  /** The low `n` bits of a word, least significant first. */
  function WordBits(w: bv32, n: nat): (bits: seq<bool>)
    ensures |bits| == n
  {
    if n == 0 then [] else [w & 1 == 1] + WordBits(w >> 1, n - 1)
  }

  /** The bits of a byte in the order the register takes them: least significant first. */
  function ByteBits(b: Byte): (bits: seq<bool>)
    ensures |bits| == 8
  {
    WordBits(b as bv32, 8)
  }

  function BitsOf(data: seq<Byte>): (bits: seq<bool>)
    ensures |bits| == 8 * |data|
  {
    if data == [] then [] else BitsOf(data[..|data| - 1]) + ByteBits(data[|data| - 1])
  }

  /** The reference: the register after `data`, started from `seed`. */
  function Serial(seed: bv32, data: seq<Byte>): bv32 {
    FeedBits(seed, BitsOf(data))
  }

  // ----- the register is linear -----

  lemma XorIsExclusiveOr(a: bv32, b: bv32)
    ensures Xor(a, b) == a ^ b
  {
  }

  lemma XorZero(a: bv32)
    ensures Xor(a, 0) == a
    ensures Xor(0, a) == a
    ensures Xor(a, a) == 0
  {
    assert a ^ 0 == a && 0 ^ a == a && a ^ a == 0;
  }

  lemma RawXorAssociates(a: bv32, b: bv32, c: bv32)
    ensures (a ^ b) ^ c == a ^ (b ^ c)
  {
  }

  lemma XorAssociates(a: bv32, b: bv32, c: bv32)
    ensures Xor(Xor(a, b), c) == Xor(a, Xor(b, c))
  {
    var ab, bc := Xor(a, b), Xor(b, c);
    assert ab == a ^ b && bc == b ^ c;
    hide Xor;
    XorIsExclusiveOr(ab, c);
    XorIsExclusiveOr(a, bc);
    RawXorAssociates(a, b, c);
  }

  lemma XorCancel(a: bv32, b: bv32, x: bv32)
    ensures Xor(a, x) == Xor(b, x) ==> a == b
    ensures Xor(x, a) == Xor(x, b) ==> a == b
  {
    assert (a ^ x == b ^ x ==> a == b) && (x ^ a == x ^ b ==> a == b);
  }

  lemma BitStepCases(c: bv32)
    ensures c & 1 == 1 || c & 1 == 0
    ensures c & 1 == 1 ==> BitStep(c) == POLY ^ (c >> 1)
    ensures c & 1 == 0 ==> BitStep(c) == c >> 1
  {
  }

  lemma ShiftXor(a: bv32, b: bv32)
    ensures (a ^ b) >> 1 == (a >> 1) ^ (b >> 1)
    ensures (a ^ b) & 1 == (a & 1) ^ (b & 1)
  {
  }

  lemma PolyCancel(a: bv32, b: bv32)
    ensures (POLY ^ a) ^ (POLY ^ b) == a ^ b
    ensures (POLY ^ a) ^ b == POLY ^ (a ^ b)
    ensures a ^ (POLY ^ b) == POLY ^ (a ^ b)
  {
  }

  /** The register step is additive over GF(2). */
  lemma BitStepLinear(a: bv32, b: bv32)
    ensures BitStep(Xor(a, b)) == Xor(BitStep(a), BitStep(b))
  {
    hide BitStep, Xor;
    XorIsExclusiveOr(a, b);
    XorIsExclusiveOr(BitStep(a), BitStep(b));
    BitStepCases(a);
    BitStepCases(b);
    BitStepCases(a ^ b);
    ShiftXor(a, b);
    PolyCancel(a >> 1, b >> 1);
  }

  lemma {:induction false} StepsLinear(a: bv32, b: bv32, k: nat)
    ensures Steps(Xor(a, b), k) == Xor(Steps(a, k), Steps(b, k))
  {
    hide BitStep, Xor;
    if k > 0 {
      StepsLinear(a, b, k - 1);
      BitStepLinear(Steps(a, k - 1), Steps(b, k - 1));
    }
  }

  lemma {:induction false} StepsAdd(c: bv32, j: nat, k: nat)
    ensures Steps(Steps(c, j), k) == Steps(c, j + k)
  {
    hide BitStep;
    if k > 0 {
      StepsAdd(c, j, k - 1);
    }
  }

  // ----- the register is a bijection -----

  /** The clock run backwards. */
  function Unstep(c: bv32): bv32 {
    if c & 0x8000_0000 != 0 then ((c ^ POLY) << 1) | 1 else c << 1
  }

  lemma ShiftOut(c: bv32)
    ensures (c >> 1) & 0x8000_0000 == 0
    ensures (POLY ^ (c >> 1)) & 0x8000_0000 != 0
    ensures (POLY ^ (c >> 1)) ^ POLY == c >> 1
    ensures c & 1 == 0 ==> (c >> 1) << 1 == c
    ensures c & 1 == 1 ==> ((c >> 1) << 1) | 1 == c
    ensures c & 1 == 0 || c & 1 == 1
  {
  }

  lemma ShiftIn(c: bv32)
    ensures (c << 1) & 1 == 0
    ensures ((c << 1) | 1) & 1 == 1
    ensures c & 0x8000_0000 == 0 ==> (c << 1) >> 1 == c
    ensures c & 0x8000_0000 != 0 ==> POLY ^ ((((c ^ POLY) << 1) | 1) >> 1) == c
  {
  }

  lemma UnstepInverts(c: bv32)
    ensures Unstep(BitStep(c)) == c
    ensures BitStep(Unstep(c)) == c
  {
    ShiftOut(c);
    ShiftIn(c);
  }

  /** With the same message bits the register never merges two states. */
  lemma {:induction false} FeedBitsInjective(c: bv32, d: bv32, bits: seq<bool>)
    ensures FeedBits(c, bits) == FeedBits(d, bits) ==> c == d
  {
    hide BitStep, Xor, Unstep, BitWord;
    if bits != [] {
      var c', d', w := FeedBits(c, bits[..|bits| - 1]), FeedBits(d, bits[..|bits| - 1]), BitWord(bits[|bits| - 1]);
      UnstepInverts(Xor(c', w));
      UnstepInverts(Xor(d', w));
      XorCancel(c', d', w);
      FeedBitsInjective(c, d, bits[..|bits| - 1]);
    }
  }

  lemma {:induction false} FeedBitsConcat(c: bv32, a: seq<bool>, b: seq<bool>)
    ensures FeedBits(c, a + b) == FeedBits(FeedBits(c, a), b)
  {
    hide BitStep, Xor, BitWord;
    if b == [] {
      assert a + b == a;
    } else {
      assert (a + b)[..|a + b| - 1] == a + b[..|b| - 1];
      FeedBitsConcat(c, a, b[..|b| - 1]);
    }
  }

  lemma {:induction false} BitsOfConcat(a: seq<Byte>, b: seq<Byte>)
    ensures BitsOf(a + b) == BitsOf(a) + BitsOf(b)
  {
    hide ByteBits;
    if b == [] {
      assert a + b == a;
    } else {
      assert (a + b)[..|a + b| - 1] == a + b[..|b| - 1];
      BitsOfConcat(a, b[..|b| - 1]);
    }
  }

  /** The register after `a + b` is the register after `b`, started from the register after `a`. */
  lemma SerialConcat(c: bv32, a: seq<Byte>, b: seq<Byte>)
    ensures Serial(c, a + b) == Serial(Serial(c, a), b)
  {
    BitsOfConcat(a, b);
    FeedBitsConcat(c, BitsOf(a), BitsOf(b));
  }
}
