/** The closed form of the bit-serial register: absorbing `n` bits is adding one
    word to the register and clocking it `n` times.  From it follow the byte-wise
    step behind the lookup tables and the detection of 32-bit bursts. */
module CrcImage {
  import opened BitSerialCrc

  function Unsteps(c: bv32, k: nat): bv32 {
    if k == 0 then c else Unstep(Unsteps(c, k - 1))
  }

  /** The register value that becomes 1 after `i` clocks. */
  function Unit(i: nat): bv32 {
    Unsteps(1, i)
  }

  function Place(bit: bool, i: nat): bv32 {
    if bit then Unit(i) else 0
  }

  /** The word that stands for a whole bit string. */
  function Image(bits: seq<bool>): bv32 {
    if bits == [] then 0
    else Xor(Image(bits[..|bits| - 1]), Place(bits[|bits| - 1], |bits| - 1))
  }

  lemma {:induction false} UnstepsInverts(c: bv32, k: nat)
    ensures Steps(Unsteps(c, k), k) == c
  {
    hide BitStep, Unstep;
    if k > 0 {
      var x := Unsteps(c, k);
      StepsAdd(x, 1, k - 1);
      assert Steps(x, 1) == BitStep(Steps(x, 0)) == BitStep(x);
      UnstepInverts(Unsteps(c, k - 1));
      UnstepsInverts(c, k - 1);
    }
  }

  lemma {:induction false} StepsZero(k: nat)
    ensures Steps(0, k) == 0
  {
    if k > 0 {
      StepsZero(k - 1);
    }
  }

  lemma {:induction false} StepsInjective(a: bv32, b: bv32, k: nat)
    ensures Steps(a, k) == Steps(b, k) ==> a == b
  {
    hide BitStep, Unstep;
    if k > 0 {
      UnstepInverts(Steps(a, k - 1));
      UnstepInverts(Steps(b, k - 1));
      StepsInjective(a, b, k - 1);
    }
  }

  lemma PlaceClocksToBit(bit: bool, i: nat)
    ensures Steps(Place(bit, i), i) == BitWord(bit)
  {
    UnstepsInverts(1, i);
    StepsZero(i);
  }

  /** Feeding any bit string is one addition and one run of the clock. */
  lemma {:induction false} FeedBitsClosedForm(c: bv32, bits: seq<bool>)
    ensures FeedBits(c, bits) == Steps(Xor(c, Image(bits)), |bits|)
  {
    hide BitStep, Xor, BitWord, Place;
    if bits == [] {
      XorZero(c);
    } else {
      var n := |bits| - 1;
      var front, p := Image(bits[..n]), Place(bits[n], n);
      FeedBitsClosedForm(c, bits[..n]);
      PlaceClocksToBit(bits[n], n);
      StepsLinear(Xor(c, front), p, n);
      XorAssociates(c, front, p);
    }
  }

  // ----- the 32 units are the 32 powers of two -----

  /** Below position 31 nothing is fed back, so the units are plain left shifts of 1. */
  lemma UnitTopClear(i: nat)
    requires i < 31
    ensures Unit(i) & 0x8000_0000 == 0
  {
    assert Unit(1) == 0x2;
    assert Unit(2) == 0x4;
    assert Unit(3) == 0x8;
    assert Unit(4) == 0x10;
    assert Unit(5) == 0x20;
    assert Unit(6) == 0x40;
    assert Unit(7) == 0x80;
    assert Unit(8) == 0x100;
    assert Unit(9) == 0x200;
    assert Unit(10) == 0x400;
    assert Unit(11) == 0x800;
    assert Unit(12) == 0x1000;
    assert Unit(13) == 0x2000;
    assert Unit(14) == 0x4000;
    assert Unit(15) == 0x8000;
    assert Unit(16) == 0x10000;
    assert Unit(17) == 0x20000;
    assert Unit(18) == 0x40000;
    assert Unit(19) == 0x80000;
    assert Unit(20) == 0x100000;
    assert Unit(21) == 0x200000;
    assert Unit(22) == 0x400000;
    assert Unit(23) == 0x800000;
    assert Unit(24) == 0x1000000;
    assert Unit(25) == 0x2000000;
    assert Unit(26) == 0x4000000;
    assert Unit(27) == 0x8000000;
    assert Unit(28) == 0x10000000;
    assert Unit(29) == 0x20000000;
    assert Unit(30) == 0x40000000;
  }

  lemma UnitShift(i: nat)
    requires i < 31
    ensures Unit(i + 1) == Unit(i) << 1
    ensures Unit(i) & 0x8000_0000 == 0
  {
    UnitTopClear(i);
  }

  lemma ShiftAnd(a: bv32, b: bv32)
    ensures (a << 1) & (b << 1) == (a & b) << 1
    ensures (a << 1) & 1 == 0
    ensures a & 0x8000_0000 == 0 && a != 0 ==> a << 1 != 0
  {
  }

  lemma {:induction false} UnitsDisjoint(i: nat, j: nat)
    requires i < j < 32
    ensures Unit(i) & Unit(j) == 0
  {
    hide Unit;
    UnitShift(j - 1);
    ShiftAnd(Unit(j - 1), Unit(j - 1));
    if i == 0 {
      assert Unit(0) == 1 by { UnitZero(); }
      assert 1 & (Unit(j - 1) << 1) == (Unit(j - 1) << 1) & 1;
    } else {
      UnitShift(i - 1);
      ShiftAnd(Unit(i - 1), Unit(j - 1));
      UnitsDisjoint(i - 1, j - 1);
    }
  }

  lemma UnitZero()
    ensures Unit(0) == 1
  {
  }

  lemma {:induction false} UnitNonzero(i: nat)
    requires i < 32
    ensures Unit(i) != 0
  {
    if i > 0 {
      UnitNonzero(i - 1);
      UnitShift(i - 1);
      ShiftAnd(Unit(i - 1), 0);
    }
  }

  // ----- bursts of at most 32 bits are always seen -----

  lemma AndXor(a: bv32, b: bv32, u: bv32)
    ensures (a ^ b) & u == (a & u) ^ (b & u)
    ensures 0 & u == 0
    ensures u & u == u
    ensures a & b == b & a
  {
  }

  /** An image of `n` bits has nothing at or above position `n`. */
  lemma {:induction false} ImageHighClear(bits: seq<bool>, i: nat)
    requires |bits| <= i < 32
    ensures Image(bits) & Unit(i) == 0
  {
    hide Unit, Xor;
    AndXor(0, 0, Unit(i));
    if bits != [] {
      var n := |bits| - 1;
      var front, p := Image(bits[..n]), Place(bits[n], n);
      ImageHighClear(bits[..n], i);
      UnitsDisjoint(n, i);
      AndXor(front, p, Unit(i));
      XorIsExclusiveOr(front, p);
    }
  }

  /** The bits two words share.  Kept as a function so that proofs can hide it. */
  function Common(a: bv32, b: bv32): bv32 {
    a & b
  }

  lemma CommonOfSum(a: bv32, b: bv32, u: bv32)
    ensures Common(Xor(a, b), u) == Xor(Common(a, u), Common(b, u))
  {
    hide Xor;
    XorIsExclusiveOr(a, b);
    XorIsExclusiveOr(a & u, b & u);
    AndXor(a, b, u);
  }

  lemma CommonSelf(u: bv32)
    ensures Common(u, u) == u && Common(0, u) == 0
  {
  }

  lemma TopOfSum(front: bv32, bit: bool, n: nat)
    requires Common(front, Unit(n)) == 0
    ensures Common(Xor(front, Place(bit, n)), Unit(n)) == if bit then Unit(n) else 0
  {
    hide Unit, Xor, Common;
    CommonOfSum(front, Place(bit, n), Unit(n));
    CommonSelf(Unit(n));
    XorZero(Unit(n));
    XorZero(0);
  }

  lemma FrontClear(bits: seq<bool>)
    requires 0 < |bits| <= 32
    ensures Common(Image(bits[..|bits| - 1]), Unit(|bits| - 1)) == 0
  {
    hide Unit, Image;
    ImageHighClear(bits[..|bits| - 1], |bits| - 1);
  }

  lemma ImageTopBit(bits: seq<bool>)
    requires 0 < |bits| <= 32
    ensures Common(Image(bits), Unit(|bits| - 1)) == if bits[|bits| - 1] then Unit(|bits| - 1) else 0
  {
    hide Unit, Xor, Place, Common;
    FrontClear(bits);
    TopOfSum(Image(bits[..|bits| - 1]), bits[|bits| - 1], |bits| - 1);
  }

  ghost predicate Sets(w: bv32, i: nat)
    requires i < 32
  {
    Common(w, Unit(i)) != 0
  }

  lemma ImageSetsTopIff(bits: seq<bool>)
    requires 0 < |bits| <= 32
    ensures Sets(Image(bits), |bits| - 1) <==> bits[|bits| - 1]
  {
    hide Unit, Image, Common;
    ImageTopBit(bits);
    UnitNonzero(|bits| - 1);
  }

  lemma SameImageSameLastBit(a: seq<bool>, b: seq<bool>)
    requires 0 < |a| == |b| <= 32
    requires Image(a) == Image(b)
    ensures a[|a| - 1] == b[|b| - 1]
  {
    hide Sets, Image;
    ImageSetsTopIff(a);
    ImageSetsTopIff(b);
  }

  lemma {:induction false} ImageInjective(a: seq<bool>, b: seq<bool>)
    requires |a| == |b| <= 32
    requires Image(a) == Image(b)
    ensures a == b
  {
    hide Unit, Xor, Place;
    if a != [] {
      var n := |a| - 1;
      SameImageSameLastBit(a, b);
      XorCancel(Image(a[..n]), Image(b[..n]), Place(a[n], n));
      ImageInjective(a[..n], b[..n]);
      assert a == a[..n] + [a[n]] && b == b[..n] + [b[n]];
    }
  }

  /** Two bit strings of equal length that differ, but only inside one window of
      32 consecutive bits, leave the register in different states. */
  lemma BurstChangesRegister(seed: bv32, pre: seq<bool>, a: seq<bool>, b: seq<bool>, post: seq<bool>)
    requires |a| == |b| <= 32
    requires a != b
    ensures FeedBits(seed, pre + a + post) != FeedBits(seed, pre + b + post)
  {
    hide FeedBits, Image, Xor, Steps;
    var c := FeedBits(seed, pre);
    FeedBitsConcat(seed, pre + a, post);
    FeedBitsConcat(seed, pre, a);
    FeedBitsConcat(seed, pre + b, post);
    FeedBitsConcat(seed, pre, b);
    if FeedBits(seed, pre + a + post) == FeedBits(seed, pre + b + post) {
      FeedBitsInjective(FeedBits(c, a), FeedBits(c, b), post);
      FeedBitsClosedForm(c, a);
      FeedBitsClosedForm(c, b);
      StepsInjective(Xor(c, Image(a)), Xor(c, Image(b)), |a|);
      XorCancel(Image(a), Image(b), c);
      ImageInjective(a, b);
    }
  }
}
