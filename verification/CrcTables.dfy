/** The two table-driven forms of the CRC: one byte per lookup, and eight bytes
    per round ("slice by 8").  Both are proved equal to the bit-serial register. */
module CrcTables {
  import opened BitSerialCrc

  function Widen(b: Byte): bv32 {
    b as bv32
  }

  /** Entry `b` of slice table `n`: the byte pushed through `n + 1` zero bytes. */
  function SliceEntry(n: nat, b: Byte): bv32 {
    Steps(Widen(b), 8 * (n + 1))
  }

  // ----- one byte -----

  function ShiftedDown(w: bv32, n: nat): bv32
    decreases n
  {
    if n == 0 then w else ShiftedDown(w >> 1, n - 1)
  }

  lemma LowBitSplits(w: bv32)
    ensures w == BitWord(w & 1 == 1) ^ (w & 0xFFFF_FFFE)
    ensures (w & 0xFFFF_FFFE) & 1 == 0
    ensures (w & 0xFFFF_FFFE) >> 1 == w >> 1
  {
  }

  lemma LowBitXor(w: bv32)
    ensures w == Xor(BitWord(w & 1 == 1), w & 0xFFFF_FFFE)
    ensures BitStep(w & 0xFFFF_FFFE) == w >> 1
  {
    LowBitSplits(w);
    hide BitWord;
    BitStepCases(w & 0xFFFF_FFFE);
  }

  /** Absorbing the low bit of `w` leaves the rest of `w`, moved down, still to be added. */
  lemma FeedLowBit(c: bv32, w: bv32)
    ensures BitStep(Xor(c, w)) == Xor(FeedBit(c, w & 1 == 1), w >> 1)
  {
    hide BitStep, Xor, BitWord;
    LowBitXor(w);
    XorAssociates(c, BitWord(w & 1 == 1), w & 0xFFFF_FFFE);
    BitStepLinear(Xor(c, BitWord(w & 1 == 1)), w & 0xFFFF_FFFE);
  }

  lemma {:induction false} FeedWord(c: bv32, w: bv32, n: nat)
    requires ShiftedDown(w, n) == 0
    ensures FeedBits(c, WordBits(w, n)) == Steps(Xor(c, w), n)
    decreases n
  {
    hide BitStep, Xor, FeedBit;
    if n == 0 {
      XorZero(c);
    } else {
      var bit, rest := w & 1 == 1, WordBits(w >> 1, n - 1);
      FeedBitsConcat(c, [bit], rest);
      assert FeedBits(c, [bit]) == FeedBit(FeedBits(c, [bit][..0]), bit) == FeedBit(c, bit);
      FeedWord(FeedBit(c, bit), w >> 1, n - 1);
      FeedLowBit(c, w);
      StepsAdd(Xor(c, w), 1, n - 1);
      assert Steps(Xor(c, w), 1) == BitStep(Steps(Xor(c, w), 0)) == BitStep(Xor(c, w));
    }
  }

  lemma ByteFits(b: Byte)
    ensures ShiftedDown(b as bv32, 8) == 0
  {
    var w := b as bv32;
    var w4 := (((w >> 1) >> 1) >> 1) >> 1;
    var w8 := (((w4 >> 1) >> 1) >> 1) >> 1;
    assert w8 == 0;
    assert ShiftedDown(w, 8) == ShiftedDown((w >> 1) >> 1, 6) == ShiftedDown(w4, 4);
    assert ShiftedDown(w4, 4) == ShiftedDown((w4 >> 1) >> 1, 2) == ShiftedDown(w8, 0);
  }

  /** Absorbing a byte adds it to the low end of the register and clocks 8 times. */
  lemma SerialByte(c: bv32, data: seq<Byte>, b: Byte)
    ensures Serial(c, data + [b]) == Steps(Xor(Serial(c, data), Widen(b)), 8)
  {
    hide FeedBits, WordBits, Xor, Steps, ShiftedDown;
    var r := Serial(c, data);
    assert (data + [b])[..|data|] == data;
    FeedBitsConcat(c, BitsOf(data), ByteBits(b));
    ByteFits(b);
    FeedWord(r, b as bv32, 8);
  }

  lemma RawHalves(z: bv32)
    ensures z & 0x03 == 0 ==> z & 1 == 0 && (z >> 1) & 1 == 0
    ensures (z >> 1) >> 1 == z >> 2
  {
  }

  lemma RawQuarters(z: bv32)
    ensures z & 0x0F == 0 ==> z & 0x03 == 0 && (z >> 2) & 0x03 == 0
    ensures (z >> 2) >> 2 == z >> 4
  {
  }

  lemma RawEighths(z: bv32)
    ensures z & 0xFF == 0 ==> z & 0x0F == 0 && (z >> 4) & 0x0F == 0
    ensures (z >> 4) >> 4 == z >> 8
  {
  }

  lemma OneClockShifts(z: bv32)
    requires z & 1 == 0
    ensures Steps(z, 1) == z >> 1
  {
    BitStepCases(z);
    hide BitStep;
    assert Steps(z, 1) == BitStep(Steps(z, 0));
  }

  lemma TwoClocksShift(z: bv32)
    requires z & 0x03 == 0
    ensures Steps(z, 2) == z >> 2
  {
    hide Steps;
    RawHalves(z);
    OneClockShifts(z);
    OneClockShifts(z >> 1);
    StepsAdd(z, 1, 1);
  }

  lemma FourClocksShift(z: bv32)
    requires z & 0x0F == 0
    ensures Steps(z, 4) == z >> 4
  {
    hide Steps;
    RawQuarters(z);
    TwoClocksShift(z);
    TwoClocksShift(z >> 2);
    StepsAdd(z, 2, 2);
  }

  /** Eight clocks of a register whose low byte is zero only move it down. */
  lemma ZeroByteShifts(z: bv32)
    requires z & 0xFF == 0
    ensures Steps(z, 8) == z >> 8
  {
    hide Steps;
    RawEighths(z);
    FourClocksShift(z);
    FourClocksShift(z >> 4);
    StepsAdd(z, 4, 4);
  }

  function LowByte(x: bv32): Byte {
    (x & 0xFF) as Byte
  }

  lemma SplitLowByte(x: bv32)
    ensures x == (x & 0xFF) ^ (x & 0xFFFF_FF00)
    ensures (x & 0xFFFF_FF00) & 0xFF == 0
    ensures (x & 0xFFFF_FF00) >> 8 == x >> 8
  {
  }

  lemma LowAndHigh(x: bv32)
    ensures Xor(x & 0xFF, x & 0xFFFF_FF00) == x
  {
    SplitLowByte(x);
  }

  lemma HighShifts(x: bv32)
    ensures Steps(x & 0xFFFF_FF00, 8) == x >> 8
  {
    hide Steps;
    SplitLowByte(x);
    ZeroByteShifts(x & 0xFFFF_FF00);
  }

  lemma WidenLowByte(x: bv32)
    ensures Widen(LowByte(x)) == x & 0xFF
  {
  }

  /** The table identity: eight clocks are one lookup and one shift. */
  lemma TableStep(x: bv32)
    ensures Steps(x, 8) == Xor(SliceEntry(0, LowByte(x)), x >> 8)
  {
    hide Steps, Xor, Widen, LowByte;
    LowAndHigh(x);
    HighShifts(x);
    StepsLinear(x & 0xFF, x & 0xFFFF_FF00, 8);
    WidenLowByte(x);
  }

  lemma ByteShiftsOut(crc: bv32, d: Byte)
    ensures Xor(crc, Widen(d)) >> 8 == crc >> 8
  {
  }

  /** The same with the sum of register and byte: the byte does not reach the shifted part. */
  lemma ByteTableStep(crc: bv32, d: Byte)
    ensures Steps(Xor(crc, Widen(d)), 8) == Xor(SliceEntry(0, LowByte(Xor(crc, Widen(d)))), crc >> 8)
  {
    hide Steps, Xor, Widen, LowByte, SliceEntry;
    TableStep(Xor(crc, Widen(d)));
    ByteShiftsOut(crc, d);
  }

  // ----- eight bytes -----

  /** Adding a byte `d` after `k` clocks is adding, up front, the word `z` that becomes `d` in `k` clocks. */
  lemma AddEarlier(x: bv32, z: bv32, d: bv32, k: nat)
    requires Steps(z, k) == d
    ensures Steps(Xor(Steps(x, k), d), 8) == Steps(Xor(x, z), k + 8)
  {
    hide Steps, Xor;
    StepsLinear(x, z, k);
    StepsAdd(Xor(x, z), k, 8);
  }

  /** A byte moved up into byte position `k` of a word. */
  function Lane(d: Byte, k: nat): bv32
    requires k < 4
  {
    if k == 0 then d as bv32 else if k == 1 then (d as bv32) << 8 else if k == 2 then (d as bv32) << 16 else (d as bv32) << 24
  }

  lemma LaneMovesDown(d: Byte, k: nat)
    requires 1 <= k < 4
    ensures Lane(d, k) & 0xFF == 0
    ensures Lane(d, k) >> 8 == Lane(d, k - 1)
  {
    if k == 1 {} else if k == 2 {} else {}
  }

  lemma {:induction false} LaneClocks(d: Byte, k: nat)
    requires k < 4
    ensures Steps(Lane(d, k), 8 * k) == Widen(d)
  {
    hide Steps, Lane;
    if k == 0 {
      assert Steps(Lane(d, 0), 0) == Widen(d) by { NoClocks(d); }
    } else {
      LaneMovesDown(d, k);
      ZeroByteShifts(Lane(d, k));
      LaneClocks(d, k - 1);
      StepsAdd(Lane(d, k), 8, 8 * (k - 1));
    }
  }

  lemma NoClocks(d: Byte)
    ensures Steps(Lane(d, 0), 0) == Widen(d)
  {
  }

  /** Four bytes as a little-endian word. */
  function LittleEndian(d0: Byte, d1: Byte, d2: Byte, d3: Byte): bv32 {
    (d0 as bv32) | ((d1 as bv32) << 8) | ((d2 as bv32) << 16) | ((d3 as bv32) << 24)
  }

  lemma XorOfFour(a: bv32, b: bv32, c: bv32, d: bv32, sum: bv32)
    requires ((a ^ b) ^ c) ^ d == sum
    ensures Xor(Xor(Xor(a, b), c), d) == sum
  {
    XorIsExclusiveOr(a, b);
    var ab := a ^ b;
    XorIsExclusiveOr(ab, c);
    var abc := ab ^ c;
    hide Xor;
    XorIsExclusiveOr(abc, d);
  }

  lemma RawLanesAdd(d0: Byte, d1: Byte, d2: Byte, d3: Byte)
    ensures ((Lane(d0, 0) ^ Lane(d1, 1)) ^ Lane(d2, 2)) ^ Lane(d3, 3) == LittleEndian(d0, d1, d2, d3)
  {
  }

  lemma LanesAdd(d0: Byte, d1: Byte, d2: Byte, d3: Byte)
    ensures Xor(Xor(Xor(Lane(d0, 0), Lane(d1, 1)), Lane(d2, 2)), Lane(d3, 3)) == LittleEndian(d0, d1, d2, d3)
  {
    hide Xor, LittleEndian, Lane;
    RawLanesAdd(d0, d1, d2, d3);
    XorOfFour(Lane(d0, 0), Lane(d1, 1), Lane(d2, 2), Lane(d3, 3), LittleEndian(d0, d1, d2, d3));
  }

  lemma XorLanes(c: bv32, d0: Byte, d1: Byte, d2: Byte, d3: Byte)
    ensures Xor(Xor(Xor(Xor(c, Lane(d0, 0)), Lane(d1, 1)), Lane(d2, 2)), Lane(d3, 3)) == Xor(c, LittleEndian(d0, d1, d2, d3))
  {
    hide Xor, LittleEndian, Lane;
    var l0, l1, l2, l3 := Lane(d0, 0), Lane(d1, 1), Lane(d2, 2), Lane(d3, 3);
    LanesAdd(d0, d1, d2, d3);
    XorAssociates(c, l0, l1);
    XorAssociates(c, Xor(l0, l1), l2);
    XorAssociates(c, Xor(Xor(l0, l1), l2), l3);
  }

  lemma SerialEmpty(c: bv32)
    ensures Serial(c, []) == c
  {
    assert BitsOf([]) == [];
  }

  lemma LaneZero(d: Byte)
    ensures Lane(d, 0) == Widen(d)
  {
  }

  /** Absorbing four bytes is adding their little-endian word and clocking 32 times. */
  lemma SerialFourBytes(c: bv32, d0: Byte, d1: Byte, d2: Byte, d3: Byte)
    ensures Serial(c, [d0, d1, d2, d3]) == Steps(Xor(c, LittleEndian(d0, d1, d2, d3)), 32)
  {
    hide Serial, Steps, Xor, Widen, LittleEndian, Lane;
    var x0 := Xor(c, Lane(d0, 0));
    var x1 := Xor(x0, Lane(d1, 1));
    var x2 := Xor(x1, Lane(d2, 2));
    SerialEmpty(c);
    SerialByte(c, [], d0);
    SerialByte(c, [d0], d1);
    SerialByte(c, [d0, d1], d2);
    SerialByte(c, [d0, d1, d2], d3);
    assert [] + [d0] == [d0] && [d0] + [d1] == [d0, d1] && [d0, d1] + [d2] == [d0, d1, d2];
    assert [d0, d1, d2] + [d3] == [d0, d1, d2, d3];
    LaneZero(d0);
    LaneClocks(d1, 1);
    LaneClocks(d2, 2);
    LaneClocks(d3, 3);
    AddEarlier(x0, Lane(d1, 1), Widen(d1), 8);
    AddEarlier(x1, Lane(d2, 2), Widen(d2), 16);
    AddEarlier(x2, Lane(d3, 3), Widen(d3), 24);
    XorLanes(c, d0, d1, d2, d3);
  }

  function ByteAt(w: bv32, k: nat): Byte
    requires k < 4
  {
    if k == 0 then (w & 0xFF) as Byte
    else if k == 1 then ((w >> 8) & 0xFF) as Byte
    else if k == 2 then ((w >> 16) & 0xFF) as Byte
    else ((w >> 24) & 0xFF) as Byte
  }

  lemma WordIsItsBytes(w: bv32)
    ensures LittleEndian(ByteAt(w, 0), ByteAt(w, 1), ByteAt(w, 2), ByteAt(w, 3)) == w
  {
  }

  /** Clocking a word `32 + j` times is four lookups. */
  lemma WordClocks(w: bv32, j: nat)
    ensures Steps(w, 32 + j) == Xor(Xor(Xor(Steps(Widen(ByteAt(w, 0)), 32 + j), Steps(Widen(ByteAt(w, 1)), 24 + j)),
                                        Steps(Widen(ByteAt(w, 2)), 16 + j)), Steps(Widen(ByteAt(w, 3)), 8 + j))
  {
    hide Steps, Xor, Widen, ByteAt, Lane, LittleEndian;
    var b0, b1, b2, b3 := ByteAt(w, 0), ByteAt(w, 1), ByteAt(w, 2), ByteAt(w, 3);
    var l0, l1, l2, l3 := Lane(b0, 0), Lane(b1, 1), Lane(b2, 2), Lane(b3, 3);
    WordIsItsBytes(w);
    LanesAdd(b0, b1, b2, b3);
    StepsLinear(Xor(Xor(l0, l1), l2), l3, 32 + j);
    StepsLinear(Xor(l0, l1), l2, 32 + j);
    StepsLinear(l0, l1, 32 + j);
    LaneZero(b0);
    LaneClocks(b1, 1);
    LaneClocks(b2, 2);
    LaneClocks(b3, 3);
    StepsAdd(l1, 8, 24 + j);
    StepsAdd(l2, 16, 16 + j);
    StepsAdd(l3, 24, 8 + j);
  }

  /** The sum of eight lookups in the order the slice-by-8 round adds them. */
  function SliceSum(w: bv32, t: bv32): bv32 {
    Xor(Xor(Xor(Xor(Xor(Xor(Xor(
      SliceEntry(7, ByteAt(w, 0)), SliceEntry(6, ByteAt(w, 1))), SliceEntry(5, ByteAt(w, 2))), SliceEntry(4, ByteAt(w, 3))),
      SliceEntry(3, ByteAt(t, 0))), SliceEntry(2, ByteAt(t, 1))), SliceEntry(1, ByteAt(t, 2))), SliceEntry(0, ByteAt(t, 3)))
  }

  lemma SumOfTwoWords(w: bv32, t: bv32)
    ensures SliceSum(w, t) == Xor(Steps(w, 64), Steps(t, 32))
  {
    hide Steps, Xor, Widen, ByteAt;
    WordClocks(w, 32);
    WordClocks(t, 0);
    var x := Steps(w, 64);
    var y0, y1, y2, y3 := SliceEntry(3, ByteAt(t, 0)), SliceEntry(2, ByteAt(t, 1)), SliceEntry(1, ByteAt(t, 2)), SliceEntry(0, ByteAt(t, 3));
    XorAssociates(x, y0, y1);
    XorAssociates(x, Xor(y0, y1), y2);
    XorAssociates(x, Xor(Xor(y0, y1), y2), y3);
  }

  /** One slice-by-8 round absorbs eight message bytes. */
  lemma SliceRound(c: bv32, d: seq<Byte>)
    requires |d| == 8
    ensures Serial(c, d) == SliceSum(c ^ LittleEndian(d[0], d[1], d[2], d[3]), LittleEndian(d[4], d[5], d[6], d[7]))
  {
    hide Serial, Steps, Xor, LittleEndian, SliceSum;
    var w0, t := LittleEndian(d[0], d[1], d[2], d[3]), LittleEndian(d[4], d[5], d[6], d[7]);
    var w := Xor(c, w0);
    XorIsExclusiveOr(c, w0);
    assert d == d[..4] + d[4..] && d[..4] == [d[0], d[1], d[2], d[3]] && d[4..] == [d[4], d[5], d[6], d[7]];
    SerialConcat(c, d[..4], d[4..]);
    SerialFourBytes(c, d[0], d[1], d[2], d[3]);
    SerialFourBytes(Steps(w, 32), d[4], d[5], d[6], d[7]);
    StepsLinear(Steps(w, 32), t, 32);
    StepsAdd(w, 32, 32);
    SumOfTwoWords(w, t);
  }
}
