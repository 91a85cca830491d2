/** The RoCEv2 invariant CRC: the CRC of the packet with every field a router may
    rewrite replaced by ones (section 7.8.1 and Annex A17 of the InfiniBand
    Architecture Specification, Volume 1). */
module Icrc {
  import opened BitSerialCrc
  import opened CrcImage
  import opened CrcTables
  import opened CrcEngine

  // Byte offsets from the start of the IPv4 header (20 bytes), which the UDP
  // header (8 bytes) and the base transport header follow without a gap.
  const TOS := 1
  const TTL := 8
  const IP_CHECKSUM := 10
  const UDP_CHECKSUM := 26
  const BTH := 28
  const BTH_RESERVED := 32

  const ICRC_SEED: bv32 := 0xDEBB_20E3
  const ONES: Byte := 0xFF

  predicate Rewritable(i: int) {
    i == TOS || i == TTL || i == IP_CHECKSUM || i == IP_CHECKSUM + 1 || i == UDP_CHECKSUM || i == UDP_CHECKSUM + 1 || i == BTH_RESERVED
  }

  /** What the CRC is taken over: every rewritable byte reads as ones. */
  function Masked(packet: seq<Byte>): (m: seq<Byte>)
    ensures |m| == |packet|
    ensures forall i :: 0 <= i < |packet| ==> m[i] == if Rewritable(i) then ONES else packet[i]
  {
    seq(|packet|, i requires 0 <= i < |packet| => if Rewritable(i) then ONES else packet[i])
  }

  // ----- where the fields are -----

  /** The fields of the IPv4 header without options, the UDP header and the base transport header, each
      as the bytes it takes on the wire. */
  datatype Headers = Headers(
    versionAndLength: Byte, typeOfService: Byte, totalLength: seq<Byte>, id: seq<Byte>, fragment: seq<Byte>,
    timeToLive: Byte, protocol: Byte, headerChecksum: seq<Byte>, source: seq<Byte>, destination: seq<Byte>,
    sourcePort: seq<Byte>, destinationPort: seq<Byte>, length: seq<Byte>, checksum: seq<Byte>,
    opcode: Byte, flags: Byte, partitionKey: seq<Byte>, fecnBecn: Byte, queuePair: seq<Byte>, ackRequest: Byte, psn: seq<Byte>)

  ghost predicate WellFormed(h: Headers) {
    && |h.totalLength| == 2 && |h.id| == 2 && |h.fragment| == 2 && |h.headerChecksum| == 2 && |h.source| == 4 && |h.destination| == 4
    && |h.sourcePort| == 2 && |h.destinationPort| == 2 && |h.length| == 2 && |h.checksum| == 2
    && |h.partitionKey| == 2 && |h.queuePair| == 3 && |h.psn| == 3
  }

  function IpBytes(h: Headers): seq<Byte> {
    [h.versionAndLength, h.typeOfService] + h.totalLength + h.id + h.fragment + [h.timeToLive, h.protocol] + h.headerChecksum
    + h.source + h.destination
  }

  function UdpBytes(h: Headers): seq<Byte> {
    h.sourcePort + h.destinationPort + h.length + h.checksum
  }

  function BthBytes(h: Headers): seq<Byte> {
    [h.opcode, h.flags] + h.partitionKey + [h.fecnBecn] + h.queuePair + [h.ackRequest] + h.psn
  }

  function MaskedHeaders(h: Headers): Headers {
    h.(typeOfService := 0xFF, timeToLive := 0xFF, headerChecksum := [0xFF, 0xFF], checksum := [0xFF, 0xFF], fecnBecn := 0xFF)
  }

  /** The bytes masked are exactly those of the type of service, the time to live, the two checksums and
      the congestion bits of the base transport header. */
  lemma MaskedFields(h: Headers, payload: seq<Byte>)
    requires WellFormed(h)
    ensures var m := MaskedHeaders(h);
            Masked(IpBytes(h) + UdpBytes(h) + BthBytes(h) + payload) == IpBytes(m) + UdpBytes(m) + BthBytes(m) + payload
    ensures |IpBytes(h) + UdpBytes(h)| == BTH && |BthBytes(h)| == 12
  {
    var m := MaskedHeaders(h);
    MaskedIp(h);
    MaskedUdp(h);
    MaskedBth(h);
    hide IpBytes, UdpBytes, BthBytes;
    var a, b := IpBytes(h) + UdpBytes(h) + BthBytes(h) + payload, IpBytes(m) + UdpBytes(m) + BthBytes(m) + payload;
    forall i | 0 <= i < |a| ensures Masked(a)[i] == b[i] {
    }
  }

  lemma MaskedIp(h: Headers)
    requires WellFormed(h)
    ensures var b, b' := IpBytes(h), IpBytes(MaskedHeaders(h));
            |b| == |b'| == 20 && forall i :: 0 <= i < 20 ==> b'[i] == if i == 1 || i == 8 || i == 10 || i == 11 then 0xFF else b[i]
  {
  }

  lemma MaskedUdp(h: Headers)
    requires WellFormed(h)
    ensures var b, b' := UdpBytes(h), UdpBytes(MaskedHeaders(h));
            |b| == |b'| == 8 && forall i :: 0 <= i < 8 ==> b'[i] == if i == 6 || i == 7 then 0xFF else b[i]
  {
  }

  lemma MaskedBth(h: Headers)
    requires WellFormed(h)
    ensures var b, b' := BthBytes(h), BthBytes(MaskedHeaders(h));
            |b| == |b'| == 12 && forall i :: 0 <= i < 12 ==> b'[i] == if i == 4 then 0xFF else b[i]
  {
  }

  const PSEUDO_LRH: seq<Byte> := [ONES, ONES, ONES, ONES, ONES, ONES, ONES, ONES]

  /** The specification: complement of the bit-serial CRC, started from all ones, over eight
      bytes of ones in place of the local route header and then the masked packet. */
  function InvariantCrc(packet: seq<Byte>): bv32 {
    !Serial(0xFFFF_FFFF, PSEUDO_LRH + Masked(packet))
  }

  // ----- the seed -----

  function EightSteps(c: bv32): bv32 {
    BitStep(BitStep(BitStep(BitStep(BitStep(BitStep(BitStep(BitStep(c))))))))
  }

  lemma EightStepsAreSteps(c: bv32)
    ensures Steps(c, 8) == EightSteps(c)
  {
    hide BitStep;
    assert Steps(c, 0) == c;
    assert Steps(c, 2) == BitStep(BitStep(c));
    assert Steps(c, 4) == BitStep(BitStep(BitStep(BitStep(c))));
    assert Steps(c, 6) == BitStep(BitStep(BitStep(BitStep(BitStep(BitStep(c))))));
  }

  predicate OnesStep(c: bv32, r: bv32) {
    EightSteps(Xor(c, 0xFF)) == r
  }

  lemma OnesByte(c: bv32, r: bv32, k: nat)
    requires k < 8
    requires Serial(0xFFFF_FFFF, PSEUDO_LRH[..k]) == c
    requires OnesStep(c, r)
    ensures Serial(0xFFFF_FFFF, PSEUDO_LRH[..k + 1]) == r
  {
    hide BitStep, Xor, EightSteps, Steps, Serial;
    assert PSEUDO_LRH[..k + 1] == PSEUDO_LRH[..k] + [ONES];
    SerialByte(0xFFFF_FFFF, PSEUDO_LRH[..k], ONES);
    EightStepsAreSteps(Xor(c, 0xFF));
    assert Widen(ONES) == 0xFF;
  }

  lemma SeedSteps()
    ensures OnesStep(0xFFFFFFFF, 0xFFFFFF)
    ensures OnesStep(0xFFFFFF, 0xFFFF)
    ensures OnesStep(0xFFFF, 0xFF)
    ensures OnesStep(0xFF, 0x0)
    ensures OnesStep(0x0, 0x2D02EF8D)
    ensures OnesStep(0x2D02EF8D, 0xBE2612FF)
    ensures OnesStep(0xBE2612FF, 0xBE2612)
    ensures OnesStep(0xBE2612, 0xDEBB20E3)
  {
  }

  /** The seed the code starts from is the register after eight bytes of ones. */
  lemma SeedIsPseudoHeader()
    ensures Serial(0xFFFF_FFFF, PSEUDO_LRH) == ICRC_SEED
  {
    hide Serial, EightSteps, OnesStep;
    assert PSEUDO_LRH[..0] == [] && PSEUDO_LRH[..8] == PSEUDO_LRH;
    SerialEmpty(0xFFFF_FFFF);
    SeedSteps();
    OnesByte(0xFFFFFFFF, 0xFFFFFF, 0);
    OnesByte(0xFFFFFF, 0xFFFF, 1);
    OnesByte(0xFFFF, 0xFF, 2);
    OnesByte(0xFF, 0x0, 3);
    OnesByte(0x0, 0x2D02EF8D, 4);
    OnesByte(0x2D02EF8D, 0xBE2612FF, 5);
    OnesByte(0xBE2612FF, 0xBE2612, 6);
    OnesByte(0xBE2612, 0xDEBB20E3, 7);
  }

  lemma SpecFromSeed(packet: seq<Byte>)
    ensures InvariantCrc(packet) == !Serial(ICRC_SEED, Masked(packet))
  {
    hide Serial, Masked;
    SeedIsPseudoHeader();
    SerialConcat(0xFFFF_FFFF, PSEUDO_LRH, Masked(packet));
  }

  // ----- the routine -----

  /** The fields the routine saves before it overwrites them. */
  datatype Saved = Saved(tos: Byte, ttl: Byte, ip0: Byte, ip1: Byte, udp0: Byte, udp1: Byte, reserved: Byte)

  method Overwrite(packet: array<Byte>) returns (saved: Saved)
    requires packet.Length > BTH_RESERVED
    modifies packet
    ensures packet[..] == Masked(old(packet[..]))
    ensures saved == SavedOf(old(packet[..]))
  {
    saved := Saved(packet[TOS], packet[TTL], packet[IP_CHECKSUM], packet[IP_CHECKSUM + 1],
                   packet[UDP_CHECKSUM], packet[UDP_CHECKSUM + 1], packet[BTH_RESERVED]);
    packet[TOS] := ONES;
    packet[TTL] := ONES;
    packet[IP_CHECKSUM], packet[IP_CHECKSUM + 1] := ONES, ONES;
    packet[UDP_CHECKSUM], packet[UDP_CHECKSUM + 1] := ONES, ONES;
    packet[BTH_RESERVED] := ONES;
  }

  ghost function SavedOf(p: seq<Byte>): Saved
    requires |p| > BTH_RESERVED
  {
    Saved(p[TOS], p[TTL], p[IP_CHECKSUM], p[IP_CHECKSUM + 1], p[UDP_CHECKSUM], p[UDP_CHECKSUM + 1], p[BTH_RESERVED])
  }

  ghost function Restored(m: seq<Byte>, s: Saved): seq<Byte>
    requires |m| > BTH_RESERVED
  {
    m[TOS := s.tos][TTL := s.ttl][IP_CHECKSUM := s.ip0][IP_CHECKSUM + 1 := s.ip1]
     [UDP_CHECKSUM := s.udp0][UDP_CHECKSUM + 1 := s.udp1][BTH_RESERVED := s.reserved]
  }

  lemma RestoredIsOriginal(original: seq<Byte>)
    requires |original| > BTH_RESERVED
    ensures Restored(Masked(original), SavedOf(original)) == original
  {
  }

  method PutBack(packet: array<Byte>, saved: Saved)
    requires packet.Length > BTH_RESERVED
    modifies packet
    ensures packet[..] == Restored(old(packet[..]), saved)
  {
    packet[TOS] := saved.tos;
    packet[TTL] := saved.ttl;
    packet[IP_CHECKSUM] := saved.ip0;
    packet[IP_CHECKSUM + 1] := saved.ip1;
    packet[UDP_CHECKSUM] := saved.udp0;
    packet[UDP_CHECKSUM + 1] := saved.udp1;
    packet[BTH_RESERVED] := saved.reserved;
  }

  /** Computes the invariant CRC of the first `BTH + length` bytes of `packet`, whose IPv4, UDP
      and base transport headers are contiguous.  The rewritable bytes are overwritten while
      the CRC runs and put back afterwards. */
  method RoceIcrc(packet: array<Byte>, length: nat, crc32: Crc32) returns (r: bv32)
    requires packet.Length > BTH_RESERVED && BTH + length <= packet.Length
    requires crc32.Valid()
    modifies packet, crc32`sliceReady, crc32.slice
    ensures crc32.Valid()
    ensures packet[..] == old(packet[..])
    ensures r == InvariantCrc(packet[..BTH + length])
  {
    hide Serial, InvariantCrc, Restored;
    ghost var original := packet[..];
    var saved := Overwrite(packet);
    assert packet[..BTH + length] == Masked(original[..BTH + length]);
    var crc := crc32.LeSlice8(ICRC_SEED, packet[..BTH + length]);
    PutBack(packet, saved);
    RestoredIsOriginal(original);
    SpecFromSeed(original[..BTH + length]);
    r := !crc;
  }

  // ----- what the invariant CRC does not see, and what it cannot miss -----

  predicate SameOffRewritable(p: seq<Byte>, q: seq<Byte>) {
    |p| == |q| && forall i :: 0 <= i < |p| && !Rewritable(i) ==> p[i] == q[i]
  }

  /** The bytes are all the difference the CRC can see. */
  lemma MaskedEqualIff(p: seq<Byte>, q: seq<Byte>)
    ensures Masked(p) == Masked(q) <==> SameOffRewritable(p, q)
  {
    if Masked(p) == Masked(q) {
      forall i | 0 <= i < |p| && !Rewritable(i) ensures p[i] == q[i] {
        assert Masked(p)[i] == Masked(q)[i];
      }
    }
  }

  /** Rewriting any of these bytes, in any way, leaves the CRC as it is. */
  lemma RewritesUnseen(p: seq<Byte>, q: seq<Byte>)
    requires SameOffRewritable(p, q)
    ensures InvariantCrc(p) == InvariantCrc(q)
  {
    hide Serial;
    MaskedEqualIff(p, q);
  }

  lemma ComplementInjective(a: bv32, b: bv32)
    requires !a == !b
    ensures a == b
  {
  }

  lemma {:induction false} WordBitsInjective(v: bv32, w: bv32, n: nat)
    requires ShiftedDown(v, n) == 0 && ShiftedDown(w, n) == 0
    requires WordBits(v, n) == WordBits(w, n)
    ensures v == w
    decreases n
  {
    if n > 0 {
      assert WordBits(v, n)[0] == WordBits(w, n)[0];
      assert WordBits(v, n)[1..] == WordBits(v >> 1, n - 1) && WordBits(w, n)[1..] == WordBits(w >> 1, n - 1);
      WordBitsInjective(v >> 1, w >> 1, n - 1);
      SameHalvesSameWord(v, w);
    }
  }

  lemma SameHalvesSameWord(v: bv32, w: bv32)
    requires v >> 1 == w >> 1
    requires (v & 1 == 1) == (w & 1 == 1)
    ensures v == w
  {
  }

  lemma ByteBitsInjective(a: Byte, b: Byte)
    requires ByteBits(a) == ByteBits(b)
    ensures a == b
  {
    hide WordBits;
    ByteFits(a);
    ByteFits(b);
    WordBitsInjective(a as bv32, b as bv32, 8);
    assert (a as bv32) as Byte == a && (b as bv32) as Byte == b;
  }

  lemma {:induction false} BitsOfInjective(a: seq<Byte>, b: seq<Byte>)
    requires |a| == |b|
    requires BitsOf(a) == BitsOf(b)
    ensures a == b
  {
    hide ByteBits;
    if a != [] {
      var n := |a| - 1;
      var x, y := BitsOf(a), BitsOf(b);
      assert x[..8 * n] == BitsOf(a[..n]) && y[..8 * n] == BitsOf(b[..n]);
      assert x[8 * n..] == ByteBits(a[n]) && y[8 * n..] == ByteBits(b[n]);
      BitsOfInjective(a[..n], b[..n]);
      ByteBitsInjective(a[n], b[n]);
      assert a == a[..n] + [a[n]] && b == b[..n] + [b[n]];
    }
  }

  /** No burst of at most 32 consecutive bits in the protected part goes unseen. */
  lemma BurstDetected(p: seq<Byte>, q: seq<Byte>, i: nat, j: nat)
    requires |p| == |q|
    requires i <= j <= 8 * |p| && j - i <= 32
    requires BitsOf(Masked(p))[..i] == BitsOf(Masked(q))[..i]
    requires BitsOf(Masked(p))[j..] == BitsOf(Masked(q))[j..]
    ensures InvariantCrc(p) == InvariantCrc(q) <==> SameOffRewritable(p, q)
  {
    hide BitsOf, Masked, SameOffRewritable, InvariantCrc;
    MaskedEqualIff(p, q);
    if Masked(p) == Masked(q) {
      SpecFromSeed(p);
      SpecFromSeed(q);
    } else {
      BurstChangesCrc(p, q, i, j);
    }
  }

  lemma BurstChangesCrc(p: seq<Byte>, q: seq<Byte>, i: nat, j: nat)
    requires |p| == |q| && Masked(p) != Masked(q)
    requires i <= j <= 8 * |p| && j - i <= 32
    requires BitsOf(Masked(p))[..i] == BitsOf(Masked(q))[..i]
    requires BitsOf(Masked(p))[j..] == BitsOf(Masked(q))[j..]
    ensures InvariantCrc(p) != InvariantCrc(q)
  {
    hide Serial, FeedBits, BitsOf, Masked, InvariantCrc;
    var x, y := BitsOf(Masked(p)), BitsOf(Masked(q));
    assert x == x[..i] + x[i..j] + x[j..] && y == y[..i] + y[i..j] + y[j..];
    if x[i..j] == y[i..j] {
      BitsOfInjective(Masked(p), Masked(q));
      assert false;
    }
    BurstChangesRegister(ICRC_SEED, x[..i], x[i..j], y[i..j], x[j..]);
    SerialIsFeed(p);
    SerialIsFeed(q);
    DifferentRegistersDifferentCrc(p, q);
  }

  lemma DifferentRegistersDifferentCrc(p: seq<Byte>, q: seq<Byte>)
    requires Serial(ICRC_SEED, Masked(p)) != Serial(ICRC_SEED, Masked(q))
    ensures InvariantCrc(p) != InvariantCrc(q)
  {
    hide Serial, Masked, InvariantCrc;
    SpecFromSeed(p);
    SpecFromSeed(q);
    if InvariantCrc(p) == InvariantCrc(q) {
      ComplementInjective(Serial(ICRC_SEED, Masked(p)), Serial(ICRC_SEED, Masked(q)));
    }
  }

  lemma SerialIsFeed(p: seq<Byte>)
    ensures Serial(ICRC_SEED, Masked(p)) == FeedBits(ICRC_SEED, BitsOf(Masked(p)))
  {
  }

  /** The byte-aligned case: a difference inside four consecutive bytes. */
  lemma FourByteBurstDetected(p: seq<Byte>, q: seq<Byte>, i: nat, j: nat)
    requires |p| == |q|
    requires i <= j <= |p| && j - i <= 4
    requires Masked(p)[..i] == Masked(q)[..i]
    requires Masked(p)[j..] == Masked(q)[j..]
    ensures InvariantCrc(p) == InvariantCrc(q) <==> SameOffRewritable(p, q)
  {
    hide BitsOf, InvariantCrc, SameOffRewritable;
    var m, m' := Masked(p), Masked(q);
    assert m == m[..i] + m[i..] && m == m[..j] + m[j..];
    assert m' == m'[..i] + m'[i..] && m' == m'[..j] + m'[j..];
    BitsOfConcat(m[..i], m[i..]);
    BitsOfConcat(m[..j], m[j..]);
    BitsOfConcat(m'[..i], m'[i..]);
    BitsOfConcat(m'[..j], m'[j..]);
    assert BitsOf(m)[..8 * i] == BitsOf(m'[..i]) == BitsOf(m')[..8 * i];
    assert BitsOf(m)[8 * j..] == BitsOf(m'[j..]) == BitsOf(m')[8 * j..];
    BurstDetected(p, q, 8 * i, 8 * j);
  }
}
