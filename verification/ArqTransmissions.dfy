/** What NACKs and timer sweeps hand to the network card: which packets, in which order, and how
    many transmissions of each packet the card then has to complete. */
module ArqTransmissions {
  import opened SerialNumbers
  import opened Buffers
  import opened ArqWindow
  import opened ArqAcks
  import opened ArqNacks
  import opened ArqTimeouts

  // ----- what the card is left with -----

  /** Transmissions of `m` among these operations that the card accepts. */
  function AcceptedOf(ops: seq<BufferOp>, m: Mbuf): nat {
    if ops == [] then 0
    else (if !ops[0].Release? && ops[0].m == m && ops[0].accepted then 1 else 0) + AcceptedOf(ops[1..], m)
  }

  lemma {:induction false} AcceptedConcat(a: seq<BufferOp>, b: seq<BufferOp>, m: Mbuf)
    ensures AcceptedOf(a + b, m) == AcceptedOf(a, m) + AcceptedOf(b, m)
  {
    if a == [] {
      assert a + b == b;
    } else {
      assert (a + b)[0] == a[0] && (a + b)[1..] == a[1..] + b;
      AcceptedConcat(a[1..], b, m);
    }
  }

  /** The card holds one more reference for each of them, and no others. */
  lemma {:induction false} PendingGrows(p: Pool, ops: seq<BufferOp>, m: Mbuf)
    ensures ApplyAll(p, ops).pending[m] == p.pending[m] + AcceptedOf(ops, m)
    decreases ops
  {
    if ops != [] {
      PendingGrows(Apply(p, ops[0]), ops[1..], m);
    }
  }

  // ----- a NACK -----

  /** The packets of entries `i` to `j`, oldest first, each with the card's answer. */
  function PacketsOf(slots: seq<Entry>, accepts: nat -> bool, i: nat, j: nat): seq<BufferOp>
    requires |slots| == WINDOW_SIZE
    decreases j - i
  {
    if i >= j then []
    else
      var rest := PacketsOf(slots, accepts, i + 1, j);
      match slots[i % WINDOW_SIZE].mbuf
      case None => rest
      case Some(m) => [Transmit(m, accepts(i))] + rest
  }

  /** Entries from `i` to `j` that hold `m` and whose transmission the card accepts. */
  ghost function Copies(slots: seq<Entry>, accepts: nat -> bool, m: Mbuf, i: nat, j: nat): set<nat>
    requires |slots| == WINDOW_SIZE
  {
    set c: nat | i <= c < j && slots[c % WINDOW_SIZE].mbuf == Some(m) && accepts(c)
  }

  lemma {:induction false} ResendFront(slots: seq<Entry>, i: nat, rest: seq<nat>, accepts: nat -> bool)
    requires |slots| == WINDOW_SIZE
    ensures ResendOps(slots, [i] + rest, accepts) == ResendPacket(slots[Slot(i)], accepts(i)) + ResendOps(slots, rest, accepts)
  {
    hide ResendPacket, Slot;
    var picks := [i] + rest;
    var n := |picks| - 1;
    if rest == [] {
      assert picks == [i] && picks[..0] == [];
      assert ResendOps(slots, picks[..0], accepts) == [];
    } else {
      assert picks[..n] == [i] + rest[..|rest| - 1];
      ResendFront(slots, i, rest[..|rest| - 1], accepts);
    }
  }

  lemma {:induction false} ResendRange(slots: seq<Entry>, accepts: nat -> bool, i: nat, j: nat)
    requires |slots| == WINDOW_SIZE
    ensures ResendOps(slots, Range(i, j), accepts) == PacketsOf(slots, accepts, i, j)
    decreases j - i
  {
    if i < j {
      hide ResendOps;
      assert Range(i, j) == [i] + Range(i + 1, j);
      ResendFront(slots, i, Range(i + 1, j), accepts);
      ResendRange(slots, accepts, i + 1, j);
    }
  }

  /** The entries a NACK at distance `d` retransmits end here. */
  function BurstEnd(w: Window, d: nat): nat
    requires w.base <= w.next
  {
    Min(w.base + PickLimit(d, Occupancy(w)), w.base + FirstPick(d) + MAX_RETX_BURST)
  }

  /** A NACK transmits exactly the packets of the entries it selects, oldest first. */
  lemma NackTransmitsExactly(w: Window, first: u32, nack: u32, accepts: nat -> bool)
    requires Consecutive(w, first)
    ensures var d := ForwardDist(first, nack);
            NackOps(w, nack, accepts) == PacketsOf(w.slots, accepts, w.base + FirstPick(d), BurstEnd(w, d))
  {
    hide ForwardDist, Range, PacketsOf;
    NackSelectsExactly(w, first, nack);
    ResendRange(w.slots, accepts, w.base + FirstPick(ForwardDist(first, nack)), BurstEnd(w, ForwardDist(first, nack)));
  }

  lemma CopiesStep(slots: seq<Entry>, accepts: nat -> bool, m: Mbuf, i: nat, j: nat)
    requires |slots| == WINDOW_SIZE
    ensures if i >= j then Copies(slots, accepts, m, i, j) == {}
            else (|Copies(slots, accepts, m, i, j)|
                  == |Copies(slots, accepts, m, i + 1, j)| + if slots[i % WINDOW_SIZE].mbuf == Some(m) && accepts(i) then 1 else 0)
  {
    if i < j {
      var here := slots[i % WINDOW_SIZE].mbuf == Some(m) && accepts(i);
      assert Copies(slots, accepts, m, i, j) == Copies(slots, accepts, m, i + 1, j) + if here then {i} else {};
    }
  }

  lemma {:induction false} CopiesAccepted(slots: seq<Entry>, accepts: nat -> bool, m: Mbuf, i: nat, j: nat)
    requires |slots| == WINDOW_SIZE
    ensures AcceptedOf(PacketsOf(slots, accepts, i, j), m) == |Copies(slots, accepts, m, i, j)|
    decreases j - i
  {
    CopiesStep(slots, accepts, m, i, j);
    hide Copies;
    if i < j {
      CopiesAccepted(slots, accepts, m, i + 1, j);
      var rest := PacketsOf(slots, accepts, i + 1, j);
      if slots[i % WINDOW_SIZE].mbuf.Some? {
        var op := Transmit(slots[i % WINDOW_SIZE].mbuf.value, accepts(i));
        assert ([op] + rest)[1..] == rest;
      }
    }
  }

  /** The entries of the burst that hold `m` and that the card accepts. */
  ghost function NackCopies(w: Window, d: nat, accepts: nat -> bool, m: Mbuf): set<nat>
    requires |w.slots| == WINDOW_SIZE && w.base <= w.next
  {
    Copies(w.slots, accepts, m, w.base + FirstPick(d), BurstEnd(w, d))
  }

  /** After a NACK the card has to complete one transmission more of `m` for each entry in the burst
      that holds `m` and that it accepted, and no others. */
  lemma NackPendingExactly(w: Window, first: u32, nack: u32, accepts: nat -> bool, p: Pool, m: Mbuf)
    requires Consecutive(w, first)
    ensures ApplyAll(p, NackOps(w, nack, accepts)).pending[m]
         == p.pending[m] + |NackCopies(w, ForwardDist(first, nack), accepts, m)|
  {
    hide PacketsOf, NackOps, ForwardDist, ApplyAll;
    var d := ForwardDist(first, nack);
    NackTransmitsExactly(w, first, nack, accepts);
    PendingGrows(p, NackOps(w, nack, accepts), m);
    CopiesAccepted(w.slots, accepts, m, w.base + FirstPick(d), BurstEnd(w, d));
  }

  // ----- a timer sweep of one turn of the ring -----

  /** The entry is in flight and has waited longer than the timeout. */
  predicate Late(e: Entry, now: u64, timeout: u64) {
    e.inFlight && (now - e.sendTime) % 0x1_0000_0000_0000_0000 > timeout
  }

  predicate RetryDue(e: Entry, now: u64, timeout: u64) {
    Late(e, now, timeout) && e.retryCount < 3
  }

  predicate DropDue(e: Entry, now: u64, timeout: u64) {
    Late(e, now, timeout) && e.retryCount >= 3
  }

  /** A late entry is transmitted again while it has been retried fewer than three times, then
      given up. */
  function ExpiryOf(e: Entry, now: u64, timeout: u64, accepted: bool): seq<BufferOp> {
    if e.mbuf.None? then []
    else if RetryDue(e, now, timeout) then [Transmit(e.mbuf.value, accepted)]
    else if DropDue(e, now, timeout) then [Release(e.mbuf.value)]
    else []
  }

  /** What becomes of entries `i` to `j`, as they were before the sweep, oldest first. */
  function ExpiriesOf(slots: seq<Entry>, now: u64, timeout: u64, accepts: nat -> bool, i: nat, j: nat): seq<BufferOp>
    requires |slots| == WINDOW_SIZE
    decreases j - i
  {
    if i >= j then []
    else ExpiryOf(slots[i % WINDOW_SIZE], now, timeout, accepts(i)) + ExpiriesOf(slots, now, timeout, accepts, i + 1, j)
  }

  lemma {:induction false} ExpiriesUntouched(slots: seq<Entry>, now: u64, timeout: u64, accepts: nat -> bool, i: nat, j: nat, s: nat, e: Entry)
    requires |slots| == WINDOW_SIZE && s < WINDOW_SIZE
    requires forall c: nat {:trigger Slot(c)} :: i <= c < j ==> Slot(c) != s
    ensures ExpiriesOf(slots[s := e], now, timeout, accepts, i, j) == ExpiriesOf(slots, now, timeout, accepts, i, j)
    decreases j - i
  {
    hide ExpiryOf;
    if i < j {
      assert Slot(i) != s;
      ExpiriesUntouched(slots, now, timeout, accepts, i + 1, j, s, e);
    }
  }

  lemma LaterSlotsApart(i: nat, next: nat)
    requires next <= i + WINDOW_SIZE
    ensures forall c: nat {:trigger Slot(c)} :: i + 1 <= c < next ==> Slot(c) != Slot(i)
  {
    forall c: nat {:trigger Slot(c)} | i + 1 <= c < next ensures Slot(c) != Slot(i) {
      SlotsApart(i, c);
    }
  }

  /** Slots in flight have a packet. */
  ghost predicate Owned(slots: seq<Entry>) {
    |slots| == WINDOW_SIZE && forall s :: 0 <= s < WINDOW_SIZE && slots[s].inFlight ==> slots[s].mbuf.Some?
  }

  lemma SoundOwned(w: Window)
    requires Sound(w)
    ensures Owned(w.slots)
  {
  }

  lemma ExpireDoes(w: Window, i: nat, now: u64, timeout: u64, accepted: bool)
    requires Owned(w.slots)
    ensures var w' := Expire(w, i, now, timeout);
            && ExpireOps(w.slots[Slot(i)], accepted, now, timeout) == ExpiryOf(w.slots[Slot(i)], now, timeout, accepted)
            && w'.slots == w.slots[Slot(i) := w'.slots[Slot(i)]] && Owned(w'.slots) && w'.next == w.next
            && RetryPacket(w'.slots[Slot(i)], now, timeout) == multiset{} && DropPacket(w'.slots[Slot(i)], now, timeout) == multiset{}
  {
    assert Elapsed(now, now) == 0;
  }

  /** The sweep at counter `i`: the slot of entry `i` becomes `e`, what that entry called for is done,
      and the rest follows. */
  ghost predicate GoesOn(w: Window, w': Window, e: Entry, i: nat, now: u64, timeout: u64, accepts: nat -> bool) {
    && |w.slots| == WINDOW_SIZE && w'.slots == w.slots[Slot(i) := e] && Owned(w'.slots) && w'.next == w.next
    && RetryPacket(e, now, timeout) == multiset{} && DropPacket(e, now, timeout) == multiset{}
    && SweptFrom(w, i, now, timeout) == SweptFrom(w', i + 1, now, timeout)
    && SweepOpsFrom(w, i, now, timeout, accepts)
       == ExpiryOf(w.slots[Slot(i)], now, timeout, accepts(i)) + SweepOpsFrom(w', i + 1, now, timeout, accepts)
  }

  lemma SweepGoesOn(w: Window, i: nat, now: u64, timeout: u64, accepts: nat -> bool) returns (w': Window, e: Entry)
    requires Owned(w.slots) && i < w.next
    ensures GoesOn(w, w', e, i, now, timeout, accepts)
  {
    w' := Expire(w, i, now, timeout);
    e := w'.slots[Slot(i)];
    ExpireDoes(w, i, now, timeout, accepts(i));
    hide Expire, ExpireOps, ExpiryOf, RetryPacket, DropPacket, Slot, Owned;
  }

  lemma {:induction false} SweepFromExpires(w: Window, i: nat, now: u64, timeout: u64, accepts: nat -> bool)
    requires Owned(w.slots) && w.next <= i + WINDOW_SIZE
    ensures SweepOpsFrom(w, i, now, timeout, accepts) == ExpiriesOf(w.slots, now, timeout, accepts, i, w.next)
    decreases w.next - i
  {
    if i < w.next {
      var w', e := SweepGoesOn(w, i, now, timeout, accepts);
      LaterSlotsApart(i, w.next);
      ExpiriesStep(w.slots, e, now, timeout, accepts, i, w.next);
      hide SweepOpsFrom, ExpiriesOf, ExpiryOf, Owned, Slot, RetryPacket, DropPacket, SweptFrom;
      SweepFromExpires(w', i + 1, now, timeout, accepts);
    }
  }

  lemma ExpiriesStep(slots: seq<Entry>, e: Entry, now: u64, timeout: u64, accepts: nat -> bool, i: nat, j: nat)
    requires |slots| == WINDOW_SIZE && i < j
    requires forall c: nat {:trigger Slot(c)} :: i + 1 <= c < j ==> Slot(c) != Slot(i)
    ensures ExpiriesOf(slots, now, timeout, accepts, i, j)
         == ExpiryOf(slots[Slot(i)], now, timeout, accepts(i)) + ExpiriesOf(slots[Slot(i) := e], now, timeout, accepts, i + 1, j)
  {
    hide ExpiryOf;
    ExpiriesUntouched(slots, now, timeout, accepts, i + 1, j, Slot(i), e);
  }

  /** With at most 256 entries outstanding a sweep does to the card and the buffers exactly what each
      entry, as it was, calls for. */
  lemma SweepExpiresExactly(w: Window, now: u64, timeout: u64, accepts: nat -> bool)
    requires Sound(w) && w.next <= w.base + WINDOW_SIZE
    ensures SweepOps(w, now, timeout, accepts) == ExpiriesOf(w.slots, now, timeout, accepts, w.base, w.next)
  {
    SoundOwned(w);
    SweepFromExpires(w, w.base, now, timeout, accepts);
  }

  /** Entries from `i` to `j` that hold `m`, are late with fewer than three retries, and whose
      transmission the card accepts. */
  ghost function LateCopies(slots: seq<Entry>, now: u64, timeout: u64, accepts: nat -> bool, m: Mbuf, i: nat, j: nat): set<nat>
    requires |slots| == WINDOW_SIZE
  {
    set c: nat | i <= c < j && slots[c % WINDOW_SIZE].mbuf == Some(m) && RetryDue(slots[c % WINDOW_SIZE], now, timeout) && accepts(c)
  }

  lemma ExpiryAccepted(e: Entry, now: u64, timeout: u64, accepted: bool, m: Mbuf)
    ensures AcceptedOf(ExpiryOf(e, now, timeout, accepted), m)
         == if e.mbuf == Some(m) && RetryDue(e, now, timeout) && accepted then 1 else 0
  {
    hide Late;
    if e.mbuf.Some? {
      assert [Transmit(e.mbuf.value, accepted)][1..] == [] && [Release(e.mbuf.value)][1..] == [];
    }
  }

  lemma LateCopiesStep(slots: seq<Entry>, now: u64, timeout: u64, accepts: nat -> bool, m: Mbuf, i: nat, j: nat)
    requires |slots| == WINDOW_SIZE
    ensures if i >= j then LateCopies(slots, now, timeout, accepts, m, i, j) == {}
            else (|LateCopies(slots, now, timeout, accepts, m, i, j)|
                  == |LateCopies(slots, now, timeout, accepts, m, i + 1, j)|
                     + if slots[i % WINDOW_SIZE].mbuf == Some(m) && RetryDue(slots[i % WINDOW_SIZE], now, timeout) && accepts(i) then 1 else 0)
  {
    hide RetryDue;
    if i < j {
      var here := slots[i % WINDOW_SIZE].mbuf == Some(m) && RetryDue(slots[i % WINDOW_SIZE], now, timeout) && accepts(i);
      assert LateCopies(slots, now, timeout, accepts, m, i, j)
          == LateCopies(slots, now, timeout, accepts, m, i + 1, j) + if here then {i} else {};
    }
  }

  lemma {:induction false} LateCopiesAccepted(slots: seq<Entry>, now: u64, timeout: u64, accepts: nat -> bool, m: Mbuf, i: nat, j: nat)
    requires |slots| == WINDOW_SIZE
    ensures AcceptedOf(ExpiriesOf(slots, now, timeout, accepts, i, j), m) == |LateCopies(slots, now, timeout, accepts, m, i, j)|
    decreases j - i
  {
    hide RetryDue, ExpiryOf, LateCopies;
    LateCopiesStep(slots, now, timeout, accepts, m, i, j);
    if i < j {
      var e := slots[i % WINDOW_SIZE];
      LateCopiesAccepted(slots, now, timeout, accepts, m, i + 1, j);
      ExpiryAccepted(e, now, timeout, accepts(i), m);
      AcceptedConcat(ExpiryOf(e, now, timeout, accepts(i)), ExpiriesOf(slots, now, timeout, accepts, i + 1, j), m);
    }
  }

  /** After a sweep the card has to complete one transmission more of `m` for each such entry. */
  lemma SweepPendingExactly(w: Window, now: u64, timeout: u64, accepts: nat -> bool, p: Pool, m: Mbuf)
    requires Sound(w) && w.next <= w.base + WINDOW_SIZE
    ensures ApplyAll(p, SweepOps(w, now, timeout, accepts)).pending[m]
         == p.pending[m] + |LateCopies(w.slots, now, timeout, accepts, m, w.base, w.next)|
  {
    assert |w.slots| == WINDOW_SIZE;
    SweepExpiresExactly(w, now, timeout, accepts);
    hide ApplyAll, Sound, ExpiriesOf, SweepOpsFrom;
    PendingGrows(p, SweepOps(w, now, timeout, accepts), m);
    LateCopiesAccepted(w.slots, now, timeout, accepts, m, w.base, w.next);
  }

  // ----- any timer sweep -----

  /** The packets handed to the card, accepted or not. */
  function Transmitted(ops: seq<BufferOp>): multiset<Mbuf> {
    if ops == [] then multiset{}
    else (if ops[0].Transmit? then multiset{ops[0].m} else multiset{}) + Transmitted(ops[1..])
  }

  /** The packets given up. */
  function Released(ops: seq<BufferOp>): multiset<Mbuf> {
    if ops == [] then multiset{}
    else (if ops[0].Release? then multiset{ops[0].m} else multiset{}) + Released(ops[1..])
  }

  lemma {:induction false} TransmittedConcat(a: seq<BufferOp>, b: seq<BufferOp>)
    ensures Transmitted(a + b) == Transmitted(a) + Transmitted(b)
    ensures Released(a + b) == Released(a) + Released(b)
  {
    if a == [] {
      assert a + b == b;
    } else {
      assert (a + b)[0] == a[0] && (a + b)[1..] == a[1..] + b;
      TransmittedConcat(a[1..], b);
    }
  }

  /** The packet of an entry, if it has one. */
  function PacketOf(e: Entry): multiset<Mbuf> {
    if e.mbuf.Some? then multiset{e.mbuf.value} else multiset{}
  }

  function RetryPacket(e: Entry, now: u64, timeout: u64): multiset<Mbuf> {
    if RetryDue(e, now, timeout) then PacketOf(e) else multiset{}
  }

  function DropPacket(e: Entry, now: u64, timeout: u64): multiset<Mbuf> {
    if DropDue(e, now, timeout) then PacketOf(e) else multiset{}
  }

  /** The packets of the entries due for a retry. */
  function RetryPackets(slots: seq<Entry>, now: u64, timeout: u64): multiset<Mbuf> {
    if slots == [] then multiset{}
    else RetryPackets(slots[..|slots| - 1], now, timeout) + RetryPacket(slots[|slots| - 1], now, timeout)
  }

  /** The packets of the entries due to be dropped. */
  function DropPackets(slots: seq<Entry>, now: u64, timeout: u64): multiset<Mbuf> {
    if slots == [] then multiset{}
    else DropPackets(slots[..|slots| - 1], now, timeout) + DropPacket(slots[|slots| - 1], now, timeout)
  }

  lemma Exchange<T(!new)>(a: multiset<T>, b: multiset<T>, c: multiset<T>, x: multiset<T>, y: multiset<T>)
    requires a + x == b + y
    ensures (a + c) + x == (b + c) + y
  {
    forall t ensures ((a + c) + x)[t] == ((b + c) + y)[t] {
      assert (a + x)[t] == (b + y)[t];
    }
  }

  lemma {:induction false} RetryPacketsUpdate(slots: seq<Entry>, s: nat, e: Entry, now: u64, timeout: u64)
    requires s < |slots|
    ensures RetryPackets(slots[s := e], now, timeout) + RetryPacket(slots[s], now, timeout)
         == RetryPackets(slots, now, timeout) + RetryPacket(e, now, timeout)
  {
    hide RetryPacket;
    var n := |slots| - 1;
    if s < n {
      RetryPacketsUpdate(slots[..n], s, e, now, timeout);
      assert slots[s := e][..n] == slots[..n][s := e];
      Exchange(RetryPackets(slots[..n][s := e], now, timeout), RetryPackets(slots[..n], now, timeout), RetryPacket(slots[n], now, timeout),
               RetryPacket(slots[s], now, timeout), RetryPacket(e, now, timeout));
    } else {
      assert slots[s := e][..n] == slots[..n];
    }
  }

  lemma {:induction false} DropPacketsUpdate(slots: seq<Entry>, s: nat, e: Entry, now: u64, timeout: u64)
    requires s < |slots|
    ensures DropPackets(slots[s := e], now, timeout) + DropPacket(slots[s], now, timeout)
         == DropPackets(slots, now, timeout) + DropPacket(e, now, timeout)
  {
    hide DropPacket;
    var n := |slots| - 1;
    if s < n {
      DropPacketsUpdate(slots[..n], s, e, now, timeout);
      assert slots[s := e][..n] == slots[..n][s := e];
      Exchange(DropPackets(slots[..n][s := e], now, timeout), DropPackets(slots[..n], now, timeout), DropPacket(slots[n], now, timeout),
               DropPacket(slots[s], now, timeout), DropPacket(e, now, timeout));
    } else {
      assert slots[s := e][..n] == slots[..n];
    }
  }

  lemma {:induction false} NoPacketsDue(slots: seq<Entry>, now: u64, timeout: u64)
    requires forall s :: 0 <= s < |slots| ==> !Late(slots[s], now, timeout)
    ensures RetryPackets(slots, now, timeout) == multiset{} && DropPackets(slots, now, timeout) == multiset{}
  {
    hide Late;
    if slots != [] {
      NoPacketsDue(slots[..|slots| - 1], now, timeout);
    }
  }

  lemma ExpiryMoves(e: Entry, now: u64, timeout: u64, accepted: bool)
    ensures Transmitted(ExpiryOf(e, now, timeout, accepted)) == RetryPacket(e, now, timeout)
    ensures Released(ExpiryOf(e, now, timeout, accepted)) == DropPacket(e, now, timeout)
  {
    hide Late;
    if e.mbuf.Some? {
      assert [Transmit(e.mbuf.value, accepted)][1..] == [] && [Release(e.mbuf.value)][1..] == [];
    }
  }

  lemma {:induction false} SweepHandsOver(w: Window, i: nat, now: u64, timeout: u64, accepts: nat -> bool)
    requires Owned(w.slots)
    ensures var w', ops := SweptFrom(w, i, now, timeout), SweepOpsFrom(w, i, now, timeout, accepts);
            && Transmitted(ops) + RetryPackets(w'.slots, now, timeout) == RetryPackets(w.slots, now, timeout)
            && Released(ops) + DropPackets(w'.slots, now, timeout) == DropPackets(w.slots, now, timeout)
    decreases w.next - i
  {
    if i < w.next {
      var w1, e := SweepGoesOn(w, i, now, timeout, accepts);
      hide SweepOpsFrom, SweptFrom, ExpiryOf, Owned, Slot, RetryPacket, DropPacket, Transmitted, Released, RetryPackets, DropPackets;
      EntryMoves(w.slots, Slot(i), e, now, timeout, accepts(i));
      SweepHandsOver(w1, i + 1, now, timeout, accepts);
      var ops, rest := ExpiryOf(w.slots[Slot(i)], now, timeout, accepts(i)), SweepOpsFrom(w1, i + 1, now, timeout, accepts);
      var w' := SweptFrom(w1, i + 1, now, timeout);
      ChainMoves(ops, rest, RetryPackets(w.slots, now, timeout), RetryPackets(w1.slots, now, timeout), RetryPackets(w'.slots, now, timeout),
                 DropPackets(w.slots, now, timeout), DropPackets(w1.slots, now, timeout), DropPackets(w'.slots, now, timeout));
    }
  }

  lemma ChainMoves(ops: seq<BufferOp>, rest: seq<BufferOp>, a: multiset<Mbuf>, b: multiset<Mbuf>, c: multiset<Mbuf>,
                   x: multiset<Mbuf>, y: multiset<Mbuf>, z: multiset<Mbuf>)
    requires Transmitted(ops) + b == a && Transmitted(rest) + c == b
    requires Released(ops) + y == x && Released(rest) + z == y
    ensures Transmitted(ops + rest) + c == a && Released(ops + rest) + z == x
  {
    hide Transmitted, Released;
    TransmittedConcat(ops, rest);
  }

  /** One entry of the sweep, done and not due any more. */
  lemma EntryMoves(slots: seq<Entry>, s: nat, e: Entry, now: u64, timeout: u64, accepted: bool)
    requires s < |slots| && RetryPacket(e, now, timeout) == multiset{} && DropPacket(e, now, timeout) == multiset{}
    ensures var ops := ExpiryOf(slots[s], now, timeout, accepted);
            && Transmitted(ops) + RetryPackets(slots[s := e], now, timeout) == RetryPackets(slots, now, timeout)
            && Released(ops) + DropPackets(slots[s := e], now, timeout) == DropPackets(slots, now, timeout)
  {
    hide ExpiryOf, Transmitted, Released, RetryPackets, DropPackets, RetryPacket, DropPacket;
    ExpiryMoves(slots[s], now, timeout, accepted);
    RetryPacketsUpdate(slots, s, e, now, timeout);
    DropPacketsUpdate(slots, s, e, now, timeout);
    Settle(RetryPackets(slots[s := e], now, timeout), RetryPacket(slots[s], now, timeout), RetryPackets(slots, now, timeout));
    Settle(DropPackets(slots[s := e], now, timeout), DropPacket(slots[s], now, timeout), DropPackets(slots, now, timeout));
  }

  lemma Settle<T(!new)>(a: multiset<T>, x: multiset<T>, b: multiset<T>)
    requires a + x == b + multiset{}
    ensures x + a == b
  {
    assert x + a == a + x;
    assert b + multiset{} == b;
  }

  lemma PacketCount(e: Entry, now: u64, timeout: u64)
    requires e.inFlight ==> e.mbuf.Some?
    ensures |RetryPacket(e, now, timeout)| == One(ToRetry(e, now, timeout))
    ensures |DropPacket(e, now, timeout)| == One(ToDrop(e, now, timeout))
  {
  }

  lemma {:induction false} RetryCounts(slots: seq<Entry>, now: u64, timeout: u64)
    requires forall s :: 0 <= s < |slots| && slots[s].inFlight ==> slots[s].mbuf.Some?
    ensures |RetryPackets(slots, now, timeout)| == DueRetries(slots, now, timeout)
  {
    hide RetryPacket, ToRetry, One, DropPacket, ToDrop;
    if slots != [] {
      var n := |slots| - 1;
      RetryCounts(slots[..n], now, timeout);
      PacketCount(slots[n], now, timeout);
    }
  }

  lemma {:induction false} DropCounts(slots: seq<Entry>, now: u64, timeout: u64)
    requires forall s :: 0 <= s < |slots| && slots[s].inFlight ==> slots[s].mbuf.Some?
    ensures |DropPackets(slots, now, timeout)| == DueDrops(slots, now, timeout)
  {
    hide RetryPacket, ToRetry, One, DropPacket, ToDrop;
    if slots != [] {
      var n := |slots| - 1;
      DropCounts(slots[..n], now, timeout);
      PacketCount(slots[n], now, timeout);
    }
  }

  lemma SweptNotLate(w: Window, now: u64, timeout: u64)
    requires Sound(w)
    ensures forall s :: 0 <= s < WINDOW_SIZE ==> !Late(Swept(w, now, timeout).slots[s], now, timeout)
  {
    SweptExact(w, now, timeout);
    hide Sound, Aged, Swept, DueRetries, DueDrops;
    forall s | 0 <= s < WINDOW_SIZE ensures !Late(Swept(w, now, timeout).slots[s], now, timeout) {
      AgedIsDone(w.slots[s], now, timeout);
    }
  }

  /** Every sweep, however many entries are outstanding, hands to the card exactly the packets due
      for a retry and gives up exactly those due to be dropped: as many as the two counters say. */
  lemma SweepMovesExactly(w: Window, now: u64, timeout: u64, accepts: nat -> bool)
    requires Sound(w)
    ensures var ops := SweepOps(w, now, timeout, accepts);
            && Transmitted(ops) == RetryPackets(w.slots, now, timeout)
            && Released(ops) == DropPackets(w.slots, now, timeout)
            && |Transmitted(ops)| == DueRetries(w.slots, now, timeout)
            && |Released(ops)| == DueDrops(w.slots, now, timeout)
  {
    RetryCounts(w.slots, now, timeout);
    DropCounts(w.slots, now, timeout);
    SweptNotLate(w, now, timeout);
    SoundOwned(w);
    SweepHandsOver(w, w.base, now, timeout, accepts);
    hide Sound, Transmitted, Released, RetryPackets, DropPackets, SweptFrom, SweepOpsFrom, DueRetries, DueDrops, Late;
    NoPacketsDue(Swept(w, now, timeout).slots, now, timeout);
  }
}
