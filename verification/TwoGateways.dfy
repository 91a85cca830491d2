/** Two gateways and the WAN between them: the send window of one, the reassembly buffer of
    the other, and a channel that loses, repeats and reorders everything sent over it. */
module TwoGateways {
  import opened SerialNumbers
  import opened Buffers
  import opened ArqWindow
  import opened ArqRuns
  import opened ArqAcks
  import opened ArqNacks
  import opened ArqTimeouts
  import opened Reassembly
  import opened ReassemblyOrder
  import opened WanPath

  // ----- the system -----

  /** One message: its queue pair, the PSN of its first segment, its packets and the opcodes they
      carry on the wire; the sender's
      window with nothing outstanding; whatever the receiver has pending for other queue pairs;
      and acknowledgements of earlier messages still on the WAN. */
  datatype Setup = Setup(qpn: u32, start: u32, packets: seq<Mbuf>, opcodes: seq<u8>, w0: Window, pending0: Pending, stale: set<u32>)

  ghost predicate ValidSetup(u: Setup) {
    && 0 < |u.packets| <= JB_MAX_SEGMENTS
    && |u.opcodes| == |u.packets| && (forall i :: 0 <= i < |u.opcodes| ==> OpcodeFor(u.opcodes[i], i, |u.opcodes|))
    && u.qpn !in u.pending0
    && Sound(u.w0) && u.w0.base == u.w0.next
    && forall p :: p in u.stale ==> Stale(u.start, p)
  }

  /** Behind the start by less than half the number space, a window's length aside. */
  predicate Stale(start: u32, p: u32) {
    0 < ForwardDist(p, start) <= HALF - WINDOW_SIZE
  }

  /** The acknowledgement `p` covers segment `c`. */
  predicate Covered(u: Setup, p: u32, c: nat) {
    ForwardDist(Advance(u.start, c), p) < HALF
  }

  lemma StaleCoversNothing(u: Setup, p: u32, c: nat)
    requires Stale(u.start, p) && c < WINDOW_SIZE
    ensures !Covered(u, p, c)
  {
    DistIsModular(p, u.start);
    DistIsModular(u.start, p);
    DistFromAdvanced(u.start, c, p);
  }

  lemma CoveredIff(u: Setup, j: nat, c: nat)
    requires j < WINDOW_SIZE && c < WINDOW_SIZE
    ensures Covered(u, Advance(u.start, j), c) <==> c <= j
  {
    hide Advance;
    DistToAdvanced(u.start, j);
    DistFromAdvanced(u.start, c, Advance(u.start, j));
  }

  /** `sent`: segments the sender has been given.  `nacks`, `acks`: what the receiver has ever
      put on the WAN, stale acknowledgements included.  `stored`: the segments it has stored, in that order.  `deliveries`: what
      it has put on its LAN. */
  datatype World = World(w: Window, sent: nat, pending: Pending, nacks: set<u32>, acks: set<u32>,
                         stored: seq<nat>, deliveries: seq<seq<Mbuf>>)

  datatype Move =
    | SendNext(now: u64)
    | SenderTimer(now: u64, timeout: u64)
    | DataArrives(i: nat)
    | AckArrives(ack: u32)
    | NackArrives(nack: u32, clock: nat -> u64)
    | OtherData(qpn: u32, opcode: u8, psn: u32, m: Mbuf)

  function ToSet(o: Option<u32>): set<u32> {
    if o.Some? then {o.value} else {}
  }

  /** What can happen: anything ever sent may arrive, any number of times, at any time or never.
      Data is taken as sent from the moment the sender has it, whether or not its card accepts it. */
  ghost predicate Possible(u: Setup, s: World, mv: Move) {
    match mv
    case SendNext(_) => s.sent < |u.packets|
    case SenderTimer(_, _) => true
    case DataArrives(i) => i < s.sent
    case AckArrives(ack) => ack in s.acks
    case NackArrives(nack, _) => nack in s.nacks
    case OtherData(qpn, _, _, _) => qpn != u.qpn
  }

  ghost predicate Shaped(u: Setup, s: World) {
    |s.w.slots| == WINDOW_SIZE && s.w.base <= s.w.next && s.sent <= |u.packets| == |u.opcodes|
  }

  ghost function Next(u: Setup, s: World, mv: Move): (s': World)
    requires Shaped(u, s) && Possible(u, s, mv)
    ensures Shaped(u, s')
  {
    match mv
    case SendNext(now) =>
      s.(w := Sent(s.w, u.packets[s.sent], Advance(u.start, s.sent), SegmentTypeOf(u.opcodes[s.sent]), now), sent := s.sent + 1)
    case SenderTimer(now, timeout) => s.(w := Swept(s.w, now, timeout))
    case DataArrives(i) =>
      var r := WanPacket(s.pending, u.opcodes[i], u.qpn, Advance(u.start, i), u.packets[i]);
      s.(pending := r.pending,
         stored := if r.status == Stored then s.stored + [i] else s.stored,
         nacks := s.nacks + ToSet(r.nack),
         acks := s.acks + ToSet(r.ack),
         deliveries := if r.delivered.Some? then s.deliveries + [r.delivered.value] else s.deliveries)
    case AckArrives(ack) => s.(w := Acked(s.w, ack))
    case NackArrives(nack, clock) => s.(w := Nacked(s.w, nack, clock))
    case OtherData(qpn, opcode, psn, m) => s.(pending := WanPacket(s.pending, opcode, qpn, psn, m).pending)
  }

  function Start(u: Setup): World {
    World(u.w0, 0, u.pending0, {}, u.stale, [], [])
  }

  ghost function Run(u: Setup, moves: seq<Move>): (r: Option<World>)
    requires ValidSetup(u)
    ensures r.Some? ==> Shaped(u, r.value)
    decreases |moves|
  {
    if moves == [] then Some(Start(u))
    else
      var before := Run(u, moves[..|moves| - 1]);
      if before.Some? && Possible(u, before.value, moves[|moves| - 1])
      then Some(Next(u, before.value, moves[|moves| - 1])) else None
  }

  /** What the receiver makes of segment `i` as it comes off the wire. */
  lemma Decoded(u: Setup, b: Pending, i: nat)
    requires ValidSetup(u) && i < |u.packets|
    ensures WanPacket(b, u.opcodes[i], u.qpn, Advance(u.start, i), u.packets[i]) == WanData(b, u.qpn, Segment(u.start, u.packets, i))
  {
    hide WanData, SegmentTypeOf, IsWriteOpcode, OpcodeFor;
    assert OpcodeFor(u.opcodes[i], i, |u.opcodes|);
    OpcodeTellsSegment(u.opcodes[i], i, |u.packets|);
  }

  // ----- the sender's side -----

  /** The window holds a run of consecutive segments, entry `c` being segment `c - w0.base`. */
  ghost predicate SenderOk(u: Setup, s: World) {
    && Sound(s.w)
    && u.w0.base <= s.w.base <= s.w.next == u.w0.base + s.sent
    && s.sent <= |u.packets|
    && Consecutive(s.w, Advance(u.start, s.w.base - u.w0.base))
  }

  lemma SendConsecutive(w: Window, first: u32, m: Mbuf, segmentType: u8, now: u64)
    requires Consecutive(w, first) && w.next < w.base + WINDOW_SIZE && !Full(w)
    ensures Consecutive(Sent(w, m, Advance(first, w.next - w.base), segmentType, now), first)
  {
    hide Advance;
    var w' := Sent(w, m, Advance(first, w.next - w.base), segmentType, now);
    forall i: nat {:trigger Slot(i)} | w'.base <= i < w'.next
      ensures Masked24(w'.slots[Slot(i)].psn) == Advance(first, i - w'.base)
    {
      if i < w.next {
        assert Masked24(w.slots[Slot(i)].psn) == Advance(first, i - w.base);
        assert Slot(i) != Slot(w.next);
      }
    }
  }

  lemma SendKeepsSender(u: Setup, s: World, now: u64)
    requires ValidSetup(u) && SenderOk(u, s) && s.sent < |u.packets|
    ensures SenderOk(u, Next(u, s, SendNext(now)))
  {
    var w, n := s.w, |u.packets|;
    SentSound(w, u.packets[s.sent], Advance(u.start, s.sent), SegmentTypeOf(u.opcodes[s.sent]), now);
    NextNotCovered(w.base, w.next);
    assert !Full(w);
    hide Sound, Consecutive;
    AdvanceTwice(u.start, w.base - u.w0.base, w.next - w.base);
    SendConsecutive(w, Advance(u.start, w.base - u.w0.base), u.packets[s.sent], SegmentTypeOf(u.opcodes[s.sent]), now);
  }

  lemma SamePsnsConsecutive(w: Window, w': Window, first: u32)
    requires Consecutive(w, first) && |w'.slots| == WINDOW_SIZE && w'.base == w.base && w'.next == w.next
    requires forall k :: 0 <= k < WINDOW_SIZE ==> w'.slots[k].psn == w.slots[k].psn
    ensures Consecutive(w', first)
  {
  }

  lemma AckKeepsSender(u: Setup, s: World, ack: u32)
    requires ValidSetup(u) && SenderOk(u, s)
    ensures SenderOk(u, s.(w := Acked(s.w, ack)))
  {
    var first := Advance(u.start, s.w.base - u.w0.base);
    AckedSound(s.w, ack);
    CumulativeAckExact(s.w, first, ack);
    var k := AckCount(ForwardDist(first, ack), Occupancy(s.w));
    PoppedConsecutive(s.w, first, k);
    PoppedBounds(s.w, k);
    AdvanceTwice(u.start, s.w.base - u.w0.base, k);
    hide Sound, Consecutive, Popped, AckCount;
  }

  lemma TimerKeepsSender(u: Setup, s: World, now: u64, timeout: u64)
    requires ValidSetup(u) && SenderOk(u, s)
    ensures SenderOk(u, s.(w := Swept(s.w, now, timeout)))
  {
    hide Consecutive, Advance;
    SweptSound(s.w, s.w.base, now, timeout);
    SweptExact(s.w, now, timeout);
    SamePsnsConsecutive(s.w, Swept(s.w, now, timeout), Advance(u.start, s.w.base - u.w0.base));
  }

  lemma NackKeepsSender(u: Setup, s: World, nack: u32, clock: nat -> u64)
    requires ValidSetup(u) && SenderOk(u, s)
    ensures SenderOk(u, s.(w := Nacked(s.w, nack, clock)))
  {
    hide Consecutive, Advance;
    TouchAllSound(s.w, Selected(s.w, nack), clock);
    TouchAllKeeps(s.w, Selected(s.w, nack), clock);
    SamePsnsConsecutive(s.w, Nacked(s.w, nack, clock), Advance(u.start, s.w.base - u.w0.base));
  }

  /** The other moves leave the window alone. */
  lemma SameSender(u: Setup, s: World, mv: Move)
    requires ValidSetup(u) && SenderOk(u, s) && Shaped(u, s) && Possible(u, s, mv)
    requires mv.DataArrives? || mv.OtherData?
    ensures SenderOk(u, Next(u, s, mv))
  {
    hide Sound, Consecutive, WanPacket;
  }

  lemma SenderKept(u: Setup, s: World, mv: Move)
    requires ValidSetup(u) && SenderOk(u, s) && Shaped(u, s) && Possible(u, s, mv)
    ensures SenderOk(u, Next(u, s, mv))
  {
    match mv
    case SendNext(now) =>
      hide SenderOk;
      SendKeepsSender(u, s, now);
    case SenderTimer(now, timeout) =>
      hide SenderOk, Swept;
      TimerKeepsSender(u, s, now, timeout);
    case AckArrives(ack) =>
      hide SenderOk, Acked;
      AckKeepsSender(u, s, ack);
    case NackArrives(nack, clock) =>
      hide SenderOk, Nacked;
      NackKeepsSender(u, s, nack, clock);
    case DataArrives(_) => SameSender(u, s, mv);
    case OtherData(_, _, _, _) => SameSender(u, s, mv);
  }

  // ----- the receiver's side -----

  ghost predicate AllFrom(k: nat, n: nat, stored: seq<nat>) {
    forall i :: k <= i < n ==> i in stored
  }

  /** Before the first delivery exactly the stored segments are pending, they are not yet a
      delivery, and nothing has been acknowledged.  From then on the first delivery is the run
      of segments from the one stored first to the last, all of them stored, and every
      acknowledgement ever sent names a segment of the message; until the second delivery there
      is just one, and it names a segment of the first. */
  ghost predicate ReceiverOk(u: Setup, s: World) {
    var n := |u.packets|;
    && Arrivals(n, s.stored)
    && (s.deliveries == [] ==>
          && s.acks == u.stale
          && (s.stored == [] ==> u.qpn !in s.pending)
          && (s.stored != [] ==>
                && u.qpn in s.pending && s.pending[u.qpn] == Collected(u.start, u.packets, s.stored)
                && !AllFrom(s.stored[0], n, s.stored)))
    && (s.deliveries != [] ==>
          && s.stored != []
          && s.deliveries[0] == u.packets[s.stored[0]..]
          && AllFrom(s.stored[0], n, s.stored)
          && (forall p :: p in s.acks && p !in u.stale ==> NamesSegment(u, p))
          && (|s.deliveries| == 1 ==> OneAck(u, s.acks, s.stored[0])))
  }

  ghost predicate NamesSegment(u: Setup, p: u32) {
    exists j :: 0 <= j < |u.packets| && p == Advance(u.start, j)
  }

  ghost predicate OneAck(u: Setup, acks: set<u32>, k: nat) {
    exists j :: k <= j < |u.packets| && acks == u.stale + {Advance(u.start, j)}
  }

  /** Pending data that is exactly a set of arrivals is deliverable exactly when the run from
      the first arrival to the last segment is complete. */
  lemma DeliverableIff(u: Setup, b: Pending, arrivals: seq<nat>)
    requires ValidSetup(u) && 0 < |arrivals| && Arrivals(|u.packets|, arrivals)
    requires u.qpn in b && b[u.qpn] == Collected(u.start, u.packets, arrivals)
    ensures Deliverable(b, u.qpn) <==> AllFrom(arrivals[0], |u.packets|, arrivals)
    ensures Deliverable(b, u.qpn) ==> Ordered(b, u.qpn) == Some(u.packets[arrivals[0]..])
  {
    DeliveryExact(u.start, u.packets, arrivals);
    EndSeenIff(u.start, u.packets, arrivals);
    if AllFrom(arrivals[0], |u.packets|, arrivals) {
      assert |u.packets| - 1 in arrivals;
    }
  }

  /** A stored segment extends what is pending; a duplicate leaves it. */
  lemma ArrivalExtends(u: Setup, s: World, i: nat)
    requires ValidSetup(u) && ReceiverOk(u, s) && s.deliveries == [] && i < |u.packets|
    ensures var seg := Segment(u.start, u.packets, i);
            var status := AddStatusOf(s.pending, u.qpn, seg.psn);
            var b := AddSeg(s.pending, u.qpn, seg);
            && (status == Stored ==> u.qpn in b && b[u.qpn] == Collected(u.start, u.packets, s.stored + [i]))
            && (status != Stored ==> b == s.pending)
            && (status == Duplicate ==> s.stored != [])
            && (status == Refused ==> s.stored == [])
  {
    var seg := Segment(u.start, u.packets, i);
    assert (s.stored + [i])[..|s.stored|] == s.stored;
    if s.stored != [] {
      var m := s.pending[u.qpn];
      if Place(m, seg.psn) in m.got {
        assert s.pending[u.qpn := m] == s.pending;
      }
    }
  }

  /** A segment that arrives before the first delivery. */
  lemma FirstDataKeepsReceiver(u: Setup, s: World, i: nat)
    requires ValidSetup(u) && Shaped(u, s) && ReceiverOk(u, s) && i < s.sent
    requires s.deliveries == []
    ensures ReceiverOk(u, Next(u, s, DataArrives(i)))
  {
    hide AddSeg, AddStatusOf, Deliverable, Collected, Ordered, Missing, Advance;
    var seg := Segment(u.start, u.packets, i);
    var s' := Next(u, s, DataArrives(i));
    var r := WanData(s.pending, u.qpn, seg);
    Decoded(u, s.pending, i);
    hide WanPacket;
    ArrivalExtends(u, s, i);
    var b := AddSeg(s.pending, u.qpn, seg);
    if r.status == Stored {
      assert Arrivals(|u.packets|, s'.stored);
      DeliverableIff(u, b, s'.stored);
      CompletedBy(s.stored, i, |u.packets|);
      if s'.deliveries != [] {
        assert NamesSegment(u, seg.psn);
        assert OneAck(u, s'.acks, s'.stored[0]);
      }
    } else if r.status == Duplicate {
      DeliverableIff(u, b, s.stored);
    }
  }

  /** The arrival that completes a run is one of the run. */
  lemma CompletedBy(stored: seq<nat>, i: nat, n: nat)
    requires stored != [] ==> !AllFrom(stored[0], n, stored)
    ensures var k := (stored + [i])[0]; AllFrom(k, n, stored + [i]) ==> k <= i
  {
    var k := (stored + [i])[0];
    if stored != [] && i < k {
      var c :| k <= c < n && c !in stored;
      assert c !in stored + [i];
    }
  }

  /** A segment that arrives after it. */
  lemma LaterDataKeepsReceiver(u: Setup, s: World, i: nat)
    requires ValidSetup(u) && Shaped(u, s) && ReceiverOk(u, s) && i < s.sent
    requires s.deliveries != []
    ensures ReceiverOk(u, Next(u, s, DataArrives(i)))
  {
    hide AddSeg, AddStatusOf, Deliverable, Ordered, Missing, Advance;
    Decoded(u, s.pending, i);
    hide WanPacket;
    assert NamesSegment(u, Segment(u.start, u.packets, i).psn);
  }

  lemma DataKeepsReceiver(u: Setup, s: World, i: nat)
    requires ValidSetup(u) && Shaped(u, s) && ReceiverOk(u, s) && i < s.sent
    ensures ReceiverOk(u, Next(u, s, DataArrives(i)))
  {
    hide ReceiverOk, Next;
    if s.deliveries == [] {
      FirstDataKeepsReceiver(u, s, i);
    } else {
      LaterDataKeepsReceiver(u, s, i);
    }
  }

  lemma OtherKeepsReceiver(u: Setup, s: World, qpn: u32, opcode: u8, psn: u32, m: Mbuf)
    requires ValidSetup(u) && Shaped(u, s) && ReceiverOk(u, s) && qpn != u.qpn
    ensures ReceiverOk(u, Next(u, s, OtherData(qpn, opcode, psn, m)))
  {
    hide Deliverable, Collected, AddSeg, Removed, Added, AddStatusOf, Missing;
    var seg := Seg(psn, m, SegmentTypeOf(opcode));
    hide SegmentTypeOf, IsWriteOpcode;
    OthersUntouched(s.pending, qpn, seg, u.qpn);
    OthersUntouched(AddSeg(s.pending, qpn, seg), qpn, seg, u.qpn);
  }

  lemma ReceiverKept(u: Setup, s: World, mv: Move)
    requires ValidSetup(u) && Shaped(u, s) && ReceiverOk(u, s) && Possible(u, s, mv)
    ensures ReceiverOk(u, Next(u, s, mv))
  {
    match mv
    case DataArrives(i) => DataKeepsReceiver(u, s, i);
    case OtherData(qpn, opcode, psn, m) => OtherKeepsReceiver(u, s, qpn, opcode, psn, m);
    case SendNext(_) =>
    case SenderTimer(_, _) =>
    case AckArrives(_) =>
    case NackArrives(_, _) =>
  }

  // ----- every reachable state -----

  lemma {:induction false} RunInvariant(u: Setup, moves: seq<Move>)
    requires ValidSetup(u) && Run(u, moves).Some?
    ensures SenderOk(u, Run(u, moves).value) && ReceiverOk(u, Run(u, moves).value)
    decreases |moves|
  {
    hide SenderOk, ReceiverOk, Next;
    if moves == [] {
      StartOk(u);
    } else {
      var s := Run(u, moves[..|moves| - 1]).value;
      RunInvariant(u, moves[..|moves| - 1]);
      SenderKept(u, s, moves[|moves| - 1]);
      ReceiverKept(u, s, moves[|moves| - 1]);
    }
  }

  lemma StartOk(u: Setup)
    requires ValidSetup(u)
    ensures SenderOk(u, Start(u)) && ReceiverOk(u, Start(u))
  {
  }

  /** In every reachable state, whatever came first, the first delivery is the run of segments
      from the one stored first to the last, in order; it is the whole message if and only if
      segment 0 was stored first. */
  lemma FirstDelivery(u: Setup, moves: seq<Move>)
    requires ValidSetup(u) && Run(u, moves).Some? && Run(u, moves).value.deliveries != []
    ensures var s := Run(u, moves).value;
            && s.stored != [] && s.stored[0] < |u.packets|
            && s.deliveries[0] == u.packets[s.stored[0]..]
            && (s.deliveries[0] == u.packets <==> s.stored[0] == 0)
  {
    RunInvariant(u, moves);
    var s := Run(u, moves).value;
    assert |s.deliveries[0]| == |u.packets| - s.stored[0];
    assert u.packets[0..] == u.packets;
  }

  /** Acknowledgements are sound: once segment 0 is the first stored, every segment that any ACK
      on the WAN covers has been stored, and an ACK that is not stale names one. */
  lemma AckSound(u: Setup, moves: seq<Move>, ack: u32)
    requires ValidSetup(u) && Run(u, moves).Some?
    requires ack in Run(u, moves).value.acks
    requires Run(u, moves).value.stored != [] && Run(u, moves).value.stored[0] == 0
    ensures forall c: nat :: c < |u.packets| && Covered(u, ack, c) ==> c in Run(u, moves).value.stored
    ensures ack !in u.stale ==> NamesSegment(u, ack)
  {
    hide Run, Covered, Stale;
    RunInvariant(u, moves);
    if ack in u.stale {
      forall c: nat | c < |u.packets| ensures !Covered(u, ack, c) {
        StaleCoversNothing(u, ack, c);
      }
    }
  }

  /** Segment `c` is in the first delivery, in its place. */
  ghost predicate InFirstDelivery(u: Setup, s: World, c: nat)
    requires s.deliveries != []
  {
    var from := |u.packets| - |s.deliveries[0]|;
    0 <= from <= c < |u.packets| && s.deliveries[0][c - from] == u.packets[c] && c in s.stored
  }

  ghost predicate EveryAckDelivered(u: Setup, s: World)
    requires s.deliveries != []
  {
    forall p, c: nat :: p in s.acks && c < |u.packets| && Covered(u, p, c) ==> InFirstDelivery(u, s, c)
  }

  /** And exactly then: after the first delivery everything acknowledged has been delivered if and
      only if segment 0 was stored first. */
  lemma AckSoundIff(u: Setup, moves: seq<Move>)
    requires ValidSetup(u) && Run(u, moves).Some? && |Run(u, moves).value.deliveries| == 1
    ensures Run(u, moves).value.stored != []
    ensures EveryAckDelivered(u, Run(u, moves).value) <==> Run(u, moves).value.stored[0] == 0
  {
    hide Run, Covered, Advance;
    RunInvariant(u, moves);
    var s := Run(u, moves).value;
    var k, n := s.stored[0], |u.packets|;
    assert |s.deliveries[0]| == n - k;
    if k == 0 {
      assert u.packets[0..] == u.packets;
    } else {
      var j :| k <= j < n && s.acks == u.stale + {Advance(u.start, j)};
      CoveredIff(u, j, 0);
      assert Advance(u.start, j) in s.acks && !InFirstDelivery(u, s, 0);
    }
  }

  /** Entry `c` of the sender's window is segment `c - w0.base`. */
  lemma EntryIsSegment(u: Setup, s: World, c: nat)
    requires SenderOk(u, s) && s.w.base <= c < s.w.next
    ensures 0 <= c - u.w0.base < |u.packets|
    ensures Masked24(s.w.slots[Slot(c)].psn) == Advance(u.start, c - u.w0.base)
  {
    hide Advance;
    AdvanceTwice(u.start, s.w.base - u.w0.base, c - s.w.base);
    assert Masked24(s.w.slots[Slot(c)].psn) == Advance(Advance(u.start, s.w.base - u.w0.base), c - s.w.base);
  }

  /** An ACK frees only entries whose segments it covers. */
  lemma FreedIsCovered(u: Setup, s: World, ack: u32, c: nat)
    requires ValidSetup(u) && SenderOk(u, s)
    requires s.w.base <= c < Acked(s.w, ack).base
    ensures u.w0.base <= c < s.w.next && Covered(u, ack, c - u.w0.base)
  {
    AckMovesBase(s.w, ack);
    hide Advance, Acked, Consecutive, Sound;
    var first := Advance(u.start, s.w.base - u.w0.base);
    AckFreesExactly(s.w, first, ack, c);
    DistFromAdvanced(first, c - s.w.base, ack);
    AdvanceTwice(u.start, s.w.base - u.w0.base, c - s.w.base);
  }

  /** So the sender gives up only packets the receiver has: every entry an arriving ACK frees is
      a segment that has been stored. */
  lemma AckFreesOnlyStored(u: Setup, moves: seq<Move>, ack: u32, c: nat)
    requires ValidSetup(u) && Run(u, moves).Some?
    requires ack in Run(u, moves).value.acks
    requires Run(u, moves).value.stored != [] && Run(u, moves).value.stored[0] == 0
    requires Run(u, moves).value.w.base <= c < Acked(Run(u, moves).value.w, ack).base
    ensures c - u.w0.base in Run(u, moves).value.stored
    ensures Masked24(Run(u, moves).value.w.slots[Slot(c)].psn) == Advance(u.start, c - u.w0.base)
  {
    hide Run, Acked, Sound, Consecutive, Covered;
    RunInvariant(u, moves);
    var s := Run(u, moves).value;
    FreedIsCovered(u, s, ack, c);
    EntryIsSegment(u, s, c);
    AckSound(u, moves, ack);
  }

  /** Otherwise not: after a first delivery that begins at segment `k` the acknowledgement on the
      WAN makes the sender free every segment before `k` it still holds, none of them delivered. */
  lemma AckFreesUndelivered(u: Setup, moves: seq<Move>, c: nat) returns (ack: u32)
    requires ValidSetup(u) && Run(u, moves).Some? && |Run(u, moves).value.deliveries| == 1
    requires Run(u, moves).value.stored != [] ==> c < Run(u, moves).value.stored[0]
    requires Run(u, moves).value.w.base <= u.w0.base + c < Run(u, moves).value.w.next
    ensures var s := Run(u, moves).value;
            ack in s.acks && u.w0.base + c < Acked(s.w, ack).base && !InFirstDelivery(u, s, c)
  {
    hide Run, Acked, Sound, Consecutive, Advance;
    RunInvariant(u, moves);
    var s := Run(u, moves).value;
    var j :| s.stored[0] <= j < |u.packets| && s.acks == u.stale + {Advance(u.start, j)};
    ack := Advance(u.start, j);
    assert |s.deliveries[0]| == |u.packets| - s.stored[0];
    var b := s.w.base - u.w0.base;
    DistToAdvanced(u.start, j);
    DistFromAdvanced(u.start, b, ack);
    AckFreesExactly(s.w, Advance(u.start, b), ack, u.w0.base + c);
  }
}
