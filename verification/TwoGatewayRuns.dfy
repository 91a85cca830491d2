/** Runs of the two gateways in which nothing is lost, or only the beginning of a message is late;
    and what the NACKs of any run say. */
module TwoGatewayRuns {
  import opened SerialNumbers
  import opened Buffers
  import opened ArqWindow
  import opened ArqAcks
  import opened ArqNacks
  import opened Reassembly
  import opened ReassemblyOrder
  import opened WanPath
  import opened TwoGateways

  // ----- messages whose beginning is late -----

  /** The sender hands over all segments. */
  function Sends(n: nat): seq<Move> {
    if n == 0 then [] else Sends(n - 1) + [SendNext(0)]
  }

  /** After that segments `k` up to but not including `j` of `n` arrive, in this order. */
  function Arriving(n: nat, k: nat, j: nat): seq<Move>
    requires k <= j
  {
    if j == k then Sends(n) else Arriving(n, k, j - 1) + [DataArrives(j - 1)]
  }

  lemma RunOneMore(u: Setup, moves: seq<Move>, mv: Move)
    requires ValidSetup(u) && Run(u, moves).Some? && Possible(u, Run(u, moves).value, mv)
    ensures Run(u, moves + [mv]) == Some(Next(u, Run(u, moves).value, mv))
  {
    hide Next;
    assert (moves + [mv])[..|moves|] == moves;
  }

  lemma {:induction false} SendsRun(u: Setup, i: nat)
    requires ValidSetup(u) && i <= |u.packets|
    ensures Run(u, Sends(i)).Some?
    ensures var s := Run(u, Sends(i)).value;
            s == Start(u).(w := s.w, sent := i) && s.w.base == u.w0.base
  {
    hide Run, Advance;
    if i == 0 {
      assert Run(u, []) == Some(Start(u)) by { RunFromStart(u); }
    } else {
      SendsRun(u, i - 1);
      RunOneMore(u, Sends(i - 1), SendNext(0));
    }
  }

  lemma RunFromStart(u: Setup)
    requires ValidSetup(u)
    ensures Run(u, []) == Some(Start(u))
  {
  }

  /** Segments `k` to `j - 1` have been stored, in this order, and nothing delivered yet. */
  ghost predicate StoredSoFar(u: Setup, s: World, k: nat, j: nat) {
    && s.sent == |u.packets| && s.w.base == u.w0.base && s.deliveries == []
    && s.stored == Range(k, j)
    && (j == k ==> s.pending == u.pending0)
  }

  lemma RangeGrows(k: nat, j: nat)
    requires k <= j
    ensures Range(k, j + 1) == Range(k, j) + [j]
    ensures j !in Range(k, j)
    ensures k < j ==> Range(k, j)[0] == k
  {
    RangeMembers(k, j, j);
  }

  /** The next segment in line is stored; the one that completes the run to the end is delivered
      with it and acknowledged; and the PSN after it is reported missing. */
  lemma NextInLine(u: Setup, s: World, k: nat, j: nat)
    requires ValidSetup(u) && Shaped(u, s) && ReceiverOk(u, s) && |u.pending0| < JB_MAX_PENDING_WRITES
    requires k <= j < |u.packets| && StoredSoFar(u, s, k, j)
    ensures var r := WanData(s.pending, u.qpn, Segment(u.start, u.packets, j));
            && r.status == Stored
            && (j < |u.packets| - 1 ==> r.delivered.None? && r.ack.None?)
            && (j == |u.packets| - 1 ==> r.delivered == Some(u.packets[k..]) && r.ack == Some(Advance(u.start, j)))
  {
    LineGrows(u, s, k, j);
    hide Collected, Ordered, Deliverable, Missing, Advance, AddSeg, AddStatusOf, Range, ReceiverOk, Shaped, Arrivals, AllFrom;
    DeliverableIff(u, AddSeg(s.pending, u.qpn, Segment(u.start, u.packets, j)), Range(k, j + 1));
    RangeComplete(k, j + 1, |u.packets|);
  }

  lemma LineGrows(u: Setup, s: World, k: nat, j: nat)
    requires ValidSetup(u) && ReceiverOk(u, s) && |u.pending0| < JB_MAX_PENDING_WRITES
    requires k <= j < |u.packets| && StoredSoFar(u, s, k, j)
    ensures var seg := Segment(u.start, u.packets, j);
            var b := AddSeg(s.pending, u.qpn, seg);
            && AddStatusOf(s.pending, u.qpn, seg.psn) == Stored
            && Range(k, j + 1) != [] && Range(k, j + 1)[0] == k && Arrivals(|u.packets|, Range(k, j + 1))
            && u.qpn in b && b[u.qpn] == Collected(u.start, u.packets, Range(k, j + 1))
  {
    hide Collected, Place, Advance, AddSeg, AddStatusOf, Range;
    RangeGrows(k, j);
    RangeFirst(k, j + 1);
    ArrivalExtends(u, s, j);
    StatusIsStored(u, s, k, j);
  }

  lemma NextInLineReported(u: Setup, s: World, j: nat)
    requires ValidSetup(u) && Shaped(u, s) && ReceiverOk(u, s) && |u.pending0| < JB_MAX_PENDING_WRITES
    requires j < |u.packets| && StoredSoFar(u, s, 0, j)
    requires j + 1 < JB_MAX_SEGMENTS && Advance(u.start, j + 1) != 0
    ensures WanData(s.pending, u.qpn, Segment(u.start, u.packets, j)).nack == Some(Advance(u.start, j + 1))
  {
    LineGrows(u, s, 0, j);
    hide Collected, Ordered, Deliverable, Missing, Advance, AddSeg, AddStatusOf, Range, ReceiverOk;
    InOrderReport(u, AddSeg(s.pending, u.qpn, Segment(u.start, u.packets, j)), j);
  }

  lemma NextStored(u: Setup, s: World, k: nat, j: nat)
    requires ValidSetup(u) && Shaped(u, s) && ReceiverOk(u, s) && |u.pending0| < JB_MAX_PENDING_WRITES
    requires k <= j < |u.packets| && StoredSoFar(u, s, k, j)
    ensures var s', ack := Next(u, s, DataArrives(j)), Advance(u.start, j);
            && s'.w == s.w && s'.sent == s.sent && s'.stored == Range(k, j + 1)
            && (j < |u.packets| - 1 ==> StoredSoFar(u, s', k, j + 1))
            && (j == |u.packets| - 1 ==> s'.deliveries == [u.packets[k..]] && s'.acks == s.acks + {ack})
            && s.nacks <= s'.nacks
            && (k == 0 && j + 1 < JB_MAX_SEGMENTS && Advance(u.start, j + 1) != 0 ==> Advance(u.start, j + 1) in s'.nacks)
  {
    NextInLine(u, s, k, j);
    if k == 0 && j + 1 < JB_MAX_SEGMENTS && Advance(u.start, j + 1) != 0 {
      NextInLineReported(u, s, j);
    }
    RangeGrows(k, j);
    Decoded(u, s.pending, j);
    hide WanData, WanPacket, ReceiverOk, Range, Advance;
  }

  lemma RangeFirst(k: nat, j: nat)
    requires k < j
    ensures Range(k, j) != [] && Range(k, j)[0] == k
  {
  }

  lemma RangeComplete(k: nat, j: nat, n: nat)
    requires k < j <= n
    ensures AllFrom(k, n, Range(k, j)) <==> j == n
  {
    RangeMembers(k, j, n - 1);
    forall i | k <= i < n ensures i in Range(k, j) <==> i < j {
      RangeMembers(k, j, i);
    }
  }

  lemma StatusIsStored(u: Setup, s: World, k: nat, j: nat)
    requires ValidSetup(u) && ReceiverOk(u, s) && |u.pending0| < JB_MAX_PENDING_WRITES
    requires k <= j < |u.packets| && StoredSoFar(u, s, k, j)
    ensures AddStatusOf(s.pending, u.qpn, Segment(u.start, u.packets, j).psn) == Stored
  {
    hide Collected, Place, Advance, Range;
    RangeGrows(k, j);
    if k < j {
      NewSegmentFits(u.start, u.packets, s.stored, j);
    }
  }

  /** While segments come in order the PSN after the last one is reported missing. */
  lemma InOrderReport(u: Setup, b: Pending, j: nat)
    requires ValidSetup(u) && j < |u.packets|
    requires Range(0, j + 1)[0] == 0 && Arrivals(|u.packets|, Range(0, j + 1))
    requires u.qpn in b && b[u.qpn] == Collected(u.start, u.packets, Range(0, j + 1))
    ensures Missing(b, u.qpn) == if j + 1 < JB_MAX_SEGMENTS then Advance(u.start, j + 1) else 0
  {
    var a := Range(0, j + 1);
    hide Collected, MissingIn, Advance, Range;
    forall i: nat ensures i in a <==> i < j + 1 {
      RangeMembers(0, j + 1, i);
    }
    forall p, i, i' | 0 <= p <= |a| && 0 <= i < i' < j + 1 && i' in a[..p] ensures i in a[..p] {
      assert a[..p][i] == i;
    }
    GapReportExact(u.start, u.packets, a, j + 1);
  }

  lemma {:induction false} ArrivingRun(u: Setup, k: nat, j: nat)
    requires ValidSetup(u) && |u.pending0| < JB_MAX_PENDING_WRITES && k <= j < |u.packets|
    ensures Run(u, Arriving(|u.packets|, k, j)).Some?
    ensures StoredSoFar(u, Run(u, Arriving(|u.packets|, k, j)).value, k, j)
    ensures k == 0 ==> ReportedUpTo(u, Run(u, Arriving(|u.packets|, k, j)).value, j)
    decreases j
  {
    hide Run, Next, ReceiverOk, StoredSoFar, Advance, SenderOk;
    var n := |u.packets|;
    if j == k {
      SendsRun(u, n);
      assert StoredSoFar(u, Run(u, Sends(n)).value, k, k) by { NothingStored(u, Run(u, Sends(n)).value, k); }
    } else {
      ArrivingRun(u, k, j - 1);
      var s := Run(u, Arriving(n, k, j - 1)).value;
      RunInvariant(u, Arriving(n, k, j - 1));
      assert j - 1 < s.sent by { AllSent(u, s, k, j - 1); }
      NextStored(u, s, k, j - 1);
      RunOneMore(u, Arriving(n, k, j - 1), DataArrives(j - 1));
    }
  }

  lemma NothingStored(u: Setup, s: World, k: nat)
    requires s == Start(u).(w := s.w, sent := |u.packets|) && s.w.base == u.w0.base
    ensures StoredSoFar(u, s, k, k)
  {
  }

  lemma AllSent(u: Setup, s: World, k: nat, j: nat)
    requires StoredSoFar(u, s, k, j)
    ensures s.sent == |u.packets| && s.w.base == u.w0.base && s.deliveries == []
  {
  }

  /** The PSN after each of the first `j` segments has been reported missing, unless it is 0;
      the PSN after segment 255 never is. */
  ghost predicate ReportedUpTo(u: Setup, s: World, j: nat) {
    forall i :: 0 < i <= j && i < JB_MAX_SEGMENTS && Advance(u.start, i) != 0 ==> Advance(u.start, i) in s.nacks
  }

  /** For every message and every segment `k` but the first: if the segments from `k` on arrive and
      the others do not, the message is "complete"; it is delivered without its beginning and
      acknowledged, and the acknowledgement makes the sender free all of it, segments stored
      nowhere included. */
  lemma LateStartLosesData(u: Setup, k: nat)
    requires ValidSetup(u) && |u.pending0| < JB_MAX_PENDING_WRITES && 0 < k < |u.packets|
    ensures var n := |u.packets|;
            var r, ack := Run(u, Arriving(n, k, n)), Advance(u.start, n - 1);
            && r.Some? && ack in r.value.acks
            && r.value.deliveries == [u.packets[k..]]
            && (forall c :: 0 <= c < k ==> c !in r.value.stored)
            && r.value.w.base == u.w0.base && Acked(r.value.w, ack).base == u.w0.base + n
  {
    hide Run, Next, ReceiverOk, StoredSoFar, Advance, SenderOk, Acked;
    var n := |u.packets|;
    var s := CompleteRun(u, k);
    forall c: nat | c < k ensures c !in s.stored {
      RangeMembers(k, n, c);
    }
    AckFreesAll(u, s);
  }

  /** The last arrival of such a run. */
  lemma CompleteRun(u: Setup, k: nat) returns (s: World)
    requires ValidSetup(u) && |u.pending0| < JB_MAX_PENDING_WRITES && k < |u.packets|
    ensures var n := |u.packets|;
            && Run(u, Arriving(n, k, n)) == Some(s)
            && SenderOk(u, s) && s.sent == n && s.w.base == u.w0.base
            && s.stored == Range(k, n) && s.deliveries == [u.packets[k..]] && Advance(u.start, n - 1) in s.acks
            && (k == 0 ==> ReportedUpTo(u, s, n))
  {
    hide Run, Next, ReceiverOk, StoredSoFar, Advance, SenderOk;
    var n := |u.packets|;
    ArrivingRun(u, k, n - 1);
    var before := Run(u, Arriving(n, k, n - 1)).value;
    RunInvariant(u, Arriving(n, k, n - 1));
    AllSent(u, before, k, n - 1);
    NextStored(u, before, k, n - 1);
    RunOneMore(u, Arriving(n, k, n - 1), DataArrives(n - 1));
    s := Next(u, before, DataArrives(n - 1));
    RunInvariant(u, Arriving(n, k, n));
  }

  lemma AckFreesAll(u: Setup, s: World)
    requires ValidSetup(u) && SenderOk(u, s) && s.sent == |u.packets| && s.w.base == u.w0.base
    ensures Acked(s.w, Advance(u.start, |u.packets| - 1)).base == u.w0.base + |u.packets|
  {
    var first := Advance(u.start, 0);
    AdvanceTwice(u.start, 0, |u.packets| - 1);
    DistToAdvanced(first, |u.packets| - 1);
    CumulativeAckExact(s.w, first, Advance(u.start, |u.packets| - 1));
  }

  // ----- what NACKs say -----

  ghost predicate NamesMissing(u: Setup, stored: seq<nat>, p: u32) {
    exists j: nat :: NamesNext(u.start, |u.packets|, stored, p, j) && j !in stored
  }

  /** In every reachable state before the first delivery: a NACK that an arriving segment causes
      names a segment that is not stored, with everything before it, back to the first, stored. */
  lemma NackNamesMissing(u: Setup, moves: seq<Move>, i: nat)
    requires ValidSetup(u) && Run(u, moves).Some? && Run(u, moves).value.deliveries == []
    requires Possible(u, Run(u, moves).value, DataArrives(i))
    ensures var s := Run(u, moves).value;
            var r := WanPacket(s.pending, u.opcodes[i], u.qpn, Advance(u.start, i), u.packets[i]);
            r.nack.Some? ==> NamesMissing(u, s.stored + [i], r.nack.value)
  {
    hide Run, Next;
    RunInvariant(u, moves);
    Decoded(u, Run(u, moves).value.pending, i);
    hide WanPacket, WanData;
    NackNamesMissingIn(u, Run(u, moves).value, i);
  }

  lemma NackNamesMissingIn(u: Setup, s: World, i: nat)
    requires ValidSetup(u) && Shaped(u, s) && ReceiverOk(u, s) && i < s.sent
    requires s.deliveries == []
    ensures var r := WanData(s.pending, u.qpn, Segment(u.start, u.packets, i));
            r.nack.Some? ==> r.status == Stored && NamesMissing(u, s.stored + [i], r.nack.value)
  {
    hide AddSeg, AddStatusOf, Deliverable, Collected, Ordered, MissingIn, Advance;
    var seg := Segment(u.start, u.packets, i);
    var r := WanData(s.pending, u.qpn, seg);
    ArrivalExtends(u, s, i);
    if r.nack.Some? {
      MissingNamesGap(u.start, u.packets, s.stored + [i]);
    }
  }

  ghost predicate NacksOk(u: Setup, s: World) {
    s.deliveries == [] ==> forall p :: p in s.nacks ==> exists j: nat :: NamesNext(u.start, |u.packets|, s.stored, p, j)
  }

  lemma StillNamed(u: Setup, stored: seq<nat>, i: nat, p: u32, j: nat)
    requires NamesNext(u.start, |u.packets|, stored, p, j)
    ensures NamesNext(u.start, |u.packets|, stored + [i], p, j)
  {
  }

  lemma DataKeepsNacks(u: Setup, s: World, i: nat)
    requires ValidSetup(u) && Shaped(u, s) && ReceiverOk(u, s) && i < s.sent && NacksOk(u, s)
    ensures NacksOk(u, Next(u, s, DataArrives(i)))
  {
    Decoded(u, s.pending, i);
    hide WanData, WanPacket, ReceiverOk, NamesNext;
    if s.deliveries == [] {
      NackNamesMissingIn(u, s, i);
      forall p | p in s.nacks ensures exists j: nat :: NamesNext(u.start, |u.packets|, s.stored + [i], p, j) {
        var j: nat :| NamesNext(u.start, |u.packets|, s.stored, p, j);
        StillNamed(u, s.stored, i, p, j);
      }
    }
  }

  /** Every NACK the receiver has sent by then names the segment behind a run of stored ones. */
  lemma {:induction false} NacksSound(u: Setup, moves: seq<Move>)
    requires ValidSetup(u) && Run(u, moves).Some?
    ensures NacksOk(u, Run(u, moves).value)
    decreases |moves|
  {
    if moves != [] {
      var before, mv := moves[..|moves| - 1], moves[|moves| - 1];
      var s := Run(u, before).value;
      NacksSound(u, before);
      hide ReceiverOk, SenderOk, WanPacket, NamesNext;
      RunInvariant(u, before);
      match mv
      case DataArrives(i) => DataKeepsNacks(u, s, i);
      case _ =>
    }
  }

  /** Even when nothing is lost and everything arrives in order, every segment makes the receiver
      NACK the PSN that follows it, the last one included, unless that PSN is 0 or the segment is
      the 256th. */
  lemma LossFreeStillNacks(u: Setup, i: nat)
    requires ValidSetup(u) && |u.pending0| < JB_MAX_PENDING_WRITES
    requires 0 < i <= |u.packets| && i < JB_MAX_SEGMENTS && Advance(u.start, i) != 0
    ensures var r := Run(u, Arriving(|u.packets|, 0, |u.packets|));
            r.Some? && r.value.deliveries == [u.packets] && Advance(u.start, i) in r.value.nacks
  {
    hide Run, Advance, SenderOk;
    var s := CompleteRun(u, 0);
    assert u.packets[0..] == u.packets;
  }
}
