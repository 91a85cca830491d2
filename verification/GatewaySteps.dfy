/** What one step of the gateway does to the window of the queue pair it is about, entry by entry,
    to every other window, and to the packet buffers. */
module GatewaySteps {
  import opened SerialNumbers
  import opened Buffers
  import opened ArqWindow
  import opened ArqAcks
  import opened ArqNacks
  import opened ArqTimeouts
  import opened ArqTransmissions
  import opened Ownership
  import opened Gateway
  import opened GatewayOwnership
  import ArqProgress
  import CtrlMsg
  import Processor

  /** Only context `k` may differ, and it keeps its number; flows and CNPs are as they were. */
  ghost predicate OnlyContext(s: State, s': State, k: nat) {
    && |s'.ctxs| == |s.ctxs| && k < |s.ctxs|
    && (forall j :: 0 <= j < |s.ctxs| && j != k ==> s'.ctxs[j] == s.ctxs[j])
    && s'.ctxs[k].qpn == s.ctxs[k].qpn
    && s'.qps == s.qps && s'.cnps == s.cnps && s'.cc == s.cc && s'.packetCounter == s.packetCounter
  }

  // ----- a WRITE from the LAN -----

  /** The window a packet for this number meets in context `k`: the one of that number, or an empty one
      if the context is only now taken into use. */
  function WindowMet(ctxs: seq<Ctx>, qpn: u32, k: nat): Window
    requires k < |ctxs|
  {
    if FindCtx(ctxs, qpn, 0).Some? then ctxs[k].window else EmptyWindow()
  }

  /** The packet is the youngest entry now, never retried; all others are as they were. */
  ghost predicate TakenIn(w: Window, w': Window, pkt: Packet, now: u64)
    requires |w.slots| == WINDOW_SIZE == |w'.slots|
  {
    var e := w'.slots[w.next % WINDOW_SIZE];
    && e.psn == pkt.psn && e.mbuf == Some(pkt.m) && e.sendTime == now && e.retryCount == 0
    && e.segmentType == pkt.segmentType && e.inFlight
    && (forall t :: 0 <= t < WINDOW_SIZE && t != w.next % WINDOW_SIZE ==> w'.slots[t] == w.slots[t])
    && w'.base == w.base && w'.next == w.next + 1
    && w'.totalSent == w.totalSent + 1 && w'.totalAcked == w.totalAcked
    && w'.totalRetransmit == w.totalRetransmit && w'.totalTimeout == w.totalTimeout
    && w'.sendMax >= w'.next - w'.base && w'.sendMax >= w.sendMax && (w'.sendMax == w'.next - w'.base || w'.sendMax == w.sendMax)
  }

  /** The card has the packet if it accepted it, on top of the window if that keeps it; otherwise the
      packet is free again. */
  ghost predicate SentAlong(p: Pool, p': Pool, m: Mbuf, kept: bool, accepted: bool) {
    && p'.refs == p.refs + (if kept then multiset{m} else multiset{}) + (if accepted then multiset{m} else multiset{})
    && p'.pending == p.pending + (if accepted then multiset{m} else multiset{})
    && p'.faults == p.faults
  }

  lemma TransmitSendsAlong(p: Pool, m: Mbuf, accepted: bool)
    requires m !in p.refs
    ensures SentAlong(p, Apply(Receive(p, m), Transmit(m, accepted)), m, true, accepted)
  {
    var q := Inc(Receive(p, m), m);
    assert q == p.(refs := p.refs + multiset{m} + multiset{m});
    if !accepted {
      assert q.refs - multiset{m} == p.refs + multiset{m};
    }
  }

  lemma HandOverSendsAlong(p: Pool, m: Mbuf, accepted: bool)
    requires m !in p.refs
    ensures SentAlong(p, Apply(Receive(p, m), HandOver(m, accepted)), m, false, accepted)
  {
    ReleasedAgain(p, m);
  }

  lemma ReleasedAgain(p: Pool, m: Mbuf)
    requires m !in p.refs
    ensures Apply(Receive(p, m), Release(m)) == p
  {
    assert p.refs + multiset{m} - multiset{m} == p.refs;
  }

  lemma SentTakesIn(w: Window, pkt: Packet, now: u64)
    requires |w.slots| == WINDOW_SIZE && w.base <= w.next && !Full(w)
    ensures TakenIn(w, Sent(w, pkt.m, pkt.psn, pkt.segmentType, now), pkt, now)
  {
  }

  ghost predicate WellShaped(ctxs: seq<Ctx>) {
    forall j :: 0 <= j < |ctxs| ==> |ctxs[j].window.slots| == WINDOW_SIZE && ctxs[j].window.base <= ctxs[j].window.next
  }

  /** The contexts after forwarding. */
  lemma ForwardStores(ctxs: seq<Ctx>, pkt: Packet, now: u64, k: nat)
    requires WellShaped(ctxs) && CtxSlot(ctxs, pkt.qpn) == Some(k)
    ensures var ctxs', w := ForwardedCtxs(ctxs, pkt, now), WindowMet(ctxs, pkt.qpn, k);
            && |w.slots| == WINDOW_SIZE && w.base <= w.next && |ctxs'[k].window.slots| == WINDOW_SIZE && ctxs'[k].qpn == pkt.qpn
            && (forall j :: 0 <= j < |ctxs| && j != k ==> ctxs'[j] == ctxs[j])
            && (Enters(ctxs, pkt.qpn) <==> !w.slots[w.next % WINDOW_SIZE].inFlight)
            && (if Enters(ctxs, pkt.qpn) then TakenIn(w, ctxs'[k].window, pkt, now) else ctxs'[k].window == w)
  {
    var w := WindowMet(ctxs, pkt.qpn, k);
    assert |w.slots| == WINDOW_SIZE && w.base <= w.next;
    hide TakenIn, EmptyWindow, FindCtx;
    if !Full(w) {
      SentTakesIn(w, pkt, now);
    }
    hide Sent;
  }

  lemma StepForwards(s: State, pkt: Packet, env: Env)
    requires Shaped(s) && QpSlot(s.qps, pkt.qpn).Some? && pkt.m !in s.pool.refs
    ensures WellShaped(s.ctxs)
    ensures var s' := Step(s, LanWrite(pkt, env));
            && s'.ctxs == ForwardedCtxs(s.ctxs, pkt, env.sendTime)
            && SentAlong(s.pool, s'.pool, pkt.m, Enters(s.ctxs, pkt.qpn), env.txAccepted)
  {
    hide Apply, Receive, QpSlot, LanWriteDone, ForwardedCtxs, SentAlong, Enters;
    LanWriteFactors(s, pkt, env);
    TransmitSendsAlong(s.pool, pkt.m, env.txAccepted);
    HandOverSendsAlong(s.pool, pkt.m, env.txAccepted);
  }

  /** A WRITE whose flow is known and whose queue pair has a context, or gets one: afterwards the context
      carries its number; if the next slot of its window was free the packet is in it with its own
      PSN, type and time; no other context changes; and the card is handed the packet. */
  lemma LanWriteStores(s: State, pkt: Packet, env: Env, k: nat)
    requires Shaped(s) && pkt.m !in s.pool.refs && QpSlot(s.qps, pkt.qpn).Some? && CtxSlot(s.ctxs, pkt.qpn) == Some(k)
    ensures var s', w := Step(s, LanWrite(pkt, env)), WindowMet(s.ctxs, pkt.qpn, k);
            && |s'.ctxs| == |s.ctxs| && s'.ctxs[k].qpn == pkt.qpn
            && (forall j :: 0 <= j < |s.ctxs| && j != k ==> s'.ctxs[j] == s.ctxs[j])
            && |w.slots| == WINDOW_SIZE == |s'.ctxs[k].window.slots|
            && var full := w.slots[w.next % WINDOW_SIZE].inFlight;
               && (if full then s'.ctxs[k].window == w else TakenIn(w, s'.ctxs[k].window, pkt, env.sendTime))
               && SentAlong(s.pool, s'.pool, pkt.m, !full, env.txAccepted)
  {
    StepForwards(s, pkt, env);
    ForwardStores(s.ctxs, pkt, env.sendTime, k);
    hide Step, ForwardedCtxs, Enters, TakenIn, SentAlong, WindowMet, QpSlot, CtxSlot;
  }

  /** It is the one context found for that number from then on. */
  lemma {:induction false} FoundAt(ctxs: seq<Ctx>, qpn: u32, j: nat, k: nat)
    requires j <= k < |ctxs| && ctxs[k].qpn == qpn && forall t :: j <= t < k ==> ctxs[t].qpn != qpn
    ensures FindCtx(ctxs, qpn, j) == Some(k)
    decreases k - j
  {
    if j < k {
      FoundAt(ctxs, qpn, j + 1, k);
    }
  }

  lemma {:induction false} FoundFirst(ctxs: seq<Ctx>, qpn: u32, j: nat)
    ensures var r := FindCtx(ctxs, qpn, j); r.Some? ==> forall t :: j <= t < r.value ==> ctxs[t].qpn != qpn
    decreases |ctxs| - j
  {
    if j < |ctxs| && ctxs[j].qpn != qpn {
      FoundFirst(ctxs, qpn, j + 1);
    }
  }

  lemma LanWriteFound(s: State, pkt: Packet, env: Env, k: nat)
    requires Shaped(s) && pkt.m !in s.pool.refs && QpSlot(s.qps, pkt.qpn).Some? && CtxSlot(s.ctxs, pkt.qpn) == Some(k)
    ensures FindCtx(Step(s, LanWrite(pkt, env)).ctxs, pkt.qpn, 0) == Some(k)
  {
    hide Step, Shaped;
    LanWriteStores(s, pkt, env, k);
    FoundFirst(s.ctxs, pkt.qpn, 0);
    FoundAt(Step(s, LanWrite(pkt, env)).ctxs, pkt.qpn, 0, k);
  }

  /** Without a context to be had the packet goes out untracked; without a flow entry it is freed. */
  lemma LanWriteUntracked(s: State, pkt: Packet, env: Env)
    requires Shaped(s) && pkt.m !in s.pool.refs
    ensures var s' := Step(s, LanWrite(pkt, env));
            if QpSlot(s.qps, pkt.qpn).None? then s'.ctxs == s.ctxs && s'.pool == s.pool
            else CtxSlot(s.ctxs, pkt.qpn).None? ==> s'.ctxs == s.ctxs && SentAlong(s.pool, s'.pool, pkt.m, false, env.txAccepted)
  {
    if QpSlot(s.qps, pkt.qpn).Some? {
      StepForwards(s, pkt, env);
      UntrackedStays(s.ctxs, pkt, env.sendTime);
      hide Step, ForwardedCtxs, Enters, SentAlong, QpSlot, CtxSlot;
    } else {
      LanWriteFactors(s, pkt, env);
      ReleasedAgain(s.pool, pkt.m);
      hide Apply, Receive, QpSlot, LanWriteDone, SentAlong;
    }
  }

  lemma UntrackedStays(ctxs: seq<Ctx>, pkt: Packet, now: u64)
    requires WellShaped(ctxs)
    ensures CtxSlot(ctxs, pkt.qpn).None? ==> ForwardedCtxs(ctxs, pkt, now) == ctxs && !Enters(ctxs, pkt.qpn)
  {
  }

  // ----- an acknowledgement -----

  lemma AckStepElsewhere(s: State, qpn: u32, psn: u32, k: nat)
    requires Shaped(s)
    ensures FindCtx(s.ctxs, qpn, 0) == Some(k) ==> OnlyContext(s, Step(s, AckMsg(qpn, psn)), k)
    ensures FindCtx(s.ctxs, qpn, 0).None? ==> Step(s, AckMsg(qpn, psn)) == s
  {
    hide Acked, AckOps, ApplyAll;
  }

  /** Entry `i` of a consecutive window leaves exactly when the PSN acknowledged is at or past its own,
      by less than half the number space; every other entry stays as it is. */
  lemma AckStepExactly(s: State, qpn: u32, psn: u32, k: nat, first: u32, i: nat)
    requires Shaped(s) && FindCtx(s.ctxs, qpn, 0) == Some(k) && Consecutive(s.ctxs[k].window, first)
    requires s.ctxs[k].window.base <= i < s.ctxs[k].window.next
    ensures var w, w', d := s.ctxs[k].window, Step(s, AckMsg(qpn, psn)).ctxs[k].window, ForwardDist(first, psn);
            var e, leaves := w.slots[i % WINDOW_SIZE], d < 0x80_0000 && i - w.base <= d;
            && (i < w'.base <==> leaves) && w.base <= w'.base <= w'.next == w.next
            && w'.slots[i % WINDOW_SIZE] == if leaves then e.(mbuf := None, inFlight := false) else e
  {
    AckFreesExactly(s.ctxs[k].window, first, psn, i);
    hide Acked, AckOps, ApplyAll, Consecutive, ForwardDist;
  }

  /** The entries among the first `n` that hold `m`. */
  ghost function Holders(w: Window, n: nat, m: Mbuf): set<nat>
    requires |w.slots| == WINDOW_SIZE
  {
    set c: nat | w.base <= c < w.base + n && w.slots[c % WINDOW_SIZE].mbuf == Some(m)
  }

  /** The entries an acknowledgement at distance `d` from the first takes out that hold `m`. */
  ghost function Acknowledged(w: Window, d: nat, m: Mbuf): set<nat>
    requires |w.slots| == WINDOW_SIZE
  {
    set c: nat | w.base <= c < w.next && d < 0x80_0000 && c - w.base <= d && w.slots[c % WINDOW_SIZE].mbuf == Some(m)
  }

  lemma HoldersGrow(w: Window, n: nat, m: Mbuf)
    requires |w.slots| == WINDOW_SIZE
    ensures |Holders(w, n + 1, m)| == |Holders(w, n, m)| + Holds(w.slots[(w.base + n) % WINDOW_SIZE], m)
    ensures Holders(w, 0, m) == {}
  {
    var here := w.slots[(w.base + n) % WINDOW_SIZE].mbuf == Some(m);
    assert Holders(w, n + 1, m) == Holders(w, n, m) + if here then {w.base + n} else {};
  }

  lemma PoppedOneMore(w: Window, n: nat)
    requires |w.slots| == WINDOW_SIZE && n < WINDOW_SIZE
    ensures var s := (w.base + n) % WINDOW_SIZE;
            && Popped(w, n).slots[s] == w.slots[s]
            && Popped(w, n + 1).slots == Popped(w, n).slots[s := w.slots[s].(mbuf := None, inFlight := false)]
  {
    var s := Slot(w.base + n);
    OffsetOfSlot(w.base, w.base + n);
    forall t | 0 <= t < WINDOW_SIZE && t != s ensures RingOffset(w.base, t) != n {
      OffsetFromSlot(w.base, t);
      OffsetFromSlot(w.base, s);
    }
  }

  lemma PoppedHoldsLess(w: Window, n: nat, m: Mbuf)
    requires |w.slots| == WINDOW_SIZE && n < WINDOW_SIZE
    ensures HeldCount(Popped(w, n + 1).slots, m) + Holds(w.slots[(w.base + n) % WINDOW_SIZE], m) == HeldCount(Popped(w, n).slots, m)
  {
    PoppedOneMore(w, n);
    var s, before := (w.base + n) % WINDOW_SIZE, Popped(w, n).slots;
    var cleared := w.slots[s].(mbuf := None, inFlight := false);
    assert before[s] == w.slots[s] && Popped(w, n + 1).slots == before[s := cleared] && Holds(cleared, m) == 0;
    hide HeldCount, Popped, Holds;
    HeldUpdate(before, s, cleared, m);
  }

  lemma {:induction false} PoppedHolds(w: Window, n: nat, m: Mbuf)
    requires |w.slots| == WINDOW_SIZE && n <= WINDOW_SIZE
    ensures HeldCount(Popped(w, n).slots, m) + |Holders(w, n, m)| == HeldCount(w.slots, m)
  {
    HoldersGrow(w, if n == 0 then 0 else n - 1, m);
    if n == 0 {
      PoppedNone(w);
    } else {
      PoppedHoldsLess(w, n - 1, m);
      hide HeldCount, Holders, Holds;
      PoppedHolds(w, n - 1, m);
    }
  }

  lemma AcknowledgedAreFirst(w: Window, d: nat, m: Mbuf)
    requires |w.slots| == WINDOW_SIZE && w.base <= w.next
    ensures Acknowledged(w, d, m) == Holders(w, AckCount(d, Occupancy(w)), m)
  {
  }

  /** The references that go are exactly those of the entries that leave. */
  lemma AckStepReleases(s: State, qpn: u32, psn: u32, k: nat, first: u32, m: Mbuf)
    requires Conserved(s) && FindCtx(s.ctxs, qpn, 0) == Some(k) && Consecutive(s.ctxs[k].window, first)
    ensures var s' := Step(s, AckMsg(qpn, psn));
            && s'.pool.refs[m] + |Acknowledged(s.ctxs[k].window, ForwardDist(first, psn), m)| == s.pool.refs[m]
            && s'.pool.pending[m] == s.pool.pending[m]
  {
    var w, d := s.ctxs[k].window, ForwardDist(first, psn);
    var n := AckCount(d, Occupancy(w));
    Bounds(w, first);
    AckConserves(s, qpn, psn);
    AckStepElsewhere(s, qpn, psn, k);
    CumulativeAckExact(w, first, psn);
    AcknowledgedAreFirst(w, d, m);
    PoppedHolds(w, n, m);
    var s' := Step(s, AckMsg(qpn, psn));
    assert s'.ctxs == s.ctxs[k := s'.ctxs[k]];
    AckPending(w, first, psn, s.pool, m);
    hide HeldCount, TotalHeld, Popped, Acked, AckOps, ApplyAll, Sound, Consecutive, Holders, Acknowledged, AckCount;
    assert s'.ctxs[k].window == Popped(w, n);
    TotalUpdate(s.ctxs, k, s'.ctxs[k], m);
  }

  lemma {:induction false} ReleasesNotAccepted(slots: seq<Entry>, i: nat, j: nat, m: Mbuf)
    requires |slots| == WINDOW_SIZE
    ensures AcceptedOf(ReleasesOf(slots, i, j), m) == 0
    decreases j - i
  {
    if i < j {
      ReleasesNotAccepted(slots, i + 1, j, m);
      AcceptedConcat(ReleasePacket(slots[Slot(i)]), ReleasesOf(slots, i + 1, j), m);
    }
  }

  lemma AckPending(w: Window, first: u32, psn: u32, p: Pool, m: Mbuf)
    requires Consecutive(w, first)
    ensures ApplyAll(p, AckOps(w, psn)).pending[m] == p.pending[m]
  {
    hide ReleasesOf, AckOps, ApplyAll, AckCount, ForwardDist;
    AckReleasesExactly(w, first, psn);
    PendingGrows(p, AckOps(w, psn), m);
    ReleasesNotAccepted(w.slots, w.base, w.base + AckCount(ForwardDist(first, psn), Occupancy(w)), m);
  }

  // ----- a negative acknowledgement -----

  lemma NackStepElsewhere(s: State, qpn: u32, psn: u32, clock: nat -> u64, accepts: nat -> bool, k: nat)
    requires Shaped(s)
    ensures FindCtx(s.ctxs, qpn, 0) == Some(k) ==> OnlyContext(s, Step(s, NackMsg(qpn, psn, clock, accepts)), k)
    ensures FindCtx(s.ctxs, qpn, 0).None? ==> Step(s, NackMsg(qpn, psn, clock, accepts)) == s
  {
    hide Nacked, NackOps, ApplyAll;
  }

  /** The entry `o` places past the base is in the burst of a NACK at distance `d`: it is not past the
      PSN, its PSN does not look behind it, and fewer than 64 such entries come before it. */
  predicate InBurst(d: nat, o: nat) {
    var from := if d < 0x80_0000 then 0 else d - 0x80_0000 + 1;
    from <= o <= d && o < from + 64
  }

  lemma BurstIsSelected(w: Window, first: u32, psn: u32, i: nat)
    requires Consecutive(w, first) && w.base <= i < w.next
    ensures i in Selected(w, psn) <==> InBurst(ForwardDist(first, psn), i - w.base)
  {
    hide ForwardDist, Range;
    var d := ForwardDist(first, psn);
    NackSelectsExactly(w, first, psn);
    RangeMembers(w.base + FirstPick(d), BurstEnd(w, d), i);
  }

  /** Every entry of a consecutive window that is in the burst is stamped and its 8-bit retry counter
      goes up by one; every other entry stays as it is. */
  lemma NackStepExactly(s: State, qpn: u32, psn: u32, clock: nat -> u64, accepts: nat -> bool, k: nat, first: u32, i: nat)
    requires Shaped(s) && FindCtx(s.ctxs, qpn, 0) == Some(k) && Consecutive(s.ctxs[k].window, first)
    requires s.ctxs[k].window.base <= i < s.ctxs[k].window.next
    ensures var w, w' := s.ctxs[k].window, Step(s, NackMsg(qpn, psn, clock, accepts)).ctxs[k].window;
            var e := w.slots[i % WINDOW_SIZE];
            && w'.base == w.base && w'.next == w.next
            && w'.slots[i % WINDOW_SIZE]
               == if InBurst(ForwardDist(first, psn), i - w.base) then e.(sendTime := clock(i), retryCount := (e.retryCount + 1) % 256) else e
  {
    var w := s.ctxs[k].window;
    BurstIsSelected(w, first, psn, i);
    if i in Selected(w, psn) {
      ArqProgress.PickedOnce(w, first, psn, clock, i);
    } else {
      NotPicked(w, first, psn, clock, i);
    }
    hide Nacked, NackOps, ApplyAll, Consecutive, InBurst, ForwardDist, Selected;
  }

  lemma NotPicked(w: Window, first: u32, psn: u32, clock: nat -> u64, i: nat)
    requires Consecutive(w, first) && w.base <= i < w.next && i !in Selected(w, psn)
    ensures Nacked(w, psn, clock).slots[Slot(i)] == w.slots[Slot(i)]
  {
    Bounds(w, first);
    SelectedInWindow(w.slots, psn, w.base, w.next, MAX_RETX_BURST);
    hide Consecutive, TouchAll;
    TouchAllKeeps(w, Selected(w, psn), clock);
    hide Selected;
    forall p | p in Selected(w, psn) ensures Slot(p) != Slot(i) {
      if p < i {
        SlotsApart(p, i);
      } else {
        SlotsApart(i, p);
      }
    }
  }

  lemma {:induction false} SelectedInWindow(slots: seq<Entry>, nack: u32, i: nat, next: nat, room: nat)
    requires |slots| == WINDOW_SIZE
    ensures forall p :: p in SelectFrom(slots, nack, i, next, room) ==> i <= p < next
    decreases next - i
  {
    if i < next && room > 0 {
      SelectedInWindow(slots, nack, i + 1, next, room - 1);
      SelectedInWindow(slots, nack, i + 1, next, room);
    }
  }

  /** The entries of the burst that hold `m` and whose transmission the card accepts. */
  ghost function Retransmitted(w: Window, d: nat, accepts: nat -> bool, m: Mbuf): set<nat>
    requires |w.slots| == WINDOW_SIZE
  {
    set c: nat | w.base <= c < w.next && InBurst(d, c - w.base) && w.slots[c % WINDOW_SIZE].mbuf == Some(m) && accepts(c)
  }

  lemma RetransmittedAreCopies(w: Window, d: nat, accepts: nat -> bool, m: Mbuf)
    requires |w.slots| == WINDOW_SIZE && w.base <= w.next
    ensures Retransmitted(w, d, accepts, m) == NackCopies(w, d, accepts, m)
  {
  }

  /** The card then has to complete one transmission more of `m` for each of them. */
  lemma NackStepTransmits(s: State, qpn: u32, psn: u32, clock: nat -> u64, accepts: nat -> bool, k: nat, first: u32, m: Mbuf)
    requires Shaped(s) && FindCtx(s.ctxs, qpn, 0) == Some(k) && Consecutive(s.ctxs[k].window, first)
    ensures Step(s, NackMsg(qpn, psn, clock, accepts)).pool.pending[m]
         == s.pool.pending[m] + |Retransmitted(s.ctxs[k].window, ForwardDist(first, psn), accepts, m)|
  {
    NackPendingExactly(s.ctxs[k].window, first, psn, accepts, s.pool, m);
    RetransmittedAreCopies(s.ctxs[k].window, ForwardDist(first, psn), accepts, m);
    hide Nacked, NackOps, ApplyAll, Consecutive, ForwardDist, Retransmitted, NackCopies;
  }

  // ----- a timer tick -----

  lemma {:induction false} TickedContext(s: State, from: nat, now: nat -> u64, timeout: u64, accepted: (nat, nat) -> bool, k: nat)
    requires Shaped(s) && k < MAX_QP_CTX
    ensures TickedFrom(s, from, now, timeout, accepted).ctxs[k]
         == if from <= k && s.ctxs[k].qpn != 0 then s.ctxs[k].(window := Swept(s.ctxs[k].window, now(k), timeout)) else s.ctxs[k]
    decreases MAX_QP_CTX - from
  {
    hide Swept, SweepOps, ApplyAll;
    if from < MAX_QP_CTX {
      TickedContext(CtxSwept(s, from, now(from), timeout, (i: nat) => accepted(from, i)), from + 1, now, timeout, accepted, k);
    }
  }

  /** A tick sweeps every context in use, each with its own clock reading, and no other: every slot is
      aged once. */
  lemma TickStepExactly(s: State, now: nat -> u64, timeout: u64, accepted: (nat, nat) -> bool, k: nat, t: nat)
    requires Shaped(s) && k < MAX_QP_CTX && t < WINDOW_SIZE && Sound(s.ctxs[k].window)
    ensures var c, c' := s.ctxs[k], Step(s, TimerTick(now, timeout, accepted)).ctxs[k];
            if c.qpn == 0 then c' == c
            else (c'.qpn == c.qpn && c'.window.base == c.window.base && c'.window.next == c.window.next
                  && |c'.window.slots| == WINDOW_SIZE && c'.window.slots[t] == Aged(c.window.slots[t], now(k), timeout))
  {
    TickedContext(s, 0, now, timeout, accepted, k);
    SweptAges(s.ctxs[k].window, now(k), timeout, t);
    hide TickedFrom, Swept, Aged, Sound;
  }

  lemma SweptAges(w: Window, now: u64, timeout: u64, t: nat)
    requires Sound(w) && t < WINDOW_SIZE
    ensures var w' := Swept(w, now, timeout);
            w'.base == w.base && w'.next == w.next && |w'.slots| == WINDOW_SIZE && w'.slots[t] == Aged(w.slots[t], now, timeout)
  {
    SweptExact(w, now, timeout);
    hide Swept, Aged, Sound, DueRetries, DueDrops;
  }

  /** Entries of context `k` that hold `m`, are due for a retry and whose transmission the card accepts. */
  ghost function TickCopies(c: Ctx, k: nat, now: u64, timeout: u64, accepted: (nat, nat) -> bool, m: Mbuf): set<nat>
    requires |c.window.slots| == WINDOW_SIZE
  {
    set i: nat | c.window.base <= i < c.window.next && c.qpn != 0
                 && c.window.slots[i % WINDOW_SIZE].mbuf == Some(m) && RetryDue(c.window.slots[i % WINDOW_SIZE], now, timeout) && accepted(k, i)
  }

  /** How many there are in the contexts from `from` on. */
  ghost function AllTickCopies(ctxs: seq<Ctx>, from: nat, now: nat -> u64, timeout: u64, accepted: (nat, nat) -> bool, m: Mbuf): nat
    requires forall j :: 0 <= j < |ctxs| ==> |ctxs[j].window.slots| == WINDOW_SIZE
    decreases |ctxs| - from
  {
    if from >= |ctxs| then 0
    else |TickCopies(ctxs[from], from, now(from), timeout, accepted, m)| + AllTickCopies(ctxs, from + 1, now, timeout, accepted, m)
  }

  lemma {:induction false} LaterTickCopies(a: seq<Ctx>, b: seq<Ctx>, from: nat, now: nat -> u64, timeout: u64, accepted: (nat, nat) -> bool, m: Mbuf)
    requires |a| == |b| && forall j :: 0 <= j < |a| ==> |a[j].window.slots| == WINDOW_SIZE && |b[j].window.slots| == WINDOW_SIZE
    requires forall j :: from <= j < |a| ==> a[j] == b[j]
    ensures AllTickCopies(a, from, now, timeout, accepted, m) == AllTickCopies(b, from, now, timeout, accepted, m)
    decreases |a| - from
  {
    hide TickCopies;
    if from < |a| {
      LaterTickCopies(a, b, from + 1, now, timeout, accepted, m);
    }
  }

  lemma CtxSweptTransmits(s: State, k: nat, now: u64, timeout: u64, accepted: (nat, nat) -> bool, m: Mbuf)
    requires Shaped(s) && k < MAX_QP_CTX && Sound(s.ctxs[k].window) && s.ctxs[k].window.next <= s.ctxs[k].window.base + WINDOW_SIZE
    ensures CtxSwept(s, k, now, timeout, (i: nat) => accepted(k, i)).pool.pending[m]
         == s.pool.pending[m] + |TickCopies(s.ctxs[k], k, now, timeout, accepted, m)|
  {
    hide Sound, ApplyAll, SweepOpsFrom, RetryDue, SweptFrom;
    var c, accepts := s.ctxs[k], (i: nat) => accepted(k, i);
    if c.qpn == 0 {
      assert TickCopies(c, k, now, timeout, accepted, m) == {};
    } else {
      SweepPendingExactly(c.window, now, timeout, accepts, s.pool, m);
      assert TickCopies(c, k, now, timeout, accepted, m)
          == LateCopies(c.window.slots, now, timeout, accepts, m, c.window.base, c.window.next);
    }
  }

  /** The card then has to complete one transmission more of `m` for each of them, over all contexts. */
  lemma {:induction false} TickTransmits(s: State, from: nat, now: nat -> u64, timeout: u64, accepted: (nat, nat) -> bool, m: Mbuf)
    requires Shaped(s)
    requires forall j :: from <= j < MAX_QP_CTX ==> Sound(s.ctxs[j].window) && s.ctxs[j].window.next <= s.ctxs[j].window.base + WINDOW_SIZE
    ensures TickedFrom(s, from, now, timeout, accepted).pool.pending[m]
         == s.pool.pending[m] + AllTickCopies(s.ctxs, from, now, timeout, accepted, m)
    decreases MAX_QP_CTX - from
  {
    if from < MAX_QP_CTX {
      var s' := CtxSwept(s, from, now(from), timeout, (i: nat) => accepted(from, i));
      CtxSweptTransmits(s, from, now(from), timeout, accepted, m);
      hide Sound, ApplyAll, SweepOps, Swept, TickCopies;
      LaterTickCopies(s.ctxs, s'.ctxs, from + 1, now, timeout, accepted, m);
      TickTransmits(s', from + 1, now, timeout, accepted, m);
    }
  }

  lemma TickStepTransmits(s: State, now: nat -> u64, timeout: u64, accepted: (nat, nat) -> bool, m: Mbuf)
    requires Shaped(s)
    requires forall j :: 0 <= j < MAX_QP_CTX ==> Sound(s.ctxs[j].window) && s.ctxs[j].window.next <= s.ctxs[j].window.base + WINDOW_SIZE
    ensures Step(s, TimerTick(now, timeout, accepted)).pool.pending[m]
         == s.pool.pending[m] + AllTickCopies(s.ctxs, 0, now, timeout, accepted, m)
  {
    hide Sound, TickedFrom, AllTickCopies;
    TickTransmits(s, 0, now, timeout, accepted, m);
  }

  // ----- a completion -----

  /** The card gives back one reference of `m`, which is one transmission less to complete; no other
      buffer and no window changes. */
  lemma CompletionExactly(s: State, m: Mbuf)
    requires Conserved(s) && m in s.pool.pending
    ensures var s' := Step(s, NicDone(m));
            && s'.ctxs == s.ctxs && s'.qps == s.qps && s'.cnps == s.cnps
            && s'.pool.refs[m] == s.pool.refs[m] - 1 && s'.pool.pending[m] == s.pool.pending[m] - 1 && s'.pool.faults == s.pool.faults
            && forall x :: x != m ==> s'.pool.refs[x] == s.pool.refs[x] && s'.pool.pending[x] == s.pool.pending[x]
  {
    hide Sound, TotalHeld;
    assert s.pool.refs[m] == TotalHeld(s.ctxs, m) + s.pool.pending[m];
  }

  // ----- control messages as bytes -----

  /** A message of type 1 in network byte order has the effect of an ACK, one of type 2 that of a NACK,
      any other none. */
  lemma ControlBytes(s: State, buf: seq<u8>, kind: u8, qpn: u32, psn: u32, clock: nat -> u64, accepts: nat -> bool)
    requires Shaped(s) && |buf| >= 276
    ensures Processor.ControlDone(s, CtrlMsg.Built(buf, kind, qpn, psn, None, 0), clock, accepts)
         == if kind == 0x01 then Step(s, AckMsg(qpn, psn)) else if kind == 0x02 then Step(s, NackMsg(qpn, psn, clock, accepts)) else s
  {
    hide CtrlMsg.Parsed, CtrlMsg.Built, AckDone, NackDone;
    CtrlMsg.RoundTripNoList(buf, kind, qpn, psn, 0);
  }

  /** So the bytes of an ACK take out of the window exactly the entries up to its PSN. */
  lemma AckBytesExactly(s: State, buf: seq<u8>, qpn: u32, psn: u32, clock: nat -> u64, accepts: nat -> bool, k: nat, first: u32, i: nat)
    requires Shaped(s) && |buf| >= 276
    requires FindCtx(s.ctxs, qpn, 0) == Some(k) && Consecutive(s.ctxs[k].window, first)
    requires s.ctxs[k].window.base <= i < s.ctxs[k].window.next
    ensures var s' := Processor.ControlDone(s, CtrlMsg.Built(buf, 0x01, qpn, psn, None, 0), clock, accepts);
            var w, d := s.ctxs[k].window, ForwardDist(first, psn);
            && OnlyContext(s, s', k)
            && (i < s'.ctxs[k].window.base <==> d < 0x80_0000 && i - w.base <= d)
  {
    ControlBytes(s, buf, 0x01, qpn, psn, clock, accepts);
    AckStepElsewhere(s, qpn, psn, k);
    AckStepExactly(s, qpn, psn, k, first, i);
    hide Processor.ControlDone, CtrlMsg.Built, Step, Consecutive, OnlyContext, ForwardDist;
  }
}
