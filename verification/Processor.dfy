/** The handlers of one gateway, acting in place on its tables; each is proved to be the
    corresponding step of `Gateway`. */
module Processor {
  import opened SerialNumbers
  import opened Buffers
  import opened ArqWindow
  import opened Arq
  import opened Congestion
  import opened Gateway
  import CtrlMsg

  // ----- control messages -----

  const ARQ_MSG_ACK: u8 := 0x01
  const ARQ_MSG_NACK: u8 := 0x02

  /** What a control message from the WAN does to the gateway. */
  function ControlDone(s: State, payload: seq<u8>, clock: nat -> u64, accepts: nat -> bool): (s': State)
    requires Shaped(s) && |payload| >= CtrlMsg.SIZE
    ensures Shaped(s')
  {
    match CtrlMsg.Parsed(payload)
    case None => s
    case Some(msg) =>
      if msg.kind == ARQ_MSG_ACK then AckDone(s, msg.qpn, msg.psn)
      else if msg.kind == ARQ_MSG_NACK then NackDone(s, msg.qpn, msg.psn, clock, accepts)
      else s
  }

  /** An ACK or NACK as the other gateway builds it, in whatever buffer, has the effect of its
      queue pair number and PSN. */
  lemma ControlArrives(s: State, buf: seq<u8>, qpn: u32, psn: u32, clock: nat -> u64, accepts: nat -> bool)
    requires Shaped(s) && |buf| >= CtrlMsg.SIZE
    ensures ControlDone(s, CtrlMsg.Built(buf, ARQ_MSG_ACK, qpn, psn, None, 0), clock, accepts) == AckDone(s, qpn, psn)
    ensures ControlDone(s, CtrlMsg.Built(buf, ARQ_MSG_NACK, qpn, psn, None, 0), clock, accepts)
         == NackDone(s, qpn, psn, clock, accepts)
  {
    hide CtrlMsg.Parsed, CtrlMsg.Built, AckDone, NackDone;
    CtrlMsg.RoundTripNoList(buf, ARQ_MSG_ACK, qpn, psn, 0);
    CtrlMsg.RoundTripNoList(buf, ARQ_MSG_NACK, qpn, psn, 0);
  }

  method NewContexts() returns (cs: seq<ArqContext>)
    ensures |cs| == MAX_QP_CTX
    ensures forall i :: 0 <= i < |cs| ==> fresh(cs[i]) && fresh(cs[i].slots) && cs[i].Valid()
    ensures forall i :: 0 <= i < |cs| ==> cs[i].qpn == 0 && cs[i].View() == EmptyWindow()
    ensures forall i, j :: 0 <= i < j < |cs| ==> cs[i] != cs[j] && cs[i].slots != cs[j].slots
  {
    hide Sound, EmptyWindow;
    cs := [];
    for n := 0 to MAX_QP_CTX
      invariant |cs| == n
      invariant forall i :: 0 <= i < n ==> fresh(cs[i]) && fresh(cs[i].slots) && cs[i].Valid()
      invariant forall i :: 0 <= i < n ==> cs[i].qpn == 0 && cs[i].View() == EmptyWindow()
      invariant forall i, j :: 0 <= i < j < n ==> cs[i] != cs[j] && cs[i].slots != cs[j].slots
    {
      var c := new ArqContext();
      cs := cs + [c];
    }
  }

  lemma FullStaysPut(w: Window, m: Mbuf, psn: u32, segmentType: u8, now: u64)
    requires Sound(w)
    ensures Full(w) ==> Sent(w, m, psn, segmentType, now) == w
  {
  }

  class Processor {
    const qps: array<Qp>
    const contexts: seq<ArqContext>
    const pool: BufferPool
    const cc: CongestionControl
    var packetCounter: u32
    /** The CNPs put on the LAN so far. */
    var cnps: seq<Cnp>

    ghost function CtxFootprint(): set<object> {
      (set i | 0 <= i < |contexts| :: contexts[i] as object) + (set i | 0 <= i < |contexts| :: contexts[i].slots as object)
    }

    ghost function Footprint(): set<object> {
      CtxFootprint() + {this, qps, pool, cc}
    }

    /** The context table as a value. */
    ghost function Ctxs(): (cs: seq<Ctx>)
      reads CtxFootprint()
      ensures |cs| == |contexts|
      ensures forall i :: 0 <= i < |contexts| ==> cs[i] == Ctx(contexts[i].qpn, contexts[i].View())
    {
      seq(|contexts|, i requires 0 <= i < |contexts| reads CtxFootprint() => Ctx(contexts[i].qpn, contexts[i].View()))
    }

    ghost function View(): State
      reads Footprint()
    {
      State(qps[..], Ctxs(), pool.View(), cc.View(), packetCounter, cnps)
    }

    ghost predicate Distinct() {
      && qps.Length == MAX_QP_CTX && |contexts| == MAX_QP_CTX
      && (forall i :: 0 <= i < |contexts| ==> contexts[i].slots.Length == WINDOW_SIZE)
      && (forall i, j :: 0 <= i < j < |contexts| ==> contexts[i] != contexts[j] && contexts[i].slots != contexts[j].slots)
    }

    ghost predicate Valid()
      reads Footprint()
    {
      Distinct() && forall i :: 0 <= i < |contexts| ==> contexts[i].Valid()
    }

    constructor (high: u32, low: u32, timerHz: u64)
      ensures Valid() && fresh(Footprint())
      ensures View() == Booted(Initial(high, low, timerHz))
    {
      hide Sound, EmptyWindow, Initial, EmptySlots;
      var cs := NewContexts();
      contexts := cs;
      qps := new Qp[MAX_QP_CTX](_ => Qp(0, false, 0, 0));
      pool := new BufferPool();
      cc := new CongestionControl(high, low, timerHz);
      packetCounter := 0;
      cnps := [];
      new;
      assert Ctxs() == Booted(Initial(high, low, timerHz)).ctxs;
      assert qps[..] == Booted(Initial(high, low, timerHz)).qps;
    }

    lemma ValidShaped()
      requires Valid()
      ensures Shaped(View())
    {
      forall k | 0 <= k < MAX_QP_CTX
        ensures |View().ctxs[k].window.slots| == WINDOW_SIZE && View().ctxs[k].window.base <= View().ctxs[k].window.next
      {
        assert contexts[k].Valid();
      }
    }

    /** Only the context at `k` has changed. */
    twostate lemma OneChanged(k: nat)
      requires Distinct() && k < |contexts|
      requires forall i :: 0 <= i < |contexts| && i != k ==> unchanged(contexts[i]) && unchanged(contexts[i].slots)
      requires old(Valid()) && contexts[k].Valid()
      ensures Ctxs() == old(Ctxs())[k := Ctx(contexts[k].qpn, contexts[k].View())]
      ensures Valid()
    {
      forall i | 0 <= i < |contexts| ensures contexts[i].Valid() {
        if i != k {
          assert old(contexts[i].Valid());
        }
      }
    }

    // ----- tables -----

    /** The first context with this number; `Gateway.FindCtx` as a loop. */
    method FindArq(qpn: u32) returns (r: Option<nat>)
      requires Valid()
      ensures r == FindCtx(Ctxs(), qpn, 0)
    {
      for i := 0 to |contexts|
        invariant FindCtx(Ctxs(), qpn, i) == FindCtx(Ctxs(), qpn, 0)
      {
        if contexts[i].qpn == qpn {
          return Some(i);
        }
      }
      return None;
    }

    method GetOrCreateArq(qpn: u32) returns (r: Option<nat>)
      requires Valid()
      modifies CtxFootprint()
      ensures Valid()
      ensures Ctxs() == WithCtx(old(Ctxs()), qpn)
      ensures r == CtxSlot(old(Ctxs()), qpn)
    {
      hide Sound, EmptyWindow, FindCtx;
      r := FindArq(qpn);
      if r.Some? {
        return;
      }
      r := FindArq(0);
      if r.Some? {
        contexts[r.value].Reset(qpn);
        OneChanged(r.value);
      }
    }

    method GetOrCreateQp(qpn: u32) returns (r: Option<nat>)
      requires qps.Length == MAX_QP_CTX
      modifies qps
      ensures qps[..] == WithQp(old(qps[..]), qpn)
      ensures r == QpSlot(old(qps[..]), qpn)
    {
      for i := 0 to qps.Length
        invariant FindQp(qps[..], qpn, i) == FindQp(qps[..], qpn, 0)
      {
        if qps[i].active && qps[i].qpn == qpn {
          return Some(i);
        }
      }
      for i := 0 to qps.Length
        invariant FreeQp(qps[..], i) == FreeQp(qps[..], 0)
      {
        if !qps[i].active {
          qps[i] := Qp(qpn, true, 0, 0);
          return Some(i);
        }
      }
      return None;
    }

    // ----- congestion notification -----

    method EmitCnp(i: nat, now: u64, built: bool, taken: bool)
      requires i < qps.Length
      modifies qps, cc`totalCnpSent, this`cnps
      ensures View() == Emitted(old(View()), i, now, built, taken)
    {
      if qps[i].notifyIp == 0 || !CnpDue(cc.View(), qps[i].lastCnpTsc, now) || !built {
        return;
      }
      cc.totalCnpSent := cc.totalCnpSent + 1;
      if !taken {
        return;
      }
      qps[i] := qps[i].(lastCnpTsc := now);
      cnps := cnps + [Cnp(i, qps[i].qpn, now)];
    }

    /** Adds up the windows in use, in 32-bit arithmetic. */
    method WindowUsage() returns (used: u32)
      requires Valid()
      ensures Shaped(View())
      ensures used == Usage(Ctxs()) % 0x1_0000_0000
    {
      ValidShaped();
      used := 0;
      for i := 0 to |contexts|
        invariant used == Usage(Ctxs()[..i]) % 0x1_0000_0000
      {
        assert Ctxs()[..i + 1][..i] == Ctxs()[..i];
        if contexts[i].qpn != 0 {
          used := (used + (contexts[i].sendNext - contexts[i].sendBase)) % 0x1_0000_0000;
        }
      }
      assert Ctxs()[..|contexts|] == Ctxs();
    }

    /** Updates the congestion flag and, while it is set, tries one CNP for every active flow. */
    method CheckCongestion(now: u64, built: nat -> bool, taken: nat -> bool)
      requires Valid()
      modifies qps, cc, this`cnps
      ensures Valid() && Shaped(old(View()))
      ensures View() == CongestionChecked(old(View()), now, built, taken)
    {
      hide Sound, Checked, Emitted;
      ghost var before := View();
      var used := WindowUsage();
      assert Ctxs() == before.ctxs;
      assert used == Usage(before.ctxs) % 0x1_0000_0000;
      var status := cc.CheckBuffer(used, TOTAL_BUFFERS);
      ghost var checked := View();
      assert checked == before.(cc := Checked(before.cc, Usage(before.ctxs) % 0x1_0000_0000, TOTAL_BUFFERS));
      if !cc.congestionDetected {
        return;
      }
      for i := 0 to qps.Length
        invariant Valid()
        invariant EmittedFrom(View(), i, now, built, taken) == EmittedFrom(checked, 0, now, built, taken)
      {
        if qps[i].active {
          EmitCnp(i, now, built(i), taken(i));
        }
      }
    }

    // ----- the LAN WRITE path -----

    /** The packet goes into the window of its queue pair, if there is room; with or without, the
        context remembers which gateway the queue pair is served by. */
    method EnterWindow(pkt: Packet, now: u64) returns (inWindow: bool)
      requires Valid()
      modifies CtxFootprint()
      ensures Valid() && Shaped(old(View()))
      ensures inWindow == Enters(old(Ctxs()), pkt.qpn)
      ensures Ctxs() == ForwardedCtxs(old(Ctxs()), pkt, now)
      ensures var slot := CtxSlot(old(Ctxs()), pkt.qpn);
              slot.Some? ==> slot.value < |contexts| && contexts[slot.value].peerIp == pkt.peerIp
    {
      hide Sound, Sent, Full, EmptyWindow, WithCtx, CtxSlot;
      ValidShaped();
      var slot := GetOrCreateArq(pkt.qpn);
      inWindow := false;
      if slot.Some? {
        assert contexts[slot.value].Valid();
        FullStaysPut(contexts[slot.value].View(), pkt.m, pkt.psn, pkt.segmentType, now);
        label before:
        var status := contexts[slot.value].SendPkt(pkt.m, pkt.psn, pkt.segmentType, now);
        contexts[slot.value].SetPeerIp(pkt.peerIp);
        OneChanged@before(slot.value);
        inWindow := status == 0;
      }
    }

    /** Puts a packet on the WAN.  One in the window stays owned by it, so the card gets a
        reference of its own; any other is the card's, or is freed if the card refuses it. */
    method Transmit(m: Mbuf, inWindow: bool, accepted: bool)
      modifies pool
      ensures pool.View() == Apply(old(pool.View()), if inWindow then BufferOp.Transmit(m, accepted) else HandOver(m, accepted))
    {
      if inWindow {
        pool.AddRef(m);
      }
      var sent := pool.TxBurst(m, accepted);
      if sent == 0 {
        pool.Free(m);
      }
    }

    /** The packet is received and its flow noted, if the queue pair table has room for it. */
    method NoteFlow(pkt: Packet, env: Env) returns (known: bool)
      requires Valid()
      modifies this`cnps, qps, pool, cc
      ensures Valid() && Shaped(old(View()))
      ensures known <==> QpSlot(old(View()).qps, pkt.qpn).Some?
      ensures var s1 := Admitted(old(View()), pkt);
              View() == if known then FlowNoted(s1, QpSlot(old(View()).qps, pkt.qpn).value, pkt, env) else s1
    {
      hide Sound, Emitted, FindQp, FreeQp;
      ValidShaped();
      pool.Arrive(pkt.m);
      var slot := GetOrCreateQp(pkt.qpn);
      known := slot.Some?;
      ghost var s1 := View();
      assert s1 == Admitted(old(View()), pkt);
      if known {
        qps[slot.value] := qps[slot.value].(notifyIp := pkt.srcIp);
        assert View() == s1.(qps := s1.qps[slot.value := s1.qps[slot.value].(notifyIp := pkt.srcIp)]);
        if pkt.ecnMarked {
          EmitCnp(slot.value, env.ecnTime, env.ecnBuilt, env.ecnTaken);
        }
      }
    }

    method Forward(pkt: Packet, now: u64, accepted: bool)
      requires Valid()
      modifies CtxFootprint(), pool
      ensures Valid() && Shaped(old(View()))
      ensures View() == Forwarded(old(View()), pkt, now, accepted)
    {
      hide Sound, ForwardedCtxs, Enters, Apply;
      var inWindow := EnterWindow(pkt, now);
      Transmit(pkt.m, inWindow, accepted);
    }

    /** The packet goes out, and every fifth packet checks for congestion. */
    method ForwardAndCount(pkt: Packet, env: Env)
      requires Valid()
      modifies Footprint()
      ensures Valid() && Shaped(old(View()))
      ensures View() == Counted(Forwarded(old(View()), pkt, env.sendTime, env.txAccepted), env)
    {
      hide Sound, CongestionChecked, Forwarded;
      Forward(pkt, env.sendTime, env.txAccepted);
      packetCounter := (packetCounter + 1) % 0x1_0000_0000;
      if packetCounter % CONGESTION_CHECK_INTERVAL == 0 {
        CheckCongestion(env.sweepTime, env.built, env.taken);
      }
    }

    method LanWrite(pkt: Packet, env: Env)
      requires Valid()
      modifies Footprint()
      ensures Valid() && Shaped(old(View()))
      ensures View() == LanWriteDone(old(View()), pkt, env)
    {
      hide Sound, Counted, FlowNoted, Forwarded, QpSlot, Admitted, Dec;
      var known := NoteFlow(pkt, env);
      if known {
        ForwardAndCount(pkt, env);
      } else {
        pool.Free(pkt.m);
      }
    }

    // ----- the WAN control path and the timer -----

    method OnAck(qpn: u32, psn: u32)
      requires Valid()
      modifies CtxFootprint(), pool
      ensures Valid() && Shaped(old(View()))
      ensures View() == AckDone(old(View()), qpn, psn)
    {
      hide Sound, Acked, AckOps, ApplyAll;
      ValidShaped();
      var slot := FindArq(qpn);
      if slot.Some? {
        contexts[slot.value].HandleAck(psn, pool);
        OneChanged(slot.value);
      }
    }

    method OnNack(qpn: u32, psn: u32, clock: nat -> u64, accepts: nat -> bool)
      requires Valid()
      modifies CtxFootprint(), pool
      ensures Valid() && Shaped(old(View()))
      ensures View() == NackDone(old(View()), qpn, psn, clock, accepts)
    {
      hide Sound, Nacked, NackOps, ApplyAll, Selected;
      ValidShaped();
      var slot := FindArq(qpn);
      if slot.Some? {
        var count := contexts[slot.value].HandleNack(psn, clock, accepts, pool);
        OneChanged(slot.value);
      }
    }

    method OnControl(payload: array<u8>, clock: nat -> u64, accepts: nat -> bool)
      requires Valid() && payload.Length >= CtrlMsg.SIZE
      modifies CtxFootprint(), pool
      ensures Valid() && Shaped(old(View()))
      ensures View() == ControlDone(old(View()), old(payload[..]), clock, accepts)
    {
      hide Sound, AckDone, NackDone, CtrlMsg.Parsed;
      ValidShaped();
      var msg := CtrlMsg.ParseCtrlMsg(payload);
      if msg.Some? {
        if msg.value.kind == ARQ_MSG_ACK {
          OnAck(msg.value.qpn, msg.value.psn);
        } else if msg.value.kind == ARQ_MSG_NACK {
          OnNack(msg.value.qpn, msg.value.psn, clock, accepts);
        }
      }
    }

    method TimerTick(now: nat -> u64, timeout: u64, accepted: (nat, nat) -> bool)
      requires Valid()
      modifies CtxFootprint(), pool
      ensures Valid() && Shaped(old(View()))
      ensures View() == TickedFrom(old(View()), 0, now, timeout, accepted)
    {
      hide Sound, Swept, SweepOps, ApplyAll, CtxSwept;
      ValidShaped();
      ghost var start := View();
      for i := 0 to |contexts|
        invariant Valid() && Shaped(View())
        invariant TickedFrom(View(), i, now, timeout, accepted) == TickedFrom(start, 0, now, timeout, accepted)
      {
        SweepContext(i, now(i), timeout, (j: nat) => accepted(i, j));
      }
    }

    method SweepContext(i: nat, now: u64, timeout: u64, accepts: nat -> bool)
      requires Valid() && i < |contexts|
      modifies CtxFootprint(), pool
      ensures Valid() && Shaped(old(View())) && Shaped(View())
      ensures View() == CtxSwept(old(View()), i, now, timeout, accepts)
    {
      hide Sound, Swept, SweepOps, ApplyAll;
      ValidShaped();
      if contexts[i].qpn != 0 {
        contexts[i].CheckTimeouts(now, timeout, accepts, pool);
        OneChanged(i);
      }
    }

    /** The card reports a transmission done. */
    method OnTxDone(m: Mbuf)
      requires Valid() && m in pool.pending
      modifies pool
      ensures Valid()
      ensures View() == old(View()).(pool := Complete(old(pool.View()), m))
    {
      pool.TxDone(m);
    }
  }
}
