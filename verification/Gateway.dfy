/** One gateway as a state machine: the LAN WRITE path, the WAN acknowledgement and negative
    acknowledgement paths, the timer and the completions of the network card, all acting on
    one set of tables.  Class `Processor.Processor` is proved to compute these steps. */
module Gateway {
  import opened SerialNumbers
  import opened Buffers
  import opened ArqWindow
  import opened Congestion

  const MAX_QP_CTX := 1024
  const CONGESTION_CHECK_INTERVAL := 5
  const TOTAL_BUFFERS := MAX_QP_CTX * WINDOW_SIZE

  datatype Qp = Qp(qpn: u32, active: bool, lastCnpTsc: u64, notifyIp: u32)

  /** `qpn == 0` marks a free context. */
  datatype Ctx = Ctx(qpn: u32, window: Window)

  /** A CNP put on the LAN for queue pair `qpn`, whose flow has table entry `flow`. */
  datatype Cnp = Cnp(flow: nat, qpn: u32, time: u64)

  datatype State = State(qps: seq<Qp>, ctxs: seq<Ctx>, pool: Pool, cc: Control, packetCounter: u32, cnps: seq<Cnp>)

  /** A RoCE WRITE packet from the LAN; `peerIp` is the gateway that serves its destination. */
  datatype Packet = Packet(m: Mbuf, qpn: u32, psn: u32, segmentType: u8, srcIp: u32, peerIp: u32, ecnMarked: bool)

  /** What the hardware decides during one LAN packet: three readings of the cycle counter,
      whether the packet's transmission is accepted, and for the CNP of table entry `i`
      whether a buffer can be had (`built`) and whether the card takes it (`taken`), first on
      the ECN mark and then in the congestion sweep. */
  datatype Env = Env(ecnTime: u64, sendTime: u64, sweepTime: u64, txAccepted: bool,
                     ecnBuilt: bool, ecnTaken: bool, built: nat -> bool, taken: nat -> bool)

  datatype Event =
    | LanWrite(pkt: Packet, env: Env)
    | AckMsg(qpn: u32, psn: u32)
    | NackMsg(qpn: u32, psn: u32, clock: nat -> u64, accepts: nat -> bool)
    | TimerTick(now: nat -> u64, timeout: u64, accepted: (nat, nat) -> bool)
    | NicDone(m: Mbuf)

  ghost predicate Shaped(s: State) {
    && |s.qps| == MAX_QP_CTX && |s.ctxs| == MAX_QP_CTX
    && forall k :: 0 <= k < MAX_QP_CTX ==> |s.ctxs[k].window.slots| == WINDOW_SIZE && s.ctxs[k].window.base <= s.ctxs[k].window.next
  }

  // ----- the tables -----

  /** The first context from `k` on with this number. */
  function FindCtx(ctxs: seq<Ctx>, qpn: u32, k: nat): (r: Option<nat>)
    ensures r.Some? ==> k <= r.value < |ctxs| && ctxs[r.value].qpn == qpn
    ensures r.None? ==> forall j :: k <= j < |ctxs| ==> ctxs[j].qpn != qpn
    decreases |ctxs| - k
  {
    if k >= |ctxs| then None else if ctxs[k].qpn == qpn then Some(k) else FindCtx(ctxs, qpn, k + 1)
  }

  function FindQp(qps: seq<Qp>, qpn: u32, k: nat): (r: Option<nat>)
    ensures r.Some? ==> k <= r.value < |qps| && qps[r.value].active && qps[r.value].qpn == qpn
    ensures r.None? ==> forall j :: k <= j < |qps| ==> !(qps[j].active && qps[j].qpn == qpn)
    decreases |qps| - k
  {
    if k >= |qps| then None else if qps[k].active && qps[k].qpn == qpn then Some(k) else FindQp(qps, qpn, k + 1)
  }

  function FreeQp(qps: seq<Qp>, k: nat): (r: Option<nat>)
    ensures r.Some? ==> k <= r.value < |qps| && !qps[r.value].active
    ensures r.None? ==> forall j :: k <= j < |qps| ==> qps[j].active
    decreases |qps| - k
  {
    if k >= |qps| then None else if !qps[k].active then Some(k) else FreeQp(qps, k + 1)
  }

  /** Where the context of a number is or would be put. */
  function CtxSlot(ctxs: seq<Ctx>, qpn: u32): (r: Option<nat>)
    ensures r.Some? ==> r.value < |ctxs|
  {
    var found := FindCtx(ctxs, qpn, 0);
    if found.Some? then found else FindCtx(ctxs, 0, 0)
  }

  predicate CtxIsNew(ctxs: seq<Ctx>, qpn: u32) {
    FindCtx(ctxs, qpn, 0).None? && FindCtx(ctxs, 0, 0).Some?
  }

  /** The table with a context for the number, if there is room. */
  function WithCtx(ctxs: seq<Ctx>, qpn: u32): (ctxs': seq<Ctx>)
    ensures |ctxs'| == |ctxs|
  {
    if CtxIsNew(ctxs, qpn) then ctxs[FindCtx(ctxs, 0, 0).value := Ctx(qpn, EmptyWindow())] else ctxs
  }

  function QpSlot(qps: seq<Qp>, qpn: u32): (r: Option<nat>)
    ensures r.Some? ==> r.value < |qps|
  {
    var found := FindQp(qps, qpn, 0);
    if found.Some? then found else FreeQp(qps, 0)
  }

  function WithQp(qps: seq<Qp>, qpn: u32): (qps': seq<Qp>)
    ensures |qps'| == |qps|
  {
    if FindQp(qps, qpn, 0).None? && FreeQp(qps, 0).Some?
    then qps[FreeQp(qps, 0).value := Qp(qpn, true, 0, 0)] else qps
  }

  // ----- congestion notification -----

  function Emitted(s: State, i: nat, now: u64, built: bool, taken: bool): (s': State)
    requires i < |s.qps|
    ensures s' == s.(qps := s'.qps, cc := s'.cc, cnps := s'.cnps) && |s'.qps| == |s.qps|
  {
    var qp := s.qps[i];
    if qp.notifyIp == 0 || !CnpDue(s.cc, qp.lastCnpTsc, now) || !built then s
    else
      var counted := s.(cc := s.cc.(totalCnpSent := s.cc.totalCnpSent + 1));
      if !taken then counted
      else counted.(qps := s.qps[i := qp.(lastCnpTsc := now)], cnps := s.cnps + [Cnp(i, qp.qpn, now)])
  }

  /** One CNP attempt for every active flow from entry `i` on. */
  function EmittedFrom(s: State, i: nat, now: u64, built: nat -> bool, taken: nat -> bool): (s': State)
    ensures s' == s.(qps := s'.qps, cc := s'.cc, cnps := s'.cnps) && |s'.qps| == |s.qps|
    decreases |s.qps| - i
  {
    if i >= |s.qps| then s
    else EmittedFrom(if s.qps[i].active then Emitted(s, i, now, built(i), taken(i)) else s, i + 1, now, built, taken)
  }

  function CtxUsage(c: Ctx): nat
    requires c.window.base <= c.window.next
  {
    if c.qpn != 0 then c.window.next - c.window.base else 0
  }

  /** Entries outstanding in all windows in use. */
  function Usage(ctxs: seq<Ctx>): nat
    requires forall k :: 0 <= k < |ctxs| ==> ctxs[k].window.base <= ctxs[k].window.next
  {
    if ctxs == [] then 0 else Usage(ctxs[..|ctxs| - 1]) + CtxUsage(ctxs[|ctxs| - 1])
  }

  function CongestionChecked(s: State, now: u64, built: nat -> bool, taken: nat -> bool): (s': State)
    requires Shaped(s)
    ensures s' == s.(qps := s'.qps, cc := s'.cc, cnps := s'.cnps) && |s'.qps| == |s.qps|
  {
    var checked := s.(cc := Checked(s.cc, Usage(s.ctxs) % 0x1_0000_0000, TOTAL_BUFFERS));
    if checked.cc.detected then EmittedFrom(checked, 0, now, built, taken) else checked
  }

  // ----- the steps -----

  /** Whether a WRITE packet finds a place in the send window of its queue pair. */
  predicate Enters(ctxs: seq<Ctx>, qpn: u32)
    requires forall k :: 0 <= k < |ctxs| ==> |ctxs[k].window.slots| == WINDOW_SIZE
  {
    var slot := CtxSlot(ctxs, qpn);
    slot.Some? && !Full(WithCtx(ctxs, qpn)[slot.value].window)
  }

  function ForwardedCtxs(ctxs: seq<Ctx>, pkt: Packet, now: u64): (ctxs': seq<Ctx>)
    requires forall k :: 0 <= k < |ctxs| ==> |ctxs[k].window.slots| == WINDOW_SIZE && ctxs[k].window.base <= ctxs[k].window.next
    ensures |ctxs'| == |ctxs|
    ensures forall k :: 0 <= k < |ctxs'| ==> |ctxs'[k].window.slots| == WINDOW_SIZE && ctxs'[k].window.base <= ctxs'[k].window.next
  {
    var used := WithCtx(ctxs, pkt.qpn);
    if Enters(ctxs, pkt.qpn) then
      var k := CtxSlot(ctxs, pkt.qpn).value;
      used[k := used[k].(window := Sent(used[k].window, pkt.m, pkt.psn, pkt.segmentType, now))]
    else used
  }

  /** A packet in the window stays owned by it and the card gets a reference of its own; any
      other packet is handed to the card outright. */
  function ForwardOp(ctxs: seq<Ctx>, pkt: Packet, accepted: bool): BufferOp
    requires forall k :: 0 <= k < |ctxs| ==> |ctxs[k].window.slots| == WINDOW_SIZE
  {
    if Enters(ctxs, pkt.qpn) then Transmit(pkt.m, accepted) else HandOver(pkt.m, accepted)
  }

  function Forwarded(s: State, pkt: Packet, now: u64, accepted: bool): (s': State)
    requires Shaped(s)
    ensures Shaped(s') && s' == s.(ctxs := s'.ctxs, pool := s'.pool)
  {
    s.(ctxs := ForwardedCtxs(s.ctxs, pkt, now), pool := Apply(s.pool, ForwardOp(s.ctxs, pkt, accepted)))
  }

  /** The packet is in its buffer and the queue pair table has an entry for its number, if there
      is room for one. */
  function Admitted(s: State, pkt: Packet): (s': State)
    ensures s' == s.(qps := s'.qps, pool := s'.pool) && |s'.qps| == |s.qps|
  {
    s.(pool := Receive(s.pool, pkt.m), qps := WithQp(s.qps, pkt.qpn))
  }

  /** The entry remembers where CNPs for this flow go; a packet marked by ECN may cause one. */
  function FlowNoted(s: State, k: nat, pkt: Packet, env: Env): (s': State)
    requires k < |s.qps|
    ensures s' == s.(qps := s'.qps, cc := s'.cc, cnps := s'.cnps) && |s'.qps| == |s.qps|
  {
    var s2 := s.(qps := s.qps[k := s.qps[k].(notifyIp := pkt.srcIp)]);
    if pkt.ecnMarked then Emitted(s2, k, env.ecnTime, env.ecnBuilt, env.ecnTaken) else s2
  }

  /** Every fifth packet checks for congestion. */
  function Counted(s: State, env: Env): (s': State)
    requires Shaped(s)
    ensures Shaped(s') && s' == s.(qps := s'.qps, cc := s'.cc, cnps := s'.cnps, packetCounter := s'.packetCounter)
    ensures |s'.qps| == |s.qps|
  {
    var s5 := s.(packetCounter := (s.packetCounter + 1) % 0x1_0000_0000);
    if s5.packetCounter % CONGESTION_CHECK_INTERVAL == 0
    then CongestionChecked(s5, env.sweepTime, env.built, env.taken) else s5
  }

  function LanWriteDone(s: State, pkt: Packet, env: Env): (s': State)
    requires Shaped(s)
    ensures Shaped(s')
  {
    var s1 := Admitted(s, pkt);
    var slot := QpSlot(s.qps, pkt.qpn);
    if slot.None? then s1.(pool := Apply(s1.pool, Release(pkt.m)))
    else Counted(Forwarded(FlowNoted(s1, slot.value, pkt, env), pkt, env.sendTime, env.txAccepted), env)
  }

  function AckDone(s: State, qpn: u32, psn: u32): (s': State)
    requires Shaped(s)
    ensures Shaped(s') && s' == s.(ctxs := s'.ctxs, pool := s'.pool)
  {
    var slot := FindCtx(s.ctxs, qpn, 0);
    if slot.None? then s
    else
      var c := s.ctxs[slot.value];
      s.(ctxs := s.ctxs[slot.value := c.(window := Acked(c.window, psn))], pool := ApplyAll(s.pool, AckOps(c.window, psn)))
  }

  function NackDone(s: State, qpn: u32, psn: u32, clock: nat -> u64, accepts: nat -> bool): (s': State)
    requires Shaped(s)
    ensures Shaped(s') && s' == s.(ctxs := s'.ctxs, pool := s'.pool)
  {
    var slot := FindCtx(s.ctxs, qpn, 0);
    if slot.None? then s
    else
      var c := s.ctxs[slot.value];
      s.(ctxs := s.ctxs[slot.value := c.(window := Nacked(c.window, psn, clock))],
         pool := ApplyAll(s.pool, NackOps(c.window, psn, accepts)))
  }

  function CtxSwept(s: State, k: nat, now: u64, timeout: u64, accepts: nat -> bool): (s': State)
    requires Shaped(s) && k < MAX_QP_CTX
    ensures Shaped(s') && s' == s.(ctxs := s'.ctxs, pool := s'.pool)
  {
    var c := s.ctxs[k];
    if c.qpn == 0 then s
    else
      s.(ctxs := s.ctxs[k := c.(window := Swept(c.window, now, timeout))],
         pool := ApplyAll(s.pool, SweepOps(c.window, now, timeout, accepts)))
  }

  /** The timer sweeps every context from `k` on; each reads the cycle counter for itself. */
  function TickedFrom(s: State, k: nat, now: nat -> u64, timeout: u64, accepted: (nat, nat) -> bool): (s': State)
    requires Shaped(s)
    ensures Shaped(s') && s' == s.(ctxs := s'.ctxs, pool := s'.pool)
    decreases MAX_QP_CTX - k
  {
    if k >= MAX_QP_CTX then s
    else TickedFrom(CtxSwept(s, k, now(k), timeout, (i: nat) => accepted(k, i)), k + 1, now, timeout, accepted)
  }

  function Step(s: State, ev: Event): (s': State)
    requires Shaped(s)
    requires ev.NicDone? ==> ev.m in s.pool.pending
    ensures Shaped(s')
  {
    match ev
    case LanWrite(pkt, env) => LanWriteDone(s, pkt, env)
    case AckMsg(qpn, psn) => AckDone(s, qpn, psn)
    case NackMsg(qpn, psn, clock, accepts) => NackDone(s, qpn, psn, clock, accepts)
    case TimerTick(now, timeout, accepted) => TickedFrom(s, 0, now, timeout, accepted)
    case NicDone(m) => s.(pool := Complete(s.pool, m))
  }

  function Booted(cc: Control): (s: State)
    ensures Shaped(s)
  {
    State(seq(MAX_QP_CTX, i => Qp(0, false, 0, 0)), seq(MAX_QP_CTX, i => Ctx(0, EmptyWindow())),
          Pool(multiset{}, multiset{}, 0), cc, 0, [])
  }

  /** The steps the surroundings can take: a received packet sits in a buffer that was free,
      and only accepted transmissions complete. */
  ghost predicate Possible(s: State, ev: Event) {
    match ev
    case LanWrite(pkt, _) => pkt.m !in s.pool.refs
    case NicDone(m) => m in s.pool.pending
    case _ => true
  }

  /** The state after a run, when every step of it is possible. */
  ghost function Run(cc: Control, evs: seq<Event>): (r: Option<State>)
    ensures r.Some? ==> Shaped(r.value)
    decreases |evs|
  {
    if evs == [] then Some(Booted(cc))
    else
      var before := Run(cc, evs[..|evs| - 1]);
      if before.Some? && Possible(before.value, evs[|evs| - 1]) then Some(Step(before.value, evs[|evs| - 1])) else None
  }

  /** The LAN path acts on the contexts and the buffers as if nothing else were there. */
  lemma LanWriteFactors(s: State, pkt: Packet, env: Env)
    requires Shaped(s)
    ensures var s', p := LanWriteDone(s, pkt, env), Receive(s.pool, pkt.m);
            if QpSlot(s.qps, pkt.qpn).None?
            then s'.ctxs == s.ctxs && s'.pool == Apply(p, Release(pkt.m))
            else (s'.ctxs == ForwardedCtxs(s.ctxs, pkt, env.sendTime)
                  && s'.pool == Apply(p, ForwardOp(s.ctxs, pkt, env.txAccepted)))
  {
    hide ForwardedCtxs, ForwardOp, Apply, FlowNoted, Counted, Receive, WithQp, QpSlot;
  }
}
