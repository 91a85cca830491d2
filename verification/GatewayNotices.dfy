/** Which CNPs a step of the gateway puts on the LAN, and for whom. */
module GatewayNotices {
  import opened SerialNumbers
  import opened Buffers
  import opened Congestion
  import opened Gateway
  import opened GatewayUsage

  /** A CNP for this flow goes out: it has someone to notify, its last one is a pacing interval ago in
      64-bit cycles, a buffer can be had and the card takes it. */
  predicate Notifies(qp: Qp, interval: u64, now: u64, built: bool, taken: bool) {
    qp.notifyIp != 0 && (now - qp.lastCnpTsc) % 0x1_0000_0000_0000_0000 >= interval && built && taken
  }

  function NoticeIf(sent: bool, flow: nat, qpn: u32, now: u64): seq<Cnp> {
    if sent then [Cnp(flow, qpn, now)] else []
  }

  /** One CNP for each entry in use, from `i` on, that notifies. */
  function NoticesFrom(qps: seq<Qp>, i: nat, interval: u64, now: u64, built: nat -> bool, taken: nat -> bool): seq<Cnp>
    decreases |qps| - i
  {
    if i >= |qps| then []
    else NoticeIf(qps[i].active && Notifies(qps[i], interval, now, built(i), taken(i)), i, qps[i].qpn, now)
         + NoticesFrom(qps, i + 1, interval, now, built, taken)
  }

  /** One attempt: the CNP goes out exactly when the flow notifies, and only then the entry remembers
      the time; it is counted when it was built. */
  lemma EmitsExactly(s: State, i: nat, now: u64, built: bool, taken: bool)
    requires i < |s.qps|
    ensures var s', qp := Emitted(s, i, now, built, taken), s.qps[i];
            var sent := Notifies(qp, s.cc.cnpTimerCycles, now, built, taken);
            && s'.cnps == s.cnps + NoticeIf(sent, i, qp.qpn, now)
            && s'.qps == s.qps[i := qp.(lastCnpTsc := if sent then now else qp.lastCnpTsc)]
            && s'.cc.cnpTimerCycles == s.cc.cnpTimerCycles
            && s'.cc.totalCnpSent == s.cc.totalCnpSent + if Notifies(qp, s.cc.cnpTimerCycles, now, built, true) then 1 else 0
  {
  }

  lemma {:induction false} LaterNotices(a: seq<Qp>, b: seq<Qp>, i: nat, interval: u64, now: u64, built: nat -> bool, taken: nat -> bool)
    requires |a| == |b| && forall j :: i <= j < |a| ==> a[j] == b[j]
    ensures NoticesFrom(a, i, interval, now, built, taken) == NoticesFrom(b, i, interval, now, built, taken)
    decreases |a| - i
  {
    if i < |a| {
      LaterNotices(a, b, i + 1, interval, now, built, taken);
    }
  }

  /** One step of the sweep, for an entry in use or not. */
  lemma SweepStep(s: State, i: nat, now: u64, built: nat -> bool, taken: nat -> bool)
    requires i < |s.qps|
    ensures var s' := if s.qps[i].active then Emitted(s, i, now, built(i), taken(i)) else s;
            var notice := NoticeIf(s.qps[i].active && Notifies(s.qps[i], s.cc.cnpTimerCycles, now, built(i), taken(i)), i, s.qps[i].qpn, now);
            && s'.cnps == s.cnps + notice && |s'.qps| == |s.qps| && s'.cc.cnpTimerCycles == s.cc.cnpTimerCycles
            && (forall j :: i + 1 <= j < |s.qps| ==> s'.qps[j] == s.qps[j])
            && EmittedFrom(s, i, now, built, taken) == EmittedFrom(s', i + 1, now, built, taken)
  {
    EmitsExactly(s, i, now, built(i), taken(i));
    hide Emitted, Notifies;
  }

  lemma {:induction false} SweepNotices(s: State, i: nat, now: u64, built: nat -> bool, taken: nat -> bool)
    ensures EmittedFrom(s, i, now, built, taken).cnps == s.cnps + NoticesFrom(s.qps, i, s.cc.cnpTimerCycles, now, built, taken)
    decreases |s.qps| - i
  {
    hide Notifies, NoticeIf;
    if i < |s.qps| {
      SweepStep(s, i, now, built, taken);
      var s' := if s.qps[i].active then Emitted(s, i, now, built(i), taken(i)) else s;
      var interval := s.cc.cnpTimerCycles;
      var notice := NoticeIf(s.qps[i].active && Notifies(s.qps[i], interval, now, built(i), taken(i)), i, s.qps[i].qpn, now);
      LaterNotices(s.qps, s'.qps, i + 1, interval, now, built, taken);
      SweepNotices(s', i + 1, now, built, taken);
      Associates(s.cnps, notice, NoticesFrom(s.qps, i + 1, interval, now, built, taken));
    }
  }

  lemma Associates<T>(a: seq<T>, b: seq<T>, c: seq<T>)
    ensures (a + b) + c == a + (b + c)
  {
  }

  lemma NoNotice(i: nat, qpn: u32, now: u64)
    ensures NoticeIf(false, i, qpn, now) == []
  {
  }

  /** A congestion check sends one CNP for each entry in use that notifies if it leaves the flag set, and
      none otherwise. */
  lemma CheckNotices(s: State, now: u64, built: nat -> bool, taken: nat -> bool)
    requires Shaped(s)
    ensures var s' := CongestionChecked(s, now, built, taken);
            s'.cnps == s.cnps + if s'.cc.detected then NoticesFrom(s.qps, 0, s.cc.cnpTimerCycles, now, built, taken) else []
  {
    hide EmittedFrom, NoticesFrom, Detect, Percent, Usage;
    var checked := s.(cc := Checked(s.cc, Usage(s.ctxs) % 0x1_0000_0000, TOTAL_BUFFERS));
    SweepNotices(checked, 0, now, built, taken);
    SweepKeepsFlag(checked, 0, now, built, taken);
  }

  /** The table entry of the flow as the packet leaves it, before any CNP. */
  function EntryMet(qps: seq<Qp>, pkt: Packet, k: nat): Qp
    requires k < |qps|
  {
    Qp(pkt.qpn, true, if FindQp(qps, pkt.qpn, 0).Some? then qps[k].lastCnpTsc else 0, pkt.srcIp)
  }

  /** The CNP its ECN mark causes, if any. */
  predicate MarkNotifies(s: State, pkt: Packet, env: Env, k: nat)
    requires k < |s.qps|
  {
    pkt.ecnMarked && Notifies(EntryMet(s.qps, pkt, k), s.cc.cnpTimerCycles, env.ecnTime, env.ecnBuilt, env.ecnTaken)
  }

  /** The flow table after that. */
  function TableMet(s: State, pkt: Packet, env: Env, k: nat): seq<Qp>
    requires k < |s.qps|
  {
    var qp := EntryMet(s.qps, pkt, k);
    s.qps[k := if MarkNotifies(s, pkt, env, k) then qp.(lastCnpTsc := env.ecnTime) else qp]
  }

  lemma NotedExactly(s: State, pkt: Packet, env: Env, k: nat)
    requires QpSlot(s.qps, pkt.qpn) == Some(k)
    ensures var s' := FlowNoted(Admitted(s, pkt), k, pkt, env);
            && s'.cnps == s.cnps + NoticeIf(MarkNotifies(s, pkt, env, k), k, pkt.qpn, env.ecnTime)
            && s'.qps == TableMet(s, pkt, env, k)
            && s'.cc.cnpTimerCycles == s.cc.cnpTimerCycles && s'.packetCounter == s.packetCounter
  {
    var s1 := Admitted(s, pkt);
    var s2 := s1.(qps := s1.qps[k := s1.qps[k].(notifyIp := pkt.srcIp)]);
    assert s2.qps == s.qps[k := EntryMet(s.qps, pkt, k)];
    EmitsExactly(s2, k, env.ecnTime, env.ecnBuilt, env.ecnTaken);
    hide Emitted, Notifies, NoticeIf, EntryMet, FindQp, FreeQp;
    assert !pkt.ecnMarked ==> NoticeIf(false, k, pkt.qpn, env.ecnTime) == [] by { NoNotice(k, pkt.qpn, env.ecnTime); }
  }

  /** A WRITE sends exactly these CNPs: one for its own flow if it carries the ECN mark and the flow
      notifies, and then, on every fifth WRITE that leaves the congestion flag set, one for each entry
      in use that notifies. */
  lemma LanWriteNotices(s: State, pkt: Packet, env: Env, k: nat)
    requires Shaped(s) && QpSlot(s.qps, pkt.qpn) == Some(k)
    ensures var s' := Step(s, LanWrite(pkt, env));
            var checks := (s.packetCounter + 1) % 0x1_0000_0000 % 5 == 0;
            s'.cnps == s.cnps + NoticeIf(MarkNotifies(s, pkt, env, k), k, pkt.qpn, env.ecnTime)
                     + if checks && s'.cc.detected
                       then NoticesFrom(TableMet(s, pkt, env, k), 0, s.cc.cnpTimerCycles, env.sweepTime, env.built, env.taken) else []
  {
    hide FlowNoted, CongestionChecked, NoticesFrom, NoticeIf, MarkNotifies, TableMet, ForwardedCtxs, ForwardOp, QpSlot, Admitted;
    NotedExactly(s, pkt, env, k);
    var s4 := Forwarded(FlowNoted(Admitted(s, pkt), k, pkt, env), pkt, env.sendTime, env.txAccepted);
    CheckNotices(s4.(packetCounter := (s4.packetCounter + 1) % 0x1_0000_0000), env.sweepTime, env.built, env.taken);
  }

  /** A packet whose flow finds no table entry, and any other step, sends none. */
  lemma OthersSendNone(s: State, ev: Event)
    requires Shaped(s) && Possible(s, ev)
    requires ev.LanWrite? ==> QpSlot(s.qps, ev.pkt.qpn).None?
    ensures Step(s, ev).cnps == s.cnps && Step(s, ev).cc == s.cc
  {
    hide AckDone, NackDone, TickedFrom;
  }
}
