/** How densely CNPs can follow each other on one flow, over whole runs of a gateway. */
module GatewayPacing {
  import opened SerialNumbers
  import opened Buffers
  import opened Congestion
  import opened Gateway

  /** The times of the CNPs of one flow, in the order they were sent. */
  function TimesOf(cnps: seq<Cnp>, flow: nat): seq<u64> {
    if cnps == [] then []
    else
      var last := cnps[|cnps| - 1];
      TimesOf(cnps[..|cnps| - 1], flow) + if last.flow == flow then [last.time] else []
  }

  lemma TimesOfAppend(cnps: seq<Cnp>, c: Cnp, flow: nat)
    ensures TimesOf(cnps + [c], flow) == TimesOf(cnps, flow) + if c.flow == flow then [c.time] else []
  {
    assert (cnps + [c])[..|cnps|] == cnps;
  }

  /** Neighbouring CNPs are at least one interval apart. */
  ghost predicate Spaced(times: seq<u64>, interval: u64) {
    forall k :: 0 < k < |times| ==> times[k] - times[k - 1] >= interval
  }

  /** No two entries in use carry the same queue pair number. */
  ghost predicate NumbersDistinct(qps: seq<Qp>) {
    forall i, j :: 0 <= i < j < |qps| && qps[i].active && qps[j].active ==> qps[i].qpn != qps[j].qpn
  }

  /** Every CNP was for the queue pair whose entry still is the one it was sent for. */
  ghost predicate Named(qps: seq<Qp>, cnps: seq<Cnp>) {
    forall k :: 0 <= k < |cnps| ==> cnps[k].flow < |qps| && qps[cnps[k].flow].active && qps[cnps[k].flow].qpn == cnps[k].qpn
  }

  /** At time `clock` every flow is well spaced, and its table entry remembers its last CNP; the
      entries belong to different queue pairs and never change hands. */
  ghost predicate Paced(s: State, interval: u64, clock: u64) {
    && s.cc.cnpTimerCycles == interval
    && NumbersDistinct(s.qps) && Named(s.qps, s.cnps)
    && forall i :: 0 <= i < |s.qps| ==> FlowPaced(s, i, interval, clock)
  }

  ghost predicate FlowPaced(s: State, i: nat, interval: u64, clock: u64)
    requires i < |s.qps|
  {
    var times := TimesOf(s.cnps, i);
    && Spaced(times, interval)
    && s.qps[i].lastCnpTsc <= clock
    && (|times| > 0 ==> s.qps[i].active && s.qps[i].lastCnpTsc == times[|times| - 1])
  }

  lemma LaterStillPaced(s: State, interval: u64, clock: u64, clock': u64)
    requires Paced(s, interval, clock) && clock <= clock'
    ensures Paced(s, interval, clock')
  {
    forall i | 0 <= i < |s.qps| ensures FlowPaced(s, i, interval, clock') {
      assert FlowPaced(s, i, interval, clock);
    }
  }

  /** One attempt, whatever becomes of it, keeps the spacing. */
  lemma EmitPaced(s: State, i: nat, now: u64, built: bool, taken: bool, interval: u64)
    requires Paced(s, interval, now) && i < |s.qps| && s.qps[i].active
    ensures Paced(Emitted(s, i, now, built, taken), interval, now)
  {
    var s' := Emitted(s, i, now, built, taken);
    if s'.cnps == s.cnps {
      SamePacing(s, s', interval, now);
    } else {
      EmittedIsPaced(s, i, now, interval);
    }
  }

  /** A CNP that goes out is due: the last one of its flow is at least an interval ago. */
  lemma EmittedIsPaced(s: State, i: nat, now: u64, interval: u64)
    requires Paced(s, interval, now) && i < |s.qps| && s.qps[i].active && CnpDue(s.cc, s.qps[i].lastCnpTsc, now)
    ensures Paced(Emitted(s, i, now, true, true), interval, now)
  {
    var s' := Emitted(s, i, now, true, true);
    forall j | 0 <= j < |s'.qps| ensures FlowPaced(s', j, interval, now) {
      assert FlowPaced(s, j, interval, now);
      TimesOfAppend(s.cnps, Cnp(i, s.qps[i].qpn, now), j);
    }
  }

  lemma {:induction false} SweepPaced(s: State, i: nat, now: u64, built: nat -> bool, taken: nat -> bool, interval: u64)
    requires Paced(s, interval, now)
    ensures Paced(EmittedFrom(s, i, now, built, taken), interval, now)
    decreases |s.qps| - i
  {
    hide Paced, Emitted;
    if i < |s.qps| {
      var s' := if s.qps[i].active then Emitted(s, i, now, built(i), taken(i)) else s;
      if s.qps[i].active {
        EmitPaced(s, i, now, built(i), taken(i), interval);
      }
      SweepPaced(s', i + 1, now, built, taken, interval);
    }
  }

  /** Nothing else touches what pacing depends on. */
  lemma SamePacing(s: State, s': State, interval: u64, clock: u64)
    requires Paced(s, interval, clock)
    requires s'.cnps == s.cnps && s'.cc.cnpTimerCycles == s.cc.cnpTimerCycles && |s'.qps| == |s.qps|
    requires forall i :: 0 <= i < |s.qps| ==>
               s'.qps[i].lastCnpTsc == s.qps[i].lastCnpTsc && s'.qps[i].active == s.qps[i].active && s'.qps[i].qpn == s.qps[i].qpn
    ensures Paced(s', interval, clock)
  {
    forall i | 0 <= i < |s'.qps| ensures FlowPaced(s', i, interval, clock) {
      assert FlowPaced(s, i, interval, clock);
    }
  }

  /** A fresh queue pair entry has sent nothing. */
  lemma WithQpPaced(s: State, qpn: u32, interval: u64, clock: u64)
    requires Paced(s, interval, clock)
    ensures Paced(s.(qps := WithQp(s.qps, qpn)), interval, clock)
  {
    var s' := s.(qps := WithQp(s.qps, qpn));
    forall i | 0 <= i < |s'.qps| ensures FlowPaced(s', i, interval, clock) {
      assert FlowPaced(s, i, interval, clock);
    }
  }

  lemma QpSlotActive(qps: seq<Qp>, qpn: u32)
    requires QpSlot(qps, qpn).Some?
    ensures WithQp(qps, qpn)[QpSlot(qps, qpn).value].active
  {
  }

  lemma NotedPaced(s: State, k: nat, pkt: Packet, env: Env, interval: u64)
    requires Paced(s, interval, env.ecnTime) && k < |s.qps| && s.qps[k].active
    ensures Paced(FlowNoted(s, k, pkt, env), interval, env.ecnTime)
  {
    hide Paced, Emitted;
    var s2 := s.(qps := s.qps[k := s.qps[k].(notifyIp := pkt.srcIp)]);
    SamePacing(s, s2, interval, env.ecnTime);
    if pkt.ecnMarked {
      EmitPaced(s2, k, env.ecnTime, env.ecnBuilt, env.ecnTaken, interval);
    }
  }

  lemma CountedPaced(s: State, env: Env, interval: u64)
    requires Shaped(s) && Paced(s, interval, env.sweepTime)
    ensures Paced(Counted(s, env), interval, env.sweepTime)
  {
    hide Paced, CongestionChecked;
    var s5 := s.(packetCounter := (s.packetCounter + 1) % 0x1_0000_0000);
    SamePacing(s, s5, interval, env.sweepTime);
    if s5.packetCounter % CONGESTION_CHECK_INTERVAL == 0 {
      CheckPaced(s5, env, interval);
    }
  }

  lemma LanWritePaced(s: State, pkt: Packet, env: Env, interval: u64, clock: u64)
    requires Shaped(s) && Paced(s, interval, clock)
    requires clock <= env.ecnTime <= env.sweepTime
    ensures Paced(LanWriteDone(s, pkt, env), interval, env.sweepTime)
  {
    hide Paced, Shaped, FlowNoted, Counted, Forwarded, WithQp, QpSlot, Apply;
    var s0 := s.(pool := Receive(s.pool, pkt.m));
    SamePacing(s, s0, interval, clock);
    WithQpPaced(s0, pkt.qpn, interval, clock);
    var s1 := Admitted(s, pkt);
    LaterStillPaced(s1, interval, clock, env.ecnTime);
    var slot := QpSlot(s.qps, pkt.qpn);
    if slot.None? {
      SamePacing(s1, LanWriteDone(s, pkt, env), interval, env.ecnTime);
      LaterStillPaced(LanWriteDone(s, pkt, env), interval, env.ecnTime, env.sweepTime);
    } else {
      QpSlotActive(s.qps, pkt.qpn);
      var s3 := FlowNoted(s1, slot.value, pkt, env);
      NotedPaced(s1, slot.value, pkt, env, interval);
      assert Shaped(s3) by { ShapeOf(s, s3); }
      var s4 := Forwarded(s3, pkt, env.sendTime, env.txAccepted);
      SamePacing(s3, s4, interval, env.ecnTime);
      LaterStillPaced(s4, interval, env.ecnTime, env.sweepTime);
      CountedPaced(s4, env, interval);
    }
  }

  lemma ShapeOf(s: State, s': State)
    requires Shaped(s) && s'.ctxs == s.ctxs && |s'.qps| == |s.qps|
    ensures Shaped(s')
  {
  }

  lemma CheckPaced(s: State, env: Env, interval: u64)
    requires Shaped(s) && Paced(s, interval, env.sweepTime)
    ensures Paced(CongestionChecked(s, env.sweepTime, env.built, env.taken), interval, env.sweepTime)
  {
    hide Paced, EmittedFrom;
    var checked := s.(cc := Checked(s.cc, Usage(s.ctxs) % 0x1_0000_0000, TOTAL_BUFFERS));
    SamePacing(s, checked, interval, env.sweepTime);
    if checked.cc.detected {
      SweepPaced(checked, 0, env.sweepTime, env.built, env.taken, interval);
    }
  }

  /** The last reading of the cycle counter that a run used for CNPs. */
  function Clock(evs: seq<Event>): u64
    decreases |evs|
  {
    if evs == [] then 0
    else if evs[|evs| - 1].LanWrite? then evs[|evs| - 1].env.sweepTime
    else Clock(evs[..|evs| - 1])
  }

  /** The cycle counter never runs backwards. */
  ghost predicate ClockSteady(evs: seq<Event>)
    decreases |evs|
  {
    evs == []
    || (ClockSteady(evs[..|evs| - 1])
        && (evs[|evs| - 1].LanWrite? ==> Clock(evs[..|evs| - 1]) <= evs[|evs| - 1].env.ecnTime <= evs[|evs| - 1].env.sweepTime))
  }

  lemma {:induction false} RunPaced(cc: Control, evs: seq<Event>)
    requires Run(cc, evs).Some? && ClockSteady(evs)
    ensures Paced(Run(cc, evs).value, cc.cnpTimerCycles, Clock(evs))
    decreases |evs|
  {
    hide LanWriteDone, AckDone, NackDone, TickedFrom;
    if evs != [] {
      var n := |evs| - 1;
      var s := Run(cc, evs[..n]).value;
      RunPaced(cc, evs[..n]);
      match evs[n]
      case LanWrite(pkt, env) => LanWritePaced(s, pkt, env, cc.cnpTimerCycles, Clock(evs[..n]));
      case AckMsg(_, _) => SamePacing(s, Step(s, evs[n]), cc.cnpTimerCycles, Clock(evs));
      case NackMsg(_, _, _, _) => SamePacing(s, Step(s, evs[n]), cc.cnpTimerCycles, Clock(evs));
      case TimerTick(_, _, _) => SamePacing(s, Step(s, evs[n]), cc.cnpTimerCycles, Clock(evs));
      case NicDone(_) => SamePacing(s, Step(s, evs[n]), cc.cnpTimerCycles, Clock(evs));
    }
  }

  lemma {:induction false} SpacedSpan(times: seq<u64>, interval: u64, a: nat, b: nat)
    requires Spaced(times, interval) && a <= b < |times|
    ensures times[b] - times[a] >= (b - a) * interval
    decreases b - a
  {
    if a < b {
      SpacedSpan(times, interval, a, b - 1);
      assert times[b] - times[b - 1] >= interval;
      assert (b - a) * interval == (b - 1 - a) * interval + interval;
    }
  }

  /** The times of the CNPs for one queue pair, in the order they were sent. */
  function TimesOfNumber(cnps: seq<Cnp>, qpn: u32): seq<u64> {
    if cnps == [] then []
    else
      var last := cnps[|cnps| - 1];
      TimesOfNumber(cnps[..|cnps| - 1], qpn) + if last.qpn == qpn then [last.time] else []
  }

  /** They are those of its table entry. */
  lemma {:induction false} NumberHasOneEntry(qps: seq<Qp>, cnps: seq<Cnp>, i: nat)
    requires NumbersDistinct(qps) && Named(qps, cnps) && i < |qps| && qps[i].active
    ensures TimesOfNumber(cnps, qps[i].qpn) == TimesOf(cnps, i)
  {
    if cnps != [] {
      NumberHasOneEntry(qps, cnps[..|cnps| - 1], i);
    }
  }

  lemma {:induction false} SentForSomeEntry(qps: seq<Qp>, cnps: seq<Cnp>, qpn: u32) returns (i: nat)
    requires Named(qps, cnps) && TimesOfNumber(cnps, qpn) != []
    ensures i < |qps| && qps[i].active && qps[i].qpn == qpn
  {
    var last := cnps[|cnps| - 1];
    if last.qpn == qpn {
      i := last.flow;
    } else {
      i := SentForSomeEntry(qps, cnps[..|cnps| - 1], qpn);
    }
  }

  /** Over any run with a steady clock, from the first to the last of `k` CNPs for one queue pair
      at least `k - 1` pacing intervals pass, whether ECN marks or congestion sweeps caused them. */
  lemma CnpPacing(cc: Control, evs: seq<Event>, qpn: u32, a: nat, b: nat)
    requires Run(cc, evs).Some? && ClockSteady(evs)
    requires a <= b < |TimesOfNumber(Run(cc, evs).value.cnps, qpn)|
    ensures var times := TimesOfNumber(Run(cc, evs).value.cnps, qpn);
            times[b] - times[a] >= (b - a) * cc.cnpTimerCycles
  {
    hide Run;
    RunPaced(cc, evs);
    var s := Run(cc, evs).value;
    var i := SentForSomeEntry(s.qps, s.cnps, qpn);
    NumberHasOneEntry(s.qps, s.cnps, i);
    assert FlowPaced(s, i, cc.cnpTimerCycles, Clock(evs));
    SpacedSpan(TimesOf(s.cnps, i), cc.cnpTimerCycles, a, b);
  }
}
