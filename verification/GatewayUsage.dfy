/** How far the usage figure behind the congestion flag can rise, and what the flag then is, over
    whole runs. */
module GatewayUsage {
  import opened SerialNumbers
  import opened ArqWindow
  import opened ArqRuns
  import opened Congestion
  import opened Gateway

  /** A window that has dropped nothing is an exact ring. */
  ghost predicate DropFreeRing(w: Window) {
    |w.slots| == WINDOW_SIZE && w.base <= w.next && (w.totalTimeout == 0 ==> Ring(w))
  }

  ghost predicate AllRings(ctxs: seq<Ctx>) {
    forall k :: 0 <= k < |ctxs| ==> DropFreeRing(ctxs[k].window)
  }

  lemma StepKeepsRing(w: Window, ev: ArqRuns.Event)
    requires DropFreeRing(w)
    ensures DropFreeRing(ArqRuns.Step(w, ev))
  {
    hide Ring;
    TimeoutsOnlyGrow(w, ev);
    if ArqRuns.Step(w, ev).totalTimeout == 0 {
      match ev
      case SendPkt(m, psn, segmentType, now) => SentRing(w, m, psn, segmentType, now);
      case GotAck(ack) => AckedRing(w, ack);
      case GotNack(nack, clock) => TouchAllRing(w, Selected(w, nack), clock);
      case Timer(now, timeout) => SweptRing(w, w.base, now, timeout);
    }
  }

  lemma {:induction false} TickKeepsRings(s: State, k: nat, now: nat -> u64, timeout: u64, accepted: (nat, nat) -> bool)
    requires Shaped(s) && AllRings(s.ctxs)
    ensures AllRings(TickedFrom(s, k, now, timeout, accepted).ctxs)
    decreases MAX_QP_CTX - k
  {
    hide DropFreeRing, Swept;
    if k < MAX_QP_CTX {
      StepKeepsRing(s.ctxs[k].window, Timer(now(k), timeout));
      TickKeepsRings(CtxSwept(s, k, now(k), timeout, (i: nat) => accepted(k, i)), k + 1, now, timeout, accepted);
    }
  }

  lemma ForwardKeepsRings(ctxs: seq<Ctx>, pkt: Packet, now: u64)
    requires AllRings(ctxs)
    requires forall k :: 0 <= k < |ctxs| ==> |ctxs[k].window.slots| == WINDOW_SIZE && ctxs[k].window.base <= ctxs[k].window.next
    ensures AllRings(ForwardedCtxs(ctxs, pkt, now))
  {
    hide DropFreeRing, Sent;
    EmptyRingFree();
    var used := WithCtx(ctxs, pkt.qpn);
    if Enters(ctxs, pkt.qpn) {
      StepKeepsRing(used[CtxSlot(ctxs, pkt.qpn).value].window, SendPkt(pkt.m, pkt.psn, pkt.segmentType, now));
    }
  }

  lemma EmptyRingFree()
    ensures DropFreeRing(EmptyWindow())
  {
    EmptyRing();
  }

  lemma StepKeepsRings(s: State, ev: Gateway.Event)
    requires Shaped(s) && AllRings(s.ctxs) && Possible(s, ev)
    ensures AllRings(Gateway.Step(s, ev).ctxs)
  {
    hide DropFreeRing, LanWriteDone, TickedFrom, ForwardedCtxs;
    match ev
    case LanWrite(pkt, env) =>
      LanWriteFactors(s, pkt, env);
      ForwardKeepsRings(s.ctxs, pkt, env.sendTime);
    case AckMsg(qpn, psn) =>
      if FindCtx(s.ctxs, qpn, 0).Some? {
        StepKeepsRing(s.ctxs[FindCtx(s.ctxs, qpn, 0).value].window, GotAck(psn));
      }
    case NackMsg(qpn, psn, clock, _) =>
      if FindCtx(s.ctxs, qpn, 0).Some? {
        StepKeepsRing(s.ctxs[FindCtx(s.ctxs, qpn, 0).value].window, GotNack(psn, clock));
      }
    case TimerTick(now, timeout, accepted) => TickKeepsRings(s, 0, now, timeout, accepted);
    case NicDone(_) =>
  }

  lemma {:induction false} RunKeepsRings(cc: Control, evs: seq<Gateway.Event>)
    requires Gateway.Run(cc, evs).Some?
    ensures AllRings(Gateway.Run(cc, evs).value.ctxs)
    decreases |evs|
  {
    hide AllRings, Gateway.Step, DropFreeRing;
    if evs == [] {
      BootRings(cc);
    } else {
      RunKeepsRings(cc, evs[..|evs| - 1]);
      StepKeepsRings(Gateway.Run(cc, evs[..|evs| - 1]).value, evs[|evs| - 1]);
    }
  }

  lemma BootRings(cc: Control)
    ensures AllRings(Booted(cc).ctxs)
  {
    EmptyRingFree();
  }

  lemma {:induction false} UsageBounded(ctxs: seq<Ctx>)
    requires forall k :: 0 <= k < |ctxs| ==> ctxs[k].window.base <= ctxs[k].window.next <= ctxs[k].window.base + WINDOW_SIZE
    ensures Usage(ctxs) <= |ctxs| * WINDOW_SIZE
  {
    if ctxs != [] {
      UsageBounded(ctxs[..|ctxs| - 1]);
    }
  }

  lemma WindowsBounded(ctxs: seq<Ctx>)
    requires AllRings(ctxs)
    requires forall k :: 0 <= k < |ctxs| ==> ctxs[k].window.totalTimeout == 0
    ensures forall k :: 0 <= k < |ctxs| ==> ctxs[k].window.base <= ctxs[k].window.next <= ctxs[k].window.base + WINDOW_SIZE
  {
    forall k | 0 <= k < |ctxs| ensures ctxs[k].window.base <= ctxs[k].window.next <= ctxs[k].window.base + WINDOW_SIZE {
      assert DropFreeRing(ctxs[k].window);
    }
  }

  /** On every run in which no window has dropped a packet the 32-bit usage arithmetic is exact
      and the percentage compared with the watermarks is at most 100. */
  lemma UsagePercentExact(cc: Control, evs: seq<Gateway.Event>)
    requires Gateway.Run(cc, evs).Some?
    requires forall k :: 0 <= k < MAX_QP_CTX ==> Gateway.Run(cc, evs).value.ctxs[k].window.totalTimeout == 0
    ensures var usage := Usage(Gateway.Run(cc, evs).value.ctxs);
            && usage <= 1024 * 256 == TOTAL_BUFFERS
            && Percent(usage % 0x1_0000_0000, TOTAL_BUFFERS) == usage * 100 / TOTAL_BUFFERS <= 100
  {
    hide Gateway.Run, AllRings, Percent, Usage;
    var ctxs := Gateway.Run(cc, evs).value.ctxs;
    RunKeepsRings(cc, evs);
    WindowsBounded(ctxs);
    UsageBounded(ctxs);
    PercentExact(Usage(ctxs), TOTAL_BUFFERS);
  }

  // ----- what usage counts -----

  ghost function InFlight(w: Window): set<nat> {
    set t: nat | t < |w.slots| && w.slots[t].inFlight
  }

  ghost function Image(base: nat, next: nat): set<nat> {
    set t: nat | t < WINDOW_SIZE && Covers(base, next, t)
  }

  lemma {:induction false} ImageSize(base: nat, next: nat)
    requires base <= next <= base + WINDOW_SIZE
    ensures |Image(base, next)| == next - base
    decreases next
  {
    if next > base {
      ImageSize(base, next - 1);
      NextNotCovered(base, next - 1);
      forall t | 0 <= t < WINDOW_SIZE ensures Covers(base, next, t) <==> t == Slot(next - 1) || Covers(base, next - 1, t) {
        CoversPush(base, next - 1, t);
      }
      hide Covers;
      assert Image(base, next) == Image(base, next - 1) + {Slot(next - 1)};
    } else {
      assert Image(base, next) == {};
    }
  }

  lemma RingInFlight(w: Window)
    requires Ring(w)
    ensures |InFlight(w)| == w.next - w.base
  {
    hide Covers;
    ImageSize(w.base, w.next);
    assert InFlight(w) == Image(w.base, w.next);
  }

  /** Packets in flight in all contexts that carry a number. */
  ghost function TotalInFlight(ctxs: seq<Ctx>): nat {
    if ctxs == [] then 0
    else TotalInFlight(ctxs[..|ctxs| - 1]) + if ctxs[|ctxs| - 1].qpn == 0 then 0 else |InFlight(ctxs[|ctxs| - 1].window)|
  }

  lemma {:induction false} UsageIsInFlight(ctxs: seq<Ctx>)
    requires forall k :: 0 <= k < |ctxs| ==> ctxs[k].window.base <= ctxs[k].window.next
    requires forall k :: 0 <= k < |ctxs| ==> Ring(ctxs[k].window)
    ensures Usage(ctxs) == TotalInFlight(ctxs)
  {
    if ctxs != [] {
      UsageIsInFlight(ctxs[..|ctxs| - 1]);
      RingInFlight(ctxs[|ctxs| - 1].window);
      hide InFlight, Covers;
    }
  }

  /** In every run without drops usage is the number of packets in flight in the contexts in use. */
  lemma UsageCountsInFlight(cc: Control, evs: seq<Gateway.Event>)
    requires Gateway.Run(cc, evs).Some?
    requires forall k :: 0 <= k < MAX_QP_CTX ==> Gateway.Run(cc, evs).value.ctxs[k].window.totalTimeout == 0
    ensures Usage(Gateway.Run(cc, evs).value.ctxs) == TotalInFlight(Gateway.Run(cc, evs).value.ctxs)
  {
    hide Gateway.Run, Usage, TotalInFlight, Ring;
    var ctxs := Gateway.Run(cc, evs).value.ctxs;
    RunKeepsRings(cc, evs);
    forall k | 0 <= k < |ctxs| ensures Ring(ctxs[k].window) {
      assert DropFreeRing(ctxs[k].window);
    }
    UsageIsInFlight(ctxs);
  }

  // ----- the congestion flag over a run -----

  /** The reading an event takes, if it takes one: the percentage of all window places in use once
      every fifth WRITE has been forwarded. */
  ghost function ReadingOf(s: State, ev: Gateway.Event): seq<u32>
    requires Shaped(s)
  {
    if ev.LanWrite? && QpSlot(s.qps, ev.pkt.qpn).Some? && (s.packetCounter + 1) % 0x1_0000_0000 % CONGESTION_CHECK_INTERVAL == 0
    then [Percent(Usage(ForwardedCtxs(s.ctxs, ev.pkt, ev.env.sendTime)) % 0x1_0000_0000, TOTAL_BUFFERS)]
    else []
  }

  /** All readings of a run, in order. */
  ghost function Readings(cc: Control, evs: seq<Gateway.Event>): seq<u32>
    requires Gateway.Run(cc, evs).Some?
    decreases |evs|
  {
    if evs == [] then []
    else
      var before := evs[..|evs| - 1];
      Readings(cc, before) + ReadingOf(Gateway.Run(cc, before).value, evs[|evs| - 1])
  }

  ghost predicate SameFlag(a: Control, b: Control) {
    a.detected == b.detected && a.highWaterMark == b.highWaterMark && a.lowWaterMark == b.lowWaterMark
  }

  lemma {:induction false} SweepKeepsFlag(s: State, i: nat, now: u64, built: nat -> bool, taken: nat -> bool)
    ensures SameFlag(EmittedFrom(s, i, now, built, taken).cc, s.cc)
    decreases |s.qps| - i
  {
    if i < |s.qps| {
      SweepKeepsFlag(if s.qps[i].active then Emitted(s, i, now, built(i), taken(i)) else s, i + 1, now, built, taken);
    }
  }

  lemma CountedFlag(s: State, env: Env)
    requires Shaped(s)
    ensures var checks := (s.packetCounter + 1) % 0x1_0000_0000 % CONGESTION_CHECK_INTERVAL == 0;
            SameFlag(Counted(s, env).cc,
                     if checks then Checked(s.cc, Usage(s.ctxs) % 0x1_0000_0000, TOTAL_BUFFERS) else s.cc)
  {
    hide EmittedFrom, Checked;
    var s5 := s.(packetCounter := (s.packetCounter + 1) % 0x1_0000_0000);
    SweepKeepsFlag(s5.(cc := Checked(s5.cc, Usage(s5.ctxs) % 0x1_0000_0000, TOTAL_BUFFERS)), 0, env.sweepTime, env.built, env.taken);
  }

  lemma NotedFlag(s: State, k: nat, pkt: Packet, env: Env)
    requires k < |s.qps|
    ensures SameFlag(FlowNoted(s, k, pkt, env).cc, s.cc)
    ensures FlowNoted(s, k, pkt, env).packetCounter == s.packetCounter
  {
  }

  /** A WRITE moves the flag by the reading it takes, and by nothing else. */
  lemma LanWriteFlag(s: State, pkt: Packet, env: Env)
    requires Shaped(s)
    ensures var reading := ReadingOf(s, LanWrite(pkt, env));
            SameFlag(LanWriteDone(s, pkt, env).cc,
                     if reading == [] then s.cc
                     else s.cc.(detected := Detect(s.cc.detected, s.cc.highWaterMark, s.cc.lowWaterMark, reading[0])))
  {
    hide FlowNoted, Counted, ForwardedCtxs, ForwardOp, QpSlot, WithQp, Percent, Usage, Detect;
    var slot := QpSlot(s.qps, pkt.qpn);
    if slot.Some? {
      var s1 := Admitted(s, pkt);
      var s2 := FlowNoted(s1, slot.value, pkt, env);
      NotedFlag(s1, slot.value, pkt, env);
      CountedFlag(Forwarded(s2, pkt, env.sendTime, env.txAccepted), env);
    }
  }

  /** Over every run the congestion flag is what the readings taken make of it. */
  lemma {:induction false} FlagFollowsReadings(cc: Control, evs: seq<Gateway.Event>)
    requires !cc.detected && Gateway.Run(cc, evs).Some?
    ensures var now := Gateway.Run(cc, evs).value.cc;
            && now.highWaterMark == cc.highWaterMark && now.lowWaterMark == cc.lowWaterMark
            && now.detected == FlagAfter(cc.highWaterMark, cc.lowWaterMark, Readings(cc, evs))
    decreases |evs|
  {
    hide ReadingOf, LanWriteDone, AckDone, NackDone, TickedFrom, Detect;
    if evs != [] {
      var before, ev := evs[..|evs| - 1], evs[|evs| - 1];
      var s := Gateway.Run(cc, before).value;
      FlagFollowsReadings(cc, before);
      assert |ReadingOf(s, ev)| <= 1 && (!ev.LanWrite? ==> ReadingOf(s, ev) == []) by { OneReading(s, ev); }
      if ev.LanWrite? {
        LanWriteFlag(s, ev.pkt, ev.env);
      }
      if ReadingOf(s, ev) == [] {
        assert Readings(cc, evs) == Readings(cc, before);
      } else {
        assert Readings(cc, evs) == Readings(cc, before) + [ReadingOf(s, ev)[0]];
        assert Readings(cc, evs)[..|Readings(cc, before)|] == Readings(cc, before);
      }
    }
  }

  lemma OneReading(s: State, ev: Gateway.Event)
    requires Shaped(s)
    ensures |ReadingOf(s, ev)| <= 1 && (!ev.LanWrite? ==> ReadingOf(s, ev) == [])
  {
  }

  /** So with low < high, after every run, the flag is set if and only if some reading has been at or
      above the high mark and all later ones above the low mark. */
  lemma RunHysteresis(cc: Control, evs: seq<Gateway.Event>)
    requires !cc.detected && cc.lowWaterMark < cc.highWaterMark && Gateway.Run(cc, evs).Some?
    ensures Gateway.Run(cc, evs).value.cc.detected
       <==> var readings := Readings(cc, evs);
            exists i :: 0 <= i < |readings| && readings[i] >= cc.highWaterMark && forall j :: i < j < |readings| ==> readings[j] > cc.lowWaterMark
  {
    hide Gateway.Run, Readings;
    FlagFollowsReadings(cc, evs);
    Hysteresis(cc.highWaterMark, cc.lowWaterMark, Readings(cc, evs));
  }
}
