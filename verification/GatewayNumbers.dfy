/** The PSNs in the windows of a gateway, over whole runs: when the WRITEs of a queue pair are numbered
    one after the other, its window stays consecutive, which is what the exact effects of
    acknowledgements and negative acknowledgements rest on. */
module GatewayNumbers {
  import opened SerialNumbers
  import opened Buffers
  import opened ArqWindow
  import opened ArqAcks
  import opened ArqNacks
  import opened Congestion
  import opened Gateway
  import opened GatewaySteps
  import opened GatewayUsage

  /** The last 256 entries carry the PSNs that follow `start`, entry `i` the one `i` places after it. */
  ghost predicate Follows(w: Window, start: u32) {
    && |w.slots| == WINDOW_SIZE && w.base <= w.next
    && forall i: nat {:trigger Slot(i)} :: w.base <= i < w.next <= i + WINDOW_SIZE ==> Masked24(w.slots[Slot(i)].psn) == Advance(start, i)
  }

  lemma FollowsIsConsecutive(w: Window, start: u32)
    requires Follows(w, start) && w.next <= w.base + WINDOW_SIZE
    ensures Consecutive(w, Advance(start, w.base))
  {
    hide Advance;
    forall i: nat {:trigger Slot(i)} | w.base <= i < w.next
      ensures Masked24(w.slots[Slot(i)].psn) == Advance(Advance(start, w.base), i - w.base)
    {
      AdvanceTwice(start, w.base, i - w.base);
    }
  }

  // ----- one window -----

  /** PSNs stay where they are; entries only leave. */
  ghost predicate SamePsns(w: Window, w': Window) {
    && |w.slots| == |w'.slots| && w.base <= w'.base <= w'.next == w.next
    && forall t :: 0 <= t < |w.slots| ==> w'.slots[t].psn == w.slots[t].psn
  }

  lemma SamePsnsFollow(w: Window, w': Window, start: u32)
    requires Follows(w, start) && SamePsns(w, w')
    ensures Follows(w', start)
  {
    hide Advance;
    forall i: nat {:trigger Slot(i)} | w'.base <= i < w'.next <= i + WINDOW_SIZE
      ensures Masked24(w'.slots[Slot(i)].psn) == Advance(start, i)
    {
      assert Masked24(w.slots[Slot(i)].psn) == Advance(start, i);
    }
  }

  lemma {:induction false} AckedSamePsns(w: Window, ack: u32)
    requires |w.slots| == WINDOW_SIZE && w.base <= w.next
    ensures SamePsns(w, Acked(w, ack))
    decreases w.next - w.base
  {
    if BaseAcked(w, ack) {
      AckedSamePsns(PopBase(w), ack);
    }
  }

  lemma NackedSamePsns(w: Window, nack: u32, clock: nat -> u64)
    requires |w.slots| == WINDOW_SIZE && w.base <= w.next
    ensures SamePsns(w, Nacked(w, nack, clock))
  {
    TouchAllKeeps(w, Selected(w, nack), clock);
  }

  lemma {:induction false} SweptSamePsns(w: Window, i: nat, now: u64, timeout: u64)
    requires |w.slots| == WINDOW_SIZE && w.base <= w.next
    ensures SamePsns(w, SweptFrom(w, i, now, timeout))
    decreases w.next - i
  {
    if i < w.next {
      SweptSamePsns(Expire(w, i, now, timeout), i + 1, now, timeout);
    }
  }

  lemma TakenInFollows(w: Window, w': Window, pkt: Packet, now: u64, start: u32)
    requires Follows(w, start) && |w'.slots| == WINDOW_SIZE && TakenIn(w, w', pkt, now)
    requires Masked24(pkt.psn) == Advance(start, w.next)
    ensures Follows(w', start)
  {
    hide Advance;
    forall i: nat {:trigger Slot(i)} | w'.base <= i < w'.next <= i + WINDOW_SIZE
      ensures Masked24(w'.slots[Slot(i)].psn) == Advance(start, i)
    {
      if i < w.next {
        SlotsApart(i, w.next);
        assert Masked24(w.slots[Slot(i)].psn) == Advance(start, i);
      }
    }
  }

  lemma NothingFollows(start: u32)
    ensures Follows(EmptyWindow(), start)
  {
  }

  // ----- the gateway -----

  ghost predicate AllFollow(ctxs: seq<Ctx>, qpn: u32, start: u32) {
    forall k :: 0 <= k < |ctxs| && ctxs[k].qpn == qpn ==> Follows(ctxs[k].window, start)
  }

  /** If this is a WRITE of the queue pair that its window takes in, it carries the next PSN. */
  ghost predicate NumberedNext(s: State, ev: Event, qpn: u32, start: u32)
    requires Shaped(s)
  {
    ev.LanWrite? && ev.pkt.qpn == qpn && QpSlot(s.qps, qpn).Some? && CtxSlot(s.ctxs, qpn).Some? ==>
      var w := WindowMet(s.ctxs, qpn, CtxSlot(s.ctxs, qpn).value);
      |w.slots| == WINDOW_SIZE && (!w.slots[w.next % WINDOW_SIZE].inFlight ==> Masked24(ev.pkt.psn) == Advance(start, w.next))
  }

  /** Every WRITE of the queue pair that its window has taken in over the run carried the next PSN. */
  ghost predicate Numbered(cc: Control, evs: seq<Event>, qpn: u32, start: u32)
    requires Run(cc, evs).Some?
    decreases |evs|
  {
    evs == []
    || (Numbered(cc, evs[..|evs| - 1], qpn, start) && NumberedNext(Run(cc, evs[..|evs| - 1]).value, evs[|evs| - 1], qpn, start))
  }

  lemma WriteFollows(s: State, pkt: Packet, env: Env, qpn: u32, start: u32)
    requires Shaped(s) && AllFollow(s.ctxs, qpn, start) && qpn != 0 && pkt.m !in s.pool.refs
    requires NumberedNext(s, LanWrite(pkt, env), qpn, start)
    ensures AllFollow(Step(s, LanWrite(pkt, env)).ctxs, qpn, start)
  {
    hide Step, Follows, TakenIn, SentAlong, Advance, EmptyWindow, QpSlot;
    var slot := CtxSlot(s.ctxs, pkt.qpn);
    if QpSlot(s.qps, pkt.qpn).None? || slot.None? {
      LanWriteUntracked(s, pkt, env);
    } else {
      var k := slot.value;
      LanWriteStores(s, pkt, env, k);
      var w := WindowMet(s.ctxs, pkt.qpn, k);
      if pkt.qpn == qpn {
        NothingFollows(start);
        if !w.slots[w.next % WINDOW_SIZE].inFlight {
          TakenInFollows(w, Step(s, LanWrite(pkt, env)).ctxs[k].window, pkt, env.sendTime, start);
        }
      }
    }
  }

  lemma StepFollows(s: State, ev: Event, qpn: u32, start: u32)
    requires Shaped(s) && Possible(s, ev) && AllFollow(s.ctxs, qpn, start) && qpn != 0
    requires NumberedNext(s, ev, qpn, start)
    ensures AllFollow(Step(s, ev).ctxs, qpn, start)
  {
    match ev
    case LanWrite(pkt, env) => WriteFollows(s, pkt, env, qpn, start);
    case AckMsg(q, psn) =>
      hide Acked, AckOps, ApplyAll, Follows;
      var slot := FindCtx(s.ctxs, q, 0);
      if slot.Some? && q == qpn {
        var w := s.ctxs[slot.value].window;
        AckedSamePsns(w, psn);
        SamePsnsFollow(w, Acked(w, psn), start);
      }
    case NackMsg(q, psn, clock, accepts) =>
      hide Nacked, NackOps, ApplyAll, Follows;
      var slot := FindCtx(s.ctxs, q, 0);
      if slot.Some? && q == qpn {
        var w := s.ctxs[slot.value].window;
        NackedSamePsns(w, psn, clock);
        SamePsnsFollow(w, Nacked(w, psn, clock), start);
      }
    case TimerTick(now, timeout, accepted) => TickFollows(s, now, timeout, accepted, qpn, start);
    case NicDone(_) =>
  }

  lemma TickFollows(s: State, now: nat -> u64, timeout: u64, accepted: (nat, nat) -> bool, qpn: u32, start: u32)
    requires Shaped(s) && AllFollow(s.ctxs, qpn, start)
    ensures AllFollow(TickedFrom(s, 0, now, timeout, accepted).ctxs, qpn, start)
  {
    hide TickedFrom, Follows;
    var s' := TickedFrom(s, 0, now, timeout, accepted);
    forall k | 0 <= k < |s'.ctxs| && s'.ctxs[k].qpn == qpn ensures Follows(s'.ctxs[k].window, start) {
      TickedContext(s, 0, now, timeout, accepted, k);
      var w := s.ctxs[k].window;
      SweptSamePsns(w, w.base, now(k), timeout);
      SamePsnsFollow(w, Swept(w, now(k), timeout), start);
    }
  }

  lemma {:induction false} RunFollows(cc: Control, evs: seq<Event>, qpn: u32, start: u32)
    requires Run(cc, evs).Some? && qpn != 0 && Numbered(cc, evs, qpn, start)
    ensures AllFollow(Run(cc, evs).value.ctxs, qpn, start)
    decreases |evs|
  {
    hide Step, NumberedNext;
    if evs != [] {
      RunFollows(cc, evs[..|evs| - 1], qpn, start);
      StepFollows(Run(cc, evs[..|evs| - 1]).value, evs[|evs| - 1], qpn, start);
    }
  }

  /** Over every run: while a queue pair's WRITEs are numbered one after the other and its window has
      dropped nothing, the window is consecutive from the PSN of its base on. */
  lemma WindowConsecutive(cc: Control, evs: seq<Event>, qpn: u32, start: u32, k: nat)
    requires Run(cc, evs).Some? && qpn != 0 && Numbered(cc, evs, qpn, start)
    requires k < MAX_QP_CTX && Run(cc, evs).value.ctxs[k].qpn == qpn && Run(cc, evs).value.ctxs[k].window.totalTimeout == 0
    ensures var w := Run(cc, evs).value.ctxs[k].window; Consecutive(w, Advance(start, w.base))
  {
    hide Run, Numbered, Follows, Advance, Consecutive;
    var s := Run(cc, evs).value;
    RunFollows(cc, evs, qpn, start);
    RunKeepsRings(cc, evs);
    assert DropFreeRing(s.ctxs[k].window);
    FollowsIsConsecutive(s.ctxs[k].window, start);
  }

  /** So the ACK of its entry `i` takes out of the window exactly the entries up to `i`. */
  lemma RunAckExactly(cc: Control, evs: seq<Event>, qpn: u32, start: u32, k: nat, i: nat, j: nat)
    requires Run(cc, evs).Some? && qpn != 0 && Numbered(cc, evs, qpn, start)
    requires FindCtx(Run(cc, evs).value.ctxs, qpn, 0) == Some(k) && Run(cc, evs).value.ctxs[k].window.totalTimeout == 0
    requires var w := Run(cc, evs).value.ctxs[k].window; w.base <= i < w.next && w.base <= j < w.next
    ensures var s' := Step(Run(cc, evs).value, AckMsg(qpn, Advance(start, i)));
            j < s'.ctxs[k].window.base <==> j <= i
  {
    hide Run, Numbered, Step;
    var s := Run(cc, evs).value;
    var w := s.ctxs[k].window;
    WindowConsecutive(cc, evs, qpn, start, k);
    assert i - w.base < WINDOW_SIZE by { Bounds(w, Advance(start, w.base)); }
    hide Consecutive, Advance;
    AdvanceTwice(start, w.base, i - w.base);
    DistToAdvanced(Advance(start, w.base), i - w.base);
    AckStepExactly(s, qpn, Advance(start, i), k, Advance(start, w.base), j);
  }
}
