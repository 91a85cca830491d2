/** Conservation of packet references over whole runs of a gateway. */
module GatewayOwnership {
  import opened SerialNumbers
  import opened Buffers
  import opened ArqWindow
  import opened Ownership
  import opened Congestion
  import opened Gateway

  /** How many slots of all windows together hold `m`. */
  function TotalHeld(ctxs: seq<Ctx>, m: Mbuf): nat {
    if ctxs == [] then 0 else TotalHeld(ctxs[..|ctxs| - 1], m) + HeldCount(ctxs[|ctxs| - 1].window.slots, m)
  }

  /** The books: every window is sound, the reference count of every buffer is the number of
      slots that hold it plus the number of its transmissions the card has not completed, and
      no buffer was ever used or freed while dead. */
  ghost predicate Conserved(s: State) {
    && Shaped(s)
    && (forall k :: 0 <= k < MAX_QP_CTX ==> Sound(s.ctxs[k].window))
    && s.pool.faults == 0
    && forall m :: s.pool.refs[m] == TotalHeld(s.ctxs, m) + s.pool.pending[m]
  }

  /** A free context holds nothing. */
  ghost predicate FreeIsEmpty(ctxs: seq<Ctx>) {
    forall k :: 0 <= k < |ctxs| && ctxs[k].qpn == 0 ==> ctxs[k].window == EmptyWindow()
  }

  lemma {:induction false} TotalUpdate(ctxs: seq<Ctx>, k: nat, c: Ctx, m: Mbuf)
    requires k < |ctxs|
    ensures TotalHeld(ctxs[k := c], m) + HeldCount(ctxs[k].window.slots, m) == TotalHeld(ctxs, m) + HeldCount(c.window.slots, m)
    ensures HeldCount(ctxs[k].window.slots, m) <= TotalHeld(ctxs, m)
  {
    hide HeldCount;
    var n := |ctxs| - 1;
    if k == n {
      assert ctxs[k := c][..n] == ctxs[..n];
    } else {
      assert ctxs[k := c][..n] == ctxs[..n][k := c];
      TotalUpdate(ctxs[..n], k, c, m);
    }
  }

  lemma WindowBacked(s: State, k: nat)
    requires Conserved(s) && k < MAX_QP_CTX
    ensures Backed(s.ctxs[k].window.slots, s.pool)
  {
    forall m ensures HeldCount(s.ctxs[k].window.slots, m) <= s.pool.refs[m] {
      TotalUpdate(s.ctxs, k, s.ctxs[k], m);
    }
  }

  /** A balanced operation on one window keeps the books of the gateway. */
  lemma LocalToGlobal(s: State, k: nat, w': Window, p': Pool)
    requires Conserved(s) && k < MAX_QP_CTX
    requires Sound(w') && Balanced(s.ctxs[k].window.slots, s.pool, w'.slots, p')
    ensures Conserved(s.(ctxs := s.ctxs[k := s.ctxs[k].(window := w')], pool := p'))
  {
    hide HeldCount, TotalHeld, Sound;
    var c' := s.ctxs[k].(window := w');
    var s' := s.(ctxs := s.ctxs[k := c'], pool := p');
    assert Shaped(s') by { SoundShape(w'); }
    forall m ensures s'.pool.refs[m] == TotalHeld(s'.ctxs, m) + s'.pool.pending[m] {
      assert BalancedFor(s.ctxs[k].window.slots, s.pool, w'.slots, p', m);
      TotalUpdate(s.ctxs, k, c', m);
    }
  }

  lemma SoundShape(w: Window)
    requires Sound(w)
    ensures |w.slots| == WINDOW_SIZE && w.base <= w.next
  {
  }

  // ----- the steps -----

  lemma AckConserves(s: State, qpn: u32, psn: u32)
    requires Conserved(s)
    ensures Conserved(AckDone(s, qpn, psn))
  {
    hide Sound, Balanced, Backed;
    var slot := FindCtx(s.ctxs, qpn, 0);
    if slot.Some? {
      var w := s.ctxs[slot.value].window;
      WindowBacked(s, slot.value);
      AckedSound(w, psn);
      AckBalanced(w, psn, s.pool);
      LocalToGlobal(s, slot.value, Acked(w, psn), ApplyAll(s.pool, AckOps(w, psn)));
    }
  }

  lemma NackConserves(s: State, qpn: u32, psn: u32, clock: nat -> u64, accepts: nat -> bool)
    requires Conserved(s)
    ensures Conserved(NackDone(s, qpn, psn, clock, accepts))
  {
    hide Sound, Balanced, Backed;
    var slot := FindCtx(s.ctxs, qpn, 0);
    if slot.Some? {
      var w := s.ctxs[slot.value].window;
      WindowBacked(s, slot.value);
      TouchAllSound(w, Selected(w, psn), clock);
      NackBalanced(w, psn, clock, accepts, s.pool);
      LocalToGlobal(s, slot.value, Nacked(w, psn, clock), ApplyAll(s.pool, NackOps(w, psn, accepts)));
    }
  }

  lemma CtxSweepConserves(s: State, k: nat, now: u64, timeout: u64, accepts: nat -> bool)
    requires Conserved(s) && k < MAX_QP_CTX
    ensures Conserved(CtxSwept(s, k, now, timeout, accepts))
  {
    hide Sound, Balanced, Backed;
    var w := s.ctxs[k].window;
    WindowBacked(s, k);
    SweptSound(w, w.base, now, timeout);
    SweepBalanced(w, w.base, now, timeout, accepts, s.pool);
    LocalToGlobal(s, k, Swept(w, now, timeout), ApplyAll(s.pool, SweepOps(w, now, timeout, accepts)));
  }

  lemma {:induction false} TickConserves(s: State, k: nat, now: nat -> u64, timeout: u64, accepted: (nat, nat) -> bool)
    requires Conserved(s)
    ensures Conserved(TickedFrom(s, k, now, timeout, accepted))
    decreases MAX_QP_CTX - k
  {
    if k < MAX_QP_CTX {
      CtxSweepConserves(s, k, now(k), timeout, (i: nat) => accepted(k, i));
      TickConserves(CtxSwept(s, k, now(k), timeout, (i: nat) => accepted(k, i)), k + 1, now, timeout, accepted);
    }
  }

  /** A completed transmission gives back the reference the card held. */
  lemma CompletionConserves(s: State, m: Mbuf)
    requires Conserved(s) && m in s.pool.pending
    ensures Conserved(s.(pool := Complete(s.pool, m)))
  {
    hide TotalHeld;
    assert s.pool.refs[m] == TotalHeld(s.ctxs, m) + s.pool.pending[m];
  }

  /** Buffers count only through the contexts and the pool. */
  lemma SameBooks(s: State, s': State)
    requires Conserved(s) && Shaped(s')
    requires s'.ctxs == s.ctxs && s'.pool == s.pool
    ensures Conserved(s')
  {
  }

  // While a received packet is being handled the LAN path itself holds one reference.

  ghost predicate ConservedBut(s: State, x: Mbuf) {
    && Shaped(s)
    && (forall k :: 0 <= k < MAX_QP_CTX ==> Sound(s.ctxs[k].window))
    && s.pool.faults == 0
    && s.pool.refs[x] == 1 && s.pool.pending[x] == 0 && TotalHeld(s.ctxs, x) == 0
    && forall m :: m != x ==> s.pool.refs[m] == TotalHeld(s.ctxs, m) + s.pool.pending[m]
  }

  lemma ReceiveOwns(s: State, x: Mbuf)
    requires Conserved(s) && x !in s.pool.refs
    ensures ConservedBut(s.(pool := Receive(s.pool, x)), x)
  {
    hide TotalHeld, Sound;
    assert s.pool.refs[x] == TotalHeld(s.ctxs, x) + s.pool.pending[x];
  }

  lemma ReleaseDisowns(s: State, x: Mbuf)
    requires ConservedBut(s, x)
    ensures Conserved(s.(pool := Apply(s.pool, Release(x))))
  {
    hide TotalHeld, Sound;
  }

  lemma HandOverDisowns(s: State, x: Mbuf, accepted: bool)
    requires ConservedBut(s, x)
    ensures Conserved(s.(pool := Apply(s.pool, HandOver(x, accepted))))
  {
    hide TotalHeld, Sound;
  }

  /** A packet that enters the window is held once more, and nothing else changes hands. */
  lemma SentHolds(w: Window, x: Mbuf, psn: u32, segmentType: u8, now: u64, m: Mbuf)
    requires Sound(w) && !Full(w)
    ensures HeldCount(Sent(w, x, psn, segmentType, now).slots, m) == HeldCount(w.slots, m) + if m == x then 1 else 0
  {
    var w' := Sent(w, x, psn, segmentType, now);
    HeldUpdate(w.slots, Slot(w.next), w'.slots[Slot(w.next)], m);
  }

  /** The window takes over the reference of the LAN path and the card gets one of its own. */
  lemma SendConserves(s: State, k: nat, x: Mbuf, psn: u32, segmentType: u8, now: u64, accepted: bool)
    requires ConservedBut(s, x) && k < MAX_QP_CTX && !Full(s.ctxs[k].window)
    ensures Conserved(s.(ctxs := s.ctxs[k := s.ctxs[k].(window := Sent(s.ctxs[k].window, x, psn, segmentType, now))],
                         pool := Apply(s.pool, Transmit(x, accepted))))
  {
    hide TotalHeld, Sound, HeldCount, Sent;
    var w := s.ctxs[k].window;
    var w' := Sent(w, x, psn, segmentType, now);
    var c' := s.ctxs[k].(window := w');
    var s' := s.(ctxs := s.ctxs[k := c'], pool := Apply(s.pool, Transmit(x, accepted)));
    SentSound(w, x, psn, segmentType, now);
    SoundShape(w');
    forall m ensures s'.pool.refs[m] == TotalHeld(s'.ctxs, m) + s'.pool.pending[m] {
      SentHolds(w, x, psn, segmentType, now, m);
      TotalUpdate(s.ctxs, k, c', m);
    }
  }

  /** The context about to be taken into use holds no packet. */
  ghost predicate RecycledHoldsNothing(ctxs: seq<Ctx>, qpn: u32) {
    CtxIsNew(ctxs, qpn) ==> forall m :: HeldCount(ctxs[FindCtx(ctxs, 0, 0).value].window.slots, m) == 0
  }

  lemma EmptyHoldsNothing(m: Mbuf)
    ensures HeldCount(EmptyWindow().slots, m) == 0
  {
    NothingHeld(EmptyWindow().slots, m);
  }

  lemma RecycledAccount(ctxs: seq<Ctx>, qpn: u32, m: Mbuf)
    ensures TotalHeld(WithCtx(ctxs, qpn), m)
         == TotalHeld(ctxs, m) - if CtxIsNew(ctxs, qpn) then HeldCount(ctxs[FindCtx(ctxs, 0, 0).value].window.slots, m) else 0
  {
    if CtxIsNew(ctxs, qpn) {
      var k := FindCtx(ctxs, 0, 0).value;
      TotalUpdate(ctxs, k, Ctx(qpn, EmptyWindow()), m);
      EmptyHoldsNothing(m);
    }
  }

  /** Zeroing a context keeps the books exactly when the context held nothing. */
  lemma WithCtxConservesIff(s: State, qpn: u32, x: Mbuf)
    requires ConservedBut(s, x)
    ensures ConservedBut(s.(ctxs := WithCtx(s.ctxs, qpn)), x) <==> RecycledHoldsNothing(s.ctxs, qpn)
  {
    hide TotalHeld, HeldCount, Sound;
    var s' := s.(ctxs := WithCtx(s.ctxs, qpn));
    assert Shaped(s');
    EmptyIsSound();
    forall m ensures TotalHeld(s'.ctxs, m) == TotalHeld(s.ctxs, m)
                 <==> (CtxIsNew(s.ctxs, qpn) ==> HeldCount(s.ctxs[FindCtx(s.ctxs, 0, 0).value].window.slots, m) == 0) {
      RecycledAccount(s.ctxs, qpn, m);
    }
    RecycledAccount(s.ctxs, qpn, x);
    if ConservedBut(s', x) && CtxIsNew(s.ctxs, qpn) {
      forall m ensures HeldCount(s.ctxs[FindCtx(s.ctxs, 0, 0).value].window.slots, m) == 0 {
        if m != x {
          assert s'.pool.refs[m] == TotalHeld(s'.ctxs, m) + s'.pool.pending[m];
          assert s.pool.refs[m] == TotalHeld(s.ctxs, m) + s.pool.pending[m];
        }
      }
    }
  }

  /** Forwarding one packet moves no other buffer. */
  lemma ForwardedLeavesOthers(s: State, pkt: Packet, now: u64, accepted: bool, m: Mbuf)
    requires ConservedBut(s, pkt.m) && m != pkt.m
    ensures var s' := Forwarded(s, pkt, now, accepted);
            && s'.pool.refs[m] == s.pool.refs[m] && s'.pool.pending[m] == s.pool.pending[m]
            && TotalHeld(s'.ctxs, m) == TotalHeld(WithCtx(s.ctxs, pkt.qpn), m)
  {
    hide TotalHeld, HeldCount;
    var ctxs, slot := WithCtx(s.ctxs, pkt.qpn), CtxSlot(s.ctxs, pkt.qpn);
    if slot.Some? && !Full(ctxs[slot.value].window) {
      var w := ctxs[slot.value].window;
      EmptyIsSound();
      assert Sound(w);
      var w' := Sent(w, pkt.m, pkt.psn, pkt.segmentType, now);
      SentHolds(w, pkt.m, pkt.psn, pkt.segmentType, now, m);
      TotalUpdate(ctxs, slot.value, ctxs[slot.value].(window := w'), m);
    }
  }

  /** Forwarding a received packet keeps the books exactly when the context it takes into use,
      if any, held nothing. */
  lemma ForwardedConservesIff(s: State, pkt: Packet, now: u64, accepted: bool)
    requires ConservedBut(s, pkt.m)
    ensures Conserved(Forwarded(s, pkt, now, accepted)) <==> RecycledHoldsNothing(s.ctxs, pkt.qpn)
  {
    hide Sound, HeldCount, TotalHeld;
    var s1 := s.(ctxs := WithCtx(s.ctxs, pkt.qpn));
    var slot := CtxSlot(s.ctxs, pkt.qpn);
    WithCtxConservesIff(s, pkt.qpn, pkt.m);
    if RecycledHoldsNothing(s.ctxs, pkt.qpn) {
      if slot.Some? && !Full(s1.ctxs[slot.value].window) {
        SendConserves(s1, slot.value, pkt.m, pkt.psn, pkt.segmentType, now, accepted);
      } else {
        HandOverDisowns(s1, pkt.m, accepted);
      }
    } else {
      LostPacketShows(s, pkt, now, accepted);
    }
  }

  lemma LostPacketShows(s: State, pkt: Packet, now: u64, accepted: bool)
    requires ConservedBut(s, pkt.m) && !RecycledHoldsNothing(s.ctxs, pkt.qpn)
    ensures !Conserved(Forwarded(s, pkt, now, accepted))
  {
    hide Sound, HeldCount, TotalHeld, Forwarded;
    var k := FindCtx(s.ctxs, 0, 0).value;
    var m :| HeldCount(s.ctxs[k].window.slots, m) != 0;
    TotalUpdate(s.ctxs, k, s.ctxs[k], m);
    RecycledAccount(s.ctxs, pkt.qpn, m);
    ForwardedLeavesOthers(s, pkt, now, accepted, m);
    var s' := Forwarded(s, pkt, now, accepted);
    assert s.pool.refs[m] == TotalHeld(s.ctxs, m) + s.pool.pending[m];
    assert s'.pool.refs[m] != TotalHeld(s'.ctxs, m) + s'.pool.pending[m];
  }

  // ----- free contexts stay empty as long as number 0 is not used -----

  lemma EmptyUntouched(ack: u32, nack: u32, clock: nat -> u64)
    ensures Acked(EmptyWindow(), ack) == EmptyWindow()
    ensures Nacked(EmptyWindow(), nack, clock) == EmptyWindow()
  {
    assert Selected(EmptyWindow(), nack) == [];
  }

  lemma {:induction false} TickKeepsFreeEmpty(s: State, k: nat, now: nat -> u64, timeout: u64, accepted: (nat, nat) -> bool)
    requires Shaped(s) && FreeIsEmpty(s.ctxs)
    ensures FreeIsEmpty(TickedFrom(s, k, now, timeout, accepted).ctxs)
    decreases MAX_QP_CTX - k
  {
    if k < MAX_QP_CTX {
      TickKeepsFreeEmpty(CtxSwept(s, k, now(k), timeout, (i: nat) => accepted(k, i)), k + 1, now, timeout, accepted);
    }
  }

  /** A LAN packet's queue pair number; other events use none. */
  predicate UsesNumberZero(ev: Event) {
    ev.LanWrite? && ev.pkt.qpn == 0
  }

  lemma LanKeepsFreeEmpty(ctxs: seq<Ctx>, pkt: Packet, now: u64)
    requires forall k :: 0 <= k < |ctxs| ==> |ctxs[k].window.slots| == WINDOW_SIZE && ctxs[k].window.base <= ctxs[k].window.next
    requires FreeIsEmpty(ctxs) && pkt.qpn != 0
    ensures FreeIsEmpty(ForwardedCtxs(ctxs, pkt, now))
  {
    hide Sent, Full, EmptyWindow;
  }

  lemma StepKeepsFreeEmpty(s: State, ev: Event)
    requires Shaped(s) && FreeIsEmpty(s.ctxs) && Possible(s, ev) && !UsesNumberZero(ev)
    ensures FreeIsEmpty(Step(s, ev).ctxs)
  {
    hide LanWriteDone, TickedFrom, QpSlot, ForwardedCtxs, EmptyWindow;
    match ev
    case LanWrite(pkt, env) =>
      LanWriteFactors(s, pkt, env);
      LanKeepsFreeEmpty(s.ctxs, pkt, env.sendTime);
    case AckMsg(qpn, psn) =>
      hide Acked;
      EmptyUntouched(psn, psn, (i: nat) => 0);
    case NackMsg(qpn, psn, clock, _) =>
      hide Nacked;
      EmptyUntouched(psn, psn, clock);
    case TimerTick(now, timeout, accepted) => TickKeepsFreeEmpty(s, 0, now, timeout, accepted);
    case NicDone(_) =>
  }

  lemma ConservedShape(s: State)
    requires Conserved(s)
    ensures Shaped(s)
  {
  }

  /** A LAN packet that finds a queue pair entry keeps the books exactly when the context it
      takes into use, if any, held nothing. */
  lemma LanWriteConservesIff(s: State, pkt: Packet, env: Env)
    requires Conserved(s) && pkt.m !in s.pool.refs
    ensures Conserved(LanWriteDone(s, pkt, env))
       <==> (QpSlot(s.qps, pkt.qpn).Some? ==> RecycledHoldsNothing(s.ctxs, pkt.qpn))
  {
    hide Conserved, ConservedBut, RecycledHoldsNothing, LanWriteDone, QpSlot, ForwardedCtxs, ForwardOp;
    ConservedShape(s);
    ReceiveOwns(s, pkt.m);
    LanWriteFactors(s, pkt, env);
    var s', s1 := LanWriteDone(s, pkt, env), s.(pool := Receive(s.pool, pkt.m));
    if QpSlot(s.qps, pkt.qpn).None? {
      ReleaseDisowns(s1, pkt.m);
      SameBooks(s1.(pool := Apply(s1.pool, Release(pkt.m))), s');
    } else {
      var s2 := Forwarded(s1, pkt, env.sendTime, env.txAccepted);
      ForwardedConservesIff(s1, pkt, env.sendTime, env.txAccepted);
      SameBooksIff(s2, s');
    }
  }

  /** References to `m` that go when a context is recycled for this number. */
  function Recycled(ctxs: seq<Ctx>, qpn: u32, m: Mbuf): nat {
    if CtxIsNew(ctxs, qpn) then HeldCount(ctxs[FindCtx(ctxs, 0, 0).value].window.slots, m) else 0
  }

  /** What a LAN packet leaks, exactly: the references of the context it recycles.  They stay
      counted, while no slot and no transmission holds them any more. */
  lemma LanWriteLeaksExactly(s: State, pkt: Packet, env: Env, m: Mbuf)
    requires Conserved(s) && pkt.m !in s.pool.refs && m != pkt.m && QpSlot(s.qps, pkt.qpn).Some?
    ensures var s' := LanWriteDone(s, pkt, env);
            && s'.pool.refs[m] == TotalHeld(s'.ctxs, m) + s'.pool.pending[m] + Recycled(s.ctxs, pkt.qpn, m)
            && s'.pool.refs[m] == s.pool.refs[m] && s'.pool.pending[m] == s.pool.pending[m]
  {
    hide ConservedBut, LanWriteDone, QpSlot, ForwardedCtxs, ForwardOp, TotalHeld, HeldCount;
    ConservedShape(s);
    ReceiveOwns(s, pkt.m);
    LanWriteFactors(s, pkt, env);
    var s1 := s.(pool := Receive(s.pool, pkt.m));
    ForwardedLeavesOthers(s1, pkt, env.sendTime, env.txAccepted, m);
    RecycledAccount(s.ctxs, pkt.qpn, m);
    assert s.pool.refs[m] == TotalHeld(s.ctxs, m) + s.pool.pending[m];
  }

  lemma SameBooksIff(s: State, s': State)
    requires Shaped(s) && Shaped(s')
    requires s'.ctxs == s.ctxs && s'.pool == s.pool
    ensures Conserved(s) <==> Conserved(s')
  {
  }

  lemma FreeEmptyRecyclesNothing(ctxs: seq<Ctx>, qpn: u32)
    requires FreeIsEmpty(ctxs)
    ensures RecycledHoldsNothing(ctxs, qpn)
  {
    if CtxIsNew(ctxs, qpn) {
      forall m ensures HeldCount(ctxs[FindCtx(ctxs, 0, 0).value].window.slots, m) == 0 {
        EmptyHoldsNothing(m);
      }
    }
  }

  lemma StepConserves(s: State, ev: Event)
    requires Conserved(s) && FreeIsEmpty(s.ctxs) && Possible(s, ev)
    ensures Conserved(Step(s, ev))
  {
    hide Conserved, FreeIsEmpty, RecycledHoldsNothing;
    ConservedShape(s);
    match ev
    case LanWrite(pkt, env) =>
      FreeEmptyRecyclesNothing(s.ctxs, pkt.qpn);
      LanWriteConservesIff(s, pkt, env);
    case AckMsg(qpn, psn) => AckConserves(s, qpn, psn);
    case NackMsg(qpn, psn, clock, accepts) => NackConserves(s, qpn, psn, clock, accepts);
    case TimerTick(now, timeout, accepted) => TickConserves(s, 0, now, timeout, accepted);
    case NicDone(m) => CompletionConserves(s, m);
  }

  // ----- whole runs -----

  lemma {:induction false} NoContextsHoldNothing(ctxs: seq<Ctx>, m: Mbuf)
    requires forall k :: 0 <= k < |ctxs| ==> ctxs[k].window == EmptyWindow()
    ensures TotalHeld(ctxs, m) == 0
  {
    if ctxs != [] {
      EmptyHoldsNothing(m);
      NoContextsHoldNothing(ctxs[..|ctxs| - 1], m);
    }
  }

  lemma BootConserved(cc: Control)
    ensures Conserved(Booted(cc)) && FreeIsEmpty(Booted(cc).ctxs)
  {
    var s := Booted(cc);
    EmptyIsSound();
    forall m ensures TotalHeld(s.ctxs, m) == 0 {
      NoContextsHoldNothing(s.ctxs, m);
    }
  }

  /** Over every run whose WRITE packets carry queue pair numbers other than 0, whatever is
      lost, refused, duplicated, timed out or dropped, the books balance. */
  lemma {:induction false} RunConserves(cc: Control, evs: seq<Event>)
    requires Run(cc, evs).Some?
    requires forall k :: 0 <= k < |evs| ==> !UsesNumberZero(evs[k])
    ensures Conserved(Run(cc, evs).value) && FreeIsEmpty(Run(cc, evs).value.ctxs)
    decreases |evs|
  {
    hide Conserved, FreeIsEmpty, Step;
    if evs == [] {
      BootConserved(cc);
    } else {
      var n := |evs| - 1;
      RunConserves(cc, evs[..n]);
      StepConserves(Run(cc, evs[..n]).value, evs[n]);
      StepKeepsFreeEmpty(Run(cc, evs[..n]).value, evs[n]);
    }
  }

  /** No buffer is leaked and none is freed under an owner: it is alive exactly as long as a
      window slot or an uncompleted transmission refers to it. */
  lemma AliveIffOwned(cc: Control, evs: seq<Event>, m: Mbuf)
    requires Run(cc, evs).Some?
    requires forall k :: 0 <= k < |evs| ==> !UsesNumberZero(evs[k])
    ensures var s := Run(cc, evs).value;
            && (m in s.pool.refs <==> m in s.pool.pending || exists k, j :: HeldAt(s, k, j, m))
            && s.pool.faults == 0
  {
    RunConserves(cc, evs);
    var s := Run(cc, evs).value;
    assert s.pool.refs[m] == TotalHeld(s.ctxs, m) + s.pool.pending[m];
    TotalHeldPositive(s.ctxs, m);
    if k, j :| HeldAt(s, k, j, m) {
      HeldCountPositive(s.ctxs[k].window.slots, m);
    }
    if k :| 0 <= k < MAX_QP_CTX && HeldCount(s.ctxs[k].window.slots, m) > 0 {
      HeldCountPositive(s.ctxs[k].window.slots, m);
      var j :| 0 <= j < WINDOW_SIZE && s.ctxs[k].window.slots[j].mbuf == Some(m);
      assert HeldAt(s, k, j, m);
    }
  }

  ghost predicate HeldAt(s: State, k: int, j: int, m: Mbuf) {
    && 0 <= k < |s.ctxs| && 0 <= j < |s.ctxs[k].window.slots|
    && s.ctxs[k].window.slots[j].mbuf == Some(m)
  }

  lemma {:induction false} HeldCountPositive(slots: seq<Entry>, m: Mbuf)
    ensures HeldCount(slots, m) > 0 <==> exists j :: 0 <= j < |slots| && slots[j].mbuf == Some(m)
  {
    if slots != [] {
      var n := |slots| - 1;
      HeldCountPositive(slots[..n], m);
      assert forall j :: 0 <= j < n ==> slots[..n][j] == slots[j];
    }
  }

  lemma {:induction false} TotalHeldPositive(ctxs: seq<Ctx>, m: Mbuf)
    ensures TotalHeld(ctxs, m) > 0 <==> exists k :: 0 <= k < |ctxs| && HeldCount(ctxs[k].window.slots, m) > 0
  {
    hide HeldCount;
    if ctxs != [] {
      var n := |ctxs| - 1;
      TotalHeldPositive(ctxs[..n], m);
      assert forall k :: 0 <= k < n ==> ctxs[..n][k] == ctxs[k];
    }
  }

  // ----- number 0 does leak -----

  function OnePacket(id: nat, qpn: u32): Event {
    LanWrite(Packet(Mbuf(id), qpn, 0, 0, 1, 2, false),
             Env(0, 0, 0, false, false, false, (i: nat) => false, (i: nat) => false))
  }

  /** Number 0 marks a context as free even while it holds packets: after a WRITE for queue pair 0
      and one for another queue pair the first packet still has a reference, which no slot and no
      transmission holds. */
  lemma NumberZeroLeaks(cc: Control)
    ensures var r := Run(cc, [OnePacket(0, 0), OnePacket(1, 5)]);
            && r.Some? && !Conserved(r.value)
            && r.value.pool.refs[Mbuf(0)] == 1
            && r.value.pool.pending[Mbuf(0)] == 0 && TotalHeld(r.value.ctxs, Mbuf(0)) == 0
  {
    hide Conserved, LanWriteDone, Recycled, TotalHeld;
    var a, b := OnePacket(0, 0), OnePacket(1, 5);
    var s0 := Booted(cc);
    var s1 := LanWriteDone(s0, a.pkt, a.env);
    BootConserved(cc);
    FreeEmptyRecyclesNothing(s0.ctxs, 0);
    LanWriteConservesIff(s0, a.pkt, a.env);
    FirstPacketHeld(s0, a);
    LanWriteConservesIff(s1, b.pkt, b.env);
    LanWriteLeaksExactly(s1, b.pkt, b.env, Mbuf(0));
    TwoSteps(cc, a, b);
  }

  /** What the first packet leaves behind: context 0 holds it, still marked free. */
  lemma FirstPacketHeld(s0: State, a: Event)
    requires Shaped(s0) && s0.pool == Pool(multiset{}, multiset{}, 0) && s0.packetCounter == 0
    requires forall k :: 0 <= k < MAX_QP_CTX ==> s0.ctxs[k] == Ctx(0, EmptyWindow()) && !s0.qps[k].active
    requires a == OnePacket(0, 0)
    ensures var s1 := LanWriteDone(s0, a.pkt, a.env);
            && s1.pool.refs == multiset{Mbuf(0)} && s1.pool.pending == multiset{}
            && QpSlot(s1.qps, 5).Some? && Recycled(s1.ctxs, 5, Mbuf(0)) == 1 && !RecycledHoldsNothing(s1.ctxs, 5)
  {
    var s1 := LanWriteDone(s0, a.pkt, a.env);
    FirstPacketNoted(s0, a);
    FreeEntryRemains(s1.qps, 1, 5);
    assert FindQp(s0.qps, 0, 0).None? && FreeQp(s0.qps, 0) == Some(0);
    FirstPacketSent(s0.ctxs, a.pkt);
    hide FindQp, FreeQp, EmptyWindow, Sent;
    LanWriteFactors(s0, a.pkt, a.env);
    FirstPacketInSlot(s1.ctxs);
  }

  lemma FirstPacketNoted(s0: State, a: Event)
    requires Shaped(s0) && s0.packetCounter == 0 && forall k :: 0 <= k < MAX_QP_CTX ==> !s0.qps[k].active
    requires a == OnePacket(0, 0)
    ensures LanWriteDone(s0, a.pkt, a.env).qps == s0.qps[0 := Qp(0, true, 0, 1)]
  {
    hide Forwarded;
    assert FindQp(s0.qps, 0, 0).None? && FreeQp(s0.qps, 0) == Some(0);
  }

  lemma FirstPacketSent(ctxs: seq<Ctx>, pkt: Packet)
    requires |ctxs| == MAX_QP_CTX && forall k :: 0 <= k < MAX_QP_CTX ==> ctxs[k] == Ctx(0, EmptyWindow())
    requires pkt == OnePacket(0, 0).pkt
    ensures forall k :: 0 <= k < |ctxs| ==> |ctxs[k].window.slots| == WINDOW_SIZE && ctxs[k].window.base <= ctxs[k].window.next
    ensures Enters(ctxs, 0)
    ensures ForwardedCtxs(ctxs, pkt, 0) == ctxs[0 := Ctx(0, Sent(EmptyWindow(), Mbuf(0), 0, 0, 0))]
  {
    assert forall k :: 0 <= k < |ctxs| ==> |ctxs[k].window.slots| == WINDOW_SIZE && ctxs[k].window.base <= ctxs[k].window.next;
    hide Sent;
    assert FindCtx(ctxs, 0, 0) == Some(0);
  }

  lemma FreeEntryRemains(qps: seq<Qp>, k: nat, qpn: u32)
    requires k < |qps| && !qps[k].active
    ensures QpSlot(qps, qpn).Some?
  {
  }

  lemma FirstPacketInSlot(ctxs: seq<Ctx>)
    requires |ctxs| > 0 && ctxs[0] == Ctx(0, Sent(EmptyWindow(), Mbuf(0), 0, 0, 0))
    requires forall k :: 0 <= k < |ctxs| ==> ctxs[k].qpn == 0
    ensures Recycled(ctxs, 5, Mbuf(0)) == 1 && !RecycledHoldsNothing(ctxs, 5)
  {
    EmptyIsSound();
    EmptyHoldsNothing(Mbuf(0));
    SentHolds(EmptyWindow(), Mbuf(0), 0, 0, 0, Mbuf(0));
    assert CtxIsNew(ctxs, 5) && FindCtx(ctxs, 0, 0) == Some(0);
  }

  lemma TwoSteps(cc: Control, a: Event, b: Event)
    requires a.LanWrite? && b.LanWrite? && a.pkt.m !in Booted(cc).pool.refs
    requires b.pkt.m !in LanWriteDone(Booted(cc), a.pkt, a.env).pool.refs
    ensures Run(cc, [a, b]) == Some(LanWriteDone(LanWriteDone(Booted(cc), a.pkt, a.env), b.pkt, b.env))
  {
    hide LanWriteDone, Booted;
    assert [a][..0] == [] && [a, b][..1] == [a];
    assert Run(cc, []) == Some(Booted(cc));
    assert Run(cc, [a]) == Some(LanWriteDone(Booted(cc), a.pkt, a.env));
  }
}
