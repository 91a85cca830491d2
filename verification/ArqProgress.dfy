/** How often timeouts can fire.  Every expiry uses up one of the attempts left to an entry
    in flight, and only a send, or the 8-bit retry counter wrapping, ever adds attempts. */
module ArqProgress {
  import opened SerialNumbers
  import opened Buffers
  import opened ArqWindow
  import opened ArqRuns
  import opened ArqAcks
  import opened ArqNacks
  import opened ArqTimeouts

  /** Timeout retransmissions an entry has left. */
  function Attempts(e: Entry): nat {
    if e.inFlight && e.retryCount < MAX_RETRY_COUNT then MAX_RETRY_COUNT - e.retryCount else 0
  }

  /** Expiries an entry has left: its retransmissions and the final drop. */
  function Lives(e: Entry): nat {
    if e.inFlight then Attempts(e) + 1 else 0
  }

  function TotalAttempts(slots: seq<Entry>): nat {
    if slots == [] then 0 else TotalAttempts(slots[..|slots| - 1]) + Attempts(slots[|slots| - 1])
  }

  function TotalLives(slots: seq<Entry>): nat {
    if slots == [] then 0 else TotalLives(slots[..|slots| - 1]) + Lives(slots[|slots| - 1])
  }

  lemma {:induction false} TotalsUpdate(slots: seq<Entry>, s: nat, e: Entry)
    requires s < |slots|
    ensures TotalAttempts(slots[s := e]) + Attempts(slots[s]) == TotalAttempts(slots) + Attempts(e)
    ensures TotalLives(slots[s := e]) + Lives(slots[s]) == TotalLives(slots) + Lives(e)
  {
    var n := |slots| - 1;
    if s == n {
      assert slots[s := e][..n] == slots[..n];
    } else {
      assert slots[s := e][..n] == slots[..n][s := e];
      TotalsUpdate(slots[..n], s, e);
    }
  }

  // ----- what is counted -----

  /** Entry `i` is retransmitted by the sweep when it reaches it. */
  predicate Retried(w: Window, i: nat, now: u64, timeout: u64)
    requires |w.slots| == WINDOW_SIZE
  {
    var e := w.slots[Slot(i)];
    Expired(e, now, timeout) && e.retryCount < MAX_RETRY_COUNT
  }

  function SweepRetries(w: Window, i: nat, now: u64, timeout: u64): nat
    requires |w.slots| == WINDOW_SIZE
    decreases w.next - i
  {
    if i >= w.next then 0
    else (if Retried(w, i, now, timeout) then 1 else 0) + SweepRetries(Expire(w, i, now, timeout), i + 1, now, timeout)
  }

  /** Times a NACK wraps the retry counter of an entry in flight from 255 to 0. */
  function NackWraps(w: Window, picks: seq<nat>, clock: nat -> u64): nat
    requires |w.slots| == WINDOW_SIZE
  {
    if picks == [] then 0
    else
      var n := |picks| - 1;
      var e := TouchAll(w, picks[..n], clock).slots[Slot(picks[n])];
      NackWraps(w, picks[..n], clock) + if e.inFlight && e.retryCount == 0xFF then 1 else 0
  }

  function Retries(evs: seq<Event>): nat
    decreases |evs|
  {
    if evs == [] then 0
    else
      var w, ev := Run(evs[..|evs| - 1]), evs[|evs| - 1];
      Retries(evs[..|evs| - 1]) + if ev.Timer? then SweepRetries(w, w.base, ev.now, ev.timeout) else 0
  }

  function Wraps(evs: seq<Event>): nat
    decreases |evs|
  {
    if evs == [] then 0
    else
      var w, ev := Run(evs[..|evs| - 1]), evs[|evs| - 1];
      Wraps(evs[..|evs| - 1]) + if ev.GotNack? then NackWraps(w, Selected(w, ev.nack), ev.clock) else 0
  }

  // ----- one operation -----

  lemma {:induction false} AckUsesNothingUp(w: Window, ack: u32)
    requires |w.slots| == WINDOW_SIZE
    ensures TotalAttempts(Acked(w, ack).slots) <= TotalAttempts(w.slots)
    ensures TotalLives(Acked(w, ack).slots) <= TotalLives(w.slots)
    decreases w.next - w.base
  {
    if BaseAcked(w, ack) {
      var s := Slot(w.base);
      TotalsUpdate(w.slots, s, PopBase(w).slots[s]);
      AckUsesNothingUp(PopBase(w), ack);
    }
  }

  lemma TouchAddsOnlyByWrapping(w: Window, i: nat, now: u64)
    requires |w.slots| == WINDOW_SIZE
    ensures var e := w.slots[Slot(i)];
            var extra := if e.inFlight && e.retryCount == 0xFF then MAX_RETRY_COUNT else 0;
            && TotalAttempts(Touch(w, i, now).slots) <= TotalAttempts(w.slots) + extra
            && TotalLives(Touch(w, i, now).slots) <= TotalLives(w.slots) + extra
  {
    TotalsUpdate(w.slots, Slot(i), Touch(w, i, now).slots[Slot(i)]);
  }

  lemma {:induction false} NackAddsOnlyByWrapping(w: Window, picks: seq<nat>, clock: nat -> u64)
    requires |w.slots| == WINDOW_SIZE
    ensures TotalAttempts(TouchAll(w, picks, clock).slots) <= TotalAttempts(w.slots) + MAX_RETRY_COUNT * NackWraps(w, picks, clock)
    ensures TotalLives(TouchAll(w, picks, clock).slots) <= TotalLives(w.slots) + MAX_RETRY_COUNT * NackWraps(w, picks, clock)
  {
    hide TotalAttempts, TotalLives, Touch, Slot;
    if picks != [] {
      var n := |picks| - 1;
      NackAddsOnlyByWrapping(w, picks[..n], clock);
      TouchAddsOnlyByWrapping(TouchAll(w, picks[..n], clock), picks[n], clock(picks[n]));
    }
  }

  /** Each expiry of the sweep, retransmission or drop, uses up exactly one life, and each
      retransmission exactly one attempt. */
  lemma {:induction false} SweepUsesUp(w: Window, i: nat, now: u64, timeout: u64)
    requires |w.slots| == WINDOW_SIZE
    ensures var w' := SweptFrom(w, i, now, timeout);
            && TotalAttempts(w'.slots) + SweepRetries(w, i, now, timeout) == TotalAttempts(w.slots)
            && TotalLives(w'.slots) + SweepRetries(w, i, now, timeout) + w'.totalTimeout == TotalLives(w.slots) + w.totalTimeout
    decreases w.next - i
  {
    if i < w.next {
      var w', s := Expire(w, i, now, timeout), Slot(i);
      TotalsUpdate(w.slots, s, w'.slots[s]);
      assert w'.slots == w.slots[s := w'.slots[s]];
      SweepUsesUp(w', i + 1, now, timeout);
    }
  }

  // ----- whole runs -----

  /** The measure: what has been used up and what is left is covered by what was ever given. */
  lemma {:induction false} ProgressInvariant(evs: seq<Event>)
    ensures var w := Run(evs);
            && Retries(evs) + TotalAttempts(w.slots) <= MAX_RETRY_COUNT * (w.totalSent + Wraps(evs))
            && Retries(evs) + w.totalTimeout + TotalLives(w.slots) <= (MAX_RETRY_COUNT + 1) * w.totalSent + MAX_RETRY_COUNT * Wraps(evs)
    decreases |evs|
  {
    hide TotalAttempts, TotalLives, Acked, TouchAll, SweptFrom, Selected, NackWraps, SweepRetries;
    if evs == [] {
      NothingInFlight();
    } else {
      var w, ev := Run(evs[..|evs| - 1]), evs[|evs| - 1];
      ProgressInvariant(evs[..|evs| - 1]);
      match ev
      case SendPkt(m, psn, segmentType, now) =>
        TotalsUpdate(w.slots, Slot(w.next), Entry(psn, Some(m), now, 0, segmentType, true));
      case GotAck(ack) =>
        AckMovesBase(w, ack);
        AckUsesNothingUp(w, ack);
      case GotNack(nack, clock) =>
        TouchAllCounters(w, Selected(w, nack), clock);
        NackAddsOnlyByWrapping(w, Selected(w, nack), clock);
      case Timer(now, timeout) =>
        SweepCounters(w, w.base, now, timeout);
        SweepUsesUp(w, w.base, now, timeout);
    }
  }

  lemma {:induction false} NothingInFlightIn(slots: seq<Entry>)
    requires forall s :: 0 <= s < |slots| ==> !slots[s].inFlight
    ensures TotalAttempts(slots) == 0 && TotalLives(slots) == 0
  {
    if slots != [] {
      NothingInFlightIn(slots[..|slots| - 1]);
    }
  }

  lemma NothingInFlight()
    ensures TotalAttempts(EmptyWindow().slots) == 0 && TotalLives(EmptyWindow().slots) == 0
  {
    NothingInFlightIn(EmptyWindow().slots);
  }

  /** While no retry counter of an entry in flight has wrapped, a run retransmits on timeout at
      most three times, and sees at most four expiries, per packet sent. */
  lemma TimeoutsBounded(evs: seq<Event>)
    requires Wraps(evs) == 0
    ensures Retries(evs) <= MAX_RETRY_COUNT * Run(evs).totalSent
    ensures Retries(evs) + Run(evs).totalTimeout <= (MAX_RETRY_COUNT + 1) * Run(evs).totalSent
  {
    ProgressInvariant(evs);
  }

  // ----- few NACKs cannot wrap a counter -----

  function NackCount(evs: seq<Event>): nat
    decreases |evs|
  {
    if evs == [] then 0
    else NackCount(evs[..|evs| - 1]) + if evs[|evs| - 1].GotNack? then 1 else 0
  }

  /** Timeouts stop counting at three; each NACK adds at most one. */
  ghost predicate CountersLow(slots: seq<Entry>, k: nat) {
    forall s :: 0 <= s < |slots| && slots[s].inFlight ==> slots[s].retryCount <= MAX_RETRY_COUNT + k
  }

  /** Increasing counters less than one turn of the ring apart. */
  ghost predicate OneTurn(picks: seq<nat>, lo: nat, hi: nat) {
    && hi <= lo + WINDOW_SIZE
    && (forall a :: 0 <= a < |picks| ==> lo <= picks[a] < hi)
    && (forall a, b :: 0 <= a < b < |picks| ==> picks[a] < picks[b])
  }

  lemma {:induction false} SelectedOneTurn(slots: seq<Entry>, nack: u32, i: nat, next: nat, room: nat)
    requires |slots| == WINDOW_SIZE && i <= next <= i + WINDOW_SIZE
    ensures OneTurn(SelectFrom(slots, nack, i, next, room), i, next)
    decreases next - i
  {
    if i < next && room > 0 {
      SelectedOneTurn(slots, nack, i + 1, next, if ForwardDist(slots[Slot(i)].psn, nack) < HALF then room - 1 else room);
    }
  }

  lemma OneTurnApart(picks: seq<nat>, lo: nat, hi: nat, n: nat)
    requires OneTurn(picks, lo, hi) && n < |picks|
    ensures forall p :: p in picks[..n] ==> Slot(p) != Slot(picks[n])
  {
    forall p | p in picks[..n] ensures Slot(p) != Slot(picks[n]) {
      SlotsApart(p, picks[n]);
    }
  }

  lemma {:induction false} TouchedCountersLow(w: Window, picks: seq<nat>, clock: nat -> u64, lo: nat, hi: nat, k: nat)
    requires |w.slots| == WINDOW_SIZE && OneTurn(picks, lo, hi)
    requires CountersLow(w.slots, k) && MAX_RETRY_COUNT + k < 0xFF
    ensures NackWraps(w, picks, clock) == 0
    ensures CountersLow(TouchAll(w, picks, clock).slots, k + 1)
  {
    if picks != [] {
      var n := |picks| - 1;
      var front, before := picks[..n], TouchAll(w, picks[..n], clock);
      OneTurnApart(picks, lo, hi, n);
      assert OneTurn(front, lo, hi);
      hide OneTurn, Slot, CountersLow;
      TouchedCountersLow(w, front, clock, lo, hi, k);
      TouchAllKeeps(w, front, clock);
      assert before.slots[Slot(picks[n])] == w.slots[Slot(picks[n])];
      TouchedLow(w, before, picks[n], clock(picks[n]), k);
    }
  }

  lemma TouchedLow(w: Window, before: Window, i: nat, now: u64, k: nat)
    requires |w.slots| == WINDOW_SIZE == |before.slots| && before.slots[Slot(i)] == w.slots[Slot(i)]
    requires CountersLow(w.slots, k) && CountersLow(before.slots, k + 1) && MAX_RETRY_COUNT + k < 0xFF
    ensures !(before.slots[Slot(i)].inFlight && before.slots[Slot(i)].retryCount == 0xFF)
    ensures CountersLow(Touch(before, i, now).slots, k + 1)
  {
  }

  lemma {:induction false} AckedCountersLow(w: Window, ack: u32, k: nat)
    requires |w.slots| == WINDOW_SIZE && CountersLow(w.slots, k)
    ensures CountersLow(Acked(w, ack).slots, k)
    decreases w.next - w.base
  {
    if BaseAcked(w, ack) {
      AckedCountersLow(PopBase(w), ack, k);
    }
  }

  lemma SweptCountersLow(w: Window, now: u64, timeout: u64, k: nat)
    requires Sound(w) && CountersLow(w.slots, k)
    ensures CountersLow(Swept(w, now, timeout).slots, k)
  {
    SweptExact(w, now, timeout);
  }

  /** With at most 252 NACKs, and never more than 256 entries outstanding, no retry counter of an
      entry in flight wraps. */
  lemma {:induction false} FewNacksNoWrap(evs: seq<Event>)
    requires NackCount(evs) <= 252 && Run(evs).sendMax <= WINDOW_SIZE
    ensures Wraps(evs) == 0
    ensures CountersLow(Run(evs).slots, NackCount(evs))
    decreases |evs|
  {
    hide CountersLow, Sound, Selected, TouchAll, NackWraps, Acked, Swept;
    if evs == [] {
      assert CountersLow(EmptyWindow().slots, 0) by { EmptyCountersLow(); }
    } else {
      var before, ev := evs[..|evs| - 1], evs[|evs| - 1];
      var w := Run(before);
      RunCounters(before);
      RunCounters(evs);
      FewNacksNoWrap(before);
      RunSound(before);
      match ev
      case SendPkt(m, psn, segmentType, now) => SentCountersLow(w, m, psn, segmentType, now, NackCount(before));
      case GotAck(ack) => AckedCountersLow(w, ack, NackCount(before));
      case GotNack(nack, clock) => NackedCountersLow(w, nack, clock, NackCount(before));
      case Timer(now, timeout) => SweptCountersLow(w, now, timeout, NackCount(before));
    }
  }

  lemma EmptyCountersLow()
    ensures CountersLow(EmptyWindow().slots, 0)
  {
  }

  lemma SentCountersLow(w: Window, m: Mbuf, psn: u32, segmentType: u8, now: u64, k: nat)
    requires |w.slots| == WINDOW_SIZE && w.base <= w.next && CountersLow(w.slots, k)
    ensures CountersLow(Sent(w, m, psn, segmentType, now).slots, k)
  {
  }

  lemma NackedCountersLow(w: Window, nack: u32, clock: nat -> u64, k: nat)
    requires |w.slots| == WINDOW_SIZE && w.base <= w.next <= w.base + WINDOW_SIZE
    requires CountersLow(w.slots, k) && MAX_RETRY_COUNT + k < 0xFF
    ensures NackWraps(w, Selected(w, nack), clock) == 0
    ensures CountersLow(Nacked(w, nack, clock).slots, k + 1)
  {
    SelectedOneTurn(w.slots, nack, w.base, w.next, MAX_RETX_BURST);
    TouchedCountersLow(w, Selected(w, nack), clock, w.base, w.next, k);
  }

  /** So what a caller can count bounds the timeouts: the packets sent and the NACKs received. */
  lemma TimeoutsBoundedByCounts(evs: seq<Event>)
    requires NackCount(evs) <= 252 && Run(evs).sendMax <= WINDOW_SIZE
    ensures Retries(evs) <= MAX_RETRY_COUNT * Run(evs).totalSent
    ensures Retries(evs) + Run(evs).totalTimeout <= (MAX_RETRY_COUNT + 1) * Run(evs).totalSent
  {
    FewNacksNoWrap(evs);
    TimeoutsBounded(evs);
  }

  /** Every entry a NACK selects loses one of the timeout retransmissions it has left, whether or not
      its packet was lost. */
  lemma NackUsesAttempt(w: Window, first: u32, nack: u32, clock: nat -> u64, i: nat)
    requires Consecutive(w, first) && i in Selected(w, nack)
    requires w.slots[Slot(i)].retryCount < 0xFF
    ensures var e, e' := w.slots[Slot(i)], Nacked(w, nack, clock).slots[Slot(i)];
            Attempts(e') == if Attempts(e) > 0 then Attempts(e) - 1 else 0
  {
    PickedOnce(w, first, nack, clock, i);
    hide Selected, TouchAll, Consecutive, Slot;
  }

  lemma PickedOnce(w: Window, first: u32, nack: u32, clock: nat -> u64, i: nat)
    requires Consecutive(w, first) && i in Selected(w, nack)
    ensures var e, e' := w.slots[Slot(i)], Nacked(w, nack, clock).slots[Slot(i)];
            e' == e.(sendTime := clock(i), retryCount := (e.retryCount + 1) % 0x100)
  {
    var a, b := SelectedIsRange(w, first, nack);
    assert |w.slots| == WINDOW_SIZE by { Bounds(w, first); }
    hide Range, Selected, TouchAll, Consecutive, Slot;
    TouchedInRange(w, a, b, clock, i);
  }

  lemma SelectedIsRange(w: Window, first: u32, nack: u32) returns (a: nat, b: nat)
    requires Consecutive(w, first)
    ensures |w.slots| == WINDOW_SIZE && Selected(w, nack) == Range(a, b) && b <= a + MAX_RETX_BURST
  {
    NackSelectsExactly(w, first, nack);
    var d := ForwardDist(first, nack);
    hide ForwardDist, FirstPick, PickLimit, Selected, Range;
    a := w.base + FirstPick(d);
    b := Min(w.base + PickLimit(d, Occupancy(w)), a + MAX_RETX_BURST);
  }

  lemma TouchedInRange(w: Window, a: nat, b: nat, clock: nat -> u64, i: nat)
    requires |w.slots| == WINDOW_SIZE && b <= a + WINDOW_SIZE && i in Range(a, b)
    ensures var e, e' := w.slots[Slot(i)], TouchAll(w, Range(a, b), clock).slots[Slot(i)];
            e' == e.(sendTime := clock(i), retryCount := (e.retryCount + 1) % 0x100)
  {
    hide Range, TouchAll, Slot;
    RangeMembers(a, b, i);
    assert b == a + (b - a);
    TouchedOnce(w, a, b - a, clock, i);
  }

  // ----- the bound does need the counter not to wrap -----

  function OneInFlight(r: u8, t: u64): Entry {
    Entry(0, Some(Mbuf(0)), t, r, 0, true)
  }

  /** A window whose only entry, in slot 0, has been retried `r` times. */
  ghost predicate Lone(w: Window, r: u8, t: u64) {
    && w.base == 0 && w.next == 1 && w.totalSent == 1
    && w.slots == EmptySlots()[0 := OneInFlight(r, t)]
  }

  lemma LoneSelected(w: Window, r: u8, t: u64)
    requires Lone(w, r, t)
    ensures Selected(w, 0) == [0]
  {
    assert Slot(0) == 0 && w.slots[0].psn == 0 && ForwardDist(0, 0) == 0;
    var rest := SelectFrom(w.slots, 0, 1, 1, MAX_RETX_BURST - 1);
    assert rest == [];
    assert Selected(w, 0) == SelectFrom(w.slots, 0, 0, 1, MAX_RETX_BURST);
    assert SelectFrom(w.slots, 0, 0, 1, MAX_RETX_BURST) == [0] + rest;
    assert [0] + rest == [0];
  }

  function NackAt(t: u64): Event {
    GotNack(0, (i: nat) => t)
  }

  lemma LoneNack(evs: seq<Event>, r: u8, t: u64)
    requires Lone(Run(evs), r, t)
    ensures Lone(Run(evs + [NackAt(t)]), (r + 1) % 0x100, t)
    ensures Retries(evs + [NackAt(t)]) == Retries(evs)
    ensures Wraps(evs + [NackAt(t)]) == Wraps(evs) + if r == 0xFF then 1 else 0
    ensures NackCount(evs + [NackAt(t)]) == NackCount(evs) + 1
  {
    var w, ev := Run(evs), NackAt(t);
    var clock: nat -> u64 := ev.clock;
    assert (evs + [ev])[..|evs|] == evs;
    LoneSelected(w, r, t);
    var picks: seq<nat> := [0];
    assert picks[..0] == [];
    assert TouchAll(w, picks[..0], clock) == w && NackWraps(w, picks[..0], clock) == 0;
    assert TouchAll(w, picks, clock) == Touch(w, 0, t);
    assert NackWraps(w, picks, clock) == if r == 0xFF then 1 else 0;
    assert Touch(w, 0, t).slots == EmptySlots()[0 := OneInFlight((r + 1) % 0x100, t)];
  }

  lemma LoneTimer(evs: seq<Event>, r: u8, t: u64)
    requires Lone(Run(evs), r, t) && r < MAX_RETRY_COUNT && t < 0xFF
    ensures Lone(Run(evs + [Timer(t + 1, 0)]), r + 1, t + 1)
    ensures Retries(evs + [Timer(t + 1, 0)]) == Retries(evs) + 1
    ensures Wraps(evs + [Timer(t + 1, 0)]) == Wraps(evs)
    ensures NackCount(evs + [Timer(t + 1, 0)]) == NackCount(evs)
  {
    var w, ev := Run(evs), Timer(t + 1, 0);
    assert (evs + [ev])[..|evs|] == evs;
    var w' := Expire(w, 0, t + 1, 0);
    assert w'.slots == EmptySlots()[0 := OneInFlight(r + 1, t + 1)];
    assert SweptFrom(w, 0, t + 1, 0) == SweptFrom(w', 1, t + 1, 0) == w';
    assert SweepRetries(w', 1, t + 1, 0) == 0;
  }

  lemma {:induction false} LoneNacks(evs: seq<Event>, r: u8, t: u64, k: nat) returns (evs': seq<Event>)
    requires Lone(Run(evs), r, t) && r + k <= 0xFF
    ensures Lone(Run(evs'), r + k, t)
    ensures Retries(evs') == Retries(evs) && Wraps(evs') == Wraps(evs)
    ensures NackCount(evs') == NackCount(evs) + k
    decreases k
  {
    hide Run, Retries, Wraps, Lone, NackCount;
    if k == 0 {
      evs' := evs;
    } else {
      LoneNack(evs, r, t);
      evs' := LoneNacks(evs + [NackAt(t)], r + 1, t, k - 1);
    }
  }

  /** One packet, three timeouts, 253 NACKs for it that wrap its counter to zero, and a fourth
      timeout retransmits it a fourth time. */
  lemma WrapDefeatsBound() returns (evs: seq<Event>)
    ensures Run(evs).totalSent == 1 && Wraps(evs) == 1 && Retries(evs) == MAX_RETRY_COUNT + 1
    ensures NackCount(evs) == 253
  {
    hide Lone, Run, Retries, Wraps, NackCount;
    evs := [SendPkt(Mbuf(0), 0, 0, 0)];
    assert Lone(Run(evs), 0, 0) && Retries(evs) == 0 && Wraps(evs) == 0 && NackCount(evs) == 0 by { LoneStart(); }
    LoneTimer(evs, 0, 0);
    evs := evs + [Timer(1, 0)];
    LoneTimer(evs, 1, 1);
    evs := evs + [Timer(2, 0)];
    LoneTimer(evs, 2, 2);
    evs := evs + [Timer(3, 0)];
    evs := LoneNacks(evs, 3, 3, 252);
    LoneNack(evs, 255, 3);
    evs := evs + [NackAt(3)];
    LoneTimer(evs, 0, 3);
    evs := evs + [Timer(4, 0)];
    assert Lone(Run(evs), 1, 4);
    LoneSent(Run(evs), 1, 4);
  }

  lemma LoneStart()
    ensures var evs := [SendPkt(Mbuf(0), 0, 0, 0)]; Lone(Run(evs), 0, 0) && Retries(evs) == 0 && Wraps(evs) == 0 && NackCount(evs) == 0
  {
    var evs := [SendPkt(Mbuf(0), 0, 0, 0)];
    assert evs[..0] == [];
    assert Run([]) == EmptyWindow();
    assert Run(evs) == Sent(EmptyWindow(), Mbuf(0), 0, 0, 0);
  }

  lemma LoneSent(w: Window, r: u8, t: u64)
    requires Lone(w, r, t)
    ensures w.totalSent == 1
  {
  }
}
