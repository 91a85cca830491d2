/** Whole runs of one send window: what its counters mean, what the ring looks like as long
    as nothing has been dropped, and how often anything can time out. */
module ArqRuns {
  import opened SerialNumbers
  import opened Buffers
  import opened ArqWindow

  datatype Event =
    | SendPkt(m: Mbuf, psn: u32, segmentType: u8, now: u64)
    | GotAck(ack: u32)
    | GotNack(nack: u32, clock: nat -> u64)
    | Timer(now: u64, timeout: u64)

  function Step(w: Window, ev: Event): (w': Window)
    requires |w.slots| == WINDOW_SIZE && w.base <= w.next
    ensures |w'.slots| == WINDOW_SIZE && w'.base <= w'.next
  {
    match ev
    case SendPkt(m, psn, segmentType, now) => Sent(w, m, psn, segmentType, now)
    case GotAck(ack) => Acked(w, ack)
    case GotNack(nack, clock) => Nacked(w, nack, clock)
    case Timer(now, timeout) => Swept(w, now, timeout)
  }

  /** The window after a run from the empty window. */
  function Run(evs: seq<Event>): (w: Window)
    ensures |w.slots| == WINDOW_SIZE && w.base <= w.next
    decreases |evs|
  {
    if evs == [] then EmptyWindow() else Step(Run(evs[..|evs| - 1]), evs[|evs| - 1])
  }

  // ----- what one operation does to the counters -----

  ghost predicate AckedAmount(w: Window, ack: u32)
    requires |w.slots| == WINDOW_SIZE
  {
    var w' := Acked(w, ack);
    && w.base <= w'.base <= w.next
    && w' == w.(slots := w'.slots, base := w'.base, totalAcked := w.totalAcked + (w'.base - w.base))
  }

  lemma {:induction false} AckMovesBase(w: Window, ack: u32)
    requires |w.slots| == WINDOW_SIZE && w.base <= w.next
    ensures AckedAmount(w, ack)
    decreases w.next - w.base
  {
    if BaseAcked(w, ack) {
      AckMovesBase(PopBase(w), ack);
    }
  }

  lemma {:induction false} TouchAllCounters(w: Window, picks: seq<nat>, clock: nat -> u64)
    requires |w.slots| == WINDOW_SIZE
    ensures var w' := TouchAll(w, picks, clock);
            w' == w.(slots := w'.slots, totalRetransmit := w.totalRetransmit + |picks|)
  {
    if picks != [] {
      TouchAllCounters(w, picks[..|picks| - 1], clock);
    }
  }

  lemma {:induction false} SweepCounters(w: Window, i: nat, now: u64, timeout: u64)
    requires |w.slots| == WINDOW_SIZE
    ensures var w' := SweptFrom(w, i, now, timeout);
            && w'.totalTimeout >= w.totalTimeout && w'.totalRetransmit >= w.totalRetransmit
            && w' == w.(slots := w'.slots, totalRetransmit := w'.totalRetransmit, totalTimeout := w'.totalTimeout)
    decreases w.next - i
  {
    if i < w.next {
      SweepCounters(Expire(w, i, now, timeout), i + 1, now, timeout);
    }
  }

  // ----- the counters over a run -----

  /** The largest occupancy at any point of the run. */
  function HighWater(evs: seq<Event>): nat
    decreases |evs|
  {
    if evs == [] then 0
    else
      var before, now := HighWater(evs[..|evs| - 1]), Run(evs).next - Run(evs).base;
      if now > before then now else before
  }

  ghost predicate CountersExact(w: Window, high: nat) {
    w.totalSent == w.next && w.totalAcked == w.base && w.sendMax == high && w.base <= w.next <= w.base + high
  }

  /** On every run the sent and acknowledged counters are the two ends of the window, and the
      high-water mark is the largest occupancy ever reached. */
  lemma {:induction false} RunCounters(evs: seq<Event>)
    ensures CountersExact(Run(evs), HighWater(evs))
    decreases |evs|
  {
    if evs != [] {
      var w, ev := Run(evs[..|evs| - 1]), evs[|evs| - 1];
      RunCounters(evs[..|evs| - 1]);
      match ev
      case SendPkt(_, _, _, _) =>
      case GotAck(ack) => AckMovesBase(w, ack);
      case GotNack(nack, clock) => TouchAllCounters(w, Selected(w, nack), clock);
      case Timer(now, timeout) => SweepCounters(w, w.base, now, timeout);
    }
  }

  lemma {:induction false} RunSound(evs: seq<Event>)
    ensures Sound(Run(evs))
    decreases |evs|
  {
    hide Sound;
    if evs == [] {
      EmptyIsSound();
    } else {
      var w := Run(evs[..|evs| - 1]);
      RunSound(evs[..|evs| - 1]);
      match evs[|evs| - 1]
      case SendPkt(m, psn, segmentType, now) => SentSound(w, m, psn, segmentType, now);
      case GotAck(ack) => AckedSound(w, ack);
      case GotNack(nack, clock) => TouchAllSound(w, Selected(w, nack), clock);
      case Timer(now, timeout) => SweptSound(w, w.base, now, timeout);
    }
  }

  // ----- the ring while nothing has been dropped -----

  /** The slots in flight are exactly the images of the counters from base to next. */
  ghost predicate Ring(w: Window) {
    && |w.slots| == WINDOW_SIZE
    && w.base <= w.next <= w.base + WINDOW_SIZE
    && forall s :: 0 <= s < WINDOW_SIZE ==> (w.slots[s].inFlight <==> Covers(w.base, w.next, s))
  }

  lemma CoversPop(base: nat, next: nat, s: nat)
    requires base < next <= base + WINDOW_SIZE && s < WINDOW_SIZE
    ensures Covers(base, next, s) <==> s == Slot(base) || Covers(base + 1, next, s)
    ensures !Covers(base + 1, next, Slot(base))
  {
    if Covers(base, next, s) && s != Slot(base) {
      var i: nat :| base <= i < next && Slot(i) == s;
      assert base + 1 <= i < next && Slot(i) == s;
    }
    if Covers(base + 1, next, s) {
      var i: nat :| base + 1 <= i < next && Slot(i) == s;
      assert base <= i < next && Slot(i) == s;
    }
    if s == Slot(base) {
      assert base <= base < next && Slot(base) == s;
    }
  }

  lemma CoversPush(base: nat, next: nat, s: nat)
    requires base <= next && s < WINDOW_SIZE
    ensures Covers(base, next + 1, s) <==> s == Slot(next) || Covers(base, next, s)
  {
    if Covers(base, next + 1, s) && s != Slot(next) {
      var i: nat :| base <= i < next + 1 && Slot(i) == s;
      assert base <= i < next && Slot(i) == s;
    }
    if Covers(base, next, s) {
      CoversMono(base, next, next + 1, s);
    }
    if s == Slot(next) {
      assert base <= next < next + 1 && Slot(next) == s;
    }
  }

  lemma NextNotCovered(base: nat, next: nat)
    requires base <= next < base + WINDOW_SIZE
    ensures !Covers(base, next, Slot(next))
  {
  }

  lemma CoversAll(base: nat, s: nat)
    requires s < WINDOW_SIZE
    ensures Covers(base, base + WINDOW_SIZE, s)
  {
    var i := base + (s - base) % WINDOW_SIZE;
    assert base <= i < base + WINDOW_SIZE && Slot(i) == s;
  }

  /** On the ring a send is refused exactly when all 256 places are taken. */
  lemma RefusedIffFull(w: Window)
    requires Ring(w)
    ensures Full(w) <==> w.next - w.base == WINDOW_SIZE
  {
    if w.next < w.base + WINDOW_SIZE {
      NextNotCovered(w.base, w.next);
    } else {
      CoversAll(w.base, Slot(w.next));
    }
  }

  lemma SentRing(w: Window, m: Mbuf, psn: u32, segmentType: u8, now: u64)
    requires Ring(w)
    ensures Ring(Sent(w, m, psn, segmentType, now))
  {
    RefusedIffFull(w);
    if !Full(w) {
      var w' := Sent(w, m, psn, segmentType, now);
      forall s | 0 <= s < WINDOW_SIZE ensures w'.slots[s].inFlight <==> Covers(w'.base, w'.next, s) {
        CoversPush(w.base, w.next, s);
      }
    }
  }

  lemma {:induction false} AckedRing(w: Window, ack: u32)
    requires Ring(w)
    ensures Ring(Acked(w, ack))
    decreases w.next - w.base
  {
    if BaseAcked(w, ack) {
      var w' := PopBase(w);
      forall s | 0 <= s < WINDOW_SIZE ensures w'.slots[s].inFlight <==> Covers(w'.base, w'.next, s) {
        CoversPop(w.base, w.next, s);
      }
      AckedRing(w', ack);
    }
  }

  lemma {:induction false} TouchAllRing(w: Window, picks: seq<nat>, clock: nat -> u64)
    requires Ring(w)
    ensures Ring(TouchAll(w, picks, clock))
    ensures TouchAll(w, picks, clock).base == w.base && TouchAll(w, picks, clock).next == w.next
  {
    if picks != [] {
      TouchAllRing(w, picks[..|picks| - 1], clock);
    }
  }

  lemma {:induction false} SweptRing(w: Window, i: nat, now: u64, timeout: u64)
    requires Ring(w)
    requires SweptFrom(w, i, now, timeout).totalTimeout == w.totalTimeout
    ensures Ring(SweptFrom(w, i, now, timeout))
    decreases w.next - i
  {
    if i < w.next {
      var w' := Expire(w, i, now, timeout);
      SweepCounters(w', i + 1, now, timeout);
      assert Ring(w');
      SweptRing(w', i + 1, now, timeout);
    }
  }

  lemma TimeoutsOnlyGrow(w: Window, ev: Event)
    requires |w.slots| == WINDOW_SIZE && w.base <= w.next
    ensures Step(w, ev).totalTimeout >= w.totalTimeout
    ensures ev.Timer? || Step(w, ev).totalTimeout == w.totalTimeout
  {
    match ev
    case SendPkt(_, _, _, _) =>
    case GotAck(ack) => AckMovesBase(w, ack);
    case GotNack(nack, clock) => TouchAllCounters(w, Selected(w, nack), clock);
    case Timer(now, timeout) => SweepCounters(w, w.base, now, timeout);
  }

  /** Every run that has dropped nothing keeps the ring exact, so its occupancy never exceeds
      256 and a send is refused exactly at 256. */
  lemma {:induction false} DropFreeRunKeepsRing(evs: seq<Event>)
    requires Run(evs).totalTimeout == 0
    ensures Ring(Run(evs))
    ensures Full(Run(evs)) <==> Run(evs).next - Run(evs).base == 256
    decreases |evs|
  {
    hide Ring;
    if evs == [] {
      EmptyRing();
    } else {
      var w, ev := Run(evs[..|evs| - 1]), evs[|evs| - 1];
      TimeoutsOnlyGrow(w, ev);
      DropFreeRunKeepsRing(evs[..|evs| - 1]);
      match ev
      case SendPkt(m, psn, segmentType, now) => SentRing(w, m, psn, segmentType, now);
      case GotAck(ack) => AckedRing(w, ack);
      case GotNack(nack, clock) => TouchAllRing(w, Selected(w, nack), clock);
      case Timer(now, timeout) => SweptRing(w, w.base, now, timeout);
    }
    RefusedIffFull(Run(evs));
  }

  lemma EmptyRing()
    ensures Ring(EmptyWindow())
  {
    forall s | 0 <= s < WINDOW_SIZE ensures !Covers(0, 0, s) {
    }
  }
}
