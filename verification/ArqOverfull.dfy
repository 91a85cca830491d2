/** Windows of more than 256 entries.  A timeout drop frees its slot without moving the base, so
    the ring can be lapped: exactly when, how far, and what acknowledgements then still do. */
module ArqOverfull {
  import opened SerialNumbers
  import opened Buffers
  import opened ArqWindow
  import opened ArqAcks
  import opened ArqRuns
  import opened ArqTimeouts

  // ----- when a window gets overfull -----

  /** With 256 entries outstanding a send is accepted exactly when the packet of the oldest one has
      been dropped. */
  lemma AcceptedIffBaseDropped(w: Window, m: Mbuf, psn: u32, segmentType: u8, now: u64)
    requires Sound(w) && w.next == w.base + WINDOW_SIZE
    ensures Sent(w, m, psn, segmentType, now).next == w.next + 1 <==> !w.slots[Slot(w.base)].inFlight
    ensures Sent(w, m, psn, segmentType, now).next == w.next <==> w.slots[Slot(w.base)].inFlight
  {
    assert Slot(w.next) == Slot(w.base);
  }

  /** Event `p` of the run is a send into a window of 256 entries whose oldest has been dropped. */
  ghost predicate Laps(evs: seq<Event>, p: nat) {
    && p < |evs| && evs[p].SendPkt?
    && var w := Run(evs[..p]);
       w.next == w.base + WINDOW_SIZE && !w.slots[Slot(w.base)].inFlight
  }

  lemma StepOccupancy(w: Window, ev: Event)
    requires Sound(w)
    ensures var w' := Step(w, ev);
            && w'.next - w'.base <= w.next - w.base + 1
            && (w.next == w.base + WINDOW_SIZE ==>
                  (w'.next - w'.base > WINDOW_SIZE <==> ev.SendPkt? && !w.slots[Slot(w.base)].inFlight))
  {
    match ev
    case SendPkt(m, psn, segmentType, now) =>
      if w.next == w.base + WINDOW_SIZE {
        AcceptedIffBaseDropped(w, m, psn, segmentType, now);
      }
    case GotAck(ack) => AckMovesBase(w, ack);
    case GotNack(nack, clock) => TouchAllCounters(w, Selected(w, nack), clock);
    case Timer(now, timeout) => SweepCounters(w, w.base, now, timeout);
  }

  lemma {:induction false} HighWaterIff(evs: seq<Event>)
    ensures HighWater(evs) > WINDOW_SIZE <==> exists p :: Laps(evs, p)
    decreases |evs|
  {
    hide Run, Step, Sound;
    if evs != [] {
      var n := |evs| - 1;
      var before := evs[..n];
      HighWaterIff(before);
      RunSound(before);
      assert Run(evs) == Step(Run(before), evs[n]) by { RunUnfolds(evs); }
      StepOccupancy(Run(before), evs[n]);
      OccupancyBelowHighWater(before);
      assert forall p: nat :: p < n ==> evs[..p] == before[..p];
      assert forall p: nat :: p < n ==> (Laps(evs, p) <==> Laps(before, p));
      if HighWater(evs) > WINDOW_SIZE && HighWater(before) <= WINDOW_SIZE {
        assert Laps(evs, n);
      }
    }
  }

  lemma RunUnfolds(evs: seq<Event>)
    requires evs != []
    ensures Run(evs) == Step(Run(evs[..|evs| - 1]), evs[|evs| - 1])
  {
  }

  lemma OccupancyBelowHighWater(evs: seq<Event>)
    ensures Run(evs).next - Run(evs).base <= HighWater(evs)
  {
  }

  /** Over every run: the window has ever held more than 256 entries if and only if some send found
      256 outstanding and the oldest of them dropped. */
  lemma OverfullIff(evs: seq<Event>)
    ensures Run(evs).sendMax > WINDOW_SIZE <==> exists p :: Laps(evs, p)
  {
    hide Run, Laps;
    RunCounters(evs);
    HighWaterIff(evs);
  }

  // ----- any occupancy can be reached -----

  ghost predicate Idle(w: Window, n: nat) {
    w.base == 0 && w.next == n && |w.slots| == WINDOW_SIZE && forall s :: 0 <= s < WINDOW_SIZE ==> !w.slots[s].inFlight
  }

  /** Only the youngest entry is in flight, retried `r` times, last at time `t`. */
  ghost predicate Youngest(w: Window, n: nat, r: u8, t: u64) {
    && w.base == 0 && w.next == n + 1 && |w.slots| == WINDOW_SIZE
    && (forall s :: 0 <= s < WINDOW_SIZE && s != Slot(n) ==> !w.slots[s].inFlight)
    && w.slots[Slot(n)].inFlight && w.slots[Slot(n)].retryCount == r && w.slots[Slot(n)].sendTime == t
  }

  function Tick(t: u64): u64 {
    (t + 1) % 0x1_0000_0000_0000_0000
  }

  lemma AgedNow(e: Entry, t: u64)
    requires e.inFlight ==> e.sendTime == t
    ensures var e' := Aged(e, Tick(t), 0);
            if !e.inFlight then e' == e
            else if e.retryCount < MAX_RETRY_COUNT then e' == e.(sendTime := Tick(t), retryCount := e.retryCount + 1)
            else !e'.inFlight
  {
    assert Elapsed(Tick(t), t) == 1;
  }

  lemma SweptYoungest(w: Window, n: nat, r: u8, t: u64)
    requires Sound(w) && Youngest(w, n, r, t) && r <= MAX_RETRY_COUNT
    ensures var w' := Swept(w, Tick(t), 0);
            if r < MAX_RETRY_COUNT then Youngest(w', n, r + 1, Tick(t)) else Idle(w', n + 1)
  {
    SweptExact(w, Tick(t), 0);
    hide Sound, Swept, SweptFrom, DueRetries, DueDrops, Aged, Tick, Slot;
    forall s | 0 <= s < WINDOW_SIZE && s != Slot(n) ensures !Swept(w, Tick(t), 0).slots[s].inFlight {
      AgedNow(w.slots[s], t);
    }
    AgedNow(w.slots[Slot(n)], t);
  }

  lemma TimerOnYoungest(evs: seq<Event>, n: nat, r: u8, t: u64)
    requires Youngest(Run(evs), n, r, t) && r <= MAX_RETRY_COUNT
    ensures var w' := Run(evs + [Timer(Tick(t), 0)]);
            if r < MAX_RETRY_COUNT then Youngest(w', n, r + 1, Tick(t)) else Idle(w', n + 1)
  {
    hide Youngest, Idle, Swept, Sound;
    assert (evs + [Timer(Tick(t), 0)])[..|evs|] == evs;
    RunSound(evs);
    SweptYoungest(Run(evs), n, r, t);
  }

  lemma SendOnIdle(evs: seq<Event>, n: nat, t: u64)
    requires Idle(Run(evs), n)
    ensures Youngest(Run(evs + [SendPkt(Mbuf(0), 0, 0, t)]), n, 0, t)
  {
    assert (evs + [SendPkt(Mbuf(0), 0, 0, t)])[..|evs|] == evs;
  }

  /** Every occupancy is reached by some run, 257 included: each packet is sent, retransmitted three
      times on timeout and dropped, and the base never moves. */
  lemma {:induction false} EveryOccupancyReached(n: nat) returns (evs: seq<Event>, t: u64)
    ensures Run(evs).next - Run(evs).base == n
    ensures Idle(Run(evs), n)
  {
    hide Run, Youngest, Idle;
    if n == 0 {
      evs, t := [], 0;
      assert Run(evs).next - Run(evs).base == 0 && Idle(Run(evs), 0) by { NothingSent(); }
    } else {
      evs, t := EveryOccupancyReached(n - 1);
      SendOnIdle(evs, n - 1, t);
      evs := evs + [SendPkt(Mbuf(0), 0, 0, t)];
      TimerOnYoungest(evs, n - 1, 0, t);
      evs, t := evs + [Timer(Tick(t), 0)], Tick(t);
      TimerOnYoungest(evs, n - 1, 1, t);
      evs, t := evs + [Timer(Tick(t), 0)], Tick(t);
      TimerOnYoungest(evs, n - 1, 2, t);
      evs, t := evs + [Timer(Tick(t), 0)], Tick(t);
      TimerOnYoungest(evs, n - 1, 3, t);
      evs, t := evs + [Timer(Tick(t), 0)], Tick(t);
      IdleOccupancy(Run(evs), n);
    }
  }

  lemma NothingSent()
    ensures Run([]).next - Run([]).base == 0 && Idle(Run([]), 0)
  {
  }

  lemma IdleOccupancy(w: Window, n: nat)
    requires Idle(w, n)
    ensures w.next - w.base == n
  {
  }

  // ----- acknowledgements in an overfull window -----

  /** The window with entry 256 in the slot of its oldest entry. */
  function Lapped(w: Window, first: u32, m: Mbuf, segmentType: u8, now: u64): Window
    requires |w.slots| == WINDOW_SIZE && w.base <= w.next
  {
    Sent(w, m, Advance(first, WINDOW_SIZE), segmentType, now)
  }

  /** Once a consecutive window has been lapped, its base slot carries the PSN of the youngest
      entry, and an ACK does anything if and only if it is at or past that PSN. */
  lemma LappedAckIff(w: Window, first: u32, m: Mbuf, segmentType: u8, now: u64, ack: u32)
    requires Consecutive(w, first) && Occupancy(w) == WINDOW_SIZE && !w.slots[Slot(w.base)].inFlight
    ensures Lapped(w, first, m, segmentType, now).base == w.base
    ensures Lapped(w, first, m, segmentType, now).next == w.base + WINDOW_SIZE + 1
    ensures Lapped(w, first, m, segmentType, now).slots[Slot(w.base)].psn == Advance(first, WINDOW_SIZE)
    ensures Acked(Lapped(w, first, m, segmentType, now), ack) != Lapped(w, first, m, segmentType, now)
       <==> ForwardDist(Advance(first, WINDOW_SIZE), ack) < HALF
  {
    hide Advance, ForwardDist;
    var w' := Lapped(w, first, m, segmentType, now);
    assert Slot(w.next) == Slot(w.base);
    if BaseAcked(w', ack) {
      AckMovesBase(PopBase(w'), ack);
    }
  }

  /** So an ACK for any of the 256 entries sent before the youngest frees nothing, whether or not
      they are still in flight. */
  lemma LappedAcksLost(w: Window, first: u32, m: Mbuf, segmentType: u8, now: u64, j: nat)
    requires Consecutive(w, first) && Occupancy(w) == WINDOW_SIZE && !w.slots[Slot(w.base)].inFlight
    requires j < WINDOW_SIZE
    ensures Acked(Lapped(w, first, m, segmentType, now), Advance(first, j)) == Lapped(w, first, m, segmentType, now)
  {
    hide Lapped, Acked, Advance, Consecutive;
    LappedAckIff(w, first, m, segmentType, now, Advance(first, j));
    DistToAdvanced(first, j);
    DistFromAdvanced(first, WINDOW_SIZE, Advance(first, j));
  }
}
