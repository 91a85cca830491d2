/** Who owns which packet buffer: every reference is either a slot of some send window or a
    transmission the network card has not completed.  This module is about one window. */
module Ownership {
  import opened SerialNumbers
  import opened Buffers
  import opened ArqWindow
  import ArqNacks

  function Holds(e: Entry, m: Mbuf): nat {
    if e.mbuf == Some(m) then 1 else 0
  }

  /** How many slots hold `m`. */
  function HeldCount(slots: seq<Entry>, m: Mbuf): nat {
    if slots == [] then 0 else HeldCount(slots[..|slots| - 1], m) + Holds(slots[|slots| - 1], m)
  }

  lemma {:induction false} HeldUpdate(slots: seq<Entry>, s: nat, e: Entry, m: Mbuf)
    requires s < |slots|
    ensures HeldCount(slots[s := e], m) + Holds(slots[s], m) == HeldCount(slots, m) + Holds(e, m)
    ensures Holds(slots[s], m) <= HeldCount(slots, m)
  {
    var n := |slots| - 1;
    if s == n {
      assert slots[s := e][..n] == slots[..n];
    } else {
      assert slots[s := e][..n] == slots[..n][s := e];
      HeldUpdate(slots[..n], s, e, m);
    }
  }

  lemma {:induction false} NothingHeld(slots: seq<Entry>, m: Mbuf)
    requires forall s :: 0 <= s < |slots| ==> slots[s].mbuf.None?
    ensures HeldCount(slots, m) == 0
  {
    if slots != [] {
      NothingHeld(slots[..|slots| - 1], m);
    }
  }

  lemma {:induction false} SamePacketsSameCount(a: seq<Entry>, b: seq<Entry>, m: Mbuf)
    requires |a| == |b| && forall s :: 0 <= s < |a| ==> a[s].mbuf == b[s].mbuf
    ensures HeldCount(a, m) == HeldCount(b, m)
  {
    if a != [] {
      SamePacketsSameCount(a[..|a| - 1], b[..|b| - 1], m);
    }
  }

  // ----- the local law: an operation on one window -----

  /** Every slot's packet is alive, as often as it is held. */
  ghost predicate Backed(slots: seq<Entry>, p: Pool) {
    forall m :: HeldCount(slots, m) <= p.refs[m]
  }

  /** What the window lost of `m` the pool lost, up to what the card took. */
  ghost predicate BalancedFor(slots: seq<Entry>, p: Pool, slots': seq<Entry>, p': Pool, m: Mbuf) {
    && p'.refs[m] + HeldCount(slots, m) + p.pending[m] == p.refs[m] + HeldCount(slots', m) + p'.pending[m]
    && p.pending[m] <= p'.pending[m]
  }

  /** The whole law: the accounts of every buffer agree and no dead buffer was touched. */
  ghost predicate Balanced(slots: seq<Entry>, p: Pool, slots': seq<Entry>, p': Pool) {
    && p'.faults == p.faults
    && forall m :: BalancedFor(slots, p, slots', p', m)
  }

  lemma BalancedBacked(a: seq<Entry>, p: Pool, b: seq<Entry>, q: Pool)
    requires Backed(a, p) && Balanced(a, p, b, q)
    ensures Backed(b, q)
  {
    forall m ensures HeldCount(b, m) <= q.refs[m] {
      assert BalancedFor(a, p, b, q, m);
      assert HeldCount(a, m) <= p.refs[m];
    }
  }

  lemma BalancedTrans(a: seq<Entry>, p: Pool, b: seq<Entry>, q: Pool, c: seq<Entry>, r: Pool)
    requires Balanced(a, p, b, q) && Balanced(b, q, c, r)
    ensures Balanced(a, p, c, r)
  {
    forall m ensures BalancedFor(a, p, c, r, m) {
      assert BalancedFor(a, p, b, q, m);
      assert BalancedFor(b, q, c, r, m);
    }
  }

  lemma BalancedRefl(a: seq<Entry>, p: Pool)
    ensures Balanced(a, p, a, p)
  {
  }

  lemma ApplyNone(p: Pool)
    ensures ApplyAll(p, []) == p
  {
  }

  lemma ApplyOne(p: Pool, op: BufferOp)
    ensures ApplyAll(p, [op]) == Apply(p, op)
  {
    assert [op][1..] == [];
  }

  /** A slot gives its packet back. */
  lemma ReleaseBalanced(slots: seq<Entry>, s: nat, e: Entry, p: Pool)
    requires s < |slots| && e.mbuf.None? && Backed(slots, p)
    ensures Balanced(slots, p, slots[s := e], ApplyAll(p, ReleasePacket(slots[s])))
  {
    hide HeldCount;
    var q := ApplyAll(p, ReleasePacket(slots[s]));
    ApplyNone(p);
    if slots[s].mbuf.Some? {
      var x := slots[s].mbuf.value;
      ApplyOne(p, Release(x));
      HeldUpdate(slots, s, e, x);
      assert HeldCount(slots, x) <= p.refs[x];
    }
    var after := slots[s := e];
    forall m ensures BalancedFor(slots, p, after, q, m) {
      HeldUpdate(slots, s, e, m);
    }
  }

  /** A slot's packet is retransmitted; the slot keeps it. */
  lemma ResendBalanced(slots: seq<Entry>, s: nat, accepted: bool, p: Pool)
    requires s < |slots| && Backed(slots, p)
    ensures Balanced(slots, p, slots, ApplyAll(p, ResendPacket(slots[s], accepted)))
  {
    hide HeldCount;
    ApplyNone(p);
    if slots[s].mbuf.Some? {
      var x := slots[s].mbuf.value;
      ApplyOne(p, Transmit(x, accepted));
      HeldUpdate(slots, s, slots[s], x);
      assert HeldCount(slots, x) <= p.refs[x];
    }
  }

  /** Stamps and counters are not packets. */
  lemma SamePacketsBalanced(a: seq<Entry>, b: seq<Entry>, p: Pool)
    requires |a| == |b| && forall s :: 0 <= s < |a| ==> a[s].mbuf == b[s].mbuf
    ensures Balanced(a, p, b, p)
  {
    forall m ensures BalancedFor(a, p, b, p, m) {
      SamePacketsSameCount(a, b, m);
    }
  }

  lemma {:induction false} AckBalanced(w: Window, ack: u32, p: Pool)
    requires |w.slots| == WINDOW_SIZE && Backed(w.slots, p)
    ensures Balanced(w.slots, p, Acked(w, ack).slots, ApplyAll(p, AckOps(w, ack)))
    decreases w.next - w.base
  {
    hide Backed, Balanced, ApplyAll;
    if BaseAcked(w, ack) {
      var s, w' := Slot(w.base), PopBase(w);
      var ops := ReleasePacket(w.slots[s]);
      var q := ApplyAll(p, ops);
      ReleaseBalanced(w.slots, s, w'.slots[s], p);
      assert w'.slots == w.slots[s := w'.slots[s]];
      BalancedBacked(w.slots, p, w'.slots, q);
      ApplyConcat(p, ops, AckOps(w', ack));
      AckBalanced(w', ack, q);
      BalancedTrans(w.slots, p, w'.slots, q, Acked(w', ack).slots, ApplyAll(q, AckOps(w', ack)));
    } else {
      ApplyNone(p);
      BalancedRefl(w.slots, p);
    }
  }

  lemma {:induction false} ResendsBalanced(slots: seq<Entry>, picks: seq<nat>, accepts: nat -> bool, p: Pool)
    requires |slots| == WINDOW_SIZE && Backed(slots, p)
    ensures Balanced(slots, p, slots, ApplyAll(p, ResendOps(slots, picks, accepts)))
  {
    hide Backed, Balanced, ApplyAll;
    if picks == [] {
      ApplyNone(p);
      BalancedRefl(slots, p);
    } else {
      var n := |picks| - 1;
      var front, last := ResendOps(slots, picks[..n], accepts), ResendPacket(slots[Slot(picks[n])], accepts(picks[n]));
      var q := ApplyAll(p, front);
      ResendsBalanced(slots, picks[..n], accepts, p);
      BalancedBacked(slots, p, slots, q);
      ApplyConcat(p, front, last);
      ResendBalanced(slots, Slot(picks[n]), accepts(picks[n]), q);
      BalancedTrans(slots, p, slots, q, slots, ApplyAll(q, last));
    }
  }

  lemma NackBalanced(w: Window, nack: u32, clock: nat -> u64, accepts: nat -> bool, p: Pool)
    requires |w.slots| == WINDOW_SIZE && Backed(w.slots, p)
    ensures Balanced(w.slots, p, Nacked(w, nack, clock).slots, ApplyAll(p, NackOps(w, nack, accepts)))
  {
    hide Backed, Balanced, ApplyAll;
    var q := ApplyAll(p, NackOps(w, nack, accepts));
    ResendsBalanced(w.slots, Selected(w, nack), accepts, p);
    ArqNacks.TouchAllKeeps(w, Selected(w, nack), clock);
    SamePacketsBalanced(w.slots, Nacked(w, nack, clock).slots, q);
    BalancedTrans(w.slots, p, w.slots, q, Nacked(w, nack, clock).slots, q);
  }

  lemma ExpireBalanced(w: Window, i: nat, now: u64, timeout: u64, accepted: bool, p: Pool)
    requires |w.slots| == WINDOW_SIZE && Backed(w.slots, p)
    ensures Balanced(w.slots, p, Expire(w, i, now, timeout).slots, ApplyAll(p, ExpireOps(w.slots[Slot(i)], accepted, now, timeout)))
  {
    hide Backed, Balanced, ApplyAll;
    var s, w' := Slot(i), Expire(w, i, now, timeout);
    var e, e' := w.slots[s], w'.slots[s];
    if !Expired(e, now, timeout) {
      ApplyNone(p);
      BalancedRefl(w.slots, p);
    } else if e.retryCount < MAX_RETRY_COUNT {
      var q := ApplyAll(p, ResendPacket(e, accepted));
      ResendBalanced(w.slots, s, accepted, p);
      SamePacketsBalanced(w.slots, w'.slots, q);
      BalancedTrans(w.slots, p, w.slots, q, w'.slots, q);
    } else {
      assert w'.slots == w.slots[s := e'];
      ReleaseBalanced(w.slots, s, e', p);
    }
  }

  lemma {:induction false} SweepBalanced(w: Window, i: nat, now: u64, timeout: u64, accepts: nat -> bool, p: Pool)
    requires |w.slots| == WINDOW_SIZE && Backed(w.slots, p)
    ensures Balanced(w.slots, p, SweptFrom(w, i, now, timeout).slots, ApplyAll(p, SweepOpsFrom(w, i, now, timeout, accepts)))
    decreases w.next - i
  {
    hide Backed, Balanced, ApplyAll, Expire, ExpireOps;
    if i >= w.next {
      ApplyNone(p);
      BalancedRefl(w.slots, p);
    } else {
      var w', ops := Expire(w, i, now, timeout), ExpireOps(w.slots[Slot(i)], accepts(i), now, timeout);
      var q := ApplyAll(p, ops);
      var rest := SweepOpsFrom(w', i + 1, now, timeout, accepts);
      ExpireBalanced(w, i, now, timeout, accepts(i), p);
      BalancedBacked(w.slots, p, w'.slots, q);
      ApplyConcat(p, ops, rest);
      SweepBalanced(w', i + 1, now, timeout, accepts, q);
      BalancedTrans(w.slots, p, w'.slots, q, SweptFrom(w', i + 1, now, timeout).slots, ApplyAll(q, rest));
    }
  }
}
