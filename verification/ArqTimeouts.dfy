/** One timer sweep, whatever has been dropped before: every entry that has waited too long is
    dealt with once, although the range swept may pass over a slot more than once. */
module ArqTimeouts {
  import opened SerialNumbers
  import opened Buffers
  import opened ArqWindow

  /** What a sweep makes of one entry, wherever it sits. */
  function Aged(e: Entry, now: u64, timeout: u64): Entry {
    if !Expired(e, now, timeout) then e
    else if e.retryCount < MAX_RETRY_COUNT then e.(sendTime := now, retryCount := e.retryCount + 1)
    else e.(mbuf := None, inFlight := false)
  }

  /** An entry that has just been dealt with is not due again. */
  lemma AgedIsDone(e: Entry, now: u64, timeout: u64)
    ensures !Expired(Aged(e, now, timeout), now, timeout)
    ensures Aged(Aged(e, now, timeout), now, timeout) == Aged(e, now, timeout)
  {
    assert Elapsed(now, now) == 0;
  }

  lemma CoversFirst(i: nat, next: nat, s: nat)
    requires i < next
    ensures Covers(i, next, s) <==> s == Slot(i) || Covers(i + 1, next, s)
  {
    if s == Slot(i) {
      assert i <= i < next && Slot(i) == s;
    } else if Covers(i, next, s) {
      var j: nat :| i <= j < next && Slot(j) == s;
      assert i + 1 <= j < next && Slot(j) == s;
    }
  }

  lemma {:induction false} SweptFromExact(w: Window, i: nat, now: u64, timeout: u64, s: nat)
    requires |w.slots| == WINDOW_SIZE && s < WINDOW_SIZE
    ensures SweptFrom(w, i, now, timeout).slots[s]
         == if Covers(i, w.next, s) then Aged(w.slots[s], now, timeout) else w.slots[s]
    decreases w.next - i
  {
    hide Covers, Expired;
    if i < w.next {
      CoversFirst(i, w.next, s);
      AgedIsDone(w.slots[s], now, timeout);
      SweptFromExact(Expire(w, i, now, timeout), i + 1, now, timeout, s);
    } else {
      NothingCovered(i, w.next, s);
    }
  }

  lemma NothingCovered(i: nat, next: nat, s: nat)
    requires next <= i
    ensures !Covers(i, next, s)
  {
  }

  // ----- how many entries are due -----

  predicate ToRetry(e: Entry, now: u64, timeout: u64) {
    Expired(e, now, timeout) && e.retryCount < MAX_RETRY_COUNT
  }

  predicate ToDrop(e: Entry, now: u64, timeout: u64) {
    Expired(e, now, timeout) && e.retryCount >= MAX_RETRY_COUNT
  }

  function One(b: bool): nat {
    if b then 1 else 0
  }

  function DueRetries(slots: seq<Entry>, now: u64, timeout: u64): nat {
    if slots == [] then 0
    else DueRetries(slots[..|slots| - 1], now, timeout) + One(ToRetry(slots[|slots| - 1], now, timeout))
  }

  function DueDrops(slots: seq<Entry>, now: u64, timeout: u64): nat {
    if slots == [] then 0
    else DueDrops(slots[..|slots| - 1], now, timeout) + One(ToDrop(slots[|slots| - 1], now, timeout))
  }

  lemma {:induction false} DueUpdate(slots: seq<Entry>, s: nat, e: Entry, now: u64, timeout: u64)
    requires s < |slots|
    ensures DueRetries(slots[s := e], now, timeout) + One(ToRetry(slots[s], now, timeout))
         == DueRetries(slots, now, timeout) + One(ToRetry(e, now, timeout))
    ensures DueDrops(slots[s := e], now, timeout) + One(ToDrop(slots[s], now, timeout))
         == DueDrops(slots, now, timeout) + One(ToDrop(e, now, timeout))
  {
    hide ToRetry, ToDrop, One;
    var n := |slots| - 1;
    if s < n {
      DueUpdate(slots[..n], s, e, now, timeout);
      assert slots[s := e][..n] == slots[..n][s := e];
    } else {
      assert slots[s := e][..n] == slots[..n];
    }
  }

  lemma {:induction false} NothingDue(slots: seq<Entry>, now: u64, timeout: u64)
    requires forall s :: 0 <= s < |slots| ==> !Expired(slots[s], now, timeout)
    ensures DueRetries(slots, now, timeout) == 0 && DueDrops(slots, now, timeout) == 0
  {
    hide Expired;
    if slots != [] {
      NothingDue(slots[..|slots| - 1], now, timeout);
    }
  }

  /** Dealing with one entry moves it from "due" to "counted". */
  lemma ExpireCounts(w: Window, i: nat, now: u64, timeout: u64)
    requires |w.slots| == WINDOW_SIZE
    ensures var w' := Expire(w, i, now, timeout);
            && w'.totalRetransmit + DueRetries(w'.slots, now, timeout) == w.totalRetransmit + DueRetries(w.slots, now, timeout)
            && w'.totalTimeout + DueDrops(w'.slots, now, timeout) == w.totalTimeout + DueDrops(w.slots, now, timeout)
            && w' == w.(slots := w'.slots, totalRetransmit := w'.totalRetransmit, totalTimeout := w'.totalTimeout)
  {
    hide Expired, DueRetries, DueDrops;
    var e := w.slots[Slot(i)];
    AgedIsDone(e, now, timeout);
    DueUpdate(w.slots, Slot(i), Aged(e, now, timeout), now, timeout);
  }

  lemma {:induction false} SweepCounts(w: Window, i: nat, now: u64, timeout: u64)
    requires |w.slots| == WINDOW_SIZE
    ensures var w' := SweptFrom(w, i, now, timeout);
            && w'.totalRetransmit + DueRetries(w'.slots, now, timeout) == w.totalRetransmit + DueRetries(w.slots, now, timeout)
            && w'.totalTimeout + DueDrops(w'.slots, now, timeout) == w.totalTimeout + DueDrops(w.slots, now, timeout)
            && w' == w.(slots := w'.slots, totalRetransmit := w'.totalRetransmit, totalTimeout := w'.totalTimeout)
    decreases w.next - i
  {
    hide DueRetries, DueDrops, Expire;
    if i < w.next {
      ExpireCounts(w, i, now, timeout);
      SweepCounts(Expire(w, i, now, timeout), i + 1, now, timeout);
    }
  }

  // ----- the whole sweep -----

  /** A sweep ages every slot exactly once and adds the number of entries due for a retry, and
      due to be dropped, to the two counters; nothing else changes. */
  lemma SweptExact(w: Window, now: u64, timeout: u64)
    requires Sound(w)
    ensures var w' := Swept(w, now, timeout);
            && (forall s :: 0 <= s < WINDOW_SIZE ==> w'.slots[s] == Aged(w.slots[s], now, timeout))
            && w' == w.(slots := w'.slots,
                        totalRetransmit := w.totalRetransmit + DueRetries(w.slots, now, timeout),
                        totalTimeout := w.totalTimeout + DueDrops(w.slots, now, timeout))
  {
    var w' := Swept(w, now, timeout);
    forall s | 0 <= s < WINDOW_SIZE ensures w'.slots[s] == Aged(w.slots[s], now, timeout) {
      hide Covers;
      SweptFromExact(w, w.base, now, timeout, s);
    }
    hide Expired, Aged, Sound;
    forall s | 0 <= s < WINDOW_SIZE ensures !Expired(w'.slots[s], now, timeout) {
      AgedIsDone(w.slots[s], now, timeout);
    }
    SweepCounts(w, w.base, now, timeout);
    NothingDue(w'.slots, now, timeout);
  }

  /** A second sweep at the same time finds nothing to do. */
  lemma SweepIdempotent(w: Window, now: u64, timeout: u64)
    requires Sound(w)
    ensures Swept(Swept(w, now, timeout), now, timeout) == Swept(w, now, timeout)
  {
    var w' := Swept(w, now, timeout);
    SweptStaysSound(w, now, timeout);
    hide Swept, SweptFrom, Aged, Expired, Covers;
    SweptExact(w, now, timeout);
    SweptExact(w', now, timeout);
    forall s | 0 <= s < WINDOW_SIZE
      ensures !Expired(w'.slots[s], now, timeout) && Swept(w', now, timeout).slots[s] == w'.slots[s]
    {
      AgedIsDone(w.slots[s], now, timeout);
    }
    NothingDue(w'.slots, now, timeout);
    assert Swept(w', now, timeout).slots == w'.slots;
  }

  lemma SweptStaysSound(w: Window, now: u64, timeout: u64)
    requires Sound(w)
    ensures Sound(Swept(w, now, timeout))
    ensures |w.slots| == WINDOW_SIZE == |Swept(w, now, timeout).slots|
  {
    SweptSound(w, w.base, now, timeout);
  }
}
