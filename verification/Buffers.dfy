/** Packet buffers and their reference counts.  A buffer is alive while its count is
    positive; the network card holds one reference for every transmission it has
    accepted and not yet completed. */
module Buffers {

  datatype Mbuf = Mbuf(id: nat)

  datatype Option<+T> = None | Some(value: T)

  /** `refs[m]` is the reference count of `m`, `pending[m]` how many of these references
      the network card holds.  `faults` counts uses of a buffer whose count was zero. */
  datatype Pool = Pool(refs: multiset<Mbuf>, pending: multiset<Mbuf>, faults: nat)

  datatype BufferOp =
    | Release(m: Mbuf)                      // give one reference back
    | Transmit(m: Mbuf, accepted: bool)     // add a reference, hand it to the card, take it back if refused
    | HandOver(m: Mbuf, accepted: bool)     // hand our own reference to the card, release it if refused

  function Dec(p: Pool, m: Mbuf): Pool {
    if m in p.refs then p.(refs := p.refs - multiset{m}) else p.(faults := p.faults + 1)
  }

  function Inc(p: Pool, m: Mbuf): Pool {
    if m in p.refs then p.(refs := p.refs + multiset{m}) else p.(faults := p.faults + 1)
  }

  function Queue(p: Pool, m: Mbuf): Pool {
    p.(pending := p.pending + multiset{m})
  }

  function Apply(p: Pool, op: BufferOp): Pool {
    match op
    case Release(m) => Dec(p, m)
    case Transmit(m, accepted) => if accepted then Queue(Inc(p, m), m) else Dec(Inc(p, m), m)
    case HandOver(m, accepted) => if accepted then Queue(p, m) else Dec(p, m)
  }

  function ApplyAll(p: Pool, ops: seq<BufferOp>): Pool
    decreases ops
  {
    if ops == [] then p else ApplyAll(Apply(p, ops[0]), ops[1..])
  }

  lemma {:induction false} ApplyConcat(p: Pool, a: seq<BufferOp>, b: seq<BufferOp>)
    ensures ApplyAll(p, a + b) == ApplyAll(ApplyAll(p, a), b)
    decreases a
  {
    if a == [] {
      assert a + b == b;
    } else {
      assert (a + b)[0] == a[0] && (a + b)[1..] == a[1..] + b;
      ApplyConcat(Apply(p, a[0]), a[1..], b);
    }
  }

  /** The card reports that one transmission of `m` is done. */
  function Complete(p: Pool, m: Mbuf): Pool
    requires m in p.pending
  {
    Dec(p.(pending := p.pending - multiset{m}), m)
  }

  /** A buffer fresh from the pool, as it comes with a received packet. */
  function Receive(p: Pool, m: Mbuf): Pool {
    p.(refs := p.refs + multiset{m})
  }

  class BufferPool {
    var refs: multiset<Mbuf>
    var pending: multiset<Mbuf>
    var faults: nat

    function View(): Pool
      reads this
    {
      Pool(refs, pending, faults)
    }

    constructor ()
      ensures View() == Pool(multiset{}, multiset{}, 0)
    {
      refs, pending, faults := multiset{}, multiset{}, 0;
    }

    method Free(m: Mbuf)
      modifies this
      ensures View() == Dec(old(View()), m)
    {
      if m in refs {
        refs := refs - multiset{m};
      } else {
        faults := faults + 1;
      }
    }

    method AddRef(m: Mbuf)
      modifies this
      ensures View() == Inc(old(View()), m)
    {
      if m in refs {
        refs := refs + multiset{m};
      } else {
        faults := faults + 1;
      }
    }

    /** One transmit burst of one packet; the card takes it or refuses it. */
    method TxBurst(m: Mbuf, accepted: bool) returns (sent: nat)
      modifies this
      ensures sent == if accepted then 1 else 0
      ensures View() == if accepted then Queue(old(View()), m) else old(View())
    {
      sent := 0;
      if accepted {
        pending := pending + multiset{m};
        sent := 1;
      }
    }

    /** A packet is received into a buffer of its own. */
    method Arrive(m: Mbuf)
      modifies this
      ensures View() == Receive(old(View()), m)
    {
      refs := refs + multiset{m};
    }

    /** A transmission is done and the card gives its reference back. */
    method TxDone(m: Mbuf)
      requires m in pending
      modifies this
      ensures View() == Complete(old(View()), m)
    {
      pending := pending - multiset{m};
      Free(m);
    }
  }
}
