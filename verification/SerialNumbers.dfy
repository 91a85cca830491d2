/** 24-bit packet sequence numbers and the forward distance between them. */
module SerialNumbers {

  type u8 = x: int | 0 <= x < 0x100
  type u32 = x: int | 0 <= x < 0x1_0000_0000
  type u64 = x: int | 0 <= x < 0x1_0000_0000_0000_0000

  const MAX_PSN := 0x100_0000
  /** Half the number space: what is nearer than this, going forward, is "not before". */
  const HALF := 0x80_0000

  /** The low 24 bits. */
  function Masked24(x: u32): u32 {
    x % MAX_PSN
  }

  function ForwardDist(from: u32, to: u32): (d: u32)
    ensures 0 <= d < MAX_PSN
  {
    var f, t := Masked24(from), Masked24(to);
    if t >= f then t - f else MAX_PSN - f + t
  }

  /** The PSN `k` places after `p`. */
  function Advance(p: u32, k: nat): (q: u32)
    ensures q < MAX_PSN
  {
    (p + k) % MAX_PSN
  }

  /** The distance is the difference modulo 2^24. */
  lemma DistIsModular(from: u32, to: u32)
    ensures ForwardDist(from, to) == (to - from) % 0x100_0000
  {
  }

  /** Moving the start forward by `k` shortens the distance by `k`, around the circle. */
  lemma DistFromAdvanced(p: u32, k: nat, to: u32)
    requires k < MAX_PSN
    ensures ForwardDist(Advance(p, k), to)
         == if k <= ForwardDist(p, to) then ForwardDist(p, to) - k else ForwardDist(p, to) - k + MAX_PSN
  {
    DistIsModular(p, to);
    DistIsModular(Advance(p, k), to);
  }

  lemma AdvanceTwice(p: u32, j: nat, k: nat)
    ensures Advance(Advance(p, j), k) == Advance(p, j + k)
  {
  }

  lemma DistToAdvanced(p: u32, k: nat)
    requires k < MAX_PSN
    ensures ForwardDist(p, Advance(p, k)) == k
  {
    DistIsModular(p, Advance(p, k));
  }

  /** The distance determines the PSN reached. */
  lemma AdvanceByDist(p: u32, q: u32)
    ensures Advance(p, ForwardDist(p, q)) == Masked24(q)
  {
    DistIsModular(p, q);
  }

  /** Only the low 24 bits of either argument matter. */
  lemma DistMasked(p: u32, p': u32, q: u32, q': u32)
    requires Masked24(p) == Masked24(p') && Masked24(q) == Masked24(q')
    ensures ForwardDist(p, q) == ForwardDist(p', q')
  {
  }
}
