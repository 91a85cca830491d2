/** The congestion flag with its two watermarks, and the pacing of congestion
    notification packets (CNPs) per flow. */
module Congestion {
  import opened SerialNumbers

  const BUFFER_HIGH_WATER := 80
  const BUFFER_LOW_WATER := 60
  const CNP_TIMER_US := 50

  datatype Control = Control(usagePercent: u32, highWaterMark: u32, lowWaterMark: u32,
                             cnpTimerCycles: u64, detected: bool, totalCnpSent: nat)

  /** The percentage as 32-bit arithmetic computes it: the product wraps. */
  function Percent(used: u32, total: u32): (p: u32)
    requires total > 0
  {
    ((used * 100) % 0x1_0000_0000) / total
  }

  /** The flag after one reading: at or above the high mark sets it, otherwise at or below the
      low mark clears it, otherwise it stays. */
  function Detect(flag: bool, high: u32, low: u32, percent: u32): bool {
    if percent >= high then true else if percent <= low then false else flag
  }

  function Checked(c: Control, used: u32, total: u32): Control {
    if total == 0 then c
    else
      var p := Percent(used, total);
      c.(usagePercent := p, detected := Detect(c.detected, c.highWaterMark, c.lowWaterMark, p))
  }

  function Initial(high: u32, low: u32, timerHz: u64): Control {
    Control(0, if high > 0 then high else BUFFER_HIGH_WATER, if low > 0 then low else BUFFER_LOW_WATER,
            ((timerHz * CNP_TIMER_US) % 0x1_0000_0000_0000_0000) / 1000000, false, 0)
  }

  /** 64-bit unsigned comparison of the time since the last CNP with the pacing interval. */
  predicate CnpDue(c: Control, last: u64, now: u64) {
    (now - last) % 0x1_0000_0000_0000_0000 >= c.cnpTimerCycles
  }

  class CongestionControl {
    var usagePercent: u32
    var highWaterMark: u32
    var lowWaterMark: u32
    var cnpTimerCycles: u64
    var congestionDetected: bool
    var totalCnpSent: nat

    function View(): Control
      reads this
    {
      Control(usagePercent, highWaterMark, lowWaterMark, cnpTimerCycles, congestionDetected, totalCnpSent)
    }

    constructor (high: u32, low: u32, timerHz: u64)
      ensures View() == Initial(high, low, timerHz)
    {
      usagePercent := 0;
      highWaterMark := if high > 0 then high else BUFFER_HIGH_WATER;
      lowWaterMark := if low > 0 then low else BUFFER_LOW_WATER;
      cnpTimerCycles := ((timerHz * CNP_TIMER_US) % 0x1_0000_0000_0000_0000) / 1000000;
      congestionDetected := false;
      totalCnpSent := 0;
    }

    method CheckBuffer(used: u32, total: u32) returns (status: int)
      modifies this`usagePercent, this`congestionDetected
      ensures View() == Checked(old(View()), used, total)
      ensures status == if total > 0 && congestionDetected then 1 else 0
    {
      if total == 0 {
        return 0;
      }
      usagePercent := Percent(used, total);
      if usagePercent >= highWaterMark {
        congestionDetected := true;
        return 1;
      }
      if usagePercent <= lowWaterMark {
        congestionDetected := false;
      }
      return if congestionDetected then 1 else 0;
    }
  }

  // ----- the settings -----

  /** Marks of 0 become 80 for the high and 60 for the low one; the pacing interval is 50 microseconds
      of the timer, rounded down to whole cycles, as long as 50 seconds of it fit 64 bits. */
  lemma InitialSettings(high: u32, low: u32, timerHz: u64)
    ensures var c := Initial(high, low, timerHz);
            && c.highWaterMark == (if high == 0 then 80 else high) && c.lowWaterMark == (if low == 0 then 60 else low)
            && !c.detected && c.usagePercent == 0 && c.totalCnpSent == 0
            && (timerHz * 50 < 0x1_0000_0000_0000_0000 ==>
                  c.cnpTimerCycles * 1_000_000 <= timerHz * 50 < (c.cnpTimerCycles + 1) * 1_000_000)
  {
    var cycles := timerHz * 50;
    assert cycles == cycles / 1000000 * 1000000 + cycles % 1000000;
  }

  // ----- hysteresis -----

  /** The flag after a sequence of readings that started with it clear. */
  function FlagAfter(high: u32, low: u32, readings: seq<u32>): bool {
    if readings == [] then false
    else Detect(FlagAfter(high, low, readings[..|readings| - 1]), high, low, readings[|readings| - 1])
  }

  ghost predicate RaisedAt(high: u32, low: u32, readings: seq<u32>, i: int) {
    && 0 <= i < |readings|
    && readings[i] >= high
    && forall j :: i < j < |readings| ==> !(readings[j] <= low && readings[j] < high)
  }

  /** For any two marks: the flag is set exactly when some reading reached the high mark and no
      later reading was at or below the low mark without also reaching the high one. */
  lemma {:induction false} HysteresisExact(high: u32, low: u32, readings: seq<u32>)
    ensures FlagAfter(high, low, readings) <==> exists i :: RaisedAt(high, low, readings, i)
  {
    if readings != [] {
      var n := |readings| - 1;
      var front := readings[..n];
      HysteresisExact(high, low, front);
      if readings[n] >= high {
        assert RaisedAt(high, low, readings, n);
      }
      if i :| RaisedAt(high, low, front, i) {
        if !(readings[n] <= low && readings[n] < high) {
          assert RaisedAt(high, low, readings, i);
        }
      }
      if i :| RaisedAt(high, low, readings, i) {
        if i < n {
          assert RaisedAt(high, low, front, i);
        }
      }
    }
  }

  /** With the low mark below the high one: set iff some reading at or above the high mark has
      occurred since the last one at or below the low mark. */
  lemma {:induction false} Hysteresis(high: u32, low: u32, readings: seq<u32>)
    requires low < high
    ensures FlagAfter(high, low, readings)
       <==> exists i :: 0 <= i < |readings| && readings[i] >= high && forall j :: i < j < |readings| ==> readings[j] > low
  {
    HysteresisExact(high, low, readings);
    if FlagAfter(high, low, readings) {
      var i :| RaisedAt(high, low, readings, i);
      assert forall j :: i < j < |readings| ==> readings[j] > low;
    }
    if i :| 0 <= i < |readings| && readings[i] >= high && forall j :: i < j < |readings| ==> readings[j] > low {
      assert RaisedAt(high, low, readings, i);
    }
  }

  /** As long as no more is used than there is, the product does not wrap and the percentage
      is the true one, at most 100. */
  lemma PercentExact(used: u32, total: u32)
    requires 0 < total && used <= total && total * 100 < 0x1_0000_0000
    ensures Percent(used, total) == used * 100 / total <= 100
  {
    var q := used * 100 / total;
    assert used * 100 < 0x1_0000_0000;
    assert q * total <= used * 100 <= 100 * total;
    AtMostHundred(q, total);
  }

  lemma AtMostHundred(q: nat, total: nat)
    ensures 0 < total && q * total <= 100 * total ==> q <= 100
  {
    if q > 100 {
      assert q * total == 101 * total + (q - 101) * total;
    }
  }
}
