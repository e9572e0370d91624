/** The extension of a wrapping 32-bit millisecond counter to a 64-bit one. */
module MillisClock {
  import opened Octets

  type u64 = n: int | 0 <= n < 0x1_0000_0000_0000_0000

  const WRAP32: nat := 0x1_0000_0000
  const WRAP64: nat := 0x1_0000_0000_0000_0000

  /** What the counter shows at true time `t`. */
  function Sample(t: u64): u32 {
    t % WRAP32
  }

  /** The unsigned 64-bit difference. */
  function Elapsed(now: int, since: int): nat {
    (now - since) % WRAP64
  }

  datatype Clock = Clock(nowMs: u64, lastMs: u32, hasObservation: bool)

  const UNOBSERVED := Clock(0, 0, false)

  function Observed(c: Clock, sample: u32): Clock {
    Clock(if c.hasObservation then (c.nowMs + (sample - c.lastMs) % WRAP32) % WRAP64 else sample, sample, true)
  }

  function Expanded(c: Clock, sample: u32): u64 {
    if c.hasObservation then (c.nowMs + (sample - c.lastMs) % WRAP32) % WRAP64 else sample
  }

  class LegacyMillisClock {
    var nowMs: u64
    var lastMs: u32
    var hasObservation: bool

    constructor ()
      ensures State() == UNOBSERVED
    {
      nowMs, lastMs, hasObservation := 0, 0, false;
    }

    function State(): Clock
      reads this
    {
      Clock(nowMs, lastMs, hasObservation)
    }

    method Observe(sample: u32)
      modifies this
      ensures State() == Observed(old(State()), sample)
    {
      if !hasObservation {
        nowMs := sample;
        hasObservation := true;
      } else {
        nowMs := (nowMs + (sample - lastMs) % WRAP32) % WRAP64;
      }
      lastMs := sample;
    }
  }

  /** The extended clock runs `offset` behind true time; its last observation was at `t`. */
  predicate Tracks(c: Clock, t: u64, offset: nat) {
    c.hasObservation && c.nowMs + offset == t && c.lastMs == Sample(t)
  }

  lemma FirstObservation(c: Clock, t: u64)
    requires !c.hasObservation
    ensures Tracks(Observed(c, Sample(t)), t, t - Sample(t))
  {
  }

  lemma SampleDifference(t: u64, later: u64)
    requires t <= later
    ensures (Sample(later) - Sample(t)) % WRAP32 == (later - t) % WRAP32
  {
    var a, b := t / WRAP32, later / WRAP32;
    assert t == a * WRAP32 + Sample(t) && later == b * WRAP32 + Sample(later);
    assert later - t == (Sample(later) - Sample(t)) + (b - a) * WRAP32;
  }

  /** An observation keeps the offset exactly when less than one full cycle has passed. */
  lemma ObservationExact(c: Clock, t: u64, offset: nat, later: u64)
    requires Tracks(c, t, offset) && t <= later
    ensures Tracks(Observed(c, Sample(later)), later, offset) <==> later - t < WRAP32
    ensures later - t < WRAP32 ==> Expanded(c, Sample(later)) + offset == later
  {
    SampleDifference(t, later);
    assert c.nowMs + (later - t) % WRAP32 <= later;
  }

  /** Differences of observed times do not see the offset. */
  lemma ElapsedShift(now: int, since: int, offset: int)
    ensures Elapsed(now + offset, since + offset) == Elapsed(now, since)
  {
  }
}
