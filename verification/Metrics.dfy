/** The round-trip time average, in microseconds and 64-bit arithmetic. */
module Metrics {

  const U64_MODULUS := 0x1_0000_0000_0000_0000
  type u64 = x: int | 0 <= x < 0x1_0000_0000_0000_0000

  /** The values up to which no step of the average overflows. */
  const SAFE: u64 := 0x1000_0000_0000_0000

  const INITIAL_RTT: u64 := 300_000

  function Wrap(x: nat): u64 {
    x % U64_MODULUS
  }

  function NextRtt(rtt: u64, sample: u64): u64 {
    Wrap(Wrap(rtt * 7) + sample) / 8
  }

  function Distance(a: u64, b: u64): u64 {
    if a > b then a - b else b - a
  }

  function NextVariance(variance: u64, diff: u64): u64 {
    Wrap(Wrap(variance * 3) + diff) / 4
  }

  /** The average and the variance after a run of samples. */
  function AfterSamples(rtt: u64, variance: u64, samples: seq<u64>): (u64, u64)
    decreases |samples|
  {
    if samples == [] then (rtt, variance)
    else AfterSamples(NextRtt(rtt, samples[0]), NextVariance(variance, Distance(samples[0], rtt)), samples[1..])
  }

  /** The same with unbounded integers. */
  function Exactly(rtt: nat, variance: nat, samples: seq<u64>): (nat, nat)
    decreases |samples|
  {
    if samples == [] then (rtt, variance)
    else
      var s := samples[0];
      Exactly((rtt * 7 + s) / 8, (variance * 3 + if s > rtt then s - rtt else rtt - s) / 4, samples[1..])
  }

  lemma RttInRange(rtt: u64, s: u64, lo: u64, hi: u64)
    requires lo <= rtt <= hi <= SAFE && lo <= s <= hi
    ensures NextRtt(rtt, s) == (rtt * 7 + s) / 8 && lo <= NextRtt(rtt, s) <= hi
  {
  }

  lemma VarianceInRange(variance: u64, diff: u64, width: u64)
    requires variance <= width <= SAFE && diff <= width
    ensures NextVariance(variance, diff) == (variance * 3 + diff) / 4 <= width
  {
  }

  /** The first sample, in both arithmetics. */
  lemma OneSample(rtt: u64, variance: u64, samples: seq<u64>, lo: u64, hi: u64) returns (r: u64, v: u64)
    requires samples != [] && lo <= rtt <= hi <= SAFE && variance <= hi - lo && lo <= samples[0] <= hi
    ensures lo <= r <= hi && v <= hi - lo
    ensures AfterSamples(rtt, variance, samples) == AfterSamples(r, v, samples[1..])
    ensures Exactly(rtt, variance, samples) == Exactly(r, v, samples[1..])
  {
    var s := samples[0];
    var diff: u64 := if s > rtt then s - rtt else rtt - s;
    RttInRange(rtt, s, lo, hi);
    VarianceInRange(variance, diff, hi - lo);
    r, v := NextRtt(rtt, s), NextVariance(variance, diff);
  }

  /** Samples within bounds keep an average already within them there for ever, and the
      variance below the width of the bounds; nothing overflows: the results are those of
      unbounded arithmetic. */
  lemma {:induction false} StaysInRange(rtt: u64, variance: u64, samples: seq<u64>, lo: u64, hi: u64)
    requires lo <= rtt <= hi <= SAFE && variance <= hi - lo
    requires forall i :: 0 <= i < |samples| ==> lo <= samples[i] <= hi
    ensures var (r, v) := AfterSamples(rtt, variance, samples); lo <= r <= hi && v <= hi - lo
    ensures AfterSamples(rtt, variance, samples) == Exactly(rtt, variance, samples)
    decreases |samples|
  {
    if samples != [] {
      var r, v := OneSample(rtt, variance, samples, lo, hi);
      StaysInRange(r, v, samples[1..], lo, hi);
    }
  }

  /** The average after `k` equal samples. */
  function Constant(rtt: u64, sample: u64, k: nat): u64
    decreases k
  {
    if k == 0 then rtt else Constant(NextRtt(rtt, sample), sample, k - 1)
  }

  /** One step towards a sample: strictly closer, unless the average is there or less than
      eight below; it does not cross over. */
  lemma StepTowards(rtt: u64, sample: u64)
    requires rtt <= SAFE && sample <= SAFE
    ensures var next := NextRtt(rtt, sample);
            && (rtt >= sample ==> sample <= next <= rtt && (rtt > sample ==> next < rtt))
            && (rtt < sample ==> rtt <= next < sample)
            && (rtt + 8 <= sample ==> rtt < next)
            && (rtt < sample < rtt + 8 ==> next == rtt)
  {
    RttInRange(rtt, sample, 0, SAFE);
    Eighth(rtt * 7 + sample);
  }

  lemma Eighth(x: nat)
    ensures 8 * (x / 8) <= x < 8 * (x / 8) + 8
  {
  }

  /** Under a constant sample the average settles after at most the initial distance in steps:
      on the sample itself when it starts at or above it, and otherwise less than eight
      microseconds below it. */
  lemma {:induction false} Settles(rtt: u64, sample: u64, k: nat)
    requires rtt <= SAFE && sample <= SAFE && k >= Distance(rtt, sample)
    ensures var r := Constant(rtt, sample, k);
            if rtt >= sample then r == sample else sample - 8 < r < sample
    decreases k
  {
    StepTowards(rtt, sample);
    var next := NextRtt(rtt, sample);
    if k == 0 {
    } else if rtt < sample < rtt + 8 {
      Stuck(rtt, sample, k);
    } else {
      Settles(next, sample, k - 1);
    }
  }

  /** Within eight microseconds below the sample the average does not move again. */
  lemma {:induction false} Stuck(rtt: u64, sample: u64, k: nat)
    requires sample <= SAFE && rtt <= sample < rtt + 8
    ensures Constant(rtt, sample, k) == rtt
  {
    StepTowards(rtt, sample);
    if k > 0 {
      Stuck(rtt, sample, k - 1);
    }
  }

  lemma {:induction false} StaysBelow(rtt: u64, sample: u64, k: nat)
    requires rtt < sample <= SAFE
    ensures Constant(rtt, sample, k) < sample
    decreases k
  {
    if k > 0 {
      StepTowards(rtt, sample);
      StaysBelow(NextRtt(rtt, sample), sample, k - 1);
    }
  }

  /** The average ever reaches a constant sample if and only if it does not start below it. */
  lemma ReachesExactly(rtt: u64, sample: u64)
    requires rtt <= SAFE && sample <= SAFE
    ensures (exists k :: Constant(rtt, sample, k) == sample) <==> rtt >= sample
  {
    if rtt >= sample {
      Settles(rtt, sample, Distance(rtt, sample));
    } else {
      forall k: nat ensures Constant(rtt, sample, k) != sample {
        StaysBelow(rtt, sample, k);
      }
    }
  }

  class ConnectionMetrics {
    var rtt: u64
    var rttVar: u64

    constructor ()
      ensures rtt == INITIAL_RTT && rttVar == 0
    {
      rtt, rttVar := INITIAL_RTT, 0;
    }

    method UpdateRtt(sample: u64)
      modifies this
      ensures rtt == NextRtt(old(rtt), sample)
      ensures rttVar == NextVariance(old(rttVar), Distance(sample, old(rtt)))
    {
      var oldRtt := rtt;
      rtt := Wrap(Wrap(oldRtt * 7) + sample) / 8;
      var diff := if sample > oldRtt then sample - oldRtt else oldRtt - sample;
      rttVar := Wrap(Wrap(rttVar * 3) + diff) / 4;
    }
  }
}
