/** One finished quarter from power samples, under a sampling policy (sampling.go). */
module Quarters {
  import opened Reals
  import opened Samples
  import opened Coverage
  import opened PowerIntervals

  const SECOND := 1_000_000_000
  const SLACK: real := 0.000000001

  datatype SamplingPolicy = SamplingPolicy(interval: int, maxHold: int, minCoverage: real)

  /** `DefaultSamplingPolicy`: one missed sample is forgiven, two are not. */
  function DefaultPolicy(interval: int): SamplingPolicy {
    var step := if interval <= 0 then 30 * SECOND else interval;
    SamplingPolicy(step, 2 * step, 0.9)
  }

  /** Whatever is configured, samples hold for a positive time and the threshold is a positive fraction. A
      policy that means something is kept, and a blank one becomes the default. */
  function Normalized(p: SamplingPolicy): (n: SamplingPolicy)
    ensures n.interval > 0 && n.maxHold > 0 && 0.0 < n.minCoverage <= 1.0
    ensures n == p <==> p.interval > 0 && p.maxHold > 0 && 0.0 < p.minCoverage <= 1.0
    ensures p.maxHold == 0 && p.minCoverage == 0.0 ==> n == DefaultPolicy(p.interval)
  {
    var interval := if p.interval <= 0 then 30 * SECOND else p.interval;
    SamplingPolicy(
      interval,
      if p.maxHold <= 0 then 2 * interval else p.maxHold,
      if p.minCoverage <= 0.0 || p.minCoverage > 1.0 then 0.9 else p.minCoverage)
  }

  /** The instants vouched for reach the threshold, up to the slack for rounding. */
  ghost predicate Vouched(samples: seq<Sample>, start: int, policy: SamplingPolicy) {
    CoveredCount(samples, policy.maxHold, start, start + QUARTER) as real
    >= (policy.minCoverage - SLACK) * QUARTER as real
  }

  ghost predicate SampledIn(samples: seq<Sample>, start: int) {
    exists i :: 0 <= i < |samples| && start <= samples[i].at < start + QUARTER
  }

  /** What is published instead of a value that cannot be vouched for. */
  ghost predicate Degraded(q: Interval, samples: seq<Sample>, start: int, staleReadings: int) {
    && q.startsAt == start && q.kwh == 0.0 && q.kw == 0.0
    && q.quality == if !SampledIn(samples, start) && staleReadings > 0 then Stale else Gap
  }

  method CountInWindow(samples: seq<Sample>, start: int) returns (count: nat)
    ensures count > 0 <==> SampledIn(samples, start)
  {
    count := 0;
    for i := 0 to |samples|
      invariant count > 0 <==> exists k :: 0 <= k < i && start <= samples[k].at < start + QUARTER
    {
      if start <= samples[i].at && samples[i].at < start + QUARTER { count := count + 1; }
    }
  }

  /** A running quarter is never written. A finished one is never called measured, and it carries a value
      only if its instants are vouched for, the power at its start is known and no reading in it is invalid;
      the value is then the energy of the step function. */
  method QuarterFromPowerSamples(samples: seq<Sample>, at: int, now: int, zone: int -> int, staleReadings: int,
                                 given: SamplingPolicy)
    returns (q: Interval, finished: bool, ghost ordered: seq<Sample>)
    ensures var start := QuarterStart(at, zone); finished <==> start + QUARTER <= now
    ensures finished ==> q.startsAt == QuarterStart(at, zone) && q.quality != Measured
    ensures finished && (q.kwh != 0.0 || q.kw != 0.0) ==> q.quality == Estimated
    ensures var start := QuarterStart(at, zone);
            finished && !(Vouched(samples, start, Normalized(given)) && QuarterStart(start, zone) == start) ==>
              Degraded(q, samples, start, staleReadings)
    ensures var start := QuarterStart(at, zone);
            finished && Vouched(samples, start, Normalized(given)) && QuarterStart(start, zone) == start ==>
              && InTimeOrder(ordered) && Rearranged(samples, ordered)
              && if Usable(ordered, start) && !Disturbed(ordered, start, start + QUARTER) then
                   q.quality == Estimated && q.kwh == EnergyOver(ordered, start, start + QUARTER)
                     && q.kw * Hours(QUARTER) == q.kwh
                 else q.kwh == 0.0 && q.kw == 0.0 && q.quality == if Usable(ordered, start) then Conflict else Gap
  {
    hide Usable, Disturbed, EnergyOver, InTimeOrder, CoveredCount, SampledIn, Hours;
    var policy := Normalized(given);
    var start := QuarterStart(at, zone);
    var end := start + QUARTER;
    ordered := [];
    if end > now {
      return Interval(start, 0.0, 0.0, Gap), false, [];
    }
    finished := true;
    var inWindow := CountInWindow(samples, start);
    var degraded := Interval(start, 0.0, 0.0, if inWindow == 0 && staleReadings > 0 then Stale else Gap);
    var coverage := PowerSampleCoverage(samples, start, end, policy.maxHold);
    CoverageMeansVouched(samples, start, policy, coverage);
    if coverage < policy.minCoverage - SLACK {
      return degraded, true, [];
    }
    var quarters;
    quarters, ordered := AggregatePowerIntervals(samples, start, end, zone);
    if |quarters| != 1 {
      return degraded, true, ordered;
    }
    q := quarters[0];
    assert QuarterOf(ordered, q);
    match q.quality {
      case Measured => q := q.(quality := Estimated);
      case Gap => q := q.(kwh := 0.0, kw := 0.0);
      case Conflict => q := q.(kwh := 0.0, kw := 0.0);
      case _ =>
    }
  }

  lemma CoverageMeansVouched(samples: seq<Sample>, start: int, policy: SamplingPolicy, coverage: real)
    requires coverage * (start + QUARTER - start) as real
             == CoveredCount(samples, policy.maxHold, start, start + QUARTER) as real
    ensures Vouched(samples, start, policy) <==> coverage >= policy.minCoverage - SLACK
  {
    hide CoveredCount;
    assert start + QUARTER - start == QUARTER;
    var bound := policy.minCoverage - SLACK;
    if coverage >= bound { ProductOrder(bound, coverage, QUARTER as real); }
    if coverage * QUARTER as real >= bound * QUARTER as real { ProductCancel(bound, coverage, QUARTER as real); }
  }
}
