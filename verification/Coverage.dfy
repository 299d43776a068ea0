/** How much of a quarter the samples vouch for (sampling.go). */
module Coverage {
  import opened Basics
  import opened Samples

  /** The instant t is vouched for: some sample was taken at most `hold` before it. */
  ghost predicate Covered(samples: seq<Sample>, hold: int, t: int) {
    exists i :: 0 <= i < |samples| && samples[i].at <= t < samples[i].at + hold
  }

  /** How many instants of [lo, hi) are vouched for. */
  ghost function CoveredCount(samples: seq<Sample>, hold: int, lo: int, hi: int): nat
    decreases hi - lo
  {
    if hi <= lo then 0 else CoveredCount(samples, hold, lo, hi - 1) + if Covered(samples, hold, hi - 1) then 1 else 0
  }

  lemma {:induction false} CountSplits(samples: seq<Sample>, hold: int, lo: int, mid: int, hi: int)
    requires lo <= mid <= hi
    ensures CoveredCount(samples, hold, lo, hi)
            == CoveredCount(samples, hold, lo, mid) + CoveredCount(samples, hold, mid, hi)
    decreases hi - mid
  {
    hide Covered;
    if mid < hi { CountSplits(samples, hold, lo, mid, hi - 1); }
  }

  lemma {:induction false} CountUniform(samples: seq<Sample>, hold: int, lo: int, hi: int, covered: bool)
    requires lo <= hi && forall t :: lo <= t < hi ==> Covered(samples, hold, t) == covered
    ensures CoveredCount(samples, hold, lo, hi) == if covered then hi - lo else 0
    decreases hi - lo
  {
    hide Covered;
    if lo < hi { CountUniform(samples, hold, lo, hi - 1, covered); }
  }

  lemma {:induction false} CountBound(samples: seq<Sample>, hold: int, lo: int, hi: int)
    requires lo <= hi
    ensures CoveredCount(samples, hold, lo, hi) <= hi - lo
    decreases hi - lo
  {
    hide Covered;
    if lo < hi { CountBound(samples, hold, lo, hi - 1); }
  }

  /** Order and multiplicity of the samples make no difference. */
  lemma {:induction false} CountIgnoresOrder(s: seq<Sample>, t: seq<Sample>, hold: int, lo: int, hi: int)
    requires Rearranged(s, t)
    ensures CoveredCount(s, hold, lo, hi) == CoveredCount(t, hold, lo, hi)
    decreases hi - lo
  {
    if lo < hi {
      CountIgnoresOrder(s, t, hold, lo, hi - 1);
      RearrangedMembers(s, t);
      var x := hi - 1;
      assert (exists y :: y in s && y.at <= x < y.at + hold) <==> (exists y :: y in t && y.at <= x < y.at + hold);
      assert Covered(s, hold, x) <==> (exists y :: y in s && y.at <= x < y.at + hold);
      assert Covered(t, hold, x) <==> (exists y :: y in t && y.at <= x < y.at + hold);
    }
  }

  /** Between a sample and the next one, an instant is vouched for by the sample alone. */
  lemma CoveredBetween(ordered: seq<Sample>, hold: int, i: int, t: int)
    requires InTimeOrder(ordered) && 0 <= i < |ordered| && ordered[i].at <= t
    requires i + 1 < |ordered| ==> t < ordered[i + 1].at
    ensures Covered(ordered, hold, t) <==> t < ordered[i].at + hold
  {
  }

  function Clamp(t: int, start: int, end: int): int {
    Max(start, Min(t, end))
  }

  /** What one sample adds to the count: the time up to the next sample, at most `hold`, inside the window. */
  lemma SampleAdds(ordered: seq<Sample>, hold: int, i: int, next: int, start: int, end: int)
    requires InTimeOrder(ordered) && 0 <= i < |ordered| && start < end && hold > 0 && ordered[i].at < end
    requires next == if i + 1 < |ordered| then Clamp(ordered[i + 1].at, start, end) else end
    ensures var from := Clamp(ordered[i].at, start, end);
            var to := Min(ordered[i].at + hold, next);
            CoveredCount(ordered, hold, start, next) == CoveredCount(ordered, hold, start, from) + Max(0, to - from)
  {
    var from := Clamp(ordered[i].at, start, end);
    var to := Clamp(Min(ordered[i].at + hold, next), from, next);
    assert start <= from <= next <= end;
    CountSplits(ordered, hold, start, from, next);
    CountSplits(ordered, hold, from, to, next);
    forall t | from <= t < next ensures Covered(ordered, hold, t) <==> t < ordered[i].at + hold {
      CoveredBetween(ordered, hold, i, t);
    }
    CountUniform(ordered, hold, from, to, true);
    CountUniform(ordered, hold, to, next, false);
  }

  /** Where the sample at `index` begins to count, or the window's end. */
  function NextStart(ordered: seq<Sample>, index: nat, start: int, end: int): int {
    if index < |ordered| then Clamp(ordered[index].at, start, end) else end
  }

  /** The loop over the sorted samples. */
  method CoveredTime(ordered: seq<Sample>, start: int, end: int, maxHold: int) returns (covered: int)
    requires InTimeOrder(ordered) && ordered != [] && start < end && maxHold > 0
    ensures covered == CoveredCount(ordered, maxHold, start, end)
  {
    hide Covered, CoveredCount, InTimeOrder;
    BeforeFirst(ordered, maxHold, start, Clamp(ordered[0].at, start, end));
    covered := 0;
    for index := 0 to |ordered|
      invariant covered == CoveredCount(ordered, maxHold, start, NextStart(ordered, index, start, end))
    {
      var from := if ordered[index].at < start then start else ordered[index].at;
      if from >= end { return; }
      var to := ordered[index].at + maxHold;
      if index + 1 < |ordered| && ordered[index + 1].at < to { to := ordered[index + 1].at; }
      if to > end { to := end; }
      SampleAdds(ordered, maxHold, index, NextStart(ordered, index + 1, start, end), start, end);
      if to > from { covered := covered + (to - from); }
    }
  }

  lemma FractionOf(part: int, total: int)
    requires 0 <= part <= total && 0 < total
    ensures part as real / total as real * total as real == part as real
    ensures 0.0 <= part as real / total as real <= 1.0
  {
  }

  /** The result is exactly the fraction of the window's instants that some sample vouches for; so it is a
      fraction, and the clamp before the division never has anything to do. */
  method PowerSampleCoverage(samples: seq<Sample>, start: int, end: int, maxHold: int) returns (r: real)
    ensures end <= start ==> r == 0.0
    ensures start < end ==> r * (end - start) as real == CoveredCount(samples, maxHold, start, end) as real
    ensures 0.0 <= r <= 1.0
  {
    hide Covered, CoveredCount;
    var total := end - start;
    if total <= 0 || maxHold <= 0 || samples == [] {
      NothingCovered(samples, maxHold, start, end);
      return 0.0;
    }
    var ordered := SortedCopy(samples);
    RearrangedMembers(samples, ordered);
    CountIgnoresOrder(samples, ordered, maxHold, start, end);
    CountBound(ordered, maxHold, start, end);
    var covered := CoveredTime(ordered, start, end, maxHold);
    FractionOf(covered, total);
    if covered > total { covered := total; }
    r := covered as real / total as real;
  }

  lemma {:induction false} BeforeFirst(ordered: seq<Sample>, hold: int, lo: int, hi: int)
    requires InTimeOrder(ordered) && ordered != [] && (lo < hi ==> hi <= ordered[0].at)
    ensures CoveredCount(ordered, hold, lo, hi) == 0
  {
    if lo < hi { CountUniform(ordered, hold, lo, hi, false); }
  }

  lemma {:induction false} NothingCovered(samples: seq<Sample>, hold: int, lo: int, hi: int)
    requires hi <= lo || hold <= 0 || samples == []
    ensures CoveredCount(samples, hold, lo, hi) == 0
  {
    if lo < hi { CountUniform(samples, hold, lo, hi, false); }
  }
}
