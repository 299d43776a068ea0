/** Quarter-hour energy from a piecewise constant power series (interval.go). */
module PowerIntervals {
  import opened Basics
  import opened Reals
  import opened Samples

  const HOUR := 3_600_000_000_000
  const QUARTER := 900_000_000_000

  datatype Quality = Measured | Estimated | Gap | Conflict | Stale

  datatype Interval = Interval(startsAt: int, kwh: real, kw: real, quality: Quality)

  function Hours(ns: int): real {
    ns as real / HOUR as real
  }

  lemma HoursAdd(m: int, n: int)
    ensures Hours(m) + Hours(n) == Hours(m + n)
  {
  }

  // ----- The power at an instant, and the energy of a span

  /** The last valid reading of a series. */
  function LastValue(samples: seq<Sample>): real {
    if samples == [] then 0.0
    else
      var last := samples[|samples| - 1];
      if Valid(last.reading) then last.reading.value else LastValue(samples[..|samples| - 1])
  }

  /** The power at t: what the last valid sample taken by then said. */
  function PowerAt(samples: seq<Sample>, t: int): real {
    if samples == [] then 0.0
    else
      var last := samples[|samples| - 1];
      if last.at <= t && Valid(last.reading) then last.reading.value else PowerAt(samples[..|samples| - 1], t)
  }

  /** The integral of that step function: its value at every nanosecond, for one nanosecond each. */
  function EnergyOver(samples: seq<Sample>, lo: int, hi: int): real
    decreases hi - lo
  {
    if hi <= lo then 0.0 else EnergyOver(samples, lo, hi - 1) + PowerAt(samples, hi - 1) * Hours(1)
  }

  lemma {:induction false} EnergySplits(samples: seq<Sample>, lo: int, mid: int, hi: int)
    requires lo <= mid <= hi
    ensures EnergyOver(samples, lo, hi) == EnergyOver(samples, lo, mid) + EnergyOver(samples, mid, hi)
    decreases hi - mid
  {
    hide PowerAt, Hours;
    if mid < hi { EnergySplits(samples, lo, mid, hi - 1); }
  }

  lemma {:induction false} EnergyConstant(samples: seq<Sample>, lo: int, hi: int, kw: real)
    requires lo <= hi && forall t :: lo <= t < hi ==> PowerAt(samples, t) == kw
    ensures EnergyOver(samples, lo, hi) == kw * Hours(hi - lo)
    decreases hi - lo
  {
    hide PowerAt;
    if lo < hi {
      EnergyConstant(samples, lo, hi - 1, kw);
      OneMore(kw, hi - 1 - lo);
    }
  }

  lemma OneMore(kw: real, n: int)
    ensures kw * Hours(n) + kw * Hours(1) == kw * Hours(n + 1)
  {
    HoursAdd(n, 1);
    hide Hours;
    assert kw * (Hours(n) + Hours(1)) == kw * Hours(n) + kw * Hours(1);
  }

  /** The number of samples taken by t. */
  ghost predicate Taken(samples: seq<Sample>, n: nat, t: int) {
    && n <= |samples|
    && (forall k :: 0 <= k < n ==> samples[k].at <= t)
    && forall k :: n <= k < |samples| ==> t < samples[k].at
  }

  lemma {:induction false} PowerSettles(samples: seq<Sample>, n: nat, t: int)
    requires Taken(samples, n, t)
    ensures PowerAt(samples, t) == LastValue(samples[..n])
    decreases |samples|
  {
    if samples != [] {
      var last := |samples| - 1;
      if n == |samples| {
        assert samples[..n] == samples;
        if !Valid(samples[last].reading) {
          PowerSettles(samples[..last], last, t);
          assert samples[..last][..last] == samples[..last];
        }
      } else {
        PowerSettles(samples[..last], n, t);
        assert samples[..last][..n] == samples[..n];
      }
    }
  }

  // ----- One window

  /** A binary search. */
  method TakenBy(samples: seq<Sample>, t: int) returns (n: nat)
    requires InTimeOrder(samples)
    ensures Taken(samples, n, t)
  {
    n := 0;
    var hi := |samples|;
    while n < hi
      invariant n <= hi <= |samples|
      invariant (forall k :: 0 <= k < n ==> samples[k].at <= t) && forall k :: hi <= k < |samples| ==> t < samples[k].at
    {
      var h := (n + hi) / 2;
      if samples[h].at > t { hi := h; } else { n := h + 1; }
    }
  }

  ghost function TakenCount(samples: seq<Sample>, t: int): (n: nat)
    ensures n <= |samples|
  {
    if samples == [] then 0
    else TakenCount(samples[..|samples| - 1], t) + if samples[|samples| - 1].at <= t then 1 else 0
  }

  lemma {:induction false} TakenIsCount(samples: seq<Sample>, n: nat, t: int)
    requires Taken(samples, n, t)
    ensures n == TakenCount(samples, t)
    decreases |samples|
  {
    if samples != [] {
      var last := |samples| - 1;
      assert n < |samples| ==> t < samples[last].at;
      TakenIsCount(samples[..last], Min(n, last), t);
    }
  }

  /** A window can be integrated when the last sample taken by its start is valid. */
  ghost predicate Usable(samples: seq<Sample>, start: int) {
    TakenCount(samples, start) > 0 && Valid(samples[TakenCount(samples, start) - 1].reading)
  }

  /** An invalid reading inside the window. */
  ghost predicate Disturbed(samples: seq<Sample>, start: int, end: int) {
    exists k :: 0 <= k < |samples| && start < samples[k].at < end && !Valid(samples[k].reading)
  }

  lemma SpanConstant(samples: seq<Sample>, n: nat, lo: int, hi: int)
    requires InTimeOrder(samples) && 0 < n <= |samples| && samples[n - 1].at <= lo <= hi
    requires n < |samples| ==> hi <= samples[n].at
    ensures EnergyOver(samples, lo, hi) == LastValue(samples[..n]) * Hours(hi - lo)
  {
    forall t | lo <= t < hi ensures PowerAt(samples, t) == LastValue(samples[..n]) {
      PowerSettles(samples, n, t);
    }
    EnergyConstant(samples, lo, hi, LastValue(samples[..n]));
  }

  lemma LastValueGrows(samples: seq<Sample>, i: nat)
    requires i < |samples|
    ensures LastValue(samples[..i + 1]) ==
            if Valid(samples[i].reading) then samples[i].reading.value else LastValue(samples[..i])
  {
    assert samples[..i + 1][..i] == samples[..i];
  }

  /** `integratePowerWindow`: the mean of the step function over the window. */
  method IntegrateWindow(samples: seq<Sample>, start: int, end: int) returns (average: real, quality: Quality, ok: bool)
    requires InTimeOrder(samples) && start < end
    ensures ok <==> Usable(samples, start)
    ensures ok ==> average * Hours(end - start) == EnergyOver(samples, start, end)
    ensures ok ==> quality == if Disturbed(samples, start, end) then Conflict else Measured
    ensures !ok ==> quality == if samples != [] && samples[0].at <= start then Conflict else Gap
  {
    hide EnergyOver, Hours, LastValue;
    var n := TakenBy(samples, start);
    TakenIsCount(samples, n, start);
    if n == 0 { return 0.0, Gap, false; }
    if !Valid(samples[n - 1].reading) { return 0.0, Conflict, false; }
    LastValueGrows(samples, n - 1);
    NothingYet(samples, start);
    var current := samples[n - 1].reading.value;
    var cursor := start;
    var energy := 0.0;
    quality := Measured;
    var i := n;
    while i < |samples| && samples[i].at < end
      invariant n <= i <= |samples| && start <= cursor < end && samples[i - 1].at <= cursor
      invariant i < |samples| ==> cursor <= samples[i].at
      invariant current == LastValue(samples[..i])
      invariant energy == EnergyOver(samples, start, cursor)
      invariant quality == if exists k :: n <= k < i && !Valid(samples[k].reading) then Conflict else Measured
      invariant forall k :: n <= k < i ==> start < samples[k].at < end
    {
      var next := samples[i];
      if next.at > cursor {
        SpanConstant(samples, i, cursor, next.at);
        EnergySplits(samples, start, cursor, next.at);
        energy := energy + current * Hours(next.at - cursor);
        cursor := next.at;
      }
      LastValueGrows(samples, i);
      i := i + 1;
      if !Valid(next.reading) {
        quality := Conflict;
        continue;
      }
      current := next.reading.value;
    }
    if cursor < end {
      SpanConstant(samples, i, cursor, end);
      EnergySplits(samples, start, cursor, end);
      energy := energy + current * Hours(end - cursor);
    }
    HoursPositive(end - start);
    average := energy / Hours(end - start);
    ok := true;
  }

  lemma HoursPositive(n: int)
    requires n > 0
    ensures Hours(n) > 0.0
  {
  }

  lemma NothingYet(samples: seq<Sample>, t: int)
    ensures EnergyOver(samples, t, t) == 0.0
  {
  }

  // ----- All quarters

  /** `QuarterStart` in a zone that is `zone(t)` ahead of UTC at the instant t. */
  function QuarterStart(at: int, zone: int -> int): (start: int)
    ensures start <= at < start + QUARTER && (start + zone(at)) % QUARTER == 0
  {
    at - (at + zone(at)) % QUARTER
  }

  /** The first quarter that begins at or after `from`. */
  function FirstQuarter(from: int, zone: int -> int): int {
    var start := QuarterStart(from, zone);
    if start < from then start + QUARTER else start
  }

  function QuarterAt(first: int, k: int): int {
    first + k * QUARTER
  }

  /** What the series says about one quarter. */
  ghost predicate QuarterOf(samples: seq<Sample>, q: Interval) {
    var end := q.startsAt + QUARTER;
    if Usable(samples, q.startsAt) then
      && q.kwh == EnergyOver(samples, q.startsAt, end) && q.kw * Hours(QUARTER) == q.kwh
      && q.quality == if Disturbed(samples, q.startsAt, end) then Conflict else Measured
    else q.kwh == 0.0 && q.kw == 0.0 && q.quality == Gap
  }

  /** A settlement quarter begins at t, on a clock that is `ahead` of UTC. */
  predicate OnTheQuarter(t: int, ahead: int) {
    (t + ahead) % QUARTER == 0
  }

  /** The search starts at the first quarter that begins no earlier than the range. */
  lemma FirstQuarterIsNext(from: int, zone: int -> int)
    ensures OnTheQuarter(FirstQuarter(from, zone), zone(from))
    ensures from <= FirstQuarter(from, zone) < from + QUARTER
  {
    var start := QuarterStart(from, zone);
    assert (start + QUARTER + zone(from)) % QUARTER == (start + zone(from)) % QUARTER;
  }

  /** The intervals begin at all quarters, in order and each once, that lie within [from, until) as a whole, on
      the clock of the instant `from`. */
  ghost predicate AllQuarters(out: seq<Interval>, from: int, until: int, zone: int -> int) {
    && (forall j, k :: 0 <= j < k < |out| ==> out[j].startsAt < out[k].startsAt)
    && forall t :: (from <= t && t + QUARTER <= until && OnTheQuarter(t, zone(from)))
                   <==> exists k :: 0 <= k < |out| && out[k].startsAt == t
  }

  /** Quarters in steps of 15 minutes from the first one on, as far as they fit, are all of them. */
  lemma StepsAreAllQuarters(out: seq<Interval>, from: int, until: int, zone: int -> int)
    requires forall k :: 0 <= k < |out| ==> out[k].startsAt == QuarterAt(FirstQuarter(from, zone), k)
    requires out != [] ==> QuarterAt(FirstQuarter(from, zone), |out|) <= until
    requires until < QuarterAt(FirstQuarter(from, zone), |out| + 1)
    ensures AllQuarters(out, from, until, zone)
  {
    FirstQuarterIsNext(from, zone);
    var first := FirstQuarter(from, zone);
    hide FirstQuarter;
    forall t ensures (from <= t && t + QUARTER <= until && OnTheQuarter(t, zone(from)))
                     <==> exists k :: 0 <= k < |out| && out[k].startsAt == t {
      if from <= t && t + QUARTER <= until && OnTheQuarter(t, zone(from)) {
        var k := QuartersApart(first, t, zone(from), from);
        assert out[k].startsAt == t;
      }
      if k :| 0 <= k < |out| && out[k].startsAt == t {
        StepsStayOnQuarter(first, k, zone(from));
      }
    }
  }

  lemma StepsStayOnQuarter(first: int, k: nat, ahead: int)
    requires OnTheQuarter(first, ahead)
    ensures OnTheQuarter(QuarterAt(first, k), ahead)
  {
    var q := (first + ahead) / QUARTER;
    assert QuarterAt(first, k) + ahead == (q + k) * QUARTER;
  }

  lemma QuartersApart(first: int, t: int, ahead: int, from: int) returns (k: nat)
    requires OnTheQuarter(first, ahead) && OnTheQuarter(t, ahead) && from <= first < from + QUARTER && from <= t
    ensures t == QuarterAt(first, k)
  {
    var p, q := (first + ahead) / QUARTER, (t + ahead) / QUARTER;
    assert first + ahead == p * QUARTER && t + ahead == q * QUARTER;
    assert t - first == (q - p) * QUARTER;
    k := q - p;
  }

  /** Quarters in a row, each as the series says. */
  ghost predicate Consecutive(samples: seq<Sample>, out: seq<Interval>, first: int) {
    forall k :: 0 <= k < |out| ==> out[k].startsAt == QuarterAt(first, k) && QuarterOf(samples, out[k])
  }

  /** Exactly the whole quarters of [from, until), in order, each as the series says. */
  ghost predicate Aggregates(samples: seq<Sample>, from: int, until: int, zone: int -> int, out: seq<Interval>) {
    var first := FirstQuarter(from, zone);
    && Consecutive(samples, out, first)
    && (until <= from ==> out == [])
    && (from < until ==>
          from <= first && (out != [] ==> QuarterAt(first, |out|) <= until) && until < QuarterAt(first, |out| + 1))
  }

  /** The quarters of the range, from the samples in time order. */
  method AggregatePowerIntervals(samples: seq<Sample>, from: int, until: int, zone: int -> int)
    returns (out: seq<Interval>, ghost ordered: seq<Sample>)
    ensures InTimeOrder(ordered) && Rearranged(samples, ordered)
    ensures Aggregates(ordered, from, until, zone, out)
    ensures if from < until then AllQuarters(out, from, until, zone) else out == []
  {
    var sorted := SortedCopy(samples);
    ordered, out := sorted, [];
    if until <= from { return; }
    var start := FirstQuarter(from, zone);
    var windowStart := start;
    hide Usable, Disturbed, EnergyOver, InTimeOrder, Hours;
    while windowStart + QUARTER <= until
      invariant windowStart == QuarterAt(start, |out|)
      invariant out != [] ==> windowStart <= until
      invariant Consecutive(ordered, out, start)
      decreases until - windowStart
    {
      var average, quality, ok := IntegrateWindow(sorted, windowStart, windowStart + QUARTER);
      var q := if ok then Interval(windowStart, average / 4.0, average, quality)
        else Interval(windowStart, 0.0, 0.0, Gap);
      QuarterOfAnHour(average);
      assert QuarterOf(ordered, q);
      out := out + [q];
      windowStart := windowStart + QUARTER;
    }
    StepsAreAllQuarters(out, from, until, zone);
  }

  lemma QuarterOfAnHour(kw: real)
    ensures kw / 4.0 == kw * Hours(QUARTER)
  {
  }

  // ----- Conservation

  function TotalKwh(out: seq<Interval>): real {
    if out == [] then 0.0 else TotalKwh(out[..|out| - 1]) + out[|out| - 1].kwh
  }

  ghost predicate AllValid(samples: seq<Sample>) {
    forall i :: 0 <= i < |samples| ==> Valid(samples[i].reading)
  }

  lemma {:induction false} TakenWhenSorted(samples: seq<Sample>, t: int)
    requires InTimeOrder(samples) && samples != [] && samples[0].at <= t
    ensures TakenCount(samples, t) > 0
    decreases |samples|
  {
    var last := |samples| - 1;
    if last > 0 { TakenWhenSorted(samples[..last], t); }
  }

  /** Valid samples that start early enough make every quarter usable and undisturbed. */
  lemma ValidMeansMeasured(samples: seq<Sample>, q: Interval)
    requires InTimeOrder(samples) && AllValid(samples) && samples != [] && samples[0].at <= q.startsAt
    requires QuarterOf(samples, q)
    ensures Usable(samples, q.startsAt) && q.quality == Measured
  {
    TakenWhenSorted(samples, q.startsAt);
  }

  /** No energy is lost or made up between quarters: they sum to the integral over the whole span. */
  lemma {:induction false} EnergyConserved(samples: seq<Sample>, out: seq<Interval>, first: int)
    requires InTimeOrder(samples) && AllValid(samples) && samples != [] && samples[0].at <= first
    requires Consecutive(samples, out, first)
    ensures TotalKwh(out) == EnergyOver(samples, first, QuarterAt(first, |out|))
    ensures forall k :: 0 <= k < |out| ==> out[k].quality == Measured
    decreases |out|
  {
    hide EnergyOver, Disturbed, Usable, InTimeOrder, AllValid;
    if out == [] {
      NothingYet(samples, first);
    } else {
      var last := |out| - 1;
      assert Consecutive(samples, out[..last], first);
      EnergyConserved(samples, out[..last], first);
      ValidMeansMeasured(samples, out[last]);
      EnergySplits(samples, first, QuarterAt(first, last), QuarterAt(first, |out|));
      assert forall k :: 0 <= k < last ==> out[k] == out[..last][k];
    }
  }

  // ----- Whatever order the samples come in

  /** For valid samples in any order that begin by the start, no energy is lost or made up, and every quarter
      is measured. */
  lemma SamplesConserveEnergy(samples: seq<Sample>, ordered: seq<Sample>, out: seq<Interval>, first: int)
    requires Rearranged(samples, ordered) && InTimeOrder(ordered) && Consecutive(ordered, out, first)
    requires forall x :: x in samples ==> x.reading.Finite? && x.reading.value >= 0.0
    requires exists x :: x in samples && x.at <= first
    ensures TotalKwh(out) == EnergyOver(ordered, first, QuarterAt(first, |out|))
    ensures forall k :: 0 <= k < |out| ==> out[k].quality == Measured
  {
    RearrangedMembers(samples, ordered);
    forall i | 0 <= i < |ordered| ensures Valid(ordered[i].reading) {
      assert ordered[i] in ordered;
    }
    var x :| x in samples && x.at <= first;
    var i :| 0 <= i < |ordered| && ordered[i] == x;
    hide Consecutive, EnergyOver;
    EnergyConserved(ordered, out, first);
  }

  /** The step function that is integrated is told from the unsorted samples: its value is the latest valid
      reading taken by then. */
  lemma PowerIsLatestReading(samples: seq<Sample>, ordered: seq<Sample>, x: Sample, t: int)
    requires Rearranged(samples, ordered) && InTimeOrder(ordered) && Unambiguous(samples)
    requires x in samples && x.at <= t && Valid(x.reading)
    requires forall y :: y in samples && y.at <= t && Valid(y.reading) ==> y.at <= x.at
    ensures PowerAt(ordered, t) == x.reading.value
  {
    RearrangedMembers(samples, ordered);
    LatestInOrder(ordered, x, t);
  }

  lemma {:induction false} LatestInOrder(ordered: seq<Sample>, x: Sample, t: int)
    requires InTimeOrder(ordered) && Unambiguous(ordered) && x in ordered && x.at <= t && Valid(x.reading)
    requires forall y :: y in ordered && y.at <= t && Valid(y.reading) ==> y.at <= x.at
    ensures PowerAt(ordered, t) == x.reading.value
    decreases |ordered|
  {
    var last := |ordered| - 1;
    assert ordered == ordered[..last] + [ordered[last]];
    if ordered[last].at <= t && Valid(ordered[last].reading) {
      assert ordered[last] in ordered;
      assert ordered[last] == x;
    } else {
      LatestInOrder(ordered[..last], x, t);
    }
  }

  lemma QuarterDetermined(samples: seq<Sample>, q: Interval, r: Interval)
    requires QuarterOf(samples, q) && QuarterOf(samples, r) && q.startsAt == r.startsAt
    ensures q == r
  {
    hide EnergyOver, Usable, Disturbed;
  }

  /** The range and the series determine the quarters. */
  lemma AggregateDetermined(samples: seq<Sample>, from: int, until: int, zone: int -> int, out: seq<Interval>,
                            other: seq<Interval>)
    requires Aggregates(samples, from, until, zone, out) && Aggregates(samples, from, until, zone, other)
    ensures out == other
  {
    hide QuarterOf, FirstQuarter;
    assert |out| == |other|;
    forall k | 0 <= k < |out| ensures out[k] == other[k] { QuarterDetermined(samples, out[k], other[k]); }
  }

  /** Samples that agree wherever they share an instant give one result, in whatever order they are handed in
      and however the sort arranges them. */
  lemma OrderDoesNotMatter(samples: seq<Sample>, others: seq<Sample>, ordered: seq<Sample>, reordered: seq<Sample>,
                           from: int, until: int, zone: int -> int, out: seq<Interval>, other: seq<Interval>)
    requires Rearranged(samples, others) && Unambiguous(samples)
    requires Rearranged(samples, ordered) && InTimeOrder(ordered) && Aggregates(ordered, from, until, zone, out)
    requires Rearranged(others, reordered) && InTimeOrder(reordered) && Aggregates(reordered, from, until, zone, other)
    ensures out == other
  {
    hide Aggregates;
    RearrangedMembers(samples, ordered);
    SortedOnce(ordered, reordered);
    AggregateDetermined(ordered, from, until, zone, out, other);
  }

  // ----- Averages

  lemma {:induction false} PowerWithin(samples: seq<Sample>, t: int, lo: real, hi: real, n: nat)
    requires InTimeOrder(samples) && 0 < n <= |samples| && samples[n - 1].at <= t && Valid(samples[n - 1].reading)
    requires forall i :: n - 1 <= i < |samples| && samples[i].at <= t && Valid(samples[i].reading) ==>
               lo <= samples[i].reading.value <= hi
    ensures lo <= PowerAt(samples, t) <= hi
    decreases |samples|
  {
    var last := |samples| - 1;
    if !(samples[last].at <= t && Valid(samples[last].reading)) {
      PowerWithin(samples[..last], t, lo, hi, n);
    }
  }

  lemma {:induction false} EnergyWithin(samples: seq<Sample>, lo: int, hi: int, least: real, most: real)
    requires lo <= hi && forall t :: lo <= t < hi ==> least <= PowerAt(samples, t) <= most
    ensures least * Hours(hi - lo) <= EnergyOver(samples, lo, hi) <= most * Hours(hi - lo)
    decreases hi - lo
  {
    hide PowerAt;
    if lo < hi {
      EnergyWithin(samples, lo, hi - 1, least, most);
      OneMore(least, hi - 1 - lo);
      OneMore(most, hi - 1 - lo);
      HoursPositive(1);
      ProductOrder(least, PowerAt(samples, hi - 1), Hours(1));
      ProductOrder(PowerAt(samples, hi - 1), most, Hours(1));
    }
  }

  /** A quarter's average power lies between the smallest and the largest contributing sample. */
  lemma AverageWithin(samples: seq<Sample>, q: Interval, n: nat, least: real, most: real)
    requires InTimeOrder(samples) && Usable(samples, q.startsAt) && QuarterOf(samples, q)
    requires Taken(samples, n, q.startsAt) && 0 < n
    requires forall i :: n - 1 <= i < |samples| && samples[i].at < q.startsAt + QUARTER && Valid(samples[i].reading) ==>
               least <= samples[i].reading.value <= most
    ensures least <= q.kw <= most
  {
    TakenIsCount(samples, n, q.startsAt);
    var end := q.startsAt + QUARTER;
    forall t | q.startsAt <= t < end ensures least <= PowerAt(samples, t) <= most {
      PowerWithin(samples, t, least, most, n);
    }
    hide EnergyOver, PowerAt, Hours, TakenCount;
    EnergyWithin(samples, q.startsAt, end, least, most);
    assert end - q.startsAt == QUARTER;
    HoursPositive(QUARTER);
    ProductCancel(least, q.kw, Hours(QUARTER));
    ProductCancel(q.kw, most, Hours(QUARTER));
  }
}
