/** Quarter-hour energy from a cumulative import meter (interval.go). */
module EnergyIntervals {
  import opened Basics
  import opened Reals
  import opened Samples
  import opened PowerIntervals

  // ----- The meter at an instant

  /** How many samples were taken strictly before t. */
  ghost predicate Before(samples: seq<Sample>, n: nat, t: int) {
    && n <= |samples|
    && (forall k :: 0 <= k < n ==> samples[k].at < t)
    && forall k :: n <= k < |samples| ==> t <= samples[k].at
  }

  method TakenBefore(samples: seq<Sample>, t: int) returns (n: nat)
    requires InTimeOrder(samples)
    ensures Before(samples, n, t)
  {
    n := 0;
    var hi := |samples|;
    while n < hi
      invariant n <= hi <= |samples|
      invariant (forall k :: 0 <= k < n ==> samples[k].at < t) && forall k :: hi <= k < |samples| ==> t <= samples[k].at
    {
      var h := (n + hi) / 2;
      if samples[h].at >= t { hi := h; } else { n := h + 1; }
    }
  }

  function Line(t0: int, v0: real, t1: int, v1: real, t: int): real
    requires t0 < t1
  {
    v0 + (v1 - v0) * ((t - t0) as real / (t1 - t0) as real)
  }

  /** The meter's reading at t, given the number of samples before t: a sample's own value, or the straight
      line between its neighbours. */
  function ReadingAt(samples: seq<Sample>, n: nat, t: int): Option<real>
    requires n <= |samples|
  {
    if n < |samples| && samples[n].at == t then
      if Valid(samples[n].reading) then Some(samples[n].reading.value) else None
    else if n == 0 || n == |samples| then None
    else
      var left, next := samples[n - 1], samples[n];
      if Valid(left.reading) && Valid(next.reading) && left.at < next.at
      then Some(Line(left.at, left.reading.value, next.at, next.reading.value, t)) else None
  }

  ghost function BeforeCount(samples: seq<Sample>, t: int): (n: nat)
    ensures n <= |samples|
  {
    if samples == [] then 0
    else BeforeCount(samples[..|samples| - 1], t) + if samples[|samples| - 1].at < t then 1 else 0
  }

  lemma {:induction false} BeforeIsCount(samples: seq<Sample>, n: nat, t: int)
    requires Before(samples, n, t)
    ensures n == BeforeCount(samples, t)
    decreases |samples|
  {
    if samples != [] {
      var last := |samples| - 1;
      assert n < |samples| ==> t <= samples[last].at;
      BeforeIsCount(samples[..last], Min(n, last), t);
    }
  }

  /** The meter at t. */
  ghost function MeterAt(samples: seq<Sample>, t: int): Option<real> {
    ReadingAt(samples, BeforeCount(samples, t), t)
  }

  method CumulativeAt(samples: seq<Sample>, t: int) returns (r: Option<real>)
    requires InTimeOrder(samples)
    ensures r == MeterAt(samples, t)
  {
    var right := TakenBefore(samples, t);
    BeforeIsCount(samples, right, t);
    r := ReadingAt(samples, right, t);
  }

  // ----- A counter that only grows

  /** A meter with valid readings that never run backwards. */
  ghost predicate Counts(samples: seq<Sample>) {
    && InTimeOrder(samples)
    && (forall i :: 0 <= i < |samples| ==> Valid(samples[i].reading))
    && forall i, j :: 0 <= i < j < |samples| ==> samples[i].reading.value <= samples[j].reading.value
  }

  /** Unsorted samples of a meter that does not fall over time. */
  ghost predicate Rising(samples: seq<Sample>) {
    && (forall x :: x in samples ==> x.reading.Finite? && x.reading.value >= 0.0)
    && forall x, y :: x in samples && y in samples && x.at <= y.at ==> x.reading.value <= y.reading.value
  }

  /** Whichever way the sort breaks ties, such samples come out as a counter that only grows. */
  lemma RisingCounts(samples: seq<Sample>, ordered: seq<Sample>)
    requires Rising(samples) && Rearranged(samples, ordered) && InTimeOrder(ordered)
    ensures Counts(ordered)
  {
    RearrangedMembers(samples, ordered);
    forall i | 0 <= i < |ordered| ensures Valid(ordered[i].reading) {
      assert ordered[i] in ordered;
    }
    forall i, j | 0 <= i < j < |ordered| ensures ordered[i].reading.value <= ordered[j].reading.value {
      assert ordered[i] in ordered && ordered[j] in ordered;
    }
  }

  ghost predicate Spans(samples: seq<Sample>, t: int) {
    samples != [] && samples[0].at <= t <= samples[|samples| - 1].at
  }

  /** Within its samples' range a meter has a reading, between those of its neighbours. */
  lemma ReadingExists(samples: seq<Sample>, n: nat, t: int)
    requires Counts(samples) && Spans(samples, t) && Before(samples, n, t)
    ensures n < |samples| && ReadingAt(samples, n, t).Some?
    ensures ReadingAt(samples, n, t).value <= samples[n].reading.value
    ensures n > 0 ==> samples[n - 1].reading.value <= ReadingAt(samples, n, t).value
  {
    if samples[n].at != t {
      var left, next := samples[n - 1], samples[n];
      LineBetween(left.at, left.reading.value, next.at, next.reading.value, t);
    }
  }

  lemma LineBetween(t0: int, v0: real, t1: int, v1: real, t: int)
    requires t0 <= t <= t1 && t0 < t1 && v0 <= v1
    ensures v0 <= Line(t0, v0, t1, v1, t) <= v1
  {
    var x, d := (t - t0) as real / (t1 - t0) as real, v1 - v0;
    QuotientOrder(0.0, (t - t0) as real, (t1 - t0) as real);
    QuotientOrder((t - t0) as real, (t1 - t0) as real, (t1 - t0) as real);
    ProductBounds(d, x);
    assert Line(t0, v0, t1, v1, t) == v0 + d * x;
  }

  lemma ProductBounds(d: real, x: real)
    requires d >= 0.0 && 0.0 <= x <= 1.0
    ensures 0.0 <= d * x <= d
  {
  }

  /** The line rises in proportion to time, and meets both of its samples. */
  lemma LineIsStraight(t0: int, v0: real, t1: int, v1: real, t: int)
    requires t0 < t1
    ensures (Line(t0, v0, t1, v1, t) - v0) * (t1 - t0) as real == (v1 - v0) * (t - t0) as real
    ensures Line(t0, v0, t1, v1, t0) == v0 && Line(t0, v0, t1, v1, t1) == v1
  {
    Undivided(v1 - v0, (t - t0) as real, (t1 - t0) as real);
  }

  lemma Undivided(d: real, x: real, y: real)
    requires y > 0.0
    ensures d * (x / y) * y == d * x
  {
    assert x / y * y == x;
  }

  /** Between two samples the meter is read off the straight line through them, and at a sample it is that
      sample's own value. */
  lemma MeterInterpolates(samples: seq<Sample>, n: nat, t: int)
    requires Counts(samples) && Spans(samples, t) && Before(samples, n, t)
    ensures n < |samples| && MeterAt(samples, t).Some?
    ensures samples[n].at == t ==> MeterAt(samples, t) == Some(samples[n].reading.value)
    ensures samples[n].at != t ==>
              && n > 0
              && (MeterAt(samples, t).value - samples[n - 1].reading.value)
                 * (samples[n].at - samples[n - 1].at) as real ==
                 (samples[n].reading.value - samples[n - 1].reading.value) * (t - samples[n - 1].at) as real
  {
    hide BeforeCount, Line;
    ReadingExists(samples, n, t);
    BeforeIsCount(samples, n, t);
    if samples[n].at != t {
      var left, next := samples[n - 1], samples[n];
      LineIsStraight(left.at, left.reading.value, next.at, next.reading.value, t);
    }
  }

  lemma LineMonotone(t0: int, v0: real, t1: int, v1: real, s: int, t: int)
    requires t0 <= s <= t <= t1 && t0 < t1 && v0 <= v1
    ensures Line(t0, v0, t1, v1, s) <= Line(t0, v0, t1, v1, t)
  {
    var span := (t1 - t0) as real;
    QuotientOrder((s - t0) as real, (t - t0) as real, span);
    ProductOrder((s - t0) as real / span, (t - t0) as real / span, v1 - v0);
  }

  /** Interpolation never runs backwards either. */
  lemma ReadingMonotone(samples: seq<Sample>, m: nat, s: int, n: nat, t: int)
    requires Counts(samples) && Spans(samples, s) && Spans(samples, t) && s <= t
    requires Before(samples, m, s) && Before(samples, n, t)
    ensures ReadingAt(samples, m, s).Some? && ReadingAt(samples, n, t).Some?
    ensures ReadingAt(samples, m, s).value <= ReadingAt(samples, n, t).value
  {
    ReadingExists(samples, m, s);
    ReadingExists(samples, n, t);
    BeforeOrder(samples, m, s, n, t);
    if m < n {
      assert samples[m].reading.value <= samples[n - 1].reading.value;
    } else if samples[n].at != s && samples[n].at != t {
      var left, next := samples[n - 1], samples[n];
      LineMonotone(left.at, left.reading.value, next.at, next.reading.value, s, t);
    }
  }

  lemma BeforeOrder(samples: seq<Sample>, m: nat, s: int, n: nat, t: int)
    requires Before(samples, m, s) && Before(samples, n, t) && s <= t
    ensures m <= n
  {
    BeforeIsCount(samples, m, s);
    BeforeIsCount(samples, n, t);
    CountGrows(samples, s, t);
  }

  lemma {:induction false} CountGrows(samples: seq<Sample>, s: int, t: int)
    requires s <= t
    ensures BeforeCount(samples, s) <= BeforeCount(samples, t)
  {
    if samples != [] { CountGrows(samples[..|samples| - 1], s, t); }
  }

  // ----- All quarters

  ghost predicate MeteredQuarter(samples: seq<Sample>, q: Interval) {
    var left, right := MeterAt(samples, q.startsAt), MeterAt(samples, q.startsAt + QUARTER);
    if left.None? || right.None? then q.quality == Gap && q.kwh == 0.0 && q.kw == 0.0
    else if right.value < left.value then q.quality == Conflict && q.kwh == 0.0 && q.kw == 0.0
    else q.quality == Measured && q.kwh == right.value - left.value && q.kw * Hours(QUARTER) == q.kwh
  }

  method AggregateEnergyIntervals(samples: seq<Sample>, from: int, until: int, zone: int -> int)
    returns (out: seq<Interval>, ghost ordered: seq<Sample>)
    ensures InTimeOrder(ordered) && Rearranged(samples, ordered)
    ensures forall k :: 0 <= k < |out| ==>
              out[k].startsAt == QuarterAt(FirstQuarter(from, zone), k) && MeteredQuarter(ordered, out[k])
    ensures out != [] ==> QuarterAt(FirstQuarter(from, zone), |out|) <= until
    ensures until < QuarterAt(FirstQuarter(from, zone), |out| + 1)
    ensures AllQuarters(out, from, until, zone)
  {
    hide ReadingAt, InTimeOrder, Before, Hours, BeforeCount;
    var sorted := SortedCopy(samples);
    ordered, out := sorted, [];
    var start := FirstQuarter(from, zone);
    var windowStart := start;
    while windowStart + QUARTER <= until
      invariant windowStart == QuarterAt(start, |out|)
      invariant out != [] ==> windowStart <= until
      invariant forall k :: 0 <= k < |out| ==> out[k].startsAt == QuarterAt(start, k) && MeteredQuarter(ordered, out[k])
      decreases until - windowStart
    {
      var left := CumulativeAt(sorted, windowStart);
      var right := CumulativeAt(sorted, windowStart + QUARTER);
      var q := Interval(windowStart, 0.0, 0.0, Measured);
      if left.None? || right.None? {
        q := q.(quality := Gap);
      } else if right.value < left.value {
        q := q.(quality := Conflict);
      } else {
        HoursPositive(QUARTER);
        q := q.(kwh := right.value - left.value, kw := (right.value - left.value) / Hours(QUARTER));
      }
      out := out + [q];
      windowStart := windowStart + QUARTER;
    }
    StepsAreAllQuarters(out, from, until, zone);
  }

  ghost predicate Metered(samples: seq<Sample>, out: seq<Interval>, first: int) {
    forall k :: 0 <= k < |out| ==> out[k].startsAt == QuarterAt(first, k) && MeteredQuarter(samples, out[k])
  }

  lemma MeterKnown(samples: seq<Sample>, t: int)
    requires Counts(samples) && Spans(samples, t)
    ensures MeterAt(samples, t).Some?
  {
    var n := PositionOf(samples, t);
    ReadingExists(samples, n, t);
    BeforeIsCount(samples, n, t);
  }

  lemma {:induction false} PositionOf(samples: seq<Sample>, t: int) returns (n: nat)
    requires InTimeOrder(samples)
    ensures Before(samples, n, t)
    decreases |samples|
  {
    if samples == [] || samples[|samples| - 1].at < t {
      n := |samples|;
    } else {
      n := PositionOf(samples[..|samples| - 1], t);
    }
  }

  lemma MeterMonotone(samples: seq<Sample>, s: int, t: int)
    requires Counts(samples) && Spans(samples, s) && Spans(samples, t) && s <= t
    ensures MeterAt(samples, s).Some? && MeterAt(samples, t).Some?
    ensures MeterAt(samples, s).value <= MeterAt(samples, t).value
  {
    var m := PositionOf(samples, s);
    var n := PositionOf(samples, t);
    ReadingMonotone(samples, m, s, n, t);
    BeforeIsCount(samples, m, s);
    BeforeIsCount(samples, n, t);
  }

  /** A counter that spans the range measures every quarter, and the quarters telescope: their sum is the
      difference of the meter at the two ends. */
  lemma {:induction false} QuartersTelescope(samples: seq<Sample>, out: seq<Interval>, first: int)
    requires Counts(samples) && Metered(samples, out, first)
    requires Spans(samples, first) && Spans(samples, QuarterAt(first, |out|))
    ensures MeterAt(samples, first).Some? && MeterAt(samples, QuarterAt(first, |out|)).Some?
    ensures TotalKwh(out) == MeterAt(samples, QuarterAt(first, |out|)).value - MeterAt(samples, first).value
    ensures forall k :: 0 <= k < |out| ==> out[k].quality == Measured && out[k].kwh >= 0.0
    decreases |out|
  {
    hide MeterAt, Counts, Hours;
    MeterKnown(samples, first);
    if out != [] {
      var last := |out| - 1;
      assert Metered(samples, out[..last], first);
      QuartersTelescope(samples, out[..last], first);
      assert forall k :: 0 <= k < last ==> out[k] == out[..last][k];
      MeterMonotone(samples, QuarterAt(first, last), QuarterAt(first, |out|));
    }
  }

  lemma ReadSpans(samples: seq<Sample>, ordered: seq<Sample>, first: int, end: int)
    requires Rearranged(samples, ordered) && InTimeOrder(ordered) && first <= end
    requires exists x :: x in samples && x.at <= first
    requires exists y :: y in samples && end <= y.at
    ensures Spans(ordered, first) && Spans(ordered, end)
  {
    RearrangedMembers(samples, ordered);
    hide Rearranged;
    var x :| x in samples && x.at <= first;
    var y :| y in samples && end <= y.at;
    var i :| 0 <= i < |ordered| && ordered[i] == x;
    var j :| 0 <= j < |ordered| && ordered[j] == y;
  }

  /** The same for the samples as they were given, in any order: what the aggregation returns for a meter that
      does not fall and was read by the start and after the end sums to the difference of the two readings. */
  lemma {:induction false} RisingMeterTelescopes(samples: seq<Sample>, ordered: seq<Sample>, out: seq<Interval>,
                                                 first: int)
    requires Rising(samples) && Rearranged(samples, ordered) && InTimeOrder(ordered) && Metered(ordered, out, first)
    requires exists x :: x in samples && x.at <= first
    requires exists y :: y in samples && QuarterAt(first, |out|) <= y.at
    ensures MeterAt(ordered, first).Some? && MeterAt(ordered, QuarterAt(first, |out|)).Some?
    ensures TotalKwh(out) == MeterAt(ordered, QuarterAt(first, |out|)).value - MeterAt(ordered, first).value
    ensures forall k :: 0 <= k < |out| ==> out[k].quality == Measured && out[k].kwh >= 0.0
  {
    hide Rising, Counts, Metered, MeterAt, TotalKwh, Spans, InTimeOrder, Rearranged;
    RisingCounts(samples, ordered);
    ReadSpans(samples, ordered, first, QuarterAt(first, |out|));
    QuartersTelescope(ordered, out, first);
  }
}
