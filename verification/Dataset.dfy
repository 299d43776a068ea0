/** Published index values and the official chaining factors (data.go). */
module Dataset {
  import opened Basics
  import opened Calendar
  import opened Rounding

  datatype Series =
    | VPI2025 | VPI2020 | VPI2015 | VPI2010 | VPI2005 | VPI2000 | VPI1996 | VPI1986 | VPI1976 | VPI1966
    | UnknownSeries(name: string)

  predicate ValidSeries(s: Series) {
    !s.UnknownSeries?
  }

  /** `chainSource` is nonempty only for a value derived through a factor. */
  datatype IndexValue = IndexValue(series: Series, month: Month, value: int64, preliminary: bool, chainSource: string)

  datatype ChainFactor = ChainFactor(from: Series, to: Series, effectiveFrom: Month, factor: int64, source: string)

  datatype Dataset = Dataset(values: map<(Series, Month), IndexValue>, factors: seq<ChainFactor>)

  datatype DataError = InvalidObservation | DuplicateObservation | InvalidChain | InvalidKey | ChainingOverflow

  predicate ValidObservation(v: IndexValue) {
    ValidSeries(v.series) && ValidMonth(v.month) && v.value > 0
  }

  predicate ValidFactor(f: ChainFactor) {
    f.from == VPI2025 && ValidSeries(f.to) && f.to != f.from && f.factor > 0 && ValidMonth(f.effectiveFrom)
      && f.source != ""
  }

  /** What `NewDataset` establishes and nothing later changes. */
  ghost predicate WellFormed(d: Dataset) {
    && (forall k :: k in d.values ==>
          d.values[k].series == k.0 && d.values[k].month == k.1 && ValidObservation(d.values[k]))
    && (forall i :: 0 <= i < |d.factors| ==> ValidFactor(d.factors[i]))
    && (forall i, j :: 0 <= i < j < |d.factors| ==> d.factors[i].to != d.factors[j].to)
  }

  ghost predicate Acceptable(values: seq<IndexValue>, factors: seq<ChainFactor>) {
    && (forall i :: 0 <= i < |values| ==>
          !values[i].series.UnknownSeries? && ValidMonth(values[i].month) && values[i].value > 0)
    && (forall i, j :: 0 <= i < j < |values| ==>
          values[i].series != values[j].series || values[i].month != values[j].month)
    && (forall i :: 0 <= i < |factors| ==>
          && factors[i].from == VPI2025 && !factors[i].to.UnknownSeries? && factors[i].to != VPI2025
          && factors[i].factor > 0 && ValidMonth(factors[i].effectiveFrom) && factors[i].source != "")
    && (forall i, j :: 0 <= i < j < |factors| ==> factors[i].to != factors[j].to)
  }

  function Key(v: IndexValue): (Series, Month) {
    (v.series, v.month)
  }

  /** `stored` holds exactly the given observations, each under its own key. */
  ghost predicate Holds(stored: map<(Series, Month), IndexValue>, values: seq<IndexValue>) {
    && (forall k :: k in stored ==> stored[k] in values && k == Key(stored[k]))
    && (forall v :: v in values ==> Key(v) in stored && stored[Key(v)] == v)
  }

  method StoreValues(values: seq<IndexValue>) returns (r: Result<map<(Series, Month), IndexValue>, DataError>)
    ensures r.Ok? <==> Acceptable(values, [])
    ensures r.Ok? ==> Holds(r.value, values)
  {
    var stored: map<(Series, Month), IndexValue> := map[];
    for i := 0 to |values|
      invariant Acceptable(values[..i], [])
      invariant Holds(stored, values[..i])
    {
      var v := values[i];
      if !ValidObservation(v) {
        return Err(InvalidObservation);
      }
      if Key(v) in stored {
        var j :| 0 <= j < i && values[..i][j] == stored[Key(v)];
        assert Key(values[j]) == Key(values[i]);
        return Err(DuplicateObservation);
      }
      assert forall j :: 0 <= j < i ==> values[..i][j] in values[..i];
      stored := stored[Key(v) := v];
      assert values[..i + 1] == values[..i] + [v];
    }
    assert values[..|values|] == values;
    return Ok(stored);
  }

  method CheckFactors(factors: seq<ChainFactor>) returns (ok: bool)
    ensures ok <==> Acceptable([], factors)
  {
    var seen: set<Series> := {};
    for i := 0 to |factors|
      invariant Acceptable([], factors[..i])
      invariant forall j :: 0 <= j < i ==> factors[j].to in seen
      invariant forall s :: s in seen ==> exists j :: 0 <= j < i && factors[j].to == s
    {
      var f := factors[i];
      if !ValidFactor(f) || f.to in seen {
        return false;
      }
      seen := seen + {f.to};
    }
    assert factors[..|factors|] == factors;
    return true;
  }

  method NewDataset(values: seq<IndexValue>, factors: seq<ChainFactor>) returns (r: Result<Dataset, DataError>)
    ensures r.Ok? <==> Acceptable(values, factors)
    ensures r.Ok? ==> WellFormed(r.value) && r.value.factors == factors && Holds(r.value.values, values)
  {
    var stored := StoreValues(values);
    if stored.Err? {
      return Err(stored.error);
    }
    var chained := CheckFactors(factors);
    if !chained {
      return Err(InvalidChain);
    }
    return Ok(Dataset(stored.value, factors));
  }

  /** A published value, or one derived by rounding the chained product once to a tenth. */
  function Derived(v: IndexValue, f: ChainFactor): (r: Result<IndexValue, DataError>)
    requires v.value > 0 && f.factor > 0
    ensures r.Ok? ==>
              && r.value.series == f.to && r.value.month == v.month
              && r.value.chainSource == f.source && r.value.value >= 0
  {
    RatioNotNegative(v.value, f.factor, 100_000_000_000);
    match RoundedRatio(v.value, f.factor, 100_000_000_000, true)
    case Err(_) => Err(ChainingOverflow)
    case Ok(n) =>
      if n > 0x7fff_ffff_ffff_ffff / 100_000 then Err(ChainingOverflow)
      else Ok(v.(value := n * 100_000, series := f.to, chainSource := f.source))
  }

  /** Published value times factor, in tenths. */
  function TimesFactor(v: IndexValue, f: ChainFactor): real {
    DecimalValue(v.value) * DecimalValue(f.factor) * 10.0
  }

  /** Published value times factor, to the nearest tenth, and as preliminary as the published value. */
  ghost predicate ChainedFrom(v: IndexValue, f: ChainFactor, w: IndexValue) {
    && w.series == f.to && w.month == v.month && w.chainSource == f.source && w.preliminary == v.preliminary
    && w.value as int % TENTH == 0
    && IsNearest(TimesFactor(v, f), w.value as int / TENTH, true)
  }

  lemma DerivedIsChained(v: IndexValue, f: ChainFactor)
    requires v.value > 0 && f.factor > 0
    ensures Derived(v, f).Ok? ==> ChainedFrom(v, f, Derived(v, f).value)
    ensures Derived(v, f).Ok? <==> FitsInt64(TENTH * RoundReal(TimesFactor(v, f), true))
  {
    RatioNotNegative(v.value, f.factor, 100_000_000_000);
    RatioInTenths(v, f);
    hide Ratio, TimesFactor;
    assert RoundedRatio(v.value, f.factor, 100_000_000_000, true) == RoundFit(TimesFactor(v, f), true);
    hide RoundedRatio, RoundReal;
  }

  lemma RatioInTenths(v: IndexValue, f: ChainFactor)
    ensures Ratio(v.value, f.factor, 100_000_000_000) == TimesFactor(v, f)
  {
    var x, y := v.value as real, f.factor as real;
    assert (x / 1_000_000.0) * (y / 1_000_000.0) * 1_000_000_000_000.0 == x * y;
  }

  /** Factor `f` can supply a value for `series` in `month`. */
  predicate Supplies(d: Dataset, f: ChainFactor, series: Series, month: Month) {
    f.to == series && month >= f.effectiveFrom && (f.from, month) in d.values
  }

  function LookupDerived(d: Dataset, series: Series, month: Month, i: nat): Result<Option<IndexValue>, DataError>
    requires WellFormed(d) && i <= |d.factors|
    decreases |d.factors| - i
  {
    if i == |d.factors| then Ok(None)
    else if !Supplies(d, d.factors[i], series, month) then LookupDerived(d, series, month, i + 1)
    else
      match Derived(d.values[(d.factors[i].from, month)], d.factors[i])
      case Err(e) => Err(e)
      case Ok(v) => Ok(Some(v))
  }

  function Lookup(d: Dataset, series: Series, month: Month): Result<Option<IndexValue>, DataError>
    requires WellFormed(d)
  {
    if !ValidSeries(series) || !ValidMonth(month) then Err(InvalidKey)
    else if (series, month) in d.values then Ok(Some(d.values[(series, month)]))
    else LookupDerived(d, series, month, 0)
  }

  lemma {:induction false} LookupDerivedShape(d: Dataset, series: Series, month: Month, i: nat)
    requires WellFormed(d) && i <= |d.factors|
    ensures LookupDerived(d, series, month, i) == Ok(None) <==>
            forall j :: i <= j < |d.factors| ==> !Supplies(d, d.factors[j], series, month)
    ensures LookupDerived(d, series, month, i).Ok? && LookupDerived(d, series, month, i).value.Some? ==>
              var v := LookupDerived(d, series, month, i).value.value;
              v.series == series && v.month == month && v.chainSource != "" && v.value >= 0
    decreases |d.factors| - i
  {
    hide Derived;
    if i < |d.factors| && !Supplies(d, d.factors[i], series, month) { LookupDerivedShape(d, series, month, i + 1); }
  }

  /** A lookup answers about the series and month asked for, and a published value is returned as it
      was published: chaining never overrides it. */
  lemma LookupAnswers(d: Dataset, series: Series, month: Month)
    requires WellFormed(d) && Lookup(d, series, month).Ok? && Lookup(d, series, month).value.Some?
    ensures var v := Lookup(d, series, month).value.value;
            && v.series == series && v.month == month && v.value >= 0
            && ((series, month) in d.values ==> v == d.values[(series, month)])
            && ((series, month) !in d.values ==> v.chainSource != "")
  {
    if (series, month) !in d.values { LookupDerivedShape(d, series, month, 0); }
  }

  /** A value that is not published is found only by chaining: from the published value of that month in the
      factor's own series, through the one factor into this series, once it is in effect. */
  lemma LookupChains(d: Dataset, series: Series, month: Month) returns (i: nat)
    requires WellFormed(d) && Lookup(d, series, month).Ok? && Lookup(d, series, month).value.Some?
    ensures (series, month) !in d.values ==>
              && i < |d.factors| && d.factors[i].to == series && d.factors[i].effectiveFrom <= month
              && (d.factors[i].from, month) in d.values
              && ChainedFrom(d.values[(d.factors[i].from, month)], d.factors[i], Lookup(d, series, month).value.value)
              && forall j :: 0 <= j < |d.factors| && d.factors[j].to == series ==> j == i
  {
    i := 0;
    if (series, month) !in d.values { i := SuppliedBy(d, series, month, 0); }
  }

  lemma {:induction false} SuppliedBy(d: Dataset, series: Series, month: Month, k: nat) returns (i: nat)
    requires WellFormed(d) && k <= |d.factors|
    requires LookupDerived(d, series, month, k).Ok? && LookupDerived(d, series, month, k).value.Some?
    ensures i < |d.factors| && Supplies(d, d.factors[i], series, month)
    ensures ChainedFrom(d.values[(d.factors[i].from, month)], d.factors[i],
                        LookupDerived(d, series, month, k).value.value)
    decreases |d.factors| - k
  {
    hide Derived, ChainedFrom;
    if Supplies(d, d.factors[k], series, month) {
      i := k;
      DerivedIsChained(d.values[(d.factors[k].from, month)], d.factors[k]);
    } else {
      i := SuppliedBy(d, series, month, k + 1);
    }
  }

  // ----- The publication frontier

  /** Some observation, published or derivable, exists for the month. */
  predicate Observed(d: Dataset, series: Series, month: Month) {
    (series, month) in d.values || exists i :: 0 <= i < |d.factors| && Supplies(d, d.factors[i], series, month)
  }

  function KeysWithin(d: Dataset, series: Series): set<(Series, Month)> {
    set k | k in d.values && k.0 == series
  }

  /** `latest` in the source: the newest month with an observation, or no month. */
  ghost predicate IsLatest(d: Dataset, series: Series, last: Month) {
    && (last == NO_MONTH || Observed(d, series, last))
    && forall m: Month :: Observed(d, series, m) ==> m <= last
  }

  /** One running maximum over the months of a series, from `start` on. */
  method Newest(keys: set<(Series, Month)>, start: Month, sofar: Month) returns (last: Month)
    ensures last >= sofar
    ensures last == sofar || (last >= start && exists k :: k in keys && k.1 == last)
    ensures forall k :: k in keys && k.1 >= start ==> k.1 <= last
  {
    last := sofar;
    var rest := keys;
    while rest != {}
      invariant rest <= keys && last >= sofar
      invariant last == sofar || (last >= start && exists k :: k in keys && k.1 == last)
      invariant forall k :: k in keys && k !in rest && k.1 >= start ==> k.1 <= last
    {
      var k :| k in rest;
      rest := rest - {k};
      if k.1 >= start && k.1 > last {
        last := k.1;
      }
    }
  }

  method Latest(d: Dataset, series: Series) returns (last: Month)
    requires WellFormed(d)
    ensures IsLatest(d, series, last)
  {
    last := Newest(KeysWithin(d, series), NO_MONTH, NO_MONTH);
    assert forall m: Month :: (series, m) in d.values ==> (series, m) in KeysWithin(d, series);
    for i := 0 to |d.factors|
      invariant last == NO_MONTH || Observed(d, series, last)
      invariant forall m: Month :: (series, m) in d.values ==> m <= last
      invariant forall j, m: Month :: 0 <= j < i && Supplies(d, d.factors[j], series, m) ==> m <= last
    {
      var f := d.factors[i];
      if f.to == series {
        var newest := Newest(KeysWithin(d, f.from), f.effectiveFrom, last);
        assert forall m: Month :: Supplies(d, f, series, m) ==> (f.from, m) in KeysWithin(d, f.from);
        assert newest != last ==> Supplies(d, d.factors[i], series, newest);
        last := newest;
      }
    }
  }

  /** A lookup finds nothing exactly where nothing is published and no factor into the series that is in effect
      leads from a published value. */
  lemma LookupFindsObserved(d: Dataset, series: Series, month: Month)
    requires WellFormed(d) && ValidSeries(series) && ValidMonth(month)
    ensures Lookup(d, series, month) == Ok(None) <==> !Observed(d, series, month)
    ensures Observed(d, series, month) <==>
              || (series, month) in d.values
              || exists i :: && 0 <= i < |d.factors| && d.factors[i].to == series
                             && d.factors[i].effectiveFrom <= month && (d.factors[i].from, month) in d.values
  {
    LookupDerivedShape(d, series, month, 0);
  }

  /** A lookup refuses exactly unknown series, texts that are no month, and chained values beyond 64 bits. */
  lemma LookupRefuses(d: Dataset, series: Series, month: Month)
    requires WellFormed(d)
    ensures Lookup(d, series, month) == Err(InvalidKey) <==> series.UnknownSeries? || !ValidMonth(month)
    ensures (series, month) in d.values && !series.UnknownSeries? && ValidMonth(month) ==> Lookup(d, series, month).Ok?
    ensures Lookup(d, series, month).Err? ==> Lookup(d, series, month).error in {InvalidKey, ChainingOverflow}
  {
    DerivedErrors(d, series, month, 0);
  }

  lemma {:induction false} DerivedErrors(d: Dataset, series: Series, month: Month, i: nat)
    requires WellFormed(d) && i <= |d.factors|
    ensures LookupDerived(d, series, month, i).Err? ==> LookupDerived(d, series, month, i).error == ChainingOverflow
    decreases |d.factors| - i
  {
    if i < |d.factors| { DerivedErrors(d, series, month, i + 1); }
    hide RoundedRatio;
  }

  /** "Not published" is sound: past the frontier no later lookup can find anything. */
  lemma NothingAfterLatest(d: Dataset, series: Series, last: Month, month: Month)
    requires WellFormed(d) && ValidSeries(series) && IsLatest(d, series, last)
    requires ValidMonth(month) && month > last
    ensures Lookup(d, series, month) == Ok(None)
  {
    LookupFindsObserved(d, series, month);
  }
}
