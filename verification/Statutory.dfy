/** The statutory parallel curve of the MieWeG (statutory.go, first half). */
module Statutory {
  import opened Basics
  import opened Calendar
  import opened Reals
  import opened Rounding
  import opened Dataset

  datatype AnnualValue = AnnualValue(series: Series, year: int, value: int64, preliminary: bool)

  datatype CapError =
    | InvalidAverages | InvalidModel | InvalidAnchor | DuplicateAverage(year: int)
    | MissingAverage(year: int) | PreliminaryAverage(year: int) | CapOverflow | NotFirstAdjustment

  /** `exactAmount` is the ratio before the only rounding. */
  datatype Ceiling = Ceiling(amountCents: int64, exactAmount: Option<real>, effectiveOn: Date, priceControlled: bool)

  // ----- One comparison year

  /** The published rate in percent. */
  function RawRate(previous: int64, current: int64): real
    requires previous > 0 && current > 0
  {
    (current - previous) as real / previous as real * 100.0
  }

  /** Of a rate above three percent only half of the excess counts; the price-controlled scopes are
      capped at one percent for 2025 and two percent for 2026. */
  function LimitedRate(year: int, raw: real, restricted: bool): real {
    var rate := if raw > 3.0 then (raw - 3.0) / 2.0 + 3.0 else raw;
    var cap := if year == 2025 then 1.0 else 2.0;
    if restricted && (year == 2025 || year == 2026) && rate > cap then cap else rate
  }

  /** The exact factor of one inflation year, prorated to its full months. */
  function AnnualFactor(year: int, previous: int64, current: int64, restricted: bool,
                        months: int): Result<real, CapError> {
    if previous <= 0 || current <= 0 || months < 0 || months > 12 then Err(InvalidAverages)
    else Ok(1.0 + Prorated(LimitedRate(year, RawRate(previous, current), restricted), months))
  }

  function Prorated(rate: real, months: int): real {
    rate * (months as real / 12.0) / 100.0
  }

  lemma ProratedOrder(x: real, y: real, months: int)
    requires x <= y && 0 <= months <= 12
    ensures Prorated(x, months) <= Prorated(y, months)
    ensures x > -100.0 ==> Prorated(x, months) > -1.0
  {
    var part := months as real / 12.0;
    ProductOrder(x, y, part);
    assert x > -100.0 ==> x * part > -100.0 by {
      if x < 0.0 { ProductOrder(part, 1.0, -x); } else { ProductOrder(0.0, x, part); }
    }
  }

  /** Factor laws: positive, at most the raw prorated inflation, lowered by price control, exactly one
      for no months, and equal to the raw factor up to three percent without price control. */
  lemma FactorLaws(year: int, previous: int64, current: int64, months: int)
    requires previous > 0 && current > 0 && 0 <= months <= 12
    ensures AnnualFactor(year, previous, current, true, months).Ok?
    ensures AnnualFactor(year, previous, current, false, months).Ok?
    ensures var controlled := AnnualFactor(year, previous, current, true, months).value;
            var free := AnnualFactor(year, previous, current, false, months).value;
            var raw := RawRate(previous, current);
            && 0.0 < controlled <= free <= 1.0 + Prorated(raw, months)
            && (raw <= 3.0 ==> free == 1.0 + Prorated(raw, months))
            && (months == 0 ==> controlled == free == 1.0)
  {
    var raw := RawRate(previous, current);
    hide RawRate;
    RawRateFloor(previous, current);
    ProratedOrder(LimitedRate(year, raw, true), LimitedRate(year, raw, false), months);
    ProratedOrder(LimitedRate(year, raw, false), raw, months);
  }

  lemma RawRateFloor(previous: int64, current: int64)
    requires previous > 0 && current > 0
    ensures RawRate(previous, current) > -100.0
  {
    QuotientBound((current - previous) as real, previous as real, -1.0);
  }

  // ----- What the statute asks of a year

  /** The factor of a full year, told from the two averages: their quotient up to 1.03, beyond that the middle
      between 1.03 and the quotient; for the price-controlled scopes at most 1.01 in 2025 and 1.02 in 2026. */
  ghost function FullYear(year: int, previous: int64, current: int64, restricted: bool): real
    requires previous > 0
  {
    var quotient := current as real / previous as real;
    var free := if quotient <= 1.03 then quotient else (quotient + 1.03) / 2.0;
    if restricted && year == 2025 && free > 1.01 then 1.01
    else if restricted && year == 2026 && free > 1.02 then 1.02
    else free
  }

  lemma RawRateIsQuotient(previous: int64, current: int64)
    requires previous > 0 && current > 0
    ensures RawRate(previous, current) == (current as real / previous as real - 1.0) * 100.0
  {
    var x, p := current as real, previous as real;
    assert x / p * p == x;
    assert (x / p - 1.0) * p == x - p;
    assert (current - previous) as real == x - p;
    OneQuotient(x - p, p, x / p - 1.0);
  }

  lemma OneQuotient(x: real, p: real, q: real)
    requires p > 0.0 && q * p == x
    ensures x / p == q
  {
  }

  /** The factor of some months of a year, each with a twelfth of what the full year adds. */
  ghost function PartOf(full: real, months: int): real {
    1.0 + (full - 1.0) * (months as real / 12.0)
  }

  /** Every full month adds a twelfth of what the full year adds. */
  lemma FactorOfMonths(year: int, previous: int64, current: int64, restricted: bool, months: int)
    requires previous > 0 && current > 0 && 0 <= months <= 12
    ensures AnnualFactor(year, previous, current, restricted, months)
            == Ok(PartOf(FullYear(year, previous, current, restricted), months))
  {
    RawRateIsQuotient(previous, current);
    var quotient := current as real / previous as real;
    hide RawRate;
    var rate := LimitedRate(year, RawRate(previous, current), restricted);
    assert rate == (FullYear(year, previous, current, restricted) - 1.0) * 100.0;
    hide LimitedRate, FullYear, Prorated, PartOf;
    RateOfPart(rate, FullYear(year, previous, current, restricted), months);
  }

  lemma RateOfPart(rate: real, full: real, months: int)
    requires rate == (full - 1.0) * 100.0
    ensures 1.0 + Prorated(rate, months) == PartOf(full, months)
  {
    var part := months as real / 12.0;
    assert rate * part == ((full - 1.0) * part) * 100.0;
  }

  // ----- The curve

  /** The factor of year `year` for a curve anchored in `anchor`; a December anchor contributes none
      and asks for no averages. */
  function YearFactor(byYear: map<int, AnnualValue>, anchor: Month, restricted: bool,
                      year: int): Result<real, CapError> {
    var months := if year == YearOf(anchor) then 12 - MonthInYear(anchor) else 12;
    if months == 0 then Ok(1.0)
    else if year - 1 !in byYear then Err(MissingAverage(year - 1))
    else if year !in byYear then Err(MissingAverage(year))
    else if byYear[year - 1].preliminary || byYear[year].preliminary then Err(PreliminaryAverage(year))
    else AnnualFactor(year, byYear[year - 1].value, byYear[year].value, restricted, months)
  }

  /** The exact ceiling before rounding: the start times one factor per year. */
  function Curve(byYear: map<int, AnnualValue>, anchor: Month, start: int64, restricted: bool,
                 throughYear: int): Result<real, CapError>
    decreases throughYear - YearOf(anchor)
  {
    if throughYear <= YearOf(anchor) then Ok(start as real)
    else
      match Curve(byYear, anchor, start, restricted, throughYear - 1)
      case Err(e) => Err(e)
      case Ok(amount) =>
        match YearFactor(byYear, anchor, restricted, throughYear - 1)
        case Err(e) => Err(e)
        case Ok(factor) => Ok(Scaled(amount, factor))
  }

  /** Rounded once, half down, and refused only where the cents are no 64-bit number. */
  function FinishCeiling(amount: real, year: int, restricted: bool): (r: Result<Ceiling, CapError>)
    requires 2026 <= year <= 9999
    ensures if FitsInt64(RoundReal(amount, false))
            then r.Ok? && r.value.exactAmount == Some(amount) && IsNearest(amount, r.value.amountCents as int, false)
            else r == Err(CapOverflow)
  {
    match RoundFit(amount, false)
    case Err(_) => Err(CapOverflow)
    case Ok(cents) => Ok(Ceiling(cents, Some(amount), MonthStart(MonthAt(year, 4)), restricted))
  }

  // ----- Indexing the averages

  ghost predicate UniqueYears(averages: seq<AnnualValue>) {
    forall i, j :: 0 <= i < j < |averages| && averages[i].series == VPI2020 == averages[j].series ==>
      averages[i].year != averages[j].year
  }

  ghost predicate Indexes(byYear: map<int, AnnualValue>, averages: seq<AnnualValue>) {
    && (forall y :: y in byYear ==> byYear[y] in averages && byYear[y].series == VPI2020 && byYear[y].year == y)
    && (forall v :: v in averages && v.series == VPI2020 ==> v.year in byYear && byYear[v.year] == v)
  }

  method IndexByYear(averages: seq<AnnualValue>) returns (r: Result<map<int, AnnualValue>, CapError>)
    ensures r.Ok? <==> UniqueYears(averages)
    ensures r.Err? ==> r.error.DuplicateAverage?
    ensures r.Ok? ==> Indexes(r.value, averages)
  {
    var byYear: map<int, AnnualValue> := map[];
    for i := 0 to |averages|
      invariant UniqueYears(averages[..i])
      invariant Indexes(byYear, averages[..i])
    {
      var v := averages[i];
      assert averages[..i + 1] == averages[..i] + [v];
      if v.series != VPI2020 {
        continue;
      }
      if v.year in byYear {
        var j :| 0 <= j < i && averages[..i][j] == byYear[v.year];
        assert averages[j].year == averages[i].year && averages[j].series == averages[i].series;
        return Err(DuplicateAverage(v.year));
      }
      assert forall j :: 0 <= j < i ==> averages[..i][j] in averages[..i];
      byYear := byYear[v.year := v];
    }
    assert averages[..|averages|] == averages;
    return Ok(byYear);
  }

  predicate ValidCap(anchor: Month, startCents: int64, throughYear: int) {
    ValidMonth(anchor) && startCents > 0 && 2026 <= throughYear <= 9999 && throughYear > YearOf(anchor)
  }

  /** `CapCurve`: rebuilt from its immutable anchor, multiplied year by year, rounded once. */
  method CapCurve(anchor: Month, startCents: int64, averages: seq<AnnualValue>, restricted: bool, throughYear: int)
    returns (r: Result<Ceiling, CapError>, ghost byYear: map<int, AnnualValue>)
    ensures var valid := ValidMonth(anchor) && startCents > 0 && YearOf(anchor) < throughYear
            && 2026 <= throughYear <= 9999;
            && (!valid ==> r == Err(InvalidAnchor))
            && (valid && !UniqueYears(averages) ==> r.Err? && r.error.DuplicateAverage?)
    ensures ValidCap(anchor, startCents, throughYear) && UniqueYears(averages) ==>
              && Indexes(byYear, averages)
              && r == match Curve(byYear, anchor, startCents, restricted, throughYear)
                      case Err(e) => Err(e)
                      case Ok(amount) => FinishCeiling(amount, throughYear, restricted)
  {
    byYear := map[];
    if !ValidCap(anchor, startCents, throughYear) {
      return Err(InvalidAnchor), byYear;
    }
    var indexed := IndexByYear(averages);
    if indexed.Err? {
      return Err(indexed.error), byYear;
    }
    byYear := indexed.value;
    var amount := MultiplyYears(indexed.value, anchor, startCents, restricted, throughYear);
    if amount.Err? {
      return Err(amount.error), byYear;
    }
    r := FinishCeiling(amount.value, throughYear, restricted);
  }

  method MultiplyYears(byYear: map<int, AnnualValue>, anchor: Month, startCents: int64, restricted: bool,
                       throughYear: int)
    returns (r: Result<real, CapError>)
    requires throughYear >= YearOf(anchor)
    ensures r == Curve(byYear, anchor, startCents, restricted, throughYear)
  {
    hide YearFactor, YearOf, Scaled;
    var amount := startCents as real;
    var year: int := YearOf(anchor);
    while year < throughYear
      invariant YearOf(anchor) <= year <= throughYear
      invariant Curve(byYear, anchor, startCents, restricted, year) == Ok(amount)
    {
      var factor := YearFactor(byYear, anchor, restricted, year);
      if factor.Err? {
        CurveStopsAtError(byYear, anchor, startCents, restricted, year, throughYear);
        return Err(factor.error);
      }
      CurveExtends(byYear, anchor, startCents, restricted, year);
      amount := Scaled(amount, factor.value);
      year := year + 1;
    }
    return Ok(amount);
  }

  lemma {:induction false} CurveStopsAtError(byYear: map<int, AnnualValue>, anchor: Month, start: int64,
                                             restricted: bool, year: int, throughYear: int)
    requires YearOf(anchor) <= year < throughYear
    requires Curve(byYear, anchor, start, restricted, year).Ok? && YearFactor(byYear, anchor, restricted, year).Err?
    ensures Curve(byYear, anchor, start, restricted, throughYear)
            == Err(YearFactor(byYear, anchor, restricted, year).error)
    decreases throughYear
  {
    hide YearFactor;
    if year + 1 < throughYear { CurveStopsAtError(byYear, anchor, start, restricted, year, throughYear - 1); }
  }

  // ----- Laws of the curve

  /** One further year multiplies by exactly that year's factor, with no rounding in between. */
  lemma CurveExtends(byYear: map<int, AnnualValue>, anchor: Month, start: int64, restricted: bool, throughYear: int)
    requires throughYear >= YearOf(anchor)
    ensures var before := Curve(byYear, anchor, start, restricted, throughYear);
            var after := Curve(byYear, anchor, start, restricted, throughYear + 1);
            && (after.Ok? <==> before.Ok? && YearFactor(byYear, anchor, restricted, throughYear).Ok?)
            && (after.Ok? ==>
                  after.value == Scaled(before.value, YearFactor(byYear, anchor, restricted, throughYear).value))
  {
    hide YearFactor, Scaled;
  }

  ghost predicate FinalAverages(byYear: map<int, AnnualValue>, year: int) {
    && year - 1 in byYear && year in byYear
    && byYear[year - 1].value > 0 && byYear[year].value > 0
    && !byYear[year - 1].preliminary && !byYear[year].preliminary
  }

  /** How many months of a year lie after the anchor month: those up to December from January or from the
      month after the anchor, whichever is later. */
  ghost function MonthsAfter(anchor: Month, year: int): int {
    MonthAt(year, 12) + 1 - Max(MonthAt(year, 1), anchor + 1)
  }

  lemma MonthsCounted(anchor: Month, year: int)
    requires anchor >= 0 && year >= YearOf(anchor)
    ensures MonthsAfter(anchor, year) == if year == YearOf(anchor) then 12 - MonthInYear(anchor) else 12
    ensures 0 <= MonthsAfter(anchor, year) <= 12
  {
    MonthParts(anchor);
    hide YearOf, MonthInYear;
  }

  lemma YearFactorCounts(byYear: map<int, AnnualValue>, anchor: Month, restricted: bool, year: int)
    requires anchor >= 0 && year >= YearOf(anchor)
    ensures var factor := YearFactor(byYear, anchor, restricted, year);
            && (factor.Ok? <==> MonthsAfter(anchor, year) == 0 || FinalAverages(byYear, year))
            && (MonthsAfter(anchor, year) == 0 ==> factor == Ok(1.0))
            && (FinalAverages(byYear, year) ==> factor == Ok(PartOfYear(byYear, anchor, restricted, year)))
  {
    MonthsCounted(anchor, year);
    hide AnnualFactor, YearOf, MonthInYear, MonthsAfter, FullYear, PartOf;
    var months := MonthsAfter(anchor, year);
    if year - 1 in byYear && year in byYear {
      var previous, current := byYear[year - 1].value, byYear[year].value;
      if previous > 0 && current > 0 { FactorOfMonths(year, previous, current, restricted, months); }
      AveragesMustBePositive(year, previous, current, months);
    }
  }

  /** The part of a full year's factor that the months after the anchor make up. */
  ghost function PartOfYear(byYear: map<int, AnnualValue>, anchor: Month, restricted: bool, year: int): real
    requires FinalAverages(byYear, year)
  {
    PartOf(FullYear(year, byYear[year - 1].value, byYear[year].value, restricted), MonthsAfter(anchor, year))
  }

  /** A year lets the curve go on if no month of it lies after the anchor or both averages are final, and then
      multiplies it by the part of its full factor that those months make up. */
  lemma CurveYearByYear(byYear: map<int, AnnualValue>, anchor: Month, start: int64, restricted: bool, year: int)
    requires anchor >= 0 && year >= YearOf(anchor)
    ensures Curve(byYear, anchor, start, restricted, YearOf(anchor)) == Ok(start as real)
    ensures var before := Curve(byYear, anchor, start, restricted, year);
            var after := Curve(byYear, anchor, start, restricted, year + 1);
            && (after.Ok? <==> before.Ok? && (MonthsAfter(anchor, year) == 0 || FinalAverages(byYear, year)))
            && (after.Ok? && MonthsAfter(anchor, year) == 0 ==> after == before)
            && (after.Ok? && FinalAverages(byYear, year) ==>
                  after.value == Scaled(before.value, PartOfYear(byYear, anchor, restricted, year)))
  {
    CurveExtends(byYear, anchor, start, restricted, year);
    YearFactorCounts(byYear, anchor, restricted, year);
    var before := Curve(byYear, anchor, start, restricted, year);
    assert Curve(byYear, anchor, start, restricted, YearOf(anchor)) == Ok(start as real);
    hide Curve, PartOfYear, YearFactor, YearOf, MonthsAfter, FinalAverages, Scaled;
    if before.Ok? { ScaledTwice(before.value, 1.0, 1.0); }
  }

  /** A price-controlled curve gains at most 1 percent for 2025 and 2 percent for 2026, and that much when the
      averages rise as far. */
  lemma ControlledYears(byYear: map<int, AnnualValue>, anchor: Month, start: int64)
    requires 0 <= anchor && YearOf(anchor) < 2025 && start > 0 && Curve(byYear, anchor, start, true, 2027).Ok?
    ensures Curve(byYear, anchor, start, true, 2025).Ok? && FinalAverages(byYear, 2025) && FinalAverages(byYear, 2026)
    ensures var before := Curve(byYear, anchor, start, true, 2025).value;
            var after := Curve(byYear, anchor, start, true, 2027).value;
            && after <= Scaled(Scaled(before, 1.01), 1.02)
            && (100.0 * byYear[2025].value as real >= 101.0 * byYear[2024].value as real
                && 100.0 * byYear[2026].value as real >= 102.0 * byYear[2025].value as real ==>
                  after == Scaled(Scaled(before, 1.01), 1.02))
  {
    hide Curve, YearOf;
    CurveYearByYear(byYear, anchor, start, true, 2025);
    CurveYearByYear(byYear, anchor, start, true, 2026);
    CurvePositiveAndOrdered(byYear, anchor, start, 2025);
    MonthsCounted(anchor, 2025);
    MonthsCounted(anchor, 2026);
    CappedFullYear(2025, byYear[2024].value, byYear[2025].value, 1.01);
    CappedFullYear(2026, byYear[2025].value, byYear[2026].value, 1.02);
    var before := Curve(byYear, anchor, start, true, 2025).value;
    var f := FullYear(2025, byYear[2024].value, byYear[2025].value, true);
    var g := FullYear(2026, byYear[2025].value, byYear[2026].value, true);
    WholeYear(f);
    WholeYear(g);
    hide FullYear, PartOf, FinalAverages, MonthsAfter;
    ScaledAtMost(before, f, 1.01);
    ScaledAtMost(Scaled(before, f), g, 1.02);
    ScaledAtMost2(Scaled(before, f), Scaled(before, 1.01), 1.02);
  }

  lemma WholeYear(full: real)
    ensures PartOf(full, 12) == full
  {
  }

  lemma CappedFullYear(year: int, previous: int64, current: int64, cap: real)
    requires previous > 0 && current > 0
    requires (year == 2025 && cap == 1.01) || (year == 2026 && cap == 1.02)
    ensures 0.0 < FullYear(year, previous, current, true) <= cap
    ensures FullYear(year, previous, current, true) == cap <==> current as real >= cap * previous as real
  {
    QuotientBound(current as real, previous as real, cap);
    QuotientBound(current as real, previous as real, 0.0);
  }

  lemma ScaledAtMost(amount: real, f: real, g: real)
    requires amount >= 0.0 && 0.0 < f <= g
    ensures 0.0 <= Scaled(amount, f) <= Scaled(amount, g)
  {
    ProductOrder(f, g, amount);
  }

  lemma ScaledAtMost2(x: real, y: real, f: real)
    requires x <= y && f >= 0.0
    ensures Scaled(x, f) <= Scaled(y, f)
  {
    ProductOrder(x, y, f);
  }

  /** The product of the factors of the years from `first` up to, not including, `end`. */
  function YearsProduct(byYear: map<int, AnnualValue>, anchor: Month, restricted: bool, first: int, end: int): real
    decreases end - first
  {
    if end <= first then 1.0
    else
      match YearFactor(byYear, anchor, restricted, end - 1)
      case Err(_) => 1.0
      case Ok(factor) => Scaled(YearsProduct(byYear, anchor, restricted, first, end - 1), factor)
  }

  lemma {:induction false} CurveContinues(byYear: map<int, AnnualValue>, anchor: Month, start: int64, restricted: bool,
                                          first: int, end: int)
    requires YearOf(anchor) <= first <= end && Curve(byYear, anchor, start, restricted, end).Ok?
    ensures Curve(byYear, anchor, start, restricted, first).Ok?
    ensures Curve(byYear, anchor, start, restricted, end).value ==
            Scaled(Curve(byYear, anchor, start, restricted, first).value,
                   YearsProduct(byYear, anchor, restricted, first, end))
    decreases end
  {
    hide YearFactor, Scaled, YearOf;
    if first < end {
      CurveContinues(byYear, anchor, start, restricted, first, end - 1);
      ScaledTwice(Curve(byYear, anchor, start, restricted, first).value,
                  YearsProduct(byYear, anchor, restricted, first, end - 1),
                  YearFactor(byYear, anchor, restricted, end - 1).value);
    } else {
      ScaledTwice(Curve(byYear, anchor, start, restricted, first).value, 1.0, 1.0);
    }
  }

  /** Two ceilings of one curve, of any two years: the later exact ceiling is the earlier exact one times the
      factors of the years between, whatever the earlier one was rounded to, and is rounded itself only once. */
  lemma CeilingsContinue(byYear: map<int, AnnualValue>, anchor: Month, start: int64, restricted: bool,
                         first: int, end: int, before: Ceiling, after: Ceiling)
    requires YearOf(anchor) <= first <= end && 2026 <= first && end <= 9999
    requires Curve(byYear, anchor, start, restricted, first).Ok? && Curve(byYear, anchor, start, restricted, end).Ok?
    requires FinishCeiling(Curve(byYear, anchor, start, restricted, first).value, first, restricted) == Ok(before)
    requires FinishCeiling(Curve(byYear, anchor, start, restricted, end).value, end, restricted) == Ok(after)
    ensures before.exactAmount.Some?
    ensures var exact := Scaled(before.exactAmount.value, YearsProduct(byYear, anchor, restricted, first, end));
            after.exactAmount == Some(exact) && IsNearest(exact, after.amountCents as int, false)
  {
    hide Curve, YearsProduct, MonthStart, Scaled, YearOf;
    CurveContinues(byYear, anchor, start, restricted, first, end);
  }

  lemma YearFactorLaws(byYear: map<int, AnnualValue>, anchor: Month, year: int)
    ensures var controlled := YearFactor(byYear, anchor, true, year);
            var free := YearFactor(byYear, anchor, false, year);
            && (controlled.Ok? <==> free.Ok?)
            && (free.Ok? ==> 0.0 < controlled.value <= free.value)
  {
    hide AnnualFactor;
    var months := if year == YearOf(anchor) then 12 - MonthInYear(anchor) else 12;
    if months != 0 && year - 1 in byYear && year in byYear && byYear[year - 1].value > 0 && byYear[year].value > 0 {
      FactorLaws(year, byYear[year - 1].value, byYear[year].value, months);
    } else if year - 1 in byYear && year in byYear {
      AveragesMustBePositive(year, byYear[year - 1].value, byYear[year].value, months);
    }
  }

  lemma AveragesMustBePositive(year: int, previous: int64, current: int64, months: int)
    ensures previous <= 0 || current <= 0 ==>
              AnnualFactor(year, previous, current, true, months)
                == AnnualFactor(year, previous, current, false, months) == Err(InvalidAverages)
  {
  }

  /** The ceiling stays positive, and price control never raises it. */
  lemma {:induction false} CurvePositiveAndOrdered(byYear: map<int, AnnualValue>, anchor: Month, start: int64,
                                                   throughYear: int)
    requires start > 0
    ensures var controlled := Curve(byYear, anchor, start, true, throughYear);
            var free := Curve(byYear, anchor, start, false, throughYear);
            && (controlled.Ok? <==> free.Ok?)
            && (free.Ok? ==> 0.0 < controlled.value <= free.value)
    decreases throughYear - YearOf(anchor)
  {
    hide YearFactor;
    if throughYear > YearOf(anchor) {
      CurvePositiveAndOrdered(byYear, anchor, start, throughYear - 1);
      YearFactorLaws(byYear, anchor, throughYear - 1);
      var a := Curve(byYear, anchor, start, true, throughYear - 1);
      var b := Curve(byYear, anchor, start, false, throughYear - 1);
      var f, g := YearFactor(byYear, anchor, true, throughYear - 1), YearFactor(byYear, anchor, false, throughYear - 1);
      if b.Ok? && g.Ok? { ProductsOrdered(a.value, b.value, f.value, g.value); }
    }
  }

  lemma ProductsOrdered(a: real, b: real, f: real, g: real)
    requires 0.0 < a <= b && 0.0 < f <= g
    ensures 0.0 < Scaled(a, f) <= Scaled(b, g)
  {
    ProductOrder(a, b, f);
    ProductOrder(f, g, b);
  }

  /** The rounded ceilings keep that order. */
  lemma PriceControlNeverRaises(byYear: map<int, AnnualValue>, anchor: Month, start: int64, throughYear: int)
    requires start > 0 && 2026 <= throughYear <= 9999
    ensures var controlled := Curve(byYear, anchor, start, true, throughYear);
            var free := Curve(byYear, anchor, start, false, throughYear);
            controlled.Ok? && free.Ok? ==>
              match (FinishCeiling(controlled.value, throughYear, true), FinishCeiling(free.value, throughYear, false))
              case (Ok(c), Ok(f)) => 0 <= c.amountCents <= f.amountCents && c.effectiveOn == f.effectiveOn
              case (Ok(c), Err(_)) => true
              case (Err(_), later) => later.Err?
  {
    hide MonthStart, Curve, RoundReal;
    CurvePositiveAndOrdered(byYear, anchor, start, throughYear);
    var controlled := Curve(byYear, anchor, start, true, throughYear);
    var free := Curve(byYear, anchor, start, false, throughYear);
    if controlled.Ok? && free.Ok? {
      RoundMonotone(controlled.value, free.value, false);
      RoundAboveInteger(controlled.value, 0, false);
    }
  }

  // ----- The one-year form

  datatype AnnualModel = AnnualModel(
    year: int, baseAmountCents: int64, previousAverage: int64, currentAverage: int64, fullMonths: int,
    priceControlled: bool)

  function AnnualCeiling(model: AnnualModel): Result<Ceiling, CapError> {
    if model.year < 2026 || model.year > 9999 || model.baseAmountCents <= 0 then Err(InvalidModel)
    else
      match AnnualFactor(model.year - 1, model.previousAverage, model.currentAverage, model.priceControlled,
                         model.fullMonths)
      case Err(e) => Err(e)
      case Ok(factor) => FinishCeiling(Scaled(model.baseAmountCents as real, factor), model.year, model.priceControlled)
  }

  function FirstAdjustmentMonths(concluded: Month, adjustmentYear: int): Result<int, CapError> {
    if !ValidMonth(concluded) || YearOf(concluded) < 2026
      || adjustmentYear != YearOf(concluded) + 1 then Err(NotFirstAdjustment)
    else Ok(12 - MonthInYear(concluded))
  }

  /** A curve of one year: the start times the factor of the months after the anchor month. */
  lemma OneYearCurve(byYear: map<int, AnnualValue>, anchor: Month, start: int64, restricted: bool)
    requires FinalAverages(byYear, YearOf(anchor))
    ensures var year := YearOf(anchor);
            var factor := AnnualFactor(year, byYear[year - 1].value, byYear[year].value, restricted,
                                       12 - MonthInYear(anchor));
            factor.Ok? && Curve(byYear, anchor, start, restricted, year + 1) == Ok(Scaled(start as real, factor.value))
  {
    var year: int := YearOf(anchor);
    var months := 12 - MonthInYear(anchor);
    FactorLaws(year, byYear[year - 1].value, byYear[year].value, months);
    hide YearOf, MonthInYear, AnnualFactor, Scaled;
    var factor := AnnualFactor(year, byYear[year - 1].value, byYear[year].value, restricted, months);
    if restricted {} else {}
    assert YearFactor(byYear, anchor, restricted, year) == factor;
    hide YearFactor;
    CurveExtends(byYear, anchor, start, restricted, year);
  }

  /** The one-year form: from 2026 on, a positive amount, positive averages and up to twelve months give the amount
      times that part of the full factor, rounded once to the cent; nothing else is accepted. */
  lemma AnnualCeilingIs(model: AnnualModel)
    ensures var r := AnnualCeiling(model);
            && (r.Ok? ==>
                  && 2026 <= model.year <= 9999 && model.baseAmountCents > 0
                  && model.previousAverage > 0 && model.currentAverage > 0 && 0 <= model.fullMonths <= 12
                  && var full := FullYear(model.year - 1, model.previousAverage, model.currentAverage,
                                          model.priceControlled);
                  && r.value.exactAmount == Some(Scaled(model.baseAmountCents as real, PartOf(full, model.fullMonths)))
                  && IsNearest(r.value.exactAmount.value, r.value.amountCents as int, false)
                  && r.value.effectiveOn as int == DayCount(model.year, 4)
                  && r.value.priceControlled == model.priceControlled)
            && (r.Err? ==>
                  || !(2026 <= model.year <= 9999) || model.baseAmountCents <= 0
                  || model.previousAverage <= 0 || model.currentAverage <= 0 || !(0 <= model.fullMonths <= 12)
                  || var full := FullYear(model.year - 1, model.previousAverage, model.currentAverage,
                                          model.priceControlled);
                     !FitsInt64(RoundReal(Scaled(model.baseAmountCents as real, PartOf(full, model.fullMonths)),
                                          false)))
  {
    if 2026 <= model.year <= 9999 { MonthStartIsDayCount(model.year, 4); }
    if model.previousAverage > 0 && model.currentAverage > 0 && 0 <= model.fullMonths <= 12 {
      FactorOfMonths(model.year - 1, model.previousAverage, model.currentAverage, model.priceControlled,
                     model.fullMonths);
    }
    hide FullYear, PartOf, Scaled, LimitedRate, RawRate, Prorated, MonthStart, DayCount, RoundReal;
  }

  /** Which average a curve asks for, or finds only preliminary, in its first year that cannot be computed. */
  lemma MissingYearIsNamed(byYear: map<int, AnnualValue>, anchor: Month, restricted: bool, year: int)
    requires anchor >= 0 && year >= YearOf(anchor) && MonthsAfter(anchor, year) != 0
    ensures var factor := YearFactor(byYear, anchor, restricted, year);
            && (year - 1 !in byYear ==> factor == Err(MissingAverage(year - 1)))
            && (year - 1 in byYear && year !in byYear ==> factor == Err(MissingAverage(year)))
            && (year - 1 in byYear && year in byYear && (byYear[year - 1].preliminary || byYear[year].preliminary) ==>
                  factor == Err(PreliminaryAverage(year)))
  {
    MonthsCounted(anchor, year);
  }

  /** The months of a first adjustment are those of its contract's year after the signing month. */
  lemma FirstMonthsAreCounted(concluded: Month, adjustmentYear: int)
    ensures var r := FirstAdjustmentMonths(concluded, adjustmentYear);
            && (r.Ok? <==>
                  ValidMonth(concluded) && YearOf(concluded) >= 2026 && adjustmentYear == YearOf(concluded) + 1)
            && (r.Ok? ==> r.value == MonthsAfter(concluded, YearOf(concluded)))
  {
    if concluded >= 0 { MonthsCounted(concluded, YearOf(concluded)); }
  }

  /** A first adjustment computed by the one-year form is the curve's value on that span: the signing
      month does not count, and in December neither form moves the rent. */
  lemma AnnualCeilingAgrees(byYear: map<int, AnnualValue>, concluded: Month, start: int64, restricted: bool)
    requires ValidMonth(concluded) && 2026 <= YearOf(concluded) < 9999 && start > 0
    requires FinalAverages(byYear, YearOf(concluded))
    ensures var year := YearOf(concluded) + 1;
            var months := FirstAdjustmentMonths(concluded, year);
            var exact := Curve(byYear, concluded, start, restricted, year);
            && months.Ok? && exact.Ok?
            && AnnualCeiling(AnnualModel(year, start, byYear[year - 2].value, byYear[year - 1].value, months.value,
                                         restricted))
               == FinishCeiling(exact.value, year, restricted)
  {
    OneYearCurve(byYear, concluded, start, restricted);
    hide AnnualFactor, FinishCeiling, YearOf, MonthInYear, Curve, Scaled;
  }
}
