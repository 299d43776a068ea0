/** The rules by which one month decides an index clause, told from the clause and the two indices alone
    (evaluate.go). */
module JumpRules {
  import opened Basics
  import opened Calendar
  import opened Rounding
  import opened Dataset
  import opened Evaluate
  import opened Replay

  /** `c` is the percentage by which the index has moved: exactly, or to the nearest tenth. */
  ghost predicate IsChange(rounding: PercentRounding, base: int, index: int, c: real)
    requires base > 0
  {
    if rounding == UnroundedPercent then c * base as real == (index - base) as real * 100.0
    else exists n :: InTenths(base, index, n) && c == n as real / 10.0
  }

  /** n tenths of a percent are nearest to the movement of the index. */
  ghost predicate InTenths(base: int, index: int, n: int)
    requires base > 0
  {
    IsNearest((index - base) as real * 1000.0 / base as real, n, true)
  }

  lemma ChangeIsRelative(rounding: PercentRounding, base: int64, index: int64)
    requires base > 0 && index > 0
    ensures IsChange(rounding, base as int, index as int, ChangePercent(rounding, base, index))
  {
    if rounding == UnroundedPercent {
      var x, b := (index - base) as real, base as real;
      assert x / b * b == x;
      Hundredfold(x / b, b);
    } else {
      assert InTenths(base as int, index as int, ChangeTenths(base, index));
    }
  }

  lemma Hundredfold(q: real, b: real)
    ensures (q * 100.0) * b == (q * b) * 100.0
  {
  }

  lemma OneChange(rounding: PercentRounding, base: int, index: int, c: real, d: real)
    requires base > 0 && IsChange(rounding, base, index, c) && IsChange(rounding, base, index, d)
    ensures c == d
  {
    if rounding == UnroundedPercent {
      EqualFactors(c, d, base as real);
    } else {
      var m :| InTenths(base, index, m) && c == m as real / 10.0;
      var n :| InTenths(base, index, n) && d == n as real / 10.0;
      NearestIsUnique((index - base) as real * 1000.0 / base as real, m, n, true);
    }
  }

  /** The movement goes beyond a threshold, or just reaches it where that is enough; standing still never does. */
  ghost predicate Beyond(clause: Clause, movement: real, threshold: real) {
    movement != 0.0 && (Abs(movement) > threshold || (clause.crossing == Reaches && Abs(movement) == threshold))
  }

  /** The clause's threshold is crossed: in index points, or in percent. */
  ghost predicate Crosses(clause: Clause, base: int, index: int)
    requires base > 0
  {
    if clause.thresholdKind == PointsThreshold
    then Beyond(clause, (index - base) as real, clause.threshold as real)
    else exists c :: IsChange(clause.percentRounding, base, index, c)
                     && Beyond(clause, c * 1_000_000.0, clause.threshold as real)
  }

  lemma CrossingTest(clause: Clause, base: int64, index: int64)
    requires base > 0 && index > 0 && clause.threshold >= 0
    ensures Qualifies(clause, Measure(clause, base, index)) <==> Crosses(clause, base as int, index as int)
  {
    var c := ChangePercent(clause.percentRounding, base, index);
    ChangeIsRelative(clause.percentRounding, base, index);
    if clause.thresholdKind == PointsThreshold {
      InMillionths(clause, DecimalValue(index - base), (index - base) as real);
    } else {
      InMillionths(clause, c, c * 1_000_000.0);
      if Crosses(clause, base as int, index as int) {
        var d :| IsChange(clause.percentRounding, base as int, index as int, d)
                 && Beyond(clause, d * 1_000_000.0, clause.threshold as real);
        OneChange(clause.percentRounding, base as int, index as int, c, d);
      }
    }
  }

  lemma InMillionths(clause: Clause, measure: real, millionths: real)
    requires measure * 1_000_000.0 == millionths
    ensures Qualifies(clause, measure) <==> Beyond(clause, millionths, clause.threshold as real)
  {
  }

  /** `applied` is the percentage a crossing clause charges: the whole change; or what exceeds a threshold in
      percent, in the direction of the change; or the change to an index that is nearer to the base by exactly
      a threshold in points. */
  ghost predicate Charges(clause: Clause, base: int, index: int, applied: real)
    requires base > 0
  {
    if clause.changeMode != ExcessChange then IsChange(clause.percentRounding, base, index, applied)
    else if clause.thresholdKind == PointsThreshold then
      exists nearer ::
        && (base <= nearer <= index || index <= nearer <= base)
        && AbsInt(nearer - base) == AbsInt(index - base) - clause.threshold as int
        && IsChange(clause.percentRounding, base, nearer, applied)
    else
      exists c ::
        && IsChange(clause.percentRounding, base, index, c)
        && TowardsZero(applied, c) && Abs(c) == Abs(applied) + clause.threshold as real / 1_000_000.0
  }

  lemma AppliedIsCharged(clause: Clause, base: int64, index: int64)
    requires base > 0 && index > 0 && clause.threshold >= 0 && Qualifies(clause, Measure(clause, base, index))
    ensures AppliedExact(clause, base, index).Ok? ==>
              Charges(clause, base as int, index as int, AppliedExact(clause, base, index).value)
  {
    var c := ChangePercent(clause.percentRounding, base, index);
    ChangeIsRelative(clause.percentRounding, base, index);
    ChangePercentOrder(clause.percentRounding, base, index, index);
    if clause.changeMode == ExcessChange && clause.thresholdKind == PointsThreshold {
      var nearer := Adjusted(clause, base, index);
      ChangeIsRelative(clause.percentRounding, base, nearer);
      hide ChangePercent, IsChange, PercentChange;
    } else if clause.changeMode == ExcessChange {
      hide ChangePercent, IsChange, PercentChange;
    }
  }

  // ----- One month

  /** `shown` is the change to the nearest millionth of a percent. */
  ghost predicate Shows(rounding: PercentRounding, base: int, index: int, shown: int)
    requires base > 0
  {
    exists c :: IsChange(rounding, base, index, c) && IsNearest(c * 1_000_000.0, shown, true)
  }

  /** An amount with a percentage added. */
  ghost function Charged(exact: real, applied: real): real {
    exact * (1.0 + applied / 100.0)
  }

  /** Charging `applied` percent brings the exact amount to this many cents, rounded half up. */
  ghost predicate Brings(clause: Clause, base: int, index: int, exact: real, applied: real, cents: int)
    requires base > 0
  {
    Charges(clause, base, index, applied) && IsNearest(Charged(exact, applied), cents, true)
  }

  /** A change of cents counts from one cent on, and from the agreed minimum on. */
  predicate Counts(clause: Clause, cents: int) {
    cents != clause.amountCents as int && AbsInt(cents - clause.amountCents as int) >= clause.minimumChangeCents as int
  }

  lemma ShownChange(clause: Clause, base: int64, index: int64)
    requires base > 0 && index > 0
    ensures clause.percentRounding != UnroundedPercent && PercentChange(base, index).Ok? ==>
              Shows(clause.percentRounding, base as int, index as int, PercentChange(base, index).value as int)
    ensures var shown := DisplayDecimal(ChangePercent(UnroundedPercent, base, index));
            clause.percentRounding == UnroundedPercent && shown.Ok? ==>
              Shows(clause.percentRounding, base as int, index as int, shown.value as int)
  {
    var c := ChangePercent(clause.percentRounding, base, index);
    ChangeIsRelative(clause.percentRounding, base, index);
    if clause.percentRounding != UnroundedPercent && PercentChange(base, index).Ok? {
      assert c * 1_000_000.0 == PercentChange(base, index).value as real;
    }
  }

  /** What an assessment went through. */
  lemma AssessmentShape(clause: Clause, base: int64, exact: real, index: int64, value: int64)
    requires UsableClause(clause) && base > 0 && exact >= 0.0 && index > 0
    ensures var o := AssessIndex(clause, base, exact, index, value);
            && (o.Within? ==> !Qualifies(clause, Measure(clause, base, index)))
            && (o.Within? || o.Below? || o.Jump? ==>
                  && PercentChange(base, index).Ok?
                  && if clause.percentRounding == UnroundedPercent
                     then DisplayDecimal(ChangePercent(UnroundedPercent, base, index)) == Ok(o.change)
                     else PercentChange(base, index) == Ok(o.change))
            && (o.Below? || o.Jump? ==>
                  && Qualifies(clause, Measure(clause, base, index))
                  && AppliedExact(clause, base, index).Ok?
                  && var applied := AppliedExact(clause, base, index).value;
                  && Scaled(exact, 1.0 + applied / 100.0) >= 0.0
                  && o == Settle(clause, Scaled(exact, 1.0 + applied / 100.0), o.change, applied, value))
  {
    hide Qualifies, Measure, PercentChange, ChangePercent, RoundReal, AppliedExact, Scaled, Settle, DisplayDecimal;
  }

  /** The cents hardly move. */
  ghost predicate PassesSmall(clause: Clause, base: int, index: int, exact: real)
    requires base > 0
  {
    exists applied, cents :: Brings(clause, base, index, exact, applied, cents) && !Counts(clause, cents)
  }

  /** The jump charges the change, to the cent and to the exact ratio, and reports what it charges. */
  ghost predicate JumpPays(clause: Clause, base: int, index: int, exact: real, o: Outcome)
    requires base > 0 && o.Jump?
  {
    && Brings(clause, base, index, exact, o.appliedExact, o.amount as int) && Counts(clause, o.amount as int)
    && o.exact == Charged(exact, o.appliedExact)
    && IsNearest(o.appliedExact * 1_000_000.0, o.applied as int, true)
  }

  lemma SettledByRules(clause: Clause, base: int, index: int, exact: real, newExact: real, change: int64, applied: real,
                       value: int64)
    requires UsableClause(clause) && newExact >= 0.0 && base > 0
    requires newExact == Charged(exact, applied) && Charges(clause, base, index, applied)
    ensures var o := Settle(clause, newExact, change, applied, value);
            && (o.Below? ==> PassesSmall(clause, base, index, exact))
            && (o.Jump? ==> JumpPays(clause, base, index, exact, o))
  {
    hide Charges, Charged;
    assert Brings(clause, base, index, exact, applied, RoundReal(newExact, true));
    assert IsNearest(applied * 1_000_000.0, RoundReal(applied * 1_000_000.0, true), true);
    hide Brings, RoundReal;
  }

  lemma ScaledIsCharged(exact: real, applied: real)
    ensures Scaled(exact, 1.0 + applied / 100.0) == Charged(exact, applied)
  {
  }

  /** The clause passes a month over exactly because its threshold is not crossed or the cents hardly move;
      otherwise it jumps to what the charged change brings. */
  lemma MonthFollowsRules(clause: Clause, base: int64, exact: real, index: int64, value: int64)
    requires UsableClause(clause) && base > 0 && exact >= 0.0 && index > 0
    ensures var o, b, i := AssessIndex(clause, base, exact, index, value), base as int, index as int;
            && (o.Within? ==> !Crosses(clause, b, i))
            && (o.Within? || o.Below? || o.Jump? ==> Shows(clause.percentRounding, b, i, o.change as int))
            && (o.Below? ==> Crosses(clause, b, i) && PassesSmall(clause, b, i, exact))
            && (o.Jump? ==> Crosses(clause, b, i) && JumpPays(clause, b, i, exact, o) && o.value == value)
  {
    AssessmentShape(clause, base, exact, index, value);
    CrossingTest(clause, base, index);
    ShownChange(clause, base, index);
    var o := AssessIndex(clause, base, exact, index, value);
    hide AssessIndex, Crosses, Charges, PassesSmall, JumpPays, Shows, Qualifies, Measure, PercentChange, ChangePercent;
    hide AppliedExact, DisplayDecimal, Settle, Scaled, Charged;
    if o.Below? || o.Jump? {
      AppliedIsCharged(clause, base, index);
      var applied := AppliedExact(clause, base, index).value;
      ScaledIsCharged(exact, applied);
      SettledByRules(clause, base as int, index as int, exact, Scaled(exact, 1.0 + applied / 100.0), o.change, applied,
                     value);
    }
  }

  // ----- Whole evaluations

  /** `t` is the index value `d` to the nearest tenth. */
  ghost predicate NearestTenth(d: int64, t: int) {
    t % TENTH == 0 && IsNearest(d as real / 100_000.0, t / TENTH, true)
  }

  lemma RoundsToTenth(d: int64)
    ensures RoundTenth(d).Ok? ==> NearestTenth(d, RoundTenth(d).value as int)
  {
  }

  /** The evaluation reports a crossing from one index to the other and charges it on the clause's own exact
      amount: the cents, the ratio handed on, and both percentages shown. */
  ghost predicate Reported(clause: Clause, e: Evaluation, base: int, index: int, applied: real) {
    && base > 0 && NearestTenth(clause.baseValue, base) && NearestTenth(e.newBase, index)
    && Crosses(clause, base, index)
    && Shows(clause.percentRounding, base, index, e.changePercent as int)
    && Brings(clause, base, index, ExactStart(clause), applied, e.newAmountCents as int)
    && Counts(clause, e.newAmountCents as int)
    && e.exactAmount == Charged(ExactStart(clause), applied)
    && IsNearest(applied * 1_000_000.0, e.appliedPercent as int, true)
  }

  lemma JumpReported(clause: Clause, e: Evaluation, base: int64, index: int64, j: Outcome)
    requires base > 0 && ReportsJump(e, clause, j) && RoundTenth(clause.baseValue) == Ok(base)
    requires RoundTenth(j.value) == Ok(index)
    requires Crosses(clause, base as int, index as int)
    requires JumpPays(clause, base as int, index as int, ExactStart(clause), j)
    requires Shows(clause.percentRounding, base as int, index as int, j.change as int)
    ensures Reported(clause, e, base as int, index as int, j.appliedExact)
  {
    RoundsToTenth(clause.baseValue);
    RoundsToTenth(j.value);
    hide RoundTenth, NearestTenth, Crosses, Shows, Brings, Counts, IsNearest, Charged;
  }

  /** Whatever the cutoff, and with or without a reference month: the indices a crossed evaluation compared are
      the clause's base and the published value of the trigger month, to the nearest tenth; they cross the
      threshold, and the new amount and the exact state handed on are the start charged with that change. */
  lemma EveryJumpFollowsRules(textLength: real -> nat, clause: Clause, data: Dataset, asOf: Month,
                              reference: Option<Month>)
    requires WellFormed(data)
    ensures match Evaluated(textLength, clause, data, asOf, reference)
            case Err(_) => true
            case Ok(e) => e.crossed ==> exists base, index, applied :: Reported(clause, e, base, index, applied)
  {
    hide Evaluated, Prepare, Assess, AssessIndex, RoundTenth, Crosses, Shows, JumpPays, Reported, WellFormed, Lookup;
    hide RoundFit, Scaled, ReportsJump;
    var r := Evaluated(textLength, clause, data, asOf, reference);
    EveryJumpIsAssessed(textLength, clause, data, asOf, reference);
    if r.Ok? && r.value.crossed {
      var p := Prepare(textLength, clause, data, asOf).value;
      var j := Assess(clause, p.base, p.exact, data, r.value.triggerMonth);
      PreparedStart(textLength, clause, data, asOf);
      PreparedBase(textLength, clause, data, asOf);
      AssessedJump(clause, p, data, r.value.triggerMonth);
      assert j.Jump? by { IsJump(r.value, clause, j); }
      JumpReported(clause, r.value, p.base, RoundTenth(j.value).value, j);
    }
  }

  lemma IsJump(e: Evaluation, clause: Clause, j: Outcome)
    requires ReportsJump(e, clause, j)
    ensures j.Jump?
  {
  }

  lemma AssessedJump(clause: Clause, p: Prepared, data: Dataset, month: Month)
    requires UsableClause(clause) && p.base > 0 && p.exact >= 0.0 && WellFormed(data)
    ensures var j := Assess(clause, p.base, p.exact, data, month);
            j.Jump? ==>
              && RoundTenth(j.value).Ok?
              && var index := RoundTenth(j.value).value as int;
              && Crosses(clause, p.base as int, index) && JumpPays(clause, p.base as int, index, p.exact, j)
              && Shows(clause.percentRounding, p.base as int, index, j.change as int)
  {
    hide Assess, AssessIndex, RoundTenth, Crosses, Shows, JumpPays, WellFormed, Lookup, RoundFit, Scaled;
    JumpShape(clause, p.base, p.exact, data, month);
    var j := Assess(clause, p.base, p.exact, data, month);
    if j.Jump? { MonthFollowsRules(clause, p.base, p.exact, RoundTenth(j.value).value, j.value); }
  }

  lemma PreparedBase(textLength: real -> nat, clause: Clause, data: Dataset, asOf: Month)
    requires WellFormed(data)
    ensures var r := Prepare(textLength, clause, data, asOf); r.Ok? ==> RoundTenth(clause.baseValue) == Ok(r.value.base)
  {
    NextBase(textLength, clause, data, asOf);
  }

  /** A month that is passed over has a final index, and either that index does not cross the threshold or the
      change it would charge is too small. */
  lemma QuietMonthFollowsRules(clause: Clause, p: Prepared, data: Dataset, month: Month) returns (index: int)
    requires UsableClause(clause) && p.base > 0 && p.exact >= 0.0 && WellFormed(data)
    requires Quiet(Assess(clause, p.base, p.exact, data, month))
    ensures Lookup(data, clause.series, month).Ok? && Lookup(data, clause.series, month).value.Some?
    ensures !Lookup(data, clause.series, month).value.value.preliminary
    ensures NearestTenth(Lookup(data, clause.series, month).value.value.value, index)
    ensures !Crosses(clause, p.base as int, index) || PassesSmall(clause, p.base as int, index, p.exact)
  {
    hide AssessIndex, RoundTenth, Crosses, PassesSmall, Shows, WellFormed, Lookup, MoreToCome, NearestTenth;
    var v := Lookup(data, clause.series, month).value.value;
    var i := RoundTenth(v.value).value;
    assert Assess(clause, p.base, p.exact, data, month) == AssessIndex(clause, p.base, p.exact, i, v.value);
    AssessedIndexIsPositive(clause, p.base, p.exact, i, v.value);
    RoundsToTenth(v.value);
    MonthFollowsRules(clause, p.base, p.exact, i, v.value);
    index := i as int;
  }

  lemma AssessedIndexIsPositive(clause: Clause, base: int64, exact: real, index: int64, value: int64)
    requires UsableClause(clause) && base > 0 && exact >= 0.0
    requires Quiet(AssessIndex(clause, base, exact, index, value))
    ensures index > 0
  {
    hide RoundReal, Settle, AppliedExact, Qualifies, ChangePercent, DisplayDecimal, Scaled;
  }

  /** A clause that can be evaluated: its own fields make sense, its exact amount rounds half up to its cents, and
      its base is a final observation of exactly its base value, derived only where that is allowed. */
  ghost predicate Evaluable(textLength: real -> nat, clause: Clause, data: Dataset, asOf: Month)
    requires WellFormed(data)
  {
    && !clause.series.UnknownSeries? && ValidMonth(clause.baseMonth) && ValidMonth(asOf) && clause.baseMonth <= asOf
    && clause.amountCents > 0 && clause.baseValue > 0 && clause.threshold >= 0 && clause.minimumChangeCents >= 0
    && clause.thresholdKind in {PercentThreshold, PointsThreshold} && clause.crossing in {Exceeds, Reaches}
    && clause.changeMode in {FullChange, ExcessChange}
    && clause.percentRounding in {OneDecimalPercent, UnroundedPercent}
    && (clause.exactAmount.Some? ==>
          && textLength(clause.exactAmount.value) <= MAX_RATIO_TEXT && clause.exactAmount.value >= 0.0
          && IsNearest(clause.exactAmount.value, clause.amountCents as int, true))
    && match Lookup(data, clause.series, clause.baseMonth)
       case Err(_) => false
       case Ok(None) => false
       case Ok(Some(v)) =>
         && !v.preliminary && v.value == clause.baseValue && (v.chainSource != "" ==> clause.allowDerived)
         && RoundTenth(v.value).Ok? && RoundTenth(v.value).value > 0
  }

  /** A clause is refused exactly where it cannot be evaluated. */
  lemma AcceptedExactly(textLength: real -> nat, clause: Clause, data: Dataset, asOf: Month)
    requires WellFormed(data)
    ensures Prepare(textLength, clause, data, asOf).Ok? <==> Evaluable(textLength, clause, data, asOf)
  {
    hide Lookup, RoundTenth, IsNearest, RoundReal;
    if clause.exactAmount.Some? { RoundsHalfUp(clause.exactAmount.value, clause.amountCents); }
  }

  /** What a refusal names: the clause's own fields, an unreadable exact amount, or a base that is not the final
      observation it has to be. */
  lemma RefusalTells(textLength: real -> nat, clause: Clause, data: Dataset, asOf: Month)
    requires WellFormed(data)
    ensures var r := Prepare(textLength, clause, data, asOf);
            && (r == Err(InvalidClause) <==>
                  || clause.series.UnknownSeries? || !ValidMonth(clause.baseMonth) || !ValidMonth(asOf)
                  || asOf < clause.baseMonth || clause.amountCents <= 0 || clause.baseValue <= 0
                  || clause.threshold < 0 || clause.minimumChangeCents < 0)
            && (r.Err? && r.error in {BaseNotFinal, DerivedNeedsReview, InvalidBase, LookupFailed} ==>
                  ExactCents(textLength, clause.exactAmount, clause.amountCents).Ok?)
            && (r == Err(BaseNotFinal) ==>
                  match Lookup(data, clause.series, clause.baseMonth)
                  case Err(_) => false
                  case Ok(None) => true
                  case Ok(Some(v)) => v.preliminary || v.value != clause.baseValue)
            && (r == Err(LookupFailed) ==> Lookup(data, clause.series, clause.baseMonth).Err?)
            && (r == Err(DerivedNeedsReview) ==> !clause.allowDerived)
  {
    hide Lookup, RoundTenth, RoundFit;
  }

  lemma RoundsHalfUp(x: real, cents: int64)
    ensures RoundFit(x, true) == Ok(cents) <==> IsNearest(x, cents as int, true)
  {
    if IsNearest(x, cents as int, true) { NearestIsUnique(x, cents as int, RoundReal(x, true), true); }
  }

  // ----- What a month can fail for

  /** A number that is no int64 after rounding half up. */
  ghost predicate TooLarge(x: real) {
    forall n :: IsNearest(x, n, true) ==> !FitsInt64(n)
  }

  /** The tenths of a percent between two indices, in millionths, exceed an int64. */
  ghost predicate TenthsTooLarge(base: int, index: int)
    requires base > 0
  {
    forall n :: InTenths(base, index, n) ==> !FitsInt64(TENTH * n)
  }

  /** Every reason for which the arithmetic of a month may be refused: the change in tenths, or the shown change,
      or what is charged, or the new cents, or in points excess the change to the nearer index, is no int64. */
  ghost predicate OutOfRange(clause: Clause, base: int, index: int, exact: real)
    requires base > 0
  {
    || TenthsTooLarge(base, index)
    || (clause.percentRounding == UnroundedPercent
        && exists c :: IsChange(UnroundedPercent, base, index, c) && TooLarge(c * 1_000_000.0))
    || (Crosses(clause, base, index)
        && (exists applied :: Charges(clause, base, index, applied)
                              && (TooLarge(Charged(exact, applied)) || TooLarge(applied * 1_000_000.0))))
    || (clause.changeMode == ExcessChange && clause.thresholdKind == PointsThreshold
        && NearerTooLarge(clause, base, index))
  }

  ghost predicate NearerTooLarge(clause: Clause, base: int, index: int)
    requires base > 0
  {
    exists nearer :: IsNearer(clause, base, index, nearer) && TenthsTooLarge(base, nearer)
  }

  /** The index moved towards the base by exactly the threshold. */
  ghost predicate IsNearer(clause: Clause, base: int, index: int, nearer: int) {
    && (base <= nearer <= index || index <= nearer <= base)
    && AbsInt(nearer - base) == AbsInt(index - base) - clause.threshold as int
  }

  lemma RoundsTooLarge(x: real)
    ensures RoundFit(x, true).Err? <==> TooLarge(x)
  {
    if RoundFit(x, true).Err? {
      forall n | IsNearest(x, n, true) ensures !FitsInt64(n) { NearestIsUnique(x, n, RoundReal(x, true), true); }
    } else {
      assert IsNearest(x, RoundReal(x, true), true);
    }
  }

  lemma ChangeTooLarge(base: int64, index: int64)
    requires base > 0 && index > 0
    ensures PercentChange(base, index).Err? <==> TenthsTooLarge(base as int, index as int)
  {
    var x := (index - base) as real * 1000.0 / base as real;
    if PercentChange(base, index).Err? {
      forall n | InTenths(base as int, index as int, n) ensures !FitsInt64(TENTH * n) {
        NearestIsUnique(x, n, ChangeTenths(base, index), true);
      }
    } else {
      assert InTenths(base as int, index as int, ChangeTenths(base, index));
    }
  }

  /** A month is refused for nothing but its range. */
  lemma MonthFailsForRange(clause: Clause, base: int64, exact: real, index: int64, value: int64)
    requires UsableClause(clause) && base > 0 && exact >= 0.0 && index > 0 && clause.thresholdKind != UnknownKind
    ensures AssessIndex(clause, base, exact, index, value).Failed? ==>
              AssessIndex(clause, base, exact, index, value) == Failed(ArithmeticFailed)
              && OutOfRange(clause, base as int, index as int, exact)
  {
    ChangeTooLarge(base, index);
    CrossingTest(clause, base, index);
    FailureShape(clause, base, exact, index, value);
    var c := ChangePercent(clause.percentRounding, base, index);
    ChangeIsRelative(clause.percentRounding, base, index);
    RoundsTooLarge(c * 1_000_000.0);
    hide AssessIndex, Crosses, Charges, TooLarge, TenthsTooLarge, Qualifies, Measure, PercentChange, ChangePercent,
         RoundFit;
    hide AppliedExact, Settle, IsChange;
    if AssessIndex(clause, base, exact, index, value).Failed? && Qualifies(clause, Measure(clause, base, index)) {
      if AppliedExact(clause, base, index).Ok? {
        var applied := AppliedExact(clause, base, index).value;
        AppliedIsCharged(clause, base, index);
        ScaledIsCharged(exact, applied);
        RoundsTooLarge(Charged(exact, applied));
        RoundsTooLarge(applied * 1_000_000.0);
      } else {
        PointsFail(clause, base, index);
      }
    }
  }

  lemma PointsFail(clause: Clause, base: int64, index: int64)
    requires base > 0 && index > 0 && clause.threshold >= 0 && Qualifies(clause, Measure(clause, base, index))
    requires clause.thresholdKind != UnknownKind && AppliedExact(clause, base, index).Err?
    ensures clause.changeMode == ExcessChange && clause.thresholdKind == PointsThreshold
    ensures AppliedExact(clause, base, index) == Err(ArithmeticFailed)
    ensures NearerTooLarge(clause, base as int, index as int)
  {
    var nearer := Adjusted(clause, base, index);
    ChangeTooLarge(base, nearer);
    assert IsNearer(clause, base as int, index as int, nearer as int);
    hide TenthsTooLarge, PercentChange, ChangePercent;
  }

  /** Where an assessment failed. */
  lemma FailureShape(clause: Clause, base: int64, exact: real, index: int64, value: int64)
    requires UsableClause(clause) && base > 0 && exact >= 0.0 && index > 0
    ensures var o := AssessIndex(clause, base, exact, index, value);
            var c := ChangePercent(clause.percentRounding, base, index);
            o.Failed? ==>
              || (PercentChange(base, index).Err? && o == Failed(ArithmeticFailed))
              || (clause.percentRounding == UnroundedPercent && RoundFit(c * 1_000_000.0, true).Err?
                  && o == Failed(ArithmeticFailed))
              || (&& Qualifies(clause, Measure(clause, base, index))
                  && match AppliedExact(clause, base, index)
                     case Err(e) => o == Failed(e)
                     case Ok(applied) =>
                       && (RoundFit(Scaled(exact, 1.0 + applied / 100.0), true).Err?
                           || RoundFit(applied * 1_000_000.0, true).Err?)
                       && o == Failed(ArithmeticFailed))
  {
    hide Qualifies, Measure, PercentChange, ChangePercent, RoundReal, AppliedExact, Scaled;
  }
}
