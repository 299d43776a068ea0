/** How the first jump depends on the threshold and the minimum change of a clause (evaluate.go). */
module Strictness {
  import opened Basics
  import opened Reals
  import opened Calendar
  import opened Rounding
  import opened Dataset
  import opened Evaluate
  import opened Replay

  /** The same clause made easier to cross: with a lower threshold, or the same one where reaching it is
      enough, and with no larger minimum change. */
  ghost predicate Looser(loose: Clause, strict: Clause) {
    && loose == strict.(threshold := loose.threshold, crossing := loose.crossing,
                        minimumChangeCents := loose.minimumChangeCents)
    && loose.crossing != UnknownRule && 0 <= loose.minimumChangeCents <= strict.minimumChangeCents
    && (0 <= loose.threshold < strict.threshold
        || (0 <= loose.threshold == strict.threshold && (strict.crossing == Reaches ==> loose.crossing == Reaches)))
  }

  lemma LooserQualifies(loose: Clause, strict: Clause, measure: real)
    requires Looser(loose, strict) && Qualifies(strict, measure)
    ensures Qualifies(loose, measure)
  {
    hide Qualifies;
    ThresholdLaws(strict, measure, measure);
    ThresholdLaws(loose, measure, measure);
  }

  /** What is applied beyond a lower threshold is at least as much, in the same direction. */
  lemma LooserAppliesMore(loose: Clause, strict: Clause, base: int64, index: int64)
    requires Looser(loose, strict) && base > 0 && index > 0 && Qualifies(strict, Measure(strict, base, index))
    ensures Qualifies(loose, Measure(loose, base, index))
    ensures var s, l := AppliedExact(strict, base, index), AppliedExact(loose, base, index);
            s.Ok? ==> if l.Ok? then TowardsZero(s.value, l.value) else l.error == ArithmeticFailed
  {
    LooserQualifies(loose, strict, Measure(strict, base, index));
    ChangePercentOrder(strict.percentRounding, base, index, index);
    if strict.changeMode == ExcessChange && strict.thresholdKind == PointsThreshold {
      hide ChangePercent, PercentChange;
      ChangePercentOrder(strict.percentRounding, base, Adjusted(strict, base, index), Adjusted(loose, base, index));
    } else {
      hide ChangePercent, PercentChange;
    }
  }

  lemma ScaledOrder(exact: real, a: real, b: real)
    requires exact >= 0.0 && a <= b
    ensures Scaled(exact, 1.0 + a / 100.0) <= Scaled(exact, 1.0 + b / 100.0)
    ensures Scaled(exact, 1.0 + 0.0 / 100.0) == exact
  {
    ProductOrder(1.0 + a / 100.0, 1.0 + b / 100.0, exact);
  }

  /** A change further from zero moves the rounded amount at least as far. */
  lemma MovesFurther(exact: real, cents: int, a: real, b: real)
    requires exact >= 0.0 && RoundReal(exact, true) == cents && TowardsZero(a, b)
    ensures AbsInt(RoundReal(Scaled(exact, 1.0 + a / 100.0), true) - cents)
            <= AbsInt(RoundReal(Scaled(exact, 1.0 + b / 100.0), true) - cents)
  {
    hide RoundReal, Scaled;
    var x, y := Scaled(exact, 1.0 + a / 100.0), Scaled(exact, 1.0 + b / 100.0);
    if 0.0 <= a <= b {
      ScaledOrder(exact, 0.0, a);
      ScaledOrder(exact, a, b);
      RoundMonotone(exact, x, true);
      RoundMonotone(x, y, true);
    } else {
      ScaledOrder(exact, b, a);
      ScaledOrder(exact, a, 0.0);
      RoundMonotone(x, exact, true);
      RoundMonotone(y, x, true);
    }
  }

  lemma FactorNotNegative(rate: real)
    requires rate >= -100.0
    ensures 1.0 + rate / 100.0 >= 0.0
  {
  }

  lemma SettlesSooner(loose: Clause, strict: Clause, exact: real, change: int64, a: real, b: real, value: int64)
    requires Looser(loose, strict) && UsableClause(strict) && UsableClause(loose) && exact >= 0.0
    requires RoundReal(exact, true) == strict.amountCents as int && TowardsZero(a, b) && a >= -100.0 && b >= -100.0
    ensures Scaled(exact, 1.0 + a / 100.0) >= 0.0 && Scaled(exact, 1.0 + b / 100.0) >= 0.0
    ensures var l := Settle(loose, Scaled(exact, 1.0 + b / 100.0), change, b, value);
            Settle(strict, Scaled(exact, 1.0 + a / 100.0), change, a, value).Jump? ==>
                l.Jump? || l == Failed(ArithmeticFailed)
  {
    FactorNotNegative(a);
    FactorNotNegative(b);
    MovesFurther(exact, strict.amountCents as int, a, b);
    assert LeastMove(loose) <= LeastMove(strict);
    hide RoundReal, Scaled, Settle, LeastMove;
  }

  /** In a month where the strict clause jumps, the looser one jumps too, unless its larger amount is no
      64-bit number. */
  lemma JumpsToo(loose: Clause, strict: Clause, base: int64, exact: real, index: int64, value: int64)
    requires Looser(loose, strict) && UsableClause(strict) && base > 0 && exact >= 0.0
    requires RoundReal(exact, true) == strict.amountCents as int
    ensures var l := AssessIndex(loose, base, exact, index, value);
            AssessIndex(strict, base, exact, index, value).Jump? ==> l.Jump? || l == Failed(ArithmeticFailed)
  {
    hide RoundReal, Scaled, Settle, AppliedExact, Qualifies, ChangePercent, PercentChange, DisplayDecimal;
    if AssessIndex(strict, base, exact, index, value).Jump? {
      LooserAppliesMore(loose, strict, base, index);
      var s, l := AppliedExact(strict, base, index), AppliedExact(loose, base, index);
      if l.Ok? {
        var change := AssessIndex(strict, base, exact, index, value).change;
        SettlesSooner(loose, strict, exact, change, s.value, l.value, value);
      }
    }
  }

  /** One index decides quietly, with a jump, or not at all for want of range. */
  lemma IndexOutcomes(clause: Clause, base: int64, exact: real, index: int64, value: int64)
    requires UsableClause(clause) && base > 0 && exact >= 0.0 && index > 0 && clause.thresholdKind != UnknownKind
    ensures var o := AssessIndex(clause, base, exact, index, value);
            Quiet(o) || o.Jump? || o == Failed(ArithmeticFailed)
  {
    hide RoundReal, Scaled, Settle, Qualifies, ChangePercent, PercentChange, DisplayDecimal;
    var applied := if Qualifies(clause, Measure(clause, base, index)) then AppliedExact(clause, base, index)
      else Ok(0.0);
    if applied.Ok? {
      FactorNotNegative(applied.value);
      SettleOutcomes(clause, Scaled(exact, 1.0 + applied.value / 100.0), applied.value, value);
    }
  }

  lemma SettleOutcomes(clause: Clause, newExact: real, applied: real, value: int64)
    requires UsableClause(clause) && newExact >= 0.0
    ensures forall change: int64 :: var o := Settle(clause, newExact, change, applied, value);
            Quiet(o) || o.Jump? || o == Failed(ArithmeticFailed)
  {
  }

  /** A month that is quiet or a jump for the strict clause is one for the looser clause, and a jump stays a
      jump, unless a larger amount is no 64-bit number. */
  lemma MonthLoosened(loose: Clause, strict: Clause, p: Prepared, data: Dataset, month: Month)
    requires Looser(loose, strict) && UsableClause(strict) && UsableClause(loose) && strict.thresholdKind != UnknownKind
    requires p.base > 0 && p.exact >= 0.0 && RoundReal(p.exact, true) == strict.amountCents as int && WellFormed(data)
    ensures var s, l := Assess(strict, p.base, p.exact, data, month), Assess(loose, p.base, p.exact, data, month);
            && (Quiet(s) ==> Quiet(l) || l.Jump? || l == Failed(ArithmeticFailed))
            && (s.Jump? ==> l.Jump? || l == Failed(ArithmeticFailed))
  {
    hide AssessIndex, Lookup, RoundTenth, WellFormed, RoundReal, MoreToCome;
    var s := Assess(strict, p.base, p.exact, data, month);
    if Quiet(s) || s.Jump? {
      var v := Lookup(data, strict.series, month).value.value;
      var index := RoundTenth(v.value).value;
      assert s == AssessIndex(strict, p.base, p.exact, index, v.value);
      IndexIsPositive(strict, p.base, p.exact, index, v.value);
      IndexOutcomes(loose, p.base, p.exact, index, v.value);
      JumpsToo(loose, strict, p.base, p.exact, index, v.value);
    }
  }

  lemma IndexIsPositive(clause: Clause, base: int64, exact: real, index: int64, value: int64)
    requires UsableClause(clause) && base > 0 && exact >= 0.0
    requires var o := AssessIndex(clause, base, exact, index, value); Quiet(o) || o.Jump?
    ensures index > 0
  {
    hide RoundReal, Settle, AppliedExact, Qualifies, ChangePercent, DisplayDecimal, Scaled;
  }

  lemma PreparedAlike(textLength: real -> nat, loose: Clause, strict: Clause, data: Dataset, asOf: Month)
    requires WellFormed(data) && Looser(loose, strict) && Prepare(textLength, strict, data, asOf).Ok?
    ensures Prepare(textLength, loose, data, asOf) == Prepare(textLength, strict, data, asOf)
    ensures UsableClause(strict) && UsableClause(loose) && strict.thresholdKind != UnknownKind
    ensures RoundReal(Prepare(textLength, strict, data, asOf).value.exact, true) == strict.amountCents as int
  {
    hide Lookup, RoundTenth, RoundReal, WellFormed;
    RoundInteger(strict.amountCents as int, true);
  }

  lemma QuietAt(clause: Clause, p: Prepared, data: Dataset, start: Month, end: Month, m: Month)
    requires UsableClause(clause) && p.base > 0 && p.exact >= 0.0 && WellFormed(data)
    requires QuietBetween(clause, p, data, start, end) && start <= m < end
    ensures Quiet(Assess(clause, p.base, p.exact, data, m))
  {
    hide Assess, WellFormed;
  }

  /** An evaluation stops no later than at a month that is not quiet. */
  lemma StopsBy(clause: Clause, p: Prepared, data: Dataset, start: Month, asOf: Month, t: Month,
                r: Result<Evaluation, EvalError>)
    requires UsableClause(clause) && p.base > 0 && p.exact >= 0.0 && WellFormed(data)
    requires Reports(clause, p, data, start, asOf, r) && start <= t <= asOf
    requires forall m: Month :: start <= m <= t ==>
               var o := Assess(clause, p.base, p.exact, data, m);
               (Quiet(o) && m < t) || o.Jump? || o == Failed(ArithmeticFailed)
    ensures match r
            case Err(error) => error == ArithmeticFailed
            case Ok(l) => l.crossed && l.triggerMonth <= t
  {
    hide Assess, WellFormed;
    var o := Assess(clause, p.base, p.exact, data, t);
    assert !Quiet(o);
  }

  /** Lowering a threshold or a minimum change never delays a jump: where the strict clause jumps, the looser
      one has jumped by then, unless an amount on the way is no 64-bit number. */
  lemma LooserClauseJumpsNoLater(textLength: real -> nat, loose: Clause, strict: Clause, data: Dataset, asOf: Month)
    requires WellFormed(data) && Looser(loose, strict)
    ensures match Evaluated(textLength, strict, data, asOf, None)
            case Err(_) => true
            case Ok(s) =>
              s.crossed ==>
                match Evaluated(textLength, loose, data, asOf, None)
                case Err(error) => error == ArithmeticFailed
                case Ok(l) => l.crossed && l.triggerMonth <= s.triggerMonth
  {
    hide Evaluated, Prepare, WellFormed, RoundReal, Assess, QuietBetween;
    EarliestTrigger(textLength, strict, data, asOf);
    EarliestTrigger(textLength, loose, data, asOf);
    var s := Evaluated(textLength, strict, data, asOf, None);
    if s.Ok? && s.value.crossed {
      PreparedAlike(textLength, loose, strict, data, asOf);
      var p := Prepare(textLength, strict, data, asOf).value;
      forall m: Month | strict.baseMonth < m <= s.value.triggerMonth
        ensures var l := Assess(loose, p.base, p.exact, data, m);
                (Quiet(l) && m < s.value.triggerMonth) || l.Jump? || l == Failed(ArithmeticFailed)
      {
        MonthLoosened(loose, strict, p, data, m);
        if m < s.value.triggerMonth { QuietAt(strict, p, data, strict.baseMonth + 1, s.value.triggerMonth, m); }
      }
      StopsBy(loose, p, data, loose.baseMonth + 1, asOf, s.value.triggerMonth,
              Evaluated(textLength, loose, data, asOf, None));
    }
  }
}
