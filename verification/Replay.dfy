/** What one evaluation finds, and what repeating it through `NextClause` keeps (evaluate.go). */
module Replay {
  import opened Basics
  import opened Calendar
  import opened Rounding
  import opened Dataset
  import opened Evaluate

  // ----- Earliest trigger, nothing skipped

  ghost predicate QuietBetween(clause: Clause, p: Prepared, data: Dataset, start: Month, end: Month)
    requires UsableClause(clause) && p.base > 0 && p.exact >= 0.0 && WellFormed(data)
  {
    forall m: Month :: start <= m < end ==> Quiet(Assess(clause, p.base, p.exact, data, m))
  }

  /** `t` is the first month from `start` on that is not quiet. */
  ghost predicate FirstStop(clause: Clause, p: Prepared, data: Dataset, start: Month, t: Month)
    requires UsableClause(clause) && p.base > 0 && p.exact >= 0.0 && WellFormed(data)
  {
    start <= t && !Quiet(Assess(clause, p.base, p.exact, data, t)) && QuietBetween(clause, p, data, start, t)
  }

  /** What the scan reports when `t` is the first month that is not quiet, or when there is none. */
  ghost predicate Reports(clause: Clause, p: Prepared, data: Dataset, start: Month, asOf: Month,
                          r: Result<Evaluation, EvalError>)
    requires UsableClause(clause) && p.base > 0 && p.exact >= 0.0 && WellFormed(data)
  {
    match r
    case Err(error) =>
      exists t: Month :: t <= asOf && FirstStop(clause, p, data, start, t)
        && Assess(clause, p.base, p.exact, data, t) == Failed(error)
    case Ok(e) =>
      if e.crossed then
        && e.triggerMonth <= asOf
        && FirstStop(clause, p, data, start, e.triggerMonth)
        && ReportsJump(e, clause, Assess(clause, p.base, p.exact, data, e.triggerMonth))
      else if e.pendingMonth != NO_MONTH then
        && e.pendingMonth == e.evaluatedThrough + 1 <= asOf
        && FirstStop(clause, p, data, start, e.pendingMonth)
        && var outcome := Assess(clause, p.base, p.exact, data, e.pendingMonth);
           outcome.NotPublished? || outcome.Preliminary?
      else
        QuietBetween(clause, p, data, start, asOf + 1) && e.evaluatedThrough == asOf
  }

  ghost predicate ReportsJump(e: Evaluation, clause: Clause, jump: Outcome) {
    && jump.Jump?
    && e.changePercent == jump.change && e.appliedPercent == jump.applied
    && e.newAmountCents == jump.amount && e.newBase == jump.value && e.exactAmount == jump.exact
    && e.evaluatedThrough == e.triggerMonth
    && e.nextClause == clause.(baseMonth := e.triggerMonth, baseValue := jump.value, amountCents := jump.amount,
                               exactAmount := Some(jump.exact))
  }

  lemma {:induction false} ScanReports(clause: Clause, p: Prepared, data: Dataset, month: Month, asOf: Month,
                                       e: Evaluation)
    requires UsableClause(clause) && p.base > 0 && p.exact >= 0.0 && WellFormed(data)
    requires ValidMonth(asOf) && FIRST_MONTH < month <= asOf + 1
    requires !e.crossed && e.pendingMonth == NO_MONTH && e.evaluatedThrough == month - 1
    ensures Reports(clause, p, data, month, asOf, Scan(clause, p, data, month, asOf, None, e))
    decreases asOf - month
  {
    hide Assess;
    if month <= asOf {
      var outcome := Assess(clause, p.base, p.exact, data, month);
      match outcome {
        case Within(change) =>
          ScanReports(clause, p, data, month + 1, asOf, Pass(e, month, change, WithinThreshold));
        case Below(change) =>
          ScanReports(clause, p, data, month + 1, asOf, Pass(e, month, change, BelowMinimumChange));
        case Failed(error) => assert FirstStop(clause, p, data, month, month);
        case NotPublished => assert FirstStop(clause, p, data, month, month);
        case Preliminary => assert FirstStop(clause, p, data, month, month);
        case Jump(_, _, _, _, _, _) => assert FirstStop(clause, p, data, month, month);
      }
    }
  }

  /** Evaluate reports the first month after the base that is not quiet, and no month before it was
      left out: a jump there, or the publication frontier, or the failure met there. */
  lemma EarliestTrigger(textLength: real -> nat, clause: Clause, data: Dataset, asOf: Month)
    requires WellFormed(data)
    ensures match Prepare(textLength, clause, data, asOf)
            case Err(error) => Evaluated(textLength, clause, data, asOf, None) == Err(error)
            case Ok(p) => Reports(clause, p, data, clause.baseMonth + 1, asOf,
                                  Evaluated(textLength, clause, data, asOf, None))
  {
    hide Scan, Reports;
    var prepared := Prepare(textLength, clause, data, asOf);
    if prepared.Ok? {
      ScanReports(clause, prepared.value, data, clause.baseMonth + 1, asOf, Start(clause, prepared.value.exact));
    }
  }

  lemma {:induction false} ScanCutoff(clause: Clause, p: Prepared, data: Dataset, month: Month, t: Month, a: Month,
                                      b: Month, e: Evaluation)
    requires UsableClause(clause) && p.base > 0 && p.exact >= 0.0 && WellFormed(data)
    requires FIRST_MONTH < month && FirstStop(clause, p, data, month, t) && t <= a && t <= b && ValidMonth(a)
    requires ValidMonth(b)
    ensures Scan(clause, p, data, month, a, None, e) == Scan(clause, p, data, month, b, None, e)
    decreases t - month
  {
    hide Assess;
    if month < t {
      var outcome := Assess(clause, p.base, p.exact, data, month);
      assert Quiet(outcome);
      var code := if outcome.Within? then WithinThreshold else BelowMinimumChange;
      ScanCutoff(clause, p, data, month + 1, t, a, b, Pass(e, month, outcome.change, code));
    }
  }

  /** A jump found by one cutoff is found, with the identical result, by every cutoff that reaches it. */
  lemma CutoffDoesNotMatter(textLength: real -> nat, clause: Clause, data: Dataset, asOf: Month, cutoff: Month)
    requires WellFormed(data) && ValidMonth(cutoff)
    ensures var r := Evaluated(textLength, clause, data, asOf, None);
            r.Ok? && r.value.crossed && cutoff >= r.value.triggerMonth ==>
              Evaluated(textLength, clause, data, cutoff, None) == r
  {
    hide Scan, Assess, Prepare;
    EarliestTrigger(textLength, clause, data, asOf);
    var r := Evaluated(textLength, clause, data, asOf, None);
    if r.Ok? && r.value.crossed && cutoff >= r.value.triggerMonth {
      var p := Prepare(textLength, clause, data, asOf).value;
      PrepareIgnoresCutoff(textLength, clause, data, asOf, cutoff);
      ScanCutoff(clause, p, data, clause.baseMonth + 1, r.value.triggerMonth, asOf, cutoff, Start(clause, p.exact));
    }
  }

  lemma PrepareIgnoresCutoff(textLength: real -> nat, clause: Clause, data: Dataset, asOf: Month, cutoff: Month)
    requires WellFormed(data) && Prepare(textLength, clause, data, asOf).Ok?
    requires ValidMonth(cutoff) && cutoff >= clause.baseMonth
    ensures ValidMonth(asOf) && asOf >= clause.baseMonth
    ensures Prepare(textLength, clause, data, cutoff) == Prepare(textLength, clause, data, asOf)
  {
    hide Lookup, ExactCents, RoundTenth;
  }

  // ----- The evidence trail

  /** One entry per month from the base on, in order. */
  ghost predicate Consecutive(steps: seq<Step>, first: Month) {
    forall i :: 0 <= i < |steps| ==> steps[i].month == first + i
  }

  /** The explanation without the repeated trigger month of a base reset. */
  ghost function Trail(e: Evaluation): seq<Step> {
    if e.crossed && e.explanation != [] then e.explanation[..|e.explanation| - 1] else e.explanation
  }

  /** The last month an evaluation looked at. */
  function Stop(e: Evaluation): Month {
    if e.pendingMonth != NO_MONTH then e.pendingMonth else e.evaluatedThrough
  }

  ghost predicate CompleteTrail(e: Evaluation, first: Month) {
    && Trail(e) != []
    && Consecutive(Trail(e), first) && |Trail(e)| == Stop(e) - first + 1
    && (e.crossed ==> e.explanation == Trail(e) + [Step(BaseReset, e.triggerMonth)]
                      && Trail(e)[|Trail(e)| - 1] == Step(ThresholdCrossed, e.triggerMonth))
  }

  lemma {:induction false} ScanEvidence(clause: Clause, p: Prepared, data: Dataset, month: Month, asOf: Month,
                                        e: Evaluation)
    requires UsableClause(clause) && p.base > 0 && p.exact >= 0.0 && WellFormed(data)
    requires FIRST_MONTH < month && ValidMonth(asOf)
    requires !e.crossed && CompleteTrail(e, clause.baseMonth) && |e.explanation| == month - clause.baseMonth
    requires e.pendingMonth == NO_MONTH
    ensures var r := Scan(clause, p, data, month, asOf, None, e);
            r.Ok? ==> CompleteTrail(r.value, clause.baseMonth)
    decreases asOf - month
  {
    hide Assess;
    if ValidMonth(month) && month <= asOf {
      var outcome := Assess(clause, p.base, p.exact, data, month);
      if Quiet(outcome) {
        var code := if outcome.Within? then WithinThreshold else BelowMinimumChange;
        ScanEvidence(clause, p, data, month + 1, asOf, Pass(e, month, outcome.change, code));
      } else if outcome.Jump? {
        CrossedTrail(e, clause, month, outcome);
      }
    }
  }

  lemma CrossedTrail(e: Evaluation, clause: Clause, month: Month, jump: Outcome)
    requires jump.Jump? && !e.crossed && CompleteTrail(e, clause.baseMonth) && e.pendingMonth == NO_MONTH
    requires |e.explanation| == month - clause.baseMonth
    ensures CompleteTrail(Cross(e, clause, month, jump), clause.baseMonth)
  {
    var r := Cross(e, clause, month, jump);
    assert Trail(r) == e.explanation + [Step(ThresholdCrossed, month)];
  }

  /** The explanation names every month from the base up to the stop exactly once and in order; only
      the base reset repeats the trigger month. */
  lemma EvidenceIsComplete(textLength: real -> nat, clause: Clause, data: Dataset, asOf: Month)
    requires WellFormed(data)
    ensures var r := Evaluated(textLength, clause, data, asOf, None);
            r.Ok? ==> CompleteTrail(r.value, clause.baseMonth)
  {
    hide Scan, Assess;
    var prepared := Prepare(textLength, clause, data, asOf);
    if prepared.Ok? {
      hide Prepare;
      ScanEvidence(clause, prepared.value, data, clause.baseMonth + 1, asOf, Start(clause, prepared.value.exact));
    }
  }

  /** What an entry says of its month. */
  ghost predicate Explains(code: Code, outcome: Outcome) {
    match outcome
    case Failed(_) => false
    case NotPublished => code == NotPublishedYet
    case Preliminary => code == PreliminaryIgnored
    case Within(_) => code == WithinThreshold
    case Below(_) => code == BelowMinimumChange
    case Jump(_, _, _, _, _, _) => code == ThresholdCrossed
  }

  /** The first entry names the final base, every other one what became of its month. */
  ghost predicate Explained(clause: Clause, p: Prepared, data: Dataset, trail: seq<Step>)
    requires UsableClause(clause) && p.base > 0 && p.exact >= 0.0 && WellFormed(data)
  {
    && trail != [] && trail[0].code == BaseFinal
    && forall i :: 1 <= i < |trail| ==> Explains(trail[i].code, Assess(clause, p.base, p.exact, data, trail[i].month))
  }

  lemma {:induction false} ScanExplains(clause: Clause, p: Prepared, data: Dataset, month: Month, asOf: Month,
                                        e: Evaluation)
    requires UsableClause(clause) && p.base > 0 && p.exact >= 0.0 && WellFormed(data)
    requires FIRST_MONTH < month && ValidMonth(asOf) && !e.crossed && Explained(clause, p, data, e.explanation)
    ensures var r := Scan(clause, p, data, month, asOf, None, e);
            r.Ok? ==> Explained(clause, p, data, Trail(r.value))
    decreases asOf - month
  {
    hide Assess;
    if ValidMonth(month) && month <= asOf {
      var outcome := Assess(clause, p.base, p.exact, data, month);
      if Quiet(outcome) {
        var code := if outcome.Within? then WithinThreshold else BelowMinimumChange;
        ScanExplains(clause, p, data, month + 1, asOf, Pass(e, month, outcome.change, code));
      } else if outcome.Jump? {
        assert Trail(Cross(e, clause, month, outcome)) == e.explanation + [Step(ThresholdCrossed, month)];
      }
    }
  }

  /** Every month's entry says why the month was passed over, why the evaluation stopped there, or that it jumped. */
  lemma EvidenceTellsWhy(textLength: real -> nat, clause: Clause, data: Dataset, asOf: Month)
    requires WellFormed(data)
    ensures var r := Evaluated(textLength, clause, data, asOf, None);
            r.Ok? ==>
              && Prepare(textLength, clause, data, asOf).Ok?
              && Explained(clause, Prepare(textLength, clause, data, asOf).value, data, Trail(r.value))
  {
    hide Scan, Assess;
    var prepared := Prepare(textLength, clause, data, asOf);
    if prepared.Ok? {
      hide Prepare;
      ScanExplains(clause, prepared.value, data, clause.baseMonth + 1, asOf, Start(clause, prepared.value.exact));
    }
  }

  // ----- Without a jump

  /** The clause stands as it was, and the change shown is that of the last month looked at, if any. */
  ghost predicate Unchanged(clause: Clause, p: Prepared, data: Dataset, e: Evaluation)
    requires UsableClause(clause) && p.base > 0 && p.exact >= 0.0 && WellFormed(data)
  {
    && e.newAmountCents == e.oldAmountCents == clause.amountCents && e.newBase == clause.baseValue
    && e.nextClause == clause && e.exactAmount == p.exact && e.appliedPercent == 0 && e.triggerMonth == NO_MONTH
    && if e.evaluatedThrough == clause.baseMonth then e.changePercent == 0
       else
         var last := Assess(clause, p.base, p.exact, data, e.evaluatedThrough);
         Quiet(last) && e.changePercent == last.change
  }

  lemma {:induction false} ScanUnchanged(clause: Clause, p: Prepared, data: Dataset, month: Month, asOf: Month,
                                         reference: Option<Month>, e: Evaluation)
    requires UsableClause(clause) && p.base > 0 && p.exact >= 0.0 && WellFormed(data)
    requires clause.baseMonth < month && FIRST_MONTH <= clause.baseMonth
    requires !e.crossed && Unchanged(clause, p, data, e)
    ensures var r := Scan(clause, p, data, month, asOf, reference, e);
            r.Ok? ==>
              && r.value.oldAmountCents == clause.amountCents
              && (!r.value.crossed ==> Unchanged(clause, p, data, r.value))
    decreases asOf - month
  {
    hide Assess;
    if ValidMonth(month) && month <= asOf {
      var outcome := Assess(clause, p.base, p.exact, data, month);
      if reference.Some? && reference.value != month {
        ScanUnchanged(clause, p, data, month + 1, asOf, reference, e);
      } else if Quiet(outcome) {
        var code := if outcome.Within? then WithinThreshold else BelowMinimumChange;
        ScanUnchanged(clause, p, data, month + 1, asOf, reference, Pass(e, month, outcome.change, code));
      }
    }
  }

  /** An evaluation that finds no jump, by scan or by reference, leaves amount, base and clause as they were. */
  lemma NoJumpNoChange(textLength: real -> nat, clause: Clause, data: Dataset, asOf: Month, reference: Option<Month>)
    requires WellFormed(data)
    ensures var r := Evaluated(textLength, clause, data, asOf, reference);
            r.Ok? ==>
              && Prepare(textLength, clause, data, asOf).Ok? && r.value.oldAmountCents == clause.amountCents
              && (!r.value.crossed ==> Unchanged(clause, Prepare(textLength, clause, data, asOf).value, data, r.value))
  {
    hide Scan, Assess;
    PreparedMonth(textLength, clause, data, asOf);
    var prepared := Prepare(textLength, clause, data, asOf);
    if prepared.Ok? {
      hide Prepare;
      ScanUnchanged(clause, prepared.value, data, clause.baseMonth + 1, asOf, reference,
                    Start(clause, prepared.value.exact));
    }
  }

  /** Where the evaluation waits for publication nothing later is observed; where something is, a month without
      an observation is an error that names it. */
  lemma FrontierDecides(clause: Clause, base: int64, exact: real, data: Dataset, month: Month)
    requires UsableClause(clause) && base > 0 && exact >= 0.0 && WellFormed(data)
    requires ValidSeries(clause.series) && ValidMonth(month)
    ensures var o := Assess(clause, base, exact, data, month);
            && (o == NotPublished <==> forall later: Month :: later >= month ==> !Observed(data, clause.series, later))
            && (o == Failed(MissingIndex(clause.series, month)) <==>
                  && !Observed(data, clause.series, month)
                  && exists later: Month :: later >= month && Observed(data, clause.series, later))
  {
    LookupFindsObserved(data, clause.series, month);
    var found := Lookup(data, clause.series, month);
    if found.Ok? && found.value.Some? { NeverMissing(clause, base, exact, found.value.value); }
    hide AssessFound, Lookup, Observed;
  }

  lemma NeverMissing(clause: Clause, base: int64, exact: real, v: IndexValue)
    requires UsableClause(clause) && base > 0 && exact >= 0.0
    ensures AssessFound(clause, base, exact, v) != NotPublished
    ensures forall series, month :: AssessFound(clause, base, exact, v) != Failed(MissingIndex(series, month))
  {
    hide RoundReal, Settle, Qualifies, ChangePercent, DisplayDecimal, Scaled, RoundTenth, PercentChange;
  }

  // ----- Carrying the exact state on

  lemma SettledJump(clause: Clause, base: int64, exact: real, index: int64, value: int64)
    requires UsableClause(clause) && base > 0 && exact >= 0.0
    ensures var j := AssessIndex(clause, base, exact, index, value);
            j.Jump? ==>
              && index > 0 && j.value == value
              && Qualifies(clause, Measure(clause, base, index))
              && AppliedExact(clause, base, index) == Ok(j.appliedExact)
              && j.exact == Scaled(exact, 1.0 + j.appliedExact / 100.0) >= 0.0
              && RoundFit(j.exact, true) == Ok(j.amount) && j.amount >= 0
  {
    hide ChangePercent, DisplayDecimal, Qualifies, Measure, PercentChange, RoundFit, AppliedExact, Scaled;
  }

  lemma JumpShape(clause: Clause, base: int64, exact: real, data: Dataset, month: Month)
    requires UsableClause(clause) && base > 0 && exact >= 0.0 && WellFormed(data)
    ensures var j := Assess(clause, base, exact, data, month);
            j.Jump? ==>
              && j.exact == Scaled(exact, 1.0 + j.appliedExact / 100.0) >= 0.0
              && RoundFit(j.exact, true) == Ok(j.amount) && j.amount >= 0
              && Lookup(data, clause.series, month).Ok? && Lookup(data, clause.series, month).value.Some?
              && Lookup(data, clause.series, month).value.value.value == j.value
              && !Lookup(data, clause.series, month).value.value.preliminary
              && (Lookup(data, clause.series, month).value.value.chainSource != "" ==> clause.allowDerived)
              && j.value > 0 && RoundTenth(j.value).Ok? && RoundTenth(j.value).value > 0
              && AssessIndex(clause, base, exact, RoundTenth(j.value).value, j.value) == j
  {
    hide AssessIndex, Lookup, RoundTenth, RoundFit, WellFormed, AppliedExact, Measure, Qualifies, MoreToCome, Scaled;
    var j := Assess(clause, base, exact, data, month);
    if j.Jump? {
      var v := Lookup(data, clause.series, month).value.value;
      SettledJump(clause, base, exact, RoundTenth(v.value).value, v.value);
    }
  }

  lemma HandedOn(textLength: real -> nat, clause: Clause, data: Dataset, asOf: Month, cutoff: Month, month: Month,
                 j: Outcome)
    requires WellFormed(data) && Prepare(textLength, clause, data, asOf).Ok?
    requires ValidMonth(cutoff) && ValidMonth(month) && cutoff >= month
    requires j.Jump? && j.exact >= 0.0 && j.amount >= 0 && RoundFit(j.exact, true) == Ok(j.amount)
    requires Lookup(data, clause.series, month).Ok? && Lookup(data, clause.series, month).value.Some?
    requires var v := Lookup(data, clause.series, month).value.value;
             v.value == j.value > 0 && !v.preliminary && (v.chainSource != "" ==> clause.allowDerived)
    requires RoundTenth(j.value).Ok? && RoundTenth(j.value).value > 0
    ensures var handed := clause.(baseMonth := month, baseValue := j.value, amountCents := j.amount,
                                  exactAmount := Some(j.exact));
            var next := Prepare(textLength, handed, data, cutoff);
            && (next.Ok? <==> j.amount > 0 && textLength(j.exact) <= MAX_RATIO_TEXT)
            && (next.Ok? ==> next.value.exact == j.exact && Ok(next.value.base) == RoundTenth(j.value))
  {
    hide Lookup, RoundFit, RoundTenth, WellFormed;
  }

  /** Any reported jump, of a scan or of a reference month, hands its state on like this. */
  lemma JumpHandsOn(textLength: real -> nat, clause: Clause, data: Dataset, asOf: Month, cutoff: Month, e: Evaluation)
    requires WellFormed(data) && Prepare(textLength, clause, data, asOf).Ok?
    requires ValidMonth(cutoff) && ValidMonth(e.triggerMonth) && cutoff >= e.triggerMonth
    requires var p := Prepare(textLength, clause, data, asOf).value;
             ReportsJump(e, clause, Assess(clause, p.base, p.exact, data, e.triggerMonth))
    ensures var next := Prepare(textLength, e.nextClause, data, cutoff);
            && (next.Ok? <==> e.newAmountCents > 0 && textLength(e.exactAmount) <= MAX_RATIO_TEXT)
            && (next.Ok? ==> next.value.exact == e.exactAmount && Ok(next.value.base) == RoundTenth(e.newBase))
  {
    hide Assess, Lookup, RoundFit, RoundTenth, Prepare, AssessIndex, WellFormed, Scaled;
    var p := Prepare(textLength, clause, data, asOf).value;
    JumpShape(clause, p.base, p.exact, data, e.triggerMonth);
    HandedOn(textLength, clause, data, asOf, cutoff, e.triggerMonth,
             Assess(clause, p.base, p.exact, data, e.triggerMonth));
  }

  /** The clause handed on is accepted exactly when its amount is positive and its ratio text is not
      too long; it then carries the exact state on without any loss. */
  lemma NextClauseAccepted(textLength: real -> nat, clause: Clause, data: Dataset, asOf: Month, cutoff: Month)
    requires WellFormed(data) && ValidMonth(cutoff)
    ensures match Evaluated(textLength, clause, data, asOf, None)
            case Err(_) => true
            case Ok(e) =>
              e.crossed && cutoff >= e.triggerMonth ==>
                var next := Prepare(textLength, e.nextClause, data, cutoff);
                && (next.Ok? <==> e.newAmountCents > 0 && textLength(e.exactAmount) <= MAX_RATIO_TEXT)
                && (next.Ok? ==> next.value.exact == e.exactAmount && Ok(next.value.base) == RoundTenth(e.newBase))
  {
    hide Scan, Assess, RoundTenth, Prepare, QuietBetween, WellFormed, ReportsJump;
    EarliestTrigger(textLength, clause, data, asOf);
    var r := Evaluated(textLength, clause, data, asOf, None);
    if r.Ok? && r.value.crossed && cutoff >= r.value.triggerMonth {
      PreparedMonth(textLength, clause, data, asOf);
      JumpHandsOn(textLength, clause, data, asOf, cutoff, r.value);
    }
  }

  lemma PreparedMonth(textLength: real -> nat, clause: Clause, data: Dataset, asOf: Month)
    requires WellFormed(data)
    ensures Prepare(textLength, clause, data, asOf).Ok? ==>
              ValidMonth(asOf) && ValidMonth(clause.baseMonth) && clause.baseMonth <= asOf
  {
    hide Lookup, RoundTenth, ExactCents;
  }

  // ----- Replay

  /** One jump of a replay together with the exact factor it applied to the amount. */
  datatype Applied = Applied(evaluation: Evaluation, factor: real)

  ghost function FactorAt(p: Prepared, clause: Clause, data: Dataset, month: Month): real
    requires UsableClause(clause) && p.base > 0 && p.exact >= 0.0 && WellFormed(data)
  {
    var outcome := Assess(clause, p.base, p.exact, data, month);
    if outcome.Jump? then 1.0 + outcome.appliedExact / 100.0 else 1.0
  }

  /** The jumps obtained by evaluating again and again with the clause handed on; the base month
      advances with every jump, so there are finitely many. */
  ghost function Jumps(textLength: real -> nat, clause: Clause, data: Dataset, asOf: Month): seq<Applied>
    requires WellFormed(data)
    decreases asOf - clause.baseMonth
  {
    EarliestTrigger(textLength, clause, data, asOf);
    match Evaluated(textLength, clause, data, asOf, None)
    case Err(_) => []
    case Ok(e) =>
      if !e.crossed then [] else
        var p := Prepare(textLength, clause, data, asOf).value;
        [Applied(e, FactorAt(p, clause, data, e.triggerMonth))] + Jumps(textLength, e.nextClause, data, asOf)
  }

  ghost function Product(jumps: seq<Applied>): real {
    if jumps == [] then 1.0 else Scaled(jumps[0].factor, Product(jumps[1..]))
  }

  lemma JumpsUnfold(textLength: real -> nat, clause: Clause, data: Dataset, asOf: Month)
    requires WellFormed(data)
    ensures var r := Evaluated(textLength, clause, data, asOf, None);
            var js := Jumps(textLength, clause, data, asOf);
            && (js != [] <==> r.Ok? && r.value.crossed)
            && (js != [] ==>
                  && Prepare(textLength, clause, data, asOf).Ok?
                  && js[0].evaluation == r.value
                  && js[0].factor == FactorAt(Prepare(textLength, clause, data, asOf).value, clause, data,
                                              r.value.triggerMonth)
                  && js[1..] == Jumps(textLength, r.value.nextClause, data, asOf))
  {
    hide Scan, Assess, Prepare, WellFormed, FirstStop, QuietBetween, ReportsJump;
    EarliestTrigger(textLength, clause, data, asOf);
  }

  lemma FirstJump(textLength: real -> nat, clause: Clause, data: Dataset, asOf: Month)
    requires WellFormed(data)
    ensures var js := Jumps(textLength, clause, data, asOf);
            js != [] ==>
              var e := js[0].evaluation;
              && Prepare(textLength, clause, data, asOf).Ok?
              && js[1..] == Jumps(textLength, e.nextClause, data, asOf)
              && js[0].factor >= 0.0
              && e.exactAmount == Scaled(Prepare(textLength, clause, data, asOf).value.exact, js[0].factor)
              && RoundFit(e.exactAmount, true) == Ok(e.newAmountCents)
              && clause.baseMonth < e.triggerMonth <= asOf
              && e.nextClause.exactAmount == Some(e.exactAmount)
              && e.nextClause.baseMonth == e.triggerMonth
  {
    hide Jumps, Scan, Assess, Prepare, RoundFit, WellFormed, AssessIndex, QuietBetween, Lookup, RoundTenth, Scaled;
    JumpsUnfold(textLength, clause, data, asOf);
    EarliestTrigger(textLength, clause, data, asOf);
    var r := Evaluated(textLength, clause, data, asOf, None);
    if r.Ok? && r.value.crossed {
      var p := Prepare(textLength, clause, data, asOf).value;
      JumpShape(clause, p.base, p.exact, data, r.value.triggerMonth);
      JumpFactor(clause, p.base, p.exact, data, r.value.triggerMonth);
    }
  }

  lemma JumpFactor(clause: Clause, base: int64, exact: real, data: Dataset, month: Month)
    requires UsableClause(clause) && base > 0 && exact >= 0.0 && WellFormed(data)
    ensures var j := Assess(clause, base, exact, data, month);
            j.Jump? ==> j.appliedExact >= -100.0
  {
    hide Assess, AssessIndex;
    JumpShape(clause, base, exact, data, month);
    var j := Assess(clause, base, exact, data, month);
    if j.Jump? { SettledJump(clause, base, exact, RoundTenth(j.value).value, j.value); }
  }

  /** The state handed on is what the next evaluation starts from, digit for digit. */
  lemma NextStart(textLength: real -> nat, clause: Clause, data: Dataset, asOf: Month)
    requires WellFormed(data)
    ensures var r := Prepare(textLength, clause, data, asOf);
            r.Ok? && clause.exactAmount.Some? ==> r.value.exact == clause.exactAmount.value
  {
    hide Lookup, RoundTenth, RoundFit;
  }

  /** Replay never accumulates rounding: after any number of jumps the exact amount is the start times
      the product of the applied factors, and the cents are its half-up rounding. */
  lemma {:induction false} ReplayIsExact(textLength: real -> nat, clause: Clause, data: Dataset, asOf: Month, k: nat)
    requires WellFormed(data)
    ensures var js := Jumps(textLength, clause, data, asOf);
            k < |js| ==>
              && Prepare(textLength, clause, data, asOf).Ok?
              && js[k].evaluation.exactAmount
                 == Scaled(Prepare(textLength, clause, data, asOf).value.exact, Product(js[..k + 1]))
              && RoundFit(js[k].evaluation.exactAmount, true) == Ok(js[k].evaluation.newAmountCents)
    decreases k
  {
    hide Jumps, Prepare, RoundFit, Scaled;
    FirstJump(textLength, clause, data, asOf);
    var js := Jumps(textLength, clause, data, asOf);
    if k < |js| {
      var start := Prepare(textLength, clause, data, asOf).value.exact;
      assert js[..k + 1][1..] == js[1..][..k];
      if k > 0 {
        var next := js[0].evaluation.nextClause;
        ReplayIsExact(textLength, next, data, asOf, k - 1);
        NextStart(textLength, next, data, asOf);
        ScaledTwice(start, js[0].factor, Product(js[1..][..k]));
      } else {
        ScaledTwice(js[0].factor, 1.0, 1.0);
        assert Product(js[..1]) == Scaled(js[0].factor, Product([]));
      }
    }
  }

  lemma Associate(x: real, y: real, z: real)
    ensures (x * y) * z == x * (y * z)
  {
  }

  /** Trigger months strictly advance along a replay. */
  lemma {:induction false} TriggersAdvance(textLength: real -> nat, clause: Clause, data: Dataset, asOf: Month, k: nat)
    requires WellFormed(data)
    ensures var js := Jumps(textLength, clause, data, asOf);
            && (k < |js| ==> clause.baseMonth + k < js[k].evaluation.triggerMonth <= asOf)
            && (k + 1 < |js| ==> js[k].evaluation.triggerMonth < js[k + 1].evaluation.triggerMonth)
    decreases k
  {
    hide Jumps, Prepare, RoundFit;
    FirstJump(textLength, clause, data, asOf);
    var js := Jumps(textLength, clause, data, asOf);
    if |js| > 0 {
      var next := js[0].evaluation.nextClause;
      FirstJump(textLength, next, data, asOf);
      if k > 0 { TriggersAdvance(textLength, next, data, asOf, k - 1); }
    }
  }

  /** Replaying up to an earlier cutoff gives exactly the jumps of a later replay that trigger by then: they
      begin it, and the next one, if any, triggers after the earlier cutoff. */
  lemma {:induction false} EarlierReplayIsPrefix(textLength: real -> nat, clause: Clause, data: Dataset, asOf: Month,
                                                 cutoff: Month)
    requires WellFormed(data) && ValidMonth(asOf) && ValidMonth(cutoff) && asOf <= cutoff
    ensures var earlier, later := Jumps(textLength, clause, data, asOf), Jumps(textLength, clause, data, cutoff);
            && earlier <= later
            && (|earlier| < |later| ==> asOf < later[|earlier|].evaluation.triggerMonth)
    decreases asOf - clause.baseMonth
  {
    hide Jumps, Evaluated, Prepare, FactorAt, WellFormed;
    JumpsUnfold(textLength, clause, data, asOf);
    JumpsUnfold(textLength, clause, data, cutoff);
    FirstJump(textLength, clause, data, asOf);
    FirstJump(textLength, clause, data, cutoff);
    CutoffDoesNotMatter(textLength, clause, data, asOf, cutoff);
    CutoffDoesNotMatter(textLength, clause, data, cutoff, asOf);
    var earlier, later := Jumps(textLength, clause, data, asOf), Jumps(textLength, clause, data, cutoff);
    if earlier != [] {
      PrepareIgnoresCutoff(textLength, clause, data, asOf, cutoff);
      EarlierReplayIsPrefix(textLength, earlier[0].evaluation.nextClause, data, asOf, cutoff);
      assert earlier == [earlier[0]] + earlier[1..] && later == [later[0]] + later[1..];
    }
  }

  // ----- Path independence

  lemma UnroundedJump(clause: Clause, base: int64, exact: real, index: int64, value: int64)
    requires UsableClause(clause) && base > 0 && exact >= 0.0
    requires clause.percentRounding == UnroundedPercent && clause.changeMode == FullChange
    ensures var j := AssessIndex(clause, base, exact, index, value);
            j.Jump? ==> j.exact * base as real == exact * index as real
  {
    hide DisplayDecimal, Qualifies, Measure, PercentChange, RoundFit, AssessIndex;
    SettledJump(clause, base, exact, index, value);
    var j := AssessIndex(clause, base, exact, index, value);
    if j.Jump? {
      var x, b, i := (index - base) as real, base as real, index as real;
      var q := x / b;
      assert q * b == x;
      assert j.appliedExact == q * 100.0;
      Associate(exact, 1.0 + q, b);
      assert (1.0 + q) * b == i;
    }
  }

  /** amount : start = index : base */
  ghost predicate Proportional(amount: real, start: real, index: real, base: real) {
    amount * base == start * index
  }

  lemma CancelStep(x: real, y: real, s: real, b: real, i: real, j: real)
    requires i > 0.0 && Proportional(x, y, j, i) && Proportional(y, s, i, b)
    ensures Proportional(x, s, j, b)
  {
    Associate(x, i, b);
    Associate(x, b, i);
    Associate(y, j, b);
    Associate(y, b, j);
    Associate(s, i, j);
    Associate(s, j, i);
    assert (x * b) * i == (s * j) * i;
    EqualFactors(x * b, s * j, i);
  }

  lemma EqualFactors(x: real, y: real, f: real)
    requires f > 0.0 && x * f == y * f
    ensures x == y
  {
    assert (x - y) * f == 0.0;
  }

  lemma FirstUnroundedJump(textLength: real -> nat, clause: Clause, data: Dataset, asOf: Month)
    requires WellFormed(data)
    requires clause.percentRounding == UnroundedPercent && clause.changeMode == FullChange
    ensures var js := Jumps(textLength, clause, data, asOf);
            js != [] ==>
              var e := js[0].evaluation;
              && Prepare(textLength, clause, data, asOf).Ok?
              && RoundTenth(e.newBase).Ok? && RoundTenth(e.newBase).value > 0
              && Proportional(e.exactAmount, Prepare(textLength, clause, data, asOf).value.exact,
                              RoundTenth(e.newBase).value as real,
                              Prepare(textLength, clause, data, asOf).value.base as real)
              && e.nextClause.percentRounding == UnroundedPercent && e.nextClause.changeMode == FullChange
              && e.nextClause.baseValue == e.newBase && e.nextClause.exactAmount == Some(e.exactAmount)
  {
    hide Jumps, Scan, Assess, Prepare, RoundFit, WellFormed, AssessIndex, QuietBetween, Lookup, RoundTenth, Scaled;
    JumpsUnfold(textLength, clause, data, asOf);
    EarliestTrigger(textLength, clause, data, asOf);
    var r := Evaluated(textLength, clause, data, asOf, None);
    if r.Ok? && r.value.crossed {
      var p := Prepare(textLength, clause, data, asOf).value;
      JumpShape(clause, p.base, p.exact, data, r.value.triggerMonth);
      UnroundedJump(clause, p.base, p.exact, RoundTenth(r.value.newBase).value, r.value.newBase);
    }
  }

  lemma NextBase(textLength: real -> nat, clause: Clause, data: Dataset, asOf: Month)
    requires WellFormed(data)
    ensures var r := Prepare(textLength, clause, data, asOf);
            r.Ok? ==> RoundTenth(clause.baseValue) == Ok(r.value.base)
  {
    hide Lookup, RoundTenth, RoundFit;
  }

  /** Whichever jumps were taken on the way, an unrounded full-change clause arrives at the amount of
      one single revaluation from the first base to the last index. */
  lemma {:induction false} PathIndependence(textLength: real -> nat, clause: Clause, data: Dataset, asOf: Month, k: nat)
    requires WellFormed(data)
    requires clause.percentRounding == UnroundedPercent && clause.changeMode == FullChange
    ensures var js := Jumps(textLength, clause, data, asOf);
            k < |js| ==>
              && Prepare(textLength, clause, data, asOf).Ok?
              && RoundTenth(js[k].evaluation.newBase).Ok?
              && Proportional(js[k].evaluation.exactAmount, Prepare(textLength, clause, data, asOf).value.exact,
                              RoundTenth(js[k].evaluation.newBase).value as real,
                              Prepare(textLength, clause, data, asOf).value.base as real)
    decreases k
  {
    hide Jumps, Prepare, RoundFit, RoundTenth, WellFormed, Proportional;
    FirstUnroundedJump(textLength, clause, data, asOf);
    FirstJump(textLength, clause, data, asOf);
    var js := Jumps(textLength, clause, data, asOf);
    if 0 < k < |js| {
      var e := js[0].evaluation;
      var p := Prepare(textLength, clause, data, asOf).value;
      PathIndependence(textLength, e.nextClause, data, asOf, k - 1);
      NextStart(textLength, e.nextClause, data, asOf);
      NextBase(textLength, e.nextClause, data, asOf);
      CancelStep(js[k].evaluation.exactAmount, e.exactAmount, p.exact, p.base as real,
                 RoundTenth(e.newBase).value as real, RoundTenth(js[k].evaluation.newBase).value as real);
    }
  }

  // ----- Every reported jump is a jump

  lemma {:induction false} ScanJump(clause: Clause, p: Prepared, data: Dataset, month: Month, asOf: Month,
                                    reference: Option<Month>, e: Evaluation)
    requires UsableClause(clause) && p.base > 0 && p.exact >= 0.0 && WellFormed(data) && !e.crossed
    ensures var r := Scan(clause, p, data, month, asOf, reference, e);
            r.Ok? && r.value.crossed ==>
              ReportsJump(r.value, clause, Assess(clause, p.base, p.exact, data, r.value.triggerMonth))
    decreases asOf - month
  {
    hide Assess;
    if ValidMonth(month) && month <= asOf {
      var outcome := Assess(clause, p.base, p.exact, data, month);
      if reference.Some? && reference.value != month {
        ScanJump(clause, p, data, NextMonth(month), asOf, reference, e);
      } else if Quiet(outcome) {
        var code := if outcome.Within? then WithinThreshold else BelowMinimumChange;
        ScanJump(clause, p, data, NextMonth(month), asOf, reference, Pass(e, month, outcome.change, code));
      }
    }
  }

  /** Whatever the cutoff, and with or without a reference month: a crossed evaluation reports what its
      trigger month yields. */
  lemma EveryJumpIsAssessed(textLength: real -> nat, clause: Clause, data: Dataset, asOf: Month,
                            reference: Option<Month>)
    requires WellFormed(data)
    ensures var r := Evaluated(textLength, clause, data, asOf, reference);
            r.Ok? && r.value.crossed ==>
              && Prepare(textLength, clause, data, asOf).Ok?
              && var p := Prepare(textLength, clause, data, asOf).value;
              ReportsJump(r.value, clause, Assess(clause, p.base, p.exact, data, r.value.triggerMonth))
  {
    hide Scan, Assess, Prepare;
    var prepared := Prepare(textLength, clause, data, asOf);
    if prepared.Ok? {
      var p := prepared.value;
      ScanJump(clause, p, data, NextMonth(clause.baseMonth), asOf, reference, Start(clause, p.exact));
    }
  }

  // ----- Periodic clauses: one reference month at a time

  /** What one month alone makes of a started evaluation. */
  ghost function AtMonth(clause: Clause, p: Prepared, data: Dataset, month: Month): Result<Evaluation, EvalError>
    requires UsableClause(clause) && p.base > 0 && p.exact >= 0.0 && WellFormed(data)
  {
    var start := Start(clause, p.exact);
    var outcome := Assess(clause, p.base, p.exact, data, month);
    match outcome
    case Failed(error) => Err(error)
    case NotPublished => Ok(Pend(start, month, NotPublishedYet))
    case Preliminary => Ok(Pend(start, month, PreliminaryIgnored))
    case Within(change) => Ok(Pass(start, month, change, WithinThreshold))
    case Below(change) => Ok(Pass(start, month, change, BelowMinimumChange))
    case Jump(_, _, _, _, _, _) => Ok(Cross(start, clause, month, outcome))
  }

  lemma {:induction false} ScanSkips(clause: Clause, p: Prepared, data: Dataset, month: Month, reference: Month)
    requires UsableClause(clause) && p.base > 0 && p.exact >= 0.0 && WellFormed(data)
    requires FIRST_MONTH < month <= reference && ValidMonth(reference)
    ensures Scan(clause, p, data, month, reference, Some(reference), Start(clause, p.exact))
            == AtMonth(clause, p, data, reference)
    decreases reference - month
  {
    hide Assess;
    if month < reference { ScanSkips(clause, p, data, month + 1, reference); }
  }

  /** A reference evaluation is the outcome of its one month, applied to the untouched start: no month in
      between is looked at, and none after it. */
  lemma ReferenceIsOneMonth(textLength: real -> nat, clause: Clause, data: Dataset, reference: Month)
    requires WellFormed(data) && ValidMonth(reference) && reference > clause.baseMonth
    ensures Evaluated(textLength, clause, data, reference, Some(reference)) ==
            match Prepare(textLength, clause, data, reference)
            case Err(error) => Err(error)
            case Ok(p) => AtMonth(clause, p, data, reference)
  {
    hide Scan, AtMonth;
    PreparedMonth(textLength, clause, data, reference);
    var prepared := Prepare(textLength, clause, data, reference);
    hide Prepare;
    if prepared.Ok? { ScanSkips(clause, prepared.value, data, NextMonth(clause.baseMonth), reference); }
  }

  /** `EvaluateReference`: a month after the base is assessed on its own; any other is refused. */
  method EvaluateReference(textLength: real -> nat, clause: Clause, data: Dataset, reference: Month)
    returns (r: Result<Evaluation, EvalError>)
    requires WellFormed(data)
    ensures !ValidMonth(reference) || reference <= clause.baseMonth ==> r == Err(InvalidReference)
    ensures ValidMonth(reference) && reference > clause.baseMonth ==>
              r == match Prepare(textLength, clause, data, reference)
                   case Err(error) => Err(error)
                   case Ok(p) => AtMonth(clause, p, data, reference)
  {
    if !ValidMonth(reference) || reference <= clause.baseMonth {
      return Err(InvalidReference);
    }
    hide Evaluated, Prepare, AtMonth;
    ReferenceIsOneMonth(textLength, clause, data, reference);
    r := EvaluateClause(textLength, clause, data, reference, Some(reference));
  }

  /** Two publications that agree on the base and the reference month, and on whether anything was observed
      from there on, give one reference evaluation. */
  lemma OtherMonthsDoNotMatter(textLength: real -> nat, clause: Clause, data: Dataset, other: Dataset, reference: Month)
    requires WellFormed(data) && WellFormed(other) && ValidMonth(reference) && reference > clause.baseMonth
    requires Lookup(data, clause.series, clause.baseMonth) == Lookup(other, clause.series, clause.baseMonth)
    requires Lookup(data, clause.series, reference) == Lookup(other, clause.series, reference)
    requires MoreToCome(data, clause.series, reference) == MoreToCome(other, clause.series, reference)
    ensures Evaluated(textLength, clause, data, reference, Some(reference))
            == Evaluated(textLength, clause, other, reference, Some(reference))
  {
    hide Evaluated, Lookup, MoreToCome, WellFormed, AtMonth, Prepare, Assess;
    ReferenceIsOneMonth(textLength, clause, data, reference);
    ReferenceIsOneMonth(textLength, clause, other, reference);
    SamePreparation(textLength, clause, data, other, reference);
    var prepared := Prepare(textLength, clause, data, reference);
    if prepared.Ok? { SameMonth(clause, prepared.value, data, other, reference); }
  }

  lemma SamePreparation(textLength: real -> nat, clause: Clause, data: Dataset, other: Dataset, asOf: Month)
    requires WellFormed(data) && WellFormed(other)
    requires Lookup(data, clause.series, clause.baseMonth) == Lookup(other, clause.series, clause.baseMonth)
    ensures Prepare(textLength, clause, data, asOf) == Prepare(textLength, clause, other, asOf)
  {
    hide Lookup, RoundTenth, ExactCents, WellFormed;
  }

  lemma SameMonth(clause: Clause, p: Prepared, data: Dataset, other: Dataset, month: Month)
    requires UsableClause(clause) && p.base > 0 && p.exact >= 0.0 && WellFormed(data) && WellFormed(other)
    requires Lookup(data, clause.series, month) == Lookup(other, clause.series, month)
    requires MoreToCome(data, clause.series, month) == MoreToCome(other, clause.series, month)
    ensures AtMonth(clause, p, data, month) == AtMonth(clause, p, other, month)
  {
    hide Lookup, MoreToCome, AssessFound, WellFormed;
  }

  lemma ReferenceJump(textLength: real -> nat, clause: Clause, data: Dataset, reference: Month)
    requires WellFormed(data) && ValidMonth(reference) && reference > clause.baseMonth
    ensures var r := Evaluated(textLength, clause, data, reference, Some(reference));
            r.Ok? && r.value.crossed ==>
              && Prepare(textLength, clause, data, reference).Ok?
              && r.value.triggerMonth == reference
              && var p := Prepare(textLength, clause, data, reference).value;
              && ReportsJump(r.value, clause, Assess(clause, p.base, p.exact, data, reference))
              && Prepare(textLength, clause, data, reference).value.exact == ExactStart(clause)
  {
    ReferenceIsOneMonth(textLength, clause, data, reference);
    PreparedStart(textLength, clause, data, reference);
    hide Evaluated, Assess, Prepare;
  }

  /** The exact amount a clause stands for. */
  function ExactStart(clause: Clause): real {
    match clause.exactAmount case None => clause.amountCents as real case Some(x) => x
  }

  lemma PreparedStart(textLength: real -> nat, clause: Clause, data: Dataset, asOf: Month)
    requires WellFormed(data)
    ensures var r := Prepare(textLength, clause, data, asOf); r.Ok? ==> r.value.exact == ExactStart(clause)
  {
    hide Lookup, RoundTenth, RoundFit;
  }

  /** Where the scan triggers, the reference evaluation of that month finds the same jump. */
  lemma ReferenceAgreesWithScan(textLength: real -> nat, clause: Clause, data: Dataset, asOf: Month)
    requires WellFormed(data)
    ensures match Evaluated(textLength, clause, data, asOf, None)
            case Err(_) => true
            case Ok(e) =>
              e.crossed ==>
                var r := Evaluated(textLength, clause, data, e.triggerMonth, Some(e.triggerMonth));
                && r.Ok? && r.value.crossed && r.value.nextClause == e.nextClause
                && r.value.exactAmount == e.exactAmount && r.value.newAmountCents == e.newAmountCents
                && r.value.changePercent == e.changePercent && r.value.appliedPercent == e.appliedPercent
  {
    hide Scan, Assess, Prepare, QuietBetween, WellFormed;
    EarliestTrigger(textLength, clause, data, asOf);
    var r := Evaluated(textLength, clause, data, asOf, None);
    if r.Ok? && r.value.crossed {
      PreparedMonth(textLength, clause, data, asOf);
      PrepareIgnoresCutoff(textLength, clause, data, asOf, r.value.triggerMonth);
      ReferenceIsOneMonth(textLength, clause, data, r.value.triggerMonth);
    }
  }

  /** A crossed reference hands its clause on under the same exact condition as a scan. */
  lemma ReferenceClauseAccepted(textLength: real -> nat, clause: Clause, data: Dataset, reference: Month, cutoff: Month)
    requires WellFormed(data) && ValidMonth(reference) && reference > clause.baseMonth && ValidMonth(cutoff)
    requires cutoff >= reference
    ensures match Evaluated(textLength, clause, data, reference, Some(reference))
            case Err(_) => true
            case Ok(e) =>
              e.crossed ==>
                var next := Prepare(textLength, e.nextClause, data, cutoff);
                && (next.Ok? <==> e.newAmountCents > 0 && textLength(e.exactAmount) <= MAX_RATIO_TEXT)
                && (next.Ok? ==> next.value.exact == e.exactAmount && Ok(next.value.base) == RoundTenth(e.newBase))
  {
    hide Evaluated, Assess, RoundTenth, Prepare, WellFormed, ReportsJump;
    ReferenceJump(textLength, clause, data, reference);
    var r := Evaluated(textLength, clause, data, reference, Some(reference));
    if r.Ok? && r.value.crossed { JumpHandsOn(textLength, clause, data, reference, cutoff, r.value); }
  }

  /** The jumps of a periodic clause at a list of reference months; months without a jump leave the clause
      as it was, and an error ends the series. */
  ghost function ReferenceJumps(textLength: real -> nat, clause: Clause, data: Dataset,
                                references: seq<Month>): seq<Applied>
    requires WellFormed(data)
    decreases |references|
  {
    if references == [] then []
    else
      var month := references[0];
      if !ValidMonth(month) || month <= clause.baseMonth then []
      else
        ReferenceJump(textLength, clause, data, month);
        match Evaluated(textLength, clause, data, month, Some(month))
        case Err(_) => []
        case Ok(e) =>
          if e.crossed then
            var p := Prepare(textLength, clause, data, month).value;
            [Applied(e, FactorAt(p, clause, data, month))]
              + ReferenceJumps(textLength, e.nextClause, data, references[1..])
          else ReferenceJumps(textLength, clause, data, references[1..])
  }

  lemma ReferenceStep(textLength: real -> nat, clause: Clause, data: Dataset, reference: Month)
    requires WellFormed(data) && ValidMonth(reference) && reference > clause.baseMonth
    ensures match Evaluated(textLength, clause, data, reference, Some(reference))
            case Err(_) => true
            case Ok(e) =>
              e.crossed ==>
                && Prepare(textLength, clause, data, reference).Ok?
                && var factor := FactorAt(Prepare(textLength, clause, data, reference).value, clause, data, reference);
                && factor >= 0.0 && e.exactAmount == Scaled(ExactStart(clause), factor)
                && RoundFit(e.exactAmount, true) == Ok(e.newAmountCents)
                && ExactStart(e.nextClause) == e.exactAmount && e.nextClause.baseMonth == reference
  {
    hide Evaluated, Assess, Prepare, RoundFit, WellFormed, AssessIndex, Lookup, RoundTenth, Scaled;
    ReferenceJump(textLength, clause, data, reference);
    var r := Evaluated(textLength, clause, data, reference, Some(reference));
    if r.Ok? && r.value.crossed {
      var p := Prepare(textLength, clause, data, reference).value;
      JumpShape(clause, p.base, p.exact, data, reference);
      JumpFactor(clause, p.base, p.exact, data, reference);
    }
  }

  /** Periodic replay never accumulates rounding either: after any number of references the exact amount is
      the clause's own times the product of the applied factors, and the cents are its half-up rounding. */
  lemma {:induction false} ReferenceReplayIsExact(textLength: real -> nat, clause: Clause, data: Dataset,
                                                  references: seq<Month>, k: nat)
    requires WellFormed(data)
    ensures var js := ReferenceJumps(textLength, clause, data, references);
            k < |js| ==>
              && js[k].evaluation.exactAmount == Scaled(ExactStart(clause), Product(js[..k + 1]))
              && RoundFit(js[k].evaluation.exactAmount, true) == Ok(js[k].evaluation.newAmountCents)
    decreases |references|
  {
    hide Evaluated, RoundFit, Scaled, FactorAt, ExactStart, Prepare, WellFormed, ReportsJump;
    var js := ReferenceJumps(textLength, clause, data, references);
    if references != [] && ValidMonth(references[0]) && references[0] > clause.baseMonth {
      var r := Evaluated(textLength, clause, data, references[0], Some(references[0]));
      ReferenceStep(textLength, clause, data, references[0]);
      if r.Ok? && r.value.crossed {
        assert js[..1] == [js[0]] && (k < |js| ==> js[..k + 1][1..] == js[1..][..k]);
        if 0 < k < |js| {
          ReferenceReplayIsExact(textLength, r.value.nextClause, data, references[1..], k - 1);
          ScaledTwice(ExactStart(clause), js[0].factor, Product(js[1..][..k]));
        } else if k == 0 {
          ScaledTwice(js[0].factor, 1.0, 1.0);
          assert Product(js[..1]) == Scaled(js[0].factor, Product([]));
        }
      } else if r.Ok? {
        ReferenceReplayIsExact(textLength, clause, data, references[1..], k);
      }
    }
  }
}
