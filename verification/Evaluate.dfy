/** Finding the first contractual jump of an index clause (evaluate.go). */
module Evaluate {
  import opened Basics
  import opened Calendar
  import opened Reals
  import opened Rounding
  import opened Dataset

  datatype ThresholdKind = PercentThreshold | PointsThreshold | UnknownKind
  datatype CrossingRule = Exceeds | Reaches | UnknownRule
  datatype ChangeMode = FullChange | ExcessChange | UnknownChange
  datatype PercentRounding = OneDecimalPercent | UnroundedPercent | UnknownRounding

  /** The exact curve state carried between calls: empty, or the ratio it spells out. */
  type ExactText = Option<real>

  datatype Clause = Clause(
    series: Series,
    baseMonth: Month,
    baseValue: int64,
    amountCents: int64,
    thresholdKind: ThresholdKind,
    threshold: int64,
    crossing: CrossingRule,
    changeMode: ChangeMode,
    minimumChangeCents: int64,
    percentRounding: PercentRounding,
    exactAmount: ExactText,
    allowDerived: bool)

  datatype EvalError =
    | InvalidClause | UnknownThreshold | UnknownMode | UnknownPercentRounding
    | InvalidExactAmount | LookupFailed | BaseNotFinal | DerivedNeedsReview | InvalidBase
    | MissingIndex(series: Series, month: Month)
    | ArithmeticFailed | InvalidReference

  datatype Code =
    | BaseFinal | NotPublishedYet | PreliminaryIgnored | WithinThreshold | BelowMinimumChange | ThresholdCrossed
      | BaseReset

  datatype Step = Step(code: Code, month: Month)

  datatype Evaluation = Evaluation(
    crossed: bool,
    triggerMonth: Month,
    evaluatedThrough: Month,
    pendingMonth: Month,
    changePercent: int64,
    appliedPercent: int64,
    oldAmountCents: int64,
    newAmountCents: int64,
    newBase: int64,
    nextClause: Clause,
    exactAmount: real,
    explanation: seq<Step>)

  /** `exactCents`: the ratio must round half up to the cents it accompanies. */
  function ExactCents(textLength: real -> nat, text: ExactText, cents: int64): Result<real, EvalError> {
    if cents < 0 then Err(InvalidExactAmount)
    else
      match text
      case None => Ok(cents as real)
      case Some(x) =>
        if textLength(x) > MAX_RATIO_TEXT || x < 0.0 then Err(InvalidExactAmount)
        else if RoundFit(x, true) != Ok(cents) then Err(InvalidExactAmount)
        else Ok(x)
  }

  // ----- One month

  /** The change from `base` to `current` in percent, in the clause's rounding. */
  function ChangePercent(rounding: PercentRounding, base: int64, current: int64): real
    requires base > 0 && current > 0
  {
    if rounding == UnroundedPercent then (current - base) as real / base as real * 100.0
    else ChangeTenths(base, current) as real / 10.0
  }

  /** `x` lies between zero and `y`, on whichever side `y` is. */
  ghost predicate TowardsZero(x: real, y: real) {
    (0.0 <= x <= y) || (y <= x <= 0.0)
  }

  /** A smaller movement on the same side of the base never yields a larger change. */
  lemma ChangePercentOrder(rounding: PercentRounding, base: int64, inner: int64, outer: int64)
    requires base > 0 && inner > 0 && outer > 0
    requires base <= inner <= outer || outer <= inner <= base
    ensures TowardsZero(ChangePercent(rounding, base, inner), ChangePercent(rounding, base, outer))
    ensures ChangePercent(rounding, base, outer) >= -100.0
  {
    hide RoundReal;
    var x, y, b := (inner - base) as real, (outer - base) as real, base as real;
    if rounding == UnroundedPercent {
      QuotientSides(x, y, b);
      QuotientBound(y, b, -1.0);
    } else {
      TenthsOrder(base, inner, outer);
    }
  }

  lemma TenthsOrder(base: int64, inner: int64, outer: int64)
    requires base > 0 && inner > 0 && outer > 0
    requires base <= inner <= outer || outer <= inner <= base
    ensures 0 <= ChangeTenths(base, inner) <= ChangeTenths(base, outer)
            || ChangeTenths(base, outer) <= ChangeTenths(base, inner) <= 0
    ensures ChangeTenths(base, outer) >= -1000
  {
    hide RoundReal;
    var x, y, b := (inner - base) as real * 1000.0, (outer - base) as real * 1000.0, base as real;
    ChangeTenthsFloor(base, inner);
    ChangeTenthsFloor(base, outer);
    QuotientSides(x, y, b);
    if inner <= outer {
      RoundMonotone(x / b, y / b, true);
    } else {
      RoundMonotone(y / b, x / b, true);
    }
  }

  lemma QuotientSides(x: real, y: real, d: real)
    requires d > 0.0
    requires 0.0 <= x <= y || y <= x <= 0.0
    ensures 0.0 <= x <= y ==> 0.0 <= x / d <= y / d
    ensures y <= x <= 0.0 ==> y / d <= x / d <= 0.0
  {
    QuotientBound(x, d, 0.0);
    QuotientBound(y, d, 0.0);
    QuotientOrder(x, y, d);
    QuotientOrder(y, x, d);
  }

  predicate Qualifies(clause: Clause, measure: real) {
    var threshold := DecimalValue(clause.threshold);
    && (Abs(measure) > threshold || (clause.crossing == Reaches && Abs(measure) == threshold))
    && measure != 0.0
  }

  /** Rises and falls are treated alike, a larger movement qualifies whenever a smaller one does, the exact
      threshold counts only when reaching it is enough, and an unchanged index never counts. */
  lemma ThresholdLaws(clause: Clause, x: real, y: real)
    requires clause.threshold >= 0
    ensures Qualifies(clause, -x) <==> Qualifies(clause, x)
    ensures Qualifies(clause, x) && Abs(x) <= Abs(y) ==> Qualifies(clause, y)
    ensures Abs(x) == DecimalValue(clause.threshold) && x != 0.0 ==>
              (Qualifies(clause, x) <==> clause.crossing == Reaches)
    ensures !Qualifies(clause, 0.0) && (Abs(x) < DecimalValue(clause.threshold) ==> !Qualifies(clause, x))
    ensures Abs(x) > DecimalValue(clause.threshold) ==> Qualifies(clause, x)
  {
  }

  function Measure(clause: Clause, base: int64, index: int64): real
    requires base > 0 && index > 0
  {
    if clause.thresholdKind == PointsThreshold then DecimalValue(index - base)
    else ChangePercent(clause.percentRounding, base, index)
  }

  /** The excess points are compared against the same base. The sum cannot wrap, and the adjusted
      index stays between base and index, because only movements beyond the threshold get here. */
  function Adjusted(clause: Clause, base: int64, index: int64): (adjusted: int64)
    requires base > 0 && index > 0 && clause.threshold >= 0
    requires clause.thresholdKind == PointsThreshold && Qualifies(clause, Measure(clause, base, index))
    ensures base <= adjusted <= index || index <= adjusted <= base
  {
    if index < base then index + clause.threshold else index - clause.threshold
  }

  /** The change that is actually applied: never beyond the full change, never of opposite sign. */
  function AppliedExact(clause: Clause, base: int64, index: int64): (r: Result<real, EvalError>)
    requires base > 0 && index > 0 && clause.threshold >= 0
    requires Qualifies(clause, Measure(clause, base, index))
    ensures r.Ok? ==> TowardsZero(r.value, ChangePercent(clause.percentRounding, base, index)) && r.value >= -100.0
  {
    var change := ChangePercent(clause.percentRounding, base, index);
    ChangePercentOrder(clause.percentRounding, base, index, index);
    if clause.changeMode != ExcessChange then Ok(change)
    else if clause.thresholdKind == PercentThreshold then
      var excess := Abs(change) - DecimalValue(clause.threshold);
      Ok(if change < 0.0 then -excess else excess)
    else if clause.thresholdKind == PointsThreshold then
      var adjusted := Adjusted(clause, base, index);
      ChangePercentOrder(clause.percentRounding, base, adjusted, index);
      match PercentChange(base, adjusted)
      case Err(_) => Err(ArithmeticFailed)
      case Ok(_) => Ok(ChangePercent(clause.percentRounding, base, adjusted))
    else Err(UnknownThreshold)
  }

  datatype Outcome =
    | Failed(error: EvalError)
    | NotPublished
    | Preliminary
    | Within(change: int64)
    | Below(change: int64)
    | Jump(change: int64, applied: int64, appliedExact: real, amount: int64, exact: real, value: int64)

  predicate UsableClause(clause: Clause) {
    clause.amountCents > 0 && clause.threshold >= 0 && clause.minimumChangeCents >= 0
  }

  /** Rounding an amount of money half up. */
  function RoundMoney(exact: real): (r: Result<int64, MathError>)
    requires exact >= 0.0
    ensures r.Ok? ==> r.value >= 0
  {
    RoundAboveInteger(exact, 0, true);
    RoundFit(exact, true)
  }

  /** How far the cents have to move before a change counts: at least one cent, and the agreed minimum. */
  function LeastMove(clause: Clause): int {
    Max(1, clause.minimumChangeCents as int)
  }

  /** The money side of a qualifying change, whose factor is never negative; so neither is the amount, and the
      difference of two amounts cannot wrap. It jumps exactly when the rounded amount moves far enough. */
  function Settle(clause: Clause, newExact: real, change: int64, appliedExact: real, value: int64): (o: Outcome)
    requires UsableClause(clause) && newExact >= 0.0
    ensures var cents := RoundReal(newExact, true);
            if !FitsInt64(cents) || DisplayDecimal(appliedExact).Err? then o == Failed(ArithmeticFailed)
            else if AbsInt(cents - clause.amountCents as int) < LeastMove(clause) then o == Below(change)
            else
              && o.Jump? && o.amount as int == cents >= 0 && o.change == change && o.exact == newExact
              && o.appliedExact == appliedExact && Ok(o.applied) == DisplayDecimal(appliedExact) && o.value == value
  {
    match RoundMoney(newExact)
    case Err(_) => Failed(ArithmeticFailed)
    case Ok(amount) =>
      var gap := amount - clause.amountCents;
      var difference := if gap < 0 then -gap else gap;
      match DisplayDecimal(appliedExact)
      case Err(_) => Failed(ArithmeticFailed)
      case Ok(applied) =>
        if difference == 0 || difference < clause.minimumChangeCents then Below(change)
        else Jump(change, applied, appliedExact, amount, newExact, value)
  }

  function AssessIndex(clause: Clause, base: int64, exact: real, index: int64, value: int64): Outcome
    requires UsableClause(clause) && base > 0 && exact >= 0.0
  {
    match PercentChange(base, index)
    case Err(_) => Failed(ArithmeticFailed)
    case Ok(tenths) =>
      var displayed := if clause.percentRounding == UnroundedPercent
                       then DisplayDecimal(ChangePercent(UnroundedPercent, base, index)) else Ok(tenths);
      match displayed
      case Err(_) => Failed(ArithmeticFailed)
      case Ok(change) =>
        if !Qualifies(clause, Measure(clause, base, index)) then Within(change)
        else
          match AppliedExact(clause, base, index)
          case Err(e) => Failed(e)
          case Ok(appliedExact) => Settle(clause, Scaled(exact, 1.0 + appliedExact / 100.0), change, appliedExact,
                                          value)
  }

  /** `Revalue`: one-decimal indices, a one-decimal change, money rounded half up. */
  function Revalue(cents: int64, base: int64, current: int64): Result<(int64, int64), MathError> {
    match RoundTenth(base)
    case Err(e) => Err(e)
    case Ok(b) =>
      match RoundTenth(current)
      case Err(e) => Err(e)
      case Ok(c) =>
        match PercentChange(b, c)
        case Err(e) => Err(e)
        case Ok(change) =>
          match ApplyPercent(cents, change, true)
          case Err(e) => Err(e)
          case Ok(amount) => Ok((change, amount))
  }

  lemma RatioIsScaled(amount: real, rate: real, n: real, whole: real)
    requires whole == 100_000_000.0 && n == whole + rate
    ensures amount * n / whole == Scaled(amount, 1.0 + rate / 1_000_000.0 / 100.0)
  {
    var k := 1.0 + rate / 100_000_000.0;
    assert n == whole * k && 1.0 + rate / 1_000_000.0 / 100.0 == k;
    Pull(amount, whole, k);
  }

  lemma Pull(c: real, d: real, k: real)
    ensures c * (d * k) == d * (c * k)
  {
  }

  lemma AppliedFactor(cents: int64, change: int64)
    requires cents >= 0 && -100_000_000 <= change <= 0x7fff_ffff_ffff_ffff - 100_000_000
    ensures ApplyPercent(cents, change, true)
            == RoundFit(Scaled(cents as real, 1.0 + DecimalValue(change) / 100.0), true)
  {
    hide RoundFit;
    var whole: int64 := 100_000_000;
    assert ApplyPercent(cents, change, true) == RoundFit(Ratio(cents, whole + change, whole), true) by { hide Ratio; }
    hide ApplyPercent;
    assert Ratio(cents, whole + change, whole) == Scaled(cents as real, 1.0 + DecimalValue(change) / 100.0) by {
      hide Scaled;
      RatioIsScaled(cents as real, change as real, (whole + change) as real, whole as real);
    }
  }

  /** A full one-decimal jump from a plain amount charges exactly what revaluing that amount between the two
      published indices gives, unless the change is too large for that shorter computation. */
  lemma JumpIsRevaluation(clause: Clause, base: int64, value: int64)
    requires UsableClause(clause) && clause.percentRounding == OneDecimalPercent && clause.changeMode == FullChange
    requires RoundTenth(base).Ok? && RoundTenth(base).value > 0 && RoundTenth(value).Ok?
    ensures var j := AssessIndex(clause, RoundTenth(base).value, clause.amountCents as real, RoundTenth(value).value,
                                 value);
            j.Jump? ==>
              match Revalue(clause.amountCents, base, value)
              case Ok((change, amount)) => change == j.change == j.applied && amount == j.amount
              case Err(_) => j.change > 0x7fff_ffff_ffff_ffff - 100_000_000
  {
    hide RoundTenth, Qualifies, Measure, RoundReal, Scaled;
    var b, c := RoundTenth(base).value, RoundTenth(value).value;
    var j := AssessIndex(clause, b, clause.amountCents as real, c, value);
    if j.Jump? {
      var change := PercentChange(b, c).value;
      assert ChangePercent(OneDecimalPercent, b, c) == DecimalValue(change);
      RoundInteger(change as int, true);
      if change <= 0x7fff_ffff_ffff_ffff - 100_000_000 { AppliedFactor(clause.amountCents, change); }
    }
  }

  function AssessFound(clause: Clause, base: int64, exact: real, v: IndexValue): Outcome
    requires UsableClause(clause) && base > 0 && exact >= 0.0
  {
    if v.preliminary then Preliminary
    else if v.chainSource != "" && !clause.allowDerived then Failed(DerivedNeedsReview)
    else
      match RoundTenth(v.value)
      case Err(_) => Failed(ArithmeticFailed)
      case Ok(index) => AssessIndex(clause, base, exact, index, v.value)
  }

  /** A later month has an observation, so this one was skipped rather than not published yet. */
  ghost predicate MoreToCome(data: Dataset, series: Series, month: Month) {
    exists later: Month :: later >= month && Observed(data, series, later)
  }

  ghost function Assess(clause: Clause, base: int64, exact: real, data: Dataset, month: Month): Outcome
    requires UsableClause(clause) && base > 0 && exact >= 0.0 && WellFormed(data)
  {
    match Lookup(data, clause.series, month)
    case Err(_) => Failed(LookupFailed)
    case Ok(None) => if MoreToCome(data, clause.series, month) then Failed(MissingIndex(clause.series, month))
      else NotPublished
    case Ok(Some(v)) => AssessFound(clause, base, exact, v)
  }

  predicate Quiet(outcome: Outcome) {
    outcome.Within? || outcome.Below?
  }

  /** A quiet month or a jump rests on a final observation: nothing preliminary, nothing missing. */
  lemma OnlyFinalMonthsDecide(clause: Clause, base: int64, exact: real, data: Dataset, month: Month)
    requires UsableClause(clause) && base > 0 && exact >= 0.0 && WellFormed(data)
    requires Quiet(Assess(clause, base, exact, data, month)) || Assess(clause, base, exact, data, month).Jump?
    ensures Lookup(data, clause.series, month).Ok? && Lookup(data, clause.series, month).value.Some?
    ensures var v := Lookup(data, clause.series, month).value.value;
            && !v.preliminary && v.month == month && v.series == clause.series
            && (v.chainSource != "" ==> clause.allowDerived)
  {
    LookupAnswers(data, clause.series, month);
  }

  // ----- The scan

  datatype Prepared = Prepared(base: int64, exact: real)

  function Prepare(textLength: real -> nat, clause: Clause, data: Dataset,
                   asOf: Month): (r: Result<Prepared, EvalError>)
    requires WellFormed(data)
    ensures r.Ok? ==> UsableClause(clause) && r.value.base > 0 && r.value.exact >= 0.0 && ValidMonth(clause.baseMonth)
  {
    if !ValidSeries(clause.series) || !ValidMonth(clause.baseMonth) || !ValidMonth(asOf) || asOf < clause.baseMonth
       || clause.amountCents <= 0 || clause.baseValue <= 0 || clause.threshold < 0 || clause.minimumChangeCents < 0
    then Err(InvalidClause)
    else if clause.thresholdKind == UnknownKind then Err(UnknownThreshold)
    else if clause.crossing == UnknownRule || clause.changeMode == UnknownChange then Err(UnknownMode)
    else if clause.percentRounding == UnknownRounding then Err(UnknownPercentRounding)
    else
      match ExactCents(textLength, clause.exactAmount, clause.amountCents)
      case Err(e) => Err(e)
      case Ok(exact) =>
        match Lookup(data, clause.series, clause.baseMonth)
        case Err(_) => Err(LookupFailed)
        case Ok(None) => Err(BaseNotFinal)
        case Ok(Some(v)) =>
          if v.preliminary || v.value != clause.baseValue then Err(BaseNotFinal)
          else if v.chainSource != "" && !clause.allowDerived then Err(DerivedNeedsReview)
          else
            match RoundTenth(clause.baseValue)
            case Err(_) => Err(InvalidBase)
            case Ok(base) => if base <= 0 then Err(InvalidBase) else Ok(Prepared(base, exact))
  }

  function Start(clause: Clause, exact: real): Evaluation {
    Evaluation(false, NO_MONTH, clause.baseMonth, NO_MONTH, 0, 0, clause.amountCents, clause.amountCents,
               clause.baseValue, clause, exact, [Step(BaseFinal, clause.baseMonth)])
  }

  function Pend(e: Evaluation, month: Month, code: Code): Evaluation {
    e.(pendingMonth := month, explanation := e.explanation + [Step(code, month)])
  }

  function Pass(e: Evaluation, month: Month, change: int64, code: Code): Evaluation {
    e.(evaluatedThrough := month, changePercent := change, explanation := e.explanation + [Step(code, month)])
  }

  function Cross(e: Evaluation, clause: Clause, month: Month, jump: Outcome): Evaluation
    requires jump.Jump?
  {
    e.(crossed := true,
       triggerMonth := month,
       evaluatedThrough := month,
       changePercent := jump.change,
       appliedPercent := jump.applied,
       newAmountCents := jump.amount,
       newBase := jump.value,
       exactAmount := jump.exact,
       nextClause := clause.(baseMonth := month, baseValue := jump.value, amountCents := jump.amount,
                             exactAmount := Some(jump.exact)),
       explanation := e.explanation + [Step(ThresholdCrossed, month), Step(BaseReset, month)])
  }

  ghost function Scan(clause: Clause, p: Prepared, data: Dataset, month: Month, asOf: Month, reference: Option<Month>,
                      e: Evaluation): Result<Evaluation, EvalError>
    requires UsableClause(clause) && p.base > 0 && p.exact >= 0.0 && WellFormed(data)
    decreases asOf - month
  {
    if !ValidMonth(month) || month > asOf then Ok(e)
    else if reference.Some? && reference.value != month then Scan(clause, p, data, NextMonth(month), asOf, reference, e)
    else
      match Assess(clause, p.base, p.exact, data, month)
      case Failed(error) => Err(error)
      case NotPublished => Ok(Pend(e, month, NotPublishedYet))
      case Preliminary => Ok(Pend(e, month, PreliminaryIgnored))
      case Within(change) => Scan(clause, p, data, NextMonth(month), asOf, reference,
                                  Pass(e, month, change, WithinThreshold))
      case Below(change) => Scan(clause, p, data, NextMonth(month), asOf, reference,
                                 Pass(e, month, change, BelowMinimumChange))
      case Jump(_, _, _, _, _, _) => Ok(Cross(e, clause, month, Assess(clause, p.base, p.exact, data, month)))
  }

  /** `Evaluate`, and with a reference month `EvaluateReference`, as one function of their inputs. */
  ghost function Evaluated(textLength: real -> nat, clause: Clause, data: Dataset, asOf: Month,
                           reference: Option<Month>)
    : Result<Evaluation, EvalError>
    requires WellFormed(data)
  {
    match Prepare(textLength, clause, data, asOf)
    case Err(e) => Err(e)
    case Ok(p) => Scan(clause, p, data, NextMonth(clause.baseMonth), asOf, reference, Start(clause, p.exact))
  }

  method EvaluateClause(textLength: real -> nat, clause: Clause, data: Dataset, asOf: Month, reference: Option<Month>)
    returns (r: Result<Evaluation, EvalError>)
    requires WellFormed(data)
    ensures r == Evaluated(textLength, clause, data, asOf, reference)
  {
    var prepared := Prepare(textLength, clause, data, asOf);
    if prepared.Err? {
      return Err(prepared.error);
    }
    var p := prepared.value;
    var result := Start(clause, p.exact);
    var latest := Latest(data, clause.series);
    var month := NextMonth(clause.baseMonth);
    ghost var whole := Evaluated(textLength, clause, data, asOf, reference);
    assert whole == Scan(clause, p, data, month, asOf, reference, result);
    hide Evaluated, Prepare, WellFormed, IsLatest, Assess;
    while ValidMonth(month) && month <= asOf
      invariant whole == Scan(clause, p, data, month, asOf, reference, result)
      decreases asOf - month
    {
      if reference.Some? && month != reference.value {
        month := NextMonth(month);
        continue;
      }
      var outcome := AssessMonth(clause, p, data, latest, month);
      match outcome {
        case Failed(error) => return Err(error);
        case NotPublished => return Ok(Pend(result, month, NotPublishedYet));
        case Preliminary => return Ok(Pend(result, month, PreliminaryIgnored));
        case Jump(_, _, _, _, _, _) => return Ok(Cross(result, clause, month, outcome));
        case Within(change) => result := Pass(result, month, change, WithinThreshold);
        case Below(change) => result := Pass(result, month, change, BelowMinimumChange);
      }
      month := NextMonth(month);
    }
    return Ok(result);
  }

  /** One month of the scan, with the frontier the source computed before it started. */
  method AssessMonth(clause: Clause, p: Prepared, data: Dataset, latest: Month, month: Month) returns (outcome: Outcome)
    requires UsableClause(clause) && p.base > 0 && p.exact >= 0.0 && WellFormed(data)
    requires IsLatest(data, clause.series, latest) && ValidMonth(month)
    ensures outcome == Assess(clause, p.base, p.exact, data, month)
  {
    FrontierAgrees(data, clause.series, latest, month);
    hide WellFormed, IsLatest, MoreToCome, Lookup, AssessFound;
    var found := Lookup(data, clause.series, month);
    if found.Err? {
      return Failed(LookupFailed);
    }
    if found.value.None? {
      return if month <= latest then Failed(MissingIndex(clause.series, month)) else NotPublished;
    }
    return AssessFound(clause, p.base, p.exact, found.value.value);
  }

  lemma FrontierAgrees(data: Dataset, series: Series, latest: Month, month: Month)
    requires WellFormed(data) && IsLatest(data, series, latest) && ValidMonth(month)
    ensures month <= latest <==> MoreToCome(data, series, month)
  {
    if month <= latest { assert Observed(data, series, latest); }
  }
}
