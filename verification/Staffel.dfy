/** Agreed step rents (staffel.go). */
module Staffel {
  import opened Basics
  import opened Calendar
  import opened Rounding
  import opened DecimalText

  /** Exactly one of amount and percentage; `effectiveOn` is absent when its text is no date. */
  datatype StaffelStep = StaffelStep(effectiveOn: Option<Date>, netCents: Option<int64>, percent: string)

  const MAX_STEPS: nat := 120

  datatype StaffelError = AmountsRequired | InvalidSchedule | OutOfRange

  datatype StaffelResult = StaffelResult(
    crossed: bool, oldAmountCents: int64, newAmountCents: int64, exactAmount: real, effectiveOn: Option<Date>)

  predicate ValidStep(step: StaffelStep) {
    && step.effectiveOn.Some?
    && (step.netCents.None? <==> step.percent != "")
    && (step.netCents.Some? ==> step.netCents.value > 0)
    && (step.percent != "" ==> ParseDecimal(step.percent).Some? && ParseDecimal(step.percent).value > 0)
  }

  ghost predicate Ascending(steps: seq<StaffelStep>)
    requires forall i :: 0 <= i < |steps| ==> steps[i].effectiveOn.Some?
  {
    forall i, j :: 0 <= i < j < |steps| ==> steps[i].effectiveOn.value < steps[j].effectiveOn.value
  }

  ghost predicate ValidSteps(steps: seq<StaffelStep>) {
    (forall i :: 0 <= i < |steps| ==> ValidStep(steps[i])) && Ascending(steps)
  }

  ghost predicate ValidSchedule(steps: seq<StaffelStep>) {
    0 < |steps| <= MAX_STEPS && ValidSteps(steps)
  }

  /** Between 1 and 120 steps on ascending dates, each with either a positive amount or the text of a positive
      percentage. */
  method ValidateStaffelSteps(steps: seq<StaffelStep>) returns (ok: bool)
    ensures ok <==> ValidSchedule(steps)
    ensures ok <==>
              && 1 <= |steps| <= 120
              && (forall i :: 0 <= i < |steps| ==>
                    && steps[i].effectiveOn.Some?
                    && if steps[i].percent == "" then steps[i].netCents.Some? && steps[i].netCents.value >= 1
                       else && steps[i].netCents == None && ParseDecimal(steps[i].percent).Some?
                            && ParseDecimal(steps[i].percent).value >= 1)
              && forall i, j :: 0 <= i < j < |steps| ==> steps[i].effectiveOn.value < steps[j].effectiveOn.value
  {
    hide ParseDecimal;
    if |steps| == 0 || |steps| > MAX_STEPS {
      return false;
    }
    var last: Option<Date> := None;
    for i := 0 to |steps|
      invariant ValidSteps(steps[..i])
      invariant last == if i == 0 then None else steps[i - 1].effectiveOn
    {
      var step := steps[i];
      if !ValidStep(step) || (last.Some? && step.effectiveOn.value <= last.value) {
        return false;
      }
      last := step.effectiveOn;
    }
    assert steps[..|steps|] == steps;
    return true;
  }

  // ----- The contract curve

  /** The factor of a percentage step. */
  function Factor(step: StaffelStep): (f: real)
    requires ValidStep(step) && step.netCents.None?
    ensures f > 1.0
  {
    1.0 + DecimalValue(ParseDecimal(step.percent).value) / 100.0
  }

  function Apply(amount: real, step: StaffelStep): (r: real)
    requires ValidStep(step)
    ensures amount > 0.0 ==> r > 0.0
  {
    match step.netCents
    case Some(cents) => cents as real
    case None => Scaled(amount, Factor(step))
  }

  /** What a step makes of an amount, told from its own fields: a fixed amount replaces it, a percentage p turns
      every hundred into a hundred and p. */
  lemma StepEffect(amount: real, step: StaffelStep)
    requires ValidStep(step)
    ensures step.netCents.Some? ==> Apply(amount, step) == step.netCents.value as real
    ensures step.netCents.None? ==>
              && ParseDecimal(step.percent).Some?
              && Apply(amount, step) * 100_000_000.0
                 == amount * (100_000_000.0 + ParseDecimal(step.percent).value as real)
  {
    hide ParseDecimal;
    if step.netCents.None? { InMillionths(amount, ParseDecimal(step.percent).value as real); }
  }

  lemma InMillionths(amount: real, p: real)
    ensures Scaled(amount, 1.0 + p / 1_000_000.0 / 100.0) * 100_000_000.0 == amount * (100_000_000.0 + p)
  {
    var f := 1.0 + p / 1_000_000.0 / 100.0;
    assert f * 100_000_000.0 == 100_000_000.0 + p;
    assert Scaled(amount, f) * 100_000_000.0 == amount * (f * 100_000_000.0);
  }

  /** The exact amount after the first `n` steps; nothing is rounded in between. */
  function Amount(start: int64, steps: seq<StaffelStep>, n: nat): real
    requires n <= |steps| && forall i :: 0 <= i < n ==> ValidStep(steps[i])
  {
    if n == 0 then start as real else Apply(Amount(start, steps, n - 1), steps[n - 1])
  }

  /** How many steps have taken effect by the cutoff. */
  function Due(steps: seq<StaffelStep>, through: Date): (n: nat)
    requires forall i :: 0 <= i < |steps| ==> steps[i].effectiveOn.Some?
    ensures n <= |steps|
    ensures forall i :: 0 <= i < n ==> steps[i].effectiveOn.value <= through
    ensures n < |steps| ==> steps[n].effectiveOn.value > through
  {
    if steps == [] || steps[0].effectiveOn.value > through then 0
    else Due(steps[1..], through) + 1
  }

  predicate InRange(textLength: real -> nat, x: real) {
    RoundFit(x, true).Ok? && textLength(x) <= MAX_RATIO_TEXT
  }

  function EvaluatedStaffel(textLength: real -> nat, startCents: int64, currentCents: int64, steps: seq<StaffelStep>,
                            through: Date)
    : Result<StaffelResult, StaffelError>
    requires forall i :: 0 <= i < |steps| ==> ValidStep(steps[i])
  {
    assert forall i :: 0 <= i < |steps| ==> ValidStep(steps[i]) && steps[i].effectiveOn.Some?;
    var n := Due(steps, through);
    if exists k :: 1 <= k <= n && !InRange(textLength, Amount(startCents, steps, k)) then Err(OutOfRange)
    else
      var exact := Amount(startCents, steps, n);
      var cents := if n == 0 then startCents else RoundFit(exact, true).value;
      Ok(StaffelResult(n > 0 && cents != currentCents, currentCents, cents, exact,
                       if n == 0 then None else steps[n - 1].effectiveOn))
  }

  method EvaluateStaffel(textLength: real -> nat, startCents: int64, currentCents: int64, steps: seq<StaffelStep>,
                         through: Date)
    returns (r: Result<StaffelResult, StaffelError>)
    ensures startCents <= 0 || currentCents <= 0 || through == 0 ==> r == Err(AmountsRequired)
    ensures startCents > 0 && currentCents > 0 && through != 0 && !ValidSchedule(steps) ==> r == Err(InvalidSchedule)
    ensures startCents > 0 && currentCents > 0 && through != 0 && ValidSchedule(steps) ==>
              r == EvaluatedStaffel(textLength, startCents, currentCents, steps, through)
  {
    if startCents <= 0 || currentCents <= 0 || through == 0 {
      return Err(AmountsRequired);
    }
    var valid := ValidateStaffelSteps(steps);
    if !valid {
      return Err(InvalidSchedule);
    }
    r := FollowSteps(textLength, startCents, currentCents, steps, through);
  }

  method FollowSteps(textLength: real -> nat, startCents: int64, currentCents: int64, steps: seq<StaffelStep>,
                     through: Date)
    returns (r: Result<StaffelResult, StaffelError>)
    requires ValidSteps(steps)
    ensures r == EvaluatedStaffel(textLength, startCents, currentCents, steps, through)
  {
    hide ParseDecimal, Factor, Apply, RoundReal, Due;
    var amount := startCents as real;
    var newAmount := startCents;
    var effective: Option<Date> := None;
    var i := 0;
    while i < |steps|
      invariant 0 <= i <= Due(steps, through)
      invariant amount == Amount(startCents, steps, i)
      invariant forall k :: 1 <= k <= i ==> InRange(textLength, Amount(startCents, steps, k))
      invariant newAmount == if i == 0 then startCents else RoundFit(amount, true).value
      invariant effective == if i == 0 then None else steps[i - 1].effectiveOn
      decreases |steps| - i
    {
      var step := steps[i];
      if step.effectiveOn.value > through {
        break;
      }
      DueReaches(steps, through, i);
      amount := Apply(amount, step);
      if RoundFit(amount, true).Err? || textLength(amount) > MAX_RATIO_TEXT {
        assert !InRange(textLength, Amount(startCents, steps, i + 1));
        return Err(OutOfRange);
      }
      effective := step.effectiveOn;
      newAmount := RoundFit(amount, true).value;
      i := i + 1;
    }
    assert i == Due(steps, through);
    return Ok(StaffelResult(effective.Some? && newAmount != currentCents, currentCents, newAmount, amount, effective));
  }

  lemma {:induction false} DueReaches(steps: seq<StaffelStep>, through: Date, i: nat)
    requires ValidSteps(steps) && i < |steps| && steps[i].effectiveOn.value <= through
    ensures i < Due(steps, through)
  {
    hide ParseDecimal;
  }

  // ----- Laws

  lemma {:induction false} AmountIgnoresLater(start: int64, steps: seq<StaffelStep>, later: seq<StaffelStep>, n: nat)
    requires n <= |steps| && forall i :: 0 <= i < |steps| ==> ValidStep(steps[i])
    ensures Amount(start, steps + later, n) == Amount(start, steps, n)
  {
    hide Apply;
    if n > 0 { AmountIgnoresLater(start, steps, later, n - 1); }
  }

  lemma {:induction false} DueIgnoresLater(steps: seq<StaffelStep>, later: seq<StaffelStep>, through: Date)
    requires forall i :: 0 <= i < |steps| ==> steps[i].effectiveOn.Some?
    requires forall i :: 0 <= i < |later| ==> later[i].effectiveOn.Some? && later[i].effectiveOn.value > through
    ensures Due(steps + later, through) == Due(steps, through)
  {
    if steps == [] {
      assert steps + later == later;
    } else {
      assert (steps + later)[1..] == steps[1..] + later;
      DueIgnoresLater(steps[1..], later, through);
    }
  }

  /** Steps after the cutoff never leak into the result. */
  lemma LaterStepsDoNotLeak(textLength: real -> nat, start: int64, current: int64, steps: seq<StaffelStep>,
                            later: seq<StaffelStep>, through: Date)
    requires forall i :: 0 <= i < |steps| ==> ValidStep(steps[i])
    requires forall i :: 0 <= i < |later| ==> ValidStep(later[i]) && later[i].effectiveOn.value > through
    ensures EvaluatedStaffel(textLength, start, current, steps + later, through)
            == EvaluatedStaffel(textLength, start, current, steps, through)
  {
    hide ParseDecimal, InRange, RoundFit, Apply;
    DueIgnoresLater(steps, later, through);
    var n := Due(steps, through);
    forall k | 0 <= k <= n
      ensures Amount(start, steps + later, k) == Amount(start, steps, k)
    {
      AmountIgnoresLater(start, steps, later, k);
    }
  }

  lemma {:induction false} AmountPositive(start: int64, steps: seq<StaffelStep>, n: nat)
    requires start > 0 && n <= |steps| && forall i :: 0 <= i < n ==> ValidStep(steps[i])
    ensures Amount(start, steps, n) > 0.0
  {
    hide Apply, ValidStep;
    if n > 0 { AmountPositive(start, steps, n - 1); }
  }

  /** The product of the factors of a run of percentage steps. */
  ghost function GrowthFrom(steps: seq<StaffelStep>, from: nat, n: nat): real
    requires from <= n <= |steps| && forall i :: 0 <= i < |steps| ==> ValidStep(steps[i])
    requires forall i :: from <= i < n ==> steps[i].netCents.None?
  {
    if n == from then 1.0 else Scaled(GrowthFrom(steps, from, n - 1), Factor(steps[n - 1]))
  }

  /** A run of percentage steps multiplies the exact amount it started from by the exact product of
      its factors: rounded cents never feed back into the curve. */
  lemma {:induction false} PercentagesCompoundExactly(start: int64, steps: seq<StaffelStep>, from: nat, n: nat)
    requires from <= n <= |steps| && forall i :: 0 <= i < |steps| ==> ValidStep(steps[i])
    requires forall i :: from <= i < n ==> steps[i].netCents.None?
    ensures Amount(start, steps, n) == Scaled(Amount(start, steps, from), GrowthFrom(steps, from, n))
  {
    hide Factor, ValidStep, Scaled;
    ScaledTwice(Amount(start, steps, from), 1.0, 1.0);
    if n > from {
      PercentagesCompoundExactly(start, steps, from, n - 1);
      ScaledTwice(Amount(start, steps, from), GrowthFrom(steps, from, n - 1), Factor(steps[n - 1]));
    }
  }

  /** Before its first step a schedule leaves the start; then the last step due tells date and exact amount, and
      the cents are its half-up rounding. It has jumped if a step is due and the cents differ from the current
      rent. It is refused exactly when the amount after some due step is too large or its text too long. */
  lemma StaffelReports(textLength: real -> nat, start: int64, current: int64, steps: seq<StaffelStep>, through: Date)
    requires forall i :: 0 <= i < |steps| ==> ValidStep(steps[i])
    ensures forall i :: 0 <= i < |steps| ==> steps[i].effectiveOn.Some?
    ensures var n := Due(steps, through);
            match EvaluatedStaffel(textLength, start, current, steps, through)
            case Err(_) =>
              exists k :: && 1 <= k <= n
                          && (!FitsInt64(RoundReal(Amount(start, steps, k), true))
                              || textLength(Amount(start, steps, k)) > 2048)
            case Ok(r) =>
              && r.oldAmountCents == current && r.exactAmount == Amount(start, steps, n)
              && (n == 0 ==> r.newAmountCents == start && r.effectiveOn == None)
              && (n > 0 ==>
                    && IsNearest(r.exactAmount, r.newAmountCents as int, true)
                    && r.effectiveOn == steps[n - 1].effectiveOn)
              && (r.crossed <==> n > 0 && r.newAmountCents != current)
              && forall k :: 1 <= k <= n ==>
                   && FitsInt64(RoundReal(Amount(start, steps, k), true))
                   && textLength(Amount(start, steps, k)) <= 2048
  {
    hide ParseDecimal, Apply, RoundReal;
    assert forall i :: 0 <= i < |steps| ==> ValidStep(steps[i]) && steps[i].effectiveOn.Some?;
    var n := Due(steps, through);
    if exists k :: 1 <= k <= n && !InRange(textLength, Amount(start, steps, k)) {
    } else {
      assert forall k :: 1 <= k <= n ==> InRange(textLength, Amount(start, steps, k));
    }
  }

  /** What the statutory check will ask of a crossed result holds of every crossed result. */
  lemma CrossedStaffelIsConsistent(textLength: real -> nat, start: int64, current: int64, steps: seq<StaffelStep>,
                                   through: Date)
    requires start > 0 && forall i :: 0 <= i < |steps| ==> ValidStep(steps[i])
    ensures match EvaluatedStaffel(textLength, start, current, steps, through)
            case Err(_) => true
            case Ok(r) =>
              r.crossed ==>
                r.exactAmount > 0.0 && RoundFit(r.exactAmount, true) == Ok(r.newAmountCents)
                  && textLength(r.exactAmount) <= MAX_RATIO_TEXT
  {
    hide ParseDecimal, Apply, RoundReal;
    assert forall i :: 0 <= i < |steps| ==> ValidStep(steps[i]) && steps[i].effectiveOn.Some?;
    var n := Due(steps, through);
    AmountPositive(start, steps, n);
    if n > 0 && InRange(textLength, Amount(start, steps, n)) {}
  }
}
