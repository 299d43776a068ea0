/** Limiting a contractual adjustment by the statutory ceiling (statutory.go, second half). */
module MieWeG {
  import opened Basics
  import opened Calendar
  import opened Rounding
  import opened Dataset
  import opened Evaluate
  import Replay
  import Staffel
  import opened Statutory

  datatype RentalScope =
    | ResidentialFullMRG | ResidentialPartialMRG | ResidentialExcluded | Commercial | CommercialFullMRG | UnknownScope

  /** What the limit needs of an evaluation: whether it jumped, the cents, and the exact ratio text. */
  datatype ContractResult = ContractResult(crossed: bool, newAmountCents: int64, exactAmount: ExactText)

  datatype StatutoryContext = StatutoryContext(
    scope: RentalScope,
    isSublease: bool,
    currentAmountCents: int64,
    contractEffectiveOn: Date,
    ceiling: Ceiling,
    maxRentCents: Option<int64>)

  datatype LimitError =
    | AmountsAndDatesRequired | UnsupportedScope | ContractInconsistent | MissedBefore2026 | PriceControlMismatch
    | AprilCeilingRequired | CeilingPredatesContract | CeilingUnreadable | CeilingInconsistent | InvalidMaximum
      | LimitOverflow

  datatype LimitedAdjustment = LimitedAdjustment(
    calculatedCents: int64,
    permittedCents: int64,
    allowedNowCents: int64,
    deferredCents: int64,
    cappedCents: int64,
    effectiveOn: Date,
    requiresMRGNotice: bool)

  predicate Covered(scope: RentalScope) {
    scope == ResidentialFullMRG || scope == ResidentialPartialMRG
  }

  predicate FullMRG(scope: RentalScope) {
    scope == ResidentialFullMRG || scope == CommercialFullMRG
  }

  function CeilingChecked(textLength: real -> nat, context: StatutoryContext): Result<real, LimitError> {
    var ceiling := context.ceiling;
    if YearOfDate(context.contractEffectiveOn) < 2026 then Err(MissedBefore2026)
    else if ceiling.priceControlled && !FullMRG(context.scope) then Err(PriceControlMismatch)
    else if ceiling.effectiveOn == 0 || YearOfDate(ceiling.effectiveOn) < 2026
      || !IsAprilFirst(ceiling.effectiveOn) then Err(AprilCeilingRequired)
    else if ceiling.effectiveOn < context.contractEffectiveOn then Err(CeilingPredatesContract)
    else
      match ceiling.exactAmount
      case None => Err(CeilingUnreadable)
      case Some(x) =>
        if textLength(x) > MAX_RATIO_TEXT || x < 0.0 then Err(CeilingUnreadable)
        else if RoundFit(x, false) != Ok(ceiling.amountCents) then Err(CeilingInconsistent)
        else Ok(x)
  }

  /** The date and the amount the curves permit, before any reviewed maximum. */
  function CurveLimit(textLength: real -> nat, contract: ContractResult, exact: real, context: StatutoryContext)
    : Result<(Date, int64), LimitError>
  {
    if !Covered(context.scope) then Ok((context.contractEffectiveOn, contract.newAmountCents))
    else if exact <= context.currentAmountCents as real then Rounded(exact, context.contractEffectiveOn)
    else
      match CeilingChecked(textLength, context)
      case Err(e) => Err(e)
      case Ok(cap) => Rounded(if cap < exact then cap else exact, context.ceiling.effectiveOn)
  }

  function Rounded(exact: real, on: Date): Result<(Date, int64), LimitError> {
    match RoundFit(exact, false)
    case Err(_) => Err(LimitOverflow)
    case Ok(cents) => Ok((on, cents))
  }

  function WithMaximum(permitted: int64, context: StatutoryContext): Result<int64, LimitError> {
    match context.maxRentCents
    case None => Ok(permitted)
    case Some(maximum) =>
      if !FullMRG(context.scope) || maximum < 0 then Err(InvalidMaximum)
      else Ok(if permitted > maximum then maximum else permitted)
  }

  function ApplyMieWeG(textLength: real -> nat, contract: ContractResult, context: StatutoryContext, asOf: Date)
    : Result<LimitedAdjustment, LimitError>
  {
    var current := context.currentAmountCents;
    if current <= 0 || contract.newAmountCents < 0 || asOf == 0
      || context.contractEffectiveOn == 0 then Err(AmountsAndDatesRequired)
    else if context.scope == UnknownScope then Err(UnsupportedScope)
    else
      var notice := FullMRG(context.scope) && !context.isSublease;
      if !contract.crossed then
        Ok(LimitedAdjustment(contract.newAmountCents, current, current, 0, 0, context.contractEffectiveOn, notice))
      else
        match ExactCents(textLength, contract.exactAmount, contract.newAmountCents)
        case Err(_) => Err(ContractInconsistent)
        case Ok(exact) =>
          match CurveLimit(textLength, contract, exact, context)
          case Err(e) => Err(e)
          case Ok((on, curve)) =>
            match WithMaximum(curve, context)
            case Err(e) => Err(e)
            case Ok(permitted) =>
              PermittedBounds(textLength, contract, exact, context);
              var allowed := if asOf >= on then permitted else current;
              Ok(LimitedAdjustment(contract.newAmountCents, permitted, allowed, permitted - allowed,
                                   contract.newAmountCents - permitted, on, notice))
  }

  // ----- Bounds

  lemma ExactCentsShape(textLength: real -> nat, text: ExactText, cents: int64)
    requires ExactCents(textLength, text, cents).Ok?
    ensures var x := ExactCents(textLength, text, cents).value;
            x >= 0.0 && RoundReal(x, true) == cents as int
  {
    RoundInteger(cents as int, true);
  }

  lemma PermittedBounds(textLength: real -> nat, contract: ContractResult, exact: real, context: StatutoryContext)
    requires contract.newAmountCents >= 0
    requires ExactCents(textLength, contract.exactAmount, contract.newAmountCents) == Ok(exact)
    ensures var limit := CurveLimit(textLength, contract, exact, context);
            limit.Ok? ==>
              && 0 <= limit.value.1 <= contract.newAmountCents
              && var permitted := WithMaximum(limit.value.1, context);
                 permitted.Ok? ==> 0 <= permitted.value <= limit.value.1
  {
    hide RoundReal, MonthOf;
    ExactCentsShape(textLength, contract.exactAmount, contract.newAmountCents);
    HalfDownIsLower(exact);
    var cap := CeilingChecked(textLength, context);
    if cap.Ok? && cap.value < exact {
      HalfDownIsLower(cap.value);
      RoundMonotone(cap.value, exact, true);
    }
  }

  lemma HalfDownIsLower(x: real)
    requires x >= 0.0
    ensures 0 <= RoundReal(x, false) <= RoundReal(x, true)
  {
    HalfDownBelowHalfUp(x);
  }

  // ----- Laws

  /** Nothing is lost: the deferral is a difference of timing, the cap one of amount, and the cap is
      only filled in for a crossed contract. */
  lemma AdjustmentBalances(textLength: real -> nat, contract: ContractResult, context: StatutoryContext, asOf: Date)
    ensures match ApplyMieWeG(textLength, contract, context, asOf)
            case Err(_) => true
            case Ok(r) =>
              && r.calculatedCents == contract.newAmountCents
              && r.allowedNowCents as int + r.deferredCents as int == r.permittedCents as int
              && (contract.crossed ==>
                    r.permittedCents as int + r.cappedCents as int == r.calculatedCents as int && r.cappedCents >= 0)
              && (!contract.crossed ==>
                    r.permittedCents == r.allowedNowCents == context.currentAmountCents && r.cappedCents == 0)
              && (asOf < r.effectiveOn ==> r.allowedNowCents == context.currentAmountCents)
              && (contract.crossed && asOf >= r.effectiveOn ==> r.deferredCents == 0)
  {
    hide CurveLimit, WithMaximum, ExactCents;
    if contract.newAmountCents >= 0 && ExactCents(textLength, contract.exactAmount, contract.newAmountCents).Ok? {
      PermittedBounds(textLength, contract,
                      ExactCents(textLength, contract.exactAmount, contract.newAmountCents).value, context);
    }
  }

  function ExactOf(contract: ContractResult): real {
    match contract.exactAmount case None => contract.newAmountCents as real case Some(x) => x
  }

  /** A covered increase: a crossed residential contract whose exact curve exceeds the current rent. */
  predicate CoveredIncrease(contract: ContractResult, context: StatutoryContext) {
    context.scope in {ResidentialFullMRG, ResidentialPartialMRG} && contract.crossed
      && ExactOf(contract) > context.currentAmountCents as real
  }

  function Capped(cents: int, maximum: Option<int64>): int {
    match maximum case None => cents case Some(m) => Min(cents, m as int)
  }

  /** Section 1 (2) no. 3 of the MieWeG: a covered increase is permitted at the minimum of the half-down-rounded
      contract curve, the ceiling and any reviewed maximum, from the first of April of the ceiling. */
  lemma CoveredIncreaseIsMinimum(textLength: real -> nat, contract: ContractResult, context: StatutoryContext,
                                 asOf: Date)
    requires CoveredIncrease(contract, context)
    ensures match ApplyMieWeG(textLength, contract, context, asOf)
            case Err(_) => true
            case Ok(r) =>
              && r.permittedCents as int
                 == Capped(Min(RoundReal(ExactOf(contract), false), context.ceiling.amountCents as int),
                           context.maxRentCents)
              && r.effectiveOn == context.ceiling.effectiveOn >= context.contractEffectiveOn
              && IsAprilFirst(r.effectiveOn) && YearOfDate(r.effectiveOn) >= 2026
  {
    hide RoundReal, IsAprilFirst, YearOfDate;
    var r := ApplyMieWeG(textLength, contract, context, asOf);
    if r.Ok? {
      var cap := CeilingChecked(textLength, context);
      RoundMin(cap.value, ExactOf(contract), false);
    }
  }

  /** Exactly when a covered increase ends below the current rent: never because of the contract
      curve, but whenever the ceiling or the reviewed maximum lies below that rent. */
  lemma IncreaseBelowCurrentRent(textLength: real -> nat, contract: ContractResult, context: StatutoryContext,
                                 asOf: Date)
    requires CoveredIncrease(contract, context)
    ensures match ApplyMieWeG(textLength, contract, context, asOf)
            case Err(_) => true
            case Ok(r) =>
              r.permittedCents < context.currentAmountCents <==>
                context.ceiling.amountCents < context.currentAmountCents
                || (context.maxRentCents.Some? && context.maxRentCents.value < context.currentAmountCents)
  {
    hide ApplyMieWeG, RoundReal, IsAprilFirst, YearOfDate;
    CoveredIncreaseIsMinimum(textLength, contract, context, asOf);
    RoundAboveInteger(ExactOf(contract), context.currentAmountCents as int, false);
  }

  /** It does happen: a rent of 100 euro, a contract and an April 2026 ceiling of 200, and a reviewed maximum
      of 90 are accepted and permit 90. */
  lemma IncreaseCanEndLower(textLength: real -> nat, april: Month, on: Date)
    requires april == MonthAt(2026, 4) && on == MonthStart(april)
    ensures var ceiling := Ceiling(20_000, Some(20_000.0), on, false);
            var contract := ContractResult(true, 20_000, None);
            var context := StatutoryContext(ResidentialFullMRG, false, 10_000, on, ceiling, Some(9_000));
            textLength(20_000.0) <= MAX_RATIO_TEXT ==>
              && CoveredIncrease(contract, context)
              && ApplyMieWeG(textLength, contract, context, on).Ok?
              && ApplyMieWeG(textLength, contract, context, on).value.permittedCents
                 == 9_000 < context.currentAmountCents
  {
    hide MonthStart, IsAprilFirst, YearOfDate, RoundReal;
    FirstOfApril(april, on);
    RoundInteger(20_000, true);
    RoundInteger(20_000, false);
    assert 20_000 as real == 20_000.0;
    var ceiling := Ceiling(20_000, Some(20_000.0), on, false);
    var context := StatutoryContext(ResidentialFullMRG, false, 10_000, on, ceiling, Some(9_000));
    assert textLength(20_000.0) <= MAX_RATIO_TEXT ==> CeilingChecked(textLength, context) == Ok(20_000.0);
    hide CeilingChecked;
  }

  lemma FirstOfApril(april: Month, on: Date)
    requires april == MonthAt(2026, 4) && on == MonthStart(april)
    ensures on > 0 && IsAprilFirst(on) && YearOfDate(on) == 2026
  {
    PartsOfMonthAt(2026, 4);
    hide MonthOf, MonthStart, DaysInMonth, YearOf, MonthInYear;
    MonthStartIncreases(FIRST_MONTH, april);
    MonthStartIncreases(april, april + 1);
    MonthOfIsUnique(april, on);
  }

  /** A favourable decrease is never delayed to April and never capped by the ceiling: it counts from
      the contractual date at the half-down-rounded curve (or the reviewed maximum). */
  lemma DecreasesStayIntact(textLength: real -> nat, contract: ContractResult, context: StatutoryContext, asOf: Date)
    requires context.scope in {ResidentialFullMRG, ResidentialPartialMRG} && contract.crossed
    requires !CoveredIncrease(contract, context)
    ensures match ApplyMieWeG(textLength, contract, context, asOf)
            case Err(_) => true
            case Ok(r) =>
              && r.permittedCents as int == Capped(RoundReal(ExactOf(contract), false), context.maxRentCents)
              && r.permittedCents <= context.currentAmountCents
              && r.effectiveOn == context.contractEffectiveOn
  {
    hide RoundReal, CeilingChecked;
    RoundAboveInteger(ExactOf(contract), context.currentAmountCents as int, false);
  }

  /** Where the law does not reach, the contract is passed on from its own date, at most a reviewed maximum. */
  lemma UncoveredIsPassedOn(textLength: real -> nat, contract: ContractResult, context: StatutoryContext, asOf: Date)
    requires contract.crossed && context.scope !in {ResidentialFullMRG, ResidentialPartialMRG}
    ensures match ApplyMieWeG(textLength, contract, context, asOf)
            case Err(_) => true
            case Ok(r) =>
              && r.permittedCents as int == Capped(contract.newAmountCents as int, context.maxRentCents)
              && r.effectiveOn == context.contractEffectiveOn
  {
    hide RoundReal, CeilingChecked, ExactCents;
  }

  /** Without a contractual jump nothing changes. */
  lemma NoJumpNoChange(textLength: real -> nat, contract: ContractResult, context: StatutoryContext, asOf: Date)
    requires !contract.crossed
    ensures match ApplyMieWeG(textLength, contract, context, asOf)
            case Err(_) => true
            case Ok(r) =>
              && r.permittedCents == r.allowedNowCents == context.currentAmountCents
              && r.effectiveOn == context.contractEffectiveOn
  {
    hide CurveLimit, ExactCents, WithMaximum;
  }

  /** An MRG notice is asked for exactly in the full scope of the MRG, residential or commercial, and not of a
      subtenant. */
  lemma NoticeOnlyInFullMRG(textLength: real -> nat, contract: ContractResult, context: StatutoryContext, asOf: Date)
    ensures match ApplyMieWeG(textLength, contract, context, asOf)
            case Err(_) => true
            case Ok(r) =>
              r.requiresMRGNotice <==> context.scope in {ResidentialFullMRG, CommercialFullMRG} && !context.isSublease
  {
    hide CurveLimit, ExactCents, WithMaximum;
  }

  /** A usable ceiling: of an April 1 from 2026 on and not before the contract's date, its cents the exact amount
      rounded half down, and price-controlled only in the full scope of the MRG. */
  ghost predicate UsableCeiling(textLength: real -> nat, context: StatutoryContext) {
    var ceiling := context.ceiling;
    && (ceiling.priceControlled ==> context.scope in {ResidentialFullMRG, CommercialFullMRG})
    && ceiling.effectiveOn != 0 && YearOfDate(ceiling.effectiveOn) >= 2026 && IsAprilFirst(ceiling.effectiveOn)
    && context.contractEffectiveOn <= ceiling.effectiveOn && YearOfDate(context.contractEffectiveOn) >= 2026
    && ceiling.exactAmount.Some? && ceiling.exactAmount.value >= 0.0
    && textLength(ceiling.exactAmount.value) <= MAX_RATIO_TEXT
    && IsNearest(ceiling.exactAmount.value, ceiling.amountCents as int, false)
  }

  /** When an adjustment is accepted at all: amounts, dates and scope given; a jump whose exact amount is short
      enough and rounds half up to its cents; a usable ceiling where the jump is a covered increase; and a
      maximum only in the full scope of the MRG. */
  lemma AcceptedExactly(textLength: real -> nat, contract: ContractResult, context: StatutoryContext, asOf: Date)
    ensures ApplyMieWeG(textLength, contract, context, asOf).Ok? <==>
              && context.currentAmountCents > 0 && contract.newAmountCents >= 0 && asOf != 0
              && context.contractEffectiveOn != 0 && context.scope != UnknownScope
              && (contract.crossed ==>
                    && (contract.exactAmount.Some? ==>
                          && textLength(ExactOf(contract)) <= MAX_RATIO_TEXT && ExactOf(contract) >= 0.0
                          && IsNearest(ExactOf(contract), contract.newAmountCents as int, true))
                    && (CoveredIncrease(contract, context) ==> UsableCeiling(textLength, context))
                    && (context.maxRentCents.Some? ==>
                          context.scope in {ResidentialFullMRG, CommercialFullMRG} && context.maxRentCents.value >= 0))
  {
    hide UsableCeiling, CeilingChecked, ExactCents, RoundReal;
    CeilingAccepted(textLength, context);
    if contract.newAmountCents >= 0 { ExactAmountAccepted(textLength, contract); }
    if ExactCents(textLength, contract.exactAmount, contract.newAmountCents).Ok? {
      ExactCentsShape(textLength, contract.exactAmount, contract.newAmountCents);
      HalfDownIsLower(ExactOf(contract));
    }
    if CeilingChecked(textLength, context).Ok? { CeilingInRange(textLength, context); }
  }

  lemma CeilingAccepted(textLength: real -> nat, context: StatutoryContext)
    ensures CeilingChecked(textLength, context).Ok? <==> UsableCeiling(textLength, context)
  {
    hide YearOfDate, IsAprilFirst, RoundFit, IsNearest;
    if context.ceiling.exactAmount.Some? {
      RoundedIsNearest(context.ceiling.exactAmount.value, context.ceiling.amountCents, false);
    }
  }

  lemma CeilingInRange(textLength: real -> nat, context: StatutoryContext)
    requires CeilingChecked(textLength, context).Ok?
    ensures RoundFit(CeilingChecked(textLength, context).value, false).Ok?
  {
    hide YearOfDate, IsAprilFirst;
  }

  lemma ExactAmountAccepted(textLength: real -> nat, contract: ContractResult)
    requires contract.newAmountCents >= 0
    ensures var checked := ExactCents(textLength, contract.exactAmount, contract.newAmountCents);
            && (checked.Ok? ==> checked.value == ExactOf(contract))
            && (checked.Ok? <==>
                  contract.exactAmount.Some? ==>
                    && textLength(ExactOf(contract)) <= MAX_RATIO_TEXT && ExactOf(contract) >= 0.0
                    && IsNearest(ExactOf(contract), contract.newAmountCents as int, true))
  {
    RoundedIsNearest(ExactOf(contract), contract.newAmountCents, true);
    hide RoundFit, IsNearest;
  }

  lemma RoundedIsNearest(x: real, cents: int64, halfUp: bool)
    ensures RoundFit(x, halfUp) == Ok(cents) <==> IsNearest(x, cents as int, halfUp)
  {
    if IsNearest(x, cents as int, halfUp) { NearestIsUnique(x, cents as int, RoundReal(x, halfUp), halfUp); }
  }

  // ----- The curves fit together

  function OfEvaluation(e: Evaluation): ContractResult {
    ContractResult(e.crossed, e.newAmountCents, Some(e.exactAmount))
  }

  function OfStaffel(r: Staffel.StaffelResult): ContractResult {
    ContractResult(r.crossed, r.newAmountCents, Some(r.exactAmount))
  }

  /** Every crossed index result, of a scan or of a reference month, whose ratio text is short enough passes
      the exact-amount check, so the only inconsistency the limit can report is an overlong text. */
  lemma AcceptsEvaluations(textLength: real -> nat, clause: Clause, data: Dataset, asOf: Month,
                           reference: Option<Month>, context: StatutoryContext, on: Date)
    requires WellFormed(data)
    ensures match Evaluated(textLength, clause, data, asOf, reference)
            case Err(_) => true
            case Ok(e) =>
              e.crossed ==>
                && e.newAmountCents >= 0
                && (ExactCents(textLength, Some(e.exactAmount), e.newAmountCents) == Ok(e.exactAmount)
                    <==> textLength(e.exactAmount) <= MAX_RATIO_TEXT)
                && (textLength(e.exactAmount) <= MAX_RATIO_TEXT ==>
                      ApplyMieWeG(textLength, OfEvaluation(e), context, on) != Err(ContractInconsistent))
  {
    hide Evaluated, Assess, AssessIndex, WellFormed, Prepare, Lookup, RoundReal, RoundTenth, CurveLimit, WithMaximum;
    Replay.EveryJumpIsAssessed(textLength, clause, data, asOf, reference);
    var r := Evaluated(textLength, clause, data, asOf, reference);
    if r.Ok? && r.value.crossed {
      var p := Prepare(textLength, clause, data, asOf).value;
      Replay.JumpShape(clause, p.base, p.exact, data, r.value.triggerMonth);
      LimitErrors(textLength, OfEvaluation(r.value), context, on);
    }
  }

  lemma LimitErrors(textLength: real -> nat, contract: ContractResult, context: StatutoryContext, on: Date)
    requires contract.newAmountCents >= 0
    ensures ApplyMieWeG(textLength, contract, context, on) == Err(ContractInconsistent) ==>
              contract.crossed && ExactCents(textLength, contract.exactAmount, contract.newAmountCents).Err?
  {
    hide RoundReal, IsAprilFirst, YearOfDate, ExactCents;
  }

  /** Step rents check their ratio text themselves: every crossed result is accepted. */
  lemma AcceptsStaffel(textLength: real -> nat, start: int64, current: int64, steps: seq<Staffel.StaffelStep>,
                       through: Date, context: StatutoryContext, on: Date)
    requires start > 0 && forall i :: 0 <= i < |steps| ==> Staffel.ValidStep(steps[i])
    ensures match Staffel.EvaluatedStaffel(textLength, start, current, steps, through)
            case Err(_) => true
            case Ok(r) => r.crossed ==> ApplyMieWeG(textLength, OfStaffel(r), context, on) != Err(ContractInconsistent)
  {
    hide RoundReal, CurveLimit, WithMaximum, Staffel.Amount, Staffel.Due, Staffel.ValidStep;
    Staffel.CrossedStaffelIsConsistent(textLength, start, current, steps, through);
    var r := Staffel.EvaluatedStaffel(textLength, start, current, steps, through);
    if r.Ok? && r.value.crossed {
      RoundAboveInteger(r.value.exactAmount, 0, true);
      LimitErrors(textLength, OfStaffel(r.value), context, on);
    }
  }

  /** A ceiling finished from a positive curve is read back without complaint: the April date, the
      year and the rounded cents all fit the check. */
  lemma AcceptsCurveCeilings(textLength: real -> nat, amount: real, year: int, restricted: bool,
                             context: StatutoryContext)
    requires amount > 0.0 && 2026 <= year <= 9999
    requires FinishCeiling(amount, year, restricted) == Ok(context.ceiling)
    ensures CeilingChecked(textLength, context) ==
              if YearOfDate(context.contractEffectiveOn) < 2026 then Err(MissedBefore2026)
              else if restricted && !FullMRG(context.scope) then Err(PriceControlMismatch)
              else if context.ceiling.effectiveOn < context.contractEffectiveOn then Err(CeilingPredatesContract)
              else if textLength(amount) > MAX_RATIO_TEXT then Err(CeilingUnreadable)
              else Ok(amount)
  {
    var m := MonthAt(year, 4);
    PartsOfMonthAt(year, 4);
    MonthOfIsUnique(m, MonthStart(m));
    MonthStartIncreases(FIRST_MONTH, m);
  }
}
