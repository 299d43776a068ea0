/** Inputs at which the promises about index clauses end (evaluate.go). */
module Witnesses {
  import opened Basics
  import opened Calendar
  import opened Digits
  import opened Rounding
  import opened Dataset
  import opened Evaluate
  import opened Replay
  import opened Strictness

  // ----- Months published one after the other

  function Observation(month: Month, value: int64): IndexValue {
    IndexValue(VPI2020, month, value, false, "")
  }

  /** Final values of one series for consecutive months, and nothing else. */
  function Published(start: Month, values: seq<int64>): Dataset {
    Dataset(map k | 0 <= k < |values| :: KeyAt(start, k) := Observation(start + k, values[k]), [])
  }

  function KeyAt(start: Month, k: int): (Series, Month) {
    (VPI2020, start + k)
  }

  ghost predicate Publishable(start: Month, values: seq<int64>) {
    && FIRST_MONTH <= start && start + |values| <= END_OF_MONTHS
    && forall k :: 0 <= k < |values| ==> values[k] > 0
  }

  lemma PublishedAnswers(start: Month, values: seq<int64>, k: nat)
    requires Publishable(start, values)
    ensures WellFormed(Published(start, values))
    ensures k < |values| ==>
              Lookup(Published(start, values), VPI2020, start + k) == Ok(Some(Observation(start + k, values[k])))
  {
    var d := Published(start, values);
    forall key | key in d.values
      ensures d.values[key].series == key.0 && d.values[key].month == key.1 && ValidObservation(d.values[key])
    {
      var i :| 0 <= i < |values| && key == KeyAt(start, i);
      assert d.values[key] == Observation(start + i, values[i]);
    }
    if k < |values| {
      assert KeyAt(start, k) in d.values;
      assert d.values[KeyAt(start, k)] == Observation(start + k, values[k]);
    }
  }

  /** Whole tenths are left as they are. */
  lemma TenthsStay(d: int64)
    requires d as int % TENTH == 0
    ensures RoundTenth(d) == Ok(d)
  {
    var n := d as int / TENTH;
    assert d as real / 100_000.0 == n as real;
    RoundInteger(n, true);
  }

  lemma MonthAssessed(clause: Clause, base: int64, exact: real, start: Month, values: seq<int64>, k: nat)
    requires Publishable(start, values) && k < |values| && values[k] as int % TENTH == 0
    requires UsableClause(clause) && clause.series == VPI2020 && base > 0 && exact >= 0.0
    ensures WellFormed(Published(start, values))
    ensures Assess(clause, base, exact, Published(start, values), start + k)
            == AssessIndex(clause, base, exact, values[k], values[k])
  {
    hide AssessIndex, Lookup, Published, RoundTenth, WellFormed;
    PublishedAnswers(start, values, k);
    TenthsStay(values[k]);
  }

  ghost predicate KnownRules(clause: Clause) {
    && clause.series == VPI2020 && UsableClause(clause) && clause.thresholdKind != UnknownKind
    && clause.crossing != UnknownRule && clause.changeMode != UnknownChange && clause.percentRounding != UnknownRounding
  }

  /** A clause based on a published month, with a consistent exact amount, is accepted. */
  lemma PreparedHere(textLength: real -> nat, clause: Clause, start: Month, values: seq<int64>, k: nat, asOf: Month)
    requires Publishable(start, values) && k < |values| && values[k] as int % TENTH == 0
    requires KnownRules(clause) && clause.baseMonth == start + k <= asOf && ValidMonth(asOf)
    requires clause.baseValue == values[k]
    requires ExactCents(textLength, clause.exactAmount, clause.amountCents) == Ok(ExactStart(clause))
    ensures WellFormed(Published(start, values))
    ensures Prepare(textLength, clause, Published(start, values), asOf) == Ok(Prepared(values[k], ExactStart(clause)))
  {
    hide Lookup, Published, RoundTenth, ExactCents, WellFormed;
    PublishedAnswers(start, values, k);
    TenthsStay(values[k]);
  }

  // ----- A one-decimal full change without threshold

  ghost predicate EveryChange(clause: Clause) {
    && clause.thresholdKind == PercentThreshold && clause.threshold == 0 && clause.crossing == Exceeds
    && clause.changeMode == FullChange && clause.minimumChangeCents == 0 && clause.percentRounding == OneDecimalPercent
  }

  lemma PlainJump(clause: Clause, base: int64, exact: real, index: int64, tenths: int, cents: int)
    requires EveryChange(clause) && UsableClause(clause) && base > 0 && index > 0 && exact >= 0.0
    requires ChangeTenths(base, index) == tenths && tenths != 0 && FitsInt64(TENTH * tenths)
    requires RoundReal(Scaled(exact, 1.0 + tenths as real / 10.0 / 100.0), true) == cents
    ensures AssessIndex(clause, base, exact, index, index) ==
            if !FitsInt64(cents) then Failed(ArithmeticFailed)
            else if cents == clause.amountCents as int then Below((TENTH * tenths) as int64)
            else Jump((TENTH * tenths) as int64, (TENTH * tenths) as int64, tenths as real / 10.0, cents as int64,
                      Scaled(exact, 1.0 + tenths as real / 10.0 / 100.0), index)
  {
    hide RoundReal, Scaled, ChangeTenths;
    var applied := tenths as real / 10.0;
    assert applied * 1_000_000.0 == (TENTH * tenths) as real;
    RoundInteger(TENTH * tenths, true);
    assert PercentChange(base, index) == Ok((TENTH * tenths) as int64);
    ChangeTenthsFloor(base, index);
    assert AppliedExact(clause, base, index) == Ok(applied);
    FactorNotNegative(applied);
    hide PercentChange, AppliedExact;
  }

  /** The evaluation of a clause that a month of the series already decides. */
  lemma NextMonthDecides(textLength: real -> nat, clause: Clause, start: Month, values: seq<int64>, k: nat, asOf: Month)
    requires Publishable(start, values) && k + 1 < |values| && start + k + 1 <= asOf && ValidMonth(asOf)
    requires values[k] as int % TENTH == 0 && values[k + 1] as int % TENTH == 0
    requires KnownRules(clause) && clause.baseMonth == start + k && clause.baseValue == values[k]
    requires ExactCents(textLength, clause.exactAmount, clause.amountCents) == Ok(ExactStart(clause))
    requires ExactStart(clause) >= 0.0
    ensures WellFormed(Published(start, values))
    ensures var r := Evaluated(textLength, clause, Published(start, values), asOf, None);
            match AssessIndex(clause, values[k], ExactStart(clause), values[k + 1], values[k + 1])
            case Failed(error) => r == Err(error)
            case Jump(change, applied, appliedExact, amount, exact, value) =>
              r == Ok(Cross(Start(clause, ExactStart(clause)), clause, start + k + 1,
                            Jump(change, applied, appliedExact, amount, exact, value)))
            case _ => true
  {
    hide Assess, AssessIndex, Prepare, ExactCents, Published, WellFormed;
    PreparedHere(textLength, clause, start, values, k, asOf);
    MonthAssessed(clause, values[k], ExactStart(clause), start, values, k + 1);
  }

  // ----- An amount that shrinks to nothing

  /** One cent that follows every change of an index. */
  function PennyClause(start: Month): Clause {
    Clause(VPI2020, start, 100_000_000, 1, PercentThreshold, 0, Exceeds, FullChange, 0, OneDecimalPercent, None, false)
  }

  function Fall(): seq<int64> {
    [100_000_000, 1_000_000]
  }

  lemma PennyRoundsAway(start: Month)
    ensures var j := AssessIndex(PennyClause(start), 100_000_000, 1.0, 1_000_000, 1_000_000);
            j.Jump? && j.amount == 0
  {
    RoundInteger(-990, true);
    assert ChangeTenths(100_000_000, 1_000_000) == -990;
    assert Scaled(1.0, 1.0 + -990 as real / 10.0 / 100.0) == 0.01;
    assert RoundReal(0.01, true) == 0;
    hide AssessIndex, RoundReal, Scaled, ChangeTenths;
    PlainJump(PennyClause(start), 100_000_000, 1.0, 1_000_000, -990, 0);
  }

  /** One cent, and an index that falls from 100 to 1: the evaluation succeeds with an amount of zero, and the
      clause it hands on is refused. The same holds with the second month as reference. */
  lemma ZeroAmountIsHandedOn(textLength: real -> nat, start: Month, asOf: Month)
    requires FIRST_MONTH <= start && start < asOf && ValidMonth(asOf)
    ensures var clause, data := PennyClause(start), Published(start, Fall());
            && WellFormed(data)
            && match Evaluated(textLength, clause, data, asOf, None)
               case Err(_) => false
               case Ok(e) =>
                 && e.crossed && e.newAmountCents == 0
                 && Prepare(textLength, e.nextClause, data, asOf) == Err(InvalidClause)
                 && match Evaluated(textLength, clause, data, start + 1, Some(start + 1))
                    case Err(_) => false
                    case Ok(r) => r.crossed && r.newAmountCents == 0 && r.nextClause == e.nextClause
  {
    hide Evaluated, Published, AssessIndex, WellFormed;
    PennyRoundsAway(start);
    NextMonthDecides(textLength, PennyClause(start), start, Fall(), 0, asOf);
    ReferenceAgreesWithScan(textLength, PennyClause(start), Published(start, Fall()), asOf);
  }

  // ----- A looser clause that overflows

  lemma PassesThenJumps(textLength: real -> nat, clause: Clause, start: Month, values: seq<int64>, asOf: Month)
    requires Publishable(start, values) && |values| == 3 && start + 2 <= asOf && ValidMonth(asOf)
    requires forall k :: 0 <= k < 3 ==> values[k] as int % TENTH == 0
    requires KnownRules(clause) && clause.baseMonth == start && clause.baseValue == values[0]
    requires clause.exactAmount == None
    requires AssessIndex(clause, values[0], clause.amountCents as real, values[1], values[1]).Within?
    requires AssessIndex(clause, values[0], clause.amountCents as real, values[2], values[2]).Jump?
    ensures WellFormed(Published(start, values))
    ensures var r := Evaluated(textLength, clause, Published(start, values), asOf, None);
            r.Ok? && r.value.crossed && r.value.triggerMonth == start + 2
  {
    hide Assess, AssessIndex, Prepare, Published, WellFormed;
    PreparedHere(textLength, clause, start, values, 0, asOf);
    MonthAssessed(clause, values[0], ExactStart(clause), start, values, 1);
    MonthAssessed(clause, values[0], ExactStart(clause), start, values, 2);
    var data, p := Published(start, values), Prepared(values[0], ExactStart(clause));
    var first, e := Assess(clause, p.base, p.exact, data, start + 1), Start(clause, p.exact);
    assert Evaluated(textLength, clause, data, asOf, None) == Scan(clause, p, data, start + 1, asOf, None, e);
    var passed := Pass(e, start + 1, first.change, WithinThreshold);
    assert Scan(clause, p, data, start + 1, asOf, None, e) == Scan(clause, p, data, start + 2, asOf, None, passed);
  }

  lemma WithinTwenty(clause: Clause, exact: real)
    requires UsableClause(clause) && exact >= 0.0 && clause.percentRounding == OneDecimalPercent
    requires clause.thresholdKind == PercentThreshold && clause.threshold == 20_000_000
    ensures AssessIndex(clause, 100_000_000, exact, 110_000_000, 110_000_000).Within?
  {
    RoundInteger(100, true);
    assert ChangeTenths(100_000_000, 110_000_000) == 100;
    hide RoundReal, Scaled, Settle, AppliedExact;
  }

  lemma Halves(clause: Clause)
    requires UsableClause(clause) && clause.amountCents == 9_000_000_000_000_000_000
    requires clause.percentRounding == OneDecimalPercent && clause.changeMode == FullChange
    requires clause.minimumChangeCents == 0
    requires clause.thresholdKind == PercentThreshold && clause.threshold == 20_000_000
    ensures AssessIndex(clause, 100_000_000, clause.amountCents as real, 50_000_000, 50_000_000).Jump?
  {
    RoundInteger(-500, true);
    RoundInteger(-50_000_000, true);
    RoundInteger(4_500_000_000_000_000_000, true);
    assert ChangeTenths(100_000_000, 50_000_000) == -500;
    assert Scaled(9_000_000_000_000_000_000.0, 1.0 + -50.0 / 100.0) == 4_500_000_000_000_000_000 as real;
    assert -50.0 * 1_000_000.0 == -50_000_000 as real;
    hide RoundReal, Scaled;
  }

  /** An amount near the largest int64, and indices that rise by a tenth before they halve. */
  function HugeClause(start: Month, threshold: int64): Clause {
    Clause(VPI2020, start, 100_000_000, 9_000_000_000_000_000_000, PercentThreshold, threshold,
           Exceeds, FullChange, 0, OneDecimalPercent, None, false)
  }

  function UpAndDown(): seq<int64> {
    [100_000_000, 110_000_000, 50_000_000]
  }

  lemma HugeOverflows(textLength: real -> nat, start: Month, asOf: Month)
    requires FIRST_MONTH <= start && start + 2 <= asOf && ValidMonth(asOf)
    ensures WellFormed(Published(start, UpAndDown()))
    ensures Evaluated(textLength, HugeClause(start, 0), Published(start, UpAndDown()), asOf, None)
            == Err(ArithmeticFailed)
  {
    RoundInteger(100, true);
    assert ChangeTenths(100_000_000, 110_000_000) == 100;
    RoundInteger(9_900_000_000_000_000_000, true);
    assert Scaled(9_000_000_000_000_000_000.0, 1.0 + 100 as real / 10.0 / 100.0) == 9_900_000_000_000_000_000 as real;
    hide Evaluated, Published, AssessIndex, RoundReal, Scaled, ChangeTenths, WellFormed;
    PlainJump(HugeClause(start, 0), 100_000_000, 9_000_000_000_000_000_000.0, 110_000_000, 100,
              9_900_000_000_000_000_000);
    NextMonthDecides(textLength, HugeClause(start, 0), start, UpAndDown(), 0, asOf);
  }

  lemma HugeHalves(textLength: real -> nat, start: Month, asOf: Month)
    requires FIRST_MONTH <= start && start + 2 <= asOf && ValidMonth(asOf)
    ensures WellFormed(Published(start, UpAndDown()))
    ensures var r := Evaluated(textLength, HugeClause(start, 20_000_000), Published(start, UpAndDown()), asOf, None);
            r.Ok? && r.value.crossed && r.value.triggerMonth == start + 2
  {
    hide Evaluated, Published, AssessIndex, WellFormed;
    var strict := HugeClause(start, 20_000_000);
    WithinTwenty(strict, strict.amountCents as real);
    Halves(strict);
    PassesThenJumps(textLength, strict, start, UpAndDown(), asOf);
  }

  /** Where the looser clause may fail it can: indices 100, 110 and 50 halve an amount near the largest int64
      under a threshold of 20 percent, but without a threshold the 10 percent of the first month overflow. */
  lemma LooserCanOverflow(textLength: real -> nat, start: Month, asOf: Month)
    requires FIRST_MONTH <= start && start + 2 <= asOf && ValidMonth(asOf)
    ensures var data := Published(start, UpAndDown());
            var strict, loose := HugeClause(start, 20_000_000), HugeClause(start, 0);
            && WellFormed(data) && Looser(loose, strict)
            && Evaluated(textLength, loose, data, asOf, None) == Err(ArithmeticFailed)
            && match Evaluated(textLength, strict, data, asOf, None)
               case Err(_) => false
               case Ok(e) => e.crossed && e.triggerMonth == start + 2
  {
    hide Evaluated, Published, WellFormed;
    HugeOverflows(textLength, start, asOf);
    HugeHalves(textLength, start, asOf);
  }

  // ----- Ratio texts grow with every jump

  /** The numerator of the exact amount after k rises of one tenth of a percent; its denominator is 1000^k. */
  function Numerator(k: nat): nat {
    if k == 0 then 100_001 else 1001 * Numerator(k - 1)
  }

  function Fraction(n: nat, k: nat): real {
    n as real / Pow10(k) as real
  }

  function ExactAfter(k: nat): real {
    Fraction(Numerator(k), 3 * k)
  }

  /** A ratio in lowest terms over a power of ten is spelled as numerator, slash and denominator. */
  ghost predicate SpellsRatios(textLength: real -> nat) {
    forall n: nat, k: nat :: k > 0 && n % 2 != 0 && n % 5 != 0 ==>
      textLength(Fraction(n, k)) == |NatText(n)| + 1 + |NatText(Pow10(k))|
  }

  lemma {:induction false} NumeratorInLowestTerms(k: nat)
    ensures Numerator(k) % 10 == 1 && Numerator(k) % 2 != 0 && Numerator(k) % 5 != 0
  {
    if k > 0 {
      NumeratorInLowestTerms(k - 1);
      LastDigitStays(Numerator(k - 1));
    }
    hide Numerator;
    OddAndNoFive(Numerator(k));
  }

  lemma LastDigitStays(n: nat)
    requires n % 10 == 1
    ensures 1001 * n % 10 == 1
  {
    var q := n / 10;
    assert 1001 * n == 10 * (1001 * q + 100) + 1;
  }

  lemma OddAndNoFive(n: nat)
    requires n % 10 == 1
    ensures n % 2 != 0 && n % 5 != 0
  {
    var q := n / 10;
    assert n == 2 * (5 * q) + 1 && n == 5 * (2 * q) + 1;
  }

  lemma {:induction false} Pow10Sum(i: nat, k: nat)
    ensures Pow10(i + k) == Pow10(i) * Pow10(k)
  {
    if i > 0 {
      Pow10Sum(i - 1, k);
      assert 10 * (Pow10(i - 1) * Pow10(k)) == (10 * Pow10(i - 1)) * Pow10(k);
    }
  }

  /** A number has d + 1 digits exactly from the d-th power of ten up to the next. */
  lemma {:induction false} DigitCount(n: nat, d: nat)
    requires Pow10(d) <= n < Pow10(d + 1)
    ensures |NatText(n)| == d + 1
  {
    if d > 0 {
      assert n >= 10;
      DigitCount(n / 10, d - 1);
    }
  }

  lemma OneRise(k: nat)
    ensures ExactAfter(k + 1) == Scaled(ExactAfter(k), 1.0 + 1 as real / 10.0 / 100.0)
  {
    var n, d := Numerator(k) as real, Pow10(3 * k) as real;
    assert 3 * (k + 1) == 3 + 3 * k && Pow10(3) == 1000;
    Pow10Sum(3, 3 * k);
    assert Numerator(k + 1) == 1001 * Numerator(k);
    hide Numerator, Pow10;
    RiseOfQuotient(n, d);
  }

  lemma RiseOfQuotient(n: real, d: real)
    requires d > 0.0
    ensures (1001.0 * n) / (1000.0 * d) == (n / d) * (1.0 + 1.0 / 10.0 / 100.0)
  {
    var q := n / d;
    assert q * d == n;
    assert (q * 1.001) * (1000.0 * d) == 1001.0 * (q * d);
  }

  lemma ExactAtFirst()
    ensures ExactAfter(0) == 100_001.0
  {
    assert Numerator(0) == 100_001 && Pow10(3 * 0) == 1;
    assert ExactAfter(0) == 100_001 as real / 1 as real;
  }

  /** After k rises of one tenth of a percent the amount has grown by less than 1000 / (1000 - k). */
  lemma {:induction false} ExactBounds(k: nat)
    requires k <= 341
    ensures 100_001.0 <= ExactAfter(k) && ExactAfter(k) * (1000 - k) as real <= 100_001_000.0
    ensures ExactAfter(k) < 200_000.0
  {
    hide ExactAfter;
    if k == 0 {
      ExactAtFirst();
    } else {
      ExactBounds(k - 1);
      OneRise(k - 1);
      Bernoulli(ExactAfter(k - 1), (1000 - k) as real);
      assert (1000 - (k - 1)) as real == (1000 - k) as real + 1.0;
    }
    BoundBy(ExactAfter(k), (1000 - k) as real);
  }

  lemma Bernoulli(x: real, m: real)
    requires x >= 0.0 && 0.0 <= m <= 999.0
    ensures Scaled(x, 1.0 + 1 as real / 10.0 / 100.0) >= x
    ensures Scaled(x, 1.0 + 1 as real / 10.0 / 100.0) * m <= x * (m + 1.0)
  {
    assert Scaled(x, 1.001) * m == x * m + 0.001 * (x * m);
    assert 0.001 * (x * m) == x * (0.001 * m);
    assert x * (0.001 * m) <= x * 1.0;
  }

  lemma BoundBy(x: real, m: real)
    requires x >= 0.0 && m >= 659.0 && x * m <= 100_001_000.0
    ensures x < 200_000.0
  {
    assert (x - 200_000.0) * m < 0.0;
  }

  lemma NumeratorDigits(k: nat)
    requires k <= 341
    ensures |NatText(Numerator(k))| == 3 * k + 6
  {
    ExactBounds(k);
    Pow10Sum(5, 3 * k);
    Pow10Sum(6, 3 * k);
    assert Pow10(5) == 100_000 && Pow10(6) == 1_000_000;
    hide Numerator, Pow10, NatText;
    Cleared(Numerator(k) as real, Pow10(3 * k) as real);
    assert 5 + 3 * k == 3 * k + 5 && 6 + 3 * k == 3 * k + 5 + 1;
    DigitCount(Numerator(k), 3 * k + 5);
  }

  lemma PowerDigits(k: nat)
    ensures |NatText(Pow10(k))| == k + 1
  {
    assert Pow10(k + 1) == 10 * Pow10(k);
    hide Pow10, NatText;
    DigitCount(Pow10(k), k);
  }

  /** The text of the exact amount after k rises: 3k + 6 digits over 3k + 1. */
  lemma TextAfter(textLength: real -> nat, k: nat)
    requires SpellsRatios(textLength) && 0 < k <= 341
    ensures textLength(ExactAfter(k)) == 6 * k + 8
  {
    NumeratorInLowestTerms(k);
    NumeratorDigits(k);
    PowerDigits(3 * k);
    hide Numerator, Pow10, NatText, Fraction;
    assert textLength(Fraction(Numerator(k), 3 * k)) == |NatText(Numerator(k))| + 1 + |NatText(Pow10(3 * k))|;
  }

  lemma Cleared(n: real, d: real)
    requires d > 0.0 && 100_000.0 <= n / d < 1_000_000.0
    ensures 100_000.0 * d <= n < 1_000_000.0 * d
  {
    var q := n / d;
    assert q * d == n;
  }

  // ----- A replay that ends because its ratio text is too long

  /** The index stands at 1000 and rises by one point every month. */
  function ClimbValue(k: nat): (v: int64)
    requires k <= 341
    ensures v > 0 && v as int % TENTH == 0
  {
    (1_000_000_000 + k * 1_000_000) as int64
  }

  function Climb(): (values: seq<int64>)
    ensures |values| == 342 && forall k :: 0 <= k < 342 ==> values[k] == ClimbValue(k)
  {
    seq(342, k requires 0 <= k < 342 => ClimbValue(k))
  }

  function CentsAfter(k: nat): (cents: int64)
    requires k <= 341
    ensures cents as int == RoundReal(ExactAfter(k), true) && cents >= 100_001
  {
    ExactBounds(k);
    RoundAboveInteger(ExactAfter(k), 100_001, true);
    RoundAboveInteger(ExactAfter(k), 200_000, true);
    RoundReal(ExactAfter(k), true) as int64
  }

  /** A rent of 1000 euro and a cent that follows every change of one tenth of a percent, after k of them. */
  function ClimbClause(start: Month, k: nat): Clause
    requires k <= 341
  {
    Clause(VPI2020, start + k, ClimbValue(k), CentsAfter(k), PercentThreshold, 0, Exceeds, FullChange, 0,
           OneDecimalPercent, if k == 0 then None else Some(ExactAfter(k)), false)
  }

  lemma ClimbIsOneTenth(k: nat)
    requires k < 341
    ensures ChangeTenths(ClimbValue(k), ClimbValue(k + 1)) == 1
  {
    var b := ClimbValue(k) as real;
    assert (ClimbValue(k + 1) - ClimbValue(k)) as real * 1000.0 == 1_000_000_000.0;
    var x := 1_000_000_000.0 / b;
    assert x * b == 1_000_000_000.0;
    assert 0.5 < x <= 1.0;
    NearestIsUnique(x, 1, RoundReal(x, true), true);
  }

  lemma ClimbStartsConsistent(textLength: real -> nat, start: Month, k: nat)
    requires k <= 341 && SpellsRatios(textLength)
    ensures ExactStart(ClimbClause(start, k)) == ExactAfter(k)
    ensures var clause := ClimbClause(start, k);
            ExactCents(textLength, clause.exactAmount, clause.amountCents) ==
            if k <= 340 then Ok(ExactAfter(k)) else Err(InvalidExactAmount)
  {
    hide ExactAfter, RoundReal, SpellsRatios;
    ExactBounds(k);
    if k == 0 {
      ExactAtFirst();
      RoundInteger(100_001, true);
    } else {
      TextAfter(textLength, k);
    }
  }

  lemma ClimbJumps(start: Month, k: nat)
    requires k < 341
    ensures var j := AssessIndex(ClimbClause(start, k), ClimbValue(k), ExactAfter(k), ClimbValue(k + 1),
                                 ClimbValue(k + 1));
            j.Jump? && j.exact == ExactAfter(k + 1) && j.amount == CentsAfter(k + 1) && j.value == ClimbValue(k + 1)
  {
    ExactBounds(k);
    OneRise(k);
    ClimbIsOneTenth(k);
    RisesByAHundred(ExactAfter(k));
    hide ExactAfter, RoundReal, AssessIndex, Scaled, ChangeTenths;
    PlainJump(ClimbClause(start, k), ClimbValue(k), ExactAfter(k), ClimbValue(k + 1), 1, CentsAfter(k + 1) as int);
  }

  lemma RisesByAHundred(x: real)
    requires x >= 100_000.0
    ensures RoundReal(Scaled(x, 1.0 + 1 as real / 10.0 / 100.0), true) > RoundReal(x, true)
  {
    assert Scaled(x, 1.0 + 1 as real / 10.0 / 100.0) >= x + 100.0;
  }

  lemma ClimbPublishable(start: Month)
    requires FIRST_MONTH <= start && start + 341 < END_OF_MONTHS
    ensures Publishable(start, Climb()) && WellFormed(Published(start, Climb()))
  {
    PublishedAnswers(start, Climb(), 0);
  }

  lemma ClimbStep(textLength: real -> nat, start: Month, k: nat, asOf: Month)
    requires SpellsRatios(textLength) && k < 341
    requires FIRST_MONTH <= start && start + 341 <= asOf && ValidMonth(asOf)
    ensures WellFormed(Published(start, Climb()))
    ensures match Evaluated(textLength, ClimbClause(start, k), Published(start, Climb()), asOf, None)
            case Err(_) => false
            case Ok(e) =>
              && e.crossed && e.newAmountCents == CentsAfter(k + 1) && e.exactAmount == ExactAfter(k + 1)
              && e.nextClause == ClimbClause(start, k + 1)
  {
    hide ExactAfter, RoundReal, AssessIndex, Evaluated, Published, WellFormed, SpellsRatios, Climb, ClimbValue,
         ExactCents;
    ClimbPublishable(start);
    ClimbStartsConsistent(textLength, start, k);
    ExactBounds(k);
    ClimbJumps(start, k);
    NextMonthDecides(textLength, ClimbClause(start, k), start, Climb(), k, asOf);
  }

  lemma {:induction false} ClimbReplays(textLength: real -> nat, start: Month, k: nat, last: nat, asOf: Month)
    requires SpellsRatios(textLength) && k <= last == 341
    requires FIRST_MONTH <= start && start + 341 <= asOf && ValidMonth(asOf)
    ensures WellFormed(Published(start, Climb()))
    ensures var js := Jumps(textLength, ClimbClause(start, k), Published(start, Climb()), asOf);
            && |js| == last - k
            && forall i :: 0 <= i < |js| ==>
                 && js[i].evaluation.newAmountCents > 0 && js[i].evaluation.exactAmount == ExactAfter(k + i + 1)
                 && js[i].evaluation.nextClause == ClimbClause(start, k + i + 1)
    decreases last - k
  {
    hide ClimbClause, Evaluated, Published, WellFormed, SpellsRatios, Jumps, Climb, Prepare, ExactAfter;
    ClimbPublishable(start);
    var data := Published(start, Climb());
    JumpsUnfold(textLength, ClimbClause(start, k), data, asOf);
    if k < last {
      ClimbStep(textLength, start, k, asOf);
      ClimbReplays(textLength, start, k + 1, last, asOf);
      var js := Jumps(textLength, ClimbClause(start, k), data, asOf);
      assert js == [js[0]] + js[1..];
    } else {
      ClimbRefused(textLength, start, last, asOf);
      EvaluatedNeedsClause(textLength, ClimbClause(start, k), data, asOf);
    }
  }

  lemma EvaluatedNeedsClause(textLength: real -> nat, clause: Clause, data: Dataset, asOf: Month)
    requires WellFormed(data) && Prepare(textLength, clause, data, asOf).Err?
    ensures Evaluated(textLength, clause, data, asOf, None).Err?
  {
  }

  lemma ClimbRefused(textLength: real -> nat, start: Month, last: nat, asOf: Month)
    requires SpellsRatios(textLength) && last == 341
    requires FIRST_MONTH <= start && start + 341 <= asOf && ValidMonth(asOf)
    ensures WellFormed(Published(start, Climb()))
    ensures Prepare(textLength, ClimbClause(start, last), Published(start, Climb()), asOf) == Err(InvalidExactAmount)
  {
    hide ExactAfter, RoundReal, Published, WellFormed, SpellsRatios, Climb, ClimbValue, ExactCents;
    ClimbPublishable(start);
    ClimbStartsConsistent(textLength, start, last);
  }

  /** Every rise of one tenth of a percent adds three digits to numerator and denominator of the exact amount.
      A rent that follows the index month by month is handed on 341 times; the clause of the last jump, its
      amount well above zero, is refused for its ratio text of more than 2048 characters. */
  lemma LongReplayIsRefused(textLength: real -> nat, start: Month, last: nat, asOf: Month)
    requires SpellsRatios(textLength) && last == 341
    requires FIRST_MONTH <= start && start + 341 <= asOf && ValidMonth(asOf)
    ensures WellFormed(Published(start, Climb()))
    ensures var js := Jumps(textLength, ClimbClause(start, 0), Published(start, Climb()), asOf);
            && |js| == last && js[last - 1].evaluation.newAmountCents > 0
            && textLength(js[last - 1].evaluation.exactAmount) > MAX_RATIO_TEXT
            && Prepare(textLength, js[last - 1].evaluation.nextClause, Published(start, Climb()), asOf)
               == Err(InvalidExactAmount)
  {
    hide ClimbClause, Published, WellFormed, SpellsRatios, Jumps, Climb, Prepare, ExactAfter;
    TextAfter(textLength, last);
    ClimbReplays(textLength, start, 0, last, asOf);
    ClimbRefused(textLength, start, last, asOf);
  }
}
