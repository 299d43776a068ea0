/** The rounding regimes of decimal.go. A rational (`big.Rat`) is a `real`; `halfUp` moves an
    exact half away from zero, its absence moves it towards zero. */
module Rounding {
  import opened Basics
  import opened Reals

  datatype MathError = Overflow | NonPositive | InvalidAmount

  /** A tenth of a fixed-point `Decimal`, whose unit is a millionth. */
  const TENTH: int := 100_000

  /** Longer ratio texts are refused; a function `textLength` stands for the length of a ratio's text. */
  const MAX_RATIO_TEXT: nat := 2048

  /** What rounding means: a nearest integer, and which of the two when both are equally near. */
  ghost predicate IsNearest(x: real, r: int, halfUp: bool) {
    var distance := r as real - x;
    && -1.0 <= 2.0 * distance <= 1.0
    && (2.0 * Abs(distance) == 1.0 ==> (halfUp <==> Abs(r as real) > Abs(x)))
  }

  function RoundMagnitude(x: real, halfUp: bool): nat
    requires x >= 0.0
  {
    var twice := 2.0 * (x - x.Floor as real);
    if twice > 1.0 || (twice == 1.0 && halfUp) then x.Floor + 1 else x.Floor
  }

  function RoundReal(x: real, halfUp: bool): (r: int)
    ensures IsNearest(x, r, halfUp)
  {
    var magnitude: int := RoundMagnitude(Abs(x), halfUp);
    if x < 0.0 then -magnitude else magnitude
  }

  lemma NearestIsUnique(x: real, r: int, s: int, halfUp: bool)
    requires IsNearest(x, r, halfUp) && IsNearest(x, s, halfUp)
    ensures r == s
  {
    assert -1.0 <= (r - s) as real <= 1.0;
  }

  lemma RoundMonotone(x: real, y: real, halfUp: bool)
    requires x <= y
    ensures RoundReal(x, halfUp) <= RoundReal(y, halfUp)
  {
    if x == y {
      NearestIsUnique(x, RoundReal(x, halfUp), RoundReal(y, halfUp), halfUp);
    } else {
      assert RoundReal(x, halfUp) as real - RoundReal(y, halfUp) as real < 1.0;
    }
  }

  lemma RoundOdd(x: real, halfUp: bool)
    ensures RoundReal(-x, halfUp) == -RoundReal(x, halfUp)
  {
    var r := RoundReal(x, halfUp);
    assert (-r) as real == -(r as real);
    assert IsNearest(-x, -r, halfUp);
    NearestIsUnique(-x, -r, RoundReal(-x, halfUp), halfUp);
  }

  lemma RoundInteger(n: int, halfUp: bool)
    ensures RoundReal(n as real, halfUp) == n
  {
    NearestIsUnique(n as real, n, RoundReal(n as real, halfUp), halfUp);
  }

  /** Half down never exceeds half up on an amount of money. */
  lemma HalfDownBelowHalfUp(x: real)
    requires x >= 0.0
    ensures 0 <= RoundReal(x, false) <= RoundReal(x, true) <= RoundReal(x, false) + 1
  {
  }

  lemma RoundMin(x: real, y: real, halfUp: bool)
    ensures RoundReal(if x <= y then x else y, halfUp) == Min(RoundReal(x, halfUp), RoundReal(y, halfUp))
  {
    if x <= y { RoundMonotone(x, y, halfUp); } else { RoundMonotone(y, x, halfUp); }
  }

  lemma RoundAboveInteger(x: real, n: int, halfUp: bool)
    ensures x >= n as real ==> RoundReal(x, halfUp) >= n
    ensures x <= n as real ==> RoundReal(x, halfUp) <= n
  {
    RoundInteger(n, halfUp);
    if x >= n as real { RoundMonotone(n as real, x, halfUp); }
    if x <= n as real { RoundMonotone(x, n as real, halfUp); }
  }

  /** decimal.go's `roundRat`, or the overflow it reports. */
  function RoundFit(x: real, halfUp: bool): Result<int64, MathError> {
    var n := RoundReal(x, halfUp);
    if FitsInt64(n) then Ok(n as int64) else Err(Overflow)
  }

  lemma QuotientParts(n: nat, d: nat)
    requires d > 0
    ensures (n as real / d as real) == (n / d) as real + (n % d) as real / d as real
    ensures 0.0 <= (n % d) as real / d as real < 1.0
    ensures (n as real / d as real).Floor == n / d
  {
    var q, r := n / d, n % d;
    var dr := d as real;
    assert n == q * d + r;
    assert n as real == (q * d) as real + r as real;
    assert (q * d) as real == q as real * dr;
    QuotientBound(r as real, dr, 0.0);
    QuotientBound(r as real, dr, 1.0);
    SplitFraction(q as real, r as real, dr);
  }

  /** An amount times an exact factor. */
  function Scaled(amount: real, factor: real): (r: real)
    ensures amount >= 0.0 && factor >= 0.0 ==> r >= 0.0
    ensures amount > 0.0 && factor > 0.0 ==> r > 0.0
  {
    amount * factor
  }

  lemma ScaledTwice(x: real, y: real, z: real)
    ensures Scaled(Scaled(x, y), z) == Scaled(x, Scaled(y, z))
    ensures Scaled(x, 1.0) == x
  {
  }

  lemma SplitFraction(q: real, r: real, d: real)
    requires d > 0.0
    ensures (q * d + r) / d == q + r / d
  {
    var f := r / d;
    assert f * d == r;
    assert (q + f) * d == q * d + f * d;
  }

  /** The computation on numerator and denominator, as the source carries it out. */
  method RoundRat(num: int, den: nat, halfUp: bool) returns (r: Result<int64, MathError>)
    requires den > 0
    ensures r == RoundFit(num as real / den as real, halfUp)
  {
    var n := num;
    var negative := n < 0;
    if negative {
      n := -n;
    }
    var q, rest := n / den, n % den;
    QuotientParts(n, den);
    HalfwayTest(rest, den);
    if 2 * rest > den || (2 * rest == den && halfUp) {
      q := q + 1;
    }
    assert q == RoundMagnitude(n as real / den as real, halfUp);
    if negative {
      q := -q;
      NegatedFraction(n as real, den as real);
    }
    assert q == RoundReal(num as real / den as real, halfUp);
    if !FitsInt64(q) {
      return Err(Overflow);
    }
    return Ok(q as int64);
  }

  lemma HalfwayTest(rest: nat, den: nat)
    requires den > 0
    ensures 2 * rest > den <==> 2.0 * (rest as real / den as real) > 1.0
    ensures 2 * rest == den <==> 2.0 * (rest as real / den as real) == 1.0
  {
    QuotientBound(rest as real, den as real, 0.5);
    assert 0.5 * den as real == den as real / 2.0;
  }

  lemma NegatedFraction(n: real, d: real)
    requires d > 0.0
    ensures (-n) / d == -(n / d)
  {
    assert (n / d) * d == n;
    assert (-(n / d)) * d == -n;
  }

  function Ratio(a: int64, b: int64, denominator: int64): real
    requires denominator > 0
  {
    a as real * b as real / denominator as real
  }

  /** `roundedRatio`: a*b/denominator, rounded once. */
  function RoundedRatio(a: int64, b: int64, denominator: int64, halfUp: bool): Result<int64, MathError> {
    if denominator <= 0 then Err(NonPositive)
    else RoundFit(Ratio(a, b, denominator), halfUp)
  }

  lemma RatioNotNegative(a: int64, b: int64, denominator: int64)
    requires a >= 0 && b >= 0 && denominator > 0
    ensures RoundedRatio(a, b, denominator, true).Ok? ==> RoundedRatio(a, b, denominator, true).value >= 0
  {
    hide RoundReal;
    var x, y, d := a as real, b as real, denominator as real;
    ProductOrder(0.0, x, y);
    QuotientBound(x * y, d, 0.0);
    RoundAboveInteger(x * y / d, 0, true);
  }

  /** A decimal as the rational it denotes (`decimalRat`). */
  function DecimalValue(d: int64): real {
    d as real / 1_000_000.0
  }

  /** `displayDecimal`: the nearest millionth. */
  function DisplayDecimal(x: real): Result<int64, MathError> {
    RoundFit(x * 1_000_000.0, true)
  }

  /** `roundTenth`: the nearest tenth, refused exactly when it is no 64-bit number, so that the last product
      cannot wrap. */
  function RoundTenth(d: int64): (r: Result<int64, MathError>)
    ensures r.Ok? <==> FitsInt64(TENTH * RoundReal(d as real / 100_000.0, true))
    ensures r.Ok? ==> r.value as int == TENTH * RoundReal(d as real / 100_000.0, true)
    ensures d > 0 && r.Ok? ==> r.value >= 0
  {
    RoundAboveInteger(d as real / 100_000.0, 0, true);
    match RoundedRatio(d, 1, 100_000, true)
    case Err(e) => Err(e)
    case Ok(n) =>
      if n > 0x7fff_ffff_ffff_ffff / 100_000 || n < -(0x7fff_ffff_ffff_ffff / 100_000) then Err(Overflow)
      else Ok(n * 100_000)
  }

  /** The change from `base` to `current` in tenths of a percent, before it is scaled. */
  function ChangeTenths(base: int64, current: int64): int
    requires base > 0 && current > 0
  {
    RoundReal((current - base) as real * 1000.0 / base as real, true)
  }

  lemma ChangeTenthsFloor(base: int64, current: int64)
    requires base > 0 && current > 0
    ensures ChangeTenths(base, current) >= -1000
    ensures current >= base ==> ChangeTenths(base, current) >= 0
    ensures current <= base ==> ChangeTenths(base, current) <= 0
  {
    var x := (current - base) as real * 1000.0;
    QuotientBound(x, base as real, -1000.0);
    QuotientBound(x, base as real, 0.0);
    RoundAboveInteger(x / base as real, -1000, true);
    RoundAboveInteger(x / base as real, 0, true);
  }

  /** `percentChange`: rounded directly to a tenth of a percent, refused exactly for indices that are not
      positive or a change that is no 64-bit number. Only the upper side is guarded in the source; the lower
      side cannot wrap because no change falls below -100 percent. */
  function PercentChange(base: int64, current: int64): (r: Result<int64, MathError>)
    ensures r.Ok? <==> base > 0 && current > 0 && FitsInt64(TENTH * ChangeTenths(base, current))
    ensures r.Ok? ==> base > 0 && current > 0 && r.value as int == TENTH * ChangeTenths(base, current)
    ensures r.Ok? ==> r.value >= -100_000_000
  {
    if base <= 0 || current <= 0 then Err(NonPositive)
    else
      ChangeTenthsFloor(base, current);
      match RoundedRatio(current - base, 1000, base, true)
      case Err(e) => Err(e)
      case Ok(n) =>
        if n > 0x7fff_ffff_ffff_ffff / 100_000 then Err(Overflow) else Ok(n * 100_000)
  }

  /** `applyPercent` */
  function ApplyPercent(cents: int64, rate: int64, halfUp: bool): Result<int64, MathError> {
    if cents < 0 || rate < -100_000_000 || rate > 0x7fff_ffff_ffff_ffff - 100_000_000 then Err(InvalidAmount)
    else RoundedRatio(cents, 100_000_000 + rate, 100_000_000, halfUp)
  }
}
