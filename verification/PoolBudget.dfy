/** The connection plan and its startup check (pool_budget.go). */
module PoolBudget {
  import opened Basics

  datatype ConnectionBudget = ConnectionBudget(laneCap: int64, perLaneMax: int64, processPool: int64)

  const TWO_64: int := 0x1_0000_0000_0000_0000

  /** Go's arithmetic on 64-bit integers keeps the low 64 bits. */
  function Wrapped(x: int): int64 {
    var low := x % TWO_64;
    (if low < TWO_64 / 2 then low else low - TWO_64) as int64
  }

  /** The connections the plan can really reach. */
  function TruePeak(b: ConnectionBudget): int {
    b.laneCap as int * b.perLaneMax as int + b.processPool as int
  }

  /** `Peak` */
  function Peak(b: ConnectionBudget): int64 {
    Wrapped(Wrapped(b.laneCap as int * b.perLaneMax as int) as int + b.processPool as int)
  }

  /** `fits` without its error text. */
  predicate Fits(b: ConnectionBudget, maxConnections: int64, reserved: int64) {
    && b.laneCap > 0 && b.perLaneMax > 0 && b.processPool > 0
    && Peak(b) as int < Wrapped(maxConnections as int - reserved as int) as int
  }

  lemma WrappedInRange(x: int)
    ensures FitsInt64(x) ==> Wrapped(x) as int == x
    ensures (Wrapped(x) as int - x) % TWO_64 == 0
  {
  }

  lemma SumIsExact(product: int, extra: int)
    requires product >= 1 && extra >= 1 && FitsInt64(product + extra)
    ensures Wrapped(Wrapped(product) as int + extra) as int == product + extra
  {
    WrappedInRange(product);
    WrappedInRange(product + extra);
    hide Wrapped;
  }

  lemma ProductIsPositive(x: int, y: int)
    requires x > 0 && y > 0
    ensures x * y >= 1
  {
  }

  lemma PeakIsExact(b: ConnectionBudget)
    requires b.laneCap > 0 && b.perLaneMax > 0 && b.processPool > 0
    ensures TruePeak(b) >= 2
    ensures FitsInt64(TruePeak(b)) ==> Peak(b) as int == TruePeak(b)
  {
    hide Wrapped;
    ProductIsPositive(b.laneCap as int, b.perLaneMax as int);
    var product := b.laneCap as int * b.perLaneMax as int;
    if FitsInt64(product + b.processPool as int) { SumIsExact(product, b.processPool as int); }
  }

  /** An accepted plan is strictly below what the server can give exactly when it is a 64-bit number. */
  lemma AcceptedPlansFit(b: ConnectionBudget, maxConnections: int64, reserved: int64)
    requires Fits(b, maxConnections, reserved)
    requires 0 <= reserved && 0 <= maxConnections
    ensures TruePeak(b) < maxConnections as int - reserved as int <==> FitsInt64(TruePeak(b))
  {
    hide Wrapped, TruePeak, Peak;
    WrappedInRange(maxConnections as int - reserved as int);
    PeakIsExact(b);
  }

  /** Within 64 bits nothing that fits is refused either. */
  lemma FittingPlansAreAccepted(b: ConnectionBudget, maxConnections: int64, reserved: int64)
    requires b.laneCap > 0 && b.perLaneMax > 0 && b.processPool > 0
    requires 0 <= reserved && 0 <= maxConnections
    requires TruePeak(b) < maxConnections as int - reserved as int
    ensures Fits(b, maxConnections, reserved)
  {
    hide Wrapped, TruePeak, Peak;
    WrappedInRange(maxConnections as int - reserved as int);
    PeakIsExact(b);
  }

  /** Beyond 64 bits the check accepts a plan that no server can serve. */
  lemma OverflowIsAccepted()
    ensures var b := ConnectionBudget(0x1_0000_0000, 0x8000_0000, 1);
            Fits(b, 100, 3) && TruePeak(b) > 100
  {
    assert Wrapped(0x8000_0000_0000_0000) as int == -0x8000_0000_0000_0000;
  }
}
