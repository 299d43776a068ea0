/** Months and civil dates (month.go). A month is counted from year 0, so comparing indices is
    comparing months; a date is a day number, with day 0 the first of January of year 1, which is
    Go's zero time. */
module Calendar {
  import opened Digits
  import opened Basics

  type Month = int

  /** The empty month text; it precedes every valid month. */
  const NO_MONTH: Month := 0
  const FIRST_MONTH: Month := 12
  const END_OF_MONTHS: Month := 120_000

  /** Years 1 to 9999: the months an ISO text can name. */
  predicate ValidMonth(m: Month) {
    FIRST_MONTH <= m < END_OF_MONTHS
  }

  function MonthAt(year: int, month: int): Month
    requires 1 <= month <= 12
  {
    year * 12 + month - 1
  }

  /** Year and month of the year, counted off year by year. */
  function YearOf(m: Month): nat {
    if m < 12 then 0 else YearOf(m - 12) + 1
  }

  function MonthInYear(m: Month): (k: int)
    ensures 1 <= k <= 12
  {
    if m < 0 then 1 else if m < 12 then m + 1 else MonthInYear(m - 12)
  }

  lemma {:induction false} MonthParts(m: Month)
    requires m >= 0
    ensures m == MonthAt(YearOf(m), MonthInYear(m))
  {
    if m >= 12 { MonthParts(m - 12); }
  }

  lemma {:induction false} PartsOfMonthAt(year: nat, month: int)
    requires 1 <= month <= 12
    ensures YearOf(MonthAt(year, month)) == year && MonthInYear(MonthAt(year, month)) == month
  {
    if year > 0 { PartsOfMonthAt(year - 1, month); }
  }

  // ----- ISO text

  function MonthText(m: Month): string
    requires ValidMonth(m)
  {
    Padded(YearOf(m), 4) + "-" + Padded(MonthInYear(m), 2)
  }

  /** `ParseMonth`: exactly four digits, a dash and two digits, with year 0000 refused. */
  function ParseMonth(s: string): Option<Month> {
    if |s| != 7 || s[4] != '-' || !AllDigits(s[..4]) || !AllDigits(s[5..]) then None
    else if ValueOf(s[..4]) == 0 || ValueOf(s[5..]) < 1 || ValueOf(s[5..]) > 12 then None
    else Some(MonthAt(ValueOf(s[..4]), ValueOf(s[5..])))
  }

  lemma MonthTextRoundTrip(m: Month)
    requires ValidMonth(m)
    ensures ParseMonth(MonthText(m)) == Some(m)
  {
    var s := MonthText(m);
    MonthParts(m);
    assert Pow10(2) == 100 && Pow10(4) == 10_000;
    ValueOfPadded(YearOf(m), 4);
    ValueOfPadded(MonthInYear(m), 2);
    assert s[..4] == Padded(YearOf(m), 4) && s[5..] == Padded(MonthInYear(m), 2);
  }

  lemma ParsedMonthsAreTexts(s: string)
    requires ParseMonth(s).Some?
    ensures ValidMonth(ParseMonth(s).value) && MonthText(ParseMonth(s).value) == s
  {
    var m := ParseMonth(s).value;
    ValueOfBound(s[..4]);
    PartsOfMonthAt(ValueOf(s[..4]), ValueOf(s[5..]));
    assert Pow10(2) == 100 && Pow10(4) == 10_000;
    ValueOfPadded(YearOf(m), 4);
    ValueOfPadded(MonthInYear(m), 2);
    hide Padded, ValueOf, YearOf, MonthInYear;
    ValueDeterminesDigits(s[..4], Padded(YearOf(m), 4));
    ValueDeterminesDigits(s[5..], Padded(MonthInYear(m), 2));
    assert s == s[..4] + [s[4]] + s[5..];
  }

  /** Comparing the texts is comparing the months: the string order the source relies on. */
  lemma TextOrderIsChronological(a: Month, b: Month)
    requires ValidMonth(a) && ValidMonth(b)
    ensures TextLess(MonthText(a), MonthText(b)) <==> a < b
  {
    MonthParts(a);
    MonthParts(b);
    YearMonthOrder(YearOf(a), MonthInYear(a), YearOf(b), MonthInYear(b));
  }

  lemma YearMonthOrder(ya: nat, ka: nat, yb: nat, kb: nat)
    requires ya < 10_000 && yb < 10_000 && 1 <= ka <= 12 && 1 <= kb <= 12
    ensures TextLess(Padded(ya, 4) + "-" + Padded(ka, 2), Padded(yb, 4) + "-" + Padded(kb, 2))
            <==> ya < yb || (ya == yb && ka < kb)
  {
    hide Padded, ValueOf, TextLess;
    assert Pow10(2) == 100 && Pow10(4) == 10_000;
    var y, z, k, l := Padded(ya, 4), Padded(yb, 4), Padded(ka, 2), Padded(kb, 2);
    ValueOfPadded(ya, 4);
    ValueOfPadded(yb, 4);
    ValueOfPadded(ka, 2);
    ValueOfPadded(kb, 2);
    if ya == yb { ValueDeterminesDigits(y, z); }
    assert y + "-" + k == y + ("-" + k) && z + "-" + l == z + ("-" + l);
    PaddedOrder(y, z, "-" + k, "-" + l);
    TextLessSkip("-", k, l);
    PaddedOrder(k, l, "", "");
    assert k + "" == k && l + "" == l;
    TextLessIrreflexive("");
  }

  // ----- Civil dates

  type Date = nat

  predicate IsLeap(year: int) {
    year % 4 == 0 && (year % 100 != 0 || year % 400 == 0)
  }

  function DaysInMonth(m: Month): (n: nat)
    ensures 28 <= n <= 31
  {
    var k := MonthInYear(m);
    if k == 2 then (if IsLeap(YearOf(m)) then 29 else 28)
    else if k == 4 || k == 6 || k == 9 || k == 11 then 30
    else 31
  }

  /** The first day of a month. */
  function MonthStart(m: Month): Date
    requires m >= FIRST_MONTH
  {
    if m == FIRST_MONTH then 0 else MonthStart(m - 1) + DaysInMonth(m - 1)
  }

  lemma {:induction false} MonthStartIncreases(a: Month, b: Month)
    requires FIRST_MONTH <= a < b
    ensures MonthStart(a) + DaysInMonth(a) <= MonthStart(b)
    decreases b
  {
    if a < b - 1 { MonthStartIncreases(a, b - 1); }
  }

  /** The days before the years of the common era, as the leap rule distributes them. */
  function DaysBeforeYear(year: int): int {
    365 * (year - 1) + (year - 1) / 4 - (year - 1) / 100 + (year - 1) / 400
  }

  /** The days of a common year before each month. */
  function DaysBeforeMonth(k: int): int
    requires 1 <= k <= 12
  {
    [0, 31, 59, 90, 120, 151, 181, 212, 243, 273, 304, 334][k - 1]
  }

  lemma NextQuotients(year: nat)
    requires year >= 1
    ensures year / 4 - (year - 1) / 4 == if year % 4 == 0 then 1 else 0
    ensures year / 100 - (year - 1) / 100 == if year % 100 == 0 then 1 else 0
    ensures year / 400 - (year - 1) / 400 == if year % 400 == 0 then 1 else 0
  {
  }

  lemma Divides(year: nat)
    ensures year % 400 == 0 ==> year % 100 == 0
    ensures year % 100 == 0 ==> year % 4 == 0
  {
    var q100, q400 := year / 100, year / 400;
    if year % 400 == 0 { assert year == 100 * (4 * q400); }
    if year % 100 == 0 { assert year == 4 * (25 * q100); }
  }

  lemma LeapDays(year: nat)
    requires year >= 1
    ensures DaysBeforeYear(year + 1) - DaysBeforeYear(year) == if IsLeap(year) then 366 else 365
  {
    NextQuotients(year);
    Divides(year);
  }

  lemma DaysOfMonth(year: nat, k: int)
    requires 1 <= k <= 12
    ensures DaysInMonth(MonthAt(year, k)) ==
            (if k == 12 then 365 else DaysBeforeMonth(k + 1)) - DaysBeforeMonth(k)
            + if k == 2 && IsLeap(year) then 1 else 0
  {
    PartsOfMonthAt(year, k);
    hide YearOf, MonthInYear, IsLeap;
  }

  lemma NextMonthStart(m: Month)
    requires m >= FIRST_MONTH
    ensures MonthStart(m + 1) == MonthStart(m) + DaysInMonth(m)
  {
  }

  function DayCount(year: int, k: int): int
    requires 1 <= k <= 12
  {
    DaysBeforeYear(year) + DaysBeforeMonth(k) + if k > 2 && IsLeap(year) then 1 else 0
  }

  lemma DayCountInYear(year: nat, k: int)
    requires 1 < k <= 12
    ensures DayCount(year, k) == DayCount(year, k - 1) + DaysInMonth(MonthAt(year, k - 1))
  {
    DaysOfMonth(year, k - 1);
    hide DaysInMonth, DaysBeforeYear, DaysBeforeMonth, IsLeap;
  }

  lemma DayCountOverYear(year: nat)
    requires year > 1
    ensures DayCount(year, 1) == DayCount(year - 1, 12) + DaysInMonth(MonthAt(year - 1, 12))
  {
    DaysOfMonth(year - 1, 12);
    LeapDays(year - 1);
    assert DaysBeforeMonth(1) == 0;
    hide DaysInMonth, DaysBeforeYear, DaysBeforeMonth, IsLeap;
  }

  /** The day number of the first of a month is the usual closed formula. */
  lemma {:induction false} MonthStartIsDayCount(year: nat, k: int)
    requires year >= 1 && 1 <= k <= 12
    ensures MonthStart(MonthAt(year, k)) == DayCount(year, k)
    decreases year, k
  {
    if k > 1 {
      hide MonthStart, DaysInMonth, DayCount;
      MonthStartIsDayCount(year, k - 1);
      DayCountInYear(year, k);
      NextMonthStart(MonthAt(year, k - 1));
    } else if year > 1 {
      hide MonthStart, DaysInMonth, DayCount;
      MonthStartIsDayCount(year - 1, 12);
      DayCountOverYear(year);
      NextMonthStart(MonthAt(year - 1, 12));
    }
  }

  /** `monthOf`: the month whose days include the date. */
  function MonthOf(d: Date): (m: Month)
    ensures m >= FIRST_MONTH && MonthStart(m) <= d < MonthStart(m + 1)
  {
    MonthOfFrom(FIRST_MONTH, d)
  }

  function MonthOfFrom(m: Month, d: Date): (r: Month)
    requires m >= FIRST_MONTH && MonthStart(m) <= d
    ensures r >= m && MonthStart(r) <= d < MonthStart(r + 1)
    decreases d - MonthStart(m)
  {
    if d < MonthStart(m + 1) then m else MonthOfFrom(m + 1, d)
  }

  lemma MonthOfIsUnique(m: Month, d: Date)
    requires m >= FIRST_MONTH && MonthStart(m) <= d < MonthStart(m + 1)
    ensures MonthOf(d) == m
  {
    if MonthOf(d) < m {
      MonthStartIncreases(MonthOf(d), m);
    } else if MonthOf(d) > m {
      MonthStartIncreases(m, MonthOf(d));
    }
  }

  lemma NextMonthBegins(m: Month, last: Date)
    requires m >= FIRST_MONTH && last + 1 == MonthStart(m + 1)
    ensures MonthOf(last + 1) == m + 1
  {
    MonthStartIncreases(m + 1, m + 2);
    hide MonthOf, MonthStart;
    MonthOfIsUnique(m + 1, last + 1);
  }

  /** `Month.next`; past a text that is no month it continues from the zero time's month. */
  function NextMonth(m: Month): Month {
    if ValidMonth(m) then m + 1 else FIRST_MONTH + 1
  }

  predicate IsAprilFirst(d: Date) {
    MonthInYear(MonthOf(d)) == 4 && d == MonthStart(MonthOf(d))
  }

  /** The first of April of a date's year is the only one it can be. */
  lemma AprilFirstOfYear(d: Date)
    ensures IsAprilFirst(d) <==> d as int == DayCount(YearOfDate(d), 4)
  {
    var m := MonthOf(d);
    MonthParts(m);
    hide MonthOf, MonthStart, MonthInYear, YearOf, DaysInMonth, DayCount;
    var april := MonthAt(YearOf(m), 4);
    MonthStartIsDayCount(YearOf(m), 4);
    MonthStartIncreases(april, april + 1);
    if d == MonthStart(april) {
      MonthOfIsUnique(april, d);
      PartsOfMonthAt(YearOf(m), 4);
    }
  }

  function YearOfDate(d: Date): int {
    YearOf(MonthOf(d))
  }
}
