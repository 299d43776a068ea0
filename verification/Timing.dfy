/** Effective dates, notices and due dates of an adjusted rent (timing.go). */
module Timing {
  import opened Basics
  import opened Calendar

  datatype TimingMode = Cautious | Oevi | Contractual | MieWeG | OldCautious | OldContractual | UnknownMode

  datatype TimingError =
    | PublicationRequired
    | InvalidDueDay
    | ScheduleNeedsContractDate
    | ContractDateRequired
    | AprilRequired
    | ModeRequired
    | BothNoticeDatesRequired
    | PrematureNotice

  /** A date an ISO text can carry: years 1 to 9999. Day 0 is Go's zero time, "no date". */
  type IsoDate = d: nat | ValidMonth(MonthOf(d))

  datatype TimingInput = TimingInput(
    contractSchedule: bool,
    triggerMonth: Month,
    finalPublishedOn: IsoDate,
    mode: TimingMode,
    notBefore: IsoDate,
    legalFloorMode: TimingMode,
    contractualEffectiveOn: IsoDate,
    statutoryEffectiveOn: IsoDate,
    requiresMRGNotice: bool,
    noticeIssuedOn: IsoDate,
    noticeReceivedOn: IsoDate,
    dueDay: int)

  datatype TimingResult = TimingResult(
    indexEffectiveOn: Date,
    earliestNoticeOn: Date,
    rentFrom: Month,
    dueOn: Date,
    noticeDeadline: Option<int>,
    plannedNotice: bool,
    mode: TimingMode)

  /** `rentDue`: the due day of a month, clamped to its last day. */
  function RentDue(m: Month, day: int): Date
    requires 1 <= day <= 31
  {
    var first := if ValidMonth(m) then m else FIRST_MONTH;
    MonthStart(first) + Min(day, DaysInMonth(first)) - 1
  }

  /** The month and date from which a demand effective on `x` falls due. */
  function DueFrom(x: Date, day: int): (Month, Date)
    requires 1 <= day <= 31
  {
    var m := MonthOf(x);
    if RentDue(m, day) < x then (NextMonth(m), RentDue(NextMonth(m), day)) else (m, RentDue(m, day))
  }

  function TwoMonthsAfter(d: Date): Date {
    MonthStart(MonthOf(d) + 2)
  }

  function Normalized(mode: TimingMode): TimingMode {
    match mode
    case OldCautious => Cautious
    case OldContractual => Contractual
    case _ => mode
  }

  /** The date from which the index part counts: publication, or the fixed contract date. */
  function FinalDate(input: TimingInput): IsoDate {
    if input.contractSchedule then input.contractualEffectiveOn else input.finalPublishedOn
  }

  function EffectiveInMode(input: TimingInput): Result<Date, TimingError> {
    var final := FinalDate(input);
    match Normalized(input.mode)
    case Cautious => Ok(TwoMonthsAfter(final))
    case Oevi => Ok(final)
    case Contractual =>
      if input.contractualEffectiveOn == 0 then Err(ContractDateRequired)
      else
        var floor := if input.requiresMRGNotice && !input.contractSchedule && input.legalFloorMode != Oevi
                     then TwoMonthsAfter(final) else final;
        Ok(Max(input.contractualEffectiveOn, floor))
    case MieWeG =>
      var april := input.statutoryEffectiveOn;
      if april == 0 || YearOfDate(april) < 2026 || !IsAprilFirst(april) || april < final then Err(AprilRequired)
      else Ok(april)
    case _ => Err(ModeRequired)
  }

  function EffectiveOn(input: TimingInput): Result<Date, TimingError> {
    match EffectiveInMode(input)
    case Err(e) => Err(e)
    case Ok(effective) =>
      var mode := Normalized(input.mode);
      if (mode == Cautious || mode == Oevi) && input.notBefore != 0 && input.notBefore > effective
      then Ok(input.notBefore) else Ok(effective)
  }

  function DueDay(input: TimingInput): int {
    if input.dueDay == 0 then 5 else input.dueDay
  }

  function Checked(input: TimingInput): Option<TimingError> {
    if !input.contractSchedule
       && (!ValidMonth(input.triggerMonth) || input.finalPublishedOn == 0
           || MonthOf(input.finalPublishedOn) <= input.triggerMonth)
    then Some(PublicationRequired)
    else if DueDay(input) < 1 || DueDay(input) > 31 then Some(InvalidDueDay)
    else if input.contractSchedule
            && (input.contractualEffectiveOn == 0 || input.mode !in {Contractual, MieWeG, OldContractual})
    then Some(ScheduleNeedsContractDate)
    else None
  }

  function Timing(input: TimingInput): Result<TimingResult, TimingError> {
    if Checked(input).Some? then Err(Checked(input).value)
    else
      var day := DueDay(input);
      match EffectiveOn(input)
      case Err(e) => Err(e)
      case Ok(effective) =>
        var mode := Normalized(input.mode);
        if !input.requiresMRGNotice then
          var (month, due) := DueFrom(effective, day);
          Ok(TimingResult(effective, effective, month, due, None, false, mode))
        else if (input.noticeIssuedOn == 0) != (input.noticeReceivedOn == 0) then Err(BothNoticeDatesRequired)
        else
          var planned := input.noticeIssuedOn == 0;
          var issued := if planned then effective else input.noticeIssuedOn;
          var received := if planned then effective else input.noticeReceivedOn;
          if issued < effective || received < effective || received < issued then Err(PrematureNotice)
          else
            var (month, due) := DueFrom(received + 14, day);
            Ok(TimingResult(effective, effective, month, due, Some(due - 14), planned, mode))
  }

  // ----- Due dates

  /** `x` is no later than the last due date there is, that of December 9999. */
  predicate WithinCalendar(x: Date, day: int)
    requires 1 <= day <= 31
  {
    x <= RentDue(END_OF_MONTHS - 1, day)
  }

  /** `due` is the first clamped due date, over all valid months, that is not before `x`. */
  ghost predicate IsEarliestDue(day: int, x: Date, m: Month, due: Date)
    requires 1 <= day <= 31
  {
    && ValidMonth(m)
    && due == RentDue(m, day) >= x
    && forall k: Month :: ValidMonth(k) && RentDue(k, day) >= x ==> due <= RentDue(k, day)
  }

  lemma RentDueInMonth(m: Month, day: int)
    requires 1 <= day <= 31
    ensures ValidMonth(m) ==> RentDue(m, day) == MonthStart(m) + Min(day, DaysInMonth(m)) - 1
    ensures ValidMonth(m) ==> MonthStart(m) <= RentDue(m, day) < MonthStart(m + 1)
    ensures !ValidMonth(m) ==> RentDue(m, day) == RentDue(FIRST_MONTH, day)
  {
  }

  /** The due date lies in its month, on the due day or, where the month is shorter, on its last day. */
  lemma RentDueClamps(m: Month, day: int)
    requires 1 <= day <= 31 && ValidMonth(m)
    ensures var due := RentDue(m, day);
            && MonthOf(due) == m && due - MonthStart(m) + 1 <= day
            && (due - MonthStart(m) + 1 == day || MonthOf(due + 1) == m + 1)
  {
    hide MonthOf, MonthStart, DaysInMonth, RentDue, YearOf, MonthInYear, MonthOfFrom;
    RentDueInMonth(m, day);
    NextMonthStart(m);
    var due := RentDue(m, day);
    MonthOfIsUnique(m, due);
    if due + 1 == MonthStart(m + 1) { NextMonthBegins(m, due); }
  }

  lemma RentDueIncreases(a: Month, b: Month, day: int)
    requires 1 <= day <= 31 && ValidMonth(a) && ValidMonth(b) && a < b
    ensures RentDue(a, day) < RentDue(b, day)
  {
    RentDueInMonth(a, day);
    RentDueInMonth(b, day);
    MonthStartIncreases(a, b);
  }

  /** The same, seen from the month of `x`. */
  lemma WithinCalendarByMonth(x: Date, day: int)
    requires 1 <= day <= 31
    ensures var m := MonthOf(x);
            WithinCalendar(x, day) <==> ValidMonth(m) && (ValidMonth(m + 1) || RentDue(m, day) >= x)
  {
    var m, last := MonthOf(x), END_OF_MONTHS - 1;
    RentDueInMonth(last, day);
    hide RentDue, MonthOf, DaysInMonth;
    if m < last {
      MonthStartIncreases(m, last);
      if m + 1 < last { MonthStartIncreases(m + 1, last); }
    } else if m > last {
      if m > last + 1 { MonthStartIncreases(last + 1, m); }
    }
  }

  /** The month search picks the earliest due date, and exactly when there still is one. Beyond the
      last due date of year 9999 the month text stops parsing and the search falls back to year 1. */
  lemma DueFromIsEarliest(x: Date, day: int)
    requires 1 <= day <= 31
    ensures IsEarliestDue(day, x, DueFrom(x, day).0, DueFrom(x, day).1) <==> WithinCalendar(x, day)
    ensures !WithinCalendar(x, day) ==>
              DueFrom(x, day).1 < x && MonthOf(x) >= END_OF_MONTHS - 1
              && DueFrom(x, day).1 == if MonthOf(x) == END_OF_MONTHS - 1 then RentDue(FIRST_MONTH, day)
                                      else RentDue(FIRST_MONTH + 1, day)
  {
    if WithinCalendar(x, day) {
      DueFromWithinCalendar(x, day);
    } else {
      DueFromBeyondCalendar(x, day);
    }
  }

  lemma DueFromWithinCalendar(x: Date, day: int)
    requires 1 <= day <= 31 && WithinCalendar(x, day)
    ensures IsEarliestDue(day, x, DueFrom(x, day).0, DueFrom(x, day).1)
  {
    WithinCalendarByMonth(x, day);
    hide WithinCalendar;
    var m, found := MonthOf(x), DueFrom(x, day).0;
    RentDueInMonth(m, day);
    RentDueInMonth(m + 1, day);
    forall k: Month | ValidMonth(k) && RentDue(k, day) >= x
      ensures RentDue(found, day) <= RentDue(k, day)
    {
      RentDueInMonth(k, day);
      if k < m {
        MonthStartIncreases(k, m);
      } else if k > found {
        RentDueIncreases(found, k, day);
      }
    }
  }

  lemma DueFromBeyondCalendar(x: Date, day: int)
    requires 1 <= day <= 31 && !WithinCalendar(x, day)
    ensures DueFrom(x, day).1 < x
    ensures DueFrom(x, day).1 == if MonthOf(x) == END_OF_MONTHS - 1 then RentDue(FIRST_MONTH, day)
                                 else RentDue(FIRST_MONTH + 1, day)
  {
    WithinCalendarByMonth(x, day);
    hide WithinCalendar;
    var m := MonthOf(x);
    RentDueInMonth(m, day);
    if ValidMonth(m) { RentDueInMonth(m + 1, day); }
    RentDueInMonth(FIRST_MONTH, day);
    RentDueInMonth(FIRST_MONTH + 1, day);
    MonthStartIncreases(FIRST_MONTH + 2, m);
  }

  lemma DueFromMonotone(x: Date, y: Date, day: int)
    requires 1 <= day <= 31 && x <= y && WithinCalendar(y, day)
    ensures WithinCalendar(x, day) && DueFrom(x, day).1 <= DueFrom(y, day).1
  {
    hide DaysInMonth, MonthOf;
    DueFromWithinCalendar(y, day);
    DueFromWithinCalendar(x, day);
    var k := DueFrom(y, day).0;
    assert ValidMonth(k) && RentDue(k, day) >= x;
  }

  // ----- The effective date

  lemma TwoMonthsAfterIsLater(d: IsoDate)
    ensures TwoMonthsAfter(d) == MonthStart(MonthOf(d) + 2) > d
  {
    MonthStartIncreases(MonthOf(d) + 1, MonthOf(d) + 2);
  }

  /** No mode lets an adjustment take effect before its publication or its fixed date; for an index
      clause that publication lies in a month after the trigger month. */
  lemma EffectiveNotBeforeFinal(input: TimingInput)
    requires Timing(input).Ok?
    ensures Timing(input).value.indexEffectiveOn >= FinalDate(input)
    ensures !input.contractSchedule ==> MonthOf(FinalDate(input)) > input.triggerMonth
    ensures Timing(input).value.mode == Cautious ==>
              Timing(input).value.indexEffectiveOn >= MonthStart(MonthOf(FinalDate(input)) + 2)
  {
    TwoMonthsAfterIsLater(FinalDate(input));
  }

  /** The first day of a month. */
  ghost predicate IsFirstDay(m: Month, x: Date) {
    MonthOf(x) == m && forall d: Date :: MonthOf(d) == m ==> x <= d
  }

  lemma MonthStartIsFirstDay(m: Month)
    requires m >= FIRST_MONTH
    ensures IsFirstDay(m, MonthStart(m))
  {
    MonthStartIncreases(m, m + 1);
    hide MonthOf, DaysInMonth;
    MonthOfIsUnique(m, MonthStart(m));
  }

  /** The date the index counts from in each mode, told from the input. Cautious: two months after the month of
      publication. Otherwise publication itself. A later periodic date holds in both. By contract: the contract's
      date, but not before publication, and not before the cautious date where the MRG notice applies to an index
      clause and the organisation's reading is not followed. Under the MieWeG: the reviewed first of April. */
  ghost predicate TakesEffect(input: TimingInput, cautious: Date, effective: Date) {
    var final: Date := if input.contractSchedule then input.contractualEffectiveOn else input.finalPublishedOn;
    var legal := input.requiresMRGNotice && !input.contractSchedule && input.legalFloorMode != Oevi;
    && IsFirstDay(MonthOf(final) + 2, cautious)
    && match input.mode
       case Cautious => effective == Max(cautious, input.notBefore)
       case OldCautious => effective == Max(cautious, input.notBefore)
       case Oevi => effective == Max(final, input.notBefore)
       case MieWeG => effective == input.statutoryEffectiveOn
       case UnknownMode => false
       case _ => effective == Max(input.contractualEffectiveOn, if legal then cautious else final)
  }

  lemma EffectiveByMode(input: TimingInput)
    requires EffectiveOn(input).Ok?
    ensures TakesEffect(input, TwoMonthsAfter(FinalDate(input)), EffectiveOn(input).value)
  {
    MonthStartIsFirstDay(MonthOf(FinalDate(input)) + 2);
    hide MonthOf, MonthStart, IsFirstDay, YearOfDate, IsAprilFirst;
  }

  /** So it is for every accepted input, and the notice may go out from that date on. */
  lemma EffectiveInEachMode(input: TimingInput)
    requires Timing(input).Ok?
    ensures exists cautious :: TakesEffect(input, cautious, Timing(input).value.indexEffectiveOn)
    ensures Timing(input).value.earliestNoticeOn == Timing(input).value.indexEffectiveOn
    ensures Timing(input).value.plannedNotice <==> input.requiresMRGNotice && input.noticeIssuedOn == 0
    ensures Timing(input).value.noticeDeadline.Some? <==> input.requiresMRGNotice
    ensures Timing(input).value.mode == match input.mode
                                        case OldCautious => Cautious
                                        case OldContractual => Contractual
                                        case _ => input.mode
  {
    hide DueFrom, TakesEffect, EffectiveOn, MonthOf, Checked;
    EffectiveByMode(input);
  }

  /** What each mode asks for before it gives a date. */
  ghost predicate ModeReady(input: TimingInput) {
    var final: Date := if input.contractSchedule then input.contractualEffectiveOn else input.finalPublishedOn;
    match input.mode
    case UnknownMode => false
    case Contractual => input.contractualEffectiveOn != 0
    case OldContractual => input.contractualEffectiveOn != 0
    case MieWeG =>
      && input.statutoryEffectiveOn != 0 && YearOfDate(input.statutoryEffectiveOn) >= 2026
      && IsAprilFirst(input.statutoryEffectiveOn) && final <= input.statutoryEffectiveOn
    case _ => true
  }

  /** Exactly which inputs are accepted: an index clause published after its trigger month or a schedule with its
      date in a mode for schedules, a due day from 1 to 31 or none, a mode with what it asks for, and notice
      dates both or neither, not before the effective date and in order. */
  lemma AcceptedExactly(input: TimingInput)
    ensures EffectiveOn(input).Ok? <==> ModeReady(input)
    ensures Timing(input).Ok? <==>
              && (if input.contractSchedule
                  then input.contractualEffectiveOn != 0 && input.mode in {Contractual, MieWeG, OldContractual}
                  else && ValidMonth(input.triggerMonth) && input.finalPublishedOn != 0
                       && input.triggerMonth < MonthOf(input.finalPublishedOn))
              && 0 <= input.dueDay <= 31
              && ModeReady(input)
              && (input.requiresMRGNotice ==>
                    && (input.noticeIssuedOn == 0 <==> input.noticeReceivedOn == 0)
                    && (input.noticeIssuedOn != 0 ==>
                          EffectiveOn(input).value <= input.noticeIssuedOn <= input.noticeReceivedOn))
  {
    hide MonthOf, DueFrom, YearOfDate, IsAprilFirst, TwoMonthsAfter;
  }

  /** The date whose next due date is demanded, told from the input: the effective date, or 14 days after
      receipt where notice is required, the effective date standing in for a receipt still to come. */
  function DueBasis(input: TimingInput): Date
    requires EffectiveOn(input).Ok?
  {
    var effective := EffectiveOn(input).value;
    if !input.requiresMRGNotice then effective
    else if input.noticeReceivedOn == 0 then effective + 14
    else input.noticeReceivedOn + 14
  }

  lemma TimingShape(input: TimingInput)
    requires Timing(input).Ok?
    ensures 1 <= DueDay(input) <= 31 && EffectiveOn(input) == Ok(Timing(input).value.indexEffectiveOn)
    ensures (Timing(input).value.rentFrom, Timing(input).value.dueOn) == DueFrom(DueBasis(input), DueDay(input))
    ensures input.requiresMRGNotice ==>
              Timing(input).value.noticeDeadline == Some(Timing(input).value.dueOn - 14)
    ensures input.requiresMRGNotice ==>
              Timing(input).value.plannedNotice == (input.noticeReceivedOn == 0) == (input.noticeIssuedOn == 0)
    ensures input.requiresMRGNotice && input.noticeReceivedOn != 0 ==>
              input.noticeReceivedOn >= input.noticeIssuedOn >= Timing(input).value.indexEffectiveOn
  {
    hide DaysInMonth, MonthOf, RentDue, EffectiveOn, NextMonth;
  }

  /** Due dates are the earliest lawful ones: exactly as long as the calendar reaches that far. */
  lemma DueDatesAreEarliest(input: TimingInput)
    requires Timing(input).Ok?
    ensures 1 <= DueDay(input) <= 31 && EffectiveOn(input).Ok?
    ensures var r, day := Timing(input).value, if input.dueDay == 0 then 5 else input.dueDay;
            IsEarliestDue(day, DueBasis(input), r.rentFrom, r.dueOn) <==> WithinCalendar(DueBasis(input), day)
  {
    hide Timing, DueBasis, IsEarliestDue, WithinCalendar;
    TimingShape(input);
    DueFromIsEarliest(DueBasis(input), DueDay(input));
  }

  lemma LateDay(december: Month, on: Date)
    requires december == END_OF_MONTHS - 1 && on == MonthStart(december) + 19
    ensures MonthOf(on) == december && RentDue(december, 5) < on && !WithinCalendar(on, 5)
    ensures RentDue(END_OF_MONTHS, 5) == RentDue(FIRST_MONTH, 5) < on
  {
    RentDueInMonth(december, 5);
    RentDueInMonth(END_OF_MONTHS, 5);
    RentDueInMonth(FIRST_MONTH, 5);
    hide RentDue, DaysInMonth, MonthOf;
    MonthStartIncreases(FIRST_MONTH + 1, december);
    MonthStartIncreases(december, december + 1);
    MonthOfIsUnique(december, on);
  }

  /** Past that the promise really fails: a fixed schedule from 20 December 9999 with due day 5 and without
      notice is accepted and falls due in January of year 1. */
  lemma LateScheduleWraps(december: Month, on: IsoDate)
    requires december == END_OF_MONTHS - 1 && on == MonthStart(december) + 19
    ensures var input := TimingInput(true, NO_MONTH, 0, Contractual, 0, Contractual, on, 0, false, 0, 0, 5);
            && Timing(input).Ok? && !WithinCalendar(on, 5)
            && Timing(input).value.indexEffectiveOn == on
            && Timing(input).value.rentFrom == END_OF_MONTHS
            && Timing(input).value.dueOn == RentDue(FIRST_MONTH, 5) < on
  {
    hide RentDue, DaysInMonth, MonthOf, WithinCalendar;
    LateDay(december, on);
  }

  /** Notice order: deadline, receipt, issue, effective date, publication. */
  lemma NoticeOrder(input: TimingInput)
    requires Timing(input).Ok? && input.requiresMRGNotice
    ensures 1 <= DueDay(input) <= 31 && EffectiveOn(input).Ok?
    ensures var r := Timing(input).value;
            var effective := EffectiveOn(input).value;
            var received := if input.noticeReceivedOn == 0 then effective else input.noticeReceivedOn;
            var issued := if input.noticeIssuedOn == 0 then effective else input.noticeIssuedOn;
            && r.noticeDeadline == Some(r.dueOn - 14)
            && received >= issued >= effective >= FinalDate(input)
            && (r.dueOn - 14 >= received <==> WithinCalendar(received + 14, DueDay(input)))
  {
    hide Timing, EffectiveOn, WithinCalendar, DueFrom;
    TimingShape(input);
    DueFromIsEarliest(DueBasis(input), DueDay(input));
    EffectiveNotBeforeFinal(input);
  }

  /** Planning with no notice dates yields the earliest due date any accepted notice can reach. */
  lemma PlannedNoticeIsEarliest(input: TimingInput, notified: TimingInput)
    requires input.requiresMRGNotice && input.noticeIssuedOn == 0 && input.noticeReceivedOn == 0
    requires notified == input.(noticeIssuedOn := notified.noticeIssuedOn,
                                noticeReceivedOn := notified.noticeReceivedOn)
    requires Timing(notified).Ok?
    ensures Timing(input).Ok? && 1 <= DueDay(input) <= 31 && EffectiveOn(input).Ok? && EffectiveOn(notified).Ok?
    ensures WithinCalendar(DueBasis(notified), DueDay(input)) ==>
              Timing(input).value.dueOn <= Timing(notified).value.dueOn
    ensures WithinCalendar(DueBasis(input), DueDay(input)) && MonthOf(DueBasis(input)) > FIRST_MONTH + 1 ==>
              (Timing(input).value.dueOn <= Timing(notified).value.dueOn <==>
                 WithinCalendar(DueBasis(notified), DueDay(input)))
  {
    PlanAccepted(input, notified);
    hide Timing, WithinCalendar, DueFrom, EffectiveOn;
    TimingShape(input);
    TimingShape(notified);
    var day := DueDay(input);
    var x, y := DueBasis(input), DueBasis(notified);
    DueFromIsEarliest(x, day);
    if WithinCalendar(y, day) {
      DueFromMonotone(x, y, day);
    } else if WithinCalendar(x, day) && MonthOf(x) > FIRST_MONTH + 1 {
      WrappedIsEarlier(x, y, day);
    }
  }

  lemma PlanAccepted(input: TimingInput, notified: TimingInput)
    requires input.requiresMRGNotice && input.noticeIssuedOn == 0 && input.noticeReceivedOn == 0
    requires notified == input.(noticeIssuedOn := notified.noticeIssuedOn,
                                noticeReceivedOn := notified.noticeReceivedOn)
    requires Timing(notified).Ok?
    ensures Timing(input).Ok?
    ensures EffectiveOn(notified) == EffectiveOn(input) && DueDay(notified) == DueDay(input)
  {
    hide MonthOf, RentDue, NextMonth, DueFrom, TwoMonthsAfter;
  }

  /** A wrapped due date falls in the first two months of year 1. */
  lemma WrappedIsEarlier(x: Date, y: Date, day: int)
    requires 1 <= day <= 31 && MonthOf(x) > FIRST_MONTH + 1 && WithinCalendar(x, day) && !WithinCalendar(y, day)
    ensures DueFrom(y, day).1 < DueFrom(x, day).1
  {
    hide DaysInMonth, RentDue, WithinCalendar;
    DueFromBeyondCalendar(y, day);
    DueFromWithinCalendar(x, day);
    var m: Month := FIRST_MONTH + 2;
    RentDueInMonth(m - 1, day);
    RentDueInMonth(m - 2, day);
    MonthStartIncreases(m - 1, m);
    if m < MonthOf(x) { MonthStartIncreases(m, MonthOf(x)); }
  }
}
