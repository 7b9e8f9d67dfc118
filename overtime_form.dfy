/**
 * OvertimeForm.tsx: `handleSubmit(isAddition)` checks the minutes, then the
 * day, month and year fields, then that the date is not after today, and
 * only then sends the minutes signed by the button that was pressed.  Only a
 * successful send clears minutes and comment and resets the date to today;
 * every other outcome leaves the form as it was.  Fields are held already
 * parsed (`None` for an entry `parseInt` reads as NaN).
 */
module OvertimeForm {
  import opened Wrappers
  import opened Backend
  import opened JsMath
  import opened JsDate
  import opened Notify
  import UseOvertime

  /** A local calendar date, as the clock reports today. */
  datatype CivilDate = CivilDate(year: int, month: int, day: int)

  predicate IsCalendarDate(c: CivilDate) {
    1 <= c.month <= 12 && 1 <= c.day <= DaysInMonth(c.year, c.month)
  }

  /** The outcome of the guard chain: the error key shown, or the signed minutes to send. */
  datatype Verdict = Invalid(key: string) | Valid(signedMinutes: int)

  predicate MinutesOk(minutes: Option<int>) {
    minutes.Some? && minutes.value > 0
  }

  predicate FieldsOk(day: Option<int>, month: Option<int>, year: Option<int>) {
    day.Some? && 1 <= day.value <= 31 && month.Some? && 1 <= month.value <= 12 && year.Some?
  }

  /** The day `new Date(year, month - 1, day)` falls on. */
  function SelectedDay(year: int, month: int, day: int): int
    requires 1 <= month <= 12
  {
    DaysFromCivil(JsYear(year), month, 1) + day - 1
  }

  /**
   * `selectedDate > today` for today's midnight; an out-of-range date is an
   * invalid `Date`, whose comparison is false, so it is not in the future.
   */
  predicate IsFuture(year: int, month: int, day: int, today: CivilDate)
    requires 1 <= month <= 12 && 1 <= today.month <= 12
  {
    var n := SelectedDay(year, month, day);
    -(MaxDay as int) <= n <= MaxDay && n > DaysFromCivil(today.year, today.month, today.day)
  }

  /** The guard chain of `handleSubmit` and the sign the button applies. */
  function Check(isAddition: bool, minutes: Option<int>, day: Option<int>, month: Option<int>, year: Option<int>,
                 today: CivilDate): (v: Verdict)
    requires IsCalendarDate(today)
    ensures v == Invalid("errors.invalidMinutes") <==> !MinutesOk(minutes)
    ensures v == Invalid("errors.invalidInput") <==> MinutesOk(minutes) && !FieldsOk(day, month, year)
    ensures v == Invalid("errors.futureDate") <==>
      MinutesOk(minutes) && FieldsOk(day, month, year) && IsFuture(year.value, month.value, day.value, today)
    ensures v.Valid? ==> Abs(v.signedMinutes) == minutes.value && (v.signedMinutes > 0 <==> isAddition)
  {
    if minutes.None? || minutes.value <= 0 then Invalid("errors.invalidMinutes")
    else if day.None? || day.value < 1 || day.value > 31 || month.None? || month.value < 1 || month.value > 12
      || year.None? then Invalid("errors.invalidInput")
    else if IsFuture(year.value, month.value, day.value, today) then Invalid("errors.futureDate")
    else Valid(if isAddition then minutes.value else -minutes.value)
  }

  /** Today itself (with a four-digit year) is accepted. */
  lemma TodayIsAccepted(isAddition: bool, m: int, today: CivilDate)
    requires IsCalendarDate(today) && m > 0 && !(0 <= today.year <= 99)
    ensures Check(isAddition, Some(m), Some(today.day), Some(today.month), Some(today.year), today).Valid?
  {
    DayOffset(today.year, today.month, today.day);
  }

  /** Any earlier day is accepted: there is no lower bound on the date. */
  lemma EarlierDaysAccepted(isAddition: bool, m: int, day: int, month: int, year: int, today: CivilDate)
    requires IsCalendarDate(today) && m > 0 && 1 <= day <= 31 && 1 <= month <= 12
    requires SelectedDay(year, month, day) <= DaysFromCivil(today.year, today.month, today.day)
    ensures Check(isAddition, Some(m), Some(day), Some(month), Some(year), today)
      == Valid(if isAddition then m else -m)
  {
  }

  /** A day past the month's end is judged as the date it rolls over to. */
  lemma RolledOverDate(year: int, month: int, day: int, today: CivilDate)
    requires 1 <= month < 12 && DaysInMonth(JsYear(year), month) < day && 1 <= today.month <= 12
    ensures IsFuture(year, month, day, today)
      == IsFuture(year, month + 1, day - DaysInMonth(JsYear(year), month), today)
  {
    DayRollover(JsYear(year), month, day);
    DayOffset(JsYear(year), month, day);
    DayOffset(JsYear(year), month + 1, day - DaysInMonth(JsYear(year), month));
  }

  class Form {
    var minutes: Option<int>
    var day: Option<int>
    var month: Option<int>
    var year: Option<int>
    var comment: string

    /** The initial state: no minutes, today's date, no comment. */
    constructor (today: CivilDate)
      ensures minutes.None? && day == Some(today.day) && month == Some(today.month) && year == Some(today.year)
      ensures comment == []
    {
      minutes := None;
      day := Some(today.day);
      month := Some(today.month);
      year := Some(today.year);
      comment := [];
    }

    /** `handleSubmit(isAddition)`; `mutation` is the create mutation and `today` the clock's date. */
    method Submit(isAddition: bool, today: CivilDate, mutation: Remote) returns (report: Report)
      requires IsCalendarDate(today)
      modifies this, mutation
      ensures var v := Check(isAddition, old(minutes), old(day), old(month), old(year), today);
        v.Invalid? ==>
          && report == ErrorKey(v.key)
          && minutes == old(minutes) && day == old(day) && month == old(month) && year == old(year)
          && comment == old(comment)
          && mutation.calls == old(mutation.calls) && mutation.replies == old(mutation.replies)
      ensures var v := Check(isAddition, old(minutes), old(day), old(month), old(year), today);
        var reply := NextReply(old(mutation.replies));
        v.Valid? ==>
          && mutation.calls == old(mutation.calls) + [CreateOvertimeCall(v.signedMinutes)]
          && mutation.replies == RestOf(old(mutation.replies))
          && (reply.Resolved? ==>
                && report == SuccessKey("overtime.entryCreated")
                && minutes.None? && comment == []
                && day == Some(today.day) && month == Some(today.month) && year == Some(today.year))
          && (reply.Rejected? ==>
                && report == ErrorValue(reply.error)
                && minutes == old(minutes) && day == old(day) && month == old(month) && year == old(year)
                && comment == old(comment))
    {
      var v := Check(isAddition, minutes, day, month, year, today);
      if v.Invalid? {
        return ErrorKey(v.key);
      }
      var r := mutation.Invoke(CreateOvertimeCall(v.signedMinutes));
      if r.Rejected? {
        return ErrorValue(r.error);
      }
      report := SuccessKey("overtime.entryCreated");
      minutes := None;
      comment := [];
      day := Some(today.day);
      month := Some(today.month);
      year := Some(today.year);
    }

    /** `handleSubmit` wired to the shipped create hook, which always rejects: the form is never reset. */
    method SubmitToRemovedBackend(isAddition: bool, today: CivilDate) returns (report: Report)
      requires IsCalendarDate(today)
      modifies this
      ensures minutes == old(minutes) && day == old(day) && month == old(month) && year == old(year)
      ensures comment == old(comment)
      ensures var v := Check(isAddition, old(minutes), old(day), old(month), old(year), today);
        report == if v.Invalid? then ErrorKey(v.key) else ErrorValue(Error(UseOvertime.RemovedMessage))
    {
      var v := Check(isAddition, minutes, day, month, year, today);
      if v.Invalid? {
        return ErrorKey(v.key);
      }
      var r := UseOvertime.CreateOvertimeEntry(v.signedMinutes);
      return ErrorValue(r.error);
    }
  }
}
