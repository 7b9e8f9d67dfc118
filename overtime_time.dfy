/**
 * overtimeTime.ts: `formatCompositeTime` writes a signed number of minutes
 * as days, hours and minutes, counting a workday as 450 minutes (7h30).
 * Zero components are left out, except that minutes are always written
 * when nothing else is; the parts are joined with ", ", each unit singular
 * exactly when its value is 1, and a negative total gets a leading "-".
 */
module OvertimeTime {
  import opened JsMath
  import opened JsStrings

  const MinutesPerWorkday: nat := 450
  const MinutesPerHour: nat := 60

  /** The components of an absolute number of minutes. */
  datatype Breakdown = Breakdown(days: nat, hours: nat, minutes: nat)

  /** The floor/mod decomposition of `|totalMinutes|`. */
  function BreakdownOf(totalMinutes: int): (b: Breakdown)
    ensures b.days * MinutesPerWorkday + b.hours * MinutesPerHour + b.minutes == Abs(totalMinutes)
    ensures b.hours * MinutesPerHour + b.minutes < MinutesPerWorkday
    ensures b.minutes < MinutesPerHour && b.hours <= 7
  {
    var absMinutes := Abs(totalMinutes);
    var remainingAfterDays := absMinutes % MinutesPerWorkday;
    Breakdown(absMinutes / MinutesPerWorkday, remainingAfterDays / MinutesPerHour, remainingAfterDays % MinutesPerHour)
  }

  /** The decomposition is the only one with minutes below an hour and hours plus minutes below a workday. */
  lemma BreakdownUnique(totalMinutes: int, d: nat, h: nat, m: nat)
    requires d * MinutesPerWorkday + h * MinutesPerHour + m == Abs(totalMinutes)
    requires m < MinutesPerHour && h * MinutesPerHour + m < MinutesPerWorkday
    ensures BreakdownOf(totalMinutes) == Breakdown(d, h, m)
  {
    var a := Abs(totalMinutes);
    DivModUnique(a, MinutesPerWorkday, d, h * MinutesPerHour + m);
    DivModUnique(h * MinutesPerHour + m, MinutesPerHour, h, m);
  }

  /** `${n} unit` with an "s" unless `n` is 1. */
  function UnitText(n: nat, unit: string): (r: string)
    requires unit != [] && unit[|unit| - 1] != 's'
    ensures |NatToString(n)| + 1 < |r| && r[..|NatToString(n)| + 1] == NatToString(n) + " "
    ensures r[|r| - 1] == 's' <==> n != 1
  {
    NatToString(n) + " " + unit + (if n != 1 then "s" else "")
  }

  /** The parts that appear, in the order days, hours, minutes. */
  function Parts(b: Breakdown): (r: seq<string>)
    ensures 1 <= |r| <= 3
  {
    (if b.days > 0 then [UnitText(b.days, "day")] else [])
    + (if b.hours > 0 then [UnitText(b.hours, "hour")] else [])
    + (if b.minutes > 0 || (b.days == 0 && b.hours == 0) then [UnitText(b.minutes, "minute")] else [])
  }

  /** What `formatCompositeTime` returns. */
  function CompositeTime(totalMinutes: int): string {
    (if totalMinutes < 0 then "-" else "") + Join(Parts(BreakdownOf(totalMinutes)), ", ")
  }

  /** `formatCompositeTime`, building its parts array by conditional pushes. */
  method FormatCompositeTime(totalMinutes: int) returns (s: string)
    ensures s == CompositeTime(totalMinutes)
  {
    var isNegative := totalMinutes < 0;
    var absMinutes := Abs(totalMinutes);
    var days := absMinutes / MinutesPerWorkday;
    var remainingAfterDays := absMinutes % MinutesPerWorkday;
    var hours := remainingAfterDays / MinutesPerHour;
    var minutes := remainingAfterDays % MinutesPerHour;
    var parts: seq<string> := [];
    assert BreakdownOf(totalMinutes) == Breakdown(days, hours, minutes);
    if days > 0 {
      parts := parts + [UnitText(days, "day")];
    }
    if hours > 0 {
      parts := parts + [UnitText(hours, "hour")];
    }
    assert |parts| == 0 <==> days == 0 && hours == 0;
    if minutes > 0 || |parts| == 0 {
      parts := parts + [UnitText(minutes, "minute")];
    }
    assert parts == Parts(BreakdownOf(totalMinutes));
    var result := Join(parts, ", ");
    s := if isNegative then "-" + result else result;
  }

  /** Zero is written "0 minutes". */
  lemma ZeroIsZeroMinutes()
    ensures CompositeTime(0) == "0 minutes"
  {
    assert BreakdownOf(0) == Breakdown(0, 0, 0);
    assert NatToString(0) == "0";
  }

  /** The text is never empty, and starts with "-" exactly for a negative total. */
  lemma SignPrefix(totalMinutes: int)
    ensures CompositeTime(totalMinutes) != []
    ensures CompositeTime(totalMinutes)[0] == '-' <==> totalMinutes < 0
  {
    var parts := Parts(BreakdownOf(totalMinutes));
    var j := Join(parts, ", ");
    assert parts[0][0] == j[..|parts[0]|][0];
    assert IsDigit(parts[0][0]);
  }

  /** A negative total is its absolute value's text behind a "-". */
  lemma NegativeIsMinusAbsolute(totalMinutes: int)
    requires totalMinutes < 0
    ensures CompositeTime(totalMinutes) == "-" + CompositeTime(-totalMinutes)
  {
  }

  /** When no days or hours are present, the text is the minutes alone (so `n < 60` prints as "n minute(s)"). */
  lemma MinutesOnly(totalMinutes: int)
    requires 0 <= totalMinutes < MinutesPerHour
    ensures CompositeTime(totalMinutes) == UnitText(totalMinutes, "minute")
  {
    BreakdownUnique(totalMinutes, 0, 0, totalMinutes);
  }

  /** A whole number of workdays prints the days alone. */
  lemma WholeWorkdays(d: nat)
    requires d > 0
    ensures CompositeTime(d * MinutesPerWorkday) == UnitText(d, "day")
  {
    BreakdownUnique(d * MinutesPerWorkday, d, 0, 0);
  }
}
