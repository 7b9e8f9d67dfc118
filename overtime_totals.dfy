/**
 * OvertimeTotals.tsx: the signed total of a list of overtime entries, and
 * that total as workdays of 480 minutes (a floor division) plus a remainder
 * taken with JavaScript's truncating `%`.  The two roundings differ for a
 * negative total that is not a whole number of workdays, and the model keeps
 * that: -30 minutes shows as -1 workday and a remainder of -30.
 */
module OvertimeTotals {
  import opened Wrappers
  import opened JsMath
  import opened JsStrings

  /** The entry shape the overtime components declare for themselves. */
  datatype OvertimeEntry = OvertimeEntry(id: int, minutes: int, isAddition: bool, timestamp: int, comment: Option<string>)

  const MinutesPerTotalsWorkday: nat := 480

  /** One entry's contribution: `+minutes` for an addition, `-minutes` for a deduction. */
  function Signed(e: OvertimeEntry): int {
    if e.isAddition then e.minutes else -e.minutes
  }

  /** `entries.reduce((sum, e) => sum + signed(e), 0)`, a left fold. */
  function Total(entries: seq<OvertimeEntry>): int {
    if entries == [] then 0 else Total(entries[..|entries| - 1]) + Signed(entries[|entries| - 1])
  }

  /** The fold splits over concatenation. */
  lemma {:induction false} TotalAppend(a: seq<OvertimeEntry>, b: seq<OvertimeEntry>)
    ensures Total(a + b) == Total(a) + Total(b)
    decreases |b|
  {
    if b == [] {
      assert a + b == a;
    } else {
      assert (a + b)[..|a + b| - 1] == a + b[..|b| - 1];
      assert (a + b)[|a + b| - 1] == b[|b| - 1];
      TotalAppend(a, b[..|b| - 1]);
    }
  }

  datatype Totals = Totals(totalMinutes: int, workdays: int, remainderMinutes: int)

  /** The `useMemo` result. */
  function ComputeTotals(entries: seq<OvertimeEntry>): (t: Totals)
    ensures t.totalMinutes == Total(entries)
    ensures t.workdays * MinutesPerTotalsWorkday <= t.totalMinutes < (t.workdays + 1) * MinutesPerTotalsWorkday
    ensures Abs(t.remainderMinutes) < MinutesPerTotalsWorkday
    ensures t.remainderMinutes == 0 || (t.remainderMinutes > 0 <==> t.totalMinutes > 0)
    ensures t.remainderMinutes == Rem(t.totalMinutes, MinutesPerTotalsWorkday)
    ensures t.totalMinutes % MinutesPerTotalsWorkday == 0 ==> t.remainderMinutes == 0
  {
    var total := Total(entries);
    Totals(total, total / MinutesPerTotalsWorkday, Rem(total, MinutesPerTotalsWorkday))
  }

  /** For a non-negative total the two parts reconstruct it. */
  lemma NonNegativeReconstructs(entries: seq<OvertimeEntry>)
    requires Total(entries) >= 0
    ensures var t := ComputeTotals(entries);
      t.workdays * MinutesPerTotalsWorkday + t.remainderMinutes == t.totalMinutes
      && 0 <= t.remainderMinutes < MinutesPerTotalsWorkday
  {
    RemOfNonNegative(Total(entries), MinutesPerTotalsWorkday);
  }

  /** For a negative total that is not a whole number of workdays, the parts add up to one workday less than the total. */
  lemma NegativeMisreconstructs(entries: seq<OvertimeEntry>)
    requires Total(entries) < 0 && Total(entries) % MinutesPerTotalsWorkday != 0
    ensures var t := ComputeTotals(entries);
      t.workdays * MinutesPerTotalsWorkday + t.remainderMinutes == t.totalMinutes - MinutesPerTotalsWorkday
      && -(MinutesPerTotalsWorkday as int) < t.remainderMinutes < 0
  {
    RemOfNegative(Total(entries), MinutesPerTotalsWorkday);
  }

  /** A single 30-minute deduction: -1 workday and a remainder of -30. */
  lemma ThirtyMinuteDeduction(e: OvertimeEntry)
    requires e.minutes == 30 && !e.isAddition
    ensures ComputeTotals([e]) == Totals(-30, -1, -30)
  {
    assert [e][..0] == [];
    assert Total([e]) == -30;
    DivModUnique(-30, MinutesPerTotalsWorkday, -1, 450);
    RemOfNegative(-30, MinutesPerTotalsWorkday);
  }

  /** The text after the workdays: nothing for a zero remainder, else the remainder with "m", with "+" for a positive one. */
  function RemainderSuffix(remainder: int): (r: string)
    ensures r == [] <==> remainder == 0
    ensures r != [] ==> r[|r| - 1] == 'm'
    ensures r != [] ==> (r[0] == '+' <==> remainder > 0) && (r[0] == '-' <==> remainder < 0)
    ensures remainder > 0 ==> r == "+" + NatToString(remainder) + "m"
    ensures remainder < 0 ==> r == IntToString(remainder) + "m"
  {
    if remainder == 0 then [] else (if remainder > 0 then "+" else "") + IntToString(remainder) + "m"
  }
}
