/**
 * The part of JavaScript's `Date` the overtime form relies on: the day
 * number of a local calendar date, as `new Date(year, monthIndex, day)`
 * computes it.  ECMAScript builds it as the day of the first of the month
 * plus `day - 1`, so an out-of-range day rolls over into the next month
 * (31 February is 3 March in a common year).  Days are counted from
 * 1 January 1970 with the proleptic Gregorian calendar.
 */
module JsDate {
  import opened JsMath

  /** Day number of a civil date (H. Hinnant's `days_from_civil`); `d` may lie outside the month. */
  function DaysFromCivil(y: int, m: int, d: int): int
    requires 1 <= m <= 12
  {
    var yy := if m <= 2 then y - 1 else y;
    var era := yy / 400;
    var yoe := yy - era * 400;
    var mp := if m > 2 then m - 3 else m + 9;
    var doy := (153 * mp + 2) / 5 + d - 1;
    era * 146097 + DaysOfEra(yoe) + doy - 719468
  }

  /** Days from the start of a 400-year era to the start of its year `yoe` (counted from March). */
  function DaysOfEra(yoe: int): int {
    yoe * 365 + yoe / 4 - yoe / 100
  }

  predicate IsLeapYear(y: int) {
    y % 4 == 0 && (y % 100 != 0 || y % 400 == 0)
  }

  function DaysInMonth(y: int, m: int): (n: int)
    requires 1 <= m <= 12
    ensures 28 <= n <= 31
    ensures n == 29 <==> m == 2 && IsLeapYear(y)
  {
    if m == 2 then (if IsLeapYear(y) then 29 else 28)
    else if m == 4 || m == 6 || m == 9 || m == 11 then 30
    else 31
  }

  /** Two-digit years: `new Date(y, ...)` with `0 <= y <= 99` means 1900 + y. */
  function JsYear(y: int): (r: int)
    ensures 0 <= y <= 99 ==> r == 1900 + y
    ensures !(0 <= y <= 99) ==> r == y
  {
    if 0 <= y <= 99 then 1900 + y else y
  }

  /** The largest day number a `Date` can hold (8.64e15 ms); beyond it the date is invalid. */
  const MaxDay: nat := 100000000

  lemma Epoch()
    ensures DaysFromCivil(1970, 1, 1) == 0
  {
  }

  /** The day argument counts on from the first of the month. */
  lemma DayOffset(y: int, m: int, d: int)
    requires 1 <= m <= 12
    ensures DaysFromCivil(y, m, d) == DaysFromCivil(y, m, 1) + d - 1
  {
  }

  /** The first of the next month comes exactly the month's length after the first of this one. */
  lemma {:induction false} MonthRollover(y: int, m: int)
    requires 1 <= m <= 12
    ensures m < 12 ==> DaysFromCivil(y, m, 1) + DaysInMonth(y, m) == DaysFromCivil(y, m + 1, 1)
    ensures m == 12 ==> DaysFromCivil(y, m, 1) + DaysInMonth(y, m) == DaysFromCivil(y + 1, 1, 1)
  {
    if m == 2 {
      FebruaryRollover(y);
    }
  }

  /** A day past the end of the month is that many days into the next month. */
  lemma DayRollover(y: int, m: int, d: int)
    requires 1 <= m <= 12 && d > DaysInMonth(y, m)
    ensures m < 12 ==> DaysFromCivil(y, m, d) == DaysFromCivil(y, m + 1, d - DaysInMonth(y, m))
    ensures m == 12 ==> DaysFromCivil(y, m, d) == DaysFromCivil(y + 1, 1, d - DaysInMonth(y, m))
  {
    MonthRollover(y, m);
  }

  lemma FebruaryRollover(y: int)
    ensures DaysFromCivil(y, 2, 1) + DaysInMonth(y, 2) == DaysFromCivil(y, 3, 1)
  {
    var era1 := (y - 1) / 400;
    var yoe1 := (y - 1) - era1 * 400;
    assert DaysFromCivil(y, 2, 1) == era1 * 146097 + DaysOfEra(yoe1) + 337 - 719468;
    if yoe1 == 399 {
      DivModUnique(y, 400, era1 + 1, 0);
      assert DaysFromCivil(y, 3, 1) == (era1 + 1) * 146097 - 719468;
      ResidueOfEra(y, era1 + 1, 0);
    } else {
      DivModUnique(y, 400, era1, yoe1 + 1);
      assert DaysFromCivil(y, 3, 1) == era1 * 146097 + DaysOfEra(yoe1 + 1) - 719468;
      YearStep(yoe1);
      ResidueOfEra(y, era1, yoe1 + 1);
    }
  }

  /** Within an era, a year has 366 days exactly when it is a leap year (the era's own multiples of 400 excluded). */
  lemma YearStep(k: int)
    requires 0 <= k < 399
    ensures DaysOfEra(k + 1) - DaysOfEra(k) == if (k + 1) % 4 == 0 && (k + 1) % 100 != 0 then 366 else 365
  {
    DivStep(k, 4);
    DivStep(k, 100);
    if (k + 1) % 100 == 0 {
      assert k + 1 == ((k + 1) / 100) * 25 * 4;
      DivModUnique(k + 1, 4, ((k + 1) / 100) * 25, 0);
    }
  }

  lemma ResidueOfEra(y: int, era: int, yoe: int)
    requires y == era * 400 + yoe
    ensures y % 4 == yoe % 4 && y % 100 == yoe % 100
  {
    assert y == (era * 100) * 4 + yoe;
    assert y == (era * 4) * 100 + yoe;
  }

  lemma DivStep(k: int, b: int)
    requires b > 0
    ensures (k + 1) / b - k / b == if (k + 1) % b == 0 then 1 else 0
  {
    var q, r := k / b, k % b;
    if r == b - 1 {
      DivModUnique(k + 1, b, q + 1, 0);
    } else {
      DivModUnique(k + 1, b, q, r + 1);
    }
  }
}
