/**
 * Proleptic Gregorian calendar arithmetic, as java.time.LocalDate does it.
 * A calendar date is a (year, month, day-of-month) triple; its epoch day is
 * the number of days since 1970-01-01, computed with LocalDate.toEpochDay's
 * formula, and its day of week is ISO numbered (Monday = 1 .. Sunday = 7).
 */
module Civil {

  datatype YMD = YMD(year: nat, month: int, day: int)

  const DaysFrom0000To1970: int := 719528

  predicate IsLeapYear(y: nat) {
    y % 4 == 0 && (y % 100 != 0 || y % 400 == 0)
  }

  function YearLength(y: nat): int {
    if IsLeapYear(y) then 366 else 365
  }

  function DaysInMonth(y: nat, m: int): int {
    if m == 2 then (if IsLeapYear(y) then 29 else 28)
    else if m == 4 || m == 6 || m == 9 || m == 11 then 30
    else 31
  }

  /** A date that exists in the calendar. */
  predicate Valid(x: YMD) {
    1 <= x.month <= 12 && 1 <= x.day <= DaysInMonth(x.year, x.month)
  }

  /** Days from 0000-01-01 to January 1st of year y. */
  function DaysBeforeYear(y: nat): int {
    365 * y + (y + 3) / 4 - (y + 99) / 100 + (y + 399) / 400
  }

  /** Days from January 1st to the first of month m of year y. */
  function DaysBeforeMonth(y: nat, m: int): int {
    (367 * m - 362) / 12 - (if m > 2 then (if IsLeapYear(y) then 1 else 2) else 0)
  }

  function EpochDay(x: YMD): int {
    DaysBeforeYear(x.year) + DaysBeforeMonth(x.year, x.month) + x.day - 1 - DaysFrom0000To1970
  }

  /** ISO day of week of an epoch day: 1970-01-01 was a Thursday (4). */
  function DayOfWeek(e: int): (w: int)
    ensures 1 <= w <= 7
  {
    (e + 3) % 7 + 1
  }

  /**
   * LocalDate.compareTo: the difference of the first field that differs,
   * year, then month, then day; 0 when none does. Only its sign orders
   * dates, lexicographically on (year, month, day).
   */
  function Compare(a: YMD, b: YMD): (c: int)
    ensures c < 0 <==> a.year < b.year || (a.year == b.year && a.month < b.month)
                       || (a.year == b.year && a.month == b.month && a.day < b.day)
    ensures c == 0 <==> a == b
  {
    if a.year != b.year then a.year - b.year
    else if a.month != b.month then a.month - b.month
    else a.day - b.day
  }

  function NextDay(x: YMD): YMD {
    if x.day < DaysInMonth(x.year, x.month) then YMD(x.year, x.month, x.day + 1)
    else if x.month < 12 then YMD(x.year, x.month + 1, 1)
    else YMD(x.year + 1, 1, 1)
  }

  /** The day before; 0000-01-01 has no representable predecessor and is kept. */
  function PrevDay(x: YMD): YMD {
    if x.day > 1 then YMD(x.year, x.month, x.day - 1)
    else if x.month > 1 then YMD(x.year, x.month - 1, DaysInMonth(x.year, x.month - 1))
    else if x.year > 0 then YMD(x.year - 1, 12, 31)
    else x
  }

  function PlusDays(x: YMD, n: nat): YMD
    decreases n
  {
    if n == 0 then x else PlusDays(NextDay(x), n - 1)
  }

  function MinusDays(x: YMD, n: nat): YMD
    decreases n
  {
    if n == 0 then x else MinusDays(PrevDay(x), n - 1)
  }

  /** LocalDate.plusWeeks(1) / plusDays(7). */
  function PlusWeek(x: YMD): YMD { PlusDays(x, 7) }

  /** LocalDate.minusWeeks(1). */
  function MinusWeek(x: YMD): YMD { MinusDays(x, 7) }

  /**
   * Years before 0 are not represented: a week before 3 Jan 0000, which
   * LocalDate gives as 27 Dec -0001, stops at 1 Jan 0000.
   */
  lemma MinusWeekStopsAtYearZero()
    ensures MinusWeek(YMD(0, 1, 3)) == YMD(0, 1, 1)
  {
  }

  // ---------------------------------------------------------------------
  // Arithmetic facts about the epoch-day formula
  // ---------------------------------------------------------------------

  // The leap-day counts of DaysBeforeYear each grow by one exactly when
  // their divisor divides the year.

  lemma LeapStep4(y: nat)
    ensures (y + 4) / 4 - (y + 3) / 4 == (if y % 4 == 0 then 1 else 0)
  {
  }

  lemma LeapStep100(y: nat)
    ensures (y + 100) / 100 - (y + 99) / 100 == (if y % 100 == 0 then 1 else 0)
  {
  }

  lemma LeapStep400(y: nat)
    ensures (y + 400) / 400 - (y + 399) / 400 == (if y % 400 == 0 then 1 else 0)
  {
  }

  lemma YearStep(y: nat)
    ensures DaysBeforeYear(y + 1) == DaysBeforeYear(y) + YearLength(y)
  {
    LeapStep4(y);
    LeapStep100(y);
    LeapStep400(y);
    var d4 := if y % 4 == 0 then 1 else 0;
    var d100 := if y % 100 == 0 then 1 else 0;
    var d400 := if y % 400 == 0 then 1 else 0;
    assert DaysBeforeYear(y + 1) == DaysBeforeYear(y) + 365 + d4 - d100 + d400;
    LeapDivisors(y);
  }

  lemma LeapDivisors(y: nat)
    ensures YearLength(y) == 365 + (if y % 4 == 0 then 1 else 0)
      - (if y % 100 == 0 then 1 else 0) + (if y % 400 == 0 then 1 else 0)
  {
    if y % 400 == 0 {
      assert y % 100 == 0 && y % 4 == 0;
    } else if y % 100 == 0 {
      assert y % 4 == 0;
    }
  }

  lemma MonthStep(y: nat, m: int)
    requires 1 <= m < 12
    ensures DaysBeforeMonth(y, m + 1) == DaysBeforeMonth(y, m) + DaysInMonth(y, m)
  {
  }

  lemma LastMonth(y: nat)
    ensures DaysBeforeMonth(y, 12) + 31 == YearLength(y)
  {
  }

  /** Stepping one calendar day forward adds one to the epoch day. */
  lemma NextDayEpoch(x: YMD)
    requires Valid(x)
    ensures Valid(NextDay(x))
    ensures EpochDay(NextDay(x)) == EpochDay(x) + 1
  {
    if x.day < DaysInMonth(x.year, x.month) {
    } else if x.month < 12 {
      MonthStep(x.year, x.month);
    } else {
      LastMonth(x.year);
      YearStep(x.year);
    }
  }

  /** Stepping one calendar day back subtracts one from the epoch day. */
  lemma PrevDayEpoch(x: YMD)
    requires Valid(x)
    requires x != YMD(0, 1, 1)
    ensures Valid(PrevDay(x))
    ensures EpochDay(PrevDay(x)) == EpochDay(x) - 1
  {
    if x.day > 1 {
    } else if x.month > 1 {
      MonthStep(x.year, x.month - 1);
    } else {
      LastMonth(x.year - 1);
      YearStep(x.year - 1);
    }
  }

  lemma {:induction false} PlusDaysEpoch(x: YMD, n: nat)
    requires Valid(x)
    ensures Valid(PlusDays(x, n))
    ensures EpochDay(PlusDays(x, n)) == EpochDay(x) + n
    decreases n
  {
    if n > 0 {
      NextDayEpoch(x);
      PlusDaysEpoch(NextDay(x), n - 1);
    }
  }

  /** The date a week later is 7 epoch days later, and is a real date. */
  lemma PlusWeekEpoch(x: YMD)
    requires Valid(x)
    ensures Valid(PlusWeek(x))
    ensures EpochDay(PlusWeek(x)) == EpochDay(x) + 7
  {
    PlusDaysEpoch(x, 7);
  }

  lemma {:induction false} MinusDaysEpoch(x: YMD, n: nat)
    requires Valid(x)
    requires EpochDay(x) - n >= EpochDay(YMD(0, 1, 1))
    ensures Valid(MinusDays(x, n))
    ensures EpochDay(MinusDays(x, n)) == EpochDay(x) - n
    decreases n
  {
    if n > 0 {
      assert x != YMD(0, 1, 1);
      PrevDayEpoch(x);
      MinusDaysEpoch(PrevDay(x), n - 1);
    }
  }

  /** The date a week earlier is 7 epoch days earlier, within year 0 onwards. */
  lemma MinusWeekEpoch(x: YMD)
    requires Valid(x)
    requires EpochDay(x) - 7 >= EpochDay(YMD(0, 1, 1))
    ensures Valid(MinusWeek(x))
    ensures EpochDay(MinusWeek(x)) == EpochDay(x) - 7
  {
    MinusDaysEpoch(x, 7);
  }

  lemma {:induction false} DaysBeforeYearMonotone(y1: nat, y2: nat)
    requires y1 < y2
    ensures DaysBeforeYear(y1) + YearLength(y1) <= DaysBeforeYear(y2)
    decreases y2 - y1
  {
    YearStep(y1);
    if y1 + 1 < y2 {
      DaysBeforeYearMonotone(y1 + 1, y2);
      YearStep(y1 + 1);
    }
  }

  lemma {:induction false} DaysBeforeMonthMonotone(y: nat, m1: int, m2: int)
    requires 1 <= m1 < m2 <= 12
    ensures DaysBeforeMonth(y, m1) + DaysInMonth(y, m1) <= DaysBeforeMonth(y, m2)
    decreases m2 - m1
  {
    MonthStep(y, m1);
    if m1 + 1 < m2 {
      DaysBeforeMonthMonotone(y, m1 + 1, m2);
      MonthStep(y, m1 + 1);
    }
  }

  lemma EpochDayInYear(x: YMD)
    requires Valid(x)
    ensures DaysBeforeYear(x.year) - DaysFrom0000To1970 <= EpochDay(x)
    ensures EpochDay(x) < DaysBeforeYear(x.year) + YearLength(x.year) - DaysFrom0000To1970
  {
    if x.month < 12 {
      DaysBeforeMonthMonotone(x.year, x.month, 12);
    }
    LastMonth(x.year);
  }

  lemma EarlierIsSmaller(a: YMD, b: YMD)
    requires Valid(a) && Valid(b)
    requires Compare(a, b) < 0
    ensures EpochDay(a) < EpochDay(b)
  {
    if a.year < b.year {
      EpochDayInYear(a);
      EpochDayInYear(b);
      DaysBeforeYearMonotone(a.year, b.year);
    } else if a.month < b.month {
      DaysBeforeMonthMonotone(a.year, a.month, b.month);
    }
  }

  /**
   * Comparing two real dates field by field agrees with comparing their
   * epoch days; in particular two real dates are equal iff their epoch days are.
   */
  lemma CompareIsEpochOrder(a: YMD, b: YMD)
    requires Valid(a) && Valid(b)
    ensures Compare(a, b) < 0 <==> EpochDay(a) < EpochDay(b)
    ensures Compare(a, b) == 0 <==> EpochDay(a) == EpochDay(b)
    ensures Compare(a, b) > 0 <==> EpochDay(a) > EpochDay(b)
    ensures Compare(a, b) == 0 <==> a == b
  {
    if Compare(a, b) < 0 {
      EarlierIsSmaller(a, b);
    } else if Compare(a, b) > 0 {
      assert Compare(b, a) < 0;
      EarlierIsSmaller(b, a);
    }
  }

  /**
   * The result is a difference, not just -1, 0 or 1: two days apart in a
   * month compare as 2, and two years apart as -2 whatever the months.
   */
  lemma CompareIsDifference()
    ensures Compare(YMD(2021, 10, 27), YMD(2021, 10, 25)) == 2
    ensures Compare(YMD(2021, 12, 31), YMD(2023, 1, 1)) == -2
  {
  }

  /** Swapping the arguments negates the comparison. */
  lemma CompareAntisymmetric(a: YMD, b: YMD)
    ensures Compare(a, b) == -Compare(b, a)
  {
  }

  /** Adding a week keeps the day of week. */
  lemma DayOfWeekPeriodic(e: int, k: int)
    ensures DayOfWeek(e + 7 * k) == DayOfWeek(e)
  {
    assert (e + 7 * k + 3) % 7 == (e + 3) % 7;
  }

  /** Two days share a weekday exactly when they are a whole number of weeks apart. */
  lemma SameWeekdayIffWeeksApart(e1: int, e2: int)
    ensures DayOfWeek(e1) == DayOfWeek(e2) <==> (e1 - e2) % 7 == 0
  {
    var q1, q2 := (e1 + 3) / 7, (e2 + 3) / 7;
    assert e1 + 3 == 7 * q1 + (e1 + 3) % 7;
    assert e2 + 3 == 7 * q2 + (e2 + 3) % 7;
    assert e1 - e2 == 7 * (q1 - q2) + ((e1 + 3) % 7 - (e2 + 3) % 7);
  }
}
