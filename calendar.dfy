/** The part of ECMAScript's `Date` that the booking list uses: the local-time value of
    `new Date(year, month - 1, day, hour, minute)` (in minutes rather than milliseconds)
    and `getDay()`. Out-of-range fields carry exactly as ECMA-262's MakeDay and MakeTime
    make them carry (day 31 of a 30-day month is the 1st of the next month, hour 25 is
    1 o'clock the next day). Time zones and daylight saving are not modelled: local
    time is taken to be a uniform count of minutes. */
module Calendar {

  const MinutesPerDay: int := 1440

  /** Names by `getDay()`, Sunday = 0. */
  const DayNames: seq<string> :=
    ["Sunday", "Monday", "Tuesday", "Wednesday", "Thursday", "Friday", "Saturday"]

  /** MakeFullYear of the `Date` constructor: a year 0..99 means 1900..1999. */
  function FullYear(y: int): int {
    if 0 <= y <= 99 then 1900 + y else y
  }

  predicate IsLeapYear(y: int) {
    y % 4 == 0 && (y % 100 != 0 || y % 400 == 0)
  }

  function DaysInYear(y: int): int {
    if IsLeapYear(y) then 366 else 365
  }

  /** ECMA-262 DayFromYear: days from 1 January 1970 to 1 January of year y. */
  function DayFromYear(y: int): int {
    365 * (y - 1970) + (y - 1969) / 4 - (y - 1901) / 100 + (y - 1601) / 400
  }

  /** Days in month m (0 = January) of year y. */
  function DaysInMonth(y: int, m: int): int
    requires 0 <= m < 12
  {
    if m == 1 then (if IsLeapYear(y) then 29 else 28)
    else if m == 3 || m == 5 || m == 8 || m == 10 then 30
    else 31
  }

  /** Days of year y before the first of month m (0 = January, 12 = the whole year),
      by ECMA-262's table of month starts. */
  function DaysBeforeMonth(y: int, m: int): int
    requires 0 <= m <= 12
  {
    [0, 31, 59, 90, 120, 151, 181, 212, 243, 273, 304, 334, 365][m]
      + (if IsLeapYear(y) && m >= 2 then 1 else 0)
  }

  /** ECMA-262 MakeDay: a zero-based month outside 0..11 carries into the year, and
      the date is added to the first of the month without any range check. */
  function MakeDay(y: int, m: int, date: int): int {
    var ym := y + m / 12;
    var mn := m % 12;
    DayFromYear(ym) + DaysBeforeMonth(ym, mn) + date - 1
  }

  /** `new Date(year, month - 1, day, hour, minute)` in minutes of local time. */
  function LocalMinutes(year: int, month: int, day: int, hour: int, minute: int): int {
    MakeDay(FullYear(year), month - 1, day) * MinutesPerDay + hour * 60 + minute
  }

  /** `getDay()` of a time value in minutes; 1 January 1970 was a Thursday. */
  function WeekDay(t: int): (d: nat)
    ensures d < 7
  {
    (t / MinutesPerDay + 4) % 7
  }

  // ---------------------------------------------------------------- consistency

  /** (a + 1) / k steps by one exactly when k divides a + 1, for the divisors of the
      leap-year rule. */
  lemma FloorStep(a: int, k: int)
    requires k == 4 || k == 100 || k == 400
    ensures (a + 1) / k == a / k + (if (a + 1) % k == 0 then 1 else 0)
  {
    if k == 4 {
      assert (a + 1) / 4 == a / 4 + (if (a + 1) % 4 == 0 then 1 else 0);
    } else if k == 100 {
      assert (a + 1) / 100 == a / 100 + (if (a + 1) % 100 == 0 then 1 else 0);
    } else {
      assert (a + 1) / 400 == a / 400 + (if (a + 1) % 400 == 0 then 1 else 0);
    }
  }

  /** The closed form of DayFromYear agrees with the Gregorian leap-year rule:
      consecutive years are 365 or 366 days apart. */
  lemma DayFromYearStep(y: int)
    ensures DayFromYear(y + 1) == DayFromYear(y) + DaysInYear(y)
  {
    var a := (y - 1968) / 4 - (y - 1969) / 4;
    var b := (y - 1900) / 100 - (y - 1901) / 100;
    var c := (y - 1600) / 400 - (y - 1601) / 400;
    assert a == (if y % 4 == 0 then 1 else 0) by {
      FloorStep(y - 1969, 4);
      assert (y - 1968) % 4 == 0 <==> y % 4 == 0;
    }
    assert b == (if y % 100 == 0 then 1 else 0) by {
      FloorStep(y - 1901, 100);
      assert (y - 1900) % 100 == 0 <==> y % 100 == 0;
    }
    assert c == (if y % 400 == 0 then 1 else 0) by {
      FloorStep(y - 1601, 400);
      assert (y - 1600) % 400 == 0 <==> y % 400 == 0;
    }
    assert a - b + c == (if IsLeapYear(y) then 1 else 0) by {
      LeapDivisors(y);
    }
  }

  lemma LeapDivisors(y: int)
    ensures y % 400 == 0 ==> y % 100 == 0
    ensures y % 100 == 0 ==> y % 4 == 0
  {
  }

  /** The table of month starts agrees with the month lengths. */
  lemma DaysBeforeNextMonth(y: int, m: int)
    requires 0 <= m < 12
    ensures DaysBeforeMonth(y, m + 1) == DaysBeforeMonth(y, m) + DaysInMonth(y, m)
  {
  }

  /** Month starts increase with the month. */
  lemma {:induction false} DaysBeforeMonthMonotone(y: int, i: int, j: int)
    requires 0 <= i <= j <= 12
    ensures DaysBeforeMonth(y, i) + (if i < j then DaysInMonth(y, i) else 0) <= DaysBeforeMonth(y, j)
    decreases j - i
  {
    if i < j {
      DaysBeforeNextMonth(y, i);
      if i + 1 < j {
        DaysBeforeMonthMonotone(y, i + 1, j);
      }
    }
  }

  /** The day after the last of a month is the first of the next month (and the day
      after 31 December is 1 January): this is how `Date` rolls over `31/4`. */
  lemma DayAfterMonthEnd(y: int, m: int)
    requires 0 <= m < 12
    ensures MakeDay(y, m, DaysInMonth(y, m) + 1) == MakeDay(y, m + 1, 1)
  {
    MakeDayInYear(y, m, DaysInMonth(y, m) + 1);
    DaysBeforeNextMonth(y, m);
    if m == 11 {
      DayAfterYearEnd(y);
    } else {
      MakeDayInYear(y, m + 1, 1);
    }
  }

  /** The first of the thirteenth month is 1 January of the next year. */
  lemma DayAfterYearEnd(y: int)
    ensures MakeDay(y, 12, 1) == DayFromYear(y) + DaysBeforeMonth(y, 12)
  {
    MonthCarriesIntoYear(y, 0, 1);
    MakeDayInYear(y + 1, 0, 1);
    DayFromYearStep(y);
  }

  /** A month within the year needs no carrying. */
  lemma MakeDayInYear(y: int, m: int, date: int)
    requires 0 <= m < 12
    ensures MakeDay(y, m, date) == DayFromYear(y) + DaysBeforeMonth(y, m) + date - 1
  {
    assert m / 12 == 0 && m % 12 == m;
  }

  /** A month past December is the same month of the next year. */
  lemma MonthCarriesIntoYear(y: int, m: int, date: int)
    ensures MakeDay(y, m + 12, date) == MakeDay(y + 1, m, date)
  {
    assert (m + 12) / 12 == m / 12 + 1;
    assert (m + 12) % 12 == m % 12;
  }

  /** One day later is the next day of the week. */
  lemma WeekDayNext(t: int)
    ensures WeekDay(t + MinutesPerDay) == (WeekDay(t) + 1) % 7
  {
    assert (t + MinutesPerDay) / MinutesPerDay == t / MinutesPerDay + 1;
  }

  /** Instants of one day fall on one day of the week. */
  lemma SameDaySameWeekDay(t1: int, t2: int)
    requires t1 / MinutesPerDay == t2 / MinutesPerDay
    ensures WeekDay(t1) == WeekDay(t2)
  {
  }

  // ---------------------------------------------------------------- order

  /** A calendar date and clock time that need no carrying. */
  predicate InRange(year: int, month: int, day: int, hour: int, minute: int) {
    && 1 <= month <= 12
    && 1 <= day <= DaysInMonth(FullYear(year), month - 1)
    && 0 <= hour < 24 && 0 <= minute < 60
  }

  /** Lexicographic order on (month, day, hour, minute). */
  predicate FieldsBefore(m1: int, d1: int, h1: int, n1: int, m2: int, d2: int, h2: int, n2: int) {
    || m1 < m2
    || (m1 == m2 && d1 < d2)
    || (m1 == m2 && d1 == d2 && h1 < h2)
    || (m1 == m2 && d1 == d2 && h1 == h2 && n1 < n2)
  }

  lemma InRangeMinutes(year: int, month: int, day: int, hour: int, minute: int)
    requires InRange(year, month, day, hour, minute)
    ensures LocalMinutes(year, month, day, hour, minute)
      == (DayFromYear(FullYear(year)) + DaysBeforeMonth(FullYear(year), month - 1) + day - 1) * MinutesPerDay
         + hour * 60 + minute
  {
    assert (month - 1) / 12 == 0 && (month - 1) % 12 == month - 1;
  }

  /** Within one year, `Date` order on in-range fields is the lexicographic order of
      (month, day, hour, minute). */
  lemma InRangeOrder(year: int, m1: int, d1: int, h1: int, n1: int, m2: int, d2: int, h2: int, n2: int)
    requires InRange(year, m1, d1, h1, n1) && InRange(year, m2, d2, h2, n2)
    ensures LocalMinutes(year, m1, d1, h1, n1) < LocalMinutes(year, m2, d2, h2, n2)
        <==> FieldsBefore(m1, d1, h1, n1, m2, d2, h2, n2)
  {
    var y := FullYear(year);
    var base := DayFromYear(y);
    var day1 := DaysBeforeMonth(y, m1 - 1) + d1 - 1;
    var day2 := DaysBeforeMonth(y, m2 - 1) + d2 - 1;
    InRangeMinutes(year, m1, d1, h1, n1);
    InRangeMinutes(year, m2, d2, h2, n2);
    DayIndexOrder(y, m1, d1, m2, d2);
    ClockOrder(base + day1, h1, n1, base + day2, h2, n2);
  }

  /** Days of the year order as (month, day) does. */
  lemma DayIndexOrder(y: int, m1: int, d1: int, m2: int, d2: int)
    requires 1 <= m1 <= 12 && 1 <= d1 <= DaysInMonth(y, m1 - 1)
    requires 1 <= m2 <= 12 && 1 <= d2 <= DaysInMonth(y, m2 - 1)
    ensures var day1, day2 := DaysBeforeMonth(y, m1 - 1) + d1, DaysBeforeMonth(y, m2 - 1) + d2;
      && (day1 < day2 <==> m1 < m2 || (m1 == m2 && d1 < d2))
      && (day1 == day2 <==> m1 == m2 && d1 == d2)
  {
    if m1 < m2 {
      DaysBeforeMonthMonotone(y, m1 - 1, m2 - 1);
    } else if m2 < m1 {
      DaysBeforeMonthMonotone(y, m2 - 1, m1 - 1);
    }
  }

  /** Minutes of (day, hour, minute) order lexicographically. */
  lemma ClockOrder(day1: int, h1: int, n1: int, day2: int, h2: int, n2: int)
    requires 0 <= h1 < 24 && 0 <= n1 < 60 && 0 <= h2 < 24 && 0 <= n2 < 60
    ensures day1 * MinutesPerDay + h1 * 60 + n1 < day2 * MinutesPerDay + h2 * 60 + n2
        <==> day1 < day2 || (day1 == day2 && (h1 < h2 || (h1 == h2 && n1 < n2)))
  {
  }

  lemma DayOfMinutes(day: int, offset: int)
    requires 0 <= offset < MinutesPerDay
    ensures (day * MinutesPerDay + offset) / MinutesPerDay == day
  {
  }

  /** The day number of an in-range instant: its minutes divided by a day's. */
  lemma InRangeDay(year: int, month: int, day: int, hour: int, minute: int)
    requires InRange(year, month, day, hour, minute)
    ensures LocalMinutes(year, month, day, hour, minute) / MinutesPerDay
         == DayFromYear(FullYear(year)) + DaysBeforeMonth(FullYear(year), month - 1) + day - 1
  {
    InRangeMinutes(year, month, day, hour, minute);
    DayOfMinutes(DayFromYear(FullYear(year)) + DaysBeforeMonth(FullYear(year), month - 1) + day - 1, hour * 60 + minute);
  }

  /** Two in-range instants of one year fall on the same day exactly when they have the
      same month and day. */
  lemma SameDayInRange(year: int, m1: int, d1: int, h1: int, n1: int, m2: int, d2: int, h2: int, n2: int)
    requires InRange(year, m1, d1, h1, n1) && InRange(year, m2, d2, h2, n2)
    ensures LocalMinutes(year, m1, d1, h1, n1) / MinutesPerDay == LocalMinutes(year, m2, d2, h2, n2) / MinutesPerDay
        <==> m1 == m2 && d1 == d2
  {
    InRangeDay(year, m1, d1, h1, n1);
    InRangeDay(year, m2, d2, h2, n2);
    DayIndexOrder(FullYear(year), m1, d1, m2, d2);
  }
}
