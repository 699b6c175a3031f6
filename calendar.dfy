/**
 * Calendar arithmetic of the JavaScript `Date` object, on whole days.
 *
 * A date is an integer day number: the number of days since 1970-01-01
 * (day 0, a Thursday), negative before it. The functions follow the day
 * arithmetic of section 21.4.1 of ECMA-262 (DayFromYear, InLeapYear,
 * MonthFromTime, DateFromTime, WeekDay, MakeDay) over the proleptic
 * Gregorian calendar. Months are numbered 0 (January) to 11 (December)
 * and days of the month from 1, as `getMonth` and `getDate` return them.
 */
module Calendar {

  /** The (year, month, date) triple that `toDateString` prints. */
  datatype CivilDate = CivilDate(year: int, month: int, day: int)

  /** Gregorian leap rule: every fourth year, except centuries not divisible by 400. */
  predicate IsLeapYear(y: int) {
    y % 4 == 0 && (y % 100 != 0 || y % 400 == 0)
  }

  function DaysInYear(y: int): int {
    if IsLeapYear(y) then 366 else 365
  }

  /**
   * Day number of January 1st of year `y`, counted year by year from 1970.
   * DayFromYearClosedForm shows it is ECMA-262's DayFromYear formula.
   */
  function DayFromYear(y: int): int
    decreases if y < 1970 then 1970 - y else y - 1970
  {
    if y == 1970 then 0
    else if 1970 < y then DayFromYear(y - 1) + DaysInYear(y - 1)
    else DayFromYear(y + 1) - DaysInYear(y)
  }

  /** ECMA-262 DayFromYear, with floor division. */
  function DayFromYearFormula(y: int): int {
    365 * (y - 1970) + (y - 1969) / 4 - (y - 1901) / 100 + (y - 1601) / 400
  }

  /** Days of year `y` that precede month `m`; `m == 12` gives the whole year. */
  function DaysBeforeMonth(y: int, m: int): int
    requires 0 <= m <= 12
  {
    var leap := if IsLeapYear(y) then 1 else 0;
    if m == 0 then 0
    else if m == 1 then 31
    else if m == 2 then 59 + leap
    else if m == 3 then 90 + leap
    else if m == 4 then 120 + leap
    else if m == 5 then 151 + leap
    else if m == 6 then 181 + leap
    else if m == 7 then 212 + leap
    else if m == 8 then 243 + leap
    else if m == 9 then 273 + leap
    else if m == 10 then 304 + leap
    else if m == 11 then 334 + leap
    else 365 + leap
  }

  /** Length of month `m` of year `y`: February follows the leap rule, every other month has 30 or 31 days. */
  function DaysInMonth(y: int, m: int): (n: int)
    requires 0 <= m < 12
    ensures m == 1 ==> n == (if IsLeapYear(y) then 29 else 28)
    ensures m != 1 ==> n == 30 || n == 31
    ensures DaysBeforeMonth(y, m) + n == DaysBeforeMonth(y, m + 1)
  {
    DaysBeforeMonth(y, m + 1) - DaysBeforeMonth(y, m)
  }

  /** A triple that names an existing day. */
  predicate IsValidCivil(c: CivilDate) {
    0 <= c.month < 12 && 1 <= c.day <= DaysInMonth(c.year, c.month)
  }

  /**
   * ECMA-262 MakeDay: the day `date` of month `month` of year `year`, where
   * an out-of-range month carries into the year (floor division) and an
   * out-of-range date carries into the following or preceding months.
   */
  function MakeDay(year: int, month: int, date: int): int {
    var ym := year + month / 12;
    var mn := month % 12;
    DayFromYear(ym) + DaysBeforeMonth(ym, mn) + date - 1
  }

  /** The year rule of the `Date ( ...values )` constructor (section 21.4.2.1 of ECMA-262): a year 0..99 means 1900..1999. */
  function ConstructorYear(y: int): int {
    if 0 <= y <= 99 then 1900 + y else y
  }

  /** `new Date(year, month, date)`, truncated to its day. */
  function NewDate(year: int, month: int, date: int): int {
    MakeDay(ConstructorYear(year), month, date)
  }

  // ---------------------------------------------------------------------
  // Year boundaries

  /** Consecutive New Year days lie a year's length apart. */
  lemma DayFromYearStep(y: int)
    ensures DayFromYear(y + 1) == DayFromYear(y) + DaysInYear(y)
  {
  }

  /** For the divisors of the leap rule, `a == d * q + r` with `0 <= r < d` determines the quotient and remainder. */
  lemma DivMod(a: int, d: int, q: int, r: int)
    requires d == 4 || d == 100 || d == 400
    requires a == d * q + r && 0 <= r < d
    ensures a / d == q && a % d == r
  {
    if d == 4 {
      assert a == 4 * q + r;
    } else if d == 100 {
      assert a == 100 * q + r;
    } else {
      assert a == 400 * q + r;
    }
  }

  /** The leap-day counts of the formula grow by one exactly in the years the leap rule singles out. */
  lemma LeapCountStep(y: int)
    ensures (y - 1968) / 4 == (y - 1969) / 4 + (if y % 4 == 0 then 1 else 0)
    ensures (y - 1900) / 100 == (y - 1901) / 100 + (if y % 100 == 0 then 1 else 0)
    ensures (y - 1600) / 400 == (y - 1601) / 400 + (if y % 400 == 0 then 1 else 0)
  {
    var q, r := (y - 1969) / 4, (y - 1969) % 4;
    if r == 3 {
      DivMod(y - 1968, 4, q + 1, 0);
      DivMod(y, 4, q + 493, 0);
    } else {
      DivMod(y - 1968, 4, q, r + 1);
      DivMod(y, 4, q + 492, r + 1);
    }
    q, r := (y - 1901) / 100, (y - 1901) % 100;
    if r == 99 {
      DivMod(y - 1900, 100, q + 1, 0);
      DivMod(y, 100, q + 20, 0);
    } else {
      DivMod(y - 1900, 100, q, r + 1);
      DivMod(y, 100, q + 19, r + 1);
    }
    q, r := (y - 1601) / 400, (y - 1601) % 400;
    if r == 399 {
      DivMod(y - 1600, 400, q + 1, 0);
      DivMod(y, 400, q + 5, 0);
    } else {
      DivMod(y - 1600, 400, q, r + 1);
      DivMod(y, 400, q + 4, r + 1);
    }
  }

  /** The divisors of the leap rule are nested: 400 | y implies 100 | y implies 4 | y. */
  lemma LeapDivisorsNested(y: int)
    ensures y % 400 == 0 ==> y % 100 == 0
    ensures y % 100 == 0 ==> y % 4 == 0
  {
    if y % 400 == 0 {
      DivMod(y, 100, 4 * (y / 400), 0);
    }
    if y % 100 == 0 {
      DivMod(y, 4, 25 * (y / 100), 0);
    }
  }

  /** ECMA-262's formula grows by a year's length from one year to the next. */
  lemma DayFromYearFormulaStep(y: int)
    ensures DayFromYearFormula(y + 1) == DayFromYearFormula(y) + DaysInYear(y)
  {
    LeapCountStep(y);
    LeapDivisorsNested(y);
    assert DayFromYearFormula(y + 1) == 365 * (y - 1969) + (y - 1968) / 4 - (y - 1900) / 100 + (y - 1600) / 400;
  }

  /** The year-by-year count agrees with ECMA-262's closed formula for every year. */
  lemma {:induction false} DayFromYearClosedForm(y: int)
    ensures DayFromYear(y) == DayFromYearFormula(y)
    decreases if y < 1970 then 1970 - y else y - 1970
  {
    if 1970 < y {
      DayFromYearClosedForm(y - 1);
      DayFromYearFormulaStep(y - 1);
    } else if y < 1970 {
      DayFromYearClosedForm(y + 1);
      DayFromYearFormulaStep(y);
    }
  }

  /** DayFromYear is strictly increasing, by at least 365 days per year. */
  lemma {:induction false} DayFromYearIncreasing(a: int, b: int)
    requires a <= b
    ensures DayFromYear(a) + 365 * (b - a) <= DayFromYear(b)
    decreases b - a
  {
    if a < b {
      DayFromYearIncreasing(a, b - 1);
      DayFromYearStep(b - 1);
    }
  }

  /** Searches upwards for the year holding day `t` (ECMA-262 YearFromTime). */
  function YearSearchUp(y: int, t: int): (r: int)
    requires DayFromYear(y) <= t
    ensures DayFromYear(r) <= t < DayFromYear(r + 1)
    decreases t - DayFromYear(y)
  {
    DayFromYearStep(y);
    if t < DayFromYear(y + 1) then y else YearSearchUp(y + 1, t)
  }

  /** Searches downwards for the year holding day `t`. */
  function YearSearchDown(y: int, t: int): (r: int)
    requires t < DayFromYear(y + 1)
    ensures DayFromYear(r) <= t < DayFromYear(r + 1)
    decreases DayFromYear(y + 1) - t
  {
    DayFromYearStep(y);
    if DayFromYear(y) <= t then y else YearSearchDown(y - 1, t)
  }

  /** The year that contains day `t`: the largest `y` with DayFromYear(y) <= t. */
  function YearFromDay(t: int): (y: int)
    ensures DayFromYear(y) <= t < DayFromYear(y + 1)
  {
    if 0 <= t then YearSearchUp(1970, t) else YearSearchDown(1969, t)
  }

  /** A day belongs to exactly one year. */
  lemma YearFromDayUnique(y: int, t: int)
    requires DayFromYear(y) <= t < DayFromYear(y + 1)
    ensures YearFromDay(t) == y
  {
    var z := YearFromDay(t);
    if z < y {
      DayFromYearIncreasing(z + 1, y);
    } else if y < z {
      DayFromYearIncreasing(y + 1, z);
    }
  }

  // ---------------------------------------------------------------------
  // Month and date within a year

  /** Searches the month of year `y` that holds its `dy`-th day (counted from 0). */
  function MonthSearch(y: int, dy: int, m: int): (r: int)
    requires 0 <= m < 12
    requires DaysBeforeMonth(y, m) <= dy < DaysInYear(y)
    ensures m <= r < 12
    ensures DaysBeforeMonth(y, r) <= dy < DaysBeforeMonth(y, r + 1)
    decreases 12 - m
  {
    if m == 11 || dy < DaysBeforeMonth(y, m + 1) then m else MonthSearch(y, dy, m + 1)
  }

  /** Day of the year of day `t`, counted from 0. */
  function DayWithinYear(t: int): (dy: int)
    ensures 0 <= dy < DaysInYear(YearFromDay(t))
  {
    DayFromYearStep(YearFromDay(t));
    t - DayFromYear(YearFromDay(t))
  }

  /** ECMA-262 MonthFromTime, on days: `getMonth`. */
  function MonthFromDay(t: int): (m: int)
    ensures 0 <= m < 12
  {
    MonthSearch(YearFromDay(t), DayWithinYear(t), 0)
  }

  /** ECMA-262 DateFromTime, on days: `getDate`. */
  function DateFromDay(t: int): int {
    DayWithinYear(t) - DaysBeforeMonth(YearFromDay(t), MonthFromDay(t)) + 1
  }

  /** ECMA-262 WeekDay: 0 is Sunday; day 0 (1970-01-01) is a Thursday. */
  function WeekDay(t: int): (w: int)
    ensures 0 <= w < 7
    ensures t == 0 ==> w == 4
  {
    (t + 4) % 7
  }

  /** Consecutive days have consecutive weekdays, Saturday (6) wrapping round to Sunday (0). */
  lemma WeekDayStep(t: int)
    ensures WeekDay(t + 1) == (WeekDay(t) + 1) % 7
    ensures WeekDay(t + 7) == WeekDay(t)
  {
  }

  /** The calendar day of `t`, the part of a date that `toDateString` prints. */
  function CalendarDay(t: int): CivilDate {
    CivilDate(YearFromDay(t), MonthFromDay(t), DateFromDay(t))
  }

  /** The month found for `t` is the one whose span holds t's day of the year. */
  lemma MonthFromDaySpan(t: int)
    ensures DaysBeforeMonth(YearFromDay(t), MonthFromDay(t)) <= DayWithinYear(t)
    ensures DayWithinYear(t) < DaysBeforeMonth(YearFromDay(t), MonthFromDay(t) + 1)
  {
  }

  /** Every day number names an existing calendar day. */
  lemma CalendarDayValid(t: int)
    ensures IsValidCivil(CalendarDay(t))
  {
    var y, m, dy := YearFromDay(t), MonthFromDay(t), DayWithinYear(t);
    MonthFromDaySpan(t);
    assert DateFromDay(t) == dy - DaysBeforeMonth(y, m) + 1;
    assert DaysBeforeMonth(y, m) + DaysInMonth(y, m) == DaysBeforeMonth(y, m + 1);
  }

  /** Two dates compare equal under `toDateString`. */
  predicate SameCalendarDay(a: int, b: int) {
    CalendarDay(a) == CalendarDay(b)
  }

  /** `date.setDate(dt)`: keep the year and month, move to day `dt` of them (no two-digit year rule here). */
  function SetDate(t: int, dt: int): int {
    MakeDay(YearFromDay(t), MonthFromDay(t), dt)
  }

  // ---------------------------------------------------------------------
  // Round trips between day numbers and calendar days

  /** The day number rebuilt from a day's own year, month and date is that day. */
  lemma MakeDayOfCalendarDay(t: int)
    ensures MakeDay(YearFromDay(t), MonthFromDay(t), DateFromDay(t)) == t
  {
    var y, m := YearFromDay(t), MonthFromDay(t);
    assert y + m / 12 == y && m % 12 == m;
  }

  /** Month boundaries within one year are strictly increasing. */
  lemma DaysBeforeMonthIncreasing(y: int, a: int, b: int)
    requires 0 <= a <= b <= 12
    ensures DaysBeforeMonth(y, a) + (b - a) * 28 <= DaysBeforeMonth(y, b)
  {
  }

  /** For a month index in range, MakeDay adds no carry. */
  lemma MakeDayInYear(y: int, m: int, d: int)
    requires 0 <= m < 12
    ensures MakeDay(y, m, d) == DayFromYear(y) + DaysBeforeMonth(y, m) + d - 1
  {
    assert m / 12 == 0 && m % 12 == m;
  }

  /** A day of the year lies in exactly one month. */
  lemma MonthFromDayUnique(t: int, m: int)
    requires 0 <= m < 12
    requires DaysBeforeMonth(YearFromDay(t), m) <= DayWithinYear(t) < DaysBeforeMonth(YearFromDay(t), m + 1)
    ensures MonthFromDay(t) == m
  {
    var y, r := YearFromDay(t), MonthFromDay(t);
    if r < m {
      DaysBeforeMonthIncreasing(y, r + 1, m);
    } else if m < r {
      DaysBeforeMonthIncreasing(y, m + 1, r);
    }
  }

  /** Reading back the calendar day of MakeDay(y, m, d) gives (y, m, d) for every valid triple. */
  lemma CalendarDayOfMakeDay(y: int, m: int, d: int)
    requires IsValidCivil(CivilDate(y, m, d))
    ensures CalendarDay(MakeDay(y, m, d)) == CivilDate(y, m, d)
  {
    var t := MakeDay(y, m, d);
    MakeDayInYear(y, m, d);
    DaysBeforeMonthIncreasing(y, m + 1, 12);
    DayFromYearStep(y);
    YearFromDayUnique(y, t);
    assert DayWithinYear(t) == DaysBeforeMonth(y, m) + d - 1;
    MonthFromDayUnique(t, m);
  }

  /** Comparing by `toDateString` is comparing day numbers. */
  lemma SameCalendarDayIff(a: int, b: int)
    ensures SameCalendarDay(a, b) <==> a == b
  {
    if SameCalendarDay(a, b) {
      MakeDayOfCalendarDay(a);
      MakeDayOfCalendarDay(b);
    }
  }

  /**
   * "Day 0 of the next month" is the last day of this month, also across
   * the year end, and its date is the month's length.
   */
  lemma LastDayOfMonth(y: int, m: int)
    requires 0 <= m < 12
    ensures MakeDay(y, m + 1, 0) == MakeDay(y, m, DaysInMonth(y, m))
    ensures DateFromDay(MakeDay(y, m + 1, 0)) == DaysInMonth(y, m)
  {
    var n := DaysInMonth(y, m);
    MakeDayInYear(y, m, n);
    if m == 11 {
      assert MakeDay(y, m + 1, 0) == DayFromYear(y + 1) - 1;
      DayFromYearStep(y);
    } else {
      MakeDayInYear(y, m + 1, 0);
    }
    assert IsValidCivil(CivilDate(y, m, n));
    CalendarDayOfMakeDay(y, m, n);
    assert DateFromDay(MakeDay(y, m, n)) == CalendarDay(MakeDay(y, m, n)).day;
  }

  /** `d.setDate(d.getDate() + k)` moves `d` exactly `k` days, across month and year ends. */
  lemma SetDateAdvance(t: int, k: int)
    ensures SetDate(t, DateFromDay(t) + k) == t + k
  {
    MakeDayOfCalendarDay(t);
    MakeDayOffset(YearFromDay(t), MonthFromDay(t), DateFromDay(t));
    MakeDayOffset(YearFromDay(t), MonthFromDay(t), DateFromDay(t) + k);
  }

  /** `d.setDate(d.getDate() + k)` on a `Date` object `d` holding day `t`: the date moves exactly `k` days on. */
  method AdvanceDays(t: int, k: int) returns (r: int)
    ensures r == t + k
  {
    SetDateAdvance(t, k);
    r := SetDate(t, DateFromDay(t) + k);
  }

  /** Day `d` of a month lies `d - 1` days after its 1st. */
  lemma MakeDayOffset(y: int, m: int, d: int)
    ensures MakeDay(y, m, d) == MakeDay(y, m, 1) + (d - 1)
  {
  }

  /** The days of month `m` of year `y` are the DaysInMonth(y, m) consecutive day numbers from its 1st. */
  lemma MonthSpan(y: int, m: int, t: int)
    requires 0 <= m < 12
    ensures YearFromDay(t) == y && MonthFromDay(t) == m <==> MakeDay(y, m, 1) <= t < MakeDay(y, m, 1) + DaysInMonth(y, m)
  {
    var first := MakeDay(y, m, 1);
    if YearFromDay(t) == y && MonthFromDay(t) == m {
      var d := DateFromDay(t);
      CalendarDayValid(t);
      assert 1 <= d <= DaysInMonth(y, m);
      MakeDayOfCalendarDay(t);
      assert MakeDay(y, m, d) == t;
      MakeDayOffset(y, m, d);
    }
    if first <= t < first + DaysInMonth(y, m) {
      var d := t - first + 1;
      MakeDayOffset(y, m, d);
      assert MakeDay(y, m, d) == t;
      CalendarDayOfMakeDay(y, m, d);
      assert CalendarDay(t) == CivilDate(y, m, d);
    }
  }

  /** The day `i` days after the 1st of a month, within that month, is day `i + 1` of it. */
  lemma CalendarDayOfMonthOffset(y: int, m: int, i: int)
    requires 0 <= m < 12 && 0 <= i < DaysInMonth(y, m)
    ensures CalendarDay(MakeDay(y, m, 1) + i) == CivilDate(y, m, i + 1)
  {
    MakeDayOffset(y, m, i + 1);
    CalendarDayOfMakeDay(y, m, i + 1);
  }

  /** Years that the `Date` constructor takes literally. */
  predicate KeepsYear(y: int) {
    y < 0 || 99 < y
  }
}
