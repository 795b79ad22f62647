/**
 * The proleptic Gregorian calendar behind JavaScript's local `Date`, restricted
 * to what the habit tracker reads from it: the local year, month and day of
 * month. A `Date` object's time of day never reaches a date key, so it is not
 * part of this model.
 *
 * Dates are numbered by days since 0001-01-01 (a Monday); that numbering is the
 * reference against which next/previous day, the `setDate` overflow rules and
 * the `Date(year, month, day)` constructor are all proved.
 */
module Calendar {

  /** A local calendar date: `getFullYear()`, `getMonth() + 1`, `getDate()`. */
  datatype Date = Date(year: int, month: int, day: int)

  predicate IsLeapYear(y: int) {
    (y % 4 == 0 && y % 100 != 0) || y % 400 == 0
  }

  function DaysInMonth(y: int, m: int): (n: int)
    requires 1 <= m <= 12
    ensures 28 <= n <= 31
    ensures m == 2 ==> (n == 29 <==> IsLeapYear(y))
  {
    if m == 2 then (if IsLeapYear(y) then 29 else 28)
    else if m == 4 || m == 6 || m == 9 || m == 11 then 30
    else 31
  }

  /** A date that a `Date` object can hold. */
  predicate Valid(d: Date) {
    1 <= d.month <= 12 && 1 <= d.day <= DaysInMonth(d.year, d.month)
  }

  function YearLength(y: int): int {
    if IsLeapYear(y) then 366 else 365
  }

  /** Days from 0001-01-01 to January 1st of year y (negative before year 1). */
  function DaysBeforeYear(y: int): int {
    var p := y - 1;
    365 * p + p / 4 - p / 100 + p / 400
  }

  /** Days from January 1st to the first of month m of year y. */
  function DaysBeforeMonth(y: int, m: int): (n: int)
    requires 1 <= m <= 12
    ensures 0 <= n <= 335
  {
    var common :=
      if m == 1 then 0 else if m == 2 then 31 else if m == 3 then 59
      else if m == 4 then 90 else if m == 5 then 120 else if m == 6 then 151
      else if m == 7 then 181 else if m == 8 then 212 else if m == 9 then 243
      else if m == 10 then 273 else if m == 11 then 304 else 334;
    if m > 2 && IsLeapYear(y) then common + 1 else common
  }

  /** The number of d counted in days from 0001-01-01. */
  function DayNumber(d: Date): int
    requires Valid(d)
  {
    DaysBeforeYear(d.year) + DaysBeforeMonth(d.year, d.month) + d.day - 1
  }

  /** `getDay()`: 0 for Sunday, 1 for Monday, ..., 6 for Saturday. */
  function Weekday(d: Date): (w: int)
    requires Valid(d)
    ensures 0 <= w < 7
  {
    (DayNumber(d) + 1) % 7
  }

  function NextDay(d: Date): (r: Date)
    requires Valid(d)
    ensures Valid(r)
  {
    if d.day < DaysInMonth(d.year, d.month) then Date(d.year, d.month, d.day + 1)
    else if d.month < 12 then Date(d.year, d.month + 1, 1)
    else Date(d.year + 1, 1, 1)
  }

  function PrevDay(d: Date): (r: Date)
    requires Valid(d)
    ensures Valid(r)
  {
    if d.day > 1 then Date(d.year, d.month, d.day - 1)
    else if d.month > 1 then Date(d.year, d.month - 1, DaysInMonth(d.year, d.month - 1))
    else Date(d.year - 1, 12, 31)
  }

  lemma {:induction false} DaysBeforeNextYear(y: int)
    ensures DaysBeforeYear(y + 1) == DaysBeforeYear(y) + YearLength(y)
  {
    var p := y - 1;
    FloorStep4(p);
    FloorStep100(p);
    FloorStep400(p);
  }

  lemma FloorStep4(p: int)
    ensures (p + 1) / 4 == p / 4 + (if (p + 1) % 4 == 0 then 1 else 0)
  {
    var q, r := p / 4, p % 4;
    assert p == 4 * q + r;
    if r == 3 {
      assert p + 1 == 4 * (q + 1);
    } else {
      assert p + 1 == 4 * q + (r + 1);
    }
  }

  lemma FloorStep100(p: int)
    ensures (p + 1) / 100 == p / 100 + (if (p + 1) % 100 == 0 then 1 else 0)
  {
    var q, r := p / 100, p % 100;
    assert p == 100 * q + r;
    if r == 99 {
      assert p + 1 == 100 * (q + 1);
    } else {
      assert p + 1 == 100 * q + (r + 1);
    }
  }

  lemma FloorStep400(p: int)
    ensures (p + 1) / 400 == p / 400 + (if (p + 1) % 400 == 0 then 1 else 0)
  {
    var q, r := p / 400, p % 400;
    assert p == 400 * q + r;
    if r == 399 {
      assert p + 1 == 400 * (q + 1);
    } else {
      assert p + 1 == 400 * q + (r + 1);
    }
  }

  lemma DaysBeforeMonthStep(y: int, m: int)
    requires 1 <= m < 12
    ensures DaysBeforeMonth(y, m + 1) == DaysBeforeMonth(y, m) + DaysInMonth(y, m)
  {
  }

  lemma DaysBeforeDecember(y: int)
    ensures DaysBeforeMonth(y, 12) + 31 == YearLength(y)
  {
  }

  /** The day after d is numbered one more than d. */
  lemma {:induction false} NextDayNumber(d: Date)
    requires Valid(d)
    ensures DayNumber(NextDay(d)) == DayNumber(d) + 1
  {
    if d.day < DaysInMonth(d.year, d.month) {
    } else if d.month < 12 {
      DaysBeforeMonthStep(d.year, d.month);
    } else {
      DaysBeforeNextYear(d.year);
      DaysBeforeDecember(d.year);
    }
  }

  /** The day before d is numbered one less than d. */
  lemma {:induction false} PrevDayNumber(d: Date)
    requires Valid(d)
    ensures DayNumber(PrevDay(d)) == DayNumber(d) - 1
  {
    if d.day > 1 {
    } else if d.month > 1 {
      DaysBeforeMonthStep(d.year, d.month - 1);
    } else {
      DaysBeforeNextYear(d.year - 1);
      DaysBeforeDecember(d.year - 1);
    }
  }

  /** A date's number lies within its own year's span of numbers. */
  lemma {:induction false} DayNumberWithinYear(d: Date)
    requires Valid(d)
    ensures DaysBeforeYear(d.year) <= DayNumber(d) < DaysBeforeYear(d.year) + YearLength(d.year)
  {
    if d.month < 12 {
      DaysBeforeMonthStep(d.year, d.month);
      DaysBeforeMonthMonotone(d.year, d.month + 1, 12);
    }
    DaysBeforeDecember(d.year);
  }

  lemma {:induction false} DaysBeforeMonthMonotone(y: int, m1: int, m2: int)
    requires 1 <= m1 <= m2 <= 12
    ensures DaysBeforeMonth(y, m1) <= DaysBeforeMonth(y, m2)
  {
  }

  /** Every later year starts after the whole of an earlier one. */
  lemma {:induction false} DaysBeforeYearIncreasing(a: int, b: int)
    requires a < b
    ensures DaysBeforeYear(a) + YearLength(a) <= DaysBeforeYear(b)
    decreases b - a
  {
    DaysBeforeNextYear(a);
    if a + 1 < b {
      DaysBeforeYearIncreasing(a + 1, b);
    }
  }

  /** Distinct valid dates have distinct numbers. */
  lemma {:induction false} DayNumberInjective(a: Date, b: Date)
    requires Valid(a) && Valid(b)
    requires DayNumber(a) == DayNumber(b)
    ensures a == b
  {
    DayNumberWithinYear(a);
    DayNumberWithinYear(b);
    if a.year < b.year {
      DaysBeforeYearIncreasing(a.year, b.year);
    } else if b.year < a.year {
      DaysBeforeYearIncreasing(b.year, a.year);
    } else if a.month < b.month {
      DaysBeforeMonthStep(a.year, a.month);
      DaysBeforeMonthMonotone(a.year, a.month + 1, b.month);
    } else if b.month < a.month {
      DaysBeforeMonthStep(b.year, b.month);
      DaysBeforeMonthMonotone(b.year, b.month + 1, a.month);
    }
  }

  /**
   * d moved by k days, one calendar day at a time; this is what JavaScript's
   * day arithmetic does with an out-of-range day of month.
   */
  function AddDays(d: Date, k: int): (r: Date)
    requires Valid(d)
    ensures Valid(r)
    decreases if k < 0 then -k else k
  {
    if k == 0 then d
    else if k > 0 then NextDay(AddDays(d, k - 1))
    else PrevDay(AddDays(d, k + 1))
  }

  /** Moving by k days moves the day number by exactly k. */
  lemma {:induction false} AddDaysNumber(d: Date, k: int)
    requires Valid(d)
    ensures DayNumber(AddDays(d, k)) == DayNumber(d) + k
    decreases if k < 0 then -k else k
  {
    if k > 0 {
      AddDaysNumber(d, k - 1);
      NextDayNumber(AddDays(d, k - 1));
    } else if k < 0 {
      AddDaysNumber(d, k + 1);
      PrevDayNumber(AddDays(d, k + 1));
    }
  }

  /** Moving by a then by b is moving by a + b. */
  lemma AddDaysAdd(d: Date, a: int, b: int)
    requires Valid(d)
    ensures AddDays(AddDays(d, a), b) == AddDays(d, a + b)
  {
    AddDaysNumber(d, a);
    AddDaysNumber(AddDays(d, a), b);
    AddDaysNumber(d, a + b);
    DayNumberInjective(AddDays(AddDays(d, a), b), AddDays(d, a + b));
  }

  lemma NextDayIsAddOne(d: Date)
    requires Valid(d)
    ensures NextDay(d) == AddDays(d, 1)
  {
    AddDaysNumber(d, 1);
    NextDayNumber(d);
    DayNumberInjective(NextDay(d), AddDays(d, 1));
  }

  /** The weekday advances by one, modulo 7, with every day. */
  lemma WeekdayAddDays(d: Date, k: int)
    requires Valid(d)
    ensures Weekday(AddDays(d, k)) == (Weekday(d) + k) % 7
  {
    var n := DayNumber(d);
    AddDaysNumber(d, k);
    WeekdayOfNumber(d, n);
    WeekdayOfNumber(AddDays(d, k), n + k);
    ModSevenShift(n + 1, k);
  }

  /** The weekday of a date is read off its day number. */
  lemma WeekdayOfNumber(d: Date, n: int)
    requires Valid(d) && DayNumber(d) == n
    ensures Weekday(d) == (n + 1) % 7
  {
  }

  lemma ModSevenShift(a: int, k: int)
    ensures (a + k) % 7 == (a % 7 + k) % 7
  {
    var q := a / 7;
    assert a + k == 7 * q + (a % 7 + k);
  }

  /**
   * `d.setDate(x)`: the first of d's month moved by x - 1 days, so that x = 0
   * is the last day of the previous month and x past the month's end runs on
   * into the next one.
   */
  function SetDate(d: Date, x: int): (r: Date)
    requires Valid(d)
    ensures Valid(r)
  {
    AddDays(Date(d.year, d.month, 1), x - 1)
  }

  /** `d.setDate(d.getDate() + k)` moves d by exactly k days. */
  lemma SetDateShift(d: Date, k: int)
    requires Valid(d)
    ensures SetDate(d, d.day + k) == AddDays(d, k)
  {
    var first := Date(d.year, d.month, 1);
    AddDaysNumber(first, d.day + k - 1);
    AddDaysNumber(d, k);
    DayNumberInjective(SetDate(d, d.day + k), AddDays(d, k));
  }

  /** The `Date(year, monthIndex, day)` constructor reads years 0 to 99 as 1900 to 1999. */
  function FullYear(year: int): int {
    if 0 <= year <= 99 then 1900 + year else year
  }

  /**
   * The first day of month `monthIndex` (0 for January) of `year`, as the
   * `Date` constructor resolves it: a month index outside 0..11 carries into
   * the year (floor division, so -1 is December of the year before).
   */
  function MonthStart(year: int, monthIndex: int): (r: Date)
    ensures Valid(r) && r.day == 1
    ensures r.year == FullYear(year) + monthIndex / 12
    ensures r.month - 1 == monthIndex % 12
  {
    Date(FullYear(year) + monthIndex / 12, monthIndex % 12 + 1, 1)
  }

  /** `new Date(year, monthIndex, day)`: day 1 of the month moved by day - 1 days. */
  function MakeDate(year: int, monthIndex: int, day: int): (r: Date)
    ensures Valid(r)
  {
    AddDays(MonthStart(year, monthIndex), day - 1)
  }

  /** The month after a month starts the day after that month's last day. */
  lemma MonthStartNext(year: int, monthIndex: int)
    ensures var s := MonthStart(year, monthIndex);
            MonthStart(year, monthIndex + 1) == NextDay(Date(s.year, s.month, DaysInMonth(s.year, s.month)))
  {
    if monthIndex % 12 < 11 {
      assert (monthIndex + 1) / 12 == monthIndex / 12;
    } else {
      assert (monthIndex + 1) / 12 == monthIndex / 12 + 1;
    }
  }

  /** A day index within the month's length names that day of the month. */
  lemma MakeDateInMonth(year: int, monthIndex: int, day: int)
    requires var s := MonthStart(year, monthIndex); 1 <= day <= DaysInMonth(s.year, s.month)
    ensures var s := MonthStart(year, monthIndex); MakeDate(year, monthIndex, day) == Date(s.year, s.month, day)
  {
    var s := MonthStart(year, monthIndex);
    AddDaysNumber(s, day - 1);
    DayNumberInjective(MakeDate(year, monthIndex, day), Date(s.year, s.month, day));
  }

  /** Day 0 of the next month is the last day of this month. */
  lemma {:induction false} DayZeroOfNextMonth(year: int, monthIndex: int)
    ensures var s := MonthStart(year, monthIndex);
            MakeDate(year, monthIndex + 1, 0) == Date(s.year, s.month, DaysInMonth(s.year, s.month))
  {
    var s := MonthStart(year, monthIndex);
    var last := Date(s.year, s.month, DaysInMonth(s.year, s.month));
    MonthStartNext(year, monthIndex);
    NextDayNumber(last);
    AddDaysNumber(MonthStart(year, monthIndex + 1), -1);
    DayNumberInjective(MakeDate(year, monthIndex + 1, 0), last);
  }
}
