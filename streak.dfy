/**
 * The date and streak functions of `src/utils/streak.ts`: date keys, the
 * current week, the month grid of the statistics screen, whether a day is
 * complete, and the current streak.
 */
module Streak {
  import opened Wrappers
  import opened JsText
  import opened Calendar
  import opened Lists

  /** The completion log: date key to the ids of the habits done that day. */
  type Log = map<string, seq<string>>

  /** A cell of the month grid: a date key, or `None` for an empty pad. */
  type Cell = Option<string>

  /** Number of cells in the month grid: 6 rows of 7 days. */
  const GridCells := 42

  // ---------------------------------------------------------------- date keys

  /**
   * `getDateKey(d)`: the unpadded year, then month and day as two digits each
   * (`String(n).padStart(2, '0')`, see `TwoDigitsIsPadStart`), joined by '-'.
   */
  function DateKey(d: Date): string
    requires Valid(d)
  {
    IntToString(d.year) + "-" + TwoDigits(d.month) + "-" + TwoDigits(d.day)
  }

  /**
   * A key ends in a fixed-width "-MM-DD" whose digits denote the month and the
   * day; all before it is the year's numeral.
   */
  lemma DateKeyLayout(d: Date)
    requires Valid(d)
    ensures var k := DateKey(d);
      && |k| == |IntToString(d.year)| + 6
      && k[..|k| - 6] == IntToString(d.year)
      && k[|k| - 6] == '-' && k[|k| - 3] == '-'
      && AllDigits(k[|k| - 5..|k| - 3]) && DigitsValue(k[|k| - 5..|k| - 3]) == d.month
      && AllDigits(k[|k| - 2..]) && DigitsValue(k[|k| - 2..]) == d.day
  {
    var k := DateKey(d);
    var y := IntToString(d.year);
    assert k[..|k| - 6] == y;
    assert k[|k| - 5..|k| - 3] == TwoDigits(d.month);
    assert k[|k| - 2..] == TwoDigits(d.day);
  }

  /** Different dates have different keys, for every year. */
  lemma DateKeyInjective(a: Date, b: Date)
    requires Valid(a) && Valid(b)
    requires DateKey(a) == DateKey(b)
    ensures a == b
  {
    var sa := "-" + TwoDigits(a.month) + "-" + TwoDigits(a.day);
    var sb := "-" + TwoDigits(b.month) + "-" + TwoDigits(b.day);
    assert DateKey(a) == IntToString(a.year) + sa;
    assert DateKey(b) == IntToString(b.year) + sb;
    SplitSuffix(IntToString(a.year), sa, IntToString(b.year), sb);
    IntToStringInjective(a.year, b.year);
    assert sa[1..3] == TwoDigits(a.month) && sa[4..] == TwoDigits(a.day);
    assert sb[1..3] == TwoDigits(b.month) && sb[4..] == TwoDigits(b.day);
  }

  /** The value of four decimal digits. */
  lemma FourDigitsValue(s: string)
    requires |s| == 4 && AllDigits(s)
    ensures DigitsValue(s) == 1000 * DigitValue(s[0]) + 100 * DigitValue(s[1]) + 10 * DigitValue(s[2]) + DigitValue(s[3])
  {
    var s3, s2, s1 := s[..3], s[..2], s[..1];
    assert s1[..0] == [] && s1[0] == s[0];
    assert DigitsValue(s1) == DigitValue(s[0]);
    assert s2[..1] == s1 && s2[1] == s[1];
    assert DigitsValue(s2) == 10 * DigitValue(s[0]) + DigitValue(s[1]);
    assert s3[..2] == s2 && s3[2] == s[2];
    assert DigitsValue(s3) == 100 * DigitValue(s[0]) + 10 * DigitValue(s[1]) + DigitValue(s[2]);
  }

  /** The numeral of a four-digit year has four characters. */
  lemma FourDigitYear(y: int)
    requires 1000 <= y <= 9999
    ensures |IntToString(y)| == 4
  {
    assert |NatToString(y / 10 / 10 / 10)| == 1;
    assert |NatToString(y / 10 / 10)| == 2;
    assert |NatToString(y / 10)| == 3;
  }

  /**
   * `new Date(key)` for a key in the ISO 8601 calendar-date form YYYY-MM-DD,
   * taken as the calendar date it names; `None` for any other string or a date
   * that does not exist.
   */
  function ParseKey(s: string): (r: Option<Date>)
    ensures r.Some? ==> Valid(r.value) && 0 <= r.value.year <= 9999
  {
    if |s| == 10 && s[4] == '-' && s[7] == '-'
       && AllDigits(s[..4]) && AllDigits(s[5..7]) && AllDigits(s[8..])
    then
      FourDigitsValue(s[..4]);
      var d := Date(DigitsValue(s[..4]), DigitsValue(s[5..7]), DigitsValue(s[8..]));
      if Valid(d) then Some(d) else None
    else None
  }

  /** What a successful parse has read. */
  lemma ParseKeyFields(s: string)
    requires ParseKey(s).Some?
    ensures |s| == 10 && s[4] == '-' && s[7] == '-'
    ensures AllDigits(s[..4]) && AllDigits(s[5..7]) && AllDigits(s[8..])
    ensures ParseKey(s).value == Date(DigitsValue(s[..4]), DigitsValue(s[5..7]), DigitsValue(s[8..]))
  {
  }

  /**
   * For four-digit years a key has the RFC 3339 full-date shape (section 5.6):
   * ten characters, '-' at positions 4 and 7, digits elsewhere; and parsing it
   * gives the date back.
   */
  lemma KeyThenParse(d: Date)
    requires Valid(d) && 1000 <= d.year <= 9999
    ensures var k := DateKey(d);
      && |k| == 10 && k[4] == '-' && k[7] == '-'
      && AllDigits(k[..4]) && AllDigits(k[5..7]) && AllDigits(k[8..])
      && ParseKey(k) == Some(d)
  {
    FourDigitYear(d.year);
    DateKeyLayout(d);
    var k := DateKey(d);
    assert k[..4] == IntToString(d.year);
  }

  /**
   * A well-formed key of a four-digit year at least 1000 is the key of the date
   * it parses to. (For years below 1000 the key's year is unpadded, so the
   * zero-padded string is not a key.)
   */
  lemma ParseThenKey(s: string)
    requires ParseKey(s).Some? && ParseKey(s).value.year >= 1000
    ensures DateKey(ParseKey(s).value) == s
  {
    ParseKeyFields(s);
    var d := ParseKey(s).value;
    var y, m, dd := s[..4], s[5..7], s[8..];
    YearNumeral(y);
    TwoDigitsOfDigits(m);
    TwoDigitsOfDigits(dd);
    assert s == y + "-" + m + "-" + dd;
  }

  lemma YearNumeral(y: string)
    requires |y| == 4 && AllDigits(y) && DigitsValue(y) >= 1000
    ensures IntToString(DigitsValue(y)) == y
  {
    FourDigitsValue(y);
    NatToStringOfDigits(y);
  }

  // -------------------------------------------------------------- current week

  /** The Monday on or before d. */
  function MondayOf(d: Date): (m: Date)
    requires Valid(d)
    ensures Valid(m)
  {
    AddDays(d, -((Weekday(d) + 6) % 7))
  }

  /** The Monday of d's week is a Monday, and at most six days before d. */
  lemma MondayOfWeek(d: Date)
    requires Valid(d)
    ensures Weekday(MondayOf(d)) == 1
    ensures DayNumber(MondayOf(d)) == DayNumber(d) - (Weekday(d) + 6) % 7
    ensures DayNumber(d) - 6 <= DayNumber(MondayOf(d)) <= DayNumber(d)
  {
    var back := (Weekday(d) + 6) % 7;
    var m := AddDays(d, -back);
    assert MondayOf(d) == m;
    var n := DayNumber(d);
    AddDaysNumber(d, -back);
    WeekdayOfNumber(d, n);
    WeekdayOfNumber(m, n - back);
    MondayNumber(n);
  }

  /** Stepping back (w + 6) % 7 days from a day of weekday w = (n + 1) % 7 lands on weekday 1. */
  lemma MondayNumber(n: int)
    ensures (n - ((n + 1) % 7 + 6) % 7 + 1) % 7 == 1
  {
    var q, w := (n + 1) / 7, (n + 1) % 7;
    assert n + 1 == 7 * q + w;
    if w == 0 {
      assert n - 6 + 1 == 7 * (q - 1) + 1;
    } else {
      assert n - (w - 1) + 1 == 7 * q + 1;
    }
  }

  /** Moving forward from the Monday by the days walked back returns to d. */
  lemma BackToToday(d: Date)
    requires Valid(d)
    ensures AddDays(MondayOf(d), (Weekday(d) + 6) % 7) == d
  {
    var back := (Weekday(d) + 6) % 7;
    var m := AddDays(d, -back);
    assert MondayOf(d) == m;
    AddDaysNumber(d, -back);
    AddDaysNumber(m, back);
    DayNumberInjective(AddDays(m, back), d);
  }

  /** The n consecutive days from start on. */
  function DaysFrom(start: Date, n: nat): (days: seq<Date>)
    requires Valid(start)
    ensures |days| == n
    ensures forall d <- days :: Valid(d)
  {
    if n == 0 then [] else DaysFrom(start, n - 1) + [AddDays(start, n - 1)]
  }

  lemma {:induction false} DaysFromAt(start: Date, n: nat, i: nat)
    requires Valid(start) && i < n
    ensures DaysFrom(start, n)[i] == AddDays(start, i)
  {
    if i < n - 1 {
      DaysFromAt(start, n - 1, i);
    }
  }

  /** The date keys of a list of dates, in order. */
  function Keys(days: seq<Date>): (keys: seq<string>)
    requires forall d <- days :: Valid(d)
    ensures |keys| == |days|
  {
    if |days| == 0 then [] else Keys(days[..|days| - 1]) + [DateKey(days[|days| - 1])]
  }

  lemma {:induction false} KeysAt(days: seq<Date>, i: nat)
    requires forall d <- days :: Valid(d)
    requires i < |days|
    ensures Keys(days)[i] == DateKey(days[i])
  {
    if i < |days| - 1 {
      KeysAt(days[..|days| - 1], i);
    }
  }

  lemma KeysSnoc(days: seq<Date>, d: Date)
    requires forall e <- days :: Valid(e)
    requires Valid(d)
    ensures Keys(days + [d]) == Keys(days) + [DateKey(d)]
  {
    assert (days + [d])[..|days|] == days;
  }

  /**
   * `getWeekDateKeys()`, with the clock reading passed in as `now`: the keys
   * of the seven days from the Monday on or before now.
   */
  method WeekDateKeys(now: Date) returns (keys: seq<string>)
    requires Valid(now)
    ensures keys == Keys(DaysFrom(MondayOf(now), 7))
  {
    var dayOfWeek := Weekday(now);
    var mondayOffset := if dayOfWeek == 0 then -6 else 1 - dayOfWeek;
    var monday := SetDate(now, now.day + mondayOffset);
    SetDateShift(now, mondayOffset);
    assert monday == MondayOf(now);
    keys := [];
    for i := 0 to 7
      invariant keys == Keys(DaysFrom(monday, i))
    {
      var d := SetDate(monday, monday.day + i);
      SetDateShift(monday, i);
      KeysSnoc(DaysFrom(monday, i), d);
      keys := keys + [DateKey(d)];
    }
  }

  /**
   * The week's keys are those of Monday (weekday 1) to Sunday (weekday 0), in
   * order, each day the one after the day before.
   */
  lemma WeekKeys(now: Date, i: nat)
    requires Valid(now) && i < 7
    ensures var m := MondayOf(now);
      && |Keys(DaysFrom(m, 7))| == 7
      && Keys(DaysFrom(m, 7))[i] == DateKey(AddDays(m, i))
      && Weekday(AddDays(m, i)) == (i + 1) % 7
      && (i < 6 ==> AddDays(m, i + 1) == NextDay(AddDays(m, i)))
  {
    var m := MondayOf(now);
    MondayOfWeek(now);
    DaysFromAt(m, 7, i);
    KeysAt(DaysFrom(m, 7), i);
    WeekdayAddDays(m, i);
    NextDayIsAddOne(AddDays(m, i));
    AddDaysAdd(m, i, 1);
  }

  /** Today's key sits at index (getDay() + 6) % 7 of its week: Monday 0, ..., Sunday 6. */
  lemma TodayInWeek(now: Date)
    requires Valid(now)
    ensures Keys(DaysFrom(MondayOf(now), 7))[(Weekday(now) + 6) % 7] == DateKey(now)
  {
    var back := (Weekday(now) + 6) % 7;
    var days := DaysFrom(MondayOf(now), 7);
    BackToToday(now);
    DaysFromAt(MondayOf(now), 7, back);
    assert days[back] == now;
    KeysAt(days, back);
  }

  // ------------------------------------------------------------ day complete

  /** `completions[key] ?? []`: an absent key reads as an empty list. */
  function Entry(log: Log, key: string): seq<string> {
    if key in log then log[key] else []
  }

  /** `ids.every(id => done.includes(id))`. */
  function AllIncluded(ids: seq<string>, done: seq<string>): (b: bool)
    ensures b <==> forall i :: 0 <= i < |ids| ==> ids[i] in done
  {
    ids == [] || (ids[0] in done && AllIncluded(ids[1..], done))
  }

  /**
   * `isDayComplete`: every habit id is among those done on the day; a day with
   * no habits to do is never complete.
   */
  predicate IsDayComplete(dateKey: string, habitIds: seq<string>, completions: Log) {
    if |habitIds| == 0 then false
    else AllIncluded(habitIds, Entry(completions, dateKey))
  }

  /**
   * A day is complete exactly when there is at least one habit and every
   * habit id is among those done that day.
   */
  lemma DayCompleteMeaning(dateKey: string, habitIds: seq<string>, completions: Log)
    ensures IsDayComplete(dateKey, habitIds, completions)
        <==> habitIds != [] && forall id :: id in habitIds ==> id in Entry(completions, dateKey)
  {
  }

  /** A complete day has a non-empty entry in the log. */
  lemma CompleteDayIsLogged(dateKey: string, habitIds: seq<string>, completions: Log)
    requires IsDayComplete(dateKey, habitIds, completions)
    ensures dateKey in completions && completions[dateKey] != []
  {
    assert habitIds[0] in Entry(completions, dateKey);
  }

  /** An absent entry and an empty entry give the same answer. */
  lemma AbsentIsEmpty(dateKey: string, habitIds: seq<string>, completions: Log)
    requires dateKey !in completions
    ensures IsDayComplete(dateKey, habitIds, completions) == IsDayComplete(dateKey, habitIds, completions[dateKey := []])
  {
  }

  // --------------------------------------------------------------- month grid

  /** Empty cells before the 1st: the 1st's weekday counted from Monday = 0. */
  function LeadingPads(first: Date): (n: nat)
    requires Valid(first)
    ensures n <= 6
    ensures (n + 1) % 7 == Weekday(first)
  {
    (Weekday(first) + 6) % 7
  }

  function Pads(n: nat): (cells: seq<Cell>)
    ensures |cells| == n && forall i :: 0 <= i < n ==> cells[i] == None
  {
    if n == 0 then [] else Pads(n - 1) + [None]
  }

  /** The keys of days 1 to n of month m of year y. */
  function DayCells(y: int, m: int, n: nat): (cells: seq<Cell>)
    requires 1 <= m <= 12 && n <= DaysInMonth(y, m)
    ensures |cells| == n
  {
    if n == 0 then [] else DayCells(y, m, n - 1) + [Some(DateKey(Date(y, m, n)))]
  }

  lemma {:induction false} DayCellsAt(y: int, m: int, n: nat, d: int)
    requires 1 <= m <= 12 && n <= DaysInMonth(y, m)
    requires 1 <= d <= n
    ensures DayCells(y, m, n)[d - 1] == Some(DateKey(Date(y, m, d)))
  {
    if d < n {
      DayCellsAt(y, m, n - 1, d);
    }
  }

  /**
   * The 42-cell grid the statistics screen shows for month `monthIndex`
   * (0 = January) of `year`: pads, the month's days, pads.
   */
  function MonthGrid(year: int, monthIndex: int): (cells: seq<Cell>)
    ensures |cells| == GridCells
  {
    var first := MonthStart(year, monthIndex);
    var lead := LeadingPads(first);
    var n := DaysInMonth(first.year, first.month);
    Pads(lead) + DayCells(first.year, first.month, n) + Pads(GridCells - lead - n)
  }

  /**
   * The grid starts with one empty cell per weekday before the 1st (Monday
   * first), then holds the keys of days 1 to the month's length in order, then
   * only empty cells; at most 37 cells are used before the padding.
   */
  lemma MonthGridLayout(year: int, monthIndex: int)
    ensures var first := MonthStart(year, monthIndex);
            var lead := LeadingPads(first);
            var n := DaysInMonth(first.year, first.month);
            var cells := MonthGrid(year, monthIndex);
      && lead + n <= 37
      && (forall i :: 0 <= i < lead ==> cells[i] == None)
      && (forall d :: 1 <= d <= n ==> cells[lead + d - 1] == Some(DateKey(Date(first.year, first.month, d))))
      && (forall i :: lead + n <= i < GridCells ==> cells[i] == None)
  {
    var first := MonthStart(year, monthIndex);
    var lead := LeadingPads(first);
    var n := DaysInMonth(first.year, first.month);
    var cells := MonthGrid(year, monthIndex);
    var days := DayCells(first.year, first.month, n);
    forall d | 1 <= d <= n
      ensures cells[lead + d - 1] == Some(DateKey(Date(first.year, first.month, d)))
    {
      DayCellsAt(first.year, first.month, n, d);
      assert cells[lead + d - 1] == days[d - 1];
    }
  }

  /** The number of key cells in a grid. */
  function CountKeys(cells: seq<Cell>): nat {
    if cells == [] then 0 else (if cells[0].Some? then 1 else 0) + CountKeys(cells[1..])
  }

  lemma {:induction false} CountKeysAppend(a: seq<Cell>, b: seq<Cell>)
    ensures CountKeys(a + b) == CountKeys(a) + CountKeys(b)
  {
    if a == [] {
      assert a + b == b;
    } else {
      assert (a + b)[1..] == a[1..] + b;
      CountKeysAppend(a[1..], b);
    }
  }

  lemma {:induction false} CountKeysPads(n: nat)
    ensures CountKeys(Pads(n)) == 0
  {
    if n > 0 {
      CountKeysPads(n - 1);
      CountKeysAppend(Pads(n - 1), [None]);
    }
  }

  lemma {:induction false} CountKeysDays(y: int, m: int, n: nat)
    requires 1 <= m <= 12 && n <= DaysInMonth(y, m)
    ensures CountKeys(DayCells(y, m, n)) == n
  {
    if n > 0 {
      CountKeysDays(y, m, n - 1);
      CountKeysAppend(DayCells(y, m, n - 1), [Some(DateKey(Date(y, m, n)))]);
    }
  }

  /** The grid holds exactly as many keys as the month has days (29 for a leap February). */
  lemma MonthGridKeyCount(year: int, monthIndex: int)
    ensures var first := MonthStart(year, monthIndex);
            CountKeys(MonthGrid(year, monthIndex)) == DaysInMonth(first.year, first.month)
  {
    var first := MonthStart(year, monthIndex);
    var lead := LeadingPads(first);
    var n := DaysInMonth(first.year, first.month);
    var a, b, c := Pads(lead), DayCells(first.year, first.month, n), Pads(GridCells - lead - n);
    CountKeysAppend(a + b, c);
    CountKeysAppend(a, b);
    CountKeysPads(lead);
    CountKeysDays(first.year, first.month, n);
    CountKeysPads(GridCells - lead - n);
  }

  lemma PadsStep(prefix: seq<Cell>, k: nat)
    ensures prefix + Pads(k) + [None] == prefix + Pads(k + 1)
  {
    assert Pads(k + 1) == Pads(k) + [None];
  }

  lemma DayCellsStep(prefix: seq<Cell>, y: int, m: int, d: int)
    requires 1 <= m <= 12 && 1 <= d <= DaysInMonth(y, m)
    ensures prefix + DayCells(y, m, d - 1) + [Some(DateKey(Date(y, m, d)))] == prefix + DayCells(y, m, d)
  {
  }

  /**
   * `getMonthCalendarCells(year, month)`: pads for the weekdays before the
   * 1st, a key per day up to day 0 of the next month, pads up to 42, then the
   * first 42 cells.
   */
  method MonthCalendarCells(year: int, month: int) returns (cells: seq<Cell>)
    ensures cells == MonthGrid(year, month)
  {
    var first := MakeDate(year, month, 1);
    var last := MakeDate(year, month + 1, 0);
    ghost var start := MonthStart(year, month);
    ghost var n := DaysInMonth(start.year, start.month);
    assert first == start && last.day == n by {
      MakeDateInMonth(year, month, 1);
      DayZeroOfNextMonth(year, month);
    }
    var firstWeekday := Weekday(first);
    var mondayOffset := if firstWeekday == 0 then 6 else firstWeekday - 1;
    assert mondayOffset == LeadingPads(start);
    var grid: seq<Cell> := [];
    for i := 0 to mondayOffset
      invariant grid == Pads(i)
    {
      grid := grid + [None];
    }
    grid := PushDays(grid, year, month, last.day);
    cells := PadAndCut(grid, GridCells);
  }

  /**
   * The day loop of `getMonthCalendarCells`: the keys of
   * `new Date(year, month, d)` for d = 1 to `lastDay`, pushed onto `grid`.
   */
  method PushDays(grid: seq<Cell>, year: int, month: int, lastDay: int) returns (cells: seq<Cell>)
    requires var s := MonthStart(year, month); 0 <= lastDay <= DaysInMonth(s.year, s.month)
    ensures var s := MonthStart(year, month); cells == grid + DayCells(s.year, s.month, lastDay)
  {
    ghost var start := MonthStart(year, month);
    cells := grid;
    for d := 1 to lastDay + 1
      invariant cells == grid + DayCells(start.year, start.month, d - 1)
    {
      assert MakeDate(year, month, d) == Date(start.year, start.month, d) by {
        MakeDateInMonth(year, month, d);
      }
      DayCellsStep(grid, start.year, start.month, d);
      cells := cells + [Some(DateKey(MakeDate(year, month, d)))];
    }
  }

  /**
   * The tail of `getMonthCalendarCells`: push empty cells while fewer than
   * `total`, then keep the first `total` cells.
   */
  method PadAndCut(grid: seq<Cell>, total: nat) returns (cells: seq<Cell>)
    ensures |cells| == total
    ensures |grid| <= total ==> cells == grid + Pads(total - |grid|)
    ensures |grid| > total ==> cells == grid[..total]
  {
    var padded := grid;
    while |padded| < total
      invariant |grid| <= |padded|
      invariant |grid| <= total ==> |padded| <= total
      invariant padded == grid + Pads(|padded| - |grid|)
      decreases total - |padded|
    {
      PadsStep(grid, |padded| - |grid|);
      padded := padded + [None];
    }
    if |grid| <= total {
      assert padded[..total] == padded;
    }
    cells := padded[..total];
  }

  // ------------------------------------------------------------------- streak

  /** The day n days before today. */
  function DaysAgo(today: Date, n: nat): (r: Date)
    requires Valid(today)
    ensures Valid(r)
  {
    AddDays(today, -(n as int))
  }

  /** Different distances back are different days. */
  lemma DaysAgoDistinct(today: Date, a: nat, b: nat)
    requires Valid(today) && a != b
    ensures DaysAgo(today, a) != DaysAgo(today, b)
  {
    AddDaysNumber(today, -(a as int));
    AddDaysNumber(today, -(b as int));
  }

  /** One more day back from n days ago is n + 1 days ago. */
  lemma DaysAgoStep(today: Date, n: nat)
    requires Valid(today)
    ensures AddDays(DaysAgo(today, n), -1) == DaysAgo(today, n + 1)
  {
    AddDaysAdd(today, -(n as int), -1);
  }

  /** Today, yesterday, ..., the day n - 1 days back. */
  function DaysBack(today: Date, n: nat): (days: seq<Date>)
    requires Valid(today)
    ensures |days| == n
    ensures forall d <- days :: Valid(d)
  {
    if n == 0 then [] else DaysBack(today, n - 1) + [DaysAgo(today, n - 1)]
  }

  lemma {:induction false} DaysBackAt(today: Date, n: nat, i: nat)
    requires Valid(today) && i < n
    ensures DaysBack(today, n)[i] == DaysAgo(today, i)
  {
    if i < n - 1 {
      DaysBackAt(today, n - 1, i);
    }
  }

  /** The keys `getCurrentStreak` reads walking back n days from today. */
  function WalkKeys(today: Date, n: nat): (keys: seq<string>)
    requires Valid(today)
    ensures |keys| == n
  {
    Keys(DaysBack(today, n))
  }

  /** The i-th key of the walk back is the key of the day i days back. */
  lemma WalkKeysAt(today: Date, n: nat, i: nat)
    requires Valid(today) && i < n
    ensures WalkKeys(today, n)[i] == DateKey(DaysAgo(today, i))
  {
    DaysBackAt(today, n, i);
    KeysAt(DaysBack(today, n), i);
  }

  lemma WalkKeysPair(today: Date, n: nat, i: nat, j: nat)
    requires Valid(today) && i < j < n
    ensures WalkKeys(today, n)[i] != WalkKeys(today, n)[j]
  {
    WalkKeysAt(today, n, i);
    WalkKeysAt(today, n, j);
    DaysAgoDistinct(today, i, j);
    if DateKey(DaysAgo(today, i)) == DateKey(DaysAgo(today, j)) {
      DateKeyInjective(DaysAgo(today, i), DaysAgo(today, j));
    }
  }

  /** The walk back never meets the same key twice. */
  lemma WalkKeysDistinct(today: Date, n: nat)
    requires Valid(today)
    ensures NoDuplicates(WalkKeys(today, n))
  {
    forall i, j | 0 <= i < j < n
      ensures WalkKeys(today, n)[i] != WalkKeys(today, n)[j]
    {
      WalkKeysPair(today, n, i, j);
    }
  }

  /**
   * What `getDateKey` gives for a date that did not parse: every getter of an
   * invalid `Date` returns NaN, and `setDate` keeps it invalid.
   */
  const InvalidDateKey: string := "NaN-NaN-NaN"

  /** Every key of the list names a complete day. */
  predicate AllComplete(keys: seq<string>, habitIds: seq<string>, completions: Log) {
    forall i :: 0 <= i < |keys| ==> IsDayComplete(keys[i], habitIds, completions)
  }

  /**
   * `getCurrentStreak`: the number of consecutive complete days ending today.
   * The days today, today - 1, ..., today - count + 1 are complete and the day
   * before them is not; that walk cannot outrun the log, whose keys name
   * distinct days. A key that does not name a date gives 0, unless the log
   * marks the day "NaN-NaN-NaN" complete, in which case the loop never ends
   * and the precondition excludes it.
   */
  method CurrentStreak(completions: Log, habitIds: seq<string>, todayKey: string) returns (count: nat)
    requires ParseKey(todayKey).Some? || !IsDayComplete(InvalidDateKey, habitIds, completions)
    ensures habitIds == [] ==> count == 0
    ensures ParseKey(todayKey).None? ==> count == 0
    ensures ParseKey(todayKey).Some? ==>
      var today := ParseKey(todayKey).value;
      && AllComplete(WalkKeys(today, count), habitIds, completions)
      && !IsDayComplete(DateKey(DaysAgo(today, count)), habitIds, completions)
    ensures count <= |completions|
  {
    var parsed := ParseKey(todayKey);
    if parsed.None? {
      // An invalid date: every step reads the key "NaN-NaN-NaN", which the
      // precondition says is not complete, so the loop stops at once.
      return 0;
    }
    count := StreakFrom(completions, habitIds, parsed.value);
  }

  /** The walk back of `getCurrentStreak` from the parsed date of today. */
  method StreakFrom(completions: Log, habitIds: seq<string>, today: Date) returns (count: nat)
    requires Valid(today)
    ensures habitIds == [] ==> count == 0
    ensures AllComplete(WalkKeys(today, count), habitIds, completions)
    ensures !IsDayComplete(DateKey(DaysAgo(today, count)), habitIds, completions)
    ensures count <= |completions|
  {
    if |habitIds| == 0 {
      return 0;
    }
    count := 0;
    var d := today;
    while true
      invariant Valid(d) && d == DaysAgo(today, count)
      invariant AllComplete(WalkKeys(today, count), habitIds, completions)
      invariant count <= |completions|
      decreases |completions| - count
    {
      var key := DateKey(d);
      if !IsDayComplete(key, habitIds, completions) {
        break;
      }
      StreakExtend(today, count, habitIds, completions);
      StreakWithinLog(today, count + 1, habitIds, completions);
      d := StepBack(today, count, d);
      count := count + 1;
    }
  }

  /** The loop's `d.setDate(d.getDate() - 1)`: from the day n days back to the day n + 1 days back. */
  method StepBack(today: Date, n: nat, d: Date) returns (next: Date)
    requires Valid(today) && d == DaysAgo(today, n)
    ensures next == DaysAgo(today, n + 1)
  {
    SetDateShift(d, -1);
    DaysAgoStep(today, n);
    next := SetDate(d, d.day - 1);
  }

  /** A complete day extends the complete walk back by one day. */
  lemma StreakExtend(today: Date, n: nat, habitIds: seq<string>, completions: Log)
    requires Valid(today)
    requires AllComplete(WalkKeys(today, n), habitIds, completions)
    requires IsDayComplete(DateKey(DaysAgo(today, n)), habitIds, completions)
    ensures AllComplete(WalkKeys(today, n + 1), habitIds, completions)
  {
    assert DaysBack(today, n + 1) == DaysBack(today, n) + [DaysAgo(today, n)];
    KeysSnoc(DaysBack(today, n), DaysAgo(today, n));
  }

  /** A complete walk of n days reads n distinct keys of the log, so the log has at least n entries. */
  lemma StreakWithinLog(today: Date, n: nat, habitIds: seq<string>, completions: Log)
    requires Valid(today)
    requires AllComplete(WalkKeys(today, n), habitIds, completions)
    ensures n <= |completions|
  {
    var keys := WalkKeys(today, n);
    forall i | 0 <= i < |keys|
      ensures keys[i] in completions.Keys
    {
      CompleteDayIsLogged(keys[i], habitIds, completions);
    }
    WalkKeysDistinct(today, n);
    NoDuplicatesWithin(keys, completions.Keys);
  }

  /** On a complete walk, the day i days back is complete. */
  lemma StreakDays(today: Date, n: nat, habitIds: seq<string>, completions: Log, i: nat)
    requires Valid(today) && i < n
    requires AllComplete(WalkKeys(today, n), habitIds, completions)
    ensures IsDayComplete(DateKey(DaysAgo(today, i)), habitIds, completions)
  {
    WalkKeysAt(today, n, i);
  }

  /** The streak's boundary determines it: at most one count has complete days before it and an incomplete day at it. */
  lemma StreakUnique(today: Date, habitIds: seq<string>, completions: Log, a: nat, b: nat)
    requires Valid(today)
    requires AllComplete(WalkKeys(today, a), habitIds, completions)
    requires !IsDayComplete(DateKey(DaysAgo(today, a)), habitIds, completions)
    requires AllComplete(WalkKeys(today, b), habitIds, completions)
    requires !IsDayComplete(DateKey(DaysAgo(today, b)), habitIds, completions)
    ensures a == b
  {
    if a < b {
      StreakDays(today, b, habitIds, completions, a);
    } else if b < a {
      StreakDays(today, a, habitIds, completions, b);
    }
  }

  /** The streak is 0 exactly when there are no habits or today is incomplete. */
  lemma StreakZero(today: Date, habitIds: seq<string>, completions: Log, n: nat)
    requires Valid(today)
    requires AllComplete(WalkKeys(today, n), habitIds, completions)
    requires !IsDayComplete(DateKey(DaysAgo(today, n)), habitIds, completions)
    ensures n == 0 <==> habitIds == [] || !IsDayComplete(DateKey(today), habitIds, completions)
  {
    assert DaysAgo(today, 0) == today;
    if n > 0 {
      StreakDays(today, n, habitIds, completions, 0);
    }
  }
}
