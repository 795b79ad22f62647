/**
 * Worked cases of the calendar and streak functions: a leap February grid,
 * a three-day streak and a streak broken on its first day.
 */
module StreakScenarios {
  import opened Wrappers
  import opened Calendar
  import opened Streak

  /**
   * A leap February that starts on a Thursday (as in 2024): three pads, the
   * keys of the 1st to the 29th, then ten pads.
   */
  lemma ThursdayLeapFebruaryGrid(year: int)
    requires year >= 100 && IsLeapYear(year) && Weekday(Date(year, 2, 1)) == 4
    ensures var cells := MonthGrid(year, 1);
      && (forall i :: 0 <= i < 3 ==> cells[i] == None)
      && cells[3] == Some(DateKey(Date(year, 2, 1)))
      && cells[31] == Some(DateKey(Date(year, 2, 29)))
      && (forall i :: 32 <= i < GridCells ==> cells[i] == None)
      && CountKeys(cells) == 29
  {
    var first := MonthStart(year, 1);
    assert first == Date(year, 2, 1);
    assert LeadingPads(first) == 3;
    MonthGridLayout(year, 1);
    MonthGridKeyCount(year, 1);
  }

  /** February 2024 is such a month: 2024 is a leap year and its February 1 a Thursday. */
  lemma February2024()
    ensures IsLeapYear(2024) && Weekday(Date(2024, 2, 1)) == 4
  {
  }

  // Keys of single dates, each evaluated on its own.

  lemma KeyJun8()
    ensures DateKey(Date(2024, 6, 8)) == "2024-06-08"
  {
  }

  lemma KeyJun9()
    ensures DateKey(Date(2024, 6, 9)) == "2024-06-09"
  {
  }

  lemma KeyJun10()
    ensures DateKey(Date(2024, 6, 10)) == "2024-06-10"
  {
  }

  lemma KeyJun11()
    ensures DateKey(Date(2024, 6, 11)) == "2024-06-11"
  {
  }

  /** The log of three complete days in a row, up to 2024-06-11. */
  function ThreeDayLog(): Log {
    map["2024-06-09" := ["a", "b"], "2024-06-10" := ["a", "b"], "2024-06-11" := ["a", "b"]]
  }

  lemma ParseJune11()
    ensures ParseKey("2024-06-11") == Some(Date(2024, 6, 11))
  {
    KeyThenParse(Date(2024, 6, 11));
    KeyJun11();
  }

  /** The keys of June 11, 2024 and the three days before it. */
  lemma JuneWalkKeys()
    ensures var today := Date(2024, 6, 11);
      && DateKey(DaysAgo(today, 0)) == "2024-06-11"
      && DateKey(DaysAgo(today, 1)) == "2024-06-10"
      && DateKey(DaysAgo(today, 2)) == "2024-06-09"
      && DateKey(DaysAgo(today, 3)) == "2024-06-08"
  {
    var today := Date(2024, 6, 11);
    assert DaysAgo(today, 0) == Date(2024, 6, 11);
    assert DaysAgo(today, 1) == Date(2024, 6, 10);
    assert DaysAgo(today, 2) == Date(2024, 6, 9);
    assert DaysAgo(today, 3) == Date(2024, 6, 8);
    KeyJun8();
    KeyJun9();
    KeyJun10();
    KeyJun11();
  }

  /** Both habits are logged on each of June 9, 10 and 11. */
  lemma ThreeDayLogComplete(key: string)
    requires key == "2024-06-09" || key == "2024-06-10" || key == "2024-06-11"
    ensures IsDayComplete(key, ["a", "b"], ThreeDayLog())
  {
    assert Entry(ThreeDayLog(), key) == ["a", "b"];
  }

  /** Nothing is logged on June 8. */
  lemma ThreeDayLogMissing()
    ensures !IsDayComplete("2024-06-08", ["a", "b"], ThreeDayLog())
  {
    assert "2024-06-08" !in ThreeDayLog();
  }

  /** June 9 to 11 are complete in the three-day log, June 8 is not. */
  lemma ThreeDayWalk()
    ensures var today := Date(2024, 6, 11);
      && AllComplete(WalkKeys(today, 3), ["a", "b"], ThreeDayLog())
      && !IsDayComplete(DateKey(DaysAgo(today, 3)), ["a", "b"], ThreeDayLog())
  {
    var today := Date(2024, 6, 11);
    JuneWalkKeys();
    WalkKeysAt(today, 3, 0);
    WalkKeysAt(today, 3, 1);
    WalkKeysAt(today, 3, 2);
    ThreeDayLogComplete("2024-06-11");
    ThreeDayLogComplete("2024-06-10");
    ThreeDayLogComplete("2024-06-09");
    ThreeDayLogMissing();
  }

  /** With habits a and b done on June 9, 10 and 11, the streak on June 11 is 3. */
  lemma ThreeDayStreak(count: nat)
    requires var today := Date(2024, 6, 11);
      && AllComplete(WalkKeys(today, count), ["a", "b"], ThreeDayLog())
      && !IsDayComplete(DateKey(DaysAgo(today, count)), ["a", "b"], ThreeDayLog())
    ensures ParseKey("2024-06-11") == Some(Date(2024, 6, 11))
    ensures count == 3
  {
    ParseJune11();
    ThreeDayWalk();
    StreakUnique(Date(2024, 6, 11), ["a", "b"], ThreeDayLog(), count, 3);
  }

  /** With b missing on June 11, the streak on June 11 is 0 whatever came before. */
  lemma BrokenToday(count: nat)
    requires var log := map["2024-06-10" := ["a", "b"], "2024-06-11" := ["a"]];
             var today := Date(2024, 6, 11);
      && AllComplete(WalkKeys(today, count), ["a", "b"], log)
      && !IsDayComplete(DateKey(DaysAgo(today, count)), ["a", "b"], log)
    ensures count == 0
  {
    var log := map["2024-06-10" := ["a", "b"], "2024-06-11" := ["a"]];
    var today := Date(2024, 6, 11);
    KeyJun11();
    assert !IsDayComplete("2024-06-11", ["a", "b"], log);
    StreakZero(today, ["a", "b"], log, count);
  }
}
