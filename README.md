# habitrix core in Dafny

habitrix is a habit tracker for phones. A user picks a goal and up to three
daily habits during onboarding, sets a reminder time, and then ticks habits
off day by day. From those ticks the app derives which days were complete, the
current streak of complete days, the seven days of the current week and a
month calendar of 42 cells.

This project models that core:

- `src/utils/streak.ts` is modelled in `streak.dfy` (module `Streak`). It holds:
  - the `YYYY-MM-DD` date key;
  - the keys of the current week;
  - whether a day is complete;
  - the month grid;
  - the current streak.
- `src/store/onboardingStore.ts` is modelled in `onboarding_store.dfy`
  (module `Onboarding`). The store is a class whose methods update its five
  fields. Each method is specified by a pure transition function on a
  snapshot of those fields.
- `src/store/completionsStore.ts` is modelled in `completions_store.dfy`
  (module `Completions`). The completion log is a `map` field of a class,
  updated by `ToggleCompletion`.

Four support modules hold what the JavaScript runtime provides:

- `calendar.dfy` (module `Calendar`): the proleptic Gregorian calendar of
  `Date`, with `setDate` and `new Date(y, m, d)` and their normalisation of
  out-of-range days and months.
- `js_text.dfy` (module `JsText`): `String(n)`, `padStart` and `trim`.
- `lists.dfy` (module `Lists`): `filter(id => id !== x)` and the toggle of
  an id in a list.
- `wrappers.dfy`: an `Option` type for `null`.

`streak_scenarios.dfy` works some concrete cases through the model:
- a leap February grid;
- a three-day streak;
- a streak broken today.

Three behaviours of the code are easy to miss; the model follows the code:
- `new Date(year, month, d)` does not reject a month index outside 0..11.
  It carries the overflow into the year (floor division by 12), and a year
  0..99 is read as 1900..1999. `MakeDate` and `MonthStart` do the same, so
  `getMonthCalendarCells(2024, 12)` is the grid of January 2025.
- The year in a date key is not padded. A key therefore has the ten-character
  RFC 3339 full-date shape (section 5.6) only for years 1000 to 9999
  (`KeyThenParse`). `DateKeyInjective` shows that keys are unique for every
  year.
- A selected habit that is toggled again is removed with every copy of it
  (`filter`), not just its first occurrence.

## Model

| member | source | states |
|---|---|---|
| Calendar.Weekday | src/utils/streak.ts:16 | `getDay()`: 0 for Sunday to 6 for Saturday; `WeekdayAddDays` shows it advances by one each day |
| Calendar.AddDays | src/utils/streak.ts:19 | moving a date by k days, forward or back, always gives a valid date; `AddDaysNumber` shows its day number moves by exactly k |
| Calendar.SetDate | src/utils/streak.ts:23 | `setDate(x)`: the x-th day counted from the 1st of the month, carrying out of the month in either direction, always a valid date; `SetDateShift` relates it to `AddDays` |
| Calendar.MonthStart | src/utils/streak.ts:48 | the 1st of month index m: its year is the year read by the 0..99 rule plus m divided by 12 rounded down, its month m mod 12 |
| Calendar.MakeDate | src/utils/streak.ts:48-55 | `new Date(year, month, d)`: day d counted from that month's 1st, always a valid date; `MakeDateInMonth` and `DayZeroOfNextMonth` pin it down |
| Calendar.AddDaysNumber | src/utils/streak.ts:19 | moving a date by k days moves its day number by exactly k, for every k, across month and year ends |
| Calendar.SetDateShift | src/utils/streak.ts:77 | `setDate(getDate() + k)` gives the date k days later, whatever the month length |
| Calendar.WeekdayAddDays | src/utils/streak.ts:16 | `getDay()` of the date k days later is the weekday shifted by k modulo 7 |
| Calendar.DayNumberInjective | src/utils/streak.ts:74 | two valid dates with the same day number are the same date |
| Calendar.MakeDateInMonth | src/utils/streak.ts:55 | `new Date(year, month, d)` for d within the month is day d of the (normalised) month |
| Calendar.DayZeroOfNextMonth | src/utils/streak.ts:49 | `new Date(year, month + 1, 0)` is the last day of the month, so `getDate()` is the month's length (29 in a leap February) |
| JsText.NatToString | src/utils/streak.ts:6-7 | `String(n)` for n >= 0: a non-empty digit string denoting n, of one digit exactly when n < 10, without a leading zero |
| JsText.IntToString | src/utils/streak.ts:8 | `${y}` of an integer: a leading minus exactly when it is negative, otherwise the digits of its value |
| JsText.PadStart | src/utils/streak.ts:6-7 | `padStart(n, c)`: as long as n or s, whichever is longer, ending in s, with only c before it |
| JsText.Trim | src/store/onboardingStore.ts:72 | `trim()`: strips leading and trailing WhiteSpace and LineTerminator characters; stated by `TrimBlank`, `TrimIsInfix` and `TrimIdempotent` |
| JsText.IntToStringInjective | src/store/onboardingStore.ts:77 | `String(n)` is injective on integers |
| JsText.TwoDigitsIsPadStart | src/utils/streak.ts:6-7 | `String(n).padStart(2, '0')` for n < 100 is the two-digit numeral of n |
| JsText.TwoDigitsValue | src/utils/streak.ts:6-7 | any two decimal digits denote 10 times the first plus the second, a number below 100 |
| JsText.TrimBlank | src/store/onboardingStore.ts:72-73 | `trim()` is empty exactly when every character is whitespace or a line terminator |
| JsText.TrimIsInfix | src/store/onboardingStore.ts:72 | a non-empty trimmed title is a slice of the title that neither starts nor ends with whitespace |
| JsText.TrimIdempotent | src/store/onboardingStore.ts:72 | trimming twice is trimming once |
| Lists.Remove | src/store/onboardingStore.ts:62 | `filter(id => id !== x)` drops every x, keeps every other id, and never grows the list |
| Lists.RemoveMultiset | src/store/onboardingStore.ts:62 | filtering removes every copy of x and keeps the count of every other id |
| Lists.RemoveAppend | src/store/onboardingStore.ts:62 | filtering distributes over concatenation, so the kept ids keep their relative order |
| Lists.Toggle | src/store/completionsStore.ts:38-41 | `includes ? filter : [...list, id]`: the id is in the result exactly when it was not in the list, and every other id keeps its membership |
| Lists.RemoveNoDuplicates | src/store/completionsStore.ts:40 | filtering keeps a duplicate-free list duplicate-free |
| Lists.ToggleNoDuplicates | src/store/completionsStore.ts:39-41 | toggling an id keeps a duplicate-free list duplicate-free |
| Lists.ToggleTwiceAbsent | src/store/completionsStore.ts:39-41 | toggling an absent id twice gives the list back |
| Lists.ToggleTwicePresent | src/store/completionsStore.ts:39-41 | toggling a present id twice in a duplicate-free list gives the same ids, with it moved to the end |
| Lists.NoDuplicatesWithin | src/utils/streak.ts:73-78 | a duplicate-free list drawn from a set is no longer than the set |
| Streak.DateKey | src/utils/streak.ts:4-9 | `getDateKey`: the year's numeral, then month and day as two digits, joined by "-"; its layout is stated by `DateKeyLayout` and its uniqueness by `DateKeyInjective` |
| Streak.DateKeyLayout | src/utils/streak.ts:4-9 | a key is the year's numeral, then "-MM-DD" whose digits denote the month and the day |
| Streak.DateKeyInjective | src/utils/streak.ts:4-9 | different dates have different keys |
| Streak.ParseKey | src/utils/streak.ts:72 | a string that parses gives a valid date with a year of four digits |
| Streak.ParseKeyFields | src/utils/streak.ts:72 | a string that parses has the `YYYY-MM-DD` shape and is read field by field |
| Streak.KeyThenParse | src/utils/streak.ts:4-9 | for years 1000 to 9999 a key has the full-date shape and parses back to its date |
| Streak.ParseThenKey | src/utils/streak.ts:72-74 | a parsed key of a year from 1000 on is the key of the date it names |
| Streak.MondayOfWeek | src/utils/streak.ts:16-19 | the week's first day is a Monday, 0 to 6 days before today |
| Streak.BackToToday | src/utils/streak.ts:17-19 | walking forward from that Monday by the offset returns to today |
| Streak.WeekDateKeys | src/utils/streak.ts:14-27 | the result is the keys of the seven days from the Monday on or before today |
| Streak.WeekKeys | src/utils/streak.ts:21-25 | key i is the key of Monday + i, whose weekday is (i + 1) mod 7, and each day follows the one before |
| Streak.TodayInWeek | src/utils/streak.ts:14-27 | today's key sits at index (getDay() + 6) mod 7 of its week |
| Streak.Entry | src/utils/streak.ts:38 | `completions[key] ?? []`: the logged ids of the day, or none; `AbsentIsEmpty` shows absent and empty entries are read alike |
| Streak.IsDayComplete | src/utils/streak.ts:32-40 | `isDayComplete`: false with no habits, otherwise whether every id is in the day's entry; its meaning is stated by `DayCompleteMeaning` |
| Streak.AllIncluded | src/utils/streak.ts:39 | `every(id => done.includes(id))` holds exactly when each id is in the list |
| Streak.DayCompleteMeaning | src/utils/streak.ts:32-40 | a day is complete exactly when there is at least one habit and every habit id is in that day's entry; a missing entry counts as empty |
| Streak.CompleteDayIsLogged | src/utils/streak.ts:37-39 | a complete day has a non-empty entry in the log |
| Streak.AbsentIsEmpty | src/utils/streak.ts:38 | a missing entry and an empty entry give the same answer |
| Streak.LeadingPads | src/utils/streak.ts:50-51 | the number of leading pads is at most 6 and counts the weekdays from Monday to the 1st |
| Streak.Pads | src/utils/streak.ts:53 | n pads are n empty cells |
| Streak.MonthGrid | src/utils/streak.ts:57-59 | the grid has 42 cells |
| Streak.MonthGridLayout | src/utils/streak.ts:47-60 | pads for the weekdays before the 1st, then the keys of days 1 to the month's length in order, then only pads; the days end by cell 37 |
| Streak.MonthGridKeyCount | src/utils/streak.ts:54-56 | the grid holds as many keys as the month has days |
| Streak.MonthCalendarCells | src/utils/streak.ts:47-60 | the loops build exactly the grid `MonthGrid` describes |
| Streak.PushDays | src/utils/streak.ts:54-56 | the day loop pushes the keys of days 1 to the month's last day, in order, after the pads |
| Streak.PadAndCut | src/utils/streak.ts:57-59 | padding with nulls up to 42 and slicing gives exactly 42 cells: the input plus pads, or its first 42 cells |
| Streak.DaysAgoDistinct | src/utils/streak.ts:77 | walking back different distances reaches different days |
| Streak.DaysAgoStep | src/utils/streak.ts:77 | one more day back from n days ago is n + 1 days ago |
| Streak.WalkKeys | src/utils/streak.ts:73-78 | the walk back from today reads one key per step |
| Streak.WalkKeysAt | src/utils/streak.ts:74 | the i-th key read on the walk back is the key of the day i days ago |
| Streak.WalkKeysDistinct | src/utils/streak.ts:73-78 | the walk back never reads the same key twice |
| Streak.CurrentStreak | src/utils/streak.ts:65-80 | with no habits the streak is 0; a key that is not a date gives 0; otherwise the count days from today back are complete and the day before them is not, and the count never exceeds the number of logged days |
| Streak.StreakFrom | src/utils/streak.ts:71-79 | the loop stops at the first incomplete day back from today, having counted the complete ones, and always stops |
| Streak.StepBack | src/utils/streak.ts:77 | `d.setDate(d.getDate() - 1)` on the day n days back gives the day n + 1 days back, across month and year ends |
| Streak.StreakExtend | src/utils/streak.ts:75-76 | a complete day extends the complete walk back by one day |
| Streak.StreakWithinLog | src/utils/streak.ts:73-78 | a complete walk of n days reads n distinct keys of the log, so the log has at least n entries |
| Streak.StreakDays | src/utils/streak.ts:73-78 | every day inside the streak is complete |
| Streak.StreakUnique | src/utils/streak.ts:65-80 | only one count has complete days before it and an incomplete day at it, so the streak is determined |
| Streak.StreakZero | src/utils/streak.ts:70-76 | the streak is 0 exactly when there are no habits or today is incomplete |
| StreakScenarios.ThursdayLeapFebruaryGrid | src/utils/streak.ts:47-60 | a leap February starting on a Thursday has 3 pads, the key of the 1st at cell 3, the key of the 29th at cell 31, pads after, and 29 keys |
| StreakScenarios.February2024 | src/utils/streak.ts:47-60 | February 2024 is such a month |
| StreakScenarios.ThreeDayWalk | src/utils/streak.ts:71-78 | in the three-day log, June 9 to 11, 2024 are complete and June 8 is not |
| StreakScenarios.ThreeDayStreak | src/utils/streak.ts:65-80 | with both habits done on June 9 to 11, 2024, the streak on "2024-06-11" is 3 |
| StreakScenarios.BrokenToday | src/utils/streak.ts:65-80 | with one habit missing today, the streak is 0 |
| Onboarding.Initial | src/store/onboardingStore.ts:50-54 | the initial state: no goal, the eight default habits, no selection, reminder "08:00", reminders on; `ActionsKeepBound` shows the bound of three holds from it on |
| Onboarding.ToggledSelection | src/store/onboardingStore.ts:58-68 | the toggled id is selected afterwards exactly when it was not selected and fewer than three were; the other ids keep their membership; the bound of three is kept |
| Onboarding.CustomHabitIdInjective | src/store/onboardingStore.ts:77 | habits created at different instants get different ids |
| Onboarding.AfterSetGoal | src/store/onboardingStore.ts:56 | `setGoal` changes the goal and nothing else |
| Onboarding.AfterToggleHabit | src/store/onboardingStore.ts:58-68 | `toggleHabit` changes only the selection |
| Onboarding.AfterAddCustomHabit | src/store/onboardingStore.ts:70-91 | `addCustomHabit` changes only the catalogue and the selection |
| Onboarding.AfterSetReminderTime | src/store/onboardingStore.ts:93 | `setReminderTime` changes the reminder time and nothing else |
| Onboarding.AfterSetReminderEnabled | src/store/onboardingStore.ts:95 | `setReminderEnabled` changes the reminder flag and nothing else |
| Onboarding.ToggleSelectedRemoves | src/store/onboardingStore.ts:61-62 | toggling a selected id removes every copy of it and keeps the others in order |
| Onboarding.ToggleWhenFull | src/store/onboardingStore.ts:64-65 | with three selected, toggling an unselected id leaves the state unchanged |
| Onboarding.ToggleAppends | src/store/onboardingStore.ts:67 | below three, toggling an unselected id appends it |
| Onboarding.ToggleKeepsSelectionValid | src/store/onboardingStore.ts:58-68 | a duplicate-free selection of at most three ids stays so |
| Onboarding.ToggleTwiceRestores | src/store/onboardingStore.ts:58-68 | toggling an unselected id twice, with room for it, restores the whole state |
| Onboarding.AddBlankTitle | src/store/onboardingStore.ts:72-75 | a title of whitespace only leaves the state unchanged |
| Onboarding.AddCustomHabitAdds | src/store/onboardingStore.ts:76-90 | a non-blank title puts the habit (trimmed title, "Custom habit", id "custom-" + time) in front of the catalogue and selects it while fewer than three are selected |
| Onboarding.AddCustomHabitNoDuplicates | src/store/onboardingStore.ts:82-85 | a fresh id keeps a duplicate-free selection duplicate-free |
| Onboarding.ActionsKeepBound | src/store/onboardingStore.ts:56-104 | every action keeps the selection at no more than three ids |
| Onboarding.OnboardingStore.constructor | src/store/onboardingStore.ts:50-54 | a new store has no goal, the default catalogue, no selection, reminder "08:00", enabled |
| Onboarding.OnboardingStore.SetGoal | src/store/onboardingStore.ts:56 | the new state is `AfterSetGoal` of the old |
| Onboarding.OnboardingStore.ToggleHabit | src/store/onboardingStore.ts:58-68 | the new state is `AfterToggleHabit` of the old |
| Onboarding.OnboardingStore.AddCustomHabit | src/store/onboardingStore.ts:70-91 | the new state is `AfterAddCustomHabit` of the old |
| Onboarding.OnboardingStore.SetReminderTime | src/store/onboardingStore.ts:93 | the new state is `AfterSetReminderTime` of the old |
| Onboarding.OnboardingStore.SetReminderEnabled | src/store/onboardingStore.ts:95 | the new state is `AfterSetReminderEnabled` of the old |
| Onboarding.OnboardingStore.ResetOnboarding | src/store/onboardingStore.ts:97-104 | the store is back in its initial state |
| Completions.TodayKey | src/store/completionsStore.ts:15-21 | `getTodayKey` with the clock passed in; `TodayKeyIsDateKey` shows it is the streak code's `DateKey` of the same date |
| Completions.IsCompleted | src/store/completionsStore.ts:50-51 | whether the id is in the day's entry, a missing entry read as empty; `ToggleThenQuery` shows a toggle flips it |
| Completions.TodayKeyIsDateKey | src/store/completionsStore.ts:15-21 | the store's today key equals the streak code's date key for every date |
| Completions.Toggled | src/store/completionsStore.ts:37-44 | toggling adds today's key to the log and leaves every other day's entry unchanged |
| Completions.ToggledEntry | src/store/completionsStore.ts:38-41 | toggling flips whether the habit is done that day: a done habit is filtered out, another is appended |
| Completions.ToggledOtherDays | src/store/completionsStore.ts:43 | other days' entries, and whether they are complete, are unaffected |
| Completions.ToggledTwice | src/store/completionsStore.ts:35-46 | toggling twice restores the entry of an absent habit, and the same ids of a present one |
| Completions.CompletionsStore.constructor | src/store/completionsStore.ts:33 | a new store has an empty log |
| Completions.CompletionsStore.ToggleCompletion | src/store/completionsStore.ts:35-46 | the new log is the old one with the habit toggled under today's key |
| Completions.CompletionsStore.IsCompletedToday | src/store/completionsStore.ts:48-52 | the answer is whether the habit is in the entry under today's date key |
| Completions.ToggleThenQuery | src/store/completionsStore.ts:35-52 | asked right after a toggle on the same day, the query answers the opposite of before |

## Left out

- Persistence is not modelled: the stores are saved to device storage as JSON by a persistence middleware, and that I/O is outside the model.
- The clock is a parameter. `new Date()` and `Date.now()` are passed in as `now` to `WeekDateKeys`, `TodayKey`, `ToggleCompletion`, `IsCompletedToday` and `AddCustomHabit`.
- Time zones are not modelled. A `Date` is modelled as the local calendar date it shows.
- Streak.ParseKey: `new Date("YYYY-MM-DD")` reads the string as UTC midnight, and `getDate()` then reads local time. West of UTC the walk therefore starts on the day before the key. The model starts on the date the key names.
- Streak.ParseKey: only strings of the `YYYY-MM-DD` shape naming a real date are read as dates. Any other string counts as an invalid date, although the engine may read some other string formats.
- Streak.CurrentStreak: requires that the key names a date, or that the day "NaN-NaN-NaN" is not complete. Otherwise the source loops forever, and a terminating method cannot model that.
- Streak.CurrentStreak: the source keeps the streak on the loop's date. The model splits the work into the parse and `StreakFrom`. It argues termination by counting the log's keys, which are distinct days, and not by the earliest logged day.
- Streak.MonthCalendarCells: the padding loop and `slice` at the end are modelled as the `PadAndCut` method.
- JsText: a string is a sequence of Unicode scalar values, not of UTF-16 code units. A character outside the Basic Multilingual Plane is one element rather than two, so `padStart` and `length` would count it differently. A lone surrogate cannot be represented. The keys and the characters `trim` strips are all within the Basic Multilingual Plane.
- Calendar: JavaScript's time value range (about 275,000 years around 1970) is not modelled. Years, days and `Date.now()` are unbounded integers.
- Arguments that are not integers are not modelled: NaN, fractions and non-numeric month values passed to `getMonthCalendarCells`.
- The screens, navigation, sign-in, notifications and the month stepper of the statistics screen are not part of this model.
