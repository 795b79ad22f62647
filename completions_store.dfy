/**
 * The completion log of `src/store/completionsStore.ts`: for each date key,
 * the ids of the habits done that day. Its one action toggles a habit in
 * today's entry; its one query asks whether a habit is done today.
 */
module Completions {
  import opened JsText
  import opened Calendar
  import opened Lists
  import opened Streak

  /**
   * `getTodayKey()`, with the clock reading passed in as `now`: the year, then
   * month and day padded to two digits with '0', joined by '-'.
   */
  function TodayKey(now: Date): string
    requires Valid(now)
  {
    IntToString(now.year) + "-" + PadStart(NatToString(now.month), 2, '0') + "-" + PadStart(NatToString(now.day), 2, '0')
  }

  /** The store's today key and the streak code's date key agree on every date. */
  lemma TodayKeyIsDateKey(now: Date)
    requires Valid(now)
    ensures TodayKey(now) == DateKey(now)
  {
    TwoDigitsIsPadStart(now.month);
    TwoDigitsIsPadStart(now.day);
  }

  /** The log after toggling `habitId` in the entry for `key`. */
  function Toggled(log: Log, key: string, habitId: string): (r: Log)
    ensures r.Keys == log.Keys + {key}
    ensures forall k :: k in log && k != key ==> r[k] == log[k]
  {
    log[key := Toggle(Entry(log, key), habitId)]
  }

  /** `isCompletedToday`'s test, for any key: the id is in the key's entry. */
  predicate IsCompleted(log: Log, key: string, habitId: string) {
    habitId in Entry(log, key)
  }

  /**
   * Toggling flips whether the id is in the entry: a present id is removed
   * with all its occurrences, the others keep their order; an absent id is
   * appended at the end.
   */
  lemma ToggledEntry(log: Log, key: string, habitId: string)
    ensures IsCompleted(Toggled(log, key, habitId), key, habitId) == !IsCompleted(log, key, habitId)
    ensures IsCompleted(log, key, habitId) ==> Toggled(log, key, habitId)[key] == Remove(Entry(log, key), habitId)
    ensures !IsCompleted(log, key, habitId) ==> Toggled(log, key, habitId)[key] == Entry(log, key) + [habitId]
  {
  }

  /** Other days' entries, and so whether they are complete, are unaffected. */
  lemma ToggledOtherDays(log: Log, key: string, habitId: string, other: string, habitIds: seq<string>)
    requires other != key
    ensures Entry(Toggled(log, key, habitId), other) == Entry(log, other)
    ensures IsDayComplete(other, habitIds, Toggled(log, key, habitId)) == IsDayComplete(other, habitIds, log)
  {
  }

  /**
   * Toggling an id twice restores the entry when the id was absent (an absent
   * key comes back as an empty entry, which `isDayComplete` reads the same).
   * When the id was present in a duplicate-free entry, the same ids come back
   * with it moved to the end.
   */
  lemma ToggledTwice(log: Log, key: string, habitId: string, habitIds: seq<string>)
    ensures var twice := Toggled(Toggled(log, key, habitId), key, habitId);
      && key in twice
      && (!IsCompleted(log, key, habitId) ==> twice[key] == Entry(log, key))
      && (!IsCompleted(log, key, habitId) ==> IsDayComplete(key, habitIds, twice) == IsDayComplete(key, habitIds, log))
      && (IsCompleted(log, key, habitId) && NoDuplicates(Entry(log, key)) ==>
            multiset(twice[key]) == multiset(Entry(log, key)))
  {
    var entry := Entry(log, key);
    if habitId !in entry {
      ToggleTwiceAbsent(entry, habitId);
    } else if NoDuplicates(entry) {
      ToggleTwicePresent(entry, habitId);
    }
  }

  /** `useCompletionsStore`: the log, updated in place by `toggleCompletion`. */
  class CompletionsStore {
    var completions: Log

    constructor()
      ensures completions == map[]
    {
      completions := map[];
    }

    /** `toggleCompletion(habitId)`, with today's date passed in as `now`. */
    method ToggleCompletion(habitId: string, now: Date)
      requires Valid(now)
      modifies this
      ensures completions == Toggled(old(completions), TodayKey(now), habitId)
    {
      var today := TodayKey(now);
      var list := if today in completions then completions[today] else [];
      var next := if habitId in list then Remove(list, habitId) else list + [habitId];
      assert next == Toggle(Entry(completions, today), habitId);
      completions := completions[today := next];
    }

    /** `isCompletedToday(habitId)`, with today's date passed in as `now`. */
    method IsCompletedToday(habitId: string, now: Date) returns (done: bool)
      requires Valid(now)
      ensures done <==> IsCompleted(completions, DateKey(now), habitId)
    {
      var today := TodayKey(now);
      var list := if today in completions then completions[today] else [];
      TodayKeyIsDateKey(now);
      done := habitId in list;
    }
  }

  /** Asked right after toggling the same habit on the same day, the query answers the opposite. */
  lemma ToggleThenQuery(log: Log, now: Date, habitId: string)
    requires Valid(now)
    ensures IsCompleted(Toggled(log, TodayKey(now), habitId), DateKey(now), habitId)
        == !IsCompleted(log, DateKey(now), habitId)
  {
    TodayKeyIsDateKey(now);
    ToggledEntry(log, TodayKey(now), habitId);
  }
}
