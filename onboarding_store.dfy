/**
 * The onboarding store of `src/store/onboardingStore.ts`: the user's goal,
 * the habit catalogue, the (at most three) selected habit ids and the daily
 * reminder setting.
 *
 * Each action of the store is a method of `OnboardingStore` that updates its
 * fields; the pure function `After...` beside it says what the whole state
 * becomes, and the lemmas below state what the store promises about those
 * transitions.
 */
module Onboarding {
  import opened Wrappers
  import opened JsText
  import opened Lists

  datatype Habit = Habit(id: string, title: string, subtitle: string)

  /** No more than this many habits can be selected. */
  const MaxSelected: nat := 3

  const DefaultReminderTime: string := "08:00"

  const CustomSubtitle: string := "Custom habit"

  /** `DEFAULT_HABITS`, in catalogue order. */
  const DefaultHabits: seq<Habit> := [
    Habit("water", "Drink water", "8 glasses a day"),
    Habit("steps", "8,000 steps", "Daily walk"),
    Habit("reading", "Read 20 min", "Books or articles"),
    Habit("sleep", "Sleep before 23:00", "Healthy rest"),
    Habit("meditation", "Meditate", "10 minutes"),
    Habit("journal", "Morning journal", "Write 3 lines"),
    Habit("stretch", "Stretching", "5 minutes"),
    Habit("sugar", "No sugar", "Skip sweets today")
  ]

  /** A snapshot of the store's five fields. */
  datatype OnboardingState = OnboardingState(
    goal: Option<string>,
    habits: seq<Habit>,
    selectedHabits: seq<string>,
    reminderTime: string,
    reminderEnabled: bool)

  /** The state a fresh store starts in and `resetOnboarding` returns to. */
  function Initial(): OnboardingState {
    OnboardingState(None, DefaultHabits, [], DefaultReminderTime, true)
  }

  /**
   * The selection after toggling `habitId`: a selected id is dropped, an
   * unselected one is added while there is room.
   */
  function ToggledSelection(selected: seq<string>, habitId: string): (r: seq<string>)
    ensures habitId in r <==> habitId !in selected && |selected| < MaxSelected
    ensures forall x :: x != habitId ==> (x in r <==> x in selected)
    ensures |selected| <= MaxSelected ==> |r| <= MaxSelected
  {
    if habitId in selected then Remove(selected, habitId)
    else if |selected| >= MaxSelected then selected
    else selected + [habitId]
  }

  /** The id `addCustomHabit` gives a habit created at time `now` (ms since the epoch). */
  function CustomHabitId(now: int): string {
    "custom-" + IntToString(now)
  }

  /** Habits created at different instants get different ids. */
  lemma CustomHabitIdInjective(a: int, b: int)
    requires CustomHabitId(a) == CustomHabitId(b)
    ensures a == b
  {
    var prefix := "custom-";
    assert IntToString(a) == CustomHabitId(a)[|prefix|..];
    assert IntToString(b) == CustomHabitId(b)[|prefix|..];
    IntToStringInjective(a, b);
  }

  function AfterSetGoal(s: OnboardingState, goalId: string): (r: OnboardingState)
    ensures r == s.(goal := Some(goalId))
  {
    OnboardingState(Some(goalId), s.habits, s.selectedHabits, s.reminderTime, s.reminderEnabled)
  }

  /** `toggleHabit`: only the selection changes. */
  function AfterToggleHabit(s: OnboardingState, habitId: string): (r: OnboardingState)
    ensures r == s.(selectedHabits := r.selectedHabits)
  {
    s.(selectedHabits := ToggledSelection(s.selectedHabits, habitId))
  }

  /**
   * `addCustomHabit`: a blank title is ignored; otherwise the trimmed title
   * becomes a new habit in front of the catalogue, and it is selected when
   * fewer than three habits are.
   */
  function AfterAddCustomHabit(s: OnboardingState, title: string, now: int): (r: OnboardingState)
    ensures r == s.(habits := r.habits, selectedHabits := r.selectedHabits)
  {
    var trimmed := Trim(title);
    if trimmed == [] then s
    else
      var habit := Habit(CustomHabitId(now), trimmed, CustomSubtitle);
      s.(habits := [habit] + s.habits,
         selectedHabits := if |s.selectedHabits| < MaxSelected then s.selectedHabits + [habit.id] else s.selectedHabits)
  }

  function AfterSetReminderTime(s: OnboardingState, time: string): (r: OnboardingState)
    ensures r == s.(reminderTime := time)
  {
    OnboardingState(s.goal, s.habits, s.selectedHabits, time, s.reminderEnabled)
  }

  function AfterSetReminderEnabled(s: OnboardingState, value: bool): (r: OnboardingState)
    ensures r == s.(reminderEnabled := value)
  {
    OnboardingState(s.goal, s.habits, s.selectedHabits, s.reminderTime, value)
  }

  // ------------------------------------------------------------- toggleHabit

  /** Toggling a selected id removes every occurrence of it; the other ids keep their order. */
  lemma ToggleSelectedRemoves(s: OnboardingState, habitId: string)
    requires habitId in s.selectedHabits
    ensures var sel := AfterToggleHabit(s, habitId).selectedHabits;
      && sel == Remove(s.selectedHabits, habitId)
      && habitId !in sel
      && multiset(sel) == multiset(s.selectedHabits)[habitId := 0]
  {
    RemoveMultiset(s.selectedHabits, habitId);
  }

  /** With three habits selected, toggling an unselected id changes nothing at all. */
  lemma ToggleWhenFull(s: OnboardingState, habitId: string)
    requires habitId !in s.selectedHabits && |s.selectedHabits| >= MaxSelected
    ensures AfterToggleHabit(s, habitId) == s
  {
  }

  /** Below the limit, toggling an unselected id appends it at the end. */
  lemma ToggleAppends(s: OnboardingState, habitId: string)
    requires habitId !in s.selectedHabits && |s.selectedHabits| < MaxSelected
    ensures AfterToggleHabit(s, habitId).selectedHabits == s.selectedHabits + [habitId]
  {
  }

  /** A duplicate-free selection of at most three ids stays so under toggling. */
  lemma ToggleKeepsSelectionValid(s: OnboardingState, habitId: string)
    requires |s.selectedHabits| <= MaxSelected && NoDuplicates(s.selectedHabits)
    ensures var sel := AfterToggleHabit(s, habitId).selectedHabits;
      |sel| <= MaxSelected && NoDuplicates(sel)
  {
    if habitId in s.selectedHabits {
      RemoveNoDuplicates(s.selectedHabits, habitId);
    }
  }

  /** Toggling an unselected id twice, with room for it, restores the whole state. */
  lemma ToggleTwiceRestores(s: OnboardingState, habitId: string)
    requires habitId !in s.selectedHabits && |s.selectedHabits| < MaxSelected
    ensures AfterToggleHabit(AfterToggleHabit(s, habitId), habitId) == s
  {
    ToggleTwiceAbsent(s.selectedHabits, habitId);
  }

  // ---------------------------------------------------------- addCustomHabit

  /** A title of whitespace only (or no characters) leaves the state unchanged. */
  lemma AddBlankTitle(s: OnboardingState, title: string, now: int)
    requires forall i :: 0 <= i < |title| ==> IsTrimmable(title[i])
    ensures AfterAddCustomHabit(s, title, now) == s
  {
    TrimBlank(title);
  }

  /**
   * A title with a visible character puts the habit (trimmed title, "Custom
   * habit") in front of the catalogue, appends its id to the selection when
   * fewer than three are selected, and keeps the bound of three.
   */
  lemma AddCustomHabitAdds(s: OnboardingState, title: string, now: int)
    requires exists i :: 0 <= i < |title| && !IsTrimmable(title[i])
    ensures var r := AfterAddCustomHabit(s, title, now);
            var id := CustomHabitId(now);
      && r.habits == [Habit(id, Trim(title), CustomSubtitle)] + s.habits
      && (|s.selectedHabits| < MaxSelected ==> r.selectedHabits == s.selectedHabits + [id])
      && (|s.selectedHabits| >= MaxSelected ==> r.selectedHabits == s.selectedHabits)
      && (|s.selectedHabits| <= MaxSelected ==> |r.selectedHabits| <= MaxSelected)
  {
    TrimBlank(title);
  }

  /** A fresh id keeps a duplicate-free selection duplicate-free. */
  lemma AddCustomHabitNoDuplicates(s: OnboardingState, title: string, now: int)
    requires NoDuplicates(s.selectedHabits) && CustomHabitId(now) !in s.selectedHabits
    ensures NoDuplicates(AfterAddCustomHabit(s, title, now).selectedHabits)
  {
  }

  // -------------------------------------------------------------------- store

  /** `useOnboardingStore`: the five fields, updated in place by its actions. */
  class OnboardingStore {
    var goal: Option<string>
    var habits: seq<Habit>
    var selectedHabits: seq<string>
    var reminderTime: string
    var reminderEnabled: bool

    function State(): OnboardingState
      reads this
    {
      OnboardingState(goal, habits, selectedHabits, reminderTime, reminderEnabled)
    }

    constructor()
      ensures State() == Initial()
    {
      goal := None;
      habits := DefaultHabits;
      selectedHabits := [];
      reminderTime := DefaultReminderTime;
      reminderEnabled := true;
    }

    method SetGoal(goalId: string)
      modifies this
      ensures State() == AfterSetGoal(old(State()), goalId)
    {
      goal := Some(goalId);
    }

    method ToggleHabit(habitId: string)
      modifies this
      ensures State() == AfterToggleHabit(old(State()), habitId)
    {
      var selected := selectedHabits;
      if habitId in selected {
        selectedHabits := Remove(selected, habitId);
        return;
      }
      if |selected| >= MaxSelected {
        return;
      }
      selectedHabits := selected + [habitId];
    }

    /** `addCustomHabit(title)`, with the `Date.now()` reading passed in as `now`. */
    method AddCustomHabit(title: string, now: int)
      modifies this
      ensures State() == AfterAddCustomHabit(old(State()), title, now)
    {
      var trimmed := Trim(title);
      if trimmed == [] {
        return;
      }
      var newHabit := Habit(CustomHabitId(now), trimmed, CustomSubtitle);
      var nextHabits := [newHabit] + habits;
      var nextSelected := if |selectedHabits| < MaxSelected then selectedHabits + [newHabit.id] else selectedHabits;
      assert AfterAddCustomHabit(State(), title, now) == State().(habits := nextHabits, selectedHabits := nextSelected);
      habits := nextHabits;
      selectedHabits := nextSelected;
    }

    method SetReminderTime(time: string)
      modifies this
      ensures State() == AfterSetReminderTime(old(State()), time)
    {
      reminderTime := time;
    }

    method SetReminderEnabled(value: bool)
      modifies this
      ensures State() == AfterSetReminderEnabled(old(State()), value)
    {
      reminderEnabled := value;
    }

    method ResetOnboarding()
      modifies this
      ensures State() == Initial()
    {
      goal := None;
      habits := DefaultHabits;
      selectedHabits := [];
      reminderTime := DefaultReminderTime;
      reminderEnabled := true;
    }
  }

  /**
   * Every action keeps the selection at no more than three ids, starting from
   * the initial state or any state that respects the bound.
   */
  lemma ActionsKeepBound(s: OnboardingState, habitId: string, title: string, now: int, goalId: string, time: string, value: bool)
    requires |s.selectedHabits| <= MaxSelected
    ensures |AfterToggleHabit(s, habitId).selectedHabits| <= MaxSelected
    ensures |AfterAddCustomHabit(s, title, now).selectedHabits| <= MaxSelected
    ensures |AfterSetGoal(s, goalId).selectedHabits| <= MaxSelected
    ensures |AfterSetReminderTime(s, time).selectedHabits| <= MaxSelected
    ensures |AfterSetReminderEnabled(s, value).selectedHabits| <= MaxSelected
    ensures |Initial().selectedHabits| <= MaxSelected
  {
  }
}
