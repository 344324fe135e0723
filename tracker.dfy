/**
  The tracker's mutable state, as the renderer keeps it: the habit list in
  display order, the completion log, the first day of the displayed week and
  the id of the habit whose edit dialog is open. Each action changes these
  fields in place; persisting them afterwards is outside the model.
*/
module Tracker {
  import opened Wrappers
  import opened Text
  import opened Calendar
  import opened Habits
  import opened Completion

  /** Every name is non-empty and already trimmed, as the two name inputs leave it. */
  ghost predicate NamesTrimmed(habits: seq<Habit>) {
    forall i :: 0 <= i < |habits| ==> IsTrimmedName(habits[i].name)
  }

  /**
    The state every action expects: distinct non-empty ids, trimmed non-empty
    names, a completion entry only for a habit that exists.
  */
  ghost predicate Consistent(habits: seq<Habit>, completions: Completions) {
    UniqueIds(habits) && "" !in HabitIds(habits) && NamesTrimmed(habits)
    && completions.Keys <= HabitIds(habits)
  }

  /** Renaming to a trimmed non-empty name keeps every name trimmed and non-empty. */
  lemma RenameKeepsNamesTrimmed(habits: seq<Habit>, id: string, newName: string)
    requires NamesTrimmed(habits)
    requires IsTrimmedName(newName)
    ensures NamesTrimmed(Rename(habits, id, newName))
  {
    var r := Rename(habits, id, newName);
    forall i | 0 <= i < |r| ensures IsTrimmedName(r[i].name) {
      assert r[i].name == newName || r[i].name == habits[i].name;
    }
  }

  /** `!editingHabitId` in the source is true for null and for the empty string alike. */
  predicate IsEditing(editing: Option<string>) {
    editing.Some? && editing.value != ""
  }

  /** Appending a habit with a fresh id and a trimmed name, with an empty entry, keeps a consistent state consistent. */
  lemma AppendKeepsConsistent(habits: seq<Habit>, completions: Completions, habit: Habit)
    requires habit.id != "" && habit.id !in HabitIds(habits)
    requires IsTrimmedName(habit.name)
    ensures HabitIds(habits + [habit]) == HabitIds(habits) + {habit.id}
    ensures Consistent(habits, completions) ==> Consistent(habits + [habit], completions[habit.id := {}])
  {
    AppendIds(habits, habit);
    if Consistent(habits, completions) {
      AppendUnique(habits, habit);
      AppendNamesTrimmed(habits, habit);
    }
  }

  lemma AppendIds(habits: seq<Habit>, habit: Habit)
    ensures HabitIds(habits + [habit]) == HabitIds(habits) + {habit.id}
  {
    assert forall h :: h in habits + [habit] <==> h in habits || h == habit;
  }

  lemma AppendUnique(habits: seq<Habit>, habit: Habit)
    requires UniqueIds(habits) && habit.id !in HabitIds(habits)
    ensures UniqueIds(habits + [habit])
  {
    var r := habits + [habit];
    forall i, j | 0 <= i < j < |r| ensures r[i].id != r[j].id {
      if j == |habits| {
        assert r[i] in habits;
      } else {
        assert r[i] == habits[i] && r[j] == habits[j];
      }
    }
  }

  lemma AppendNamesTrimmed(habits: seq<Habit>, habit: Habit)
    requires NamesTrimmed(habits)
    requires IsTrimmedName(habit.name)
    ensures NamesTrimmed(habits + [habit])
  {
    var r := habits + [habit];
    forall i | 0 <= i < |r| ensures IsTrimmedName(r[i].name) {
      if i < |habits| {
        assert r[i] == habits[i];
      }
    }
  }

  /** Renaming to a trimmed non-empty name keeps a consistent state consistent. */
  lemma RenameKeepsConsistent(habits: seq<Habit>, completions: Completions, id: string, newName: string)
    requires IsTrimmedName(newName)
    ensures Consistent(habits, completions) ==> Consistent(Rename(habits, id, newName), completions)
    ensures HabitIds(Rename(habits, id, newName)) == HabitIds(habits)
  {
    var r := Rename(habits, id, newName);
    RenameKeepsIds(habits, id, newName);
    if Consistent(habits, completions) {
      RenameKeepsNamesTrimmed(habits, id, newName);
      assert UniqueIds(r) by {
        forall i, j | 0 <= i < j < |r| ensures r[i].id != r[j].id {
          assert r[i].id == habits[i].id && r[j].id == habits[j].id;
        }
      }
    }
  }

  /**
    The tracker's invariant over its four fields: a consistent list and log,
    a displayed week that starts on a Monday, and an edited id that is listed.
  */
  ghost predicate ValidState(habits: seq<Habit>, completions: Completions, weekStart: Date, editing: Option<string>) {
    Consistent(habits, completions)
    && Weekday(weekStart) == Monday
    && (editing.Some? ==> editing.value in HabitIds(habits))
  }

  /** What addHabit does to a valid state, for a name that trims to something, leaves it valid. */
  lemma AddKeepsValid(habits: seq<Habit>, completions: Completions, weekStart: Date, editing: Option<string>,
                      input: string, id: string, createdAt: string)
    requires Trim(input) != ""
    requires id != "" && id !in HabitIds(habits)
    ensures ValidState(habits, completions, weekStart, editing) ==>
              ValidState(habits + [Habit(id, Trim(input), createdAt)], completions[id := {}], weekStart, editing)
  {
    TrimGivesTrimmedName(input);
    AppendKeepsConsistent(habits, completions, Habit(id, Trim(input), createdAt));
  }

  /** What saveEdit does to a valid state, renaming to a name that trims to something and closing the dialog, leaves it valid. */
  lemma RenameKeepsValid(habits: seq<Habit>, completions: Completions, weekStart: Date, editing: Option<string>,
                         id: string, input: string)
    requires Trim(input) != ""
    ensures ValidState(habits, completions, weekStart, editing) ==>
              ValidState(Rename(habits, id, Trim(input)), completions, weekStart, None)
  {
    TrimGivesTrimmedName(input);
    RenameKeepsConsistent(habits, completions, id, Trim(input));
  }

  class HabitTracker {
    var habits: seq<Habit>
    var completions: Completions
    var currentWeekStart: Date
    var editingHabitId: Option<string>

    ghost predicate Valid()
      reads this
    {
      ValidState(habits, completions, currentWeekStart, editingHabitId)
    }

    /**
      The state after loadData: the stored collections (empty on a first
      run), the week that holds today, and no dialog open.
    */
    constructor (storedHabits: seq<Habit>, storedCompletions: Completions, today: Date)
      ensures habits == storedHabits && completions == storedCompletions
      ensures currentWeekStart == WeekStart(today) && editingHabitId == None
      ensures Valid() <==> Consistent(storedHabits, storedCompletions)
    {
      habits := storedHabits;
      completions := storedCompletions;
      currentWeekStart := WeekStart(today);
      editingHabitId := None;
    }

    /**
      addHabit: the typed text is trimmed; an empty name changes nothing.
      Otherwise the new habit goes to the end of the list and gets an empty
      entry. The id comes from generateId, which is fresh.
    */
    method AddHabit(input: string, id: string, createdAt: string)
      requires Trim(input) != "" ==> id != "" && id !in HabitIds(habits)
      modifies this
      ensures currentWeekStart == old(currentWeekStart) && editingHabitId == old(editingHabitId)
      ensures Trim(input) == "" ==> habits == old(habits) && completions == old(completions)
      ensures Trim(input) != "" ==>
                habits == old(habits) + [Habit(id, Trim(input), createdAt)]
                && completions == old(completions)[id := {}]
      ensures old(Valid()) ==> Valid()
    {
      var name := Trim(input);
      if name == "" {
        return;
      }
      var habit := Habit(id, name, createdAt);
      AddKeepsValid(habits, completions, currentWeekStart, editingHabitId, input, id, createdAt);
      habits := habits + [habit];
      completions := completions[habit.id := {}];
    }

    /**
      toggleCompletion: marks or unmarks one day of one habit and touches
      nothing else. The grid only offers this for a listed habit.
    */
    method ToggleCompletion(habitId: string, date: Date, isCompleted: bool)
      modifies this
      ensures completions == Toggle(old(completions), habitId, date, isCompleted)
      ensures habits == old(habits) && currentWeekStart == old(currentWeekStart)
      ensures editingHabitId == old(editingHabitId)
      ensures old(Valid()) && habitId in HabitIds(habits) ==> Valid()
    {
      if habitId !in completions {
        completions := completions[habitId := {}];
      }
      if isCompleted {
        completions := completions[habitId := completions[habitId] + {date}];
      } else {
        completions := completions[habitId := completions[habitId] - {date}];
      }
    }

    /** openEditModal, its data part: remembers the habit, if it exists. */
    method OpenEditModal(habitId: string)
      modifies this
      ensures editingHabitId == if habitId in HabitIds(habits) then Some(habitId) else old(editingHabitId)
      ensures habits == old(habits) && completions == old(completions)
      ensures currentWeekStart == old(currentWeekStart)
      ensures old(Valid()) ==> Valid()
    {
      var found := FindIndex(habits, habitId);
      if found.None? {
        return;
      }
      editingHabitId := Some(habitId);
    }

    /** closeEditModal, its data part: forgets the habit being edited. */
    method CloseEditModal()
      modifies this
      ensures editingHabitId == None
      ensures habits == old(habits) && completions == old(completions)
      ensures currentWeekStart == old(currentWeekStart)
      ensures old(Valid()) ==> Valid()
    {
      editingHabitId := None;
    }

    /**
      saveEdit: an empty trimmed name, or no habit being edited, returns at
      once and leaves even the dialog open. Otherwise the first habit with
      the edited id is renamed (none, if it is gone) and the dialog closes.
    */
    method SaveEdit(input: string)
      modifies this
      ensures Trim(input) == "" || !IsEditing(old(editingHabitId)) ==>
                habits == old(habits) && editingHabitId == old(editingHabitId)
      ensures Trim(input) != "" && IsEditing(old(editingHabitId)) ==>
                habits == Rename(old(habits), old(editingHabitId).value, Trim(input))
                && editingHabitId == None
      ensures completions == old(completions) && currentWeekStart == old(currentWeekStart)
      ensures old(Valid()) ==> Valid()
    {
      var newName := Trim(input);
      if newName == "" || !IsEditing(editingHabitId) {
        return;
      }
      var id := editingHabitId.value;
      var found := FindIndex(habits, id);
      if found.Some? {
        var i := found.value;
        habits := habits[i := habits[i].(name := newName)];
      }
      assert habits == Rename(old(habits), id, newName);
      RenameKeepsValid(old(habits), completions, currentWeekStart, old(editingHabitId), id, input);
      CloseEditModal();
    }

    /**
      deleteHabit: with a habit being edited, removes every habit with its
      id, keeps the rest in order, drops its entry and closes the dialog.
    */
    method DeleteHabit()
      modifies this
      ensures !IsEditing(old(editingHabitId)) ==>
                habits == old(habits) && completions == old(completions)
                && editingHabitId == old(editingHabitId)
      ensures IsEditing(old(editingHabitId)) ==>
                habits == WithoutId(old(habits), old(editingHabitId).value)
                && completions == old(completions) - {old(editingHabitId).value}
                && editingHabitId == None
      ensures currentWeekStart == old(currentWeekStart)
      ensures old(Valid()) ==> Valid()
    {
      if !IsEditing(editingHabitId) {
        return;
      }
      var id := editingHabitId.value;
      habits := WithoutId(habits, id);
      completions := completions - {id};
      WithoutIdIds(old(habits), id);
      if UniqueIds(old(habits)) {
        WithoutIdUnique(old(habits), id);
      }
      CloseEditModal();
    }

    /** navigateWeek: moves the displayed week by direction weeks (the buttons pass -1 and 1). */
    method NavigateWeek(direction: int)
      modifies this
      ensures currentWeekStart == old(currentWeekStart) + direction * 7
      ensures habits == old(habits) && completions == old(completions)
      ensures editingHabitId == old(editingHabitId)
      ensures old(Valid()) ==> Valid()
    {
      WeekdayShift(currentWeekStart, direction);
      currentWeekStart := currentWeekStart + direction * 7;
    }
  }
}
