# Habit tracker: a Dafny model of the renderer's data logic

The habit tracker is a small desktop application. Users define habits, tick the days on which they did them in a weekly grid, and see four numbers: how many habits there are, how many are done today, the best current streak, and the completion rate for the displayed week. All of its logic is in `renderer.js`. This project models that logic without the DOM and the Electron glue:

- **State** (`Tracker.HabitTracker`): a class with the renderer's module-level variables as fields. These are the habit list (`seq<Habit>`, in display order), the completion log, the Monday of the displayed week, and the id of the habit whose edit dialog is open. `addHabit`, `toggleCompletion`, `saveEdit`, `deleteHabit` and `navigateWeek` are methods that change those fields in place. Every method says what the whole new state is. The invariant `Valid()` says that ids are distinct and non-empty, names are non-empty and trimmed, only listed habits have completion entries, the week start is a Monday, and the edited id belongs to a listed habit. `AddHabit`, `OpenEditModal`, `CloseEditModal`, `SaveEdit`, `DeleteHabit` and `NavigateWeek` keep it. `ToggleCompletion` keeps it when the habit is listed, which is the only case the grid offers. The constructor establishes it exactly when the loaded data is consistent.
- **Completion log** (`Completion`): `map<string, set<Date>>`. The renderer stores `{ dateKey: true }` per habit and deletes the key to unmark a day, so a set of marked days says exactly the same thing.
- **Statistics** (`Stats`): `calculateStreak`, `calculateBestStreak`, `calculateWeeklyRate` and `countTodayCompleted`. Each is a method with the source's loops, computed over one snapshot of the state. Each is proved against a specification function, and lemmas prove properties of those functions.
- **Calendar** (`Calendar`): a date is a whole day counted from 1970-01-01 (a Thursday). JavaScript's `getDay()` is then `(d + 4) % 7`, and the time-of-day normalisation done with `setHours(0, 0, 0, 0)` is already built in. `formatDate` is assumed injective on days, so a date key is just the day number.
- **Text** (`Text`): `String.prototype.trim`, which the two name inputs go through. It removes the ECMAScript white-space and line-terminator code points.

"Today" and the current time are parameters. Persistence is outside the model.

## Model

| member | source | states |
|---|---|---|
| Text.TrimStart | renderer.js:258 | the result is a suffix of the input, starts with a non-white-space character (or is empty), and everything dropped is white space |
| Text.TrimEnd | renderer.js:258 | the result is a prefix of the input, ends with a non-white-space character (or is empty), and everything dropped is white space |
| Text.TrimStartDropsWhitespace | renderer.js:258 | every character trimStart drops is white space |
| Text.TrimEndDropsWhitespace | renderer.js:258 | every character trimEnd drops is white space |
| Text.Trim | renderer.js:258 | the trimmed name is no longer than the input and neither starts nor ends with white space |
| Text.TrimIsSlice | renderer.js:258 | the trimmed name is a slice `s[i..j]` of the input with only white space before `i` and after `j` |
| Text.TrimEmptyIff | renderer.js:258-259 | a typed name is refused (trims to empty) exactly when all its characters are white space |
| Text.TrimIdempotent | renderer.js:308 | trimming an already trimmed name changes nothing |
| Text.TrimmedNameIff | renderer.js:258-259 | a name is non-empty, starts and ends with non-white-space exactly when it is non-empty and trimming leaves it alone |
| Text.TrimGivesTrimmedName | renderer.js:258-263 | a name that survives the empty check is non-empty and trimmed, as every stored name is |
| Calendar.Weekday | renderer.js:34 | the day of the week is in 0..6 (0 = Sunday, as `getDay()`) |
| Calendar.WeekStart | renderer.js:32-39 | getWeekStart returns a Monday at most six days before the date, exactly six days before when the date is a Sunday |
| Calendar.WeekStartUnique | renderer.js:32-39 | that Monday is the only Monday at most six days before the date |
| Calendar.WeekStartIdempotent | renderer.js:32-39 | the week start of a week start is itself |
| Calendar.WeekdayNextWeek | renderer.js:335 | seven days later is the same day of the week |
| Calendar.WeekdayShift | renderer.js:334-335 | moving by whole weeks keeps the day of the week, so navigation keeps the week start a Monday |
| Calendar.GetWeekDates | renderer.js:49-57 | getWeekDates yields exactly 7 consecutive days, the first being the week start |
| Calendar.IsFuture | renderer.js:68-72 | a grid day is read-only when it is after today's midnight; its use in the weekly rate is stated by `Stats.FutureColumns` |
| Habits.FindIndex | renderer.js:311 | `find` yields the first habit with the id, or nothing exactly when no habit has it |
| Habits.Rename | renderer.js:311-313 | renaming changes only the name of the first habit with the id; length, ids, time stamps and other names stay; no match leaves the list unchanged |
| Habits.RenameKeepsIds | renderer.js:311-313 | renaming keeps the set of habit ids |
| Habits.WithoutId | renderer.js:324 | `filter` keeps exactly the habits whose id differs from the removed one |
| Habits.WithoutIdAppend | renderer.js:324 | filtering distributes over concatenation, so the habits kept stay in their order |
| Habits.WithoutIdNoMatch | renderer.js:324 | filtering out an id no habit has leaves the list unchanged |
| Habits.WithoutIdIds | renderer.js:324 | the ids left are the old ids minus the removed one |
| Habits.WithoutIdUnique | renderer.js:324 | filtering keeps ids distinct |
| Completion.Toggle | renderer.js:277-286 | toggling creates the habit's entry, makes the day marked iff `isCompleted`, and changes no other day of the habit and no other habit's entry |
| Completion.ToggleRoundTrip | renderer.js:278-286 | marking then unmarking a day restores the log exactly when the habit had an entry and the day was unmarked |
| Completion.ToggleRoundTripUntracked | renderer.js:278-280 | for a habit with no entry, the round trip leaves an empty entry behind |
| Completion.ToggleIdempotent | renderer.js:282-286 | setting a day to the same value twice is setting it once |
| Stats.Anchor | renderer.js:82-86 | the walk starts today when today is marked and yesterday otherwise, never elsewhere |
| Stats.RunLengthIsRun | renderer.js:88-96 | the backward walk counts a maximal run of marked days ending at the start day, and never more days than are marked |
| Stats.RunIsUnique | renderer.js:88-96 | a maximal run ending at a given day has only one possible length |
| Stats.StreakIsMaximalRun | renderer.js:75-99 | the streak is n exactly when the n days ending at the anchor are marked and the day before them is not |
| Stats.StreakZeroIff | renderer.js:82-96 | the streak is 0 exactly when neither today nor yesterday is marked |
| Stats.StreakOfUntracked | renderer.js:84-90 | a habit with no entry (never marked, or deleted) has streak 0 |
| Stats.StreakEndingToday | renderer.js:82-96 | marked on exactly the last n days up to today gives streak n |
| Stats.StreakEndingYesterday | renderer.js:82-86 | unmarked today but marked on the last n days up to yesterday still gives streak n |
| Stats.CalculateStreak | renderer.js:75-99 | the while(true) loop ends; its result is the length of the maximal run ending at the anchor (today if marked, else yesterday) and at most the number of marked days |
| Stats.CalculateBestStreak | renderer.js:102-109 | the best streak is at least every habit's streak, is one of them, and is 0 with no habits |
| Stats.EligibleCount | renderer.js:121-123 | the dates counted are at most the dates given |
| Stats.CompletedCount | renderer.js:121-127 | a habit's completed dates are at most its eligible dates |
| Stats.CompletedPairs | renderer.js:120-130 | the numerator never exceeds the denominator |
| Stats.EligiblePairs | renderer.js:117-123 | the denominator, counted habit by habit, is the number of habits times the number of week dates up to today |
| Stats.EligibleDays | renderer.js:113-123 | of n consecutive days from the start, the days up to today are counted: none if today is before the start, all n if today is after them |
| Stats.FutureColumns | renderer.js:121-122 | a column of the week grid is future (read-only) exactly when it lies past the eligible dates the rate counts, so the counted dates are the non-future ones |
| Stats.CompletedCountFull | renderer.js:121-127 | a habit's count reaches its eligible count exactly when it marked every non-future date |
| Stats.CompletedPairsFull | renderer.js:120-130 | the numerator equals the denominator exactly when every eligible (habit, date) pair is marked |
| Stats.RoundedPercent | renderer.js:132-133 | 0 for an empty denominator (no division); otherwise the integer nearest to 100 * completed / total, halves rounded up, in exact arithmetic |
| Stats.RoundedPercentBounds | renderer.js:132-133 | the rate lies in 0..100, and is 100 when every eligible pair is marked |
| Stats.RoundedPercentFull | renderer.js:133 | with fewer than 200 eligible pairs, a rate of 100 means every pair is marked |
| Stats.RoundedPercentNotAllMarked | renderer.js:133 | 199 marked pairs out of 200 also round to 100 |
| Stats.WeeklyRateFull | renderer.js:112-134 | with fewer than 200 eligible pairs, the week's rate is 100 exactly when there is an eligible pair and every habit marked every non-future day of the week |
| Stats.CalculateWeeklyRate | renderer.js:112-134 | the nested loops count the eligible and the marked (habit, date) pairs of the displayed week; the result is their rounded percentage, 0 with no eligible pair, and at most 100 |
| Stats.TodayCount | renderer.js:137-146 | the number of habits done today is at most the number of habits |
| Stats.TodayCountAll | renderer.js:140-145 | the count equals the number of habits exactly when every habit is marked today |
| Stats.TodayCountNone | renderer.js:140-145 | the count is 0 exactly when no habit is marked today |
| Stats.CountTodayCompleted | renderer.js:137-146 | the counting loop returns the number of habits marked today |
| Stats.CompletedFutureTail | renderer.js:122 | dates after today add nothing to a habit's completed count |
| Stats.ExampleStreak | renderer.js:75-99 | marks on 2023-12-31 and 2024-01-01 give streak 2 on 2024-01-01 and on 2024-01-02 |
| Stats.ExampleWeeklyRate | renderer.js:112-134 | the week of 2024-01-01 seen on its Wednesday, one habit done Monday and Tuesday, gives 67 |
| Tracker.RenameKeepsNamesTrimmed | renderer.js:311-313 | renaming to a trimmed non-empty name keeps every name trimmed and non-empty |
| Tracker.AppendIds | renderer.js:267 | pushing a habit adds exactly its id to the ids |
| Tracker.AppendUnique | renderer.js:262-267 | pushing a habit with a fresh id keeps the ids distinct |
| Tracker.AppendNamesTrimmed | renderer.js:258-267 | pushing a habit with a trimmed name keeps every name trimmed |
| Tracker.AppendKeepsConsistent | renderer.js:261-268 | pushing a fresh, trimmed habit with an empty entry keeps the list and the log consistent |
| Tracker.RenameKeepsConsistent | renderer.js:311-313 | renaming to a trimmed name keeps the ids and the consistency of list and log |
| Tracker.AddKeepsValid | renderer.js:257-268 | what addHabit does to the fields keeps the tracker's invariant |
| Tracker.RenameKeepsValid | renderer.js:307-318 | what saveEdit does to the fields (rename, then close the dialog) keeps the tracker's invariant |
| Tracker.HabitTracker.constructor | renderer.js:4-7 | the loaded collections, the week holding today, no dialog open; valid exactly when the loaded data is consistent (distinct non-empty ids, trimmed non-empty names, entries only for listed habits) |
| Tracker.HabitTracker.AddHabit | renderer.js:257-268 | a name that trims to empty changes nothing; otherwise exactly one habit with the trimmed name is appended and its entry set to empty; validity is kept |
| Tracker.HabitTracker.ToggleCompletion | renderer.js:277-286 | the log becomes `Toggle` of the old log; nothing else changes; validity is kept for a listed habit |
| Tracker.HabitTracker.OpenEditModal | renderer.js:292-296 | the edited id is set only when a habit has it |
| Tracker.HabitTracker.CloseEditModal | renderer.js:302-305 | no habit is being edited any more |
| Tracker.HabitTracker.SaveEdit | renderer.js:307-319 | an empty trimmed name or no edited habit changes nothing (the dialog stays open); otherwise only the matching habit's name changes and the dialog closes; validity is kept |
| Tracker.HabitTracker.DeleteHabit | renderer.js:321-330 | with an edited habit, every habit with its id is removed, the rest keep their order, its entry is removed and the dialog closes; otherwise nothing changes |
| Tracker.HabitTracker.NavigateWeek | renderer.js:334-335 | the week start moves by exactly 7 * direction days; nothing else changes and the start stays a Monday |

### Behaviour of the code worth knowing

- Toggling a day on and then off does not always give back the previous log. When the habit had no entry, renderer.js:278-280 creates an empty one, and it stays behind (`Completion.ToggleRoundTrip`, `Completion.ToggleRoundTripUntracked`).
- `saveEdit` with an empty trimmed name returns at renderer.js:309, before `closeEditModal`, so the edit dialog stays open.
- When the edited habit is no longer listed, `saveEdit` renames nothing but still closes the dialog (renderer.js:311-318).
- `addHabit` returns no value (renderer.js:257-275).
- The guards `!editingHabitId` at renderer.js:309 and renderer.js:322 treat an empty-string id like `null`: no habit is being edited (`Tracker.IsEditing`).

## Left out

- Persistence: `loadData`, `saveHabits`, `saveCompletions`, the `await`s, and the IPC handlers in `main.js` and `preload.js` that forward them to `electron-store`, a foreign library. The constructor takes the loaded collections as parameters. A failed save is not modelled.
- DOM rendering and UI wiring: `renderHeader`, `renderHabits`, `updateStats`, the event listeners, and the element lookups. Of the edit dialog, only its effect on `editingHabitId` is modelled.
- `generateId` reads the clock and `Math.random`. The id is a parameter of `AddHabit`, with the precondition that it is non-empty and fresh whenever a habit will be created. `createdAt`, from `new Date().toISOString()`, is a parameter too.
- `formatDate`, `isToday` and `formatShortDate` are display and key formatting. Dates are day numbers, and one `today` stands for every reading of the clock. The renderer reads the clock in two ways. `countTodayCompleted` (renderer.js:138) and `isToday` (renderer.js:64-65) format the current instant. `calculateStreak` (renderer.js:77-83), `calculateWeeklyRate` (renderer.js:114-115) and the grid's keys (renderer.js:215) use local midnight. Since `formatDate` goes through `toISOString` (UTC), these two can name different days in time zones away from UTC. That difference is not modelled.
- Floating point: `Math.round((completed / total) * 100)` is modelled as `(200 * completed + total) / (2 * total)`, rounding the exact quotient. In IEEE doubles, a quotient that is exactly a half in exact arithmetic can land just below it. The model then rounds up where the renderer rounds down: 23/40 gives 58 here and 57 there, 29/200 gives 15 and 14, and 113/200 gives 57 and 56. The smallest total with such a difference is 40.
- Stats.RoundedPercent: its bounds hold in exact arithmetic; at the halves listed above it is one more than what `Math.round` returns on doubles.
- Stored logs that hold an explicit `false` or any other non-`true` value cannot be represented. The application itself never writes one.
- Marking a future day is prevented only by disabling the grid's checkbox. `ToggleCompletion`, like `toggleCompletion`, accepts any date.
- Stats.RoundedPercentFull: "a rate of 100 means every eligible pair is marked" holds only below 200 eligible pairs. With 200 or more, 199/200 already rounds to 100 (`Stats.RoundedPercentNotAllMarked`).
