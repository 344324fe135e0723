/**
  The statistics shown above the grid, computed from one snapshot of the
  habit list and the completion log. "Today" is a parameter rather than the
  clock.
*/
module Stats {
  import opened Calendar
  import opened Habits
  import opened Completion

  // ---------------------------------------------------------------- streaks

  /**
    n is the length of the run of marked days ending at anchor: the n days
    anchor - n + 1 .. anchor are all marked and the day before them is not.
  */
  ghost predicate IsRunEndingAt(marks: set<Date>, anchor: Date, n: nat) {
    (forall d :: anchor - n < d <= anchor ==> d in marks) && anchor - n !in marks
  }

  /** The length of the run of marked days ending at anchor. */
  function RunLength(marks: set<Date>, anchor: Date): nat
    decreases |marks|
  {
    if anchor in marks then 1 + RunLength(marks - {anchor}, anchor - 1) else 0
  }

  /** The counting starts today when today is marked, and yesterday otherwise. */
  function Anchor(c: Completions, id: string, today: Date): (r: Date)
    ensures today - 1 <= r <= today
    ensures r == today <==> Marked(c, id, today)
  {
    if Marked(c, id, today) then today else today - 1
  }

  /** The streak of a habit as of today. */
  function Streak(c: Completions, id: string, today: Date): nat {
    RunLength(Marks(c, id), Anchor(c, id, today))
  }

  /** RunLength is the length of the maximal run, and no longer than the number of marks. */
  lemma {:induction false} RunLengthIsRun(marks: set<Date>, anchor: Date)
    ensures IsRunEndingAt(marks, anchor, RunLength(marks, anchor))
    ensures RunLength(marks, anchor) <= |marks|
    decreases |marks|
  {
    if anchor in marks {
      var rest := marks - {anchor};
      var n := RunLength(rest, anchor - 1);
      RunLengthIsRun(rest, anchor - 1);
      assert anchor - 1 - n !in marks;
      assert forall d :: anchor - (n + 1) < d <= anchor ==> d in marks by {
        forall d | anchor - (n + 1) < d <= anchor ensures d in marks {
          if d < anchor {
            assert d in rest;
          }
        }
      }
    }
  }

  /** At most one length makes a maximal run ending at a given day. */
  lemma RunIsUnique(marks: set<Date>, anchor: Date, n: nat, m: nat)
    requires IsRunEndingAt(marks, anchor, n) && IsRunEndingAt(marks, anchor, m)
    ensures n == m
  {
  }

  /** The streak is n exactly when n days ending at the anchor are marked and the day before is not. */
  lemma StreakIsMaximalRun(c: Completions, id: string, today: Date, n: nat)
    ensures Streak(c, id, today) == n <==> IsRunEndingAt(Marks(c, id), Anchor(c, id, today), n)
  {
    RunLengthIsRun(Marks(c, id), Anchor(c, id, today));
    if IsRunEndingAt(Marks(c, id), Anchor(c, id, today), n) {
      RunIsUnique(Marks(c, id), Anchor(c, id, today), n, Streak(c, id, today));
    }
  }

  /** The streak is 0 exactly when neither today nor yesterday is marked. */
  lemma StreakZeroIff(c: Completions, id: string, today: Date)
    ensures Streak(c, id, today) == 0 <==> !Marked(c, id, today) && !Marked(c, id, today - 1)
  {
  }

  /** A habit without an entry (never marked, or deleted) has streak 0. */
  lemma StreakOfUntracked(c: Completions, id: string, today: Date)
    requires id !in c
    ensures Streak(c, id, today) == 0
  {
  }

  /** Marked on exactly the last n days up to and including today: the streak is n. */
  lemma StreakEndingToday(c: Completions, id: string, today: Date, n: nat)
    requires n > 0
    requires forall d :: today - n < d <= today ==> Marked(c, id, d)
    requires !Marked(c, id, today - n)
    ensures Streak(c, id, today) == n
  {
    assert Marked(c, id, today);
    forall d | today - n < d <= today ensures d in Marks(c, id) {
      assert Marked(c, id, d);
    }
    StreakIsMaximalRun(c, id, today, n);
  }

  /** Marked on the last n days up to yesterday but not today: the streak is still n. */
  lemma StreakEndingYesterday(c: Completions, id: string, today: Date, n: nat)
    requires !Marked(c, id, today)
    requires forall d :: today - 1 - n < d <= today - 1 ==> Marked(c, id, d)
    requires !Marked(c, id, today - 1 - n)
    ensures Streak(c, id, today) == n
  {
    forall d | today - 1 - n < d <= today - 1 ensures d in Marks(c, id) {
      assert Marked(c, id, d);
    }
    StreakIsMaximalRun(c, id, today, n);
  }

  /**
    calculateStreak: walks back one day at a time from the anchor while the
    day is marked. The walk ends because every step consumes one of the
    finitely many marked days; unvisited holds those not yet passed.
  */
  method CalculateStreak(c: Completions, habitId: string, today: Date) returns (streak: nat)
    ensures IsRunEndingAt(Marks(c, habitId), Anchor(c, habitId, today), streak)
    ensures streak <= |Marks(c, habitId)|
    ensures streak == Streak(c, habitId, today)
  {
    streak := 0;
    var checkDate := today;
    if !Marked(c, habitId, today) {
      checkDate := checkDate - 1;
    }
    ghost var marks := Marks(c, habitId);
    ghost var anchor := checkDate;
    ghost var unvisited := marks;
    while true
      invariant checkDate == anchor - streak
      invariant forall d :: anchor - streak < d <= anchor ==> d in marks
      invariant forall d :: d in marks && d <= checkDate ==> d in unvisited
      invariant |unvisited| + streak <= |marks|
      decreases |unvisited|
    {
      if Marked(c, habitId, checkDate) {
        unvisited := unvisited - {checkDate};
        streak := streak + 1;
        checkDate := checkDate - 1;
      } else {
        break;
      }
    }
    StreakIsMaximalRun(c, habitId, today, streak);
  }

  /**
    calculateBestStreak: the largest streak over the habits, 0 when there are
    none; it is the streak of one of them.
  */
  method CalculateBestStreak(habits: seq<Habit>, c: Completions, today: Date) returns (best: nat)
    ensures forall i :: 0 <= i < |habits| ==> Streak(c, habits[i].id, today) <= best
    ensures habits == [] ==> best == 0
    ensures habits != [] ==> exists i :: 0 <= i < |habits| && best == Streak(c, habits[i].id, today)
  {
    best := 0;
    for i := 0 to |habits|
      invariant forall k :: 0 <= k < i ==> Streak(c, habits[k].id, today) <= best
      invariant best == 0 || exists k :: 0 <= k < i && best == Streak(c, habits[k].id, today)
    {
      var streak := CalculateStreak(c, habits[i].id, today);
      if streak > best {
        best := streak;
      }
    }
    if habits != [] && best == 0 {
      assert Streak(c, habits[0].id, today) == 0;
    }
  }

  // ------------------------------------------------------------ weekly rate

  /** How many of the dates are not in the future. */
  function EligibleCount(dates: seq<Date>, today: Date): (n: nat)
    ensures n <= |dates|
  {
    if dates == [] then 0
    else EligibleCount(dates[..|dates| - 1], today)
         + (if IsFuture(dates[|dates| - 1], today) then 0 else 1)
  }

  /** How many of the non-future dates the habit has marked. */
  function CompletedCount(c: Completions, id: string, dates: seq<Date>, today: Date): (n: nat)
    ensures n <= EligibleCount(dates, today)
  {
    if dates == [] then 0
    else CompletedCount(c, id, dates[..|dates| - 1], today)
         + (if !IsFuture(dates[|dates| - 1], today) && Marked(c, id, dates[|dates| - 1]) then 1 else 0)
  }

  /**
    The denominator: (habit, date) pairs whose date is not in the future.
    Every habit contributes the same number of eligible dates.
  */
  function EligiblePairs(habits: seq<Habit>, dates: seq<Date>, today: Date): (n: nat)
    ensures n == |habits| * EligibleCount(dates, today)
  {
    if habits == [] then 0
    else EligiblePairs(habits[..|habits| - 1], dates, today) + EligibleCount(dates, today)
  }

  /** The numerator: those pairs whose day the habit has marked. */
  function CompletedPairs(habits: seq<Habit>, c: Completions, dates: seq<Date>, today: Date): (n: nat)
    ensures n <= EligiblePairs(habits, dates, today)
  {
    if habits == [] then 0
    else CompletedPairs(habits[..|habits| - 1], c, dates, today)
         + CompletedCount(c, habits[|habits| - 1].id, dates, today)
  }

  /** In a run of n consecutive days from start, the eligible ones are those up to today. */
  lemma {:induction false} EligibleDays(start: Date, n: nat, today: Date)
    ensures EligibleCount(Days(start, n), today)
            == if today < start then 0 else if today - start + 1 < n then today - start + 1 else n
  {
    if n > 0 {
      assert Days(start, n)[..n - 1] == Days(start, n - 1);
      EligibleDays(start, n - 1, today);
    }
  }

  /**
    The week's read-only columns (isFuture) are exactly those the weekly rate
    does not count: the first EligibleCount columns are editable and counted,
    the rest are future.
  */
  lemma FutureColumns(weekStart: Date, today: Date, j: nat)
    requires j < 7
    ensures IsFuture(WeekDays(weekStart)[j], today) <==> j >= EligibleCount(WeekDays(weekStart), today)
  {
    EligibleDays(weekStart, 7, today);
  }

  /** A habit has marked all its eligible dates exactly when its count reaches the eligible count. */
  lemma {:induction false} CompletedCountFull(c: Completions, id: string, dates: seq<Date>, today: Date)
    ensures CompletedCount(c, id, dates, today) == EligibleCount(dates, today)
            <==> forall j :: 0 <= j < |dates| && !IsFuture(dates[j], today) ==> Marked(c, id, dates[j])
  {
    if dates != [] {
      var init := dates[..|dates| - 1];
      CompletedCountFull(c, id, init, today);
      assert forall j :: 0 <= j < |init| ==> init[j] == dates[j];
    }
  }

  /** Every eligible pair is marked exactly when the numerator reaches the denominator. */
  lemma {:induction false} CompletedPairsFull(habits: seq<Habit>, c: Completions, dates: seq<Date>, today: Date)
    ensures CompletedPairs(habits, c, dates, today) == EligiblePairs(habits, dates, today)
            <==> forall i, j :: 0 <= i < |habits| && 0 <= j < |dates| && !IsFuture(dates[j], today)
                                ==> Marked(c, habits[i].id, dates[j])
  {
    if habits != [] {
      var init := habits[..|habits| - 1];
      var last := habits[|habits| - 1];
      CompletedPairsFull(init, c, dates, today);
      CompletedCountFull(c, last.id, dates, today);
      assert forall i :: 0 <= i < |init| ==> init[i] == habits[i];
    }
  }

  /**
    Math.round(100 * completed / total) in exact arithmetic, 0 for an empty
    denominator: the integer nearest to the percentage, halves rounded up.
  */
  function RoundedPercent(completed: nat, total: nat): (r: nat)
    ensures total == 0 ==> r == 0
    ensures total > 0 ==> (2 * r - 1) * total <= 200 * completed < (2 * r + 1) * total
  {
    if total == 0 then 0
    else
      var n := 200 * completed + total;
      var q := n / (2 * total);
      assert n == 2 * total * q + n % (2 * total) && 0 <= n % (2 * total) < 2 * total;
      assert (2 * q - 1) * total == 2 * total * q - total;
      assert (2 * q + 1) * total == 2 * total * q + total;
      q
  }

  /** Multiplying by the same non-negative factor keeps the order. */
  lemma {:induction false} MulMonotone(a: int, b: int, t: nat)
    requires a <= b
    ensures a * t <= b * t
    decreases t
  {
    if t > 0 {
      MulMonotone(a, b, t - 1);
      assert a * t == a * (t - 1) + a;
      assert b * t == b * (t - 1) + b;
    }
  }

  /** A share of the pairs rounds to a percentage in 0..100, and all of them to 100. */
  lemma RoundedPercentBounds(completed: nat, total: nat)
    requires completed <= total
    ensures RoundedPercent(completed, total) <= 100
    ensures total > 0 && completed == total ==> RoundedPercent(completed, total) == 100
  {
    var r := RoundedPercent(completed, total);
    if total > 0 {
      if r > 100 {
        MulMonotone(201, 2 * r - 1, total);
        assert false;
      }
      if completed == total && r < 100 {
        MulMonotone(2 * r + 1, 199, total);
        assert false;
      }
    }
  }

  /** Below 200 eligible pairs, 100 is shown only when every pair is marked. */
  lemma RoundedPercentFull(completed: nat, total: nat)
    requires completed <= total < 200
    requires RoundedPercent(completed, total) == 100
    ensures completed == total
  {
    assert 199 * total <= 200 * completed;
  }

  /** With 200 eligible pairs, one unmarked pair still rounds up to 100. */
  lemma RoundedPercentNotAllMarked()
    ensures RoundedPercent(199, 200) == 100
  {
  }

  /**
    Below 200 eligible pairs the week shows 100 exactly when there is an
    eligible pair and every eligible (habit, date) pair is marked.
  */
  lemma WeeklyRateFull(habits: seq<Habit>, c: Completions, weekStart: Date, today: Date)
    requires EligiblePairs(habits, WeekDays(weekStart), today) < 200
    ensures RoundedPercent(CompletedPairs(habits, c, WeekDays(weekStart), today),
                           EligiblePairs(habits, WeekDays(weekStart), today)) == 100
            <==> EligiblePairs(habits, WeekDays(weekStart), today) > 0
                 && forall i, j :: 0 <= i < |habits| && 0 <= j < 7 && !IsFuture(WeekDays(weekStart)[j], today)
                                   ==> Marked(c, habits[i].id, WeekDays(weekStart)[j])
  {
    var week := WeekDays(weekStart);
    var cp := CompletedPairs(habits, c, week, today);
    var ep := EligiblePairs(habits, week, today);
    CompletedPairsFull(habits, c, week, today);
    RoundedPercentBounds(cp, ep);
    if RoundedPercent(cp, ep) == 100 {
      RoundedPercentFull(cp, ep);
    }
  }

  /**
    calculateWeeklyRate: over the seven dates of the displayed week, counts
    the pairs of a habit and a date up to today, and those of them marked.
  */
  method CalculateWeeklyRate(habits: seq<Habit>, c: Completions, weekStart: Date, today: Date)
    returns (rate: nat)
    ensures rate == RoundedPercent(CompletedPairs(habits, c, WeekDays(weekStart), today),
                                   EligiblePairs(habits, WeekDays(weekStart), today))
    ensures rate <= 100
  {
    var weekDates := GetWeekDates(weekStart);
    var total := 0;
    var completed := 0;
    for i := 0 to |habits|
      invariant total == EligiblePairs(habits[..i], weekDates, today)
      invariant completed == CompletedPairs(habits[..i], c, weekDates, today)
    {
      var habit := habits[i];
      for j := 0 to |weekDates|
        invariant total == EligiblePairs(habits[..i], weekDates, today) + EligibleCount(weekDates[..j], today)
        invariant completed == CompletedPairs(habits[..i], c, weekDates, today)
                               + CompletedCount(c, habit.id, weekDates[..j], today)
      {
        var date := weekDates[j];
        assert weekDates[..j + 1][..j] == weekDates[..j];
        if date <= today {
          total := total + 1;
          if Marked(c, habit.id, date) {
            completed := completed + 1;
          }
        }
      }
      assert weekDates[..|weekDates|] == weekDates;
      assert habits[..i + 1][..i] == habits[..i];
    }
    assert habits[..|habits|] == habits;
    if total == 0 {
      rate := 0;
    } else {
      rate := RoundedPercent(completed, total);
    }
    RoundedPercentBounds(completed, total);
  }

  // ------------------------------------------------------------ today count

  /** The number of habits whose entry marks today. */
  function TodayCount(habits: seq<Habit>, c: Completions, today: Date): (n: nat)
    ensures n <= |habits|
  {
    if habits == [] then 0
    else TodayCount(habits[..|habits| - 1], c, today)
         + (if Marked(c, habits[|habits| - 1].id, today) then 1 else 0)
  }

  /** Every habit is done today exactly when the count is the number of habits. */
  lemma {:induction false} TodayCountAll(habits: seq<Habit>, c: Completions, today: Date)
    ensures TodayCount(habits, c, today) == |habits|
            <==> forall i :: 0 <= i < |habits| ==> Marked(c, habits[i].id, today)
  {
    if habits != [] {
      var init := habits[..|habits| - 1];
      TodayCountAll(init, c, today);
      assert forall i :: 0 <= i < |init| ==> init[i] == habits[i];
    }
  }

  /** No habit is done today exactly when the count is 0. */
  lemma {:induction false} TodayCountNone(habits: seq<Habit>, c: Completions, today: Date)
    ensures TodayCount(habits, c, today) == 0
            <==> forall i :: 0 <= i < |habits| ==> !Marked(c, habits[i].id, today)
  {
    if habits != [] {
      var init := habits[..|habits| - 1];
      TodayCountNone(init, c, today);
      assert forall i :: 0 <= i < |init| ==> init[i] == habits[i];
    }
  }

  /** countTodayCompleted: one pass over the habits, counting those marked today. */
  method CountTodayCompleted(habits: seq<Habit>, c: Completions, today: Date) returns (count: nat)
    ensures count == TodayCount(habits, c, today)
    ensures count <= |habits|
  {
    count := 0;
    for i := 0 to |habits|
      invariant count == TodayCount(habits[..i], c, today)
    {
      assert habits[..i + 1][..i] == habits[..i];
      if Marked(c, habits[i].id, today) {
        count := count + 1;
      }
    }
    assert habits[..|habits|] == habits;
  }

  // --------------------------------------------------------------- examples

  /** 2024-01-01 as a day number; it was a Monday. */
  const NewYear2024: Date := 19723

  /**
    A habit done on 2023-12-31 and 2024-01-01 has streak 2 on 2024-01-01, and
    still 2 on 2024-01-02, when it is not yet done.
  */
  lemma ExampleStreak()
    ensures Weekday(NewYear2024) == Monday
    ensures Streak(map["a" := {NewYear2024 - 1, NewYear2024}], "a", NewYear2024) == 2
    ensures Streak(map["a" := {NewYear2024 - 1, NewYear2024}], "a", NewYear2024 + 1) == 2
  {
    var c := map["a" := {NewYear2024 - 1, NewYear2024}];
    StreakEndingToday(c, "a", NewYear2024, 2);
    StreakEndingYesterday(c, "a", NewYear2024 + 1, 2);
  }

  /**
    In the week of Monday 2024-01-01, seen on Wednesday 2024-01-03, a habit
    done Monday and Tuesday has a weekly rate of round(100 * 2 / 3) = 67.
  */
  lemma ExampleWeeklyRate()
    ensures RoundedPercent(CompletedPairs([Habit("a", "Read", "")], map["a" := {NewYear2024, NewYear2024 + 1}],
                                          WeekDays(NewYear2024), NewYear2024 + 2),
                           EligiblePairs([Habit("a", "Read", "")], WeekDays(NewYear2024), NewYear2024 + 2)) == 67
  {
    var hs := [Habit("a", "Read", "")];
    var c := map["a" := {NewYear2024, NewYear2024 + 1}];
    var week := WeekDays(NewYear2024);
    var today := NewYear2024 + 2;
    EligibleDays(NewYear2024, 7, today);
    assert EligiblePairs(hs, week, today) == 3;
    assert week[..3][..2] == week[..2] && week[..2][..1] == week[..1] && week[..1][..0] == [];
    assert CompletedCount(c, "a", week[..1], today) == 1;
    assert CompletedCount(c, "a", week[..2], today) == 2;
    assert CompletedCount(c, "a", week[..3], today) == 2;
    CompletedFutureTail(c, "a", week, today, 3, 7);
    assert week[..7] == week;
    assert CompletedPairs(hs, c, week, today) == 2;
  }

  /** Dates after today add nothing to a habit's completed count. */
  lemma {:induction false} CompletedFutureTail(c: Completions, id: string, dates: seq<Date>, today: Date,
                                                 past: nat, k: nat)
    requires past <= k <= |dates|
    requires forall j :: past <= j < |dates| ==> IsFuture(dates[j], today)
    ensures CompletedCount(c, id, dates[..k], today) == CompletedCount(c, id, dates[..past], today)
  {
    if k > past {
      assert dates[..k][..k - 1] == dates[..k - 1];
      CompletedFutureTail(c, id, dates, today, past, k - 1);
    }
  }
}
