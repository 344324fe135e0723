/**
  Calendar arithmetic of the week grid. A date is a whole day, counted from
  1970-01-01, so that all the time-of-day normalisation of renderer.js
  (setHours(0, 0, 0, 0)) is already done. Day 0 was a Thursday.
*/
module Calendar {

  /** Days since 1970-01-01; negative days lie before it. */
  type Date = int

  const Sunday := 0
  const Monday := 1

  /** Date.prototype.getDay: 0 for Sunday through 6 for Saturday. */
  function Weekday(d: Date): (w: int)
    ensures 0 <= w < 7
  {
    (d + 4) % 7
  }

  /**
    getWeekStart: the Monday of the week holding d, where a Sunday belongs to
    the week that began six days before it.
  */
  function WeekStart(d: Date): (r: Date)
    ensures Weekday(r) == Monday
    ensures r <= d <= r + 6
    ensures d - r == 6 <==> Weekday(d) == Sunday
  {
    var day := Weekday(d);
    d - day + (if day == 0 then -6 else 1)
  }

  /** The week start is the only Monday at most six days before d. */
  lemma WeekStartUnique(m: Date, d: Date)
    requires Weekday(m) == Monday && m <= d <= m + 6
    ensures WeekStart(d) == m
  {
  }

  /** Taking the week start of a week start changes nothing. */
  lemma WeekStartIdempotent(d: Date)
    ensures WeekStart(WeekStart(d)) == WeekStart(d)
  {
    WeekStartUnique(WeekStart(d), WeekStart(d));
  }

  /** Seven days later is the same day of the week. */
  lemma WeekdayNextWeek(d: Date)
    ensures Weekday(d + 7) == Weekday(d)
  {
  }

  /** Moving by whole weeks keeps the day of the week. */
  lemma {:induction false} WeekdayShift(d: Date, weeks: int)
    ensures Weekday(d + 7 * weeks) == Weekday(d)
    decreases if weeks < 0 then -weeks else weeks
  {
    if weeks > 0 {
      var e := d + 7 * (weeks - 1);
      WeekdayShift(d, weeks - 1);
      WeekdayNextWeek(e);
      assert d + 7 * weeks == e + 7;
    } else if weeks < 0 {
      var e := d + 7 * weeks;
      WeekdayShift(d, weeks + 1);
      WeekdayNextWeek(e);
      assert d + 7 * (weeks + 1) == e + 7;
    }
  }

  /** The run of n consecutive days starting at start. */
  function Days(start: Date, n: nat): (r: seq<Date>)
    ensures |r| == n
  {
    seq(n, i => start + i)
  }

  /** The seven dates of the week grid that begins at weekStart. */
  function WeekDays(weekStart: Date): seq<Date> {
    Days(weekStart, 7)
  }

  /** getWeekDates: builds the seven dates of the week, one per loop turn. */
  method GetWeekDates(weekStart: Date) returns (dates: seq<Date>)
    ensures |dates| == 7
    ensures forall i :: 0 <= i < 7 ==> dates[i] == weekStart + i
    ensures dates == WeekDays(weekStart)
  {
    dates := [];
    for i := 0 to 7
      invariant |dates| == i
      invariant forall k :: 0 <= k < i ==> dates[k] == weekStart + k
    {
      dates := dates + [weekStart + i];
    }
  }

  /** isFuture: a date strictly after today, whose cell in the grid is read-only. */
  predicate IsFuture(date: Date, today: Date) {
    date > today
  }
}
