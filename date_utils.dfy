/** Due-date calculation for the three kinds of habit frequency.

    A `daily` habit is due every day, an `interval` habit every N days
    counted from its start date, and a `custom_weekdays` habit on the
    weekdays its `customdays` list names. The weekday scans look at most a
    week ahead; when the list names no weekday at all they run off the end
    and answer eight days after the date they started from. */
module DateUtils {
  import opened Calendar
  import opened WeekdayNames

  /** The `frequencyType` field. Any string other than the three the
      application writes is `Unrecognized`. */
  datatype FrequencyType = Daily | Interval | CustomWeekdays | Unrecognized

  /** The fields of a stored habit record that scheduling and progress read.
      `intervalDays` is the `intervalday` field after parseInt. */
  datatype Habit = Habit(
    frequencyType: FrequencyType,
    intervalDays: int,
    customDays: string,
    startDate: Date,
    completionHistory: seq<Date>,
    counter: int,
    incrementation: int,
    totalCompleted: int)

  // ---------------------------------------------------------------------
  // Weekday sets and the forward scans

  /** The date falls on one of the given weekdays. */
  predicate IsValidDay(days: set<int>, d: Date)
  {
    Weekday(d) in days
  }

  /** Some actual weekday (0 .. 6) is in the set; only such a set can ever
      make a date valid. */
  predicate HasValidWeekday(days: set<int>)
  {
    exists w :: 0 <= w < 7 && w in days
  }

  /** `r` is the first valid date on or after `lo`. */
  ghost predicate IsFirstValidFrom(days: set<int>, lo: Date, r: Date)
  {
    lo <= r && IsValidDay(days, r) && forall d :: lo <= d < r ==> !IsValidDay(days, d)
  }

  /** What the creation-time scan answers from `from`: the first valid date
      from `from` on (at most six days later), or `from + 8` when no
      weekday is valid. */
  ghost predicate IsNextValidWeekday(days: set<int>, from: Date, r: Date)
  {
    if HasValidWeekday(days) then r < from + 7 && IsFirstValidFrom(days, from, r)
    else r == from + 8
  }

  /** What the after-completion scan answers from `from`: the first valid
      date strictly after `from` (at most seven days later), or `from + 8`
      when no weekday is valid. */
  ghost predicate IsNextValidWeekdayAfter(days: set<int>, from: Date, r: Date)
  {
    if HasValidWeekday(days) then r <= from + 7 && IsFirstValidFrom(days, from + 1, r)
    else r == from + 8
  }

  /** A valid date shows that some weekday is valid. */
  lemma ValidDayShowsWeekday(days: set<int>, d: Date)
    requires IsValidDay(days, d)
    ensures HasValidWeekday(days)
  {
    assert 0 <= Weekday(d) < 7 && Weekday(d) in days;
  }

  /** Seven consecutive dates with no valid one mean no weekday is valid. */
  lemma NoValidDayInAWeek(days: set<int>, lo: Date)
    requires forall d :: lo <= d < lo + 7 ==> !IsValidDay(days, d)
    ensures !HasValidWeekday(days)
  {
    if HasValidWeekday(days) {
      var w :| 0 <= w < 7 && w in days;
      var d := DayWithWeekday(lo, w);
      assert IsValidDay(days, d);
    }
  }

  /** The bounded scan both weekday searches share: the first valid date
      among the `steps` dates from `lo`, or `lo + steps` if there is none. */
  function ScanForward(days: set<int>, lo: Date, steps: nat): (r: Date)
    ensures lo <= r <= lo + steps
    ensures forall d :: lo <= d < r ==> !IsValidDay(days, d)
    ensures r < lo + steps ==> IsValidDay(days, r)
    decreases steps
  {
    if steps == 0 || IsValidDay(days, lo) then lo else ScanForward(days, lo + 1, steps - 1)
  }

  /** A scan of seven dates finds a valid one whenever some weekday is valid. */
  lemma ScanOfAWeekFinds(days: set<int>, lo: Date)
    ensures HasValidWeekday(days) ==> ScanForward(days, lo, 7) < lo + 7
  {
    if HasValidWeekday(days) {
      var w :| 0 <= w < 7 && w in days;
      var d := DayWithWeekday(lo, w);
      assert IsValidDay(days, d);
    }
  }

  /** getNextValidWeekday on an already parsed weekday set: `from` itself if
      it is valid, otherwise the scan of the seven following dates. */
  function NextValidWeekday(days: set<int>, from: Date): (r: Date)
    ensures IsNextValidWeekday(days, from, r)
  {
    WeekdayWeekLater(from);
    if IsValidDay(days, from) then from
    else
      ScanOfAWeekFinds(days, from + 1);
      ScanForward(days, from + 1, 7)
  }

  /** getNextValidWeekdayAfterCompletion on an already parsed weekday set:
      the scan of the seven dates after `from`. */
  function NextValidWeekdayAfterCompletion(days: set<int>, from: Date): (r: Date)
    ensures IsNextValidWeekdayAfter(days, from, r)
  {
    ScanOfAWeekFinds(days, from + 1);
    ScanForward(days, from + 1, 7)
  }

  /** Each scan has exactly one answer, so any date a scan method returns is
      the one the due-date functions use. */
  lemma NextValidWeekdayUnique(days: set<int>, from: Date, r: Date)
    requires IsNextValidWeekday(days, from, r)
    ensures r == NextValidWeekday(days, from)
  {
  }

  lemma NextValidWeekdayAfterUnique(days: set<int>, from: Date, r: Date)
    requires IsNextValidWeekdayAfter(days, from, r)
    ensures r == NextValidWeekdayAfterCompletion(days, from)
  {
  }

  /** Finds the next date on one of the listed weekdays, counting `fromDate`
      itself: check `fromDate`, then step a cursor through the next seven days. */
  method GetNextValidWeekday(fromDate: Date, customdays: string) returns (r: Date)
    ensures IsNextValidWeekday(ParseWeekdays(customdays), fromDate, r)
  {
    var validDays := ParseWeekdays(customdays);
    var currentDate := fromDate;
    if IsValidDay(validDays, currentDate) {
      ValidDayShowsWeekday(validDays, currentDate);
      return currentDate;
    }
    WeekdayWeekLater(fromDate);
    currentDate := currentDate + 1;
    for i := 0 to 7
      invariant currentDate == fromDate + 1 + i
      invariant forall d :: fromDate <= d < currentDate ==> !IsValidDay(validDays, d)
    {
      if IsValidDay(validDays, currentDate) {
        ValidDayShowsWeekday(validDays, currentDate);
        return currentDate;
      }
      currentDate := currentDate + 1;
    }
    NoValidDayInAWeek(validDays, fromDate + 1);
    return currentDate;
  }

  /** Finds the next date on one of the listed weekdays strictly after
      `fromDate`: step a cursor through the seven following days. */
  method GetNextValidWeekdayAfterCompletion(fromDate: Date, customdays: string) returns (r: Date)
    ensures IsNextValidWeekdayAfter(ParseWeekdays(customdays), fromDate, r)
  {
    var validDays := ParseWeekdays(customdays);
    var currentDate := fromDate + 1;
    for i := 0 to 7
      invariant currentDate == fromDate + 1 + i
      invariant forall d :: fromDate < d < currentDate ==> !IsValidDay(validDays, d)
    {
      if IsValidDay(validDays, currentDate) {
        ValidDayShowsWeekday(validDays, currentDate);
        return currentDate;
      }
      currentDate := currentDate + 1;
    }
    NoValidDayInAWeek(validDays, fromDate + 1);
    return currentDate;
  }

  // ---------------------------------------------------------------------
  // Streak break for custom weekdays

  /** Some valid date lies strictly between the last completion and today. */
  ghost predicate MissedValidDay(days: set<int>, last: Date, today: Date)
  {
    exists d :: last < d < today && IsValidDay(days, d)
  }

  /** Walks the dates strictly between the last completion and today and
      reports whether one of them was a listed weekday (a missed day). */
  method CheckIfCustomWeekdaysStreakBroken(lastCompletionDate: Date, todayDate: Date, customdays: string)
    returns (broken: bool)
    ensures broken <==> MissedValidDay(ParseWeekdays(customdays), lastCompletionDate, todayDate)
    ensures todayDate <= lastCompletionDate + 1 ==> !broken
  {
    var validDays := ParseWeekdays(customdays);
    var checkDate := lastCompletionDate + 1;
    while checkDate < todayDate
      invariant lastCompletionDate < checkDate
      invariant forall d :: lastCompletionDate < d < checkDate ==> !IsValidDay(validDays, d)
      decreases todayDate - checkDate
    {
      if IsValidDay(validDays, checkDate) {
        return true;
      }
      checkDate := checkDate + 1;
    }
    return false;
  }

  /** A custom-weekday streak is broken exactly when the due date the
      after-completion scan gave for the last completion has passed. */
  lemma BrokenIffDueDatePassed(days: set<int>, last: Date, today: Date)
    requires HasValidWeekday(days)
    ensures MissedValidDay(days, last, today) <==> NextValidWeekdayAfterCompletion(days, last) < today
  {
    var due := NextValidWeekdayAfterCompletion(days, last);
    if MissedValidDay(days, last, today) {
      var d :| last < d < today && IsValidDay(days, d);
      assert due <= d;
    }
    if due < today {
      assert last < due && IsValidDay(days, due);
    }
  }

  /** With at least one listed weekday, going more than a week without a
      completion always breaks the streak. */
  lemma AWeekWithoutCompletionBreaks(days: set<int>, last: Date, today: Date)
    requires HasValidWeekday(days)
    requires today > last + 7
    ensures MissedValidDay(days, last, today)
  {
    BrokenIffDueDatePassed(days, last, today);
  }

  /** When every weekday is listed, the custom-weekday rule is the daily
      rule: the streak breaks exactly when a whole day was skipped. */
  lemma EveryWeekdayBreaksLikeDaily(days: set<int>, last: Date, today: Date)
    requires forall w :: 0 <= w < 7 ==> w in days
    ensures MissedValidDay(days, last, today) <==> today > last + 1
  {
    if today > last + 1 {
      assert IsValidDay(days, last + 1);
    }
  }

  // ---------------------------------------------------------------------
  // Interval habits: due dates pinned to startDate + k * N

  /** The last recorded completion is on the given day. */
  predicate CompletedOn(history: seq<Date>, day: Date)
  {
    |history| > 0 && history[|history| - 1] == day
  }

  /** `d` is one of the days startDate + k * n, k >= 0. */
  ghost predicate IsPatternDay(start: Date, n: int, d: Date)
    requires n >= 1
  {
    d >= start && (d - start) % n == 0
  }

  /** Two multiples of n less than n apart are equal. */
  lemma MultiplesApart(a: int, b: int, n: int)
    requires n >= 1 && a % n == 0 && b % n == 0 && a <= b < a + n
    ensures a == b
  {
    assert a == n * (a / n) + a % n;
    DivModUnique(b, n, a / n, b - a);
  }

  /** Adding n keeps a multiple of n a multiple of n. */
  lemma MultipleStep(m: int, n: int)
    requires n >= 1 && m % n == 0
    ensures (m + n) % n == 0
  {
    assert m == n * (m / n) + m % n;
    assert m + n == n * (m / n + 1);
    DivModUnique(m + n, n, m / n + 1, 0);
  }

  /** The smallest positive multiple of n above `daysSinceStart`: the offset
      of the next pattern day after a day that is not one. */
  function NextPatternOffset(daysSinceStart: int, n: int): (m: int)
    requires n >= 1
    ensures m > daysSinceStart && m >= n && m % n == 0
    ensures m == n || m - n <= daysSinceStart
  {
    if daysSinceStart < 0 then n
    else
      var q := daysSinceStart / n;
      assert daysSinceStart == n * q + daysSinceStart % n;
      assert (q + 1) * n == n * q + n == n * (q + 1) + 0;
      DivModUnique((q + 1) * n, n, q + 1, 0);
      MulAtLeast(n, q + 1);
      (q + 1) * n
  }

  /** The conditions NextPatternOffset states determine its result. */
  lemma NextPatternOffsetUnique(daysSinceStart: int, n: int, m: int)
    requires n >= 1
    requires m > daysSinceStart && m >= n && m % n == 0
    requires m == n || m - n <= daysSinceStart
    ensures m == NextPatternOffset(daysSinceStart, n)
  {
    var m' := NextPatternOffset(daysSinceStart, n);
    if m < m' {
      MultiplesApart(m, m', n);
    } else if m' < m {
      MultiplesApart(m', m, n);
    }
  }

  /** calculateIntervalPatternNextDue: on a pattern day the habit is due that
      day, or one interval later once it is done; on any other day it is due
      on the next pattern day. */
  function IntervalPatternNextDue(habit: Habit, currentDate: Date): (r: Date)
    requires habit.intervalDays >= 1
    ensures currentDate < habit.startDate ==> r == habit.startDate + habit.intervalDays
    ensures currentDate >= habit.startDate ==>
      IsPatternDay(habit.startDate, habit.intervalDays, r) && currentDate <= r <= currentDate + habit.intervalDays
  {
    var n := habit.intervalDays;
    var daysSinceStart := currentDate - habit.startDate;
    if daysSinceStart >= 0 && daysSinceStart % n == 0 then
      if CompletedOn(habit.completionHistory, currentDate) then
        MultipleStep(daysSinceStart, n);
        currentDate + n
      else currentDate
    else habit.startDate + NextPatternOffset(daysSinceStart, n)
  }

  /** The interval due date is the first pattern day from today on, passing
      over today only when today is a pattern day already completed. */
  lemma IntervalDueIsNextPatternDay(habit: Habit, currentDate: Date, p: Date)
    requires habit.intervalDays >= 1 && currentDate >= habit.startDate
    requires IsPatternDay(habit.startDate, habit.intervalDays, p)
    requires currentDate <= p < IntervalPatternNextDue(habit, currentDate)
    ensures p == currentDate && CompletedOn(habit.completionHistory, currentDate)
  {
    var n, start := habit.intervalDays, habit.startDate;
    var dss := currentDate - start;
    var r := IntervalPatternNextDue(habit, currentDate);
    if dss % n == 0 {
      if CompletedOn(habit.completionHistory, currentDate) {
        MultiplesApart(dss, p - start, n);
      }
    } else {
      var m := NextPatternOffset(dss, n);
      if m - n <= dss {
        MultiplesApart(p - start, m, n);
      } else {
        MultiplesApart(0, p - start, n);
      }
    }
  }

  /** The interval due date is today exactly when today is a pattern day
      not yet completed. */
  lemma IntervalDueTodayIff(habit: Habit, currentDate: Date)
    requires habit.intervalDays >= 1 && currentDate >= habit.startDate
    ensures IntervalPatternNextDue(habit, currentDate) == currentDate <==>
      IsPatternDay(habit.startDate, habit.intervalDays, currentDate)
      && !CompletedOn(habit.completionHistory, currentDate)
  {
  }

  /** The source's computation: decide the pattern-day case, otherwise grow
      a multiple of the interval until it passes the days since the start. */
  method CalculateIntervalPatternNextDue(habit: Habit, currentDate: Date) returns (r: Date)
    requires habit.intervalDays >= 1
    ensures r == IntervalPatternNextDue(habit, currentDate)
  {
    var intervalDays := habit.intervalDays;
    var daysSinceStart := currentDate - habit.startDate;
    if daysSinceStart >= 0 && daysSinceStart % intervalDays == 0 {
      if CompletedOn(habit.completionHistory, currentDate) {
        return currentDate + intervalDays;
      } else {
        return currentDate;
      }
    }
    var nextPatternDay := intervalDays;
    while nextPatternDay <= daysSinceStart
      invariant nextPatternDay >= intervalDays && nextPatternDay % intervalDays == 0
      invariant nextPatternDay == intervalDays || nextPatternDay - intervalDays <= daysSinceStart
      decreases daysSinceStart - nextPatternDay
    {
      MultipleStep(nextPatternDay, intervalDays);
      nextPatternDay := nextPatternDay + intervalDays;
    }
    NextPatternOffsetUnique(daysSinceStart, intervalDays, nextPatternDay);
    return habit.startDate + nextPatternDay;
  }

  // ---------------------------------------------------------------------
  // The three entry points

  /** calculateNextDue: the first due date of a new habit. Daily and
      interval habits are due on the date itself; custom-weekday habits on
      the first listed weekday from that date on. */
  function CalculateNextDue(frequencyType: FrequencyType, intervalday: int, customdays: string, completedDate: Date): (r: Date)
    requires !frequencyType.Unrecognized?
    ensures (frequencyType.Daily? || frequencyType.Interval?) ==> r == completedDate
    ensures frequencyType.CustomWeekdays? ==> IsNextValidWeekday(ParseWeekdays(customdays), completedDate, r)
  {
    match frequencyType
    case Daily => completedDate
    case Interval => completedDate
    case CustomWeekdays => NextValidWeekday(ParseWeekdays(customdays), completedDate)
  }

  /** calculateNextDueAfterCompletion: daily habits are next due tomorrow,
      interval habits `intervalday` days on, custom-weekday habits on the
      next listed weekday after the completion date. */
  function CalculateNextDueAfterCompletion(frequencyType: FrequencyType, intervalday: int, customdays: string, completedDate: Date): (r: Date)
    requires !frequencyType.Unrecognized?
    ensures frequencyType.Daily? ==> r == completedDate + 1
    ensures frequencyType.Interval? ==> r - completedDate == intervalday
    ensures frequencyType.CustomWeekdays? ==> IsNextValidWeekdayAfter(ParseWeekdays(customdays), completedDate, r)
  {
    match frequencyType
    case Daily => completedDate + 1
    case Interval => completedDate + intervalday
    case CustomWeekdays => NextValidWeekdayAfterCompletion(ParseWeekdays(customdays), completedDate)
  }

  /** recalculateNextDueFromStart: the due date recomputed from the start
      date and the completion history alone. Before the start the habit is
      due on its start date; the recomputed date is never in the past. */
  function RecalculateNextDueFromStart(habit: Habit, currentDate: Date): (r: Date)
    requires habit.frequencyType.Interval? ==> habit.intervalDays >= 1
    ensures r >= currentDate && r >= habit.startDate
    ensures currentDate < habit.startDate ==> r == habit.startDate
    ensures currentDate >= habit.startDate && habit.frequencyType.Daily? ==>
      currentDate <= r <= currentDate + 1 && (r == currentDate <==> !CompletedOn(habit.completionHistory, currentDate))
    ensures currentDate >= habit.startDate && habit.frequencyType.Interval? ==>
      r == IntervalPatternNextDue(habit, currentDate)
    ensures currentDate >= habit.startDate && habit.frequencyType.CustomWeekdays? ==>
      IsNextValidWeekday(ParseWeekdays(habit.customDays), currentDate, r)
    ensures currentDate >= habit.startDate && habit.frequencyType.Unrecognized? ==> r == currentDate
  {
    if currentDate < habit.startDate then habit.startDate
    else
      match habit.frequencyType
      case Daily =>
        if CompletedOn(habit.completionHistory, currentDate) then currentDate + 1 else currentDate
      case Interval => IntervalPatternNextDue(habit, currentDate)
      case CustomWeekdays => NextValidWeekday(ParseWeekdays(habit.customDays), currentDate)
      case Unrecognized => currentDate
  }
}
