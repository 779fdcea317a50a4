/** Streak length and the progress update of a completion.

    A streak counts today's completion plus the completions on the days
    immediately before it: the history with today added is put in date
    order and read backwards while neighbouring dates are exactly one day
    apart. Any other gap, a repeated date included, ends the count. */
module Streak {
  import opened Calendar
  import opened DateUtils

  // ---------------------------------------------------------------------
  // Sorting dates (Array.prototype.sort on YYYY-MM-DD strings, which is
  // chronological order)

  predicate Sorted(s: seq<Date>)
  {
    forall i, j :: 0 <= i < j < |s| ==> s[i] <= s[j]
  }

  /** Puts `x` into a sorted sequence at its place. */
  function Insert(x: Date, s: seq<Date>): (r: seq<Date>)
    requires Sorted(s)
    ensures Sorted(r) && |r| == |s| + 1
    ensures multiset(r) == multiset(s) + multiset{x}
  {
    if |s| == 0 || x <= s[0] then
      SortedCons(x, s);
      [x] + s
    else
      var rest := Insert(x, s[1..]);
      assert s == [s[0]] + s[1..];
      LowerBoundOfMembers(s[0], s[1..] + [x], rest);
      SortedCons(s[0], rest);
      [s[0]] + rest
  }

  /** A date no later than any entry of a sorted sequence can go in front. */
  lemma SortedCons(a: Date, t: seq<Date>)
    requires Sorted(t)
    requires forall k :: 0 <= k < |t| ==> a <= t[k]
    ensures Sorted([a] + t)
  {
  }

  /** A bound that holds for every entry of `s` holds for every entry of a
      sequence with the same elements. */
  lemma LowerBoundOfMembers(a: Date, s: seq<Date>, t: seq<Date>)
    requires forall k :: 0 <= k < |s| ==> a <= s[k]
    requires multiset(t) == multiset(s)
    ensures forall k :: 0 <= k < |t| ==> a <= t[k]
  {
    forall k | 0 <= k < |t| ensures a <= t[k] {
      assert t[k] in multiset(s);
    }
  }

  /** The dates of `s` in ascending order. */
  function SortDates(s: seq<Date>): (r: seq<Date>)
    ensures Sorted(r) && |r| == |s|
    ensures multiset(r) == multiset(s)
  {
    if |s| == 0 then []
    else
      assert s == s[..|s| - 1] + [s[|s| - 1]];
      Insert(s[|s| - 1], SortDates(s[..|s| - 1]))
  }

  /** Two sorted sequences with the same elements are the same sequence. */
  lemma {:induction false} SortedUnique(a: seq<Date>, b: seq<Date>)
    requires Sorted(a) && Sorted(b)
    requires multiset(a) == multiset(b)
    ensures a == b
    decreases |a|
  {
    assert |a| == |multiset(a)| == |multiset(b)| == |b|;
    if |a| > 0 {
      SortedSameFirst(a, b);
      SameTailElements(a, b);
      SortedUnique(a[1..], b[1..]);
      assert a == [a[0]] + a[1..] && b == [b[0]] + b[1..];
    }
  }

  /** Sorted sequences with the same elements start with the same date. */
  lemma SortedSameFirst(a: seq<Date>, b: seq<Date>)
    requires Sorted(a) && Sorted(b) && |a| > 0 && |b| > 0
    requires multiset(a) == multiset(b)
    ensures a[0] == b[0]
  {
    assert a[0] in multiset(b) && b[0] in multiset(a);
    var i :| 0 <= i < |b| && b[i] == a[0];
    var j :| 0 <= j < |a| && a[j] == b[0];
    assert a[0] <= a[j] && b[0] <= b[i];
  }

  /** Removing the same first date from sequences with the same elements
      leaves sequences with the same elements. */
  lemma SameTailElements(a: seq<Date>, b: seq<Date>)
    requires |a| > 0 && |b| > 0 && a[0] == b[0]
    requires multiset(a) == multiset(b)
    ensures multiset(a[1..]) == multiset(b[1..])
  {
    calc {
      multiset(a[1..]);
    ==  { assert a == [a[0]] + a[1..]; }
      multiset(a) - multiset{a[0]};
    ==
      multiset(b) - multiset{b[0]};
    ==  { assert b == [b[0]] + b[1..]; }
      multiset(b[1..]);
    }
  }

  /** Adding a date no earlier than all others puts it at the end. */
  lemma SortAppendLatest(s: seq<Date>, x: Date)
    requires forall k :: 0 <= k < |s| ==> s[k] <= x
    ensures SortDates(s + [x]) == SortDates(s) + [x]
  {
    var sorted := SortDates(s);
    var t := sorted + [x];
    forall k | 0 <= k < |sorted| ensures sorted[k] <= x {
      assert sorted[k] in multiset(s);
    }
    assert Sorted(t) by {
      forall i, j | 0 <= i < j < |t| ensures t[i] <= t[j] {
        if j == |sorted| { assert t[i] == sorted[i]; }
      }
    }
    assert multiset(t) == multiset(s) + multiset{x} == multiset(s + [x]);
    SortedUnique(SortDates(s + [x]), t);
  }

  // ---------------------------------------------------------------------
  // The run of consecutive days at the end of a sorted sequence

  /** The last `k` entries of `s` are consecutive days and the entry before
      them, if any, is not the day before the first of them. */
  predicate IsBackwardRun(s: seq<Date>, k: int)
  {
    && 1 <= k <= |s|
    && (forall j :: |s| - k <= j < |s| - 1 ==> s[j + 1] - s[j] == 1)
    && (k < |s| ==> s[|s| - k] - s[|s| - k - 1] != 1)
  }

  /** The length of the run of consecutive days that ends the sequence. */
  function RunLength(s: seq<Date>): (k: nat)
    requires |s| >= 1
    ensures IsBackwardRun(s, k)
  {
    if |s| == 1 || s[|s| - 1] - s[|s| - 2] != 1 then 1
    else RunLength(s[..|s| - 1]) + 1
  }

  /** A sequence has only one backward run. */
  lemma RunUnique(s: seq<Date>, k1: int, k2: int)
    requires IsBackwardRun(s, k1) && IsBackwardRun(s, k2)
    ensures k1 == k2
  {
  }

  /** A date one day after the last extends the run by one. */
  lemma RunExtends(s: seq<Date>, x: Date)
    requires |s| >= 1 && x == s[|s| - 1] + 1
    ensures RunLength(s + [x]) == RunLength(s) + 1
  {
    var t := s + [x];
    assert t[..|t| - 1] == s;
    assert t[|t| - 1] - t[|t| - 2] == 1;
    assert RunLength(t) == RunLength(t[..|t| - 1]) + 1;
  }

  /** A date that is not one day after the last starts a new run. */
  lemma RunRestarts(s: seq<Date>, x: Date)
    requires |s| >= 1 && x - s[|s| - 1] != 1
    ensures RunLength(s + [x]) == 1
  {
  }

  // ---------------------------------------------------------------------
  // calculateStreak

  /** The streak a completion today gives: today plus the consecutive days
      before it, read from the sorted history with today added. */
  function StreakLength(completionHistory: seq<Date>, todayDate: Date): (n: nat)
    ensures 1 <= n <= |completionHistory| + 1
    ensures IsBackwardRun(SortDates(completionHistory + [todayDate]), n)
  {
    if |completionHistory| == 0 then 1
    else RunLength(SortDates(completionHistory + [todayDate]))
  }

  /** The source's computation: sort a copy of the history with today
      added, then walk backwards from the end counting one-day steps and
      stop at the first other gap. */
  method CalculateStreak(completionHistory: seq<Date>, todayDate: Date) returns (streak: nat)
    ensures streak == StreakLength(completionHistory, todayDate)
  {
    if |completionHistory| == 0 {
      return 1;
    }
    var allCompletions := SortDates(completionHistory + [todayDate]);
    streak := 1;
    var i := |allCompletions| - 2;
    while i >= 0
      invariant -1 <= i <= |allCompletions| - 2
      invariant streak == |allCompletions| - 1 - i
      invariant forall j :: i < j < |allCompletions| - 1 ==> allCompletions[j + 1] - allCompletions[j] == 1
    {
      var daysDifference := allCompletions[i + 1] - allCompletions[i];
      if daysDifference == 1 {
        streak := streak + 1;
      } else {
        break;
      }
      i := i - 1;
    }
    RunUnique(allCompletions, streak, StreakLength(completionHistory, todayDate));
  }

  /** The first completion ever gives a streak of one. */
  lemma FirstCompletionStreak(todayDate: Date)
    ensures StreakLength([], todayDate) == 1
  {
  }

  /** The streak depends only on which dates the history holds (with their
      multiplicities), not on the order they were recorded in. */
  lemma StreakIgnoresOrder(h1: seq<Date>, h2: seq<Date>, todayDate: Date)
    requires multiset(h1) == multiset(h2)
    ensures StreakLength(h1, todayDate) == StreakLength(h2, todayDate)
  {
    assert |h1| == |multiset(h1)| == |multiset(h2)| == |h2|;
    assert multiset(h1 + [todayDate]) == multiset(h2 + [todayDate]);
    SortedUnique(SortDates(h1 + [todayDate]), SortDates(h2 + [todayDate]));
  }

  /** The streak is the backward run of the sorted history with today added,
      also for the empty history. */
  lemma StreakIsRun(completionHistory: seq<Date>, todayDate: Date)
    ensures StreakLength(completionHistory, todayDate) == RunLength(SortDates(completionHistory + [todayDate]))
  {
    var s := SortDates(completionHistory + [todayDate]);
    RunUnique(s, StreakLength(completionHistory, todayDate), RunLength(s));
  }

  /** Completing again on the next day extends the streak by one. */
  lemma NextDayExtendsStreak(completionHistory: seq<Date>, todayDate: Date)
    requires forall k :: 0 <= k < |completionHistory| ==> completionHistory[k] <= todayDate
    ensures StreakLength(completionHistory + [todayDate], todayDate + 1) == StreakLength(completionHistory, todayDate) + 1
  {
    var h := completionHistory + [todayDate];
    SortAppendLatest(completionHistory, todayDate);
    SortAppendLatest(h, todayDate + 1);
    var s := SortDates(h);
    assert s[|s| - 1] == todayDate;
    RunExtends(s, todayDate + 1);
    StreakIsRun(completionHistory, todayDate);
    StreakIsRun(h, todayDate + 1);
  }

  /** A completion after a whole day without one starts the streak again at one. */
  lemma SkippedDayRestartsStreak(completionHistory: seq<Date>, todayDate: Date)
    requires forall k :: 0 <= k < |completionHistory| ==> completionHistory[k] < todayDate - 1
    ensures StreakLength(completionHistory, todayDate) == 1
  {
    if |completionHistory| > 0 {
      SortAppendLatest(completionHistory, todayDate);
      var s := SortDates(completionHistory);
      assert s[|s| - 1] in multiset(completionHistory);
      RunRestarts(s, todayDate);
    }
  }

  /** A second completion on the same day counts as a gap of zero days, so
      the streak it computes is one. */
  lemma SameDayAgainRestartsStreak(completionHistory: seq<Date>, todayDate: Date)
    requires todayDate in completionHistory
    requires forall k :: 0 <= k < |completionHistory| ==> completionHistory[k] <= todayDate
    ensures StreakLength(completionHistory, todayDate) == 1
  {
    SortAppendLatest(completionHistory, todayDate);
    SortedEndsWithLatest(completionHistory, SortDates(completionHistory), todayDate);
    RunRestarts(SortDates(completionHistory), todayDate);
    StreakIsRun(completionHistory, todayDate);
  }

  /** A date of the history that no other date exceeds comes last once the
      history is sorted. */
  lemma SortedEndsWithLatest(s: seq<Date>, t: seq<Date>, x: Date)
    requires x in s
    requires forall k :: 0 <= k < |s| ==> s[k] <= x
    requires Sorted(t) && multiset(t) == multiset(s)
    ensures |t| > 0 && t[|t| - 1] == x
  {
    UpperBoundOfMembers(x, s, t);
    assert x in multiset(s);
    assert x in t by {
      assert x in multiset(t);
    }
    SortedMaxIsLast(t, x);
  }

  /** A bound from above that holds for every entry of `s` holds for every
      entry of a sequence with the same elements. */
  lemma UpperBoundOfMembers(x: Date, s: seq<Date>, t: seq<Date>)
    requires forall k :: 0 <= k < |s| ==> s[k] <= x
    requires multiset(t) == multiset(s)
    ensures forall k :: 0 <= k < |t| ==> t[k] <= x
  {
    forall k | 0 <= k < |t| ensures t[k] <= x {
      assert t[k] in multiset(s);
    }
  }

  /** In a sorted sequence an entry no other entry exceeds is the last one. */
  lemma SortedMaxIsLast(t: seq<Date>, x: Date)
    requires Sorted(t) && x in t
    requires forall k :: 0 <= k < |t| ==> t[k] <= x
    ensures t[|t| - 1] == x
  {
    var k :| 0 <= k < |t| && t[k] == x;
    assert t[k] <= t[|t| - 1];
  }

  // ---------------------------------------------------------------------
  // updateHabitProgress

  /** The values a completion computes for the habit record. */
  datatype Progress = Progress(
    counter: int,
    totalCompleted: int,
    completionHistory: seq<Date>,
    currentStreak: nat)

  /** The arithmetic of recording a completion today: the counter grows by
      the increment, the total by one, today is appended to the history,
      and the streak is computed from the history as it was before. */
  function UpdateHabitProgress(habit: Habit, today: Date): (r: Progress)
    ensures r.counter - habit.counter == habit.incrementation
    ensures r.totalCompleted == habit.totalCompleted + 1
    ensures |r.completionHistory| == |habit.completionHistory| + 1
    ensures r.completionHistory[..|habit.completionHistory|] == habit.completionHistory
    ensures r.completionHistory[|habit.completionHistory|] == today
    ensures r.currentStreak == StreakLength(habit.completionHistory, today)
    ensures 1 <= r.currentStreak <= |r.completionHistory|
  {
    var newCounter := habit.counter + habit.incrementation;
    var newTotalCompleted := habit.totalCompleted + 1;
    var newCompletionHistory := habit.completionHistory + [today];
    var newStreak := StreakLength(habit.completionHistory, today);
    Progress(newCounter, newTotalCompleted, newCompletionHistory, newStreak)
  }
}
