# Habit tracker: scheduling and streak engine

This project models the part of the habit tracker that does calendar arithmetic. That covers every function of `logic/dateUtils.js`, plus `calculateStreak` and the arithmetic of `updateHabitProgress` from `renderer.js`. The model is in Dafny and proves the properties listed below. A habit has one of three frequency types:

- `daily`: due every day;
- `interval`: due every N days, counted from its start date;
- `custom_weekdays`: due on the weekdays that its comma-separated `customdays` list names.

The engine does four things:

- It computes a new habit's first due date (`calculateNextDue`) and the due date after a completion (`calculateNextDueAfterCompletion`).
- It recomputes the due date from the start date and the completion history (`recalculateNextDueFromStart`, `calculateIntervalPatternNextDue`).
- It decides whether a custom-weekday streak is broken (`checkIfCustomWeekdaysStreakBroken`).
- It computes the streak length a completion gives (`calculateStreak`).

Modules, one per concern:

- `Calendar` (calendar.dfy): a date is an integer day number, where 0 is 1970-01-01 (a Thursday). The weekday is `(d + 4) % 7`, numbered like JavaScript's `getDay` (0 = Sunday). Adding days is integer addition. Proleptic Gregorian dates map to day numbers, and the module proves that this mapping preserves order. The module also holds the integer-division facts that the other proofs share.
- `IsoDates` (iso_dates.dfy): the `YYYY-MM-DD` text form in which the application stores, compares and sorts dates. Formatting and parsing are inverses of each other. For the years 0000–9999, JavaScript's string `<` on these forms is chronological order, and string equality is date equality. This is why every other module may compare day numbers where the source compares strings (logic/dateUtils.js:156, 162 and 198, and the sort at renderer.js:72).
- `WeekdayNames` (weekday_names.dfy): the parsing at logic/dateUtils.js:63. It models JavaScript `split(',')`, `trim()` (JavaScript's white-space and line-terminator set), `toLowerCase()` and the table lookup. A piece that is not a weekday name contributes nothing. The lookup gives `undefined` or, for a piece such as `constructor` or `__proto__`, a member inherited from `Object.prototype`; neither is a number, so `includes` of a weekday number never matches it. Parsing the comma-joined names that the creation form writes gives back exactly the selected weekdays.
- `DateUtils` (date_utils.dfy): the due-date calculators and the streak-break check. The loops of the source are methods with loop invariants. These are the two weekday scans, the streak-break walk and the interval loop that grows a multiple of N. Each method is proved equal to a specification predicate or function. The branch-and-return dispatchers are functions that use those specifications.
- `Streak` (streak.dfy): `calculateStreak` and the arithmetic of `updateHabitProgress`. The source copies and sorts the history; the model gives that sort as an insertion sort on sequences. The backwards counting loop is a method that is proved equal to `StreakLength`.

Behaviour of the code that the model keeps as written:

- A custom-weekday list that names no weekday makes both scans fall off the end. They return the date eight days after the date they started from.
- A direct call of `calculateIntervalPatternNextDue` with the current date before the start date returns start + N. `recalculateNextDueFromStart` returns the start date before ever reaching that case.
- The streak counts only gaps of exactly one day, for every frequency type. Any other gap ends the count. That includes a repeated date, so a second completion on the same day computes a streak of 1.

## Model

| member | source | states |
|---|---|---|
| `Calendar.Weekday` | logic/dateUtils.js:67 | the weekday of a day number is in 0..6, Sunday = 0 as `getDay` numbers it |
| `Calendar.DayNumberOrder` | logic/dateUtils.js:155-158 | calendar order of valid dates is the order of their day numbers, and two dates are equal exactly when their day numbers are |
| `IsoDates.ParseFormatIso` | logic/dateUtils.js:23 | reading back the `YYYY-MM-DD` form of a valid date gives the date |
| `IsoDates.FormatParseIso` | logic/dateUtils.js:10 | a string that parses as a date is exactly the canonical form of that date |
| `IsoDates.FormatIsoOrder` | logic/dateUtils.js:156 | string `<` on the `YYYY-MM-DD` forms is calendar order, and the forms are equal exactly when the dates are |
| `IsoDates.IsoOrderIsChronological` | renderer.js:72 | string order and string equality of the stored forms agree with day-number order and equality, so sorting the strings sorts the days |
| `WeekdayNames.LookupWeekday` | logic/dateUtils.js:58-63 | a name found in the table maps to its weekday number 0..6; a name not in the table maps to nothing |
| `WeekdayNames.Split` | logic/dateUtils.js:63 | splitting at commas gives at least one piece, and no piece contains a comma |
| `WeekdayNames.JoinSplit` | logic/dateUtils.js:63 | joining the pieces of a split with the separator gives back the original string |
| `WeekdayNames.SplitJoin` | logic/dateUtils.js:63 | splitting the join of comma-free pieces gives back the pieces |
| `WeekdayNames.TrimStartRemovesLeadingSpace` | logic/dateUtils.js:63 | `trimStart` keeps a suffix, drops only white space and leaves no leading white space |
| `WeekdayNames.TrimEndRemovesTrailingSpace` | logic/dateUtils.js:63 | `trimEnd` keeps a prefix, drops only white space and leaves no trailing white space |
| `WeekdayNames.TrimPadded` | logic/dateUtils.js:63 | trimming white space around a word that starts and ends with something else gives the word |
| `WeekdayNames.LookupIgnoresCaseAndSpace` | logic/dateUtils.js:63 | a weekday name in any ASCII case with any surrounding white space is recognised as its weekday |
| `WeekdayNames.NamedWeekdays` | logic/dateUtils.js:63 | the pieces name only weekday numbers in 0..6 |
| `WeekdayNames.ParseWeekdays` | logic/dateUtils.js:63 | the parsed weekday set holds only numbers in 0..6 |
| `WeekdayNames.NamedWeekdaysMembers` | logic/dateUtils.js:63 | a weekday is in the set exactly when some piece, trimmed and lower-cased, looks up to it |
| `WeekdayNames.NamedWeekdaysByName` | logic/dateUtils.js:58-63 | a weekday is in the set exactly when some normalised piece is that weekday's name in the table |
| `WeekdayNames.ParseWeekdaysMembers` | logic/dateUtils.js:63 | a weekday is parsed from the list exactly when one of its comma-separated pieces, trimmed and lower-cased, is that weekday's name |
| `WeekdayNames.ParseAllNamed` | logic/dateUtils.js:63 | when every piece names a weekday, the set is exactly the weekdays named |
| `WeekdayNames.EmptyListNamesNothing` | logic/dateUtils.js:63 | the empty list names no weekday |
| `WeekdayNames.ParseJoinedNames` | renderer.js:34-46 | parsing the comma-joined names that the creation form writes gives exactly the selected weekdays |
| `DateUtils.ScanForward` | logic/dateUtils.js:75-81 | the bounded forward scan returns the first valid date within its steps, or the date just past them when none is valid |
| `DateUtils.ScanOfAWeekFinds` | logic/dateUtils.js:104-110 | a seven-date scan finds a valid date whenever some weekday is listed |
| `DateUtils.NoValidDayInAWeek` | logic/dateUtils.js:83 | seven consecutive dates without a valid one mean that no weekday is listed, so falling through happens only then |
| `DateUtils.NextValidWeekday` | logic/dateUtils.js:57-84 | from-date inclusive: the first valid date from `fromDate` on, at most six days later; with no listed weekday, `fromDate + 8` |
| `DateUtils.NextValidWeekdayAfterCompletion` | logic/dateUtils.js:92-113 | from-date exclusive: the first valid date after `fromDate`, at most seven days later; with no listed weekday, `fromDate + 8` |
| `DateUtils.GetNextValidWeekday` | logic/dateUtils.js:57-84 | the loop with a day cursor returns `fromDate` when it is valid, otherwise the first valid later date with none valid before it, or `fromDate + 8` |
| `DateUtils.NextValidWeekdayUnique` | logic/dateUtils.js:57-84 | the from-date-inclusive scan has only one answer, so the scan loop returns the date the due-date functions use |
| `DateUtils.GetNextValidWeekdayAfterCompletion` | logic/dateUtils.js:92-113 | the cursor loop never returns `fromDate`; it returns the first valid date in the next seven days with none valid before it, or `fromDate + 8` |
| `DateUtils.NextValidWeekdayAfterUnique` | logic/dateUtils.js:92-113 | the after-completion scan has only one answer, so the scan loop returns the date the due-date functions use |
| `DateUtils.CheckIfCustomWeekdaysStreakBroken` | logic/dateUtils.js:122-147 | broken exactly when some valid date lies strictly between the last completion and today; never broken when today is at most the day after |
| `DateUtils.BrokenIffDueDatePassed` | logic/dateUtils.js:136-144 | with a listed weekday, the streak is broken exactly when the after-completion due date of the last completion is before today |
| `DateUtils.AWeekWithoutCompletionBreaks` | logic/dateUtils.js:136-144 | with a listed weekday, more than seven days without a completion always break the streak |
| `DateUtils.EveryWeekdayBreaksLikeDaily` | logic/dateUtils.js:136-144 | with all seven weekdays listed, the streak breaks exactly when a whole day was skipped |
| `DateUtils.NextPatternOffset` | logic/dateUtils.js:211-215 | the loop's result is a positive multiple of N above the days since the start, and the previous multiple is not above them |
| `DateUtils.NextPatternOffsetUnique` | logic/dateUtils.js:211-215 | those conditions fix the offset, so the loop computes exactly (days div N + 1) * N when days ≥ 0, and N before the start |
| `DateUtils.IntervalPatternNextDue` | logic/dateUtils.js:188-221 | from the start date on, the due date is a pattern day (start + k*N) between today and today + N; before the start it is start + N |
| `DateUtils.IntervalDueIsNextPatternDay` | logic/dateUtils.js:196-215 | no pattern day lies between today and the due date, except today itself when today is a completed pattern day |
| `DateUtils.IntervalDueTodayIff` | logic/dateUtils.js:196-208 | the interval habit is due today exactly when today is a pattern day not yet completed |
| `DateUtils.CalculateIntervalPatternNextDue` | logic/dateUtils.js:188-221 | the method with the while loop computes `IntervalPatternNextDue` |
| `DateUtils.CalculateNextDue` | logic/dateUtils.js:9-24 | daily and interval habits start due on the given date; custom-weekday habits start due on the first listed weekday from that date on |
| `DateUtils.CalculateNextDueAfterCompletion` | logic/dateUtils.js:34-49 | after a completion: daily +1, interval +intervalday, custom weekdays the first listed weekday after the completion date |
| `DateUtils.RecalculateNextDueFromStart` | logic/dateUtils.js:155-180 | never before today or the start date; the start date before the start; daily: today, or tomorrow once completed today; interval: the pattern due date; custom weekdays: the inclusive scan; otherwise today |
| `Streak.Insert` | renderer.js:72 | inserting into a sorted sequence keeps it sorted and adds exactly the one date |
| `Streak.SortDates` | renderer.js:72 | the sort returns a sorted permutation of its input |
| `Streak.SortedUnique` | renderer.js:69-72 | two sorted sequences with the same dates are equal, so the sorted copy depends only on the dates |
| `Streak.SortAppendLatest` | renderer.js:69-72 | appending a date no earlier than the others and sorting puts it last, after the sorted others |
| `Streak.RunLength` | renderer.js:77-91 | the length of the run of one-day steps that ends the sorted sequence, with the step before it not one day |
| `Streak.RunUnique` | renderer.js:77-91 | a sorted sequence has exactly one such run length |
| `Streak.RunExtends` | renderer.js:85-86 | a date one day after the last extends the run by one |
| `Streak.RunRestarts` | renderer.js:87-90 | any other gap, zero days included, starts a new run of one |
| `Streak.StreakLength` | renderer.js:62-94 | between 1 and the history length + 1, and the run that ends the sorted history with today appended |
| `Streak.CalculateStreak` | renderer.js:62-94 | the backwards loop with `break` computes `StreakLength` |
| `Streak.FirstCompletionStreak` | renderer.js:64-66 | an empty history gives a streak of 1 |
| `Streak.StreakIgnoresOrder` | renderer.js:69-72 | the streak depends only on the dates in the history, not on the order they were recorded in |
| `Streak.StreakIsRun` | renderer.js:74-91 | the streak is the run length of the sorted history with today, also for an empty history |
| `Streak.NextDayExtendsStreak` | renderer.js:85-86 | completing again on the next day extends the streak by exactly one |
| `Streak.SkippedDayRestartsStreak` | renderer.js:87-90 | a completion after a whole day without one gives a streak of 1 |
| `Streak.SameDayAgainRestartsStreak` | renderer.js:77-90 | a second completion on the same day counts a gap of zero days and gives a streak of 1 |
| `Streak.UpdateHabitProgress` | renderer.js:96-107 | counter + incrementation, total + 1, the old history with today appended and nothing else changed, and the streak computed from the old history |

## Left out

- JavaScript `Date` semantics are not modelled. This covers:
  - the UTC parse of `YYYY-MM-DD` strings against local-time `getDay`/`setDate`;
  - time zones and daylight-saving shifts;
  - the millisecond difference rounded with `Math.floor` (logic/dateUtils.js:193, renderer.js:82).

  Dates are whole day numbers, which is what these expressions compute in a UTC time zone.
- `toISOString().split('T')[0]` at the end of each calculator is not applied. The calculators return day numbers, and `IsoDates` gives the text form and its round trip separately.
- Field values are assumed well formed:
  - `parseInt` of the interval field is taken to yield an integer; a `NaN` result is not modelled.
  - The counter and its increment are integers. The creation form stores the raw text of its input fields (renderer.js:179-180), and `+` at renderer.js:100 then joins two strings instead of adding; the model adds numbers.
  - A missing `completionHistory` is the empty history.
- `DateUtils.CalculateNextDue` and `DateUtils.CalculateNextDueAfterCompletion` require a recognised frequency type. For any other type the source returns through an undefined `nextDue` and throws, and this is not modelled.
- `DateUtils.IntervalPatternNextDue`, `DateUtils.CalculateIntervalPatternNextDue` and `DateUtils.RecalculateNextDueFromStart` require an interval of at least one day for interval habits. With a negative interval the source returns today or a date before today when the offset from the start is a multiple of the interval (logic/dateUtils.js:196-208), and otherwise its loop at logic/dateUtils.js:212-214 runs forever once the offset is at least the interval. With a zero interval the `%` test gives `NaN`, so the loop runs forever when the current date is on or after the start date, and the start date is returned when it is before.
- `toLowerCase` is modelled for ASCII letters only. Only the Kelvin sign lower-cases to an ASCII letter (`k`), and no weekday name contains a `k`, so which names are recognised does not change.
- `Array.prototype.sort` works in place on a copied array. The model sorts a sequence by a function instead, so the sort keeps no array state and no aliasing.
- These parts of `updateHabitProgress` are not modelled:
  - reading today from the clock (`new Date()`): today is a parameter;
  - the calls to `calculateNextDue` and `updateHabitInStorage`;
  - building the stored object.
- Storage (`logic/storage.js`), the `Habit` constructor, `logic/habitManager.js` and the DOM code of `renderer.js` are not part of this model.
