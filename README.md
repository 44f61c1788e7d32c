# Habit tracker: streak counter and due-today reminders

This project models the two pieces of logic in the habit-tracking web
application: the streak counter `calculate_streak` and the rule on the
reminders page that picks the habits still due today. Everything else in the
application is page routing and database access.

Both record kinds, a habit row and a progress row, are plain values
(`HabitRecords.Habit`, `HabitRecords.Progress`). A calendar date is a day number (`Day = int`), so
the `.days` of the difference of two dates is the difference of their numbers.

- `StreakCalculator.CalculateStreak` follows the source step by step. It keeps
  the dates of the completed entries (`HabitRecords.CompletedDates`) and sorts
  them (`DaySort.Sort`, an insertion sort that stands for the built-in
  `sorted`). It then walks the sorted dates with `streak`, `currentStreak` and
  `lastDate` (an `Option`, `None` at first, as `last_date` is). A date exactly
  one day after the last extends the current run. Any other date, including a
  second entry for the same day, starts a new run of 1.
- The method is proved against two definitions of "longest run". One is
  declarative (`IsLongestRun`: no run of adjacent one-day steps is longer, and
  one run is this long). The other is recursive (`LongestRun`: the longest run
  starting at each index). `LongestRunIsLongest` and `LongestRunUnique` show
  that the two agree.
- `Reminders.RemindersDue` walks the habits in order. It appends each habit
  whose latest completed entry is missing or not dated `today`. The two
  database queries are in-memory sequences. The clock reading is the
  parameter `today`. `ORDER BY date DESC` followed by `.first()` is the
  maximum completed date (`LatestCompleted`).

`calculate_streak` has two copies with the same body: src/habit_tracker.py:51-69
and habit_tracker.py:41-58. One model serves both. The table cites whichever
copy's lines the property was read from.

Assumption: the source sorts the dates as `"%Y-%m-%d"` strings. For
well-formed dates with four-digit years, that order is the order of their day
numbers. String equality of two such dates (`last_progress.date != today`) is
likewise equality of their day numbers. The test `if last_date:` is false only
before the first date. An empty string would also be false, but an empty
string is not a well-formed date, so `lastDate` is `None` exactly before the
first iteration.

`calculate_streak` does not remove duplicate dates and does not skip a
zero-day gap. A duplicate gives a difference of 0 days, which resets the
current run to 1 (src/habit_tracker.py:60-63). `DuplicateBreaksRun` shows that
a duplicate can lower the streak (3 becomes 2). `DuplicateNeverInflates` shows
that a duplicate can never raise it.

## Model

| member | source | states |
|---|---|---|
| `StreakCalculator.CalculateStreak` | src/habit_tracker.py:51-69 | The value returned by the filter, sort and scan is the length of a longest run of sorted completed dates, each exactly one day after the one before (0 when there are none). It equals the recursive reference `Streak`. The loop invariants keep `1 <= currentStreak <= streak` and keep `streak` the longest run seen so far. |
| `StreakCalculator.ScanStep` | src/habit_tracker.py:58-67 | One iteration keeps the scan's invariant. The new `currentStreak` is the previous one plus 1 after a one-day step, and 1 otherwise (also on the first date). The current run ends at the last date and cannot be extended backwards. `streak = max(streak, currentStreak)` is the longest run among the dates seen. |
| `StreakCalculator.LongestRunIsLongest` | src/habit_tracker.py:57-67 | The recursive reference `LongestRun` is the length of a longest run of adjacent one-day steps: no run is longer, and one run has exactly that length. |
| `StreakCalculator.LongestRunUnique` | src/habit_tracker.py:57-67 | Any number that meets the longest-run characterisation equals `LongestRun`, so the scan and the reference agree. |
| `StreakCalculator.LongestRunBounds` | habit_tracker.py:47-56 | A walk over a non-empty list of sorted dates gives at least 1 and at most the number of dates, since each iteration adds at most 1. |
| `StreakCalculator.StreakBounds` | src/habit_tracker.py:52-69 | The streak is 0 exactly when no entry has `completed` true (both directions). It never exceeds the number of completed entries. Together with `LongestRunBounds`, it is at least 1 whenever one completed entry exists. |
| `StreakCalculator.StreakIgnoresIncomplete` | habit_tracker.py:42 | Inserting an entry with `completed` false anywhere in the list leaves the streak unchanged. |
| `StreakCalculator.StreakPermutation` | habit_tracker.py:47 | Any reordering of the entries (equal multisets) gives the same streak, because the walk is over the sorted dates. |
| `StreakCalculator.DuplicateNeverInflates` | src/habit_tracker.py:60-63 | Adding a second entry for a date that is already present never makes the streak longer: the two copies are 0 days apart, so no run contains both. |
| `StreakCalculator.RunSkipsDuplicate` | habit_tracker.py:49-52 | In the sorted dates with one date doubled, every run lies wholly before or wholly after the doubled pair. It is therefore a run of the dates without the copy, shifted by one place if it lies after. |
| `StreakCalculator.DuplicateBreaksRun` | src/habit_tracker.py:60-63 | A same-day duplicate resets the run instead of being skipped. D+2, D, D+1 gives 3. D, D+1, D+2, D+1 gives 2, not 3. |
| `StreakCalculator.RepeatedMiddleDay` | habit_tracker.py:49-52 | Completing the middle one of three consecutive days twice gives a streak of 2. |
| `StreakCalculator.SingleDate` | src/habit_tracker.py:64-67 | A single completed date gives 1, not 0 (the first date sets the current run to 1). |
| `StreakCalculator.SameDayTwice` | habit_tracker.py:53-56 | Two entries on the same day give 1. |
| `StreakCalculator.ThreeConsecutiveDays` | src/habit_tracker.py:57-61 | Three consecutive days, given out of order, give 3. |
| `StreakCalculator.TwoRuns` | src/habit_tracker.py:57-67 | D, D+1, D+3, D+4, D+5 gives 3: the gap resets the run to 1, and the larger run wins. |
| `StreakCalculator.WalkThreeDays` | habit_tracker.py:47-50 | The walk over the sorted dates D, D+1, D+2 reaches 3. |
| `StreakCalculator.WalkTwoRuns` | habit_tracker.py:47-56 | The walk over the sorted dates D, D+1, D+3, D+4, D+5 reaches 3. |
| `StreakCalculator.WalkRepeatedDay` | habit_tracker.py:49-52 | The walk over the sorted dates D, D+1, D+1, D+2 reaches only 2. |
| `HabitRecords.CompletedDates` | src/habit_tracker.py:52 | The filter of completed entries yields at most one date per entry, completed or not. |
| `HabitRecords.CompletedDatesMembers` | src/habit_tracker.py:52 | A date is kept exactly when some entry with `completed` true carries it (both directions). |
| `HabitRecords.CompletedDatesAppend` | habit_tracker.py:42 | The filter distributes over concatenation, so it keeps the entries' order. |
| `HabitRecords.IncompleteEntryDropped` | src/habit_tracker.py:52 | An entry with `completed` false contributes no date, wherever it stands. |
| `HabitRecords.CompletedDatesRemove` | habit_tracker.py:42 | Removing one entry from the list removes exactly that entry's date (if it is completed) from the multiset of kept dates. |
| `HabitRecords.CompletedDatesPermutation` | src/habit_tracker.py:52 | Reordering the entries only reorders the kept dates (equal multisets). |
| `DaySort.Sort` | src/habit_tracker.py:57 | The result of `sorted(progress_dates)` is in ascending order and is a permutation of its input. |
| `DaySort.Insert` | src/habit_tracker.py:57 | Inserting one date into a sorted list keeps it sorted and adds exactly that date. |
| `DaySort.SortedUnique` | habit_tracker.py:47 | Two sorted lists with the same multiset of dates are equal, so the sort depends only on which dates were logged. |
| `DaySort.SortIsArrangement` | habit_tracker.py:47 | The sort returns the one sorted arrangement of its input. |
| `DaySort.SortPermutation` | src/habit_tracker.py:57 | Inputs that are permutations of each other sort to the same list. |
| `DaySort.InsertPresent` | src/habit_tracker.py:57 | Sorting in a date that is already present places the new copy directly beside an equal date. |
| `Reminders.LatestCompleted` | src/habit_tracker.py:160 | The `order_by(date desc).first()` query over a habit's completed entries returns None exactly when the habit has no completed entry. Otherwise its date is one of those entries' dates and no completed entry of the habit is later. |
| `Reminders.NotDueIff` | src/habit_tracker.py:161 | A habit is left out of the reminders exactly when some completed entry of it is dated today and none is dated later. It is due when it has no completed entry or its latest one is not today. |
| `Reminders.DueToday` | src/habit_tracker.py:158-163 | The selected habits are at most as many as the input habits. A habit is selected exactly when it is an input habit and is due. |
| `Reminders.DueTodayAppend` | src/habit_tracker.py:159-162 | The selection distributes over concatenation of the habit list, so it keeps the original order of the habits. |
| `Reminders.RemindersDue` | src/habit_tracker.py:154-163 | The loop that appends due habits to `due_today` builds exactly `DueToday(habits, progress, today)`, the order-preserving filter of the due habits. |

## Left out

- Date parsing with `strptime` and the error it raises on a malformed date: dates are day numbers here, so every date is well formed.
- The clock (`datetime.now()` on the reminders page and in progress logging): `today` is a parameter.
- The database (SQLAlchemy models, sessions, add/commit/delete, `get_or_404`, the delete cascade of `delete_habit`): habits and progress entries are in-memory sequences. Calling `calculate_streak` with only one habit's entries is the caller's job, as it is in `view_progress`.
- The page routes, templates, form handling, flash messages and `app.run`: web I/O.
- `view_progress`'s dictionary keyed by habit name and the template hook `inject_functions`: presentation glue.
- daily-habit-tracker/habit_tracker.py is not part of this model: it has neither the streak counter nor the reminders page.
- Integer width: Python integers are unbounded, and so are Dafny's `int`; nothing needs wrap-around.
