/**
 * The streak counter: the longest run of sorted completed dates in which
 * every date is exactly one day after the one before it.
 *
 * Three views of the same number are related here: the declarative
 * `IsLongestRun`, the recursive reference `LongestRun`, and the
 * step-by-step scan `CalculateStreak` that the application runs.
 */
module StreakCalculator {
  import opened HabitRecords
  import opened DaySort

  function Max(a: int, b: int): int { if a < b then b else a }

  /** `s[k]` is exactly one day after `s[k - 1]`. */
  predicate NextDay(s: seq<Day>, k: int)
    requires 0 < k < |s|
  {
    s[k] - s[k - 1] == 1
  }

  /** `s[lo..hi]` is non-empty and each of its dates follows its predecessor by one day. */
  ghost predicate IsRun(s: seq<Day>, lo: int, hi: int)
  {
    0 <= lo < hi <= |s| && forall k :: lo < k < hi ==> NextDay(s, k)
  }

  /** `n` is the length of a longest run of `s` (0 when `s` is empty). */
  ghost predicate IsLongestRun(s: seq<Day>, n: int)
  {
    && (forall lo, hi :: IsRun(s, lo, hi) ==> hi - lo <= n)
    && (if |s| == 0 then n == 0 else exists lo, hi :: IsRun(s, lo, hi) && hi - lo == n)
  }

  // ---------------------------------------------------------------------
  // Recursive reference definition

  /** Length of the longest run that starts at index `i`. */
  function RunFrom(s: seq<Day>, i: nat): nat
    requires i < |s|
    decreases |s| - i
  {
    if i + 1 < |s| && NextDay(s, i + 1) then 1 + RunFrom(s, i + 1) else 1
  }

  /** Length of the longest run that starts at index `i` or later. */
  function MaxRunFrom(s: seq<Day>, i: nat): nat
    requires i <= |s|
    decreases |s| - i
  {
    if i == |s| then 0 else Max(RunFrom(s, i), MaxRunFrom(s, i + 1))
  }

  function LongestRun(s: seq<Day>): nat
  {
    MaxRunFrom(s, 0)
  }

  /** The streak of a list of dates, as the source computes it: sort, then scan. */
  function DateStreak(dates: seq<Day>): nat
  {
    LongestRun(Sort(dates))
  }

  /** The streak of a habit's progress entries. */
  function Streak(entries: seq<Progress>): nat
  {
    DateStreak(CompletedDates(entries))
  }

  // ---------------------------------------------------------------------
  // The reference definition meets the declarative one

  lemma {:induction false} RunFromIsMaximal(s: seq<Day>, i: nat)
    requires i < |s|
    ensures IsRun(s, i, i + RunFrom(s, i))
    ensures forall hi :: IsRun(s, i, hi) ==> hi <= i + RunFrom(s, i)
    decreases |s| - i
  {
    if i + 1 < |s| && NextDay(s, i + 1) {
      RunFromIsMaximal(s, i + 1);
      forall hi | IsRun(s, i, hi) ensures hi <= i + RunFrom(s, i) {
        if hi > i + 1 {
          assert IsRun(s, i + 1, hi);
        }
      }
    } else {
      assert forall hi :: IsRun(s, i, hi) ==> hi <= i + 1;
    }
  }

  lemma {:induction false} MaxRunFromIsLongest(s: seq<Day>, i: nat)
    requires i <= |s|
    ensures forall lo, hi :: i <= lo && IsRun(s, lo, hi) ==> hi - lo <= MaxRunFrom(s, i)
    ensures i < |s| ==> exists lo, hi :: i <= lo && IsRun(s, lo, hi) && hi - lo == MaxRunFrom(s, i)
    decreases |s| - i
  {
    if i < |s| {
      RunFromIsMaximal(s, i);
      MaxRunFromIsLongest(s, i + 1);
      if RunFrom(s, i) < MaxRunFrom(s, i + 1) {
        var lo, hi :| i + 1 <= lo && IsRun(s, lo, hi) && hi - lo == MaxRunFrom(s, i + 1);
        assert i <= lo;
      } else {
        assert IsRun(s, i, i + MaxRunFrom(s, i));
      }
    }
  }

  /** `LongestRun` is the length of a longest run. */
  lemma LongestRunIsLongest(s: seq<Day>)
    ensures IsLongestRun(s, LongestRun(s))
  {
    MaxRunFromIsLongest(s, 0);
  }

  /** The longest-run length is determined by the characterisation. */
  lemma LongestRunUnique(s: seq<Day>, n: int)
    requires IsLongestRun(s, n)
    ensures n == LongestRun(s)
  {
    LongestRunIsLongest(s);
    if |s| > 0 {
      var lo, hi :| IsRun(s, lo, hi) && hi - lo == n;
      var lo', hi' :| IsRun(s, lo', hi') && hi' - lo' == LongestRun(s);
    }
  }

  // ---------------------------------------------------------------------
  // The scan

  /**
   * What the scan knows after the first `i` sorted dates: the current run
   * ends at the last date seen and cannot be extended backwards, and
   * `streak` is the length of a longest run among the dates seen.
   */
  ghost predicate ScanState(s: seq<Day>, i: int, current: int, streak: int)
  {
    && 0 <= i <= |s|
    && (i == 0 ==> streak == 0 && current == 0)
    && (i > 0 ==> 1 <= current <= streak <= i)
    && (i > 0 ==> IsRun(s, i - current, i))
    && (0 < current < i ==> !NextDay(s, i - current))
    && (forall lo, hi :: hi <= i && IsRun(s, lo, hi) ==> hi - lo <= streak)
    && (i > 0 ==> exists lo, hi :: hi <= i && IsRun(s, lo, hi) && hi - lo == streak)
  }

  /** The run length after one more date: extended on a one-day step, else 1. */
  function NextCurrent(s: seq<Day>, i: int, current: int): int
    requires 0 <= i < |s|
  {
    if i > 0 && NextDay(s, i) then current + 1 else 1
  }

  /** One step of the scan keeps `ScanState`. */
  lemma ScanStep(s: seq<Day>, i: int, current: int, streak: int)
    requires i < |s| && ScanState(s, i, current, streak)
    ensures ScanState(s, i + 1, NextCurrent(s, i, current), Max(streak, NextCurrent(s, i, current)))
  {
    var c := NextCurrent(s, i, current);
    assert IsRun(s, i + 1 - c, i + 1);
    CurrentRunIsMaximal(s, i + 1, c);
    if streak < c {
      assert IsRun(s, i + 1 - c, i + 1);
    } else if i > 0 {
      var lo, hi :| hi <= i && IsRun(s, lo, hi) && hi - lo == streak;
      assert hi <= i + 1;
    }
  }

  /**
   * A run ending at `hi` that cannot be extended backwards is the longest
   * run ending there.
   */
  lemma CurrentRunIsMaximal(s: seq<Day>, hi: int, c: int)
    requires IsRun(s, hi - c, hi)
    requires c < hi ==> !NextDay(s, hi - c)
    ensures forall lo :: IsRun(s, lo, hi) ==> hi - lo <= c
  {
  }

  /**
   * Counts the longest streak of a habit's progress entries: keeps the
   * dates of the completed ones, sorts them and walks them once, extending
   * the current run when a date is one day after the last one and starting
   * a new run of 1 otherwise.
   */
  method CalculateStreak(entries: seq<Progress>) returns (streak: nat)
    ensures IsLongestRun(Sort(CompletedDates(entries)), streak)
    ensures streak == Streak(entries)
  {
    var dates := Sort(CompletedDates(entries));
    streak := 0;
    var currentStreak: nat := 0;
    var lastDate: Option<Day> := None;
    for i := 0 to |dates|
      invariant lastDate == if i == 0 then None else Some(dates[i - 1])
      // restates the scan's bound from ScanState, for the reader
      invariant i > 0 ==> 1 <= currentStreak <= streak <= i
      invariant ScanState(dates, i, currentStreak, streak)
    {
      var date := dates[i];
      ScanStep(dates, i, currentStreak, streak);
      if lastDate.Some? {
        if date - lastDate.value == 1 {
          currentStreak := currentStreak + 1;
        } else {
          currentStreak := 1;
        }
      } else {
        currentStreak := 1;
      }
      lastDate := Some(date);
      streak := Max(streak, currentStreak);
    }
    LongestRunUnique(dates, streak);
  }

  // ---------------------------------------------------------------------
  // Properties of the streak

  /** A longest run is at least one date long and at most all of them. */
  lemma LongestRunBounds(s: seq<Day>)
    ensures LongestRun(s) <= |s|
    ensures |s| > 0 ==> 1 <= LongestRun(s)
  {
    LongestRunIsLongest(s);
    if |s| > 0 {
      assert IsRun(s, 0, 1);
      var lo, hi :| IsRun(s, lo, hi) && hi - lo == LongestRun(s);
    }
  }

  /**
   * The streak is 0 exactly when no entry is completed, and otherwise lies
   * between 1 and the number of completed entries.
   */
  lemma StreakBounds(entries: seq<Progress>)
    ensures Streak(entries) == 0 <==> forall e :: e in entries ==> !e.completed
    ensures Streak(entries) <= |CompletedDates(entries)|
  {
    var dates := CompletedDates(entries);
    var sorted := Sort(dates);
    assert |sorted| == |multiset(sorted)| == |multiset(dates)| == |dates|;
    LongestRunBounds(sorted);
    CompletedDatesMembers(entries);
    if |dates| > 0 {
      assert dates[0] in dates;
      var e :| e in entries && e.completed && e.date == dates[0];
    } else {
      forall e | e in entries ensures !e.completed {
        assert e.completed ==> e.date in dates;
      }
    }
  }

  /** Entries whose `completed` flag is false do not change the streak. */
  lemma StreakIgnoresIncomplete(a: seq<Progress>, e: Progress, b: seq<Progress>)
    requires !e.completed
    ensures Streak(a + [e] + b) == Streak(a + b)
  {
    IncompleteEntryDropped(a, e, b);
  }

  /** The streak does not depend on the order of the entries. */
  lemma StreakPermutation(a: seq<Progress>, b: seq<Progress>)
    requires multiset(a) == multiset(b)
    ensures Streak(a) == Streak(b)
  {
    CompletedDatesPermutation(a, b);
    SortPermutation(CompletedDates(a), CompletedDates(b));
  }

  /**
   * Adding a second entry for a date that is already completed never
   * lengthens the streak: the two copies are 0 days apart, so no run holds
   * both of them.
   */
  lemma DuplicateNeverInflates(dates: seq<Day>, x: Day)
    requires x in dates
    ensures DateStreak(dates + [x]) <= DateStreak(dates)
  {
    var t := Sort(dates);
    assert x in multiset(t);
    var inserted := Insert(x, t);
    assert multiset(dates + [x]) == multiset(dates) + multiset{x};
    SortedUnique(Sort(dates + [x]), inserted);
    var j := InsertPresent(x, t);
    LongestRunIsLongest(t);
    LongestRunIsLongest(inserted);
    forall lo, hi | IsRun(inserted, lo, hi) ensures hi - lo <= LongestRun(t) {
      RunSkipsDuplicate(t, j, lo, hi);
    }
    var lo, hi :| IsRun(inserted, lo, hi) && hi - lo == LongestRun(inserted);
  }

  /** A run of `t` with `t[j]` doubled is, shifted if need be, a run of `t`. */
  lemma RunSkipsDuplicate(t: seq<Day>, j: nat, lo: int, hi: int)
    requires j < |t|
    requires IsRun(t[..j] + [t[j]] + t[j..], lo, hi)
    ensures hi <= j + 1 ==> IsRun(t, lo, hi)
    ensures hi > j + 1 ==> lo >= j + 1 && IsRun(t, lo - 1, hi - 1)
  {
    var u := t[..j] + [t[j]] + t[j..];
    assert forall k :: 0 <= k <= j ==> u[k] == t[k];
    assert forall k :: j < k < |u| ==> u[k] == t[k - 1];
    assert !NextDay(u, j + 1);
    if hi > j + 1 && lo < j + 1 {
      assert false;
    }
    if hi <= j + 1 {
      forall k | lo < k < hi ensures NextDay(t, k) {
        assert NextDay(u, k);
      }
    } else {
      forall k | lo - 1 < k < hi - 1 ensures NextDay(t, k) {
        assert NextDay(u, k + 1);
      }
    }
  }

  // ---------------------------------------------------------------------
  // Worked examples. The walk over already sorted dates (`LongestRun`) is
  // computed first; `DateStreak` then adds the sort.

  lemma WalkThreeDays(d: Day)
    ensures LongestRun([d, d + 1, d + 2]) == 3
  {
    var s := [d, d + 1, d + 2];
    assert RunFrom(s, 2) == 1 && RunFrom(s, 1) == 2 && RunFrom(s, 0) == 3;
    assert MaxRunFrom(s, 3) == 0 && MaxRunFrom(s, 2) == 1 && MaxRunFrom(s, 1) == 2;
  }

  lemma WalkTwoRuns(d: Day)
    ensures LongestRun([d, d + 1, d + 3, d + 4, d + 5]) == 3
  {
    var s := [d, d + 1, d + 3, d + 4, d + 5];
    assert RunFrom(s, 4) == 1 && RunFrom(s, 3) == 2 && RunFrom(s, 2) == 3;
    assert RunFrom(s, 1) == 1 && RunFrom(s, 0) == 2;
    assert MaxRunFrom(s, 5) == 0 && MaxRunFrom(s, 4) == 1 && MaxRunFrom(s, 3) == 2;
    assert MaxRunFrom(s, 2) == 3 && MaxRunFrom(s, 1) == 3;
  }

  lemma WalkRepeatedDay(d: Day)
    ensures LongestRun([d, d + 1, d + 1, d + 2]) == 2
  {
    var s := [d, d + 1, d + 1, d + 2];
    assert RunFrom(s, 3) == 1 && RunFrom(s, 2) == 2 && RunFrom(s, 1) == 1 && RunFrom(s, 0) == 2;
    assert MaxRunFrom(s, 4) == 0 && MaxRunFrom(s, 3) == 1 && MaxRunFrom(s, 2) == 2;
    assert MaxRunFrom(s, 1) == 2;
  }

  lemma SingleDate(d: Day)
    ensures DateStreak([d]) == 1
  {
    SortIsArrangement([d], [d]);
    assert RunFrom([d], 0) == 1 && MaxRunFrom([d], 1) == 0;
  }

  lemma SameDayTwice(d: Day)
    ensures DateStreak([d, d]) == 1
  {
    var s := [d, d];
    SortIsArrangement(s, s);
    assert RunFrom(s, 1) == 1 && RunFrom(s, 0) == 1;
    assert MaxRunFrom(s, 2) == 0 && MaxRunFrom(s, 1) == 1;
  }

  /** Three consecutive days, logged out of order, give 3. */
  lemma ThreeConsecutiveDays(d: Day)
    ensures DateStreak([d + 2, d, d + 1]) == 3
  {
    assert multiset([d + 2, d, d + 1]) == multiset([d, d + 1, d + 2]);
    SortIsArrangement([d + 2, d, d + 1], [d, d + 1, d + 2]);
    WalkThreeDays(d);
  }

  /** Runs of 2 and 3 separated by a two-day gap: the longer one counts. */
  lemma TwoRuns(d: Day)
    ensures DateStreak([d, d + 1, d + 3, d + 4, d + 5]) == 3
  {
    var s := [d, d + 1, d + 3, d + 4, d + 5];
    SortIsArrangement(s, s);
    WalkTwoRuns(d);
  }

  /** Completing the middle one of three consecutive days twice gives 2. */
  lemma RepeatedMiddleDay(d: Day)
    ensures DateStreak([d, d + 1, d + 2, d + 1]) == 2
  {
    var s := [d, d + 1, d + 1, d + 2];
    assert multiset([d, d + 1, d + 2, d + 1]) == multiset(s);
    SortIsArrangement([d, d + 1, d + 2, d + 1], s);
    WalkRepeatedDay(d);
  }

  /**
   * A repeated date breaks the run instead of being skipped: completing the
   * middle one of three consecutive days a second time brings the streak
   * down from 3 to 2, so adding a duplicate can change the result.
   */
  lemma DuplicateBreaksRun(d: Day)
    ensures DateStreak([d + 2, d, d + 1]) == 3
    ensures DateStreak([d, d + 1, d + 2, d + 1]) == 2
  {
    ThreeConsecutiveDays(d);
    RepeatedMiddleDay(d);
  }
}
