/**
 * The reminders page: the habits that are still due today, that is, whose
 * latest completed progress entry is missing or is not dated today. The two
 * database queries become in-memory sequences, and the clock becomes the
 * parameter `today`.
 */
module Reminders {
  import opened HabitRecords

  /** `e` is a completed entry of habit `habitId`. */
  predicate CompletedFor(e: Progress, habitId: int)
  {
    e.habitId == habitId && e.completed
  }

  /**
   * The date of the most recent completed entry of habit `habitId`, or None
   * if it has none: the first row of the completed entries of the habit
   * ordered by date, newest first.
   */
  function LatestCompleted(progress: seq<Progress>, habitId: int): (latest: Option<Day>)
    ensures latest.None? <==> forall e :: e in progress ==> !CompletedFor(e, habitId)
    ensures latest.Some? ==> exists e :: e in progress && CompletedFor(e, habitId) && e.date == latest.value
    ensures latest.Some? ==> forall e :: e in progress && CompletedFor(e, habitId) ==> e.date <= latest.value
  {
    if |progress| == 0 then None
    else
      var e := progress[0];
      var rest := LatestCompleted(progress[1..], habitId);
      assert forall x :: x in progress <==> x == e || x in progress[1..];
      if !CompletedFor(e, habitId) then rest
      else if rest.None? || rest.value < e.date then Some(e.date)
      else rest
  }

  /** A habit is due when it has no completed entry or its latest one is not today. */
  predicate IsDue(h: Habit, progress: seq<Progress>, today: Day)
  {
    var latest := LatestCompleted(progress, h.id);
    latest.None? || latest.value != today
  }

  /** The due habits of `habits`, in their original order. */
  function DueToday(habits: seq<Habit>, progress: seq<Progress>, today: Day): (due: seq<Habit>)
    ensures |due| <= |habits|
    ensures forall h :: h in due <==> h in habits && IsDue(h, progress, today)
  {
    if |habits| == 0 then []
    else
      var last := habits[|habits| - 1];
      var init := habits[..|habits| - 1];
      assert habits == init + [last];
      DueToday(init, progress, today) + if IsDue(last, progress, today) then [last] else []
  }

  /**
   * A habit is not due exactly when one of its completed entries is dated
   * today and none is dated later.
   */
  lemma NotDueIff(h: Habit, progress: seq<Progress>, today: Day)
    ensures !IsDue(h, progress, today) <==>
      && (exists e :: e in progress && CompletedFor(e, h.id) && e.date == today)
      && (forall e :: e in progress && CompletedFor(e, h.id) ==> e.date <= today)
  {
  }

  /** Selecting the due habits keeps their order: it distributes over concatenation. */
  lemma {:induction false} DueTodayAppend(a: seq<Habit>, b: seq<Habit>, progress: seq<Progress>, today: Day)
    ensures DueToday(a + b, progress, today) == DueToday(a, progress, today) + DueToday(b, progress, today)
    decreases |b|
  {
    if |b| == 0 {
      assert a + b == a;
    } else {
      var init := b[..|b| - 1];
      assert (a + b)[..|a + b| - 1] == a + init;
      assert (a + b)[|a + b| - 1] == b[|b| - 1];
      DueTodayAppend(a, init, progress, today);
    }
  }

  /**
   * Builds the reminders list: walks the habits in order and appends each
   * one whose latest completed entry is missing or not dated today.
   */
  method RemindersDue(habits: seq<Habit>, progress: seq<Progress>, today: Day) returns (dueToday: seq<Habit>)
    ensures dueToday == DueToday(habits, progress, today)
  {
    dueToday := [];
    for i := 0 to |habits|
      invariant dueToday == DueToday(habits[..i], progress, today)
    {
      var habit := habits[i];
      var lastProgress := LatestCompleted(progress, habit.id);
      if lastProgress.None? || lastProgress.value != today {
        dueToday := dueToday + [habit];
      }
      assert habits[..i + 1][..i] == habits[..i];
    }
    assert habits[..|habits|] == habits;
  }
}
