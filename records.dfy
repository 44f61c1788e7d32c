/**
 * The two record kinds of the habit tracker, as in-memory values, and the
 * filter that keeps the dates of completed progress entries.
 *
 * A calendar date is a day number (days since some fixed epoch): the
 * difference of two dates in days is then the difference of their numbers.
 */
module HabitRecords {

  type Day = int

  datatype Option<T> = None | Some(value: T)

  /** A row of the habit table. Nullable text columns are modelled as strings. */
  datatype Habit = Habit(
    id: int,
    name: string,
    description: string,
    frequency: string,
    startDate: string,
    priority: string)

  /** A row of the progress table; `habitId` refers to the owning habit. */
  datatype Progress = Progress(
    id: int,
    habitId: int,
    date: Day,
    completed: bool,
    notes: string)

  /** The dates of the completed entries, in the order of the entries. */
  function CompletedDates(entries: seq<Progress>): (dates: seq<Day>)
    ensures |dates| <= |entries|
  {
    if |entries| == 0 then []
    else
      var rest := CompletedDates(entries[1..]);
      if entries[0].completed then [entries[0].date] + rest else rest
  }

  /** A date is kept exactly when some completed entry carries it. */
  lemma {:induction false} CompletedDatesMembers(entries: seq<Progress>)
    ensures forall d :: d in CompletedDates(entries) <==> exists e :: e in entries && e.completed && e.date == d
  {
    if |entries| > 0 {
      CompletedDatesMembers(entries[1..]);
      assert forall e :: e in entries <==> e == entries[0] || e in entries[1..];
    }
  }

  /** Filtering distributes over concatenation of the entry list. */
  lemma {:induction false} CompletedDatesAppend(a: seq<Progress>, b: seq<Progress>)
    ensures CompletedDates(a + b) == CompletedDates(a) + CompletedDates(b)
  {
    if |a| == 0 {
      assert a + b == b;
    } else {
      assert (a + b)[1..] == a[1..] + b;
      CompletedDatesAppend(a[1..], b);
    }
  }

  /** An entry whose `completed` flag is false contributes no date. */
  lemma IncompleteEntryDropped(a: seq<Progress>, e: Progress, b: seq<Progress>)
    requires !e.completed
    ensures CompletedDates(a + [e] + b) == CompletedDates(a + b)
  {
    CompletedDatesAppend(a + [e], b);
    CompletedDatesAppend(a, [e]);
    CompletedDatesAppend(a, b);
    assert CompletedDates([e]) == [] by {
      assert [e][1..] == [];
    }
  }

  /** Taking out an entry takes out its date, if any. */
  lemma CompletedDatesRemove(l: seq<Progress>, e: Progress, r: seq<Progress>)
    ensures multiset(CompletedDates(l + [e] + r)) ==
      multiset(CompletedDates(l + r)) + multiset(CompletedDates([e]))
  {
    CompletedDatesAppend(l + [e], r);
    CompletedDatesAppend(l, [e]);
    CompletedDatesAppend(l, r);
    var cl, ce, cr := CompletedDates(l), CompletedDates([e]), CompletedDates(r);
    assert multiset(cl + ce + cr) == multiset(cl) + multiset(ce) + multiset(cr);
    assert multiset(cl + cr) == multiset(cl) + multiset(cr);
  }

  /** A list is its prefix, one entry and its suffix; dropping the entry drops one copy. */
  lemma SplitAt(s: seq<Progress>, j: int)
    requires 0 <= j < |s|
    ensures s == s[..j] + [s[j]] + s[j + 1..]
    ensures multiset(s[..j] + s[j + 1..]) == multiset(s) - multiset{s[j]}
  {
    assert s == s[..j] + [s[j]] + s[j + 1..];
  }

  /** Reordering the entries only reorders the completed dates. */
  lemma {:induction false} CompletedDatesPermutation(a: seq<Progress>, b: seq<Progress>)
    requires multiset(a) == multiset(b)
    ensures multiset(CompletedDates(a)) == multiset(CompletedDates(b))
    decreases |a|
  {
    if |a| == 0 {
      assert |b| == |multiset(b)| == 0;
    } else {
      var e, rest := a[0], a[1..];
      assert e in b by {
        assert e in multiset(b);
      }
      var j :| 0 <= j < |b| && b[j] == e;
      var l, r := b[..j], b[j + 1..];
      SplitAt(a, 0);
      SplitAt(b, j);
      assert a[..0] == [];
      var dropped := multiset(CompletedDates([e]));
      calc {
        multiset(CompletedDates(a));
        { assert [] + rest == rest; CompletedDatesRemove([], e, rest); }
        multiset(CompletedDates(rest)) + dropped;
        { CompletedDatesPermutation(rest, l + r); }
        multiset(CompletedDates(l + r)) + dropped;
        { CompletedDatesRemove(l, e, r); }
        multiset(CompletedDates(b));
      }
    }
  }
}
