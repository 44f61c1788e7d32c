/**
 * Ascending order of day numbers, standing for the built-in `sorted` that
 * the streak counter applies to its list of completed dates.
 */
module DaySort {
  import opened HabitRecords

  predicate Sorted(s: seq<Day>)
  {
    forall i, j :: 0 <= i < j < |s| ==> s[i] <= s[j]
  }

  /** Places `x` before the first element of `s` that is not smaller. */
  function Insert(x: Day, s: seq<Day>): (r: seq<Day>)
    requires Sorted(s)
    ensures Sorted(r)
    ensures multiset(r) == multiset(s) + multiset{x}
  {
    if |s| == 0 then [x]
    else if x <= s[0] then [x] + s
    else
      var tail := Insert(x, s[1..]);
      assert s == [s[0]] + s[1..];
      assert forall k :: 0 <= k < |tail| ==> s[0] <= tail[k] by {
        forall k | 0 <= k < |tail| ensures s[0] <= tail[k] {
          assert tail[k] in multiset(tail);
          if tail[k] != x {
            HeadIsLeast(s, tail[k]);
          }
        }
      }
      [s[0]] + tail
  }

  /** The first date of a sorted sequence is its least. */
  lemma HeadIsLeast(s: seq<Day>, y: Day)
    requires Sorted(s) && y in multiset(s)
    ensures s[0] <= y
  {
  }

  /** Dropping the first date of a sorted sequence leaves it sorted, one copy of the date fewer. */
  lemma TailMultiset(s: seq<Day>)
    requires Sorted(s) && |s| > 0
    ensures Sorted(s[1..])
    ensures multiset(s[1..]) == multiset(s) - multiset{s[0]}
  {
    assert s == [s[0]] + s[1..];
  }

  /** The dates of `s` in ascending order (an insertion sort). */
  function Sort(s: seq<Day>): (r: seq<Day>)
    ensures Sorted(r)
    ensures multiset(r) == multiset(s)
  {
    if |s| == 0 then []
    else
      assert s == [s[0]] + s[1..];
      Insert(s[0], Sort(s[1..]))
  }

  /** A sorted arrangement of a multiset of dates is unique. */
  lemma {:induction false} SortedUnique(a: seq<Day>, b: seq<Day>)
    requires Sorted(a) && Sorted(b)
    requires multiset(a) == multiset(b)
    ensures a == b
    decreases |a|
  {
    if |a| == 0 {
      assert |b| == |multiset(b)| == 0;
    } else {
      assert |b| == |multiset(b)| == |a|;
      assert a[0] == b[0] by {
        HeadIsLeast(a, b[0]);
        HeadIsLeast(b, a[0]);
      }
      assert a[1..] == b[1..] by {
        TailMultiset(a);
        TailMultiset(b);
        SortedUnique(a[1..], b[1..]);
      }
      assert a == [a[0]] + a[1..] && b == [b[0]] + b[1..];
    }
  }

  /** `Sort` returns the one sorted arrangement of its input. */
  lemma SortIsArrangement(s: seq<Day>, t: seq<Day>)
    requires Sorted(t) && multiset(s) == multiset(t)
    ensures Sort(s) == t
  {
    SortedUnique(Sort(s), t);
  }

  /** The sort depends only on the multiset of its input. */
  lemma SortPermutation(a: seq<Day>, b: seq<Day>)
    requires multiset(a) == multiset(b)
    ensures Sort(a) == Sort(b)
  {
    SortedUnique(Sort(a), Sort(b));
  }

  /**
   * Inserting a date that is already present places the new copy right
   * before an existing one.
   */
  lemma {:induction false} InsertPresent(x: Day, s: seq<Day>) returns (j: nat)
    requires Sorted(s) && x in s
    ensures j < |s| && s[j] == x
    ensures Insert(x, s) == s[..j] + [x] + s[j..]
  {
    if x <= s[0] {
      assert s[0] == x;
      j := 0;
    } else {
      assert x in s[1..];
      var k := InsertPresent(x, s[1..]);
      j := k + 1;
      assert s[..j] == [s[0]] + s[1..][..k];
      assert s[j..] == s[1..][k..];
    }
  }
}
