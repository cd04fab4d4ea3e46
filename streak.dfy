/** The streak engine: `calculateStreak` sorts a habit's completed days most
    recent first, returns 0 when the most recent is more than one day before
    today, and otherwise walks the sorted days with a cursor that starts at
    TODAY and moves back one day per match, stopping at the first mismatch. */
module Streak {
  import opened SeqUtil
  import opened Habits

  /** Most recent day first. */
  ghost predicate Descending(s: seq<Day>)
  {
    forall i, j :: 0 <= i < j < |s| ==> s[i] >= s[j]
  }

  /** Inserts `x` into a most-recent-first list. */
  function Insert(x: Day, s: seq<Day>): (r: seq<Day>)
    requires Descending(s)
    ensures |r| == |s| + 1
    ensures r[0] == x || (|s| > 0 && r[0] == s[0])
    ensures Descending(r)
    ensures multiset(r) == multiset(s) + multiset{x}
  {
    if |s| == 0 || x >= s[0] then [x] + s
    else
      var rest := Insert(x, s[1..]);
      assert s == [s[0]] + s[1..];
      assert forall j :: 0 <= j < |rest| ==> s[0] >= rest[j] by {
        assert s[0] >= rest[0];
      }
      [s[0]] + rest
  }

  /** `[...dates].sort().reverse()`: the same days, most recent first. For
      `YYYY-MM-DD` strings the default string sort is chronological. */
  function SortDescending(dates: seq<Day>): (r: seq<Day>)
    ensures |r| == |dates|
    ensures Descending(r)
    ensures multiset(r) == multiset(dates)
  {
    if |dates| == 0 then []
    else
      assert dates == [dates[0]] + dates[1..];
      Insert(dates[0], SortDescending(dates[1..]))
  }

  /** The loop of `calculateStreak` from a cursor day: how many leading days
      of `sorted` match the cursor, the cursor stepping back a day per match. */
  function Walk(sorted: seq<Day>, cursor: Day): (n: nat)
    ensures n <= |sorted|
    ensures n > 0 ==> sorted[0] == cursor
  {
    if |sorted| == 0 || sorted[0] != cursor then 0
    else 1 + Walk(sorted[1..], cursor - 1)
  }

  /** The value `calculateStreak` returns for completed days `dates`. */
  function StreakOf(dates: seq<Day>, today: Day): (n: nat)
    ensures n <= |dates|
    ensures |dates| == 0 ==> n == 0
    ensures n > 0 ==> today in dates
  {
    if |dates| == 0 then 0
    else
      var sorted := SortDescending(dates);
      assert sorted[0] in multiset(dates);
      if today - sorted[0] > 1 then 0 else Walk(sorted, today)
  }

  /** `calculateStreak(habit)`, with the current day passed in. */
  method CalculateStreak(habit: Habit, today: Day) returns (streak: nat)
    ensures streak == StreakOf(habit.completedDates, today)
    ensures streak <= |habit.completedDates|
  {
    if |habit.completedDates| == 0 {
      return 0;
    }
    var sortedDates := SortDescending(habit.completedDates);
    var lastCompleted := sortedDates[0];
    var daysDiff := today - lastCompleted;
    if daysDiff > 1 {
      return 0;
    }
    streak := 0;
    var currentDate := today;
    for i := 0 to |sortedDates|
      invariant streak == i && currentDate == today - i
      invariant Walk(sortedDates, today) == streak + Walk(sortedDates[i..], currentDate)
    {
      if sortedDates[i] == currentDate {
        assert sortedDates[i..][1..] == sortedDates[i + 1..];
        streak := streak + 1;
        currentDate := currentDate - 1;
      } else {
        break;
      }
    }
    assert |sortedDates| == |habit.completedDates|;
  }

  /** A sorted list's first day is its most recent day. */
  lemma FirstIsMostRecent(dates: seq<Day>, d: Day)
    requires d in dates
    ensures |SortDescending(dates)| > 0
    ensures SortDescending(dates)[0] >= d && SortDescending(dates)[0] in dates
  {
    var sorted := SortDescending(dates);
    assert d in multiset(sorted);
    var k :| 0 <= k < |sorted| && sorted[k] == d;
    assert sorted[0] in multiset(dates);
  }

  /** Sorting a duplicate-free list gives a strictly decreasing one. */
  lemma SortedStrictlyDescending(dates: seq<Day>)
    requires NoDuplicates(dates)
    ensures forall i, j :: 0 <= i < j < |SortDescending(dates)| ==>
      SortDescending(dates)[i] > SortDescending(dates)[j]
  {
    var sorted := SortDescending(dates);
    NoDuplicatesPermutation(dates, sorted);
    forall i, j | 0 <= i < j < |sorted| ensures sorted[i] > sorted[j] {
      assert sorted[i] >= sorted[j] && sorted[i] != sorted[j];
    }
  }

  /** On a strictly decreasing list that starts no later than `cursor`, the
      walk counts exactly the run `cursor, cursor - 1, ...` of listed days. */
  lemma {:induction false} WalkCountsRun(s: seq<Day>, cursor: Day)
    requires forall i, j :: 0 <= i < j < |s| ==> s[i] > s[j]
    requires forall i :: 0 <= i < |s| ==> s[i] <= cursor
    ensures forall d :: cursor - Walk(s, cursor) < d <= cursor ==> d in s
    ensures cursor - Walk(s, cursor) !in s
  {
    if |s| > 0 && s[0] == cursor {
      var rest := s[1..];
      assert forall i :: 0 <= i < |rest| ==> rest[i] == s[i + 1];
      WalkCountsRun(rest, cursor - 1);
      var n := Walk(s, cursor);
      forall d | cursor - n < d <= cursor ensures d in s {
        if d < cursor {
          assert d in rest;
        }
      }
      assert cursor - n !in s by {
        assert cursor - n < cursor;
        assert cursor - 1 - Walk(rest, cursor - 1) !in rest;
      }
    }
  }

  /** Sorting keeps exactly the same days. */
  lemma SortKeepsDays(dates: seq<Day>)
    ensures forall d :: d in SortDescending(dates) <==> d in dates
  {
    var sorted := SortDescending(dates);
    forall d ensures d in sorted <==> d in dates {
      assert d in sorted <==> d in multiset(sorted);
      assert d in dates <==> d in multiset(dates);
    }
  }

  /** `calculateStreak` on a habit with no duplicate and no future day is the
      length of the run of consecutive completed days ending TODAY: every day
      after `today - streak` up to today is completed and `today - streak` is
      not. A run that ends yesterday therefore gives 0. */
  lemma StreakIsRunEndingToday(dates: seq<Day>, today: Day)
    requires NoDuplicates(dates)
    requires forall d :: d in dates ==> d <= today
    ensures forall d :: today - StreakOf(dates, today) < d <= today ==> d in dates
    ensures today - StreakOf(dates, today) !in dates
  {
    if |dates| == 0 {
      return;
    }
    var sorted := SortDescending(dates);
    if today - sorted[0] > 1 {
      if today in dates {
        FirstIsMostRecent(dates, today);
      }
      return;
    }
    assert StreakOf(dates, today) == Walk(sorted, today);
    SortedStrictlyDescending(dates);
    SortKeepsDays(dates);
    forall i | 0 <= i < |sorted| ensures sorted[i] <= today {
      assert sorted[i] in sorted;
    }
    WalkCountsRun(sorted, today);
  }

  /** The streak is positive exactly when today is completed, provided no
      completed day lies in the future. */
  lemma StreakPositiveIffCompletedToday(habit: Habit, today: Day)
    requires forall d :: d in habit.completedDates ==> d <= today
    ensures StreakOf(habit.completedDates, today) > 0 <==> IsCompletedToday(habit, today)
  {
    var dates := habit.completedDates;
    if |dates| > 0 {
      var sorted := SortDescending(dates);
      assert sorted[0] in multiset(dates);
      if today in dates {
        FirstIsMostRecent(dates, today);
      }
    }
  }

  /** The guard `daysDiff > 1`: when every completed day is more than one day
      before today, the streak is 0. */
  lemma StreakZeroWhenLastCompletionStale(dates: seq<Day>, today: Day)
    requires forall d :: d in dates ==> d < today - 1
    ensures StreakOf(dates, today) == 0
  {
    if |dates| > 0 {
      FirstIsMostRecent(dates, dates[0]);
    }
  }

  /** A completed day later than today makes the streak 0: the walk compares
      it with today first and stops. */
  lemma StreakZeroWithFutureDay(dates: seq<Day>, today: Day, future: Day)
    requires future in dates && future > today
    ensures StreakOf(dates, today) == 0
  {
    FirstIsMostRecent(dates, future);
  }

  /** A lone completed day four days back gives 0. */
  lemma StreakExampleStale()
    ensures StreakOf([1], 5) == 0
  {
    SortOne(1);
  }

  /** One day sorts to itself. */
  lemma SortOne(a: Day)
    ensures SortDescending([a]) == [a]
  {
    assert [a][1..] == [];
  }

  /** Two increasing days sort to the reverse order. */
  lemma SortTwo(a: Day, b: Day)
    requires a < b
    ensures SortDescending([a, b]) == [b, a]
  {
    assert [a, b][1..] == [b] && [b][1..] == [];
    SortOne(b);
    assert Insert(a, [b]) == [b] + Insert(a, []);
  }

  /** Three increasing days sort to the reverse order. */
  lemma SortThree(a: Day, b: Day, c: Day)
    requires a < b < c
    ensures SortDescending([a, b, c]) == [c, b, a]
  {
    assert [a, b, c][1..] == [b, c];
    SortTwo(b, c);
    assert [c, b][1..] == [b] && [b][1..] == [];
    assert Insert(a, [b]) == [b, a] by {
      assert Insert(a, [b]) == [b] + Insert(a, []);
    }
    assert Insert(a, [c, b]) == [c] + Insert(a, [b]);
  }

  /** Days 1, 2, 3 with today 3 give 3. */
  lemma StreakExampleFullRun()
    ensures StreakOf([1, 2, 3], 3) == 3
  {
    SortThree(1, 2, 3);
    assert [3, 2, 1][1..] == [2, 1] && [2, 1][1..] == [1] && [1][1..] == [];
  }

  /** Days 1, 2 with today 3 give 0: the run ends yesterday and the walk
      starts at today. */
  lemma StreakExampleRunEndingYesterday()
    ensures StreakOf([1, 2], 3) == 0
  {
    SortTwo(1, 2);
  }

  /** Days 1 and 3 with today 3 give 1: the missing day 2 ends the walk. */
  lemma StreakExampleGap()
    ensures StreakOf([1, 3], 3) == 1
  {
    SortTwo(1, 3);
    assert [3, 1][1..] == [1];
  }
}
