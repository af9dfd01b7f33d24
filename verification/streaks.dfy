/**
 Current and best study streaks over a collection of calendar dates.

 A date is a day number: consecutive calendar days are consecutive integers.
 The reference definitions below speak about the SET of distinct dates; the
 method `CalculateStreaks` walks the sorted distinct dates the way the
 dashboard does and is proved to agree with them.
 */
module Streaks {

  /** The distinct values of a sequence. */
  ghost function Elems(s: seq<int>): set<int> {
    set x | x in s
  }

  ghost predicate StrictlyIncreasing(s: seq<int>) {
    forall i, j :: 0 <= i < j < |s| ==> s[i] < s[j]
  }

  /** Every day from `start` through `start + len - 1` is present. */
  ghost predicate Run(days: set<int>, start: int, len: int) {
    forall d :: start <= d < start + len ==> d in days
  }

  /** `m` is the latest date present. */
  ghost predicate IsLatest(days: set<int>, m: int) {
    m in days && forall d :: d in days ==> d <= m
  }

  /** The `len` days ending at `last` are all present and the day before them is not. */
  ghost predicate MaximalRunEndingAt(days: set<int>, last: int, len: int) {
    len >= 1 && Run(days, last - len + 1, len) && last - len !in days
  }

  /** The current streak: the length of the run of consecutive days that ends
      at the latest date present (whatever "today" is), or 0 for no dates. */
  ghost predicate IsCurrentStreak(days: set<int>, current: int) {
    if days == {} then current == 0
    else exists m :: IsLatest(days, m) && MaximalRunEndingAt(days, m, current)
  }

  /** The best streak: the length of the longest run of consecutive days. */
  ghost predicate IsBestStreak(days: set<int>, best: int) {
    && (exists start :: Run(days, start, best))
    && (forall start, len :: Run(days, start, len) ==> len <= best)
  }

  function Max(a: int, b: int): (m: int)
    ensures m >= a && m >= b && (m == a || m == b)
  {
    if a >= b then a else b
  }

  /** Inserts `x` into a strictly increasing sequence, unless already present. */
  function Insert(x: int, u: seq<int>): (r: seq<int>)
    requires StrictlyIncreasing(u)
    ensures StrictlyIncreasing(r)
    ensures Elems(r) == Elems(u) + {x}
  {
    if |u| == 0 then [x]
    else if x < u[0] then
      InsertInFront(x, u);
      [x] + u
    else if x == u[0] then u
    else
      TailIncreasing(u);
      var rest := Insert(x, u[1..]);
      InsertBehindHead(x, u, rest);
      [u[0]] + rest
  }

  /** A value below every element of an increasing sequence can be put in front. */
  lemma PrependKeepsIncreasing(x: int, u: seq<int>)
    requires StrictlyIncreasing(u)
    requires forall y :: y in Elems(u) ==> x < y
    ensures StrictlyIncreasing([x] + u)
    ensures Elems([x] + u) == {x} + Elems(u)
  {
    forall j | 0 <= j < |u|
      ensures x < u[j]
    {
      assert u[j] in Elems(u);
    }
  }

  lemma TailIncreasing(u: seq<int>)
    requires StrictlyIncreasing(u) && |u| > 0
    ensures StrictlyIncreasing(u[1..])
    ensures Elems(u) == {u[0]} + Elems(u[1..])
    ensures forall y :: y in Elems(u[1..]) ==> u[0] < y
  {
    assert u == [u[0]] + u[1..];
    forall y | y in Elems(u[1..])
      ensures u[0] < y
    {
      var j :| 0 <= j < |u[1..]| && u[1..][j] == y;
      assert u[j + 1] == y;
    }
  }

  lemma InsertInFront(x: int, u: seq<int>)
    requires StrictlyIncreasing(u) && |u| > 0 && x < u[0]
    ensures StrictlyIncreasing([x] + u)
    ensures Elems([x] + u) == Elems(u) + {x}
  {
    TailIncreasing(u);
    PrependKeepsIncreasing(x, u);
  }

  lemma InsertBehindHead(x: int, u: seq<int>, rest: seq<int>)
    requires StrictlyIncreasing(u) && |u| > 0 && u[0] < x
    requires StrictlyIncreasing(rest) && Elems(rest) == Elems(u[1..]) + {x}
    ensures StrictlyIncreasing([u[0]] + rest)
    ensures Elems([u[0]] + rest) == Elems(u) + {x}
  {
    TailIncreasing(u);
    PrependKeepsIncreasing(u[0], rest);
  }

  /** The distinct dates in ascending order: `sorted(list(set(dates)))`. */
  function SortedDistinct(dates: seq<int>): (u: seq<int>)
    ensures StrictlyIncreasing(u)
    ensures Elems(u) == Elems(dates)
  {
    if |dates| == 0 then []
    else
      var n := |dates| - 1;
      assert dates == dates[..n] + [dates[n]];
      assert Elems(dates) == Elems(dates[..n]) + {dates[n]};
      Insert(dates[n], SortedDistinct(dates[..n]))
  }

  /** A strictly increasing sequence has as many distinct values as entries. */
  lemma {:induction false} DistinctCount(u: seq<int>)
    requires StrictlyIncreasing(u)
    ensures |Elems(u)| == |u|
  {
    if |u| > 0 {
      var n := |u| - 1;
      assert u == u[..n] + [u[n]];
      assert Elems(u) == Elems(u[..n]) + {u[n]};
      assert u[n] !in Elems(u[..n]);
      DistinctCount(u[..n]);
    }
  }

  /** A run that ends at `last` is no longer than the maximal run ending there. */
  lemma RunEndingAtIsBounded(days: set<int>, last: int, current: int, start: int, len: int)
    requires MaximalRunEndingAt(days, last, current)
    requires Run(days, start, len) && start + len - 1 == last
    ensures len <= current
  {
  }

  /** A non-empty run holds its first and its last day. */
  lemma RunEnds(days: set<int>, start: int, len: int)
    requires Run(days, start, len) && len >= 1
    ensures start in days && start + len - 1 in days
  {
    assert start <= start < start + len;
    assert start <= start + len - 1 < start + len;
  }

  /** Streaks of a single date: both are 1. */
  lemma SingleDate(d: int)
    ensures IsLatest({d}, d)
    ensures MaximalRunEndingAt({d}, d, 1)
    ensures IsBestStreak({d}, 1)
  {
    assert Run({d}, d, 1);
    forall start, len | Run({d}, start, len)
      ensures len <= 1
    {
      if len > 1 {
        RunEnds({d}, start, len);
      }
    }
  }

  /** No dates: both streaks are 0. */
  lemma NoDates()
    ensures IsCurrentStreak({}, 0)
    ensures IsBestStreak({}, 0)
  {
    assert Run({}, 0, 0);
    forall start, len | Run({}, start, len)
      ensures len <= 0
    {
      if len > 0 {
        RunEnds({}, start, len);
      }
    }
  }

  /** Adding a date later than every date present: it extends the run ending
      at the latest date when it is the very next day, and starts a new run of
      1 after a gap. */
  lemma {:induction false} CurrentStep(days: set<int>, last: int, next: int, current: int)
    requires IsLatest(days, last) && last < next
    requires MaximalRunEndingAt(days, last, current)
    ensures IsLatest(days + {next}, next)
    ensures MaximalRunEndingAt(days + {next}, next, if next == last + 1 then current + 1 else 1)
  {
    var days' := days + {next};
    var current' := if next == last + 1 then current + 1 else 1;
    assert Run(days', next - current' + 1, current') by {
      forall d | next - current' + 1 <= d < next + 1
        ensures d in days'
      {
        if d < next {
          assert last - current + 1 <= d < last + 1;
        }
      }
    }
    assert next - current' !in days' by {
    }
  }

  /**
   One step of the walk over the sorted dates: the current run is updated as
   in `CurrentStep`, and the best run grows only when the current one does.
   */
  lemma {:induction false} StreakStep(days: set<int>, last: int, next: int, current: int, best: int)
    requires IsLatest(days, last) && last < next
    requires MaximalRunEndingAt(days, last, current)
    requires current <= best && IsBestStreak(days, best)
    ensures IsLatest(days + {next}, next)
    ensures next == last + 1 ==>
      && MaximalRunEndingAt(days + {next}, next, current + 1)
      && IsBestStreak(days + {next}, Max(best, current + 1))
    ensures next != last + 1 ==>
      && MaximalRunEndingAt(days + {next}, next, 1)
      && IsBestStreak(days + {next}, best)
  {
    var days' := days + {next};
    var current' := if next == last + 1 then current + 1 else 1;
    var best' := if next == last + 1 then Max(best, current + 1) else best;
    CurrentStep(days, last, next, current);
    forall start, len | Run(days', start, len)
      ensures len <= best'
    {
      if len >= 1 {
        RunEnds(days', start, len);
        if start + len - 1 < next {
          forall d | start <= d < start + len
            ensures d in days
          {
            assert d in days';
          }
          assert Run(days, start, len);
        } else {
          RunEndingAtIsBounded(days', next, current', start, len);
        }
      }
    }
    var s :| Run(days, s, best);
    assert Run(days', s, best);
    if next == last + 1 && best < current + 1 {
      assert Run(days', next - current' + 1, best');
    }
  }

  /**
   The walk over the sorted distinct dates: a running counter, starting at 1,
   grows by one for each date one day after its predecessor and falls back to
   1 after a gap; the best-so-far counter is raised whenever the running one
   grows.
   */
  method WalkSorted(u: seq<int>) returns (current: nat, best: nat)
    requires |u| > 0 && StrictlyIncreasing(u)
    ensures IsLatest(Elems(u), u[|u| - 1])
    ensures MaximalRunEndingAt(Elems(u), u[|u| - 1], current)
    ensures IsBestStreak(Elems(u), best)
    ensures 1 <= current <= best <= |u|
  {
    ghost var seen: set<int> := {u[0]};
    assert u[..1] == [u[0]];
    SingleDate(u[0]);
    current, best := 1, 1;
    var i := 1;
    while i < |u|
      invariant 1 <= i <= |u|
      invariant seen == Elems(u[..i])
      invariant 1 <= current <= best <= i
      invariant IsLatest(seen, u[i - 1])
      invariant MaximalRunEndingAt(seen, u[i - 1], current)
      invariant IsBestStreak(seen, best)
    {
      assert u[..i + 1] == u[..i] + [u[i]];
      StreakStep(seen, u[i - 1], u[i], current, best);
      if u[i] - u[i - 1] == 1 {
        current := current + 1;
        best := Max(best, current);
      } else {
        current := 1;
      }
      seen := seen + {u[i]};
      i := i + 1;
    }
    assert u[..i] == u;
  }

  /**
   The streak engine: (0, 0) for no dates; otherwise the walk over the
   distinct dates in ascending order. The current streak is the run ending at
   the latest date logged, not necessarily at today.
   */
  method CalculateStreaks(dates: seq<int>) returns (current: nat, best: nat)
    ensures IsCurrentStreak(Elems(dates), current)
    ensures IsBestStreak(Elems(dates), best)
    ensures |dates| == 0 ==> current == 0 && best == 0
    ensures |dates| > 0 ==> 1 <= current <= best <= |Elems(dates)|
  {
    if |dates| == 0 {
      assert Elems(dates) == {};
      NoDates();
      return 0, 0;
    }
    var u := SortedDistinct(dates);
    current, best := WalkSorted(u);
    DistinctCount(u);
    assert IsLatest(Elems(u), u[|u| - 1]) && MaximalRunEndingAt(Elems(u), u[|u| - 1], current);
  }

  /** The streaks are determined by the set of distinct dates alone: duplicates
      and input order cannot change what `CalculateStreaks` returns. */
  lemma StreaksDetermined(days: set<int>, current1: int, best1: int, current2: int, best2: int)
    requires IsCurrentStreak(days, current1) && IsBestStreak(days, best1)
    requires IsCurrentStreak(days, current2) && IsBestStreak(days, best2)
    ensures current1 == current2 && best1 == best2
  {
    var s1 :| Run(days, s1, best1);
    var s2 :| Run(days, s2, best2);
    assert best1 <= best2 && best2 <= best1;
    if days != {} {
      var m1 :| IsLatest(days, m1) && MaximalRunEndingAt(days, m1, current1);
      var m2 :| IsLatest(days, m2) && MaximalRunEndingAt(days, m2, current2);
      assert m1 <= m2 && m2 <= m1;
      RunEndingAtIsBounded(days, m1, current1, m1 - current2 + 1, current2);
      RunEndingAtIsBounded(days, m1, current2, m1 - current1 + 1, current1);
    }
  }

  /** The current streak never exceeds the best streak. */
  lemma CurrentAtMostBest(days: set<int>, current: int, best: int)
    requires IsCurrentStreak(days, current) && IsBestStreak(days, best)
    ensures 0 <= current <= best
  {
    assert Run(days, 0, 0);
    if days != {} {
      var m :| IsLatest(days, m) && MaximalRunEndingAt(days, m, current);
      assert Run(days, m - current + 1, current);
    }
  }

  /** A set of exactly the days D, ..., D+k-1 has current and best streak k. */
  lemma IntervalStreaks(days: set<int>, start: int, len: int)
    requires len >= 1
    requires forall d :: d in days <==> start <= d < start + len
    ensures IsCurrentStreak(days, len)
    ensures IsBestStreak(days, len)
  {
    var last := start + len - 1;
    assert last in days;
    assert IsLatest(days, last);
    assert MaximalRunEndingAt(days, last, len);
    assert Run(days, start, len);
    forall s, k | Run(days, s, k)
      ensures k <= len
    {
      if k >= 1 {
        RunEnds(days, s, k);
      }
    }
  }

  /** Dates D, D+1, D+5, D+6, D+7: a gap resets the running counter, and the
      latest run (3 days) and the best run (3 days) happen to coincide. */
  lemma GapResetsCurrent(d: int)
    ensures IsCurrentStreak({d, d + 1, d + 5, d + 6, d + 7}, 3)
    ensures IsBestStreak({d, d + 1, d + 5, d + 6, d + 7}, 3)
  {
    var days := {d, d + 1, d + 5, d + 6, d + 7};
    assert IsLatest(days, d + 7);
    assert Run(days, d + 5, 3);
    assert d + 4 !in days;
    assert MaximalRunEndingAt(days, d + 7, 3);
    forall s, k | Run(days, s, k)
      ensures k <= 3
    {
      if k > 3 {
        RunEnds(days, s, k);
      }
    }
  }

  /** Logging a study day never lowers the best streak. */
  lemma BestNeverDrops(days: set<int>, d: int, best: int, best': int)
    requires IsBestStreak(days, best) && IsBestStreak(days + {d}, best')
    ensures best <= best'
  {
    var s :| Run(days, s, best);
    assert Run(days + {d}, s, best);
  }

  /** Logging a day later than every date present changes the current streak
      only through that day: the day after the latest date extends it by one,
      any later day starts it again at 1. */
  lemma LaterDayUpdatesCurrent(days: set<int>, latest: int, next: int, current: int)
    requires IsLatest(days, latest) && latest < next
    requires IsCurrentStreak(days, current)
    ensures IsCurrentStreak(days + {next}, if next == latest + 1 then current + 1 else 1)
  {
    var m :| IsLatest(days, m) && MaximalRunEndingAt(days, m, current);
    assert m <= latest && latest <= m;
    CurrentStep(days, latest, next, current);
  }
}
