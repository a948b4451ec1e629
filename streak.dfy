/** The current streak of a challenge: the number of consecutive day numbers,
    counting down from the largest day that holds an entry, that all hold one.
    It ends at the latest logged day, not at today. */
module Streak {
  import opened Challenges

  /** The largest element of a non-empty set of day numbers. */
  ghost function MaxDay(days: set<int>): (m: int)
    requires days != {}
    ensures m in days
    ensures forall d :: d in days ==> d <= m
    decreases days
  {
    HasMember(days);
    var x :| x in days;
    var rest := days - {x};
    if rest == {} then
      assert forall d :: d in days ==> d == x by {
        forall d | d in days ensures d == x { assert d !in rest; }
      }
      x
    else
      var r := MaxDay(rest);
      var m := if x < r then r else x;
      assert forall d :: d in days ==> d <= m by {
        forall d | d in days ensures d <= m { if d != x { assert d in rest; } }
      }
      m
  }

  /** Length of the run `top`, `top - 1`, `top - 2`, ... of days all present in `days`. */
  ghost function RunEndingAt(days: set<int>, top: int): (n: nat)
    decreases days
  {
    if top in days then 1 + RunEndingAt(days - {top}, top - 1) else 0
  }

  /** The streak of a set of logged day numbers: the run ending at the largest one. */
  ghost function StreakOf(days: set<int>): (n: nat)
  {
    if days == {} then 0 else RunEndingAt(days, MaxDay(days))
  }

  /** A run is never longer than the set it is drawn from. */
  lemma {:induction false} RunBounded(days: set<int>, top: int)
    ensures RunEndingAt(days, top) <= |days|
    decreases days
  {
    if top in days {
      RunBounded(days - {top}, top - 1);
    }
  }

  /** The run ending at `top` has length `n` exactly when `top - n + 1 .. top` are
      all present and `top - n` is not. */
  lemma {:induction false} RunIsMaximalBlock(days: set<int>, top: int, n: nat)
    requires forall d :: top - n < d <= top ==> d in days
    requires top - n !in days
    ensures RunEndingAt(days, top) == n
    decreases n
  {
    if n > 0 {
      assert top in days;
      var rest := days - {top};
      forall d | (top - 1) - (n - 1) < d <= top - 1
        ensures d in rest
      {
        assert d in days;
      }
      RunIsMaximalBlock(rest, top - 1, n - 1);
    } else {
      assert top !in days;
    }
  }

  /** Every day of the run is present, and the day below it is not. */
  lemma {:induction false} RunIsInDays(days: set<int>, top: int)
    ensures forall d :: top - RunEndingAt(days, top) < d <= top ==> d in days
    ensures top - RunEndingAt(days, top) !in days
    decreases days
  {
    if top in days {
      var rest := days - {top};
      RunIsInDays(rest, top - 1);
      assert RunEndingAt(days, top) == 1 + RunEndingAt(rest, top - 1);
    }
  }

  /** The streak is 0 exactly when there are no entries, at least 1 otherwise, and
      never more than the number of entries. */
  lemma StreakBounds(days: set<int>)
    ensures StreakOf(days) == 0 <==> days == {}
    ensures StreakOf(days) <= |days|
  {
    if days != {} {
      RunBounded(days, MaxDay(days));
    }
  }

  /** Days {1, 2, 3, 5} give a streak of 1; days {1, 2, 3} give 3; no days give 0. */
  lemma StreakExamples()
    ensures StreakOf({1, 2, 3, 5}) == 1
    ensures StreakOf({1, 2, 3}) == 3
    ensures StreakOf({}) == 0
  {
    var gap := {1, 2, 3, 5};
    assert MaxDay(gap) == 5;
    RunIsMaximalBlock(gap, 5, 1);
    var run := {1, 2, 3};
    assert MaxDay(run) == 3;
    RunIsMaximalBlock(run, 3, 3);
  }

  predicate StrictlyDescending(q: seq<int>)
  {
    forall i, j :: 0 <= i < j < |q| ==> q[i] > q[j]
  }

  /** The logged day numbers, largest first. */
  method SortDescending(days: set<int>) returns (q: seq<int>)
    ensures StrictlyDescending(q)
    ensures forall d :: d in q <==> d in days
    ensures |q| == |days|
  {
    q := [];
    var rest := days;
    while rest != {}
      invariant rest <= days
      invariant StrictlyDescending(q)
      invariant forall d :: d in q <==> d in days && d !in rest
      invariant forall i, d :: 0 <= i < |q| && d in rest ==> d < q[i]
      invariant |q| + |rest| == |days|
      decreases |rest|
    {
      ghost var top := MaxDay(rest);
      var m :| m in rest && forall d :: d in rest ==> d <= m;
      q := q + [m];
      rest := rest - {m};
    }
  }

  /** The current streak of a challenge, counted as the application does: sort the
      logged days largest first, then count while each is one below the previous. */
  method CurrentStreak(c: Challenge) returns (streak: nat)
    ensures streak == StreakOf(c.entries.Keys)
  {
    var days := SortDescending(c.entries.Keys);
    streak := 0;
    var i := 0;
    while i < |days|
      invariant 0 <= i <= |days|
      invariant streak == i
      invariant forall k :: 0 <= k < i ==> days[k] == days[0] - k
    {
      if i == 0 || days[i - 1] - days[i] == 1 {
        streak := streak + 1;
      } else {
        break;
      }
      i := i + 1;
    }
    if |days| > 0 {
      StreakOfDescending(c.entries.Keys, days, streak);
    }
  }

  /** If `q` lists `days` largest first, and its first `n` elements are consecutive
      and element `n` (if any) breaks the run, then the streak is `n`. */
  lemma StreakOfDescending(days: set<int>, q: seq<int>, n: nat)
    requires StrictlyDescending(q)
    requires forall d :: d in q <==> d in days
    requires 0 < n <= |q|
    requires forall k :: 0 <= k < n ==> q[k] == q[0] - k
    requires n == |q| || q[n - 1] - q[n] != 1
    ensures StreakOf(days) == n
  {
    assert q[0] in days;
    assert MaxDay(days) == q[0] by {
      var m := MaxDay(days);
      assert m in q;
      var j :| 0 <= j < |q| && q[j] == m;
      assert q[0] >= m;
    }
    forall d | q[0] - n < d <= q[0]
      ensures d in days
    {
      assert q[q[0] - d] in q;
    }
    forall d | d in days
      ensures d != q[0] - n
    {
      assert d in q;
      var j :| 0 <= j < |q| && q[j] == d;
      if j >= n {
        assert q[j] <= q[n] < q[n - 1];
      }
    }
    RunIsMaximalBlock(days, q[0], n);
  }
}
