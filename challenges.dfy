/** The challenge record and the aggregates computed from one record:
    completed-day count, rounded progress percentage, the per-day status shown in
    the progress grid, and the guard of the "Mark Complete" button. */
module Challenges {
  import opened Calendar

  datatype Option<T> = None | Some(value: T)

  /** One challenge.  `entries` maps a day number to the note logged for it;
      `id`, `createdAt` and `completedDate` come from the clock in the
      application and are supplied by the caller here. */
  datatype Challenge = Challenge(
    id: int,
    title: string,
    description: string,
    totalDays: int,
    startDate: int,
    entries: map<int, string>,
    completed: bool,
    completedDate: Option<string>,
    createdAt: string)

  /** A freshly created challenge: no entries and not completed. */
  function NewChallenge(id: int, title: string, totalDays: int, description: string,
                        startDate: int, createdAt: string): (c: Challenge)
    ensures c.id == id && c.title == title && c.totalDays == totalDays && c.startDate == startDate
    ensures c.description == description && c.createdAt == createdAt
    ensures c.entries == map[] && !c.completed && c.completedDate == None
  {
    Challenge(id, title, description, totalDays, startDate, map[], false, None, createdAt)
  }

  /** Number of days that hold an entry. */
  function CompletedDays(c: Challenge): (n: nat)
    ensures n == 0 <==> c.entries == map[]
  {
    |c.entries|
  }

  /** `pct` is the integer nearest to 100 * completed / total, a half rounding up:
      the value `Math.round` yields for non-negative operands. */
  ghost predicate IsRoundedPercent(completed: nat, total: int, pct: int)
  {
    -total <= 200 * completed - 2 * (pct * total) < total
  }

  /** Only one integer is the rounded percentage of a given ratio. */
  lemma RoundedPercentIsUnique(completed: nat, total: int, p: int, q: int)
    requires total > 0
    requires IsRoundedPercent(completed, total, p) && IsRoundedPercent(completed, total, q)
    ensures p == q
  {
    assert (q + 1) * total == q * total + total;
    assert (p + 1) * total == p * total + total;
    MulCancel(p, q + 1, total);
    MulCancel(q, p + 1, total);
  }

  lemma MulCancel(a: int, b: int, t: int)
    requires t > 0 && a * t < b * t
    ensures a < b
  {
  }

  /** The displayed completion percentage, rounded and not clamped to 100. */
  function ProgressPercentage(c: Challenge): (pct: nat)
    requires c.totalDays > 0
    ensures IsRoundedPercent(CompletedDays(c), c.totalDays, pct)
  {
    var n, t := CompletedDays(c), c.totalDays;
    var q := (200 * n + t) / (2 * t);
    assert 2 * (q * t) <= 200 * n + t < 2 * (q * t) + 2 * t by {
      DivBounds(200 * n + t, 2 * t);
      assert (2 * t) * q == 2 * (q * t);
    }
    q
  }

  lemma DivBounds(a: nat, b: int)
    requires b > 0
    ensures b * (a / b) <= a < b * (a / b) + b
  {
  }

  /** With no entries the percentage is 0; with one entry per day it is 100. */
  lemma PercentageEndpoints(c: Challenge)
    requires c.totalDays > 0
    ensures CompletedDays(c) == 0 ==> ProgressPercentage(c) == 0
    ensures CompletedDays(c) == c.totalDays ==> ProgressPercentage(c) == 100
  {
    var n, t, p := CompletedDays(c), c.totalDays, ProgressPercentage(c);
    if n == 0 {
      RoundedPercentIsUnique(n, t, p, 0);
    }
    if n == t {
      RoundedPercentIsUnique(n, t, p, 100);
    }
  }

  /** More entries never lower the percentage. */
  lemma PercentageMonotone(c: Challenge, d: Challenge)
    requires c.totalDays > 0 && d.totalDays == c.totalDays
    requires CompletedDays(c) <= CompletedDays(d)
    ensures ProgressPercentage(c) <= ProgressPercentage(d)
  {
    var t, p, q := c.totalDays, ProgressPercentage(c), ProgressPercentage(d);
    var m, n := CompletedDays(c), CompletedDays(d);
    assert 2 * (p * t) <= 200 * m + t;
    assert 200 * n < 2 * (q * t) + t;
    assert (q + 1) * t == q * t + t;
    assert p * t < (q + 1) * t;
    MulCancel(p, q + 1, t);
  }

  /** The percentage is not clamped: for the durations the creation form offers
      (at most 100 days) more entries than days reads above 100. */
  lemma PercentageNotClamped(c: Challenge)
    requires 0 < c.totalDays <= 200
    requires CompletedDays(c) > c.totalDays
    ensures ProgressPercentage(c) > 100
  {
    var n, t, p := CompletedDays(c), c.totalDays, ProgressPercentage(c);
    assert 200 * n >= 200 * t + 200;
    assert 100 * t < p * t;
    MulCancel(100, p, t);
  }

  /** For challenges shorter than 200 days, reading 100% means the number of entries equals
      the duration. */
  lemma HundredPercentMeansAllDays(c: Challenge)
    requires 0 < c.totalDays < 200
    ensures ProgressPercentage(c) == 100 <==> CompletedDays(c) == c.totalDays
  {
    PercentageEndpoints(c);
    var n, t := CompletedDays(c), c.totalDays;
    if ProgressPercentage(c) == 100 {
      assert 199 * t <= 200 * n < 201 * t;
    }
  }

  /** The days 1 to `n`. */
  ghost function DaysUpTo(n: int): (days: set<int>)
    ensures forall d :: d in days <==> 1 <= d <= n
    ensures |days| == if n < 0 then 0 else n
    decreases if n < 0 then 0 else n
  {
    if n <= 0 then {} else DaysUpTo(n - 1) + {n}
  }

  /** A non-empty set of day numbers has a member. */
  lemma HasMember(days: set<int>)
    requires days != {}
    ensures exists d :: d in days
  {
    if forall d: int :: d !in days {
      assert false;
    }
  }

  lemma {:induction false} SubsetSize(a: set<int>, b: set<int>)
    requires a <= b
    ensures |a| <= |b|
    decreases |b|
  {
    if a != {} {
      HasMember(a);
      var x :| x in a;
      SubsetSize(a - {x}, b - {x});
    }
  }

  /** When every entry lies within the challenge and holds a note, the entry count equals
      the duration exactly when every day of the challenge has an entry. */
  lemma {:induction false} AllDaysLoggedIffCountMatches(c: Challenge)
    requires c.totalDays >= 0
    requires forall d :: d in c.entries ==> 1 <= d <= c.totalDays && c.entries[d] != ""
    ensures CompletedDays(c) == c.totalDays <==> forall d :: 1 <= d <= c.totalDays ==> HasEntry(c, d)
  {
    var keys, all := c.entries.Keys, DaysUpTo(c.totalDays);
    assert keys <= all;
    assert CompletedDays(c) == |keys|;
    if CompletedDays(c) == c.totalDays {
      forall d | 1 <= d <= c.totalDays
        ensures HasEntry(c, d)
      {
        if d !in keys {
          SubsetSize(keys, all - {d});
          assert false;
        }
      }
    }
    if forall d :: 1 <= d <= c.totalDays ==> HasEntry(c, d) {
      forall d | d in all
        ensures d in keys
      {
        assert HasEntry(c, d);
      }
      assert keys == all;
    }
  }

  /** For challenges shorter than 200 days whose entries lie within the challenge and hold
      notes, reading 100% means every day of the challenge has an entry. */
  lemma HundredPercentMeansEveryDayLogged(c: Challenge)
    requires 0 < c.totalDays < 200
    requires forall d :: d in c.entries ==> 1 <= d <= c.totalDays && c.entries[d] != ""
    ensures ProgressPercentage(c) == 100 <==> forall d :: 1 <= d <= c.totalDays ==> HasEntry(c, d)
  {
    HundredPercentMeansAllDays(c);
    AllDaysLoggedIffCountMatches(c);
  }

  /** From 200 days on, rounding reaches 100% one entry early: 199 of 200 days reads 100%. */
  lemma HundredPercentBeforeAllDays(c: Challenge)
    requires c.totalDays == 200 && CompletedDays(c) == 199
    ensures ProgressPercentage(c) == 100 && CompletedDays(c) < c.totalDays
  {
    RoundedPercentIsUnique(199, 200, ProgressPercentage(c), 100);
  }

  /** 15 of 30 days is 50%; 3 of 7 days is 43%. */
  lemma PercentageExamples(c: Challenge)
    ensures c.totalDays == 30 && CompletedDays(c) == 15 ==> ProgressPercentage(c) == 50
    ensures c.totalDays == 7 && CompletedDays(c) == 3 ==> ProgressPercentage(c) == 43
  {
    if c.totalDays == 30 && CompletedDays(c) == 15 {
      RoundedPercentIsUnique(15, 30, ProgressPercentage(c), 50);
    }
    if c.totalDays == 7 && CompletedDays(c) == 3 {
      RoundedPercentIsUnique(3, 7, ProgressPercentage(c), 43);
    }
  }

  /** The status of one cell of the progress grid. */
  datatype DayStatus = Completed | Today | Missed | Upcoming

  /** Whether the grid treats `day` as logged: the note must exist and be non-empty
      (an empty note is falsy where the grid tests it). */
  predicate HasEntry(c: Challenge, day: int)
    ensures HasEntry(c, day) ==> CompletedDays(c) > 0
  {
    day in c.entries && c.entries[day] != ""
  }

  /** The status of day `day`: an entry wins over the date; otherwise the date of
      that day is today, in the past (missed) or in the future (upcoming). */
  function StatusOfDay(c: Challenge, day: int, today: int): (s: DayStatus)
    ensures s == Completed <==> HasEntry(c, day)
    ensures s == Today <==> !HasEntry(c, day) && IsDateToday(DateForDay(c.startDate, day), today)
    ensures s == Missed <==> !HasEntry(c, day) && IsDateInPast(DateForDay(c.startDate, day), today)
    ensures s == Upcoming <==> !HasEntry(c, day) && IsDateInFuture(DateForDay(c.startDate, day), today)
  {
    var date := DateForDay(c.startDate, day);
    if HasEntry(c, day) then Completed
    else if IsDateToday(date, today) then Today
    else if IsDateInPast(date, today) then Missed
    else Upcoming
  }

  /** At most one day of a challenge shows as Today, and it is the day number of today. */
  lemma TodayIsOneDay(c: Challenge, day: int, other: int, today: int)
    requires StatusOfDay(c, day, today) == Today
    ensures day == DayNumberFromDate(c.startDate, today)
    ensures StatusOfDay(c, other, today) == Today ==> other == day
  {
  }

  /** Among days without an entry, missed days come before today and upcoming days after it. */
  lemma StatusFollowsDayOrder(c: Challenge, day: int, later: int, today: int)
    requires day < later
    requires !HasEntry(c, day) && !HasEntry(c, later)
    ensures StatusOfDay(c, later, today) == Missed ==> StatusOfDay(c, day, today) == Missed
    ensures StatusOfDay(c, day, today) == Upcoming ==> StatusOfDay(c, later, today) == Upcoming
    ensures StatusOfDay(c, day, today) == Today ==> StatusOfDay(c, later, today) == Upcoming
  {
  }

  /** The "Mark Complete" button is offered for a challenge not yet completed that reads 100%. */
  predicate CanMarkComplete(c: Challenge)
    ensures CanMarkComplete(c) ==> !c.completed && c.totalDays > 0 &&
                                   IsRoundedPercent(CompletedDays(c), c.totalDays, 100)
  {
    !c.completed && c.totalDays > 0 && ProgressPercentage(c) == 100
  }

  /** A new challenge reads 0%, has no completed day and cannot be marked complete yet. */
  lemma NewChallengeIsEmpty(id: int, title: string, totalDays: int, description: string,
                            startDate: int, createdAt: string, day: int, today: int)
    requires totalDays > 0
    ensures var c := NewChallenge(id, title, totalDays, description, startDate, createdAt);
      CompletedDays(c) == 0 && ProgressPercentage(c) == 0 && !c.completed &&
      StatusOfDay(c, day, today) != Completed && !CanMarkComplete(c)
  {
    var c := NewChallenge(id, title, totalDays, description, startDate, createdAt);
    PercentageEndpoints(c);
  }
}
