/** The challenge store: the list of challenges and the active challenge that the
    tracker component keeps as state, and the operations that replace them.
    The active challenge is a copy of a challenge, not a reference into the list:
    entry edits refresh the copy, marking complete does not. */
module Store {
  import opened Challenges
  import opened Collection
  import Streak

  class ChallengeStore {
    var challenges: seq<Challenge>
    var active: Option<Challenge>

    /** Whenever a challenge is active, some listed challenge has its id. */
    ghost predicate Valid()
      reads this
    {
      ActiveIsListed(challenges, active)
    }

    /** The store starts with no challenges and none active. */
    constructor ()
      ensures Valid()
      ensures challenges == [] && active == None
    {
      challenges := [];
      active := None;
    }

    /** Appends a new challenge and makes it active.  The creation form only submits a
        non-empty title and one of its offered (positive) durations; a missing start
        date falls back to today. */
    method CreateChallenge(id: int, title: string, totalDays: int, description: string,
                           startDate: Option<int>, today: int, createdAt: string)
      requires Valid()
      requires title != "" && totalDays > 0
      modifies this
      ensures Valid()
      ensures var c := NewChallenge(id, title, totalDays, description,
                                    if startDate.Some? then startDate.value else today, createdAt);
        challenges == old(challenges) + [c] && active == Some(c)
      ensures CompletedDays(active.value) == 0 && !active.value.completed
    {
      var start := if startDate.Some? then startDate.value else today;
      var c := NewChallenge(id, title, totalDays, description, start, createdAt);
      challenges := challenges + [c];
      active := Some(c);
      assert challenges[|challenges| - 1].id == id;
    }

    /** Logs `content` for `day` on every challenge with id `id`, overwriting a note already
        there, and refreshes the active copy when it is that challenge.  The entry form only
        submits trimmed, non-empty text. */
    method AddEntry(id: int, day: int, content: string)
      requires Valid()
      requires content != ""
      modifies this
      ensures Valid()
      ensures challenges == WithEntry(old(challenges), id, day, content)
      ensures active == Refreshed(old(active), challenges, id)
      ensures old(active).Some? && old(active).value.id == id ==>
                active.Some? && active.value.id == id && active.value.entries[day] == content
    {
      RefreshedIsListed(challenges, id, c => PutEntry(c, day, content), active);
      challenges := WithEntry(challenges, id, day, content);
      active := Refreshed(active, challenges, id);
    }

    /** Deletes the note for `day` from every challenge with id `id` (no error if there is
        none) and refreshes the active copy when it is that challenge. */
    method DeleteEntry(id: int, day: int)
      requires Valid()
      modifies this
      ensures Valid()
      ensures challenges == WithoutEntry(old(challenges), id, day)
      ensures active == Refreshed(old(active), challenges, id)
      ensures old(active).Some? && old(active).value.id == id ==>
                active.Some? && active.value.id == id && day !in active.value.entries
    {
      RefreshedIsListed(challenges, id, c => DropEntry(c, day), active);
      challenges := WithoutEntry(challenges, id, day);
      active := Refreshed(active, challenges, id);
    }

    /** Removes every challenge with id `id`, keeping the others in order.  If the active
        challenge had that id, the last remaining challenge becomes active, or none. */
    method DeleteChallenge(id: int)
      requires Valid()
      modifies this
      ensures Valid()
      ensures challenges == WithoutId(old(challenges), id)
      ensures active == if old(active).Some? && old(active).value.id == id
                        then Last(challenges) else old(active)
      ensures active.Some? ==> active.value.id != id
    {
      var remaining := WithoutId(challenges, id);
      if active.Some? && active.value.id == id {
        active := Last(remaining);
        if active.Some? {
          assert remaining[|remaining| - 1] in remaining;
        }
      } else if active.Some? {
        ghost var k :| 0 <= k < |challenges| && challenges[k].id == active.value.id;
        assert challenges[k] in remaining;
        ghost var j :| 0 <= j < |remaining| && remaining[j] == challenges[k];
      }
      challenges := remaining;
    }

    /** Marks every challenge with id `id` completed, stamped with `now`.  The active copy is
        left as it was. */
    method MarkChallengeComplete(id: int, now: string)
      requires Valid()
      modifies this
      ensures Valid()
      ensures challenges == WithCompleted(old(challenges), id, now)
      ensures active == old(active)
    {
      challenges := WithCompleted(challenges, id, now);
      if active.Some? {
        ghost var k :| 0 <= k < |old(challenges)| && old(challenges)[k].id == active.value.id;
        assert challenges[k].id == active.value.id;
      }
    }

    /** Makes the `i`-th listed challenge active (a click in the challenge list). */
    method SelectChallenge(i: int)
      requires Valid()
      requires 0 <= i < |challenges|
      modifies this
      ensures Valid()
      ensures challenges == old(challenges) && active == Some(challenges[i])
    {
      active := Some(challenges[i]);
    }

    /** Forgets every challenge. */
    method ClearAll()
      modifies this
      ensures Valid()
      ensures challenges == [] && active == None
    {
      challenges := [];
      active := None;
    }

    /** Replaces the whole list with a loaded or imported one and re-selects the active
        challenge; a snapshot without a list changes nothing. */
    method Restore(snapshot: Option<seq<Challenge>>)
      requires Valid()
      modifies this
      ensures Valid()
      ensures snapshot.None? ==> challenges == old(challenges) && active == old(active)
      ensures snapshot.Some? ==> challenges == snapshot.value && active == InitialActive(snapshot.value)
    {
      if snapshot.Some? {
        challenges := snapshot.value;
        active := InitialActive(challenges);
        if active.Some? {
          ghost var k :| 0 <= k < |challenges| && challenges[k] == active.value;
        }
      }
    }
  }

  /** After marking the active challenge complete, the listed challenge is completed but the
      active copy is not, so the copy still offers "Mark Complete" when it reads 100%. */
  lemma MarkCompleteLeavesActiveCopyStale(cs: seq<Challenge>, a: Challenge, now: string)
    requires IdListed(cs, a.id) && !a.completed
    ensures var listed := FindById(WithCompleted(cs, a.id, now), a.id);
      listed.Some? && listed.value.completed && listed.value.completedDate == Some(now) &&
      listed != Some(a) &&
      (a.totalDays > 0 && ProgressPercentage(a) == 100 ==> CanMarkComplete(a))
  {
    var r := WithCompleted(cs, a.id, now);
    var k :| 0 <= k < |cs| && cs[k].id == a.id;
    assert HasId(r[k], a.id);
    var listed := FindById(r, a.id);
    var i :| 0 <= i < |r| && r[i] == listed.value && HasId(r[i], a.id) &&
             forall j :: 0 <= j < i ==> !HasId(r[j], a.id);
    assert r[i] == MarkedComplete(cs[i], now);
  }

  /** Marking the same challenge complete twice overwrites the completion stamp. */
  lemma MarkCompleteTwiceRestamps(cs: seq<Challenge>, id: int, first: string, second: string, i: int)
    requires 0 <= i < |cs| && cs[i].id == id
    ensures WithCompleted(WithCompleted(cs, id, first), id, second)[i].completedDate == Some(second)
  {
  }

  /** The worked example: a seven-day challenge with days 1 to 3 logged, seen nine days after
      it started, is at 3 days, 43%, a streak of 3, with days 4 to 7 all missed. */
  lemma DailyPracticeExample(c: Challenge)
    requires c.totalDays == 7 && c.entries.Keys == {1, 2, 3}
    requires forall d :: d in c.entries ==> c.entries[d] != ""
    ensures CompletedDays(c) == 3 && ProgressPercentage(c) == 43
    ensures Streak.StreakOf(c.entries.Keys) == 3
    ensures StatusOfDay(c, 3, c.startDate + 9) == Completed
    ensures StatusOfDay(c, 4, c.startDate + 9) == Missed
    ensures StatusOfDay(c, 5, c.startDate + 9) == Missed
    ensures StatusOfDay(c, 6, c.startDate + 9) == Missed
    ensures StatusOfDay(c, 7, c.startDate + 9) == Missed
  {
    assert |c.entries.Keys| == 3;
    PercentageExamples(c);
    Streak.StreakExamples();
  }

  /** A client of the store: the contracts alone determine what it observes. */
  method DailyPracticeSession(start: int)
  {
    var store := new ChallengeStore();
    store.CreateChallenge(1, "Daily Practice", 7, "", Some(start), start + 9, "t0");
    store.AddEntry(1, 1, "one");
    store.AddEntry(1, 2, "two");
    assert store.active.Some? && store.active.value.entries[2] == "two";
    store.DeleteChallenge(1);
    assert store.challenges == [] && store.active == None;
  }
}
