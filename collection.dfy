/** The pure list operations behind the challenge store: per-challenge updates
    (put an entry, drop an entry, mark completed), updating the challenges with a
    given id, finding, filtering, and choosing the active challenge at load time. */
module Collection {
  import opened Challenges

  /** The challenge with `content` logged for `day`; an existing note for that day is overwritten. */
  function PutEntry(c: Challenge, day: int, content: string): (r: Challenge)
  {
    c.(entries := c.entries[day := content])
  }

  /** The challenge without a note for `day`. */
  function DropEntry(c: Challenge, day: int): (r: Challenge)
  {
    c.(entries := c.entries - {day})
  }

  /** The challenge marked completed at time `now`. */
  function MarkedComplete(c: Challenge, now: string): (r: Challenge)
    ensures r.completed && r.completedDate == Some(now)
    ensures r.(completed := c.completed, completedDate := c.completedDate) == c
  {
    c.(completed := true, completedDate := Some(now))
  }

  /** Two challenges agree on every field except the entries. */
  predicate SameButEntries(c: Challenge, d: Challenge)
  {
    c.(entries := map[]) == d.(entries := map[])
  }

  /** Putting an entry sets exactly that day, keeps every other note and field, and adds one
      completed day unless the day already had a note. */
  lemma PutEntrySetsOneDay(c: Challenge, day: int, content: string)
    ensures var r := PutEntry(c, day, content);
      SameButEntries(r, c) &&
      r.entries.Keys == c.entries.Keys + {day} && r.entries[day] == content &&
      (forall k :: k in c.entries && k != day ==> r.entries[k] == c.entries[k]) &&
      CompletedDays(r) == if day in c.entries then CompletedDays(c) else CompletedDays(c) + 1
  {
    var r := PutEntry(c, day, content);
    if day !in c.entries {
      assert r.entries.Keys == c.entries.Keys + {day};
      assert |r.entries.Keys| == |c.entries.Keys| + 1;
    } else {
      assert r.entries.Keys == c.entries.Keys;
    }
  }

  /** Putting the same note twice is the same as putting it once. */
  lemma PutEntryIdempotent(c: Challenge, day: int, content: string)
    ensures PutEntry(PutEntry(c, day, content), day, content) == PutEntry(c, day, content)
  {
  }

  /** Dropping an entry removes exactly that day, keeps every other note and field, and removes
      one completed day if the day had a note; dropping a day without a note changes nothing. */
  lemma DropEntryRemovesOneDay(c: Challenge, day: int)
    ensures var r := DropEntry(c, day);
      SameButEntries(r, c) &&
      r.entries.Keys == c.entries.Keys - {day} &&
      (forall k :: k in r.entries ==> r.entries[k] == c.entries[k]) &&
      CompletedDays(r) == (if day in c.entries then CompletedDays(c) - 1 else CompletedDays(c)) &&
      (day !in c.entries ==> r == c)
  {
    var r := DropEntry(c, day);
    if day in c.entries {
      assert c.entries.Keys == r.entries.Keys + {day};
      assert |c.entries.Keys| == |r.entries.Keys| + 1;
    } else {
      assert r.entries == c.entries;
    }
  }

  /** Dropping undoes putting on a day that had no note, and dropping after putting is the same as
      dropping alone. */
  lemma DropEntryUndoesPutEntry(c: Challenge, day: int, content: string)
    ensures DropEntry(PutEntry(c, day, content), day) == DropEntry(c, day)
    ensures day !in c.entries ==> DropEntry(PutEntry(c, day, content), day) == c
  {
    assert PutEntry(c, day, content).entries - {day} == c.entries - {day};
    if day !in c.entries {
      assert c.entries - {day} == c.entries;
    }
  }

  /** Logging a note makes that day show as completed whatever its date. */
  lemma PutEntryCompletesDay(c: Challenge, day: int, content: string, today: int)
    requires content != ""
    ensures StatusOfDay(PutEntry(c, day, content), day, today) == Completed
  {
  }

  /** Deleting a note makes that day show by its date again. */
  lemma DropEntryUncompletesDay(c: Challenge, day: int, today: int)
    ensures StatusOfDay(DropEntry(c, day), day, today) != Completed
  {
  }

  /** The list with `f` applied to every challenge whose id is `id`, in the same order. */
  function UpdateWhere(cs: seq<Challenge>, id: int, f: Challenge -> Challenge): (r: seq<Challenge>)
  {
    seq(|cs|, i requires 0 <= i < |cs| => if cs[i].id == id then f(cs[i]) else cs[i])
  }

  /** The list after logging `content` for `day` on the challenges with id `id`. */
  function WithEntry(cs: seq<Challenge>, id: int, day: int, content: string): (r: seq<Challenge>)
    ensures |r| == |cs|
    ensures forall i :: 0 <= i < |cs| ==>
              SameButEntries(r[i], cs[i]) &&
              (cs[i].id == id ==> day in r[i].entries && r[i].entries[day] == content) &&
              (cs[i].id != id ==> r[i] == cs[i])
  {
    UpdateWhere(cs, id, c => PutEntry(c, day, content))
  }

  /** The list after deleting the note for `day` from the challenges with id `id`. */
  function WithoutEntry(cs: seq<Challenge>, id: int, day: int): (r: seq<Challenge>)
    ensures |r| == |cs|
    ensures forall i :: 0 <= i < |cs| ==>
              SameButEntries(r[i], cs[i]) &&
              (cs[i].id == id ==> day !in r[i].entries) &&
              (cs[i].id != id ==> r[i] == cs[i])
  {
    UpdateWhere(cs, id, c => DropEntry(c, day))
  }

  /** The list after marking the challenges with id `id` completed at time `now`. */
  function WithCompleted(cs: seq<Challenge>, id: int, now: string): (r: seq<Challenge>)
    ensures |r| == |cs|
    ensures forall i :: 0 <= i < |cs| ==>
              r[i].(completed := cs[i].completed, completedDate := cs[i].completedDate) == cs[i] &&
              (cs[i].id == id ==> r[i].completed && r[i].completedDate == Some(now)) &&
              (cs[i].id != id ==> r[i] == cs[i])
  {
    UpdateWhere(cs, id, c => MarkedComplete(c, now))
  }

  /** Adding a note changes only the challenges with that id, and only by putting the note; the
      length, the order and the ids of the list are unchanged. */
  lemma WithEntryChangesOnlyTarget(cs: seq<Challenge>, id: int, day: int, content: string, i: int)
    requires 0 <= i < |cs|
    ensures var r := WithEntry(cs, id, day, content);
      |r| == |cs| && r[i].id == cs[i].id &&
      (cs[i].id != id ==> r[i] == cs[i]) &&
      (cs[i].id == id ==> r[i] == PutEntry(cs[i], day, content) && r[i].entries[day] == content &&
                          CompletedDays(r[i]) >= CompletedDays(cs[i]))
  {
    PutEntrySetsOneDay(cs[i], day, content);
  }

  /** Deleting a note changes only the challenges with that id, and only by dropping the note. */
  lemma WithoutEntryChangesOnlyTarget(cs: seq<Challenge>, id: int, day: int, i: int)
    requires 0 <= i < |cs|
    ensures var r := WithoutEntry(cs, id, day);
      |r| == |cs| && r[i].id == cs[i].id &&
      (cs[i].id != id ==> r[i] == cs[i]) &&
      (cs[i].id == id ==> r[i] == DropEntry(cs[i], day) && day !in r[i].entries)
  {
  }

  /** Deleting a day that has no note on any challenge with that id leaves the list identical. */
  lemma WithoutAbsentEntryIsIdentity(cs: seq<Challenge>, id: int, day: int)
    requires forall i :: 0 <= i < |cs| && cs[i].id == id ==> day !in cs[i].entries
    ensures WithoutEntry(cs, id, day) == cs
  {
    var r := WithoutEntry(cs, id, day);
    forall i | 0 <= i < |cs|
      ensures r[i] == cs[i]
    {
      DropEntryRemovesOneDay(cs[i], day);
    }
  }

  /** Marking complete sets the flag and stamp on the challenges with that id only, keeping their
      notes and every other field; no completed flag is ever cleared. */
  lemma WithCompletedChangesOnlyTarget(cs: seq<Challenge>, id: int, now: string, i: int)
    requires 0 <= i < |cs|
    ensures var r := WithCompleted(cs, id, now);
      |r| == |cs| && r[i].id == cs[i].id && r[i].entries == cs[i].entries &&
      (cs[i].completed ==> r[i].completed) &&
      (cs[i].id != id ==> r[i] == cs[i]) &&
      (cs[i].id == id ==> r[i] == MarkedComplete(cs[i], now) &&
                          r[i].completed && r[i].completedDate == Some(now))
  {
  }

  /** The first challenge satisfying `p`, if any. */
  function Find(cs: seq<Challenge>, p: Challenge -> bool): (r: Option<Challenge>)
    ensures r.Some? <==> exists i :: 0 <= i < |cs| && p(cs[i])
    ensures r.Some? ==> exists i :: 0 <= i < |cs| && cs[i] == r.value && p(cs[i]) &&
                                    forall j :: 0 <= j < i ==> !p(cs[j])
  {
    if cs == [] then None
    else if p(cs[0]) then Some(cs[0])
    else
      var r := Find(cs[1..], p);
      assert r.Some? ==> exists i :: 0 <= i < |cs| && cs[i] == r.value && p(cs[i]) &&
                                     forall j :: 0 <= j < i ==> !p(cs[j]) by {
        if r.Some? {
          var i :| 0 <= i < |cs[1..]| && cs[1..][i] == r.value && p(cs[1..][i]) &&
                   forall j :: 0 <= j < i ==> !p(cs[1..][j]);
          assert cs[i + 1] == r.value;
          forall j | 0 <= j < i + 1
            ensures !p(cs[j])
          {
            if j > 0 { assert cs[j] == cs[1..][j - 1]; }
          }
        }
      }
      assert (exists i :: 0 <= i < |cs| && p(cs[i])) ==> r.Some? by {
        if exists i :: 0 <= i < |cs| && p(cs[i]) {
          var i :| 0 <= i < |cs| && p(cs[i]);
          assert i > 0 && cs[1..][i - 1] == cs[i];
        }
      }
      r
  }

  predicate HasId(c: Challenge, id: int)
  {
    c.id == id
  }

  /** The first challenge with id `id`, if any. */
  function FindById(cs: seq<Challenge>, id: int): (r: Option<Challenge>)
  {
    Find(cs, c => HasId(c, id))
  }

  /** Whether some challenge in the list has id `id`. */
  predicate IdListed(cs: seq<Challenge>, id: int)
  {
    exists i :: 0 <= i < |cs| && cs[i].id == id
  }

  /** The list without every challenge whose id is `id`. */
  function WithoutId(cs: seq<Challenge>, id: int): (r: seq<Challenge>)
    ensures |r| <= |cs|
    ensures forall c :: c in r <==> c in cs && c.id != id
  {
    if cs == [] then []
    else
      var rest := WithoutId(cs[1..], id);
      assert forall c :: c in cs <==> c == cs[0] || c in cs[1..];
      if cs[0].id == id then rest else [cs[0]] + rest
  }

  /** Filtering distributes over concatenation, so the remaining challenges keep their order. */
  lemma {:induction false} WithoutIdKeepsOrder(a: seq<Challenge>, b: seq<Challenge>, id: int)
    ensures WithoutId(a + b, id) == WithoutId(a, id) + WithoutId(b, id)
  {
    if a == [] {
      assert a + b == b;
    } else {
      assert (a + b)[1..] == a[1..] + b;
      WithoutIdKeepsOrder(a[1..], b, id);
    }
  }

  /** Removing an id that no challenge has leaves the list identical. */
  lemma {:induction false} WithoutUnlistedId(cs: seq<Challenge>, id: int)
    requires !IdListed(cs, id)
    ensures WithoutId(cs, id) == cs
  {
    if cs != [] {
      assert !IdListed(cs[1..], id) by {
        forall i | 0 <= i < |cs[1..]| ensures cs[1..][i].id != id {
          assert cs[1..][i] == cs[i + 1];
        }
      }
      WithoutUnlistedId(cs[1..], id);
      assert [cs[0]] + cs[1..] == cs;
    }
  }

  /** The challenge made active when a list is loaded or imported: the first one not completed,
      else the last one, else none. */
  function InitialActive(cs: seq<Challenge>): (r: Option<Challenge>)
    ensures r.None? <==> cs == []
    ensures r.Some? ==> r.value in cs
    ensures (exists i :: 0 <= i < |cs| && !cs[i].completed) ==>
              r.Some? && !r.value.completed &&
              exists i :: 0 <= i < |cs| && cs[i] == r.value && forall j :: 0 <= j < i ==> cs[j].completed
    ensures (forall i :: 0 <= i < |cs| ==> cs[i].completed) && cs != [] ==> r == Some(cs[|cs| - 1])
  {
    match Find(cs, (c: Challenge) => !c.completed)
    case Some(c) => Some(c)
    case None => if cs == [] then None else Some(cs[|cs| - 1])
  }

  /** The last challenge of the list, if any. */
  function Last(cs: seq<Challenge>): (r: Option<Challenge>)
  {
    if cs == [] then None else Some(cs[|cs| - 1])
  }

  /** The active copy after an entry edit on challenge `id`: refreshed from the updated list when
      it is that challenge, untouched otherwise. */
  function Refreshed(active: Option<Challenge>, cs: seq<Challenge>, id: int): (r: Option<Challenge>)
    ensures active.None? ==> r.None?
    ensures r.Some? && r != active ==> r.value in cs && r.value.id == id
    ensures active.Some? && active.value.id != id ==> r == active
    ensures active.Some? && active.value.id == id ==> (r.Some? <==> IdListed(cs, id))
  {
    if active.Some? && active.value.id == id then FindById(cs, id) else active
  }

  /** The active challenge, if any, has an id that is still in the list. */
  predicate ActiveIsListed(cs: seq<Challenge>, active: Option<Challenge>)
  {
    active.Some? ==> IdListed(cs, active.value.id)
  }

  /** After an update of challenge `id` the active copy is still listed, and if it was that
      challenge it is now the updated version of the first challenge with that id. */
  lemma RefreshedIsListed(cs: seq<Challenge>, id: int, f: Challenge -> Challenge, active: Option<Challenge>)
    requires forall c :: f(c).id == c.id
    requires ActiveIsListed(cs, active)
    ensures var a := Refreshed(active, UpdateWhere(cs, id, f), id);
      ActiveIsListed(UpdateWhere(cs, id, f), a) &&
      (active.Some? && active.value.id == id ==>
         a.Some? && exists i :: 0 <= i < |cs| && cs[i].id == id && a.value == f(cs[i]) &&
                                forall j :: 0 <= j < i ==> cs[j].id != id)
  {
    var r := UpdateWhere(cs, id, f);
    if active.Some? {
      var k :| 0 <= k < |cs| && cs[k].id == active.value.id;
      assert r[k].id == active.value.id;
      if active.value.id == id {
        assert HasId(r[k], id);
        var a := FindById(r, id);
        assert a.Some?;
        var i :| 0 <= i < |r| && r[i] == a.value && HasId(r[i], id) && forall j :: 0 <= j < i ==> !HasId(r[j], id);
        assert cs[i].id == id && a.value == f(cs[i]);
        forall j | 0 <= j < i
          ensures cs[j].id != id
        {
          assert !HasId(r[j], id);
        }
      }
    }
  }
}
