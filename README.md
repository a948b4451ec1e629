# Learning tracker: challenge progress model and store

This project models the core of a single-user tracker for multi-day learning
challenges. A user creates a challenge with a title, a duration in days and a
start date, then logs one free-text note per day. The tracker shows each day of
the challenge as completed, today, missed or upcoming. It also shows how many days
are logged, a rounded completion percentage and the current streak of consecutive
logged days.

The model has five modules:

- `Calendar`: day numbers and calendar dates. A date is a whole-day ordinal and
  "today" is a parameter. Day `n` falls on `start + (n - 1)`. The day number of a
  date is the day difference plus one. A date is in the past, today or in the
  future.
- `Challenges`: the challenge record and its aggregates. These are the count of
  logged days and the percentage, which rounds a half up the way `Math.round`
  does and is not clamped at 100. They also include the status of each grid cell,
  where an entry wins over the date, and the guard that offers "Mark Complete".
- `Streak`: the streak as a specification, namely the run of consecutive days
  ending at the largest logged day. Two methods follow the program: one sorts the
  logged days largest first, the other counts until the first gap.
- `Collection`: the pure list operations behind the store. These put, drop or mark
  on the challenges with a given id, find the first match, filter out an id, and
  choose the active challenge when a list is loaded.
- `Store`: the class `ChallengeStore`. Its fields are `challenges` and `active`.
  `active` is a copy of a challenge, not an id. Each method replaces these fields
  the way the component's state setters do. The object invariant `Valid()` says
  that an active challenge always has its id in the list.

In five places the program behaves in a way a reader might not expect. The model
follows the program:

- Deleting the active challenge selects the last challenge left in list order.
  This is the most recently created one only while the list is in creation order.
  An imported list need not be.
- Marking a challenge complete does not refresh the active copy. So the copy still
  reads "not completed", "Mark Complete" stays on offer, and a second click stamps
  `completedDate` again (`MarkCompleteLeavesActiveCopyStale`,
  `MarkCompleteTwiceRestamps`).
- Take a 7-day challenge started on 2024-03-01 and viewed on 2024-03-10. Day 7 is
  2024-03-07, which is before today. Without a note the grid shows it as missed,
  not upcoming (`DailyPracticeExample`).
- Reading 100% means that the number of entries equals the duration, not that
  each day has one. The two coincide below 200 days, when every entry lies within
  the challenge and holds a note (`HundredPercentMeansEveryDayLogged`). The
  creation form offers only 7 to 100 days. An imported challenge can still break
  the link: one of 200 days reads 100% with 199 entries. An entry for day 0 or
  day 8 of a 7-day challenge also counts towards the percentage.
- Deleting the last remaining challenge is not saved. The save effect writes only
  a non-empty list (`LearningTracker.js:83`), so stored data still holds the
  deleted challenge, and the next load brings it back (`LearningTracker.js:69-78`).
  "Clear all" is not affected, because it clears storage itself
  (`LearningTracker.js:264`).

Two of these cannot be reached from the screen as written. `deleteChallenge`
(`LearningTracker.js:155`) is defined but never called in the component, so the
first and the last of them hold for the operation, not for anything a user can
do. `getDayNumberFromDate` (`LearningTracker.js:38`) is likewise never called.

The model leaves I/O and the clock outside. Challenge ids, creation and completion
timestamps, the current date and loaded or imported lists are all parameters.

## Model

The list helpers `PutEntry`, `DropEntry`, `UpdateWhere`, `FindById` and `Last`
model single expressions of the program (lines 117, 138-140, the `map` calls, the
`find` at 123 and 146, and 160). They have no rows of their own: the rows for
`PutEntrySetsOneDay`, `DropEntryRemovesOneDay`, `WithEntry`, `WithoutEntry`,
`Refreshed`, `RefreshedIsListed` and `DeleteChallenge` state their behaviour.

| member | source | states |
|---|---|---|
| `Calendar.DateForDay` | src/components/LearningTracker.js:31-36 | day n of a challenge falls on the date whose day number is n (round trip in `DayNumberRoundTrip`, consecutiveness in `DateForDayIsConsecutive`) |
| `Calendar.DayNumberFromDate` | src/components/LearningTracker.js:38-44 | a date before the start date gets a day number below 1, and only such a date does (inverse shown by `DateRoundTrip`) |
| `Calendar.IsDateInPast` | src/components/LearningTracker.js:46-52 | a date is in the past exactly when it is neither today nor in the future (`ExactlyOneClassification`) |
| `Calendar.IsDateToday` | src/components/LearningTracker.js:54-58 | a date is today exactly when a challenge starting on it is on day 1 today |
| `Calendar.IsDateInFuture` | src/components/LearningTracker.js:60-66 | a date in the future is never today (`ExactlyOneClassification`) |
| `Calendar.DayNumberRoundTrip` | src/components/LearningTracker.js:31-44 | taking the date of day n and then its day number gives n back |
| `Calendar.DateRoundTrip` | src/components/LearningTracker.js:31-44 | taking the day number of a date and then its date gives the same date |
| `Calendar.DateForDayIsConsecutive` | src/components/LearningTracker.js:31-36 | day 1 is the start date, day n+1 falls on the day after day n, and different day numbers never share a date |
| `Calendar.ExactlyOneClassification` | src/components/LearningTracker.js:46-66 | against a fixed today, exactly one of past, today and future holds for every date |
| `Challenges.NewChallenge` | src/components/LearningTracker.js:94-103 | a new challenge keeps the given id, title, description, duration, start date and creation time, has no entries and is not completed (`NewChallengeIsEmpty` gives 0% and no Completed cell) |
| `Challenges.CompletedDays` | src/components/LearningTracker.js:172-174 | the logged-day count is 0 exactly when there are no entries (how it moves is stated by `PutEntrySetsOneDay` and `DropEntryRemovesOneDay`) |
| `Challenges.ProgressPercentage` | src/components/LearningTracker.js:176-178 | the result is the integer nearest to 100 * logged / totalDays, with a half rounding up |
| `Challenges.RoundedPercentIsUnique` | src/components/LearningTracker.js:177 | only one integer satisfies that rounding, so the contract above fixes the percentage |
| `Challenges.PercentageEndpoints` | src/components/LearningTracker.js:172-178 | no entries read 0%; exactly one entry per day reads 100% |
| `Challenges.PercentageMonotone` | src/components/LearningTracker.js:172-178 | more entries never lower the percentage |
| `Challenges.PercentageNotClamped` | src/components/LearningTracker.js:176-178 | with up to 200 days, more entries than days reads above 100% |
| `Challenges.HundredPercentMeansAllDays` | src/components/LearningTracker.js:608 | below 200 days, the 100% shown by the Mark Complete gate holds exactly when the number of entries equals the duration |
| `Challenges.AllDaysLoggedIffCountMatches` | src/components/LearningTracker.js:172-174 | when every entry lies within days 1 to totalDays and holds a note, the entry count equals the duration exactly when every day of the challenge has an entry |
| `Challenges.HundredPercentMeansEveryDayLogged` | src/components/LearningTracker.js:608 | below 200 days, with entries only on days of the challenge and holding notes, 100% holds exactly when every day 1 to totalDays has an entry |
| `Challenges.HundredPercentBeforeAllDays` | src/components/LearningTracker.js:176-178 | 199 entries out of 200 days already read 100% |
| `Challenges.PercentageExamples` | src/components/LearningTracker.js:176-178 | 15 of 30 days read 50%; 3 of 7 days read 43% |
| `Challenges.HasEntry` | src/components/LearningTracker.js:477 | a day counts as logged only when it holds a non-empty note, and then the logged-day count is positive |
| `Challenges.StatusOfDay` | src/components/LearningTracker.js:477-497 | a day is Completed exactly when it has a non-empty note, whatever its date; otherwise it is Today, Missed or Upcoming exactly when its date is today, in the past or in the future |
| `Challenges.TodayIsOneDay` | src/components/LearningTracker.js:476-497 | at most one day shows Today, and it is the day number of today's date |
| `Challenges.StatusFollowsDayOrder` | src/components/LearningTracker.js:476-497 | among days without a note, missed days come before today and upcoming days come after it |
| `Challenges.CanMarkComplete` | src/components/LearningTracker.js:608 | Mark Complete is offered only for a challenge not yet completed, of positive duration, whose entry count rounds to 100% (`HundredPercentMeansAllDays` relates that to the duration) |
| `Challenges.NewChallengeIsEmpty` | src/components/LearningTracker.js:93-103 | a new challenge has no logged day, reads 0%, has no Completed cell, is not completed and cannot be marked complete |
| `Streak.RunBounded` | src/components/LearningTracker.js:180-191 | a run of consecutive logged days is never longer than the number of entries |
| `Streak.RunIsMaximalBlock` | src/components/LearningTracker.js:183-189 | the run ending at top has length n when days top-n+1 to top are logged and top-n is not |
| `Streak.RunIsInDays` | src/components/LearningTracker.js:183-189 | every day of the run is logged, and the day just below the run is not |
| `Streak.StreakBounds` | src/components/LearningTracker.js:180-191 | the streak is 0 exactly when there are no entries; otherwise it is at least 1; it never exceeds the number of entries |
| `Streak.StreakExamples` | src/components/LearningTracker.js:180-191 | days {1,2,3,5} give 1, days {1,2,3} give 3, and no days give 0 |
| `Streak.SortDescending` | src/components/LearningTracker.js:181 | returns the logged day numbers, each once, in strictly decreasing order |
| `Streak.CurrentStreak` | src/components/LearningTracker.js:180-191 | counting down the sorted days until the first gap gives the run ending at the largest logged day |
| `Streak.StreakOfDescending` | src/components/LearningTracker.js:183-190 | the counting loop stops at the length of the run ending at the largest day |
| `Collection.PutEntrySetsOneDay` | src/components/LearningTracker.js:115-118 | adding a note sets that day's note and keeps every other note and field; the logged-day count grows by one only if the day had no note |
| `Collection.PutEntryIdempotent` | src/components/LearningTracker.js:117 | adding the same note twice is the same as adding it once |
| `Collection.DropEntryRemovesOneDay` | src/components/LearningTracker.js:136-141 | deleting a note removes exactly that day and keeps the rest; deleting a day without a note changes nothing |
| `Collection.DropEntryUndoesPutEntry` | src/components/LearningTracker.js:111-153 | deleting a day after adding it gives the same challenge as deleting it alone, and the original challenge if the day had no note |
| `Collection.PutEntryCompletesDay` | src/components/LearningTracker.js:477-497 | after a non-empty note is added, that day shows Completed whatever its date |
| `Collection.DropEntryUncompletesDay` | src/components/LearningTracker.js:477-497 | after a note is deleted, that day shows by its date again |
| `Collection.WithEntry` | src/components/LearningTracker.js:113-120 | the list keeps its length; challenges with the id gain the note for the day and keep every other field; the others are unchanged |
| `Collection.WithoutEntry` | src/components/LearningTracker.js:134-143 | the list keeps its length; challenges with the id lose the note for the day and keep every other field; the others are unchanged |
| `Collection.MarkedComplete` | src/components/LearningTracker.js:167 | the marked challenge is completed with the given stamp and keeps every other field: id, title, description, duration, start date, notes and creation time |
| `Collection.WithCompleted` | src/components/LearningTracker.js:165-169 | the list keeps its length; each challenge keeps every field other than the completion flag and stamp; challenges with the id are completed with the given stamp; the others are unchanged |
| `Collection.WithEntryChangesOnlyTarget` | src/components/LearningTracker.js:112-120 | adding a note changes only challenges with the matching id, and only their notes; list length, order and ids stay the same |
| `Collection.WithoutEntryChangesOnlyTarget` | src/components/LearningTracker.js:133-143 | deleting a note changes only challenges with the matching id, and only by removing that day |
| `Collection.WithoutAbsentEntryIsIdentity` | src/components/LearningTracker.js:133-143 | if no matching challenge has a note for the day, the list is left identical |
| `Collection.WithCompletedChangesOnlyTarget` | src/components/LearningTracker.js:164-170 | marking complete turns each matching challenge into its `MarkedComplete` version, so the flag and stamp are set and every other field is kept; other challenges are unchanged, and no completed flag is ever cleared |
| `Collection.Find` | src/components/LearningTracker.js:123 | returns a challenge exactly when one satisfies the test, and then the first such challenge in list order |
| `Collection.WithoutId` | src/components/LearningTracker.js:156 | the result holds exactly the challenges whose id differs |
| `Collection.WithoutIdKeepsOrder` | src/components/LearningTracker.js:156 | filtering distributes over concatenation, so the remaining challenges keep their order |
| `Collection.WithoutUnlistedId` | src/components/LearningTracker.js:156 | removing an id that no challenge has leaves the list identical |
| `Collection.InitialActive` | src/components/LearningTracker.js:75-77 | picks none for an empty list, else the first challenge not completed, else the last one |
| `Collection.Refreshed` | src/components/LearningTracker.js:122-126 | no active challenge stays none; a changed active copy is a listed challenge with the edited id; an active copy of the edited challenge stays present exactly when that id is still listed (`RefreshedIsListed` ties it to the updated first match); any other active copy is left as it was; the delete-entry refresh at lines 145-149 is the same |
| `Collection.RefreshedIsListed` | src/components/LearningTracker.js:122-126 | after an edit, the active copy still has its id in the list; if the copy was the edited challenge, it becomes the updated first challenge with that id |
| `Store.ChallengeStore.constructor` | src/components/LearningTracker.js:6-7 | the store starts with no challenges and none active |
| `Store.ChallengeStore.CreateChallenge` | src/components/LearningTracker.js:93-109 | appends a new, empty, not-completed challenge (start date defaulting to today) and makes it active |
| `Store.ChallengeStore.AddEntry` | src/components/LearningTracker.js:111-130 | the new list adds the note on matching challenges; if the active copy was that challenge, it is refreshed and holds the note |
| `Store.ChallengeStore.DeleteEntry` | src/components/LearningTracker.js:132-153 | the new list removes the note on matching challenges; if the active copy was that challenge, it is refreshed and lacks the day |
| `Store.ChallengeStore.DeleteChallenge` | src/components/LearningTracker.js:155-162 | removes every challenge with the id; an active challenge with that id is replaced by the last remaining one or none; any other active challenge is untouched |
| `Store.ChallengeStore.MarkChallengeComplete` | src/components/LearningTracker.js:164-170 | marks matching challenges completed with the given stamp and leaves the active copy unchanged |
| `Store.ChallengeStore.SelectChallenge` | src/components/LearningTracker.js:580 | makes a listed challenge active and leaves the list alone |
| `Store.ChallengeStore.ClearAll` | src/components/LearningTracker.js:265-266 | empties the list and clears the active challenge |
| `Store.ChallengeStore.Restore` | src/components/LearningTracker.js:197-201 | replaces the list with the imported (or, at start-up, the stored) one and selects the active challenge by the load rule; a snapshot without a list changes nothing |
| `Store.MarkCompleteLeavesActiveCopyStale` | src/components/LearningTracker.js:164-170 | after marking the active challenge, the listed challenge is completed but the active copy is not, so the copy can still offer Mark Complete |
| `Store.MarkCompleteTwiceRestamps` | src/components/LearningTracker.js:164-170 | marking complete again overwrites the completion stamp |
| `Store.DailyPracticeExample` | src/components/LearningTracker.js:172-191 | 7 days with days 1-3 logged, seen on day 10: 3 logged days, 43%, streak 3, day 3 completed, days 4 to 7 missed |

## Left out

- `src/utils/storage.js` is not part of this model. It covers local storage, JSON
  parsing and printing, file download and the file reader. `Restore` takes the
  loaded or imported list, or `None` when the data has no list.
- The save effect (`LearningTracker.js:81-91`) is left out. It writes the list
  after every change that leaves the list non-empty, and it is fire-and-forget
  I/O. Because it skips an empty list, a deleted last challenge comes back at the
  next load, as noted above. The model has no stored copy, so it does not show
  this.
- `formatDate` and `formatFullDate` are left out. They are locale formatting
  through a library call.
- The model does not convert between Gregorian dates, ISO strings and ordinals.
  The default start date is the UTC date from `toISOString`
  (`LearningTracker.js:99`, and the form default at `:286`). The grid's today is
  the local date. The model passes one `today` for both, so it does not show a
  start date one day off from the local date.
  `getDateForDay` moves in local time and prints in UTC. `getDayNumberFromDate`
  takes the ceiling of a millisecond difference. `isDateToday` compares local
  `toDateString` values (`LearningTracker.js:54-58`). `isDateInPast` and
  `isDateInFuture` truncate a UTC-parsed date to local midnight
  (`LearningTracker.js:46-52`, `60-66`). West of UTC this moves a day's cell between
  Today and Missed by one day. All of these can be off by one day across time
  zones and daylight saving changes. Whole-day ordinals have none of these effects.
- `Challenges.ProgressPercentage`: requires `totalDays > 0`. A zero or negative duration can
  arrive only through imported data. A zero duration shows NaN or Infinity; a negative
  one shows a negative percentage or 0. Rounding is
  exact. A float result that falls just below or above a half is not modelled.
- The days-left figure (`totalDays - getCompletedDays`, `LearningTracker.js:653`)
  is left out. It is display arithmetic over `CompletedDays`.
- `Store.ChallengeStore.AddEntry`: requires non-empty text. The entry form trims
  the text and submits it only when something remains. Trimming itself is not
  modelled.
- The `addEntry` and `deleteEntry` updaters read the active challenge of the render
  that created them. The model runs operations one after another and uses the
  current value.
- `Streak.SortDescending` picks the largest remaining day each round. It does not
  model the library sort. Only its result is specified.
- Modals, form state, the selected-day dialog, `alert` and `confirm` are left out.
  They are presentation only.
