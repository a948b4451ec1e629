/** Calendar arithmetic of a challenge.
    A calendar date is a whole-day ordinal (days since some fixed epoch), so that
    "the next day" is always "+ 1" whatever the month or year.  The current date
    is an explicit parameter `today` rather than a read of the wall clock. */
module Calendar {

  /** The calendar date of day `dayNumber` of a challenge starting on `startDate`;
      day 1 is the start date itself. */
  function DateForDay(startDate: int, dayNumber: int): (date: int)
    ensures DayNumberFromDate(startDate, date) == dayNumber
  {
    startDate + (dayNumber - 1)
  }

  /** The day number of a challenge starting on `startDate` that falls on `date`:
      the whole-day difference plus one. */
  function DayNumberFromDate(startDate: int, date: int): (dayNumber: int)
    ensures date < startDate <==> dayNumber < 1
  {
    (date - startDate) + 1
  }

  /** Day number to date and back gives the same day number. */
  lemma DayNumberRoundTrip(startDate: int, dayNumber: int)
    ensures DayNumberFromDate(startDate, DateForDay(startDate, dayNumber)) == dayNumber
  {
  }

  /** Date to day number and back gives the same date. */
  lemma DateRoundTrip(startDate: int, date: int)
    ensures DateForDay(startDate, DayNumberFromDate(startDate, date)) == date
  {
  }

  /** Day 1 is the start date, and consecutive day numbers fall on consecutive dates,
      so distinct day numbers never share a date. */
  lemma DateForDayIsConsecutive(startDate: int, dayNumber: int)
    ensures DateForDay(startDate, 1) == startDate
    ensures DateForDay(startDate, dayNumber + 1) == DateForDay(startDate, dayNumber) + 1
    ensures forall other :: DateForDay(startDate, other) == DateForDay(startDate, dayNumber) ==> other == dayNumber
  {
  }

  predicate IsDateInPast(date: int, today: int)
    ensures IsDateInPast(date, today) <==> !IsDateToday(date, today) && !IsDateInFuture(date, today)
  {
    date < today
  }

  predicate IsDateToday(date: int, today: int)
    ensures IsDateToday(date, today) <==> DayNumberFromDate(date, today) == 1
  {
    date == today
  }

  predicate IsDateInFuture(date: int, today: int)
    ensures IsDateInFuture(date, today) ==> !IsDateToday(date, today)
  {
    date > today
  }

  /** Against a fixed today, every date is exactly one of past, today or future. */
  lemma ExactlyOneClassification(date: int, today: int)
    ensures IsDateInPast(date, today) || IsDateToday(date, today) || IsDateInFuture(date, today)
    ensures !(IsDateInPast(date, today) && IsDateToday(date, today))
    ensures !(IsDateInPast(date, today) && IsDateInFuture(date, today))
    ensures !(IsDateToday(date, today) && IsDateInFuture(date, today))
  {
  }
}
