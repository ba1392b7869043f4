/** Due dates, overdue detection and fines. Dates are calendar day numbers and
    "today" is a parameter, where the source reads the clock and truncates both
    dates to local midnight. */
module DateUtils {
  import opened Records

  /** calculateDaysDifference: the number of whole days between two dates, in either order. */
  function CalculateDaysDifference(date1: Day, date2: Day): (r: nat)
    ensures r == 0 <==> date1 == date2
    ensures date1 <= date2 ==> date1 + r == date2
    ensures date2 <= date1 ==> date2 + r == date1
  {
    if date2 >= date1 then date2 - date1 else date1 - date2
  }

  /** addDays: the calendar day `days` days after `date`. */
  function AddDays(date: Day, days: int): (r: Day)
    ensures CalculateDaysDifference(date, r) == if days >= 0 then days else -days
    ensures days >= 0 ==> date <= r
    ensures days < 0 ==> r < date
  {
    date + days
  }

  /** isOverdue: the due day lies strictly before today. */
  predicate IsOverdue(dueDate: Day, today: Day) {
    dueDate < today
  }

  /** calculateOverdueDays: 0 unless overdue, then the days from the due day to today. */
  function CalculateOverdueDays(dueDate: Day, today: Day): (r: nat)
    ensures r == 0 <==> !IsOverdue(dueDate, today)
    ensures IsOverdue(dueDate, today) ==> r >= 1 && dueDate + r == today
  {
    if !IsOverdue(dueDate, today) then 0 else CalculateDaysDifference(dueDate, today)
  }

  /** calculateFine: the overdue days times the daily rate. */
  function CalculateFine(dueDate: Day, today: Day, finePerDay: nat): (r: nat)
    ensures today <= dueDate ==> r == 0
    ensures dueDate < today ==> r == (today - dueDate) * finePerDay
  {
    CalculateOverdueDays(dueDate, today) * finePerDay
  }

  /** The day difference does not depend on the order of its arguments. */
  lemma DaysDifferenceIsSymmetric(date1: Day, date2: Day)
    ensures CalculateDaysDifference(date1, date2) == CalculateDaysDifference(date2, date1)
  {
  }

  /** A loan returned on or before the day that is `days` after it was taken costs nothing. */
  lemma NoFineWithinLoanPeriod(borrowDate: Day, days: nat, today: Day, finePerDay: nat)
    requires today <= AddDays(borrowDate, days)
    ensures !IsOverdue(AddDays(borrowDate, days), today)
    ensures CalculateFine(AddDays(borrowDate, days), today, finePerDay) == 0
  {
  }

  /** Each further day late adds exactly one daily rate to the fine. */
  lemma FineGrowsByRatePerDay(dueDate: Day, today: Day, finePerDay: nat)
    requires dueDate <= today
    ensures CalculateFine(dueDate, today + 1, finePerDay) == CalculateFine(dueDate, today, finePerDay) + finePerDay
  {
    var n := today - dueDate;
    assert (n + 1) * finePerDay == n * finePerDay + finePerDay;
  }

  /** Returning later never lowers the fine. */
  lemma {:induction false} FineIsMonotonic(dueDate: Day, today: Day, later: Day, finePerDay: nat)
    requires today <= later
    ensures CalculateFine(dueDate, today, finePerDay) <= CalculateFine(dueDate, later, finePerDay)
    decreases later - today
  {
    if today < later {
      FineIsMonotonic(dueDate, today, later - 1, finePerDay);
      if dueDate <= later - 1 {
        FineGrowsByRatePerDay(dueDate, later - 1, finePerDay);
      }
    }
  }

  /** A loan is not overdue on its due day, is overdue from the next day on,
      and stays overdue on every later day. */
  lemma OverdueFromTheDayAfterDue(dueDate: Day, today: Day, later: Day)
    requires today <= later
    ensures !IsOverdue(dueDate, dueDate) && IsOverdue(dueDate, dueDate + 1)
    ensures IsOverdue(dueDate, today) ==> IsOverdue(dueDate, later)
  {
  }

  /** Ten days late at 5 a day is 50; on the due day itself it is 0. */
  lemma FineExample(dueDate: Day)
    ensures CalculateFine(dueDate, AddDays(dueDate, 10), 5) == 50
    ensures CalculateFine(dueDate, dueDate, 5) == 0
  {
  }

  // ---------------------------------------------------------------------------
  // The time zone as written

  /** Minutes in a day. Instants below are minutes since the epoch, in UTC. */
  const MinutesPerDay: int := 1440

  /** The local calendar day of a UTC instant on a server whose clock runs
      `offset` minutes ahead of UTC (negative west of Greenwich). */
  function LocalDay(instant: int, offset: int): Day {
    (instant + offset) / MinutesPerDay
  }

  /** isOverdue as written. The stored due date is a UTC calendar day (it was
      written with toISOString); `new Date("YYYY-MM-DD")` reads it as UTC
      midnight, and setHours(0, 0, 0, 0) moves that instant to the midnight of
      the local day it falls in. Today is the server's local day. */
  predicate IsOverdueAsWritten(dueDate: Day, today: Day, offset: int) {
    LocalDay(dueDate * MinutesPerDay, offset) < today
  }

  /** calculateFine as written: the local days from the shifted due day to today. */
  function CalculateFineAsWritten(dueDate: Day, today: Day, offset: int, finePerDay: nat): (r: nat)
    ensures r == 0 <==> !IsOverdueAsWritten(dueDate, today, offset) || finePerDay == 0
  {
    if IsOverdueAsWritten(dueDate, today, offset)
    then (today - LocalDay(dueDate * MinutesPerDay, offset)) * finePerDay
    else 0
  }

  /** On a server at or east of UTC the stored due day is read back as itself,
      so the code as written agrees with IsOverdue and CalculateFine. */
  lemma AsWrittenAgreesEastOfUtc(dueDate: Day, today: Day, offset: int, finePerDay: nat)
    requires 0 <= offset < MinutesPerDay
    ensures IsOverdueAsWritten(dueDate, today, offset) == IsOverdue(dueDate, today)
    ensures CalculateFineAsWritten(dueDate, today, offset, finePerDay) == CalculateFine(dueDate, today, finePerDay)
  {
    assert LocalDay(dueDate * MinutesPerDay, offset) == dueDate;
  }

  /** On a server west of UTC the stored due day is read back as the day
      before, so a loan counts as overdue, and is fined, from its due day on. */
  lemma AsWrittenShiftsWestOfUtc(dueDate: Day, today: Day, offset: int, finePerDay: nat)
    requires -MinutesPerDay < offset < 0
    ensures IsOverdueAsWritten(dueDate, today, offset) <==> dueDate <= today
    ensures CalculateFineAsWritten(dueDate, today, offset, finePerDay) == CalculateFine(dueDate - 1, today, finePerDay)
  {
    assert dueDate * MinutesPerDay + offset == (dueDate - 1) * MinutesPerDay + (MinutesPerDay + offset);
    assert LocalDay(dueDate * MinutesPerDay, offset) == dueDate - 1;
  }

  /** At UTC-5, a loan due on day 100 and returned on day 100 is fined one day
      as written; the intended rule charges nothing on the due day. */
  lemma DueDayFinedWestOfUtc()
    ensures IsOverdueAsWritten(100, 100, -300) && CalculateFineAsWritten(100, 100, -300, 5) == 5
    ensures !IsOverdue(100, 100) && CalculateFine(100, 100, 5) == 0
  {
    assert LocalDay(100 * MinutesPerDay, -300) == 99;
  }
}
