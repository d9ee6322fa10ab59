/** The code as written against DateTime's real range, which ends on
    9999-12-31: DateTime.AddDays throws ArgumentOutOfRangeException for a
    result past that day. GetAllDates and the merge's adjacency test both
    compute "the day after" a booking's end, so a booking ending on the last
    representable day makes them throw, although the booking itself is
    valid. The rest of the model uses unbounded day ordinals, which is the
    evidently intended behaviour. */
module DateTimeLimits {
  import opened Calendar
  import opened Bookings
  import opened Merge

  /** DateTime.MaxValue.Date, 9999-12-31, as a day ordinal. */
  const MaxDate: Date := 3652058

  /** MaxDate is 31 December 9999, and the day after it would be in year
      10000, which DateTime cannot hold. */
  lemma MaxDateIsLastDay()
    ensures ToCivil(MaxDate) == CivilDate(9999, 12, 31)
    ensures ToCivil(MaxDate + 1) == CivilDate(10000, 1, 1)
  {
    LastYear();
    MonthsFillYear(9999);
    MonthWalkLast(9999, 1, 364);
    FirstDayPastRange();
  }

  lemma FirstDayPastRange()
    ensures ToCivil(MaxDate + 1) == CivilDate(10000, 1, 1)
  {
    NewYearsDay(10000);
  }

  lemma LastYear()
    ensures YearWalk(1, MaxDate) == (9999, 364)
  {
    DaysBeforeYear(9998);
    assert DaysInYears(1, 9998) + 364 == MaxDate;
    YearWalkSkip(1, 9998, 364);
  }

  /** A DateTime computation: a value, or ArgumentOutOfRangeException. */
  datatype Checked<+T> = Value(value: T) | OutOfRange

  /** DateTime.AddDays on whole days. */
  function AddDays(d: Date, days: int): (r: Checked<Date>)
    ensures r.Value? <==> 0 <= d + days <= MaxDate
    ensures r.Value? ==> r.value == d + days
  {
    if 0 <= d + days <= MaxDate then Value(d + days) else OutOfRange
  }

  /** GetAllDates as written: after yielding each date it asks AddDays for
      the next, including after the end date. All dates are yielded; the
      enumeration then throws exactly when the booking ends on MaxDate. */
  method GetAllDatesAsWritten(b: Booking) returns (dates: seq<Date>, outcome: Checked<()>)
    requires b.endDate <= MaxDate
    ensures dates == DatesOf(b)
    ensures outcome == OutOfRange <==> b.endDate == MaxDate
  {
    dates := [];
    outcome := Value(());
    var date := b.startDate;
    while date <= b.endDate
      invariant b.startDate <= date <= b.endDate + 1 && date <= MaxDate
      invariant |dates| == date - b.startDate
      invariant forall i :: 0 <= i < |dates| ==> dates[i] == b.startDate + i
      invariant outcome == Value(())
    {
      dates := dates + [date];
      var next := AddDays(date, 1);
      if next == OutOfRange {
        outcome := OutOfRange;
        return;
      }
      date := next.value;
    }
  }

  /** The merge's test `current.StartDate <= lastMerged.EndDate.AddDays(1)`
      as written. Below the last day it answers as the model's `Touches`
      does; on the last day it throws instead of answering. */
  function TouchesAsWritten(last: Booking, current: Booking): (r: Checked<bool>)
    ensures r == OutOfRange <==> last.endDate >= MaxDate
    ensures r.Value? ==> r.value == Touches(last, current)
  {
    match AddDays(last.endDate, 1)
    case Value(next) => Value(current.startDate <= next)
    case OutOfRange => OutOfRange
  }

  /** Two copies of the booking for 9999-12-31: the merge as written throws
      on the second one, whereas the intended merge is that one booking. */
  lemma MergeOnLastDay()
    ensures var x: Booking := DateRange(MaxDate, MaxDate);
      TouchesAsWritten(x, x) == OutOfRange && Merged([x, x]) == [x]
  {
    var x: Booking := DateRange(MaxDate, MaxDate);
    assert SortByStart([x, x]) == [x, x] by {
      assert [x, x][1..] == [x];
      assert [x][1..] == [];
    }
    assert [x, x][..1] == [x];
    assert [x][..0] == [];
    assert Sweep([x]) == [x];
    assert Sweep([x, x]) == Absorb([x], x);
  }
}
