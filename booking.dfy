/** The Booking entity: an immutable, validated, inclusive range of days. */
module Bookings {
  import opened Calendar

  /** The one way constructing a booking can fail. */
  datatype ValidationError = InvertedRange

  datatype Result<+T> = Success(value: T) | Failure(error: ValidationError)

  /** A pair of dates; only ordered pairs are bookings. */
  datatype DateRange = DateRange(startDate: Date, endDate: Date)
  {
    predicate Contains(d: int) {
      startDate <= d <= endDate
    }
  }

  /** A booking never ends before it starts: the constructor refuses such
      ranges, and nothing changes a booking afterwards. */
  type Booking = r: DateRange | r.startDate <= r.endDate witness DateRange(0, 0)

  /** The Booking constructor: an inverted range is an InvertedRange error;
      anything else is the booking from `startDate` to `endDate`. */
  function NewBooking(startDate: Date, endDate: Date): (r: Result<Booking>)
    ensures r.Failure? <==> startDate > endDate
    ensures r.Failure? ==> r.error == InvertedRange
    ensures r.Success? ==> r.value.startDate == startDate && r.value.endDate == endDate
  {
    if startDate > endDate then Failure(InvertedRange)
    else Success(DateRange(startDate, endDate))
  }

  /** The number of days a booking covers, both ends included. */
  function Length(b: Booking): nat {
    b.endDate - b.startDate + 1
  }

  /** The dates of a booking in order: from its start to its end, one day
      apart. */
  function DatesOf(b: Booking): (dates: seq<Date>)
    ensures |dates| == Length(b)
    ensures dates[0] == b.startDate && dates[|dates| - 1] == b.endDate
    ensures forall i :: 0 <= i < |dates| - 1 ==> dates[i + 1] == dates[i] + 1
  {
    seq(Length(b), i requires 0 <= i => b.startDate + i)
  }

  /** A date is among the booking's dates exactly when the booking contains it. */
  lemma DatesOfAreContained(b: Booking, d: int)
    ensures d in DatesOf(b) <==> b.Contains(d)
  {
    if b.Contains(d) {
      assert DatesOf(b)[d - b.startDate] == d;
    }
  }

  /** GetAllDates: every date from the start to the end, inclusive, stepping
      one day at a time. */
  method GetAllDates(b: Booking) returns (dates: seq<Date>)
    ensures |dates| == b.endDate - b.startDate + 1
    ensures dates[0] == b.startDate && dates[|dates| - 1] == b.endDate
    ensures forall i :: 0 <= i < |dates| - 1 ==> dates[i + 1] == dates[i] + 1
    ensures dates == DatesOf(b)
  {
    dates := [];
    var date := b.startDate;
    while date <= b.endDate
      invariant b.startDate <= date <= b.endDate + 1
      invariant |dates| == date - b.startDate
      invariant forall i :: 0 <= i < |dates| ==> dates[i] == b.startDate + i
    {
      dates := dates + [date];
      date := date + 1;
    }
  }
}
