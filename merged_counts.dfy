/** The second report of the program: CountBookingsPerDay over the merged
    bookings ("no overlaps"). Merged bookings never share a day, so within
    one month each day of month is counted at most once. */
module MergedCounts {
  import opened Calendar
  import opened Bookings
  import opened DayCounts
  import opened Merge

  /** The dates of all the bookings, list order, booking by booking. */
  function Flatten(bookings: seq<Booking>): seq<Date> {
    if bookings == [] then []
    else Flatten(bookings[..|bookings| - 1]) + DatesOf(bookings[|bookings| - 1])
  }

  predicate StrictlyIncreasing(dates: seq<Date>) {
    forall i, j :: 0 <= i < j < |dates| ==> dates[i] < dates[j]
  }

  lemma {:induction false} OccursAppend(a: seq<Date>, b: seq<Date>, day: int)
    ensures Occurs(a + b, day) == Occurs(a, day) + Occurs(b, day)
    decreases |b|
  {
    if b == [] {
      assert a + b == a;
    } else {
      assert (a + b)[..|a + b| - 1] == a + b[..|b| - 1];
      OccursAppend(a, b[..|b| - 1], day);
    }
  }

  /** Counting per booking is counting over the flattened dates. */
  lemma {:induction false} OccurrencesFlatten(bookings: seq<Booking>, day: int)
    ensures Occurrences(bookings, day) == Occurs(Flatten(bookings), day)
  {
    if bookings != [] {
      var init, last := bookings[..|bookings| - 1], bookings[|bookings| - 1];
      OccurrencesFlatten(init, day);
      OccursAppend(Flatten(init), DatesOf(last), day);
    }
  }

  /** The dates of separated bookings come out strictly increasing, each one
      covered, none past the last booking's end. */
  lemma {:induction false} FlattenSeparated(bookings: seq<Booking>)
    requires Separated(bookings)
    ensures StrictlyIncreasing(Flatten(bookings))
    ensures forall x :: x in Flatten(bookings) ==> Covers(bookings, x)
    ensures bookings != [] ==> forall x :: x in Flatten(bookings) ==> x <= bookings[|bookings| - 1].endDate
  {
    if bookings != [] {
      var init, last := bookings[..|bookings| - 1], bookings[|bookings| - 1];
      assert bookings == init + [last];
      assert Separated(init) by {
        forall i | 0 <= i < |init| - 1 ensures init[i].endDate + 1 < init[i + 1].startDate {
          assert init[i] == bookings[i] && init[i + 1] == bookings[i + 1];
        }
      }
      FlattenSeparated(init);
      var before, mine := Flatten(init), DatesOf(last);
      forall x | x in before ensures x < last.startDate {
        assert init[|init| - 1] == bookings[|bookings| - 2];
      }
      forall x | x in Flatten(bookings) ensures Covers(bookings, x) {
        CoversSnoc(init, last, x);
        if x in mine {
          DatesOfAreContained(last, x);
        }
      }
      forall i, j | 0 <= i < j < |before + mine| ensures (before + mine)[i] < (before + mine)[j] {
        if i < |before| && |before| <= j {
          assert before[i] in before;
        }
      }
    }
  }

  lemma {:induction false} OccursNone(dates: seq<Date>, day: int)
    requires forall x :: x in dates ==> DayOfMonth(x) != day
    ensures Occurs(dates, day) == 0
  {
    if dates != [] {
      OccursNone(dates[..|dates| - 1], day);
    }
  }

  /** Increasing dates of a single month never repeat a day of month. */
  lemma {:induction false} OccursInOneMonth(dates: seq<Date>, year: int, month: int, day: int)
    requires StrictlyIncreasing(dates)
    requires forall x :: x in dates ==> ToCivil(x).year == year && ToCivil(x).month == month
    ensures Occurs(dates, day) <= 1
  {
    if dates != [] {
      var init, last := dates[..|dates| - 1], dates[|dates| - 1];
      OccursInOneMonth(init, year, month, day);
      if DayOfMonth(last) == day {
        forall x | x in init ensures DayOfMonth(x) != day {
          var i :| 0 <= i < |init| && init[i] == x;
          SameMonthDistinctDays(x, last);
        }
        OccursNone(init, day);
      }
    }
  }

  /** When the bookings all fall in one calendar month, the merged view
      counts every day of month at most once. */
  lemma MergedCountsAtMostOnce(bookings: seq<Booking>, year: int, month: int)
    requires forall d: Date :: Covers(bookings, d) ==> ToCivil(d).year == year && ToCivil(d).month == month
    ensures forall day :: Occurrences(Merged(bookings), day) <= 1
  {
    var merged := Merged(bookings);
    MergedIsCanonical(bookings);
    FlattenSeparated(merged);
    forall day ensures Occurrences(merged, day) <= 1 {
      OccurrencesFlatten(merged, day);
      OccursInOneMonth(Flatten(merged), year, month, day);
    }
  }
}
