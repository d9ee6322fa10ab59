/** BookingAnalyzer.CountBookingsPerDay and the per-day lookup of
    PrintDailyCounts: a histogram keyed by day of month, so that the 5th of
    March and the 5th of April share one counter. */
module DayCounts {
  import opened Calendar
  import opened Bookings

  /** How many of `dates` fall on day `day` of their month. */
  function Occurs(dates: seq<Date>, day: int): nat
  {
    if dates == [] then 0
    else Occurs(dates[..|dates| - 1], day) + (if DayOfMonth(dates[|dates| - 1]) == day then 1 else 0)
  }

  /** How many (booking, date) pairs, the date one of the booking's own, fall
      on day `day` of their month. */
  function Occurrences(bookings: seq<Booking>, day: int): nat
  {
    if bookings == [] then 0
    else Occurrences(bookings[..|bookings| - 1], day) + Occurs(DatesOf(bookings[|bookings| - 1]), day)
  }

  /** The histogram the source promises: a key for every day of month that
      some booking covers, holding how often it is covered. */
  function DailyCounts(bookings: seq<Booking>): (counts: map<int, int>)
    ensures forall day :: day in counts <==> 1 <= day <= 31 && Occurrences(bookings, day) > 0
    ensures forall day :: day in counts ==> counts[day] == Occurrences(bookings, day)
  {
    map day | 1 <= day <= 31 && Occurrences(bookings, day) > 0 :: Occurrences(bookings, day)
  }

  /** The lookup of PrintDailyCounts: the stored count, or 0 for an absent
      day. Over a table of positive counts it is non-zero exactly for the
      stored days. */
  function CountOrZero(counts: map<int, int>, day: int): (n: int)
    ensures day !in counts ==> n == 0
    ensures (forall k :: k in counts ==> counts[k] >= 1) ==> (n >= 1 <==> day in counts)
  {
    if day in counts then counts[day] else 0
  }

  /** Total number of days covered by the bookings, overlaps counted again. */
  function TotalLength(bookings: seq<Booking>): nat {
    if bookings == [] then 0
    else TotalLength(bookings[..|bookings| - 1]) + Length(bookings[|bookings| - 1])
  }

  lemma {:induction false} OccursOutsideMonth(dates: seq<Date>, day: int)
    requires day < 1 || day > 31
    ensures Occurs(dates, day) == 0
  {
    if dates != [] {
      OccursOutsideMonth(dates[..|dates| - 1], day);
    }
  }

  /** No booking date has a day of month outside 1..31. */
  lemma {:induction false} OccurrencesOutsideMonth(bookings: seq<Booking>, day: int)
    requires day < 1 || day > 31
    ensures Occurrences(bookings, day) == 0
  {
    if bookings != [] {
      OccurrencesOutsideMonth(bookings[..|bookings| - 1], day);
      OccursOutsideMonth(DatesOf(bookings[|bookings| - 1]), day);
    }
  }

  lemma OccursStep(dates: seq<Date>, j: nat)
    requires j < |dates|
    ensures forall day :: (Occurs(dates[..j + 1], day) ==
      Occurs(dates[..j], day) + (if DayOfMonth(dates[j]) == day then 1 else 0))
  {
    assert dates[..j + 1][..j] == dates[..j];
  }

  lemma OccurrencesStep(bookings: seq<Booking>, i: nat)
    requires i < |bookings|
    ensures forall day :: (Occurrences(bookings[..i + 1], day) ==
      Occurrences(bookings[..i], day) + Occurs(DatesOf(bookings[i]), day))
  {
    assert bookings[..i + 1][..i] == bookings[..i];
  }

  /** A table with only positive entries is the histogram once its lookup
      agrees with the occurrence counts. */
  lemma HistogramFromLookup(counts: map<int, int>, bookings: seq<Booking>)
    requires forall day :: CountOrZero(counts, day) == Occurrences(bookings, day)
    requires forall day :: day in counts ==> counts[day] >= 1
    ensures counts == DailyCounts(bookings)
  {
    forall day | day in counts
      ensures 1 <= day <= 31
    {
      if day < 1 || day > 31 {
        OccurrencesOutsideMonth(bookings, day);
      }
    }
  }

  /** CountBookingsPerDay: for each booking, for each of its dates, add one to
      the counter of that date's day of month. */
  method CountBookingsPerDay(bookings: seq<Booking>) returns (dailyCounts: map<int, int>)
    ensures forall day :: CountOrZero(dailyCounts, day) == Occurrences(bookings, day)
    ensures forall day :: day in dailyCounts ==> 1 <= day <= 31 && dailyCounts[day] >= 1
    ensures dailyCounts == DailyCounts(bookings)
  {
    dailyCounts := map[];
    var i := 0;
    while i < |bookings|
      invariant 0 <= i <= |bookings|
      invariant forall day :: CountOrZero(dailyCounts, day) == Occurrences(bookings[..i], day)
      invariant forall day :: day in dailyCounts ==> 1 <= day <= 31 && dailyCounts[day] >= 1
    {
      var dates := GetAllDates(bookings[i]);
      var j := 0;
      while j < |dates|
        invariant 0 <= j <= |dates|
        invariant forall day :: CountOrZero(dailyCounts, day) == Occurrences(bookings[..i], day) + Occurs(dates[..j], day)
        invariant forall day :: day in dailyCounts ==> 1 <= day <= 31 && dailyCounts[day] >= 1
      {
        ghost var before := dailyCounts;
        var day := DayOfMonth(dates[j]);
        if day !in dailyCounts {
          dailyCounts := dailyCounts[day := 0];
        }
        dailyCounts := dailyCounts[day := dailyCounts[day] + 1];
        assert forall d :: CountOrZero(dailyCounts, d) == CountOrZero(before, d) + (if d == day then 1 else 0);
        OccursStep(dates, j);
        j := j + 1;
      }
      OccurrencesStep(bookings, i);
      assert dates[..j] == dates;
      i := i + 1;
    }
    assert bookings[..i] == bookings;
    HistogramFromLookup(dailyCounts, bookings);
  }

  /** PrintDailyCounts without the console: the count for each day 1 to
      DaysInMonth(year, month), 0 for days absent from the table. */
  method DailyCountsForMonth(dailyCounts: map<int, int>, month: int, year: int) returns (counts: seq<int>)
    requires 1 <= month <= 12 && 1 <= year <= 9999
    ensures |counts| == DaysInMonth(year, month)
    ensures forall day :: 1 <= day <= |counts| ==> counts[day - 1] == CountOrZero(dailyCounts, day)
  {
    var daysInMonth := DaysInMonth(year, month);
    counts := [];
    var day := 1;
    while day <= daysInMonth
      invariant 1 <= day <= daysInMonth + 1
      invariant |counts| == day - 1
      invariant forall d :: 1 <= d < day ==> counts[d - 1] == CountOrZero(dailyCounts, d)
    {
      var count := if day in dailyCounts then dailyCounts[day] else 0;
      counts := counts + [count];
      day := day + 1;
    }
  }

  /** Read through the lookup, the histogram gives every day of month its
      number of covering (booking, date) pairs, 0 included. */
  lemma LookupGivesOccurrences(bookings: seq<Booking>, day: int)
    ensures CountOrZero(DailyCounts(bookings), day) == Occurrences(bookings, day)
  {
    if day < 1 || day > 31 {
      OccurrencesOutsideMonth(bookings, day);
    }
  }

  /** The lookup summed over days 1 to `last`, as a month's report adds up. */
  function DayTotal(counts: map<int, int>, last: int): int
    decreases last
  {
    if last < 1 then 0 else DayTotal(counts, last - 1) + CountOrZero(counts, last)
  }

  function SumOccurs(dates: seq<Date>, last: int): nat
    decreases last
  {
    if last < 1 then 0 else SumOccurs(dates, last - 1) + Occurs(dates, last)
  }

  function SumOccurrences(bookings: seq<Booking>, last: int): nat
    decreases last
  {
    if last < 1 then 0 else SumOccurrences(bookings, last - 1) + Occurrences(bookings, last)
  }

  lemma {:induction false} DayTotalOfHistogram(bookings: seq<Booking>, last: int)
    ensures DayTotal(DailyCounts(bookings), last) == SumOccurrences(bookings, last)
    decreases last
  {
    if last >= 1 {
      DayTotalOfHistogram(bookings, last - 1);
      LookupGivesOccurrences(bookings, last);
    }
  }

  lemma {:induction false} SumOccursSnoc(dates: seq<Date>, d: Date, last: int)
    ensures SumOccurs(dates + [d], last) ==
      SumOccurs(dates, last) + (if 1 <= DayOfMonth(d) <= last then 1 else 0)
    decreases last
  {
    assert (dates + [d])[..|dates|] == dates;
    if last >= 1 {
      SumOccursSnoc(dates, d, last - 1);
    }
  }

  /** Every date lands on exactly one of the days 1 to 31. */
  lemma {:induction false} SumOccursIsLength(dates: seq<Date>)
    ensures SumOccurs(dates, 31) == |dates|
  {
    if dates == [] {
      SumOccursOfNothing(31);
    } else {
      var init, d := dates[..|dates| - 1], dates[|dates| - 1];
      assert dates == init + [d];
      SumOccursIsLength(init);
      SumOccursSnoc(init, d, 31);
    }
  }

  lemma {:induction false} SumOccursOfNothing(last: int)
    ensures SumOccurs([], last) == 0
    decreases last
  {
    if last >= 1 {
      SumOccursOfNothing(last - 1);
    }
  }

  lemma {:induction false} SumOccurrencesSnoc(bookings: seq<Booking>, last: int)
    requires bookings != []
    ensures SumOccurrences(bookings, last) ==
      SumOccurrences(bookings[..|bookings| - 1], last) + SumOccurs(DatesOf(bookings[|bookings| - 1]), last)
    decreases last
  {
    if last >= 1 {
      SumOccurrencesSnoc(bookings, last - 1);
    }
  }

  /** The histogram's counts add up to the bookings' total length: each
      (booking, date) pair is counted once, under one day of month. */
  lemma {:induction false} HistogramTotal(bookings: seq<Booking>)
    ensures DayTotal(DailyCounts(bookings), 31) == TotalLength(bookings)
  {
    DayTotalOfHistogram(bookings, 31);
    SumOccurrencesIsTotalLength(bookings);
  }

  lemma {:induction false} SumOccurrencesIsTotalLength(bookings: seq<Booking>)
    ensures SumOccurrences(bookings, 31) == TotalLength(bookings)
  {
    if bookings == [] {
      assert forall last :: SumOccurrences([], last) == 0 by {
        forall last ensures SumOccurrences([], last) == 0 {
          SumOccurrencesOfNothing(last);
        }
      }
    } else {
      SumOccurrencesSnoc(bookings, 31);
      SumOccurrencesIsTotalLength(bookings[..|bookings| - 1]);
      SumOccursIsLength(DatesOf(bookings[|bookings| - 1]));
    }
  }

  lemma {:induction false} SumOccurrencesOfNothing(last: int)
    ensures SumOccurrences([], last) == 0
    decreases last
  {
    if last >= 1 {
      SumOccurrencesOfNothing(last - 1);
    }
  }

  lemma {:induction false} OccurrencesAppend(a: seq<Booking>, b: seq<Booking>, day: int)
    ensures Occurrences(a + b, day) == Occurrences(a, day) + Occurrences(b, day)
    decreases |b|
  {
    if b == [] {
      assert a + b == a;
    } else {
      assert (a + b)[..|a + b| - 1] == a + b[..|b| - 1];
      OccurrencesAppend(a, b[..|b| - 1], day);
    }
  }

  /** The order of the bookings does not matter to any count. */
  lemma {:induction false} OccurrencesPermutation(a: seq<Booking>, b: seq<Booking>, day: int)
    requires multiset(a) == multiset(b)
    ensures Occurrences(a, day) == Occurrences(b, day)
    decreases |a|
  {
    if a == [] {
      assert |b| == |multiset(b)| == 0;
    } else {
      var x := a[|a| - 1];
      assert x in multiset(b);
      var i :| 0 <= i < |b| && b[i] == x;
      var rest := b[..i] + b[i + 1..];
      assert b == b[..i] + [x] + b[i + 1..];
      assert a == a[..|a| - 1] + [x];
      assert multiset(a) == multiset(a[..|a| - 1]) + multiset{x};
      assert multiset(b) == multiset(b[..i]) + multiset{x} + multiset(b[i + 1..]);
      assert multiset(rest) == multiset(b[..i]) + multiset(b[i + 1..]);
      assert multiset(a[..|a| - 1]) == multiset(a) - multiset{x};
      assert multiset(rest) == multiset(b) - multiset{x};
      OccurrencesPermutation(a[..|a| - 1], rest, day);
      OccurrencesAppend(b[..i] + [x], b[i + 1..], day);
      OccurrencesAppend(b[..i], [x], day);
      OccurrencesAppend(b[..i], b[i + 1..], day);
      assert Occurrences([x], day) == Occurs(DatesOf(x), day) by {
        assert [x][..0] == [];
      }
    }
  }

  /** CountBookingsPerDay returns the same table for every ordering of its
      input. */
  lemma HistogramPermutation(a: seq<Booking>, b: seq<Booking>)
    requires multiset(a) == multiset(b)
    ensures DailyCounts(a) == DailyCounts(b)
  {
    forall day ensures Occurrences(a, day) == Occurrences(b, day) {
      OccurrencesPermutation(a, b, day);
    }
  }
}
