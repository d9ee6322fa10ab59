/** Worked examples of the merge and the constructor, for a booking list that
    starts on an arbitrary day `s` (day s is "the 1st"). */
module Scenarios {
  import opened Calendar
  import opened Bookings
  import opened DayCounts
  import opened Merge

  /** Overlapping bookings (1st-5th, 4th-10th) merge into 1st-10th. */
  lemma OverlappingMerge(s: Date)
    ensures Merged([DateRange(s, s + 4), DateRange(s + 3, s + 9)]) == [DateRange(s, s + 9)]
  {
    var x, y := DateRange(s, s + 4), DateRange(s + 3, s + 9);
    assert SortByStart([x, y]) == [x, y] by {
      assert [x, y][1..] == [y];
      assert [y][1..] == [];
    }
    assert [x, y][..1] == [x];
    assert [x][..0] == [];
    assert Sweep([x]) == [x];
    assert Sweep([x, y]) == Absorb([x], y);
  }

  /** Bookings two free days apart (1st-2nd, 5th-6th) stay apart. */
  lemma SeparateBookingsStay(s: Date)
    ensures Merged([DateRange(s, s + 1), DateRange(s + 4, s + 5)]) == [DateRange(s, s + 1), DateRange(s + 4, s + 5)]
  {
    MergeFixpoint([DateRange(s, s + 1), DateRange(s + 4, s + 5)]);
  }

  /** Bookings that touch (1st-2nd, 3rd-4th) merge into 1st-4th: a booking
      starting the day after another ends joins it. */
  lemma AdjacentMerge(s: Date)
    ensures Merged([DateRange(s, s + 1), DateRange(s + 2, s + 3)]) == [DateRange(s, s + 3)]
  {
    var x, y := DateRange(s, s + 1), DateRange(s + 2, s + 3);
    assert SortByStart([x, y]) == [x, y] by {
      assert [x, y][1..] == [y];
      assert [y][1..] == [];
    }
    assert [x, y][..1] == [x];
    assert [x][..0] == [];
    assert Sweep([x]) == [x];
    assert Sweep([x, y]) == Absorb([x], y);
  }

  /** With one free day between them (1st-2nd, 4th-5th) bookings stay apart. */
  lemma OneDayGapStays(s: Date)
    ensures Merged([DateRange(s, s + 1), DateRange(s + 3, s + 4)]) == [DateRange(s, s + 1), DateRange(s + 3, s + 4)]
  {
    MergeFixpoint([DateRange(s, s + 1), DateRange(s + 3, s + 4)]);
  }

  /** The first 28 days of a month are numbered 1 to 28 in order. */
  lemma {:induction false} MonthRun(s: Date, k: nat)
    requires DayOfMonth(s) == 1 && k < 28
    ensures ToCivil(s + k) == CivilDate(ToCivil(s).year, ToCivil(s).month, k + 1)
  {
    if k > 0 {
      MonthRun(s, k - 1);
      AddOneDay(s + k - 1);
    }
  }

  /** A booking from day a + 1 to day b + 1 of a month covers day `day` once
      when it lies in that range, else not at all. */
  lemma {:induction false} OccursInRun(s: Date, a: nat, b: nat, day: int)
    requires DayOfMonth(s) == 1 && a <= b < 28
    ensures Occurs(DatesOf(DateRange(s + a, s + b)), day) == if a + 1 <= day <= b + 1 then 1 else 0
    decreases b - a
  {
    var dates := DatesOf(DateRange(s + a, s + b));
    MonthRun(s, b);
    if a < b {
      OccursInRun(s, a, b - 1, day);
      assert dates[..|dates| - 1] == DatesOf(DateRange(s + a, s + b - 1));
    } else {
      assert dates[..0] == [];
    }
  }

  /** Bookings 1st-5th and 4th-10th of a month: the per-day table counts the
      4th and the 5th twice and the other eight days once. Every other day
      reads 0. */
  lemma OverlapCountedTwice(s: Date, day: int)
    requires DayOfMonth(s) == 1
    ensures CountOrZero(DailyCounts([DateRange(s, s + 4), DateRange(s + 3, s + 9)]), day) ==
      if day == 4 || day == 5 then 2 else if 1 <= day <= 10 then 1 else 0
  {
    var x: Booking, y: Booking := DateRange(s, s + 4), DateRange(s + 3, s + 9);
    assert [x, y][..1] == [x];
    assert [x][..0] == [];
    assert Occurrences([x, y], day) == Occurrences([x], day) + Occurs(DatesOf(y), day);
    assert Occurrences([x], day) == Occurs(DatesOf(x), day);
    OccursInRun(s, 0, 4, day);
    OccursInRun(s, 3, 9, day);
    LookupGivesOccurrences([x, y], day);
  }

  /** A single booking of the 1st to the 10th counts each of those days once. */
  lemma SingleRunCountedOnce(s: Date, day: int)
    requires DayOfMonth(s) == 1
    ensures CountOrZero(DailyCounts([DateRange(s, s + 9)]), day) == if 1 <= day <= 10 then 1 else 0
  {
    var z: Booking := DateRange(s, s + 9);
    assert [z][..0] == [];
    assert Occurrences([z], day) == Occurs(DatesOf(z), day);
    OccursInRun(s, 0, 9, day);
    LookupGivesOccurrences([z], day);
  }

  /** The same bookings merged: each of the ten days counts once, every
      other day reads 0. */
  lemma MergedCountedOnce(s: Date, day: int)
    requires DayOfMonth(s) == 1
    ensures CountOrZero(DailyCounts(Merged([DateRange(s, s + 4), DateRange(s + 3, s + 9)])), day) ==
      if 1 <= day <= 10 then 1 else 0
  {
    OverlappingMerge(s);
    SingleRunCountedOnce(s, day);
  }

  /** No bookings: an empty table and nothing merged. */
  lemma EmptyInput()
    ensures DailyCounts([]) == map[] && Merged([]) == []
  {
  }

  /** 10th to 1st is refused as an inverted range. */
  lemma InvertedRangeRefused(s: Date)
    ensures NewBooking(s + 9, s) == Failure(InvertedRange)
  {
  }
}
