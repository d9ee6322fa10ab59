/** BookingAnalyzer.MergeOverlappingBookings: sort by start date, then sweep
    left to right, folding each booking into the last merged one when it
    overlaps it or starts the day after it ends. */
module Merge {
  import opened Calendar
  import opened Bookings

  predicate SortedByStart(bookings: seq<Booking>) {
    forall i, j :: 0 <= i < j < |bookings| ==> bookings[i].startDate <= bookings[j].startDate
  }

  /** Each booking ends at least one free day before the next one starts:
      no two of them overlap or touch. */
  predicate Separated(bookings: seq<Booking>) {
    forall i :: 0 <= i < |bookings| - 1 ==> bookings[i].endDate + 1 < bookings[i + 1].startDate
  }

  /** Some booking in the list contains day `d`. */
  predicate Covers(bookings: seq<Booking>, d: int) {
    exists i :: 0 <= i < |bookings| && bookings[i].Contains(d)
  }

  ghost predicate SameCoverage(a: seq<Booking>, b: seq<Booking>) {
    forall d :: Covers(a, d) <==> Covers(b, d)
  }

  // ---------------------------------------------------------------------
  // OrderBy(b => b.StartDate), as a stable insertion sort

  /** Puts `b` before the first booking that starts no earlier than it. */
  function Insert(b: Booking, sorted: seq<Booking>): (r: seq<Booking>)
    requires SortedByStart(sorted)
    ensures SortedByStart(r)
    ensures multiset(r) == multiset(sorted) + multiset{b}
  {
    if sorted == [] || b.startDate <= sorted[0].startDate then [b] + sorted
    else
      var rest := Insert(b, sorted[1..]);
      assert sorted == [sorted[0]] + sorted[1..];
      assert forall i :: 0 <= i < |rest| ==> sorted[0].startDate <= rest[i].startDate by {
        forall i | 0 <= i < |rest| ensures sorted[0].startDate <= rest[i].startDate {
          assert rest[i] in multiset(sorted[1..]) + multiset{b};
        }
      }
      [sorted[0]] + rest
  }

  /** The bookings ordered by start date. */
  function SortByStart(bookings: seq<Booking>): (sorted: seq<Booking>)
    ensures SortedByStart(sorted)
    ensures multiset(sorted) == multiset(bookings)
  {
    if bookings == [] then []
    else
      assert bookings == [bookings[0]] + bookings[1..];
      Insert(bookings[0], SortByStart(bookings[1..]))
  }

  // ---------------------------------------------------------------------
  // The sweep

  /** Whether `current` is folded into `last`: it starts no later than the
      day after `last` ends. For a `current` starting no earlier than `last`,
      that is exactly when the two leave no free day between them. */
  function Touches(last: Booking, current: Booking): (t: bool)
    ensures last.startDate <= current.startDate ==>
      (t <==> forall d :: last.startDate <= d <= current.endDate ==> last.Contains(d) || current.Contains(d))
  {
    var t := current.startDate <= last.endDate + 1;
    assert !t ==> !last.Contains(last.endDate + 1) && !current.Contains(last.endDate + 1);
    t
  }

  /** One step of the sweep: widen the last merged booking to cover
      `current`, keeping its start, or append exactly `current` after it. The
      bookings before the last are never changed, and the last merged
      booking then reaches at least as far as `current` and as the old last. */
  function Absorb(merged: seq<Booking>, current: Booking): (r: seq<Booking>)
    ensures 0 < |r| && |merged| <= |r| <= |merged| + 1
    ensures merged != [] ==> r[..|merged| - 1] == merged[..|merged| - 1]
    ensures current.endDate <= r[|r| - 1].endDate
    ensures merged != [] ==> merged[|merged| - 1].endDate <= r[|r| - 1].endDate
    ensures merged == [] ==> r == [current]
    ensures merged != [] ==> var last := merged[|merged| - 1];
      (Touches(last, current) ==> |r| == |merged| && r[|r| - 1].startDate == last.startDate)
      && (!Touches(last, current) ==> r == merged + [current])
  {
    if merged == [] then [current]
    else
      var last := merged[|merged| - 1];
      if Touches(last, current) then
        var widened: Booking := DateRange(last.startDate, if last.endDate > current.endDate then last.endDate else current.endDate);
        merged[..|merged| - 1] + [widened]
      else merged + [current]
  }

  /** The sweep over a whole sorted list: never more bookings than it was
      given, none only for no input, and the last one ends no earlier than
      any booking of the input. */
  function Sweep(sorted: seq<Booking>): (r: seq<Booking>)
    ensures |r| <= |sorted|
    ensures r == [] <==> sorted == []
    ensures forall i :: 0 <= i < |sorted| ==> sorted[i].endDate <= r[|r| - 1].endDate
  {
    if sorted == [] then []
    else
      var init := sorted[..|sorted| - 1];
      assert forall i :: 0 <= i < |init| ==> init[i] == sorted[i];
      Absorb(Sweep(init), sorted[|sorted| - 1])
  }

  /** What MergeOverlappingBookings returns: no more bookings than the input,
      none only for no input, the last one ending on or after every input
      booking's end. */
  function Merged(bookings: seq<Booking>): (r: seq<Booking>)
    ensures |r| <= |bookings|
    ensures r == [] <==> bookings == []
    ensures forall i :: 0 <= i < |bookings| ==> bookings[i].endDate <= r[|r| - 1].endDate
  {
    var sorted := SortByStart(bookings);
    assert |sorted| == |multiset(sorted)| == |bookings|;
    assert forall i :: 0 <= i < |bookings| ==> bookings[i] in sorted by {
      forall i | 0 <= i < |bookings| ensures bookings[i] in sorted {
        assert bookings[i] in multiset(sorted);
      }
    }
    Sweep(sorted)
  }

  /** The sweep of a prefix one longer is one more sweep step. */
  lemma SweepSnoc(sorted: seq<Booking>, i: nat)
    requires i < |sorted|
    ensures Sweep(sorted[..i + 1]) == Absorb(Sweep(sorted[..i]), sorted[i])
  {
    assert sorted[..i + 1][..i] == sorted[..i];
  }

  // ---------------------------------------------------------------------
  // Coverage of lists

  lemma CoversSnoc(bookings: seq<Booking>, x: Booking, d: int)
    ensures Covers(bookings + [x], d) <==> Covers(bookings, d) || x.Contains(d)
  {
    if Covers(bookings, d) {
      var i :| 0 <= i < |bookings| && bookings[i].Contains(d);
      assert (bookings + [x])[i] == bookings[i];
    }
    if x.Contains(d) {
      assert (bookings + [x])[|bookings|] == x;
    }
    if Covers(bookings + [x], d) {
      var i :| 0 <= i < |bookings + [x]| && (bookings + [x])[i].Contains(d);
      if i < |bookings| {
        assert bookings[i] == (bookings + [x])[i];
      }
    }
  }

  /** Lists that hold the same bookings cover the same days. */
  lemma CoversPermutation(a: seq<Booking>, b: seq<Booking>)
    requires multiset(a) == multiset(b)
    ensures SameCoverage(a, b)
  {
    forall d | Covers(a, d) ensures Covers(b, d) {
      var i :| 0 <= i < |a| && a[i].Contains(d);
      assert a[i] in multiset(b);
    }
    forall d | Covers(b, d) ensures Covers(a, d) {
      var i :| 0 <= i < |b| && b[i].Contains(d);
      assert b[i] in multiset(a);
    }
  }

  // ---------------------------------------------------------------------
  // What the sweep keeps

  /** One sweep step keeps the merged list separated and adds exactly the
      days of `current` to what it covers, provided `current` starts no
      earlier than the last merged booking. */
  lemma AbsorbStep(merged: seq<Booking>, current: Booking)
    requires Separated(merged)
    requires merged != [] ==> merged[|merged| - 1].startDate <= current.startDate
    ensures Separated(Absorb(merged, current))
    ensures 0 < |Absorb(merged, current)| <= |merged| + 1
    ensures Absorb(merged, current)[|Absorb(merged, current)| - 1].startDate <= current.startDate
    ensures forall d :: Covers(Absorb(merged, current), d) <==> Covers(merged, d) || current.Contains(d)
  {
    var r := Absorb(merged, current);
    if merged == [] {
      forall d ensures Covers(r, d) <==> current.Contains(d) {
        CoversSnoc([], current, d);
      }
    } else {
      var front, last := merged[..|merged| - 1], merged[|merged| - 1];
      assert merged == front + [last];
      forall d ensures Covers(merged, d) <==> Covers(front, d) || last.Contains(d) {
        CoversSnoc(front, last, d);
      }
      if Touches(last, current) {
        var widened := r[|r| - 1];
        assert r == front + [widened];
        forall d ensures Covers(r, d) <==> Covers(front, d) || widened.Contains(d) {
          CoversSnoc(front, widened, d);
        }
      } else {
        forall d ensures Covers(r, d) <==> Covers(merged, d) || current.Contains(d) {
          CoversSnoc(merged, current, d);
        }
      }
    }
  }

  /** Over a list sorted by start, the sweep yields separated bookings that
      cover exactly the input's days, no more of them than the input has, and
      none exactly when the input is empty. */
  lemma {:induction false} SweepInvariant(sorted: seq<Booking>)
    requires SortedByStart(sorted)
    ensures Separated(Sweep(sorted))
    ensures |Sweep(sorted)| <= |sorted|
    ensures Sweep(sorted) == [] <==> sorted == []
    ensures sorted != [] ==> Sweep(sorted)[|Sweep(sorted)| - 1].startDate <= sorted[|sorted| - 1].startDate
    ensures SameCoverage(Sweep(sorted), sorted)
  {
    if sorted != [] {
      var init, current := sorted[..|sorted| - 1], sorted[|sorted| - 1];
      assert sorted == init + [current];
      assert SortedByStart(init) by {
        forall i, j | 0 <= i < j < |init| ensures init[i].startDate <= init[j].startDate {
          assert init[i] == sorted[i] && init[j] == sorted[j];
        }
      }
      SweepInvariant(init);
      var m := Sweep(init);
      assert Sweep(sorted) == Absorb(m, current);
      assert init != [] ==> m[|m| - 1].startDate <= current.startDate by {
        if init != [] {
          assert init[|init| - 1] == sorted[|sorted| - 2];
        }
      }
      forall d ensures Covers(sorted, d) <==> Covers(init, d) || current.Contains(d) {
        CoversSnoc(init, current, d);
      }
      AbsorbStep(m, current);
    }
  }

  // ---------------------------------------------------------------------
  // MergeOverlappingBookings

  /** MergeOverlappingBookings: no bookings give none; otherwise the sorted
      bookings are swept into separated, sorted bookings covering exactly the
      same days, never more of them than there were to begin with. */
  method MergeOverlappingBookings(bookings: seq<Booking>) returns (merged: seq<Booking>)
    ensures merged == Merged(bookings)
    ensures bookings == [] ==> merged == []
    ensures bookings != [] ==> 0 < |merged| <= |bookings|
    ensures SortedByStart(merged) && Separated(merged)
    ensures SameCoverage(merged, bookings)
  {
    if |bookings| == 0 {
      return [];
    }
    var sortedBookings := SortByStart(bookings);
    merged := [sortedBookings[0]];
    SweepSnoc(sortedBookings, 0);
    var i := 1;
    while i < |sortedBookings|
      invariant 1 <= i <= |sortedBookings|
      invariant merged == Sweep(sortedBookings[..i])
    {
      var lastMerged := merged[|merged| - 1];
      var current := sortedBookings[i];
      SweepSnoc(sortedBookings, i);
      ghost var before := merged;
      if current.startDate <= lastMerged.endDate + 1 {
        var newEndDate := if lastMerged.endDate > current.endDate then lastMerged.endDate else current.endDate;
        var widened := NewBooking(lastMerged.startDate, newEndDate);
        assert widened.Success?;
        merged := merged[..|merged| - 1] + [widened.value];
        assert Touches(lastMerged, current);
      } else {
        merged := merged + [current];
        assert !Touches(lastMerged, current);
      }
      assert merged == Absorb(before, current);
      i := i + 1;
    }
    assert sortedBookings[..i] == sortedBookings;
    MergedIsCanonical(bookings);
  }

  // ---------------------------------------------------------------------
  // The merged list is the one canonical form of a set of days

  lemma {:induction false} SeparatedPair(bookings: seq<Booking>, i: int, j: int)
    requires Separated(bookings) && 0 <= i < j < |bookings|
    ensures bookings[i].endDate + 1 < bookings[j].startDate
    decreases j - i
  {
    if i + 1 < j {
      SeparatedPair(bookings, i, j - 1);
    }
  }

  /** Separated bookings are sorted by start. */
  lemma SeparatedIsSorted(bookings: seq<Booking>)
    requires Separated(bookings)
    ensures SortedByStart(bookings)
  {
    forall i, j | 0 <= i < j < |bookings| ensures bookings[i].startDate <= bookings[j].startDate {
      SeparatedPair(bookings, i, j);
    }
  }

  /** In a separated list the first booking starts the covered days, ends
      before the first uncovered day, and the rest cover what lies after it. */
  lemma SeparatedHead(bookings: seq<Booking>)
    requires Separated(bookings) && bookings != []
    ensures forall d :: Covers(bookings, d) ==> bookings[0].startDate <= d
    ensures forall d :: bookings[0].Contains(d) ==> Covers(bookings, d)
    ensures !Covers(bookings, bookings[0].endDate + 1)
    ensures forall d :: Covers(bookings[1..], d) <==> Covers(bookings, d) && d > bookings[0].endDate
  {
    forall j | 0 < j < |bookings| ensures bookings[0].endDate + 1 < bookings[j].startDate {
      SeparatedPair(bookings, 0, j);
    }
    forall d | bookings[0].Contains(d) ensures Covers(bookings, d) {
      assert bookings[0].Contains(d);
    }
    forall d | Covers(bookings[1..], d) ensures Covers(bookings, d) {
      var i :| 0 <= i < |bookings[1..]| && bookings[1..][i].Contains(d);
      assert bookings[i + 1].Contains(d);
    }
    forall d | Covers(bookings, d) && d > bookings[0].endDate ensures Covers(bookings[1..], d) {
      var i :| 0 <= i < |bookings| && bookings[i].Contains(d);
      assert bookings[1..][i - 1].Contains(d);
    }
  }

  /** Two separated lists that cover the same days are the same list. */
  lemma {:induction false} CanonicalUnique(a: seq<Booking>, b: seq<Booking>)
    requires Separated(a) && Separated(b)
    requires SameCoverage(a, b)
    ensures a == b
    decreases |a|
  {
    if a != [] {
      assert a[0].Contains(a[0].startDate);
      assert Covers(a, a[0].startDate);
    }
    if b != [] {
      assert b[0].Contains(b[0].startDate);
      assert Covers(b, b[0].startDate);
    }
    if a != [] && b != [] {
      SeparatedHead(a);
      SeparatedHead(b);
      assert a[0].startDate == b[0].startDate;
      assert a[0].endDate == b[0].endDate;
      CanonicalUnique(a[1..], b[1..]);
      assert a == [a[0]] + a[1..];
      assert b == [b[0]] + b[1..];
    }
  }

  /** Merged(bookings) is separated, sorted and covers the bookings' days. */
  lemma MergedIsCanonical(bookings: seq<Booking>)
    ensures Separated(Merged(bookings)) && SortedByStart(Merged(bookings))
    ensures SameCoverage(Merged(bookings), bookings)
    ensures |Merged(bookings)| <= |bookings|
    ensures Merged(bookings) == [] <==> bookings == []
  {
    var sorted := SortByStart(bookings);
    SweepInvariant(sorted);
    SeparatedIsSorted(Merged(bookings));
    CoversPermutation(sorted, bookings);
    assert |sorted| == |multiset(sorted)| == |bookings|;
  }

  /** The merge depends on the set of covered days alone: any two inputs
      covering the same days merge to the same list. */
  lemma MergeDependsOnlyOnCoverage(a: seq<Booking>, b: seq<Booking>)
    requires SameCoverage(a, b)
    ensures Merged(a) == Merged(b)
  {
    MergedIsCanonical(a);
    MergedIsCanonical(b);
    CanonicalUnique(Merged(a), Merged(b));
  }

  /** Any start-sorted arrangement of the bookings sweeps to the merge, so
      how a sort orders bookings with equal starts does not matter. */
  lemma SweepAnySort(bookings: seq<Booking>, s: seq<Booking>)
    requires SortedByStart(s) && multiset(s) == multiset(bookings)
    ensures Sweep(s) == Merged(bookings)
  {
    SweepInvariant(s);
    CoversPermutation(s, bookings);
    MergedIsCanonical(bookings);
    CanonicalUnique(Sweep(s), Merged(bookings));
  }

  /** Reordering the input does not change the merge. */
  lemma MergePermutation(a: seq<Booking>, b: seq<Booking>)
    requires multiset(a) == multiset(b)
    ensures Merged(a) == Merged(b)
  {
    CoversPermutation(a, b);
    MergeDependsOnlyOnCoverage(a, b);
  }

  /** A separated list is already merged. */
  lemma MergeFixpoint(bookings: seq<Booking>)
    requires Separated(bookings)
    ensures Merged(bookings) == bookings
  {
    MergedIsCanonical(bookings);
    CanonicalUnique(Merged(bookings), bookings);
  }

  /** Merging twice is merging once. */
  lemma MergeIdempotent(bookings: seq<Booking>)
    ensures Merged(Merged(bookings)) == Merged(bookings)
  {
    MergedIsCanonical(bookings);
    MergeFixpoint(Merged(bookings));
  }
}
