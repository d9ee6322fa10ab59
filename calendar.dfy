/** The proleptic Gregorian calendar as .NET's DateTime sees it, reduced to
    whole days. A date is the number of days since 0001-01-01, so that
    DateTime.AddDays(1) is `+ 1` and DateTime.Day is `DayOfMonth`. */
module Calendar {

  /** A date without a time of day: days elapsed since 0001-01-01. */
  type Date = nat

  /** Year, month (1-12) and day of month of a date. */
  datatype CivilDate = CivilDate(year: int, month: int, day: int)

  predicate IsLeapYear(year: int) {
    year % 4 == 0 && (year % 100 != 0 || year % 400 == 0)
  }

  function DaysInYear(year: int): int {
    if IsLeapYear(year) then 366 else 365
  }

  /** DateTime.DaysInMonth for a month in 1..12. */
  function DaysInMonth(year: int, month: int): (n: int)
    requires 1 <= month <= 12
    ensures 28 <= n <= 31
    ensures n == 29 <==> month == 2 && IsLeapYear(year)
  {
    if month == 2 then (if IsLeapYear(year) then 29 else 28)
    else if month == 4 || month == 6 || month == 9 || month == 11 then 30
    else 31
  }

  /** Days in the months `month` through December of `year`. */
  function DaysFrom(year: int, month: int): (n: int)
    requires 1 <= month <= 12
    ensures n >= 28 * (13 - month)
    decreases 12 - month
  {
    if month == 12 then DaysInMonth(year, 12)
    else DaysInMonth(year, month) + DaysFrom(year, month + 1)
  }

  /** The twelve month lengths add up to the length of the year. */
  lemma MonthsFillYear(year: int)
    ensures DaysFrom(year, 1) == DaysInYear(year)
  {
    assert DaysFrom(year, 10) == 92;
    assert DaysFrom(year, 7) == 92 + DaysFrom(year, 10);
    assert DaysFrom(year, 3) == 122 + DaysFrom(year, 7);
  }

  predicate ValidCivil(c: CivilDate) {
    1 <= c.year && 1 <= c.month <= 12 && 1 <= c.day <= DaysInMonth(c.year, c.month)
  }

  /** Skips whole years from the start of `year` while `rest` days remain;
      yields the year reached and the zero-based day within it. */
  function YearWalk(year: int, rest: nat): (r: (int, nat))
    ensures year <= r.0 && r.1 < DaysInYear(r.0)
    decreases rest
  {
    if rest < DaysInYear(year) then (year, rest)
    else YearWalk(year + 1, rest - DaysInYear(year))
  }

  /** Skips whole months from the start of `month` while `rest` days remain;
      yields the month reached and the one-based day within it. */
  function MonthWalk(year: int, month: int, rest: nat): (r: (int, int))
    requires 1 <= month <= 12 && rest < DaysFrom(year, month)
    ensures month <= r.0 <= 12 && 1 <= r.1 <= DaysInMonth(year, r.0)
    decreases 12 - month
  {
    if rest < DaysInMonth(year, month) then (month, rest + 1)
    else MonthWalk(year, month + 1, rest - DaysInMonth(year, month))
  }

  /** The calendar date of a day ordinal. */
  function ToCivil(d: Date): (c: CivilDate)
    ensures ValidCivil(c)
  {
    var (year, dayOfYear) := YearWalk(1, d);
    MonthsFillYear(year);
    var (month, day) := MonthWalk(year, 1, dayOfYear);
    CivilDate(year, month, day)
  }

  /** DateTime.Day: the day of the month, 1 to 31. */
  function DayOfMonth(d: Date): (day: int)
    ensures 1 <= day <= 31
    ensures day <= DaysInMonth(ToCivil(d).year, ToCivil(d).month)
  {
    ToCivil(d).day
  }

  /** The calendar day after `c`: the next day of the month, else the first
      of the next month, else New Year's Day. */
  function NextCivil(c: CivilDate): CivilDate
    requires ValidCivil(c)
  {
    if c.day < DaysInMonth(c.year, c.month) then CivilDate(c.year, c.month, c.day + 1)
    else if c.month < 12 then CivilDate(c.year, c.month + 1, 1)
    else CivilDate(c.year + 1, 1, 1)
  }

  /** Calendar order: by year, then month, then day. */
  predicate CivilBefore(a: CivilDate, b: CivilDate) {
    a.year < b.year
    || (a.year == b.year && a.month < b.month)
    || (a.year == b.year && a.month == b.month && a.day < b.day)
  }

  lemma {:induction false} YearWalkNext(year: int, rest: nat)
    ensures YearWalk(year, rest + 1) ==
      (var (y, q) := YearWalk(year, rest);
       if q + 1 < DaysInYear(y) then (y, q + 1) else (y + 1, 0))
    decreases rest
  {
    if rest >= DaysInYear(year) {
      YearWalkNext(year + 1, rest - DaysInYear(year));
    }
  }

  lemma {:induction false} MonthWalkNext(year: int, month: int, rest: nat)
    requires 1 <= month <= 12 && rest + 1 < DaysFrom(year, month)
    ensures MonthWalk(year, month, rest + 1) ==
      (var (m, d) := MonthWalk(year, month, rest);
       if d < DaysInMonth(year, m) then (m, d + 1) else (m + 1, 1))
    decreases 12 - month
  {
    if rest >= DaysInMonth(year, month) {
      MonthWalkNext(year, month + 1, rest - DaysInMonth(year, month));
    }
  }

  lemma {:induction false} MonthWalkLast(year: int, month: int, rest: nat)
    requires 1 <= month <= 12 && rest + 1 == DaysFrom(year, month)
    ensures MonthWalk(year, month, rest) == (12, DaysInMonth(year, 12))
    decreases 12 - month
  {
    if month < 12 {
      MonthWalkLast(year, month + 1, rest - DaysInMonth(year, month));
    }
  }

  /** AddDays(1) steps exactly one calendar day, across month and year ends. */
  lemma AddOneDay(d: Date)
    ensures ToCivil(d + 1) == NextCivil(ToCivil(d))
  {
    var (y, q) := YearWalk(1, d);
    YearWalkNext(1, d);
    MonthsFillYear(y);
    if q + 1 < DaysInYear(y) {
      MonthWalkNext(y, 1, q);
    } else {
      MonthWalkLast(y, 1, q);
      MonthsFillYear(y + 1);
    }
  }

  /** Later ordinals are later calendar dates; in particular ToCivil is
      one-to-one. */
  lemma {:induction false} ToCivilMonotone(d: Date, e: Date)
    requires d < e
    ensures CivilBefore(ToCivil(d), ToCivil(e))
    decreases e - d
  {
    AddOneDay(e - 1);
    if d < e - 1 {
      ToCivilMonotone(d, e - 1);
    }
  }

  /** Two different dates of the same month have different days of month. */
  lemma SameMonthDistinctDays(d: Date, e: Date)
    requires d < e
    requires ToCivil(d).year == ToCivil(e).year && ToCivil(d).month == ToCivil(e).month
    ensures DayOfMonth(d) < DayOfMonth(e)
  {
    ToCivilMonotone(d, e);
  }

  /** Day 0 is 1 January of year 1. */
  lemma EpochIsFirstOfJanuaryYearOne()
    ensures ToCivil(0) == CivilDate(1, 1, 1)
  {
    MonthsFillYear(1);
  }

  /** Days in the `count` years starting with `year`. */
  function DaysInYears(year: int, count: nat): nat
    decreases count
  {
    if count == 0 then 0 else DaysInYear(year) + DaysInYears(year + 1, count - 1)
  }

  lemma {:induction false} DaysInYearsSnoc(year: int, count: nat)
    ensures DaysInYears(year, count + 1) == DaysInYears(year, count) + DaysInYear(year + count)
    decreases count
  {
    if count > 0 {
      DaysInYearsSnoc(year + 1, count - 1);
    }
  }

  /** The years before `year` + 1 hold 365 days each plus one per leap year:
      every fourth, less every hundredth, plus every four hundredth. */
  lemma {:induction false} DaysBeforeYear(count: nat)
    ensures DaysInYears(1, count) == 365 * count + count / 4 - count / 100 + count / 400
  {
    if count > 0 {
      var n := count - 1;
      DaysBeforeYear(n);
      DaysInYearsSnoc(1, n);
      assert DaysInYears(1, count) == DaysInYears(1, n) + DaysInYear(count);
      LeapCountStep(count);
    }
  }

  lemma LeapCountStep(c: int)
    requires c >= 1
    ensures (c / 4 - c / 100 + c / 400) - ((c - 1) / 4 - (c - 1) / 100 + (c - 1) / 400)
      == if IsLeapYear(c) then 1 else 0
  {
    DivisionStep(c);
    Divisibility(c);
  }

  lemma Divisibility(c: int)
    ensures c % 400 == 0 ==> c % 100 == 0
    ensures c % 100 == 0 ==> c % 4 == 0
  {
    if c % 400 == 0 {
      var q := c / 400;
      assert c == 100 * (4 * q);
    }
    if c % 100 == 0 {
      var q := c / 100;
      assert c == 4 * (25 * q);
    }
  }

  /** Splits the leap-year count step per divisor, which keeps each
      division fact a separate, small obligation. */
  lemma DivisionStep(c: int)
    requires c >= 1
    ensures c / 4 - (c - 1) / 4 == if c % 4 == 0 then 1 else 0
    ensures c / 100 - (c - 1) / 100 == if c % 100 == 0 then 1 else 0
    ensures c / 400 - (c - 1) / 400 == if c % 400 == 0 then 1 else 0
  {
  }

  lemma {:induction false} YearWalkSkip(year: int, count: nat, rest: nat)
    requires rest < DaysInYear(year + count)
    ensures YearWalk(year, DaysInYears(year, count) + rest) == (year + count, rest)
    decreases count
  {
    if count > 0 {
      YearWalkSkip(year + 1, count - 1, rest);
    }
  }

  /** New Year's Day of `year` falls on the ordinal counting the days of all
      earlier years. */
  lemma NewYearsDay(year: int)
    requires year >= 1
    ensures var n := year - 1; ToCivil(365 * n + n / 4 - n / 100 + n / 400) == CivilDate(year, 1, 1)
  {
    DaysBeforeYear(year - 1);
    YearWalkSkip(1, year - 1, 0);
    MonthsFillYear(year);
  }
}
