/** Proleptic Gregorian calendar dates, their day numbers, and the
    days-to-expiry count shown next to each contract. */
module Calendar {

  datatype Date = Date(year: int, month: int, day: int)

  predicate IsLeapYear(y: int)
  {
    y % 4 == 0 && (y % 100 != 0 || y % 400 == 0)
  }

  function DaysInYear(y: int): int
  {
    if IsLeapYear(y) then 366 else 365
  }

  function DaysInMonth(y: int, m: int): int
    requires 1 <= m <= 12
  {
    if m == 2 then (if IsLeapYear(y) then 29 else 28)
    else if m == 4 || m == 6 || m == 9 || m == 11 then 30
    else 31
  }

  predicate ValidDate(d: Date)
  {
    1 <= d.month <= 12 && 1 <= d.day <= DaysInMonth(d.year, d.month)
  }

  /** Days from 1970-01-01 to the first of January of year `y`. */
  function DaysBeforeYear(y: int): int
    decreases if y < 1970 then 1970 - y else y - 1970
  {
    if y == 1970 then 0
    else if y > 1970 then DaysBeforeYear(y - 1) + DaysInYear(y - 1)
    else DaysBeforeYear(y + 1) - DaysInYear(y)
  }

  /** Days from the first of January to the first of month `m`. */
  function DaysBeforeMonth(y: int, m: int): (n: nat)
    requires 1 <= m <= 12
    decreases m
  {
    if m == 1 then 0 else DaysBeforeMonth(y, m - 1) + DaysInMonth(y, m - 1)
  }

  /** Days from 1970-01-01 (day 0) to `d`: the days-from-civil count. */
  function DayNumber(d: Date): int
    requires ValidDate(d)
  {
    DaysBeforeYear(d.year) + DaysBeforeMonth(d.year, d.month) + d.day - 1
  }

  /** The calendar day after `d`. */
  function NextDay(d: Date): Date
    requires ValidDate(d)
  {
    if d.day < DaysInMonth(d.year, d.month) then Date(d.year, d.month, d.day + 1)
    else if d.month < 12 then Date(d.year, d.month + 1, 1)
    else Date(d.year + 1, 1, 1)
  }

  /** `a` is an earlier calendar day than `b`. */
  predicate Before(a: Date, b: Date)
  {
    a.year < b.year
    || (a.year == b.year && a.month < b.month)
    || (a.year == b.year && a.month == b.month && a.day < b.day)
  }

  lemma DaysBeforeNextYear(y: int)
    ensures DaysBeforeYear(y + 1) == DaysBeforeYear(y) + DaysInYear(y)
  {
  }

  lemma {:induction false} DaysBeforeYearIncreasing(y: int, z: int)
    requires y < z
    ensures DaysBeforeYear(y) + DaysInYear(y) <= DaysBeforeYear(z)
    decreases z - y
  {
    DaysBeforeNextYear(y);
    if y + 1 < z {
      DaysBeforeYearIncreasing(y + 1, z);
    }
  }

  lemma {:induction false} DaysBeforeMonthIncreasing(y: int, m: int, n: int)
    requires 1 <= m < n <= 12
    ensures DaysBeforeMonth(y, m) + DaysInMonth(y, m) <= DaysBeforeMonth(y, n)
    decreases n - m
  {
    if m + 1 < n {
      DaysBeforeMonthIncreasing(y, m + 1, n);
    }
  }

  lemma {:induction false} DaysBeforeMonthInYear(y: int, m: int)
    requires 1 <= m <= 12
    ensures DaysBeforeMonth(y, m) + DaysInMonth(y, m) <= DaysInYear(y)
  {
    if m < 12 {
      DaysBeforeMonthIncreasing(y, m, 12);
    }
    assert DaysBeforeMonth(y, 12) == 334 + (if IsLeapYear(y) then 1 else 0) by {
      assert DaysBeforeMonth(y, 3) == 59 + (if IsLeapYear(y) then 1 else 0);
      assert DaysBeforeMonth(y, 6) == DaysBeforeMonth(y, 3) + 92;
      assert DaysBeforeMonth(y, 9) == DaysBeforeMonth(y, 6) + 92;
    }
  }

  /** Day numbers count days: the next day has the next day number. */
  lemma NextDayNumber(d: Date)
    requires ValidDate(d)
    ensures ValidDate(NextDay(d))
    ensures DayNumber(NextDay(d)) == DayNumber(d) + 1
  {
    if d.day == DaysInMonth(d.year, d.month) && d.month == 12 {
      DaysBeforeNextYear(d.year);
      DaysBeforeMonthInYear(d.year, 12);
    }
  }

  /** An earlier day has a smaller day number. */
  lemma DayNumberIncreasing(a: Date, b: Date)
    requires ValidDate(a) && ValidDate(b) && Before(a, b)
    ensures DayNumber(a) < DayNumber(b)
  {
    if a.year < b.year {
      DaysBeforeMonthInYear(a.year, a.month);
      DaysBeforeYearIncreasing(a.year, b.year);
    } else if a.month < b.month {
      DaysBeforeMonthIncreasing(a.year, a.month, b.month);
    }
  }

  /** Different days have different day numbers. */
  lemma DayNumberInjective(a: Date, b: Date)
    requires ValidDate(a) && ValidDate(b) && DayNumber(a) == DayNumber(b)
    ensures a == b
  {
    if Before(a, b) {
      DayNumberIncreasing(a, b);
    } else if Before(b, a) {
      DayNumberIncreasing(b, a);
    }
  }

  /** Days to expiry: whole days from `today` to `expiry`, both taken at
      midnight, plus one, so a contract expiring today counts 1. */
  function DaysToExpiry(expiry: Date, today: Date): int
    requires ValidDate(expiry) && ValidDate(today)
  {
    DayNumber(expiry) - DayNumber(today) + 1
  }

  /** The count is 1 on the expiry day itself, and it is at least 1
      exactly when the expiry is not in the past. */
  lemma DaysToExpiryPositive(expiry: Date, today: Date)
    requires ValidDate(expiry) && ValidDate(today)
    ensures expiry == today ==> DaysToExpiry(expiry, today) == 1
    ensures DaysToExpiry(expiry, today) >= 1 <==> !Before(expiry, today)
  {
    if Before(expiry, today) {
      DayNumberIncreasing(expiry, today);
    } else if expiry != today {
      assert Before(today, expiry);
      DayNumberIncreasing(today, expiry);
    }
  }

  /** Each calendar day that passes takes one off the count. */
  lemma DaysToExpiryCountsDown(expiry: Date, today: Date)
    requires ValidDate(expiry) && ValidDate(today)
    ensures ValidDate(NextDay(today))
    ensures DaysToExpiry(expiry, NextDay(today)) == DaysToExpiry(expiry, today) - 1
  {
    NextDayNumber(today);
  }
}
