/**
 * Proleptic Gregorian civil dates and their distance from the Unix epoch.
 *
 * `EpochSeconds` is the integer a naive, minute-precision datetime becomes once it is
 * read as UTC: whole seconds since 1970-01-01 00:00. It is computed in closed form and
 * checked against two independent definitions: counting the days of every year in
 * between, and the "Seconds Since the Epoch" formula of POSIX.1-2017 (Base Definitions,
 * section 4.16).
 */
module Calendar {

  /** A naive civil date and time at minute precision; `hour` is on the 24-hour clock. */
  datatype DateTime = DateTime(year: int, month: int, day: int, hour: int, minute: int)

  predicate IsLeapYear(y: int) {
    y % 4 == 0 && (y % 100 != 0 || y % 400 == 0)
  }

  function DaysInYear(y: int): int {
    if IsLeapYear(y) then 366 else 365
  }

  function DaysInMonth(y: int, m: int): int
    requires 1 <= m <= 12
  {
    if m == 2 then (if IsLeapYear(y) then 29 else 28)
    else if m == 4 || m == 6 || m == 9 || m == 11 then 30
    else 31
  }

  predicate IsValidDate(y: int, m: int, d: int) {
    1 <= m <= 12 && 1 <= d <= DaysInMonth(y, m)
  }

  predicate IsValid(dt: DateTime) {
    IsValidDate(dt.year, dt.month, dt.day) && 0 <= dt.hour < 24 && 0 <= dt.minute < 60
  }

  /** Days of year `y` that lie in the months before month `m`. */
  function DaysBeforeMonth(y: int, m: int): int
    requires 1 <= m <= 12
  {
    [0, 31, 59, 90, 120, 151, 181, 212, 243, 273, 304, 334][m - 1]
    + (if m > 2 && IsLeapYear(y) then 1 else 0)
  }

  /** The table above is the running sum of the month lengths, and the twelve months fill the year. */
  lemma DaysBeforeMonthAccumulates(y: int, m: int)
    requires 1 <= m <= 12
    ensures m == 1 ==> DaysBeforeMonth(y, m) == 0
    ensures m > 1 ==> DaysBeforeMonth(y, m) == DaysBeforeMonth(y, m - 1) + DaysInMonth(y, m - 1)
    ensures m == 12 ==> DaysBeforeMonth(y, m) + DaysInMonth(y, m) == DaysInYear(y)
  {
  }

  lemma DaysBeforeMonthIncreases(y: int, m1: int, m2: int)
    requires 1 <= m1 < m2 <= 12
    ensures DaysBeforeMonth(y, m1) + DaysInMonth(y, m1) <= DaysBeforeMonth(y, m2)
  {
  }

  /** The zero-based day of the year (POSIX `tm_yday`). */
  function DayOfYear(y: int, m: int, d: int): (n: int)
    requires IsValidDate(y, m, d)
    ensures 0 <= n < DaysInYear(y)
  {
    DaysBeforeMonth(y, m) + d - 1
  }

  /** Leap years among 1 ..= y; the floor division extends the count to every integer y. */
  function LeapYearsThrough(y: int): int {
    y / 4 - y / 100 + y / 400
  }

  /** Days from 1970-01-01 to January 1 of year `y` (negative before 1970). */
  function DaysBeforeYear(y: int): int {
    365 * (y - 1970) + LeapYearsThrough(y - 1) - LeapYearsThrough(1969)
  }

  /** Days from the epoch to the given civil date. */
  function EpochDays(y: int, m: int, d: int): int
    requires IsValidDate(y, m, d)
  {
    DaysBeforeYear(y) + DayOfYear(y, m, d)
  }

  /** Whole minutes since 1970-01-01 00:00 of a datetime read as UTC. */
  function EpochMinutes(dt: DateTime): int
    requires IsValid(dt)
  {
    EpochDays(dt.year, dt.month, dt.day) * 1440 + dt.hour * 60 + dt.minute
  }

  /** Whole seconds since 1970-01-01 00:00 of a datetime read as UTC. */
  function EpochSeconds(dt: DateTime): (s: int)
    requires IsValid(dt)
    ensures s % 60 == 0
  {
    var m := EpochMinutes(dt);
    WholeMinutes(m);
    m * 60
  }

  lemma WholeMinutes(m: int)
    ensures (m * 60) % 60 == 0
  {
  }

  // ---------------------------------------------------------------------------
  // The closed form counts every day

  /** Going from one New Year's Day to the next adds exactly the days of that year. */
  lemma DaysBeforeYearStep(y: int)
    ensures DaysBeforeYear(y + 1) == DaysBeforeYear(y) + DaysInYear(y)
  {
    LeapStep(y);
  }

  /** Year `y` adds one to the running count of leap years exactly when it is a leap year. */
  lemma LeapStep(y: int)
    ensures LeapYearsThrough(y) - LeapYearsThrough(y - 1) == if IsLeapYear(y) then 1 else 0
  {
    FloorStep4(y);
    FloorStep100(y);
    FloorStep400(y);
    if y % 100 == 0 {
      CenturyDivisibleBy4(y);
    }
    if y % 400 == 0 {
      QuadricentennialDivisibleBy100(y);
    }
  }

  lemma CenturyDivisibleBy4(y: int)
    requires y % 100 == 0
    ensures y % 4 == 0
  {
    assert y == 4 * (25 * (y / 100));
  }

  lemma QuadricentennialDivisibleBy100(y: int)
    requires y % 400 == 0
    ensures y % 100 == 0
  {
    assert y == 100 * (4 * (y / 400));
  }

  lemma FloorStep4(y: int)
    ensures y / 4 - (y - 1) / 4 == if y % 4 == 0 then 1 else 0
  {
    var q, r := (y - 1) / 4, (y - 1) % 4;
    if r == 3 {
      assert y == 4 * (q + 1);
    } else {
      assert y == 4 * q + (r + 1);
    }
  }

  lemma FloorStep100(y: int)
    ensures y / 100 - (y - 1) / 100 == if y % 100 == 0 then 1 else 0
  {
    var q, r := (y - 1) / 100, (y - 1) % 100;
    if r == 99 {
      assert y == 100 * (q + 1);
    } else {
      assert y == 100 * q + (r + 1);
    }
  }

  lemma FloorStep400(y: int)
    ensures y / 400 - (y - 1) / 400 == if y % 400 == 0 then 1 else 0
  {
    var q, r := (y - 1) / 400, (y - 1) % 400;
    if r == 399 {
      assert y == 400 * (q + 1);
    } else {
      assert y == 400 * q + (r + 1);
    }
  }

  /** Days in the years `a`, `a + 1`, ..., `b - 1`, added one year at a time. */
  function DaysInYears(a: int, b: int): (n: int)
    requires a <= b
    ensures n >= 365 * (b - a)
    decreases b - a
  {
    if a == b then 0 else DaysInYears(a, b - 1) + DaysInYear(b - 1)
  }

  /** The closed form agrees with counting the days of the years in between. */
  lemma {:induction false} DaysBeforeYearCounts(a: int, b: int)
    requires a <= b
    ensures DaysBeforeYear(b) - DaysBeforeYear(a) == DaysInYears(a, b)
    decreases b - a
  {
    if a < b {
      DaysBeforeYearCounts(a, b - 1);
      DaysBeforeYearStep(b - 1);
    }
  }

  /** The epoch is day zero, and every instant of a year lies between its New Year's Days. */
  lemma EpochSecondsWithinYear(dt: DateTime)
    requires IsValid(dt)
    ensures DaysBeforeYear(1970) == 0
    ensures DaysBeforeYear(dt.year) * 86400 <= EpochSeconds(dt) < DaysBeforeYear(dt.year + 1) * 86400
  {
    DaysBeforeYearStep(dt.year);
  }

  // ---------------------------------------------------------------------------
  // Chronological order

  /** `a` comes strictly before `b` on the calendar and the clock. */
  predicate Precedes(a: DateTime, b: DateTime) {
    a.year < b.year
    || (a.year == b.year && (a.month < b.month
    || (a.month == b.month && (a.day < b.day
    || (a.day == b.day && (a.hour < b.hour
    || (a.hour == b.hour && a.minute < b.minute)))))))
  }

  lemma PrecedesIncreases(a: DateTime, b: DateTime)
    requires IsValid(a) && IsValid(b) && Precedes(a, b)
    ensures EpochSeconds(a) < EpochSeconds(b)
  {
    if a.year < b.year {
      EpochSecondsWithinYear(a);
      EpochSecondsWithinYear(b);
      DaysBeforeYearCounts(a.year + 1, b.year);
    } else if a.month < b.month {
      DaysBeforeMonthIncreases(a.year, a.month, b.month);
    }
  }

  /** `EpochSeconds` preserves chronological order in both directions, so it is one-to-one. */
  lemma EpochSecondsOrder(a: DateTime, b: DateTime)
    requires IsValid(a) && IsValid(b)
    ensures Precedes(a, b) <==> EpochSeconds(a) < EpochSeconds(b)
    ensures EpochSeconds(a) == EpochSeconds(b) <==> a == b
  {
    if Precedes(a, b) {
      PrecedesIncreases(a, b);
    } else if Precedes(b, a) {
      PrecedesIncreases(b, a);
    } else {
      assert a == b;
    }
  }

  // ---------------------------------------------------------------------------
  // POSIX.1-2017, Base Definitions, section 4.16

  /** Integer division rounding toward zero, as the C `/` operator of the POSIX formula. */
  function TruncDiv(a: int, b: int): int
    requires b > 0
  {
    if a >= 0 then a / b else -((-a) / b)
  }

  /**
   * The POSIX expression for seconds since the Epoch, over the `struct tm` fields:
   * `tmYear` counts from 1900 and `tmYday` from January 1.
   */
  function PosixSecondsSinceEpoch(tmSec: int, tmMin: int, tmHour: int, tmYday: int, tmYear: int): int {
    tmSec + tmMin * 60 + tmHour * 3600 + tmYday * 86400 + (tmYear - 70) * 31536000
    + TruncDiv(tmYear - 69, 4) * 86400 - TruncDiv(tmYear - 1, 100) * 86400
    + TruncDiv(tmYear + 299, 400) * 86400
  }

  /** From the epoch on, where POSIX defines the value, `EpochSeconds` is the POSIX formula. */
  lemma PosixAgreement(dt: DateTime)
    requires IsValid(dt) && dt.year >= 1970
    ensures EpochSeconds(dt) == PosixSecondsSinceEpoch(
              0, dt.minute, dt.hour, DayOfYear(dt.year, dt.month, dt.day), dt.year - 1900)
  {
    var y := dt.year;
    assert (y - 1969) / 4 == (y - 1) / 4 - 492;
    assert (y - 1901) / 100 == (y - 1) / 100 - 19;
    assert (y - 1601) / 400 == (y - 1) / 400 - 4;
  }
}
