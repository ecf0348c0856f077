/**
 * Proleptic Gregorian calendar arithmetic as Python's `datetime` module does it:
 * dates from 0001-01-01 to 9999-12-31, day ordinals (`toordinal`), subtraction of
 * whole days (`datetime - timedelta(n)`) and the lexicographic comparison of
 * `datetime` values.
 */
module Calendar {
  import opened Wrappers

  const MIN_YEAR := 1
  const MAX_YEAR := 9999

  /** The exceptions the date operations of the core can raise. */
  datatype Error =
    | ValueError     // strptime: the text does not match the format, or names no real date;
                     // mktime: the year of the time tuple is out of range
    | OverflowError  // date arithmetic left the range MIN_YEAR..MAX_YEAR, or the platform's
                     // mktime cannot represent the instant
    | TypeError      // strptime: the text holds a NUL character

  datatype Date = Date(year: int, month: int, day: int)

  datatype TimeOfDay = TimeOfDay(hour: int, minute: int, second: int, microsecond: int)

  /** A naive `datetime.datetime` (no time zone). */
  datatype DateTime = DateTime(date: Date, time: TimeOfDay)

  const MIDNIGHT := TimeOfDay(0, 0, 0, 0)

  predicate IsLeap(y: int) {
    y % 4 == 0 && (y % 100 != 0 || y % 400 == 0)
  }

  function DaysInYear(y: int): int {
    if IsLeap(y) then 366 else 365
  }

  function DaysInMonth(y: int, m: int): (n: int)
    requires 1 <= m <= 12
    ensures 28 <= n <= 31
  {
    if m == 2 then (if IsLeap(y) then 29 else 28)
    else if m == 4 || m == 6 || m == 9 || m == 11 then 30
    else 31
  }

  predicate ValidDate(d: Date) {
    && MIN_YEAR <= d.year <= MAX_YEAR
    && 1 <= d.month <= 12
    && 1 <= d.day <= DaysInMonth(d.year, d.month)
  }

  predicate ValidTime(t: TimeOfDay) {
    && 0 <= t.hour < 24
    && 0 <= t.minute < 60
    && 0 <= t.second < 60
    && 0 <= t.microsecond < 1000000
  }

  predicate ValidDateTime(dt: DateTime) {
    ValidDate(dt.date) && ValidTime(dt.time)
  }

  function AtMidnight(d: Date): DateTime {
    DateTime(d, MIDNIGHT)
  }

  /** The last day of month `m` of year `y`. */
  function LastDayOfMonth(y: int, m: int): Date
    requires 1 <= m <= 12
  {
    Date(y, m, DaysInMonth(y, m))
  }

  /** The last day of the month before month `m` of year `y`: 31 December of year y-1 for January. */
  function LastDayOfPreviousMonth(y: int, m: int): Date
    requires 1 <= m <= 12
  {
    if m == 1 then Date(y - 1, 12, 31) else LastDayOfMonth(y, m - 1)
  }

  // ---------------------------------------------------------------------------
  // Day ordinals, computed the way `date.toordinal()` computes them
  // ---------------------------------------------------------------------------

  /** Days in the years before year `y` (0001-01-01 is day 1). */
  function DaysBeforeYear(y: int): int {
    var y1 := y - 1;
    y1 * 365 + y1 / 4 - y1 / 100 + y1 / 400
  }

  /** Days in the months of year `y` before month `m`. */
  function DaysBeforeMonth(y: int, m: int): int
    requires 1 <= m <= 12
  {
    var table := [0, 31, 59, 90, 120, 151, 181, 212, 243, 273, 304, 334];
    table[m - 1] + (if m > 2 && IsLeap(y) then 1 else 0)
  }

  function Ordinal(d: Date): (o: int)
    requires 1 <= d.month <= 12
    ensures ValidDate(d) ==> o >= 1
  {
    DaysBeforeYear(d.year) + DaysBeforeMonth(d.year, d.month) + d.day
  }

  /** `b - a` in whole days, as the `days` of the `timedelta` Python returns. */
  function DaysBetween(a: Date, b: Date): int
    requires 1 <= a.month <= 12 && 1 <= b.month <= 12
  {
    Ordinal(b) - Ordinal(a)
  }

  /** `x // k` steps up by exactly one where `k` divides `x + 1`, for the divisors of the leap rule. */
  lemma FloorStep(x: int)
    ensures (x + 1) / 4 == x / 4 + (if (x + 1) % 4 == 0 then 1 else 0)
    ensures (x + 1) / 100 == x / 100 + (if (x + 1) % 100 == 0 then 1 else 0)
    ensures (x + 1) / 400 == x / 400 + (if (x + 1) % 400 == 0 then 1 else 0)
  {
  }

  /** Consecutive years are `DaysInYear` apart on the ordinal line. */
  lemma DaysBeforeYearStep(y: int)
    ensures DaysBeforeYear(y + 1) == DaysBeforeYear(y) + DaysInYear(y)
  {
    FloorStep(y - 1);
    assert DaysBeforeYear(y + 1) - DaysBeforeYear(y) ==
      365 + (if y % 4 == 0 then 1 else 0) - (if y % 100 == 0 then 1 else 0) + (if y % 400 == 0 then 1 else 0);
    LeapDivisors(y);
  }

  /** A multiple of 400 is one of 100, and a multiple of 100 is one of 4. */
  lemma LeapDivisors(y: int)
    ensures y % 400 == 0 ==> y % 100 == 0
    ensures y % 100 == 0 ==> y % 4 == 0
  {
    if y % 400 == 0 {
      var q := y / 400;
      assert y == 400 * q;
      assert y / 100 == 4 * q;
    }
    if y % 100 == 0 {
      var q := y / 100;
      assert y == 100 * q;
      assert y / 4 == 25 * q;
    }
  }

  lemma {:induction false} DaysBeforeYearMonotone(y: int, z: int)
    requires y <= z
    ensures DaysBeforeYear(y) + (z - y) * 365 <= DaysBeforeYear(z)
    decreases z - y
  {
    if y < z {
      DaysBeforeYearMonotone(y, z - 1);
      DaysBeforeYearStep(z - 1);
    }
  }

  /** The months of a year fill it exactly, one after the other. */
  lemma DaysBeforeMonthStep(y: int, m: int)
    requires 1 <= m <= 12
    ensures m < 12 ==> DaysBeforeMonth(y, m + 1) == DaysBeforeMonth(y, m) + DaysInMonth(y, m)
    ensures m == 12 ==> DaysBeforeMonth(y, m) + DaysInMonth(y, m) == DaysInYear(y)
  {
  }

  lemma DaysBeforeMonthMonotone(y: int, m: int, n: int)
    requires 1 <= m < n <= 12
    ensures DaysBeforeMonth(y, m) + DaysInMonth(y, m) <= DaysBeforeMonth(y, n)
  {
  }

  // ---------------------------------------------------------------------------
  // Comparison
  // ---------------------------------------------------------------------------

  /** `a < b` on dates: lexicographic on (year, month, day), as Python compares them. */
  predicate Before(a: Date, b: Date) {
    || a.year < b.year
    || (a.year == b.year && a.month < b.month)
    || (a.year == b.year && a.month == b.month && a.day < b.day)
  }

  predicate TimeBefore(s: TimeOfDay, t: TimeOfDay) {
    || s.hour < t.hour
    || (s.hour == t.hour && s.minute < t.minute)
    || (s.hour == t.hour && s.minute == t.minute && s.second < t.second)
    || (s.hour == t.hour && s.minute == t.minute && s.second == t.second && s.microsecond < t.microsecond)
  }

  /** `a < b` on naive datetimes: first by date, then by time of day. */
  predicate DateTimeBefore(a: DateTime, b: DateTime) {
    Before(a.date, b.date) || (a.date == b.date && TimeBefore(a.time, b.time))
  }

  /** Every day of a valid date lies strictly before the first day of any later month. */
  lemma OrdinalBelowLaterMonth(a: Date, y: int, m: int)
    requires ValidDate(a) && 1 <= m <= 12
    requires a.year < y || (a.year == y && a.month < m)
    ensures Ordinal(a) < DaysBeforeYear(y) + DaysBeforeMonth(y, m) + 1
  {
    if a.year == y {
      DaysBeforeMonthMonotone(y, a.month, m);
    } else {
      DaysBeforeMonthStep(a.year, 12);
      if a.month < 12 {
        DaysBeforeMonthMonotone(a.year, a.month, 12);
      }
      DaysBeforeYearStep(a.year);
      DaysBeforeYearMonotone(a.year + 1, y);
    }
  }

  /** The lexicographic order of valid dates is the order of their day ordinals. */
  lemma BeforeIffOrdinalLess(a: Date, b: Date)
    requires ValidDate(a) && ValidDate(b)
    ensures Before(a, b) <==> Ordinal(a) < Ordinal(b)
  {
    if a.year < b.year || (a.year == b.year && a.month < b.month) {
      OrdinalBelowLaterMonth(a, b.year, b.month);
    } else if b.year < a.year || (b.year == a.year && b.month < a.month) {
      OrdinalBelowLaterMonth(b, a.year, a.month);
    }
  }

  /** Distinct valid dates have distinct day ordinals. */
  lemma OrdinalInjective(a: Date, b: Date)
    requires ValidDate(a) && ValidDate(b)
    requires Ordinal(a) == Ordinal(b)
    ensures a == b
  {
    BeforeIffOrdinalLess(a, b);
    BeforeIffOrdinalLess(b, a);
  }

  // ---------------------------------------------------------------------------
  // Subtracting whole days
  // ---------------------------------------------------------------------------

  /** The day before `d`; None for 0001-01-01, the first representable date. */
  function PrevDay(d: Date): (r: Option<Date>)
    requires ValidDate(d)
    ensures r.None? <==> d == Date(MIN_YEAR, 1, 1)
    ensures r.Some? ==> ValidDate(r.value) && Ordinal(r.value) == Ordinal(d) - 1
  {
    if d.day > 1 then Some(Date(d.year, d.month, d.day - 1))
    else if d.month > 1 then
      DaysBeforeMonthStep(d.year, d.month - 1);
      Some(LastDayOfMonth(d.year, d.month - 1))
    else if d.year > MIN_YEAR then
      DaysBeforeYearStep(d.year - 1);
      DaysBeforeMonthStep(d.year - 1, 12);
      Some(Date(d.year - 1, 12, 31))
    else None
  }

  /**
   * `d - timedelta(n)`: n days earlier, or OverflowError when that is before
   * 0001-01-01.
   */
  function SubDays(d: Date, n: nat): (r: Result<Date, Error>)
    requires ValidDate(d)
    ensures r.Success? <==> Ordinal(d) - n >= 1
    ensures r.Success? ==> ValidDate(r.value) && Ordinal(r.value) == Ordinal(d) - n
    ensures r.Failure? ==> r.error == OverflowError
    decreases n
  {
    if n == 0 then Success(d)
    else match PrevDay(d)
      case None => Failure(OverflowError)
      case Some(p) => SubDays(p, n - 1)
  }

  /** `dt - timedelta(n)` on a datetime: the date moves back, the time of day stays. */
  function SubDaysAt(dt: DateTime, n: nat): (r: Result<DateTime, Error>)
    requires ValidDateTime(dt)
    ensures r.Success? ==> ValidDateTime(r.value) && r.value.time == dt.time
  {
    var d :- SubDays(dt.date, n);
    Success(DateTime(d, dt.time))
  }

  /** Subtracting n days is subtracting n from the day ordinal, time of day unchanged. */
  lemma SubDaysAtOrdinal(dt: DateTime, n: nat)
    requires ValidDateTime(dt)
    ensures SubDaysAt(dt, n).Success? <==> Ordinal(dt.date) - n >= 1
    ensures SubDaysAt(dt, n).Success? ==>
      && ValidDateTime(SubDaysAt(dt, n).value)
      && SubDaysAt(dt, n).value.time == dt.time
      && DaysBetween(SubDaysAt(dt, n).value.date, dt.date) == n
    ensures SubDaysAt(dt, n).Failure? ==> SubDaysAt(dt, n).error == OverflowError
  {
  }

  /** Within a month, going back k < day days only lowers the day of the month. */
  lemma {:induction false} SubDaysWithinMonth(d: Date, k: nat)
    requires ValidDate(d) && k < d.day
    ensures SubDays(d, k) == Success(Date(d.year, d.month, d.day - k))
  {
    var e := Date(d.year, d.month, d.day - k);
    assert ValidDate(e);
    assert Ordinal(e) == Ordinal(d) - k && Ordinal(e) >= 1;
    var r := SubDays(d, k);
    OrdinalInjective(r.value, e);
  }

  /** Going back `day` days from any date lands on the last day of the previous month. */
  lemma SubDayOfMonth(d: Date)
    requires ValidDate(d)
    ensures SubDays(d, d.day).Success? <==> !(d.year == MIN_YEAR && d.month == 1)
    ensures SubDays(d, d.day).Success? ==>
      SubDays(d, d.day).value == LastDayOfPreviousMonth(d.year, d.month)
  {
    var first := Date(d.year, d.month, 1);
    SubDaysWithinMonth(d, d.day - 1);
    assert Ordinal(d) - d.day == Ordinal(first) - 1;
    match PrevDay(first)
    case None =>
    case Some(p) =>
      assert p == LastDayOfPreviousMonth(d.year, d.month);
      OrdinalInjective(SubDays(d, d.day).value, p);
  }

  /** The last day of the previous month is the day before the first of the month. */
  lemma PreviousMonthEndOrdinal(y: int, m: int)
    requires ValidDate(Date(y, m, 1)) && !(y == MIN_YEAR && m == 1)
    ensures ValidDate(LastDayOfPreviousMonth(y, m))
    ensures Ordinal(LastDayOfPreviousMonth(y, m)) == Ordinal(Date(y, m, 1)) - 1
    ensures DaysBetween(LastDayOfPreviousMonth(y, m), LastDayOfMonth(y, m)) == DaysInMonth(y, m)
  {
    assert PrevDay(Date(y, m, 1)) == Some(LastDayOfPreviousMonth(y, m));
  }
}
