/**
 * `time.mktime(dt.timetuple())` of Python 2, as `get_balances` in
 * gnucash_budget_report.py uses it: the year check Python 2 makes on the time
 * tuple before it calls the platform's `mktime`, and the platform's own refusal.
 *
 * The platform conversion (local time zone, daylight saving) is a parameter
 * `platform` that gives `None` when the C library's `mktime` reports an
 * instant it cannot represent.
 */
module Timestamps {
  import opened Wrappers
  import opened Calendar

  /**
   * The year Python 2 hands to the C library for a time tuple whose year is
   * below 1900, with its default `accept2dyear`: 69-99 are read as 1969-1999
   * and 0-68 as 2000-2068. Every other year is kept.
   */
  function TupleYear(y: int): int {
    if 69 <= y <= 99 then y + 1900
    else if 0 <= y <= 68 then y + 2000
    else y
  }

  /** The year tuples Python 2 refuses with `ValueError("year out of range")`. */
  predicate YearOutOfRange(y: int) {
    y < 1900 && !(0 <= y <= 99)
  }

  /**
   * The broken-down time the C library is handed: `dt.timetuple()`, which has
   * no microseconds, with its year read as `TupleYear`.
   */
  function TimeTuple(dt: DateTime): DateTime {
    DateTime(Date(TupleYear(dt.date.year), dt.date.month, dt.date.day),
             TimeOfDay(dt.time.hour, dt.time.minute, dt.time.second, 0))
  }

  /**
   * `time.mktime(dt.timetuple())`: `ValueError` for a year out of range,
   * `OverflowError` when the platform cannot represent the instant, and the
   * platform's timestamp otherwise.
   */
  function MkTime(platform: DateTime -> Option<int>, dt: DateTime): (r: Result<int, Error>)
    ensures r.Failure? ==> (r.error == ValueError <==> YearOutOfRange(dt.date.year))
  {
    if YearOutOfRange(dt.date.year) then Failure(ValueError)
    else
      var t := platform(TimeTuple(dt));
      if t.Some? then Success(t.value) else Failure(OverflowError)
  }

  /**
   * For a valid datetime, `mktime` raises `ValueError` exactly for the years
   * 100 to 1899. Otherwise it yields the platform's timestamp of a valid
   * datetime of year 1900 or later with the same month, day, hour, minute,
   * second and last two digits of the year and no microseconds (the same date
   * from 1900 on), or raises `OverflowError` when the platform has none.
   */
  lemma MkTimeSpec(platform: DateTime -> Option<int>, dt: DateTime)
    requires ValidDateTime(dt)
    ensures var r := MkTime(platform, dt);
      && (r == Failure(ValueError) <==> 100 <= dt.date.year <= 1899)
      && (r.Success? <==> !(100 <= dt.date.year <= 1899) && platform(TimeTuple(dt)).Some?)
      && (r.Success? ==> r.value == platform(TimeTuple(dt)).value)
      && (r.Failure? && !(100 <= dt.date.year <= 1899) ==> r.error == OverflowError)
    ensures !(100 <= dt.date.year <= 1899) ==>
      var tt := TimeTuple(dt);
      && ValidDateTime(tt)
      && tt.date.year >= 1900
      && tt.date.year % 100 == dt.date.year % 100
      && tt.date.month == dt.date.month && tt.date.day == dt.date.day
      && tt.time == TimeOfDay(dt.time.hour, dt.time.minute, dt.time.second, 0)
      && (dt.date.year >= 1900 ==> tt.date == dt.date)
  {
    var y := dt.date.year;
    if y < 100 {
      var ty := TupleYear(y);
      assert ty % 4 == y % 4 && ty % 100 == y % 100 && ty % 100 != 0;
      assert IsLeap(ty) == IsLeap(y);
    }
  }
}
