/**
 * The time window a balance report of gnucash_budget_report.py covers: the
 * explicit monthly window of `get_monthly_balances` and the default window
 * `get_balances` falls back on.
 */
module ReportWindow {
  import opened Wrappers
  import opened Calendar
  import opened DateText

  /** A `(starttime, endtime)` pair; balances are taken as of both instants. */
  datatype Window = Window(start: DateTime, end: DateTime)

  predicate ValidWindow(w: Window) {
    ValidDateTime(w.start) && ValidDateTime(w.end)
  }

  /** `string_to_date(fmt(y, m, 1)) - oneday`. */
  function DayBeforeFirstOf(y: int, m: int): (r: Result<DateTime, Error>)
    ensures r.Success? ==> ValidDateTime(r.value)
  {
    var first :- StringToDate(FormatDate(y, m, 1));
    SubDaysAt(first, 1)
  }

  /**
   * `get_monthly_balances` as written: the end is the day before the first of month+1, the
   * start the day before the first of the month.
   */
  function MonthWindowAsWritten(year: int, month: int): (r: Result<Window, Error>)
    ensures r.Success? ==> ValidWindow(r.value)
  {
    var end :- DayBeforeFirstOf(year, month + 1);
    var start :- DayBeforeFirstOf(year, month);
    Success(Window(start, end))
  }

  /** The month after `month` of `year`, rolling December over to January of the next year. */
  function NextMonth(year: int, month: int): (int, int) {
    if month == 12 then (year + 1, 1) else (year, month + 1)
  }

  /** The window of `get_monthly_balances` with the month after December taken to be January of the next year. */
  function MonthWindow(year: int, month: int): (r: Result<Window, Error>)
    ensures r.Success? ==> ValidWindow(r.value)
  {
    var (nextYear, nextMonth) := NextMonth(year, month);
    var end :- DayBeforeFirstOf(nextYear, nextMonth);
    var start :- DayBeforeFirstOf(year, month);
    Success(Window(start, end))
  }

  /** The day before the first of a month is the last day of the month before it, at midnight. */
  lemma DayBeforeFirstOfSpec(y: int, m: int)
    ensures DayBeforeFirstOf(y, m).Success? <==> 1000 <= y <= 9999 && 1 <= m <= 12
    ensures DayBeforeFirstOf(y, m).Success? ==>
      DayBeforeFirstOf(y, m).value == AtMidnight(LastDayOfPreviousMonth(y, m))
    ensures DayBeforeFirstOf(y, m).Failure? ==> DayBeforeFirstOf(y, m).error == ValueError
  {
    ParseFormatted(y, m, 1);
    if 1000 <= y <= 9999 && 1 <= m <= 12 {
      DayBeforeFirst(y, m);
    }
  }

  /** One day before midnight of the 1st is midnight of the previous month's last day. */
  lemma DayBeforeFirst(y: int, m: int)
    requires 1000 <= y <= 9999 && 1 <= m <= 12
    ensures SubDaysAt(AtMidnight(Date(y, m, 1)), 1) == Success(AtMidnight(LastDayOfPreviousMonth(y, m)))
  {
    DaysBeforeYearStep(y - 1);
    DaysBeforeMonthStep(y - 1, 12);
    if m > 1 {
      DaysBeforeMonthStep(y, m - 1);
    }
    var first := Date(y, m, 1);
    var p := LastDayOfPreviousMonth(y, m);
    assert ValidDate(p) && Ordinal(p) == Ordinal(first) - 1;
    OrdinalInjective(SubDays(first, 1).value, p);
  }

  /** As written, the window exists exactly for four-digit years and months 1 to 11. */
  lemma MonthWindowAsWrittenDefined(year: int, month: int)
    ensures MonthWindowAsWritten(year, month).Success? <==> 1000 <= year <= 9999 && 1 <= month <= 11
    ensures MonthWindowAsWritten(year, month).Failure? ==>
      MonthWindowAsWritten(year, month).error == ValueError
  {
    var end := DayBeforeFirstOf(year, month + 1);
    var start := DayBeforeFirstOf(year, month);
    DayBeforeFirstOfSpec(year, month + 1);
    DayBeforeFirstOfSpec(year, month);
    assert MonthWindowAsWritten(year, month) ==
      if end.Failure? then Failure(end.error)
      else if start.Failure? then Failure(start.error)
      else Success(Window(start.value, end.value));
  }

  /** As written, asking for December prints month 13 and strptime raises ValueError. */
  lemma DecemberFailsAsWritten(year: int)
    ensures FormatDate(year, 13, 1) == Format4d(year) + "-13-01"
    ensures MonthWindowAsWritten(year, 12) == Failure(ValueError)
  {
    MonthThirteenText(year);
    MonthWindowAsWrittenDefined(year, 12);
  }

  lemma MonthThirteenText(year: int)
    ensures FormatDate(year, 13, 1) == Format4d(year) + "-13-01"
  {
    assert Format02d(13) == "13" by {
      assert Digits(13) == Digits(1) + [DigitChar(3)];
    }
    assert Format02d(1) == "01";
  }

  /** The corrected window exists for every month of four-digit years except December 9999. */
  lemma MonthWindowDefined(year: int, month: int)
    ensures MonthWindow(year, month).Success? <==>
      1000 <= year <= 9999 && 1 <= month <= 12 && !(year == 9999 && month == 12)
    ensures MonthWindow(year, month).Failure? ==> MonthWindow(year, month).error == ValueError
  {
    var (nextYear, nextMonth) := NextMonth(year, month);
    var end := DayBeforeFirstOf(nextYear, nextMonth);
    var start := DayBeforeFirstOf(year, month);
    DayBeforeFirstOfSpec(nextYear, nextMonth);
    DayBeforeFirstOfSpec(year, month);
    assert MonthWindow(year, month) ==
      if end.Failure? then Failure(end.error)
      else if start.Failure? then Failure(start.error)
      else Success(Window(start.value, end.value));
  }

  /** The correction changes nothing for months 1 to 11. */
  lemma MonthWindowAgreesBeforeDecember(year: int, month: int)
    requires month != 12
    ensures MonthWindow(year, month) == MonthWindowAsWritten(year, month)
  {
  }

  /**
   * The window runs from the last day of the previous month (31 December of the
   * previous year for January) to the last day of the requested month, both at
   * midnight; the end is later than the start by exactly the length of the month.
   */
  lemma MonthWindowSpec(year: int, month: int)
    requires 1000 <= year <= 9999 && 1 <= month <= 12 && !(year == 9999 && month == 12)
    ensures MonthWindow(year, month).Success?
    ensures var w := MonthWindow(year, month).value;
      && ValidWindow(w)
      && w.end == AtMidnight(LastDayOfMonth(year, month))
      && w.start == AtMidnight(LastDayOfPreviousMonth(year, month))
      && (month == 1 ==> w.start.date == Date(year - 1, 12, 31))
      && DateTimeBefore(w.start, w.end)
      && DaysBetween(w.start.date, w.end.date) == DaysInMonth(year, month)
  {
    MonthWindowEnds(year, month);
    MonthBounds(year, month);
  }

  /** The corrected window is the pair of midnights of the two month ends. */
  lemma MonthWindowEnds(year: int, month: int)
    requires 1000 <= year <= 9999 && 1 <= month <= 12 && !(year == 9999 && month == 12)
    ensures MonthWindow(year, month) ==
      Success(Window(AtMidnight(LastDayOfPreviousMonth(year, month)), AtMidnight(LastDayOfMonth(year, month))))
  {
    var (nextYear, nextMonth) := NextMonth(year, month);
    var end := DayBeforeFirstOf(nextYear, nextMonth);
    var start := DayBeforeFirstOf(year, month);
    DayBeforeFirstOfSpec(nextYear, nextMonth);
    DayBeforeFirstOfSpec(year, month);
    assert end.Success? && start.Success?;
    assert MonthWindow(year, month) == Success(Window(start.value, end.value));
    NextMonthStartsAfter(year, month);
  }

  /** The month before the next month ends where this month ends. */
  lemma NextMonthStartsAfter(year: int, month: int)
    requires 1 <= month <= 12
    ensures 1 <= NextMonth(year, month).1 <= 12
    ensures LastDayOfPreviousMonth(NextMonth(year, month).0, NextMonth(year, month).1) == LastDayOfMonth(year, month)
  {
  }

  /** The last days of the previous month and of this month are valid, ordered and a month apart. */
  lemma MonthBounds(year: int, month: int)
    requires 1000 <= year <= 9999 && 1 <= month <= 12
    ensures var p := LastDayOfPreviousMonth(year, month);
      var e := LastDayOfMonth(year, month);
      && ValidDate(p) && ValidDate(e)
      && DateTimeBefore(AtMidnight(p), AtMidnight(e))
      && DaysBetween(p, e) == DaysInMonth(year, month)
  {
    PreviousMonthEndOrdinal(year, month);
  }

  /** In February the window ends on the 29th in leap years and on the 28th otherwise. */
  lemma FebruaryWindowEnd(year: int)
    requires 1000 <= year <= 9999
    ensures MonthWindow(year, 2).Success?
    ensures MonthWindow(year, 2).value.end.date.day == (if IsLeap(year) then 29 else 28)
  {
    MonthWindowDefined(year, 2);
    MonthWindowSpec(year, 2);
  }

  // ---------------------------------------------------------------------------
  // The default window of get_balances
  // ---------------------------------------------------------------------------

  /** `endtime - timedelta(endtime.day)`: the default `starttime` of `get_balances`. */
  function DefaultStart(endtime: DateTime): Result<DateTime, Error>
    requires ValidDateTime(endtime)
  {
    SubDaysAt(endtime, endtime.date.day)
  }

  /**
   * The default start is the last day of the previous month, at the same time of
   * day as the end, `endtime.day` days earlier; it overflows only in January of year 1.
   */
  lemma DefaultStartSpec(endtime: DateTime)
    requires ValidDateTime(endtime)
    ensures DefaultStart(endtime).Success? <==> !(endtime.date.year == MIN_YEAR && endtime.date.month == 1)
    ensures DefaultStart(endtime).Failure? ==> DefaultStart(endtime).error == OverflowError
    ensures DefaultStart(endtime).Success? ==>
      var start := DefaultStart(endtime).value;
      && ValidDateTime(start)
      && start == DateTime(LastDayOfPreviousMonth(endtime.date.year, endtime.date.month), endtime.time)
      && DaysBetween(start.date, endtime.date) == endtime.date.day
      && DateTimeBefore(start, endtime)
  {
    SubDayOfMonth(endtime.date);
    SubDaysAtOrdinal(endtime, endtime.date.day);
    if DefaultStart(endtime).Success? {
      BeforeIffOrdinalLess(DefaultStart(endtime).value.date, endtime.date);
    }
  }

  /**
   * The window of `get_balances`: a missing `endtime` is the clock reading `now`; a missing
   * `starttime` is the default start of the resolved `endtime`.
   */
  function ResolveWindow(starttime: Option<DateTime>, endtime: Option<DateTime>, now: DateTime): (r: Result<Window, Error>)
    requires ValidDateTime(now)
    requires starttime.Some? ==> ValidDateTime(starttime.value)
    requires endtime.Some? ==> ValidDateTime(endtime.value)
    ensures r.Success? ==> ValidWindow(r.value)
  {
    var end := if endtime.Some? then endtime.value else now;
    var start :- if starttime.Some? then Success(starttime.value) else DefaultStart(end);
    Success(Window(start, end))
  }

  /** With no clock reading involved, resolving keeps both given instants. */
  lemma ResolveWindowSpec(starttime: Option<DateTime>, endtime: Option<DateTime>, now: DateTime)
    requires ValidDateTime(now)
    requires starttime.Some? ==> ValidDateTime(starttime.value)
    requires endtime.Some? ==> ValidDateTime(endtime.value)
    ensures var r := ResolveWindow(starttime, endtime, now);
      var end := if endtime.Some? then endtime.value else now;
      && (r.Success? ==> ValidWindow(r.value) && r.value.end == end)
      && (starttime.Some? ==> r == Success(Window(starttime.value, end)))
      && (starttime.None? ==>
            (r.Success? <==> !(end.date.year == MIN_YEAR && end.date.month == 1))
            && (r.Success? ==> r.value.start == DateTime(LastDayOfPreviousMonth(end.date.year, end.date.month), end.time))
            && (r.Failure? ==> r.error == OverflowError))
  {
    var end := if endtime.Some? then endtime.value else now;
    DefaultStartSpec(end);
  }
}
