# gnucash budget report: the monthly balance window and the account-tree recursion

`gnucash_budget_report.py` reports how much each account of a gnucash book moved during a
month. It does this in three steps:

1. `get_monthly_balances(account, year, month)` prints `YYYY-MM-01` for the requested month and
   for the month after it. It parses both texts with `string_to_date`, which calls
   `datetime.strptime(s, '%Y-%m-%d')`, and steps each date back one day. That gives a window
   from the last day of the previous month to the last day of the requested month.
2. `get_balances(account, starttime, endtime)` fills in a missing `endtime` with the clock. It
   fills in a missing `starttime` with `endtime - timedelta(endtime.day)`. It then returns
   `(name, (end balance - start balance, dict of the children's results keyed by child name))`.
3. It computes the children's results with `map(get_balances, children)`.

This project models those three functions in Dafny:

- `Calendar`: proleptic Gregorian dates from 0001-01-01 to 9999-12-31, matching Python's
  `datetime`. It covers leap years, month lengths, day ordinals, subtraction of whole days
  (which raises `OverflowError` before year 1) and lexicographic comparison.
- `DateText`: the `"{:4d}-{:02d}-{:02d}"` formatter and the `'%Y-%m-%d'` parser. The parser
  accepts exactly the texts Python's `_strptime` pattern matches in full: year `\d\d\d\d`,
  month `1[0-2]|0[1-9]|[1-9]`, day `3[01]|[12]\d|0[1-9]|[1-9]| [1-9]`. It then rejects year 0
  and days past the end of their month with `ValueError`. A text holding a NUL character is
  refused with `TypeError` before it is matched, as Python 2's argument conversion does.
- `Timestamps`: `time.mktime(dt.timetuple())` of Python 2. Years 100-1899 raise `ValueError`.
  Years 0-99 are read as 2000-2068 and 1969-1999, as Python 2 does by default (`accept2dyear`).
  The platform's conversion is abstract, and an instant it cannot represent raises
  `OverflowError`.
- `ReportWindow`: the window of lines 62-66, both as written and corrected, and the default
  window of lines 48-51.
- `Balances`: the account tree, the abstract book and the recursion of lines 47-60, both as
  written and corrected. Also `dict()` of a list of pairs, where a later pair overwrites an
  earlier one with the same key.

The platform's local-time conversion and the book's `GetBalanceAsOfDate(...).to_double()` are
abstract functions, grouped as `Ledger(mktime, balanceAsOf)`, with integer timestamps and
amounts. The clock reading `datetime.now()` is a parameter `now`. The order of
`get_children_sorted()` is the order of the `children` sequence.

## Model

| member | source | states |
|---|---|---|
| `Calendar.PrevDay` | gnucash_budget_report.py:64-66 | Stepping back `oneday` gives a valid date exactly one ordinal earlier. Only 0001-01-01 has no previous day. |
| `Calendar.SubDays` | gnucash_budget_report.py:51 | `d - timedelta(n)` succeeds exactly when `toordinal(d) - n >= 1`. It then yields a valid date `n` ordinals earlier. Otherwise it raises `OverflowError`. |
| `Calendar.SubDayOfMonth` | gnucash_budget_report.py:51 | Going back `day` days from any date lands on the last day of the previous month. This fails only in January of year 1. |
| `Calendar.BeforeIffOrdinalLess` | gnucash_budget_report.py:65-66 | Python's lexicographic date order is the order of day ordinals, so a window's `timedelta` and its comparison agree. |
| `Calendar.PreviousMonthEndOrdinal` | gnucash_budget_report.py:64-66 | The last day of the previous month is the ordinal just before the 1st. It lies `DaysInMonth` days before the last day of the month. |
| `Timestamps.MkTimeSpec` | gnucash_budget_report.py:53-54 | `time.mktime` raises `ValueError` exactly for years 100-1899. Otherwise it gives the platform's timestamp of a valid datetime of year 1900 or later. That datetime has the same month, day, hour, minute, second and last two digits of the year, and no microseconds. From 1900 on it has the same date. It raises `OverflowError` when the platform has no timestamp. |
| `DateText.StringToDate` | gnucash_budget_report.py:44-45 | Any text it accepts yields a valid date at midnight. A text holding a NUL is rejected with `TypeError`. Every other rejection is `ValueError`. |
| `DateText.ParseZeroPadded` | gnucash_budget_report.py:44-45 | A zero-padded `YYYY-MM-DD` text parses to midnight of the date its fields name, or to `ValueError` when no such date exists. |
| `DateText.FormatDateShape` | gnucash_budget_report.py:63 | For four-digit years and fields 0-99, the format prints ten characters, dashes at 4 and 7, digits elsewhere, reading back as year, month and day. |
| `DateText.DigitsRoundTrip` | gnucash_budget_report.py:63 | The decimal digits printed for a number read back as that number. |
| `DateText.MonthTokenOfFormatted` | gnucash_budget_report.py:63-65 | The printed month is read back as itself exactly when it is 1-12, so month 13 fails. |
| `DateText.FormatDateHasNoNul` | gnucash_budget_report.py:63-66 | `fmt` prints only digits, spaces and dashes, so `strptime` never raises `TypeError` on its text. |
| `DateText.ParseFormatted` | gnucash_budget_report.py:63-66 | For every integer triple, parsing the printed text gives midnight of the date when the year has four digits and the date exists, and `ValueError` otherwise. |
| `ReportWindow.DayBeforeFirstOfSpec` | gnucash_budget_report.py:64-66 | `string_to_date(fmt(y, m, 1)) - oneday` is midnight of the last day of the previous month. It exists exactly for years 1000-9999 and months 1-12. |
| `ReportWindow.MonthWindowAsWritten` | gnucash_budget_report.py:62-66 | The window as written, made of valid datetimes when it exists. |
| `ReportWindow.MonthWindowAsWrittenDefined` | gnucash_budget_report.py:62-66 | As written, the window exists exactly for years 1000-9999 and months 1-11. Otherwise it raises `ValueError`. |
| `ReportWindow.DecemberFailsAsWritten` | gnucash_budget_report.py:63-65 | For month 12 the text has month `13`, and the window is `ValueError` for every year. |
| `ReportWindow.MonthWindowDefined` | gnucash_budget_report.py:62-66 | The corrected window exists for every month of years 1000-9999 except December 9999. |
| `ReportWindow.MonthWindowAgreesBeforeDecember` | gnucash_budget_report.py:63-66 | The correction changes nothing for months other than December. |
| `ReportWindow.MonthWindowSpec` | gnucash_budget_report.py:64-66 | For years 1000-9999 and months 1-12 (except December 9999) the window exists. The end is midnight of the last day of the month. The start is midnight of the last day of the previous month (31 December of the year before for January). `start < end`, and `end - start` is the number of days in the month. |
| `ReportWindow.FebruaryWindowEnd` | gnucash_budget_report.py:64-65 | For February the window ends on the 29th in leap years and on the 28th otherwise. |
| `ReportWindow.DefaultStartSpec` | gnucash_budget_report.py:50-51 | The default start is the last day of the previous month, at the end's time of day, `endtime.day` days earlier and before the end. It raises `OverflowError` only in January of year 1. |
| `ReportWindow.ResolveWindowSpec` | gnucash_budget_report.py:47-51 | Given instants are kept. A missing end is the clock reading. A missing start is the default start of the end. |
| `Balances.DictOfSpec` | gnucash_budget_report.py:59 | `dict(pairs)` has exactly the pairs' keys. Each key maps to the value of its last pair. |
| `Balances.AllSuccess` | gnucash_budget_report.py:59 | `map` over the children yields all their values in order when every call succeeds. Otherwise it yields the first error raised. |
| `Balances.ChildResults` | gnucash_budget_report.py:58-59 | One `(name, result)` pair per child, in sorted order, under that child's name. |
| `Balances.BalanceTreeMirrors` | gnucash_budget_report.py:52-60 | The result has the account's name and a balance equal to its movement between the window's two timestamps. It has one entry per distinct child name, each mirroring, recursively between the same timestamps, the last child of that name. A leaf gets an empty dict. |
| `Balances.LaterSiblingWins` | gnucash_budget_report.py:58-59 | When sibling names collide, the later child in sorted order fills the entry. |
| `Balances.GetBalancesSpec` | gnucash_budget_report.py:47-60 | The corrected `get_balances` raises `OverflowError` when the default start overflows. Otherwise it raises the error of the first of `mktime(start)` and `mktime(end)` that fails, which is `ValueError` for a start in the years 100-1899. When both succeed it mirrors the whole tree between those two timestamps. |
| `Balances.MonthWindowStamps` | gnucash_budget_report.py:53-54 | The month window's timestamps raise `ValueError` up to January 1900, whose window starts on 31 December 1899. From February 1900 on they are the platform's timestamps of the two midnights, or `OverflowError` when one of them is missing. |
| `Balances.GetMonthlyBalancesSpec` | gnucash_budget_report.py:62-67 | The corrected monthly report exists exactly for the months from February 1900 to November 9999 whose two midnights the platform can convert. It mirrors the whole tree between them, whatever the clock says. Other months raise `ValueError`. A missing platform timestamp raises `OverflowError`. |
| `Balances.AsWrittenWithoutWindow` | gnucash_budget_report.py:47-60 | As written, called without a window, the code computes exactly what the corrected code computes: the one-window recursion over the clock's default window, failing in the same way. |
| `Balances.AsWrittenWithWindow` | gnucash_budget_report.py:53-59 | As written, a given window measures only the top account, between that window's timestamps. Its `mktime` errors come first. Each child's entry is the one the window-less call reports. When there is a child, that call's failure is the whole call's failure. |
| `Balances.GetMonthlyBalancesAsWrittenSpec` | gnucash_budget_report.py:62-67 | As written, the monthly report exists exactly for months 1-11 from February 1900 to November 9999 whose two midnights the platform converts, and then only when there is no child or the window-less call succeeds. The top balance is the movement over the month. The children's entries are those of the clock's default window. The errors are `ValueError`, then `OverflowError`, then the window-less call's error. |
| `Balances.ChildWindowCounterexample` | gnucash_budget_report.py:59-67 | When March 2020 is asked for on 14 October 2026, the child is measured over 14 days as written, but over the 31 days of March once corrected. |

## Left out

- The import of the gnucash bindings, the `Session` context manager, `main` and its `pdb`
  breakpoints (gnucash_budget_report.py:20-39, 70-87). These are foreign library calls and
  backend I/O.
- Argument parsing (gnucash_budget_report.py:89-97). It is I/O plumbing.
- `get_budgets` (gnucash_budget_report.py:41-42). Its body is `pass`, so it has no behaviour.
- All of run_budget.py: file modification times, opening the output, the `sys.stdout` fallback
  and `git pull`. These are I/O. Its one comparison, the freshness test on line 26, is not part
  of this model.
- The platform's local-time conversion behind `time.mktime` and `.to_double()`. They depend on
  the local time zone, daylight saving and floating point. They are abstract functions of
  `Ledger`, with integer timestamps and amounts. The `PYTHONY2K` setting, which turns off the
  two-digit-year reading, is not modelled.
- `datetime.now()`. It reads the wall clock, so it is the parameter `now`. As written, every
  recursive `get_balances(child)` reads the clock again. Each child's window then ends at the
  instant of its own call, and so do its default start and its two timestamps, which differ from
  its parent's once the clock has moved on by a second. The model gives every account the one
  instant `now`. `AsWrittenWithoutWindow` and `AsWrittenWithWindow` hold of the program only
  under that assumption.
- The order of `get_children_sorted()`. It is the gnucash library's, so the model takes it as
  the order of `children`.
- `strptime` is modelled for the one format `'%Y-%m-%d'` only. Locale and time-zone directives
  are not part of this model.
- Budgets, rollups and output formatting. `get_budgets` is a stub, and the code reads the book
  only through the gnucash bindings. There is no budget, rollup or formatting logic to model.

## Findings

| source | as written | input that shows it | evidently intended | confidence | as-written member | corrected member |
|---|---|---|---|---|---|---|
| gnucash_budget_report.py:63-65 | The end of the window is computed from `fmt(year, month+1, 1)`, so December prints month `13`, and `strptime` raises `ValueError`. | `get_monthly_balances(account, 2025, 12)`. Note that `main` defaults to the current month. | The month after December is January of the next year. | high, not executed | `ReportWindow.MonthWindowAsWritten`, `ReportWindow.DecemberFailsAsWritten` | `ReportWindow.MonthWindow`, `ReportWindow.MonthWindowSpec` |
| gnucash_budget_report.py:59 | `map(get_balances, children)` passes each child alone. Every account below the top is therefore measured over `now - now.day` to `now`, not over the requested window. | `get_monthly_balances(root, 2020, 3)` run on 14 October 2026. In a book where balances grow by one per day, the child reports 14, not 31. | Every account of the tree is measured over the caller's `starttime` and `endtime`. | high, not executed | `Balances.GetBalancesAsWritten`, `Balances.ChildWindowCounterexample` | `Balances.GetBalances`, `Balances.GetBalancesSpec` |
