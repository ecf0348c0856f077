/**
 * `get_balances` and `get_monthly_balances` of gnucash_budget_report.py: the
 * change of every account's balance over a window, returned as
 * `(name, (balance, child_balances))` with the children's results collected in a
 * dictionary keyed by child name.
 *
 * The accounting book is abstract: the platform's `mktime` turns a broken-down
 * local time into a timestamp (or cannot), and `balanceAsOf` gives an account's
 * balance as of a timestamp.
 */
module Balances {
  import opened Wrappers
  import opened Calendar
  import opened Timestamps
  import opened ReportWindow

  type AccountId = nat

  /** An account: its identity in the book, `GetName()` and `get_children_sorted()`. */
  datatype Account = Account(id: AccountId, name: string, children: seq<Account>)

  /** What the report asks of the platform and the book: C `mktime` and `GetBalanceAsOfDate(t).to_double()`. */
  datatype Ledger = Ledger(mktime: DateTime -> Option<int>, balanceAsOf: (AccountId, int) -> int)

  /** `(balance, child_balance)`: the change over the window and the children's results by name. */
  datatype Report = Report(balance: int, children: map<string, Report>)

  /** `start_tuple` and `end_tuple`: the two timestamps of a window. */
  datatype Stamps = Stamps(start: int, end: int)

  /** `time.mktime` of the start, then of the end; the first of them to fail raises. */
  function WindowStamps(ledger: Ledger, w: Window): Result<Stamps, Error> {
    var s :- MkTime(ledger.mktime, w.start);
    var e :- MkTime(ledger.mktime, w.end);
    Success(Stamps(s, e))
  }

  /** End balance minus start balance of one account at the two timestamps. */
  function Movement(a: Account, ledger: Ledger, t: Stamps): int {
    ledger.balanceAsOf(a.id, t.end) - ledger.balanceAsOf(a.id, t.start)
  }

  // ---------------------------------------------------------------------------
  // dict() of a list of pairs
  // ---------------------------------------------------------------------------

  /** `dict(pairs)`: each pair stores its value under its key, later pairs overwriting earlier ones. */
  function DictOf<K(==), V>(pairs: seq<(K, V)>): map<K, V> {
    if pairs == [] then map[]
    else DictOf(pairs[..|pairs| - 1])[pairs[|pairs| - 1].0 := pairs[|pairs| - 1].1]
  }

  /** Pair `i` is the last one with its key. */
  predicate LastOfKey<K(==), V>(pairs: seq<(K, V)>, i: int)
    requires 0 <= i < |pairs|
  {
    forall j :: i < j < |pairs| ==> pairs[j].0 != pairs[i].0
  }

  /** The keys of the dictionary are the keys of the pairs; each maps to the value of its last pair. */
  lemma {:induction false} DictOfSpec<K, V>(pairs: seq<(K, V)>)
    ensures DictOf(pairs).Keys == set i | 0 <= i < |pairs| :: pairs[i].0
    ensures forall i :: 0 <= i < |pairs| && LastOfKey(pairs, i) ==> DictOf(pairs)[pairs[i].0] == pairs[i].1
  {
    if pairs != [] {
      var n := |pairs| - 1;
      var init := pairs[..n];
      DictOfSpec(init);
      assert forall i :: 0 <= i < n ==> init[i] == pairs[i];
      assert (set i | 0 <= i < |pairs| :: pairs[i].0) == (set i | 0 <= i < n :: init[i].0) + {pairs[n].0};
      forall i | 0 <= i < |pairs| && LastOfKey(pairs, i)
        ensures DictOf(pairs)[pairs[i].0] == pairs[i].1
      {
        if i < n {
          assert pairs[n].0 != pairs[i].0;
          assert init[i] == pairs[i];
          assert LastOfKey(init, i);
        }
      }
    }
  }

  // ---------------------------------------------------------------------------
  // Errors raised while mapping over the children
  // ---------------------------------------------------------------------------

  /** Evaluates results in order: the values when all succeed, else the first error. */
  function AllSuccess<T, E>(rs: seq<Result<T, E>>): (r: Result<seq<T>, E>)
    ensures r.Success? <==> forall i :: 0 <= i < |rs| ==> rs[i].Success?
    ensures r.Success? ==> |r.value| == |rs| && forall i :: 0 <= i < |rs| ==> r.value[i] == rs[i].value
    ensures r.Failure? ==>
      exists i :: 0 <= i < |rs| && rs[i] == Failure(r.error) && forall j :: 0 <= j < i ==> rs[j].Success?
  {
    if rs == [] then Success([])
    else if rs[0].Failure? then Failure(rs[0].error)
    else
      var rest :- AllSuccess(rs[1..]);
      Success([rs[0].value] + rest)
  }

  // ---------------------------------------------------------------------------
  // The recursion, with one pair of timestamps for the whole tree
  // ---------------------------------------------------------------------------

  /** The result for `a` when every account of its tree is measured between the timestamps `t`. */
  function BalanceTree(a: Account, ledger: Ledger, t: Stamps): (string, Report)
    decreases a, 1
  {
    (a.name, Report(Movement(a, ledger, t), DictOf(ChildResults(a, ledger, t))))
  }

  /** `map(..., children)`: the children's `(name, result)` pairs in sorted order. */
  function ChildResults(a: Account, ledger: Ledger, t: Stamps): (rs: seq<(string, Report)>)
    ensures |rs| == |a.children|
    ensures forall i :: 0 <= i < |rs| ==> rs[i].0 == a.children[i].name
    decreases a, 0
  {
    seq(|a.children|, i requires 0 <= i < |a.children| => BalanceTree(a.children[i], ledger, t))
  }

  function ChildNames(a: Account): set<string> {
    set i | 0 <= i < |a.children| :: a.children[i].name
  }

  /** Child `i` is the last child with its name. */
  predicate LastNamed(a: Account, i: int)
    requires 0 <= i < |a.children|
  {
    forall j :: i < j < |a.children| ==> a.children[j].name != a.children[i].name
  }

  /**
   * `r` reports account `a` between the timestamps `t`: its balance is the
   * account's movement between them, it has one entry per distinct child name,
   * and the entry for a name reports, recursively between the same timestamps,
   * the last child of that name.
   */
  ghost predicate Mirrors(a: Account, r: Report, ledger: Ledger, t: Stamps)
    decreases a
  {
    && r.balance == Movement(a, ledger, t)
    && r.children.Keys == ChildNames(a)
    && forall i :: 0 <= i < |a.children| && LastNamed(a, i) ==>
         a.children[i].name in r.children && Mirrors(a.children[i], r.children[a.children[i].name], ledger, t)
  }

  /** The result carries the account's name and mirrors its whole tree between the one pair of timestamps. */
  lemma {:induction false} BalanceTreeMirrors(a: Account, ledger: Ledger, t: Stamps)
    ensures BalanceTree(a, ledger, t).0 == a.name
    ensures Mirrors(a, BalanceTree(a, ledger, t).1, ledger, t)
    ensures a.children == [] ==> BalanceTree(a, ledger, t).1.children == map[]
    decreases a
  {
    var rs := ChildResults(a, ledger, t);
    var r := BalanceTree(a, ledger, t).1;
    DictOfSpec(rs);
    assert r.children.Keys == ChildNames(a) by {
      forall k ensures k in r.children.Keys <==> k in ChildNames(a) {
        if k in ChildNames(a) {
          var i :| 0 <= i < |a.children| && a.children[i].name == k;
          assert rs[i].0 == k;
        }
      }
    }
    forall i | 0 <= i < |a.children| && LastNamed(a, i)
      ensures a.children[i].name in r.children && Mirrors(a.children[i], r.children[a.children[i].name], ledger, t)
    {
      assert LastOfKey(rs, i);
      BalanceTreeMirrors(a.children[i], ledger, t);
    }
  }

  /** Siblings with the same name share one entry, and the later of them in sorted order fills it. */
  lemma LaterSiblingWins(a: Account, ledger: Ledger, t: Stamps, i: int, j: int)
    requires 0 <= i < j < |a.children|
    requires a.children[i].name == a.children[j].name && LastNamed(a, j)
    ensures a.children[i].name in BalanceTree(a, ledger, t).1.children
    ensures BalanceTree(a, ledger, t).1.children[a.children[i].name] == BalanceTree(a.children[j], ledger, t).1
  {
    var rs := ChildResults(a, ledger, t);
    DictOfSpec(rs);
    assert LastOfKey(rs, j);
  }

  // ---------------------------------------------------------------------------
  // get_balances and get_monthly_balances
  // ---------------------------------------------------------------------------

  /** `get_balances(account, starttime, endtime)` with the children measured over the caller's window. */
  function GetBalances(a: Account, starttime: Option<DateTime>, endtime: Option<DateTime>, now: DateTime, ledger: Ledger)
    : (r: Result<(string, Report), Error>)
    requires ValidDateTime(now)
    requires starttime.Some? ==> ValidDateTime(starttime.value)
    requires endtime.Some? ==> ValidDateTime(endtime.value)
  {
    var w :- ResolveWindow(starttime, endtime, now);
    var t :- WindowStamps(ledger, w);
    Success(BalanceTree(a, ledger, t))
  }

  /**
   * `get_balances` as written: the window, then its two timestamps, then
   * `map(get_balances, children)`, which passes each child alone, so every child
   * resolves its window afresh from the clock reading `now`.
   */
  function GetBalancesAsWritten(a: Account, starttime: Option<DateTime>, endtime: Option<DateTime>, now: DateTime, ledger: Ledger)
    : (r: Result<(string, Report), Error>)
    requires ValidDateTime(now)
    requires starttime.Some? ==> ValidDateTime(starttime.value)
    requires endtime.Some? ==> ValidDateTime(endtime.value)
    decreases a, 1
  {
    var w :- ResolveWindow(starttime, endtime, now);
    var t :- WindowStamps(ledger, w);
    var pairs :- AllSuccess(ChildrenAsWritten(a, now, ledger));
    Success((a.name, Report(Movement(a, ledger, t), DictOf(pairs))))
  }

  /** `map(get_balances, children)` as written: each child called alone. */
  function ChildrenAsWritten(a: Account, now: DateTime, ledger: Ledger): (rs: seq<Result<(string, Report), Error>>)
    requires ValidDateTime(now)
    ensures |rs| == |a.children|
    decreases a, 0
  {
    seq(|a.children|, i requires 0 <= i < |a.children| => GetBalancesAsWritten(a.children[i], None, None, now, ledger))
  }

  /** `get_monthly_balances` as written: the as-written month window handed to `get_balances` as written. */
  function GetMonthlyBalancesAsWritten(a: Account, year: int, month: int, now: DateTime, ledger: Ledger)
    : (r: Result<(string, Report), Error>)
    requires ValidDateTime(now)
  {
    var w :- MonthWindowAsWritten(year, month);
    GetBalancesAsWritten(a, Some(w.start), Some(w.end), now, ledger)
  }

  /** `get_monthly_balances` with both corrections: December rolls over, and children keep the window. */
  function GetMonthlyBalances(a: Account, year: int, month: int, now: DateTime, ledger: Ledger)
    : (r: Result<(string, Report), Error>)
    requires ValidDateTime(now)
  {
    var w :- MonthWindow(year, month);
    GetBalances(a, Some(w.start), Some(w.end), now, ledger)
  }

  /**
   * The corrected report resolves the window once, converts its two ends once,
   * and mirrors the whole account tree between those timestamps. It fails with
   * `OverflowError` when the default start overflows, and otherwise with the
   * error of the first conversion that fails: `ValueError` for a start in the
   * years 100 to 1899.
   */
  lemma GetBalancesSpec(a: Account, starttime: Option<DateTime>, endtime: Option<DateTime>, now: DateTime, ledger: Ledger)
    requires ValidDateTime(now)
    requires starttime.Some? ==> ValidDateTime(starttime.value)
    requires endtime.Some? ==> ValidDateTime(endtime.value)
    ensures var r := GetBalances(a, starttime, endtime, now, ledger);
      var w := ResolveWindow(starttime, endtime, now);
      && (w.Failure? ==> r == Failure(OverflowError))
      && (w.Success? ==>
            var s := MkTime(ledger.mktime, w.value.start);
            var e := MkTime(ledger.mktime, w.value.end);
            && (r.Success? <==> s.Success? && e.Success?)
            && (r.Failure? ==> r.error == (if s.Failure? then s.error else e.error))
            && (100 <= w.value.start.date.year <= 1899 ==> r == Failure(ValueError))
            && (100 <= w.value.end.date.year <= 1899 ==> r.Failure?)
            && (r.Success? ==> r.value.0 == a.name && Mirrors(a, r.value.1, ledger, Stamps(s.value, e.value))))
  {
    ResolveWindowSpec(starttime, endtime, now);
    var w := ResolveWindow(starttime, endtime, now);
    if w.Success? {
      MkTimeSpec(ledger.mktime, w.value.start);
      MkTimeSpec(ledger.mktime, w.value.end);
      var t := WindowStamps(ledger, w.value);
      if t.Success? {
        BalanceTreeMirrors(a, ledger, t.value);
      }
    }
  }

  /** The platform's timestamps of the two ends of the month window, when it has both. */
  function MonthStamps(ledger: Ledger, year: int, month: int): Option<Stamps>
    requires 1 <= month <= 12
  {
    var s := ledger.mktime(AtMidnight(LastDayOfPreviousMonth(year, month)));
    var e := ledger.mktime(AtMidnight(LastDayOfMonth(year, month)));
    if s.Some? && e.Some? then Some(Stamps(s.value, e.value)) else None
  }

  /** A month window whose start falls before 1900: every month up to January 1900. */
  predicate StartsBefore1900(year: int, month: int) {
    year < 1900 || (year == 1900 && month == 1)
  }

  /**
   * Converting the month window: `ValueError` up to January 1900, whose window
   * starts on 31 December 1899; from then on the platform's timestamps of the
   * two midnights, or `OverflowError` when it lacks one of them.
   */
  lemma MonthWindowStamps(ledger: Ledger, year: int, month: int)
    requires 1000 <= year <= 9999 && 1 <= month <= 12 && !(year == 9999 && month == 12)
    ensures MonthWindow(year, month).Success?
    ensures WindowStamps(ledger, MonthWindow(year, month).value) ==
      if StartsBefore1900(year, month) then Failure(ValueError)
      else if MonthStamps(ledger, year, month).None? then Failure(OverflowError)
      else Success(MonthStamps(ledger, year, month).value)
  {
    MonthWindowSpec(year, month);
    var w := MonthWindow(year, month).value;
    MkTimeSpec(ledger.mktime, w.start);
    MkTimeSpec(ledger.mktime, w.end);
  }

  /**
   * The corrected monthly report exists for every month from February 1900 to
   * November 9999 whose two midnights the platform can convert, and mirrors the
   * whole tree between them, whatever the clock says. Outside the four-digit
   * years, and up to January 1900, it fails with `ValueError`.
   */
  lemma GetMonthlyBalancesSpec(a: Account, year: int, month: int, now: DateTime, ledger: Ledger)
    requires ValidDateTime(now)
    ensures var r := GetMonthlyBalances(a, year, month, now, ledger);
      var defined := 1000 <= year <= 9999 && 1 <= month <= 12 && !(year == 9999 && month == 12);
      && (r.Success? <==> defined && !StartsBefore1900(year, month) && MonthStamps(ledger, year, month).Some?)
      && (r.Failure? ==> r.error == (if !defined || StartsBefore1900(year, month) then ValueError else OverflowError))
      && (r.Success? ==> r.value.0 == a.name && Mirrors(a, r.value.1, ledger, MonthStamps(ledger, year, month).value))
  {
    MonthWindowDefined(year, month);
    var mw := MonthWindow(year, month);
    if mw.Success? {
      MonthWindowStamps(ledger, year, month);
      ResolveWindowSpec(Some(mw.value.start), Some(mw.value.end), now);
      var t := WindowStamps(ledger, mw.value);
      if t.Success? {
        BalanceTreeMirrors(a, ledger, t.value);
      }
    }
  }

  // ---------------------------------------------------------------------------
  // What the code as written computes
  // ---------------------------------------------------------------------------

  /** Called without a window, the code as written computes what the corrected code computes. */
  lemma {:induction false} AsWrittenWithoutWindow(a: Account, now: DateTime, ledger: Ledger)
    requires ValidDateTime(now)
    ensures GetBalancesAsWritten(a, None, None, now, ledger) == GetBalances(a, None, None, now, ledger)
    decreases a, 1
  {
    var d := ResolveWindow(None, None, now);
    if d.Success? && WindowStamps(ledger, d.value).Success? {
      ChildrenAsWrittenSpec(a, now, ledger);
    }
  }

  /**
   * The children's results as written are the window-less call's: when they
   * all succeed they are that call's pairs, and otherwise the error is its
   * error, as soon as there is a child.
   */
  lemma {:induction false} ChildrenAsWrittenSpec(a: Account, now: DateTime, ledger: Ledger)
    requires ValidDateTime(now)
    ensures var rs := AllSuccess(ChildrenAsWritten(a, now, ledger));
      var c := GetBalances(a, None, None, now, ledger);
      && (rs.Success? <==> a.children == [] || c.Success?)
      && (rs.Failure? ==> rs.error == c.error)
      && (rs.Success? && a.children == [] ==> rs.value == [])
      && (c.Success? ==> DictOf(rs.value) == c.value.1.children)
    decreases a, 0
  {
    var c := GetBalances(a, None, None, now, ledger);
    var rs := ChildrenAsWritten(a, now, ledger);
    forall i | 0 <= i < |a.children|
      ensures rs[i] == GetBalances(a.children[i], None, None, now, ledger)
    {
      AsWrittenWithoutWindow(a.children[i], now, ledger);
    }
    if c.Success? {
      var t := WindowStamps(ledger, ResolveWindow(None, None, now).value).value;
      assert AllSuccess(rs).value == ChildResults(a, ledger, t);
    } else if a.children != [] {
      assert rs[0].Failure?;
    }
  }

  /**
   * With a window given, the code as written measures only the top account
   * between that window's timestamps: every child's entry is the one the
   * window-less call reports from the clock reading, and that call's failure
   * is the whole call's failure when there is a child to measure.
   */
  lemma AsWrittenWithWindow(a: Account, start: DateTime, end: DateTime, now: DateTime, ledger: Ledger)
    requires ValidDateTime(now) && ValidDateTime(start) && ValidDateTime(end)
    ensures var r := GetBalancesAsWritten(a, Some(start), Some(end), now, ledger);
      var t := WindowStamps(ledger, Window(start, end));
      var c := GetBalances(a, None, None, now, ledger);
      && (r.Success? <==> t.Success? && (a.children == [] || c.Success?))
      && (r.Failure? ==> r.error == (if t.Failure? then t.error else c.error))
      && (r.Success? ==> r.value.0 == a.name && r.value.1.balance == Movement(a, ledger, t.value))
      && (r.Success? && a.children != [] ==> r.value.1.children == c.value.1.children)
      && (r.Success? && a.children == [] ==> r.value.1.children == map[])
  {
    assert ResolveWindow(Some(start), Some(end), now) == Success(Window(start, end));
    ChildrenAsWrittenSpec(a, now, ledger);
  }

  /**
   * The monthly report as written exists for months 1 to 11 from February 1900
   * on whose two midnights the platform can convert, and then only when the
   * account has no child or the window-less call succeeds: it reports the top
   * account over the month and every child over the clock's default window.
   */
  lemma GetMonthlyBalancesAsWrittenSpec(a: Account, year: int, month: int, now: DateTime, ledger: Ledger)
    requires ValidDateTime(now)
    ensures var r := GetMonthlyBalancesAsWritten(a, year, month, now, ledger);
      var defined := 1000 <= year <= 9999 && 1 <= month <= 11;
      var c := GetBalances(a, None, None, now, ledger);
      && (r.Success? <==>
            defined && !StartsBefore1900(year, month) && MonthStamps(ledger, year, month).Some?
            && (a.children == [] || c.Success?))
      && (r.Failure? ==>
            r.error == (if !defined || StartsBefore1900(year, month) then ValueError
                        else if MonthStamps(ledger, year, month).None? then OverflowError
                        else c.error))
      && (r.Success? ==>
            && r.value.0 == a.name
            && r.value.1.balance == Movement(a, ledger, MonthStamps(ledger, year, month).value)
            && (a.children != [] ==> r.value.1.children == c.value.1.children)
            && (a.children == [] ==> r.value.1.children == map[]))
  {
    MonthWindowAsWrittenDefined(year, month);
    var mw := MonthWindowAsWritten(year, month);
    if mw.Success? {
      MonthWindowAgreesBeforeDecember(year, month);
      MonthWindowStamps(ledger, year, month);
      AsWrittenWithWindow(a, mw.value.start, mw.value.end, now, ledger);
    }
  }

  // ---------------------------------------------------------------------------
  // The child's window, on one small book
  // ---------------------------------------------------------------------------

  /** A book whose timestamps are day ordinals and in which every account's balance is the timestamp. */
  function DayCountLedger(): Ledger {
    Ledger((dt: DateTime) => Some(if 1 <= dt.date.month <= 12 then Ordinal(dt.date) else 0),
           (id: AccountId, t: int) => t)
  }

  /** In that book the timestamps of a window from 1900 on are its days' ordinals. */
  lemma DayCountStamps(w: Window) returns (t: Stamps)
    requires ValidWindow(w) && w.start.date.year >= 1900 && w.end.date.year >= 1900
    ensures WindowStamps(DayCountLedger(), w) == Success(t)
    ensures t.end - t.start == DaysBetween(w.start.date, w.end.date)
  {
    MkTimeSpec(DayCountLedger().mktime, w.start);
    MkTimeSpec(DayCountLedger().mktime, w.end);
    t := WindowStamps(DayCountLedger(), w).value;
  }

  /**
   * Asked for March 2020 on 14 October 2026, the code as written measures the
   * top account over March 2020 (31 days) but its child over 1 to 14 October 2026
   * (14 days); the corrected report measures both over March 2020.
   */
  lemma ChildWindowCounterexample()
    ensures var child := Account(1, "Groceries", []);
      var root := Account(0, "Expenses", [child]);
      var now := DateTime(Date(2026, 10, 14), TimeOfDay(12, 0, 0, 0));
      && GetMonthlyBalancesAsWritten(root, 2020, 3, now, DayCountLedger()) ==
           Success(("Expenses", Report(31, map["Groceries" := Report(14, map[])])))
      && GetMonthlyBalances(root, 2020, 3, now, DayCountLedger()) ==
           Success(("Expenses", Report(31, map["Groceries" := Report(31, map[])])))
  {
    var child := Account(1, "Groceries", []);
    var root := Account(0, "Expenses", [child]);
    var now := DateTime(Date(2026, 10, 14), TimeOfDay(12, 0, 0, 0));
    var w, t := MarchWindowMovement(root);
    DefaultWindowMovement(root, now);
    AsWrittenWithWindow(root, w.start, w.end, now, DayCountLedger());
    assert GetMonthlyBalancesAsWritten(root, 2020, 3, now, DayCountLedger()) ==
      GetBalancesAsWritten(root, Some(w.start), Some(w.end), now, DayCountLedger());
    assert GetMonthlyBalances(root, 2020, 3, now, DayCountLedger()) == Success(BalanceTree(root, DayCountLedger(), t));
  }

  /** Every account of a tree with one leaf child moves by 31 days over the window of March 2020. */
  lemma MarchWindowMovement(root: Account) returns (w: Window, t: Stamps)
    requires |root.children| == 1 && root.children[0].children == []
    ensures MonthWindow(2020, 3) == Success(w) && MonthWindowAsWritten(2020, 3) == Success(w)
    ensures WindowStamps(DayCountLedger(), w) == Success(t)
    ensures BalanceTree(root, DayCountLedger(), t).1 ==
      Report(31, map[root.children[0].name := Report(31, map[])])
  {
    MonthWindowDefined(2020, 3);
    MonthWindowSpec(2020, 3);
    MonthWindowAgreesBeforeDecember(2020, 3);
    w := MonthWindow(2020, 3).value;
    t := DayCountStamps(w);
    OneLeafChildTree(root, t, 31);
  }

  /** On 14 October 2026 the window-less report of such a tree gives the child 14 days. */
  lemma DefaultWindowMovement(root: Account, now: DateTime)
    requires |root.children| == 1 && root.children[0].children == []
    requires now == DateTime(Date(2026, 10, 14), TimeOfDay(12, 0, 0, 0))
    ensures GetBalances(root, None, None, now, DayCountLedger()).Success?
    ensures GetBalances(root, None, None, now, DayCountLedger()).value.1.children ==
      map[root.children[0].name := Report(14, map[])]
  {
    DefaultStartSpec(now);
    var d := ResolveWindow(None, None, now).value;
    assert d == Window(DefaultStart(now).value, now);
    var t := DayCountStamps(d);
    OneLeafChildTree(root, t, 14);
  }

  /** The report of a tree with one leaf child, between timestamps `days` apart in that book. */
  lemma OneLeafChildTree(root: Account, t: Stamps, days: int)
    requires |root.children| == 1 && root.children[0].children == []
    requires t.end - t.start == days
    ensures BalanceTree(root, DayCountLedger(), t).1 ==
      Report(days, map[root.children[0].name := Report(days, map[])])
  {
    var child := root.children[0];
    assert BalanceTree(child, DayCountLedger(), t) == (child.name, Report(days, map[]));
    var rs := ChildResults(root, DayCountLedger(), t);
    assert rs == [(child.name, Report(days, map[]))];
    assert rs[..0] == [];
  }
}
