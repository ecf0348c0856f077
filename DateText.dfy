/**
 * The two conversions between dates and text in the month window of
 * `get_monthly_balances` (gnucash_budget_report.py):
 * `"{:4d}-{:02d}-{:02d}".format(y, m, d)` and
 * `datetime.strptime(s, '%Y-%m-%d')`.
 *
 * The parser accepts exactly the strings the `%Y-%m-%d` pattern of Python's
 * `_strptime` matches in full (year `\d\d\d\d`, month `1[0-2]|0[1-9]|[1-9]`,
 * day `3[01]|[12]\d|0[1-9]|[1-9]| [1-9]`), and then fails, as `datetime` does,
 * for year 0 and for a day past the end of its month.
 */
module DateText {
  import opened Wrappers
  import opened Calendar

  predicate IsDigit(c: char) {
    '0' <= c <= '9'
  }

  predicate AllDigits(s: string) {
    forall i :: 0 <= i < |s| ==> IsDigit(s[i])
  }

  function DigitChar(v: int): (c: char)
    requires 0 <= v <= 9
    ensures IsDigit(c) && c as int == '0' as int + v
  {
    ('0' as int + v) as char
  }

  function DigitValue(c: char): (v: int)
    requires IsDigit(c)
    ensures 0 <= v <= 9 && DigitChar(v) == c
  {
    c as int - '0' as int
  }

  /** `str(n)` for a natural number: decimal, no leading zeros. */
  function Digits(n: nat): (s: string)
    ensures |s| >= 1 && AllDigits(s)
  {
    if n < 10 then [DigitChar(n)] else Digits(n / 10) + [DigitChar(n % 10)]
  }

  /** `int(s)` for a string of decimal digits. */
  function DigitsValue(s: string): (v: nat)
    requires AllDigits(s)
  {
    if s == [] then 0 else DigitsValue(s[..|s| - 1]) * 10 + DigitValue(s[|s| - 1])
  }

  function Pow10(k: nat): (p: nat)
    ensures p >= 1
  {
    if k == 0 then 1 else 10 * Pow10(k - 1)
  }

  /** Reading back the digits of `n` gives `n`. */
  lemma {:induction false} DigitsRoundTrip(n: nat)
    ensures DigitsValue(Digits(n)) == n
  {
    if n >= 10 {
      DigitsRoundTrip(n / 10);
      var s := Digits(n);
      assert s[..|s| - 1] == Digits(n / 10);
    }
  }

  /** `n` has at most k digits exactly when it is below 10^k. */
  lemma {:induction false} DigitsLength(n: nat, k: nat)
    requires k >= 1
    ensures |Digits(n)| <= k <==> n < Pow10(k)
  {
    if n >= 10 {
      if k == 1 {
        assert Pow10(1) == 10;
      } else {
        DigitsLength(n / 10, k - 1);
        assert n / 10 < Pow10(k - 1) <==> n < 10 * Pow10(k - 1);
      }
    } else {
      assert Pow10(k) >= 10 by {
        if k > 1 {
          assert Pow10(k - 1) >= 1;
        }
      }
    }
  }

  function Repeat(c: char, n: nat): (s: string)
    ensures |s| == n && forall i :: 0 <= i < n ==> s[i] == c
  {
    if n == 0 then [] else [c] + Repeat(c, n - 1)
  }

  /** Right-justifies `s` in a field of `width` characters filled with `fill`. */
  function PadLeft(s: string, width: nat, fill: char): (r: string)
  {
    if |s| >= width then s else Repeat(fill, width - |s|) + s
  }

  /** `"{:4d}".format(n)`: sign and digits, right-justified with spaces to width 4. */
  function Format4d(n: int): string {
    var body := if n < 0 then "-" + Digits(-n) else Digits(n);
    PadLeft(body, 4, ' ')
  }

  /** `"{:02d}".format(n)`: zero-padded to width 2 after the sign. */
  function Format02d(n: int): string {
    if n < 0 then "-" + Digits(-n) else PadLeft(Digits(n), 2, '0')
  }

  /** `fmt` of `get_monthly_balances`, applied to a year, a month and a day. */
  function FormatDate(y: int, m: int, d: int): string {
    Format4d(y) + "-" + Format02d(m) + "-" + Format02d(d)
  }

  /** The index of the first `c` in `s`, or `|s|` when there is none. */
  function FirstIndex(s: string, c: char): (j: nat)
    ensures j <= |s|
    ensures j < |s| ==> s[j] == c
    ensures forall i :: 0 <= i < j ==> s[i] != c
  {
    if s == [] then 0
    else if s[0] == c then 0
    else 1 + FirstIndex(s[1..], c)
  }

  /** The `%m` alternatives `1[0-2]|0[1-9]|[1-9]`, and the month each one denotes. */
  function MonthToken(t: string): (r: Option<int>)
    ensures r.Some? ==> 1 <= r.value <= 12
  {
    if |t| == 2 && t[0] == '1' && '0' <= t[1] <= '2' then Some(10 + DigitValue(t[1]))
    else if |t| == 2 && t[0] == '0' && '1' <= t[1] <= '9' then Some(DigitValue(t[1]))
    else if |t| == 1 && '1' <= t[0] <= '9' then Some(DigitValue(t[0]))
    else None
  }

  /** The `%d` alternatives `3[01]|[12]\d|0[1-9]|[1-9]| [1-9]`, and the day each one denotes. */
  function DayToken(t: string): (r: Option<int>)
    ensures r.Some? ==> 1 <= r.value <= 31
  {
    if |t| == 2 && t[0] == '3' && '0' <= t[1] <= '1' then Some(30 + DigitValue(t[1]))
    else if |t| == 2 && '1' <= t[0] <= '2' && IsDigit(t[1]) then Some(10 * DigitValue(t[0]) + DigitValue(t[1]))
    else if |t| == 2 && t[0] == '0' && '1' <= t[1] <= '9' then Some(DigitValue(t[1]))
    else if |t| == 1 && '1' <= t[0] <= '9' then Some(DigitValue(t[0]))
    else if |t| == 2 && t[0] == ' ' && '1' <= t[1] <= '9' then Some(DigitValue(t[1]))
    else None
  }

  /**
   * `datetime.strptime(s, '%Y-%m-%d')`: a text holding a NUL is refused with
   * TypeError before any matching; otherwise it is matched against the format.
   */
  function StringToDate(s: string): (r: Result<DateTime, Error>)
    ensures r.Success? ==> ValidDateTime(r.value) && r.value.time == MIDNIGHT
    ensures r.Failure? ==> r.error == (if '\0' in s then TypeError else ValueError)
  {
    if FirstIndex(s, '\0') < |s| then Failure(TypeError) else MatchDate(s)
  }

  /** Matching `%Y-%m-%d`: four digits and a dash, then month and day. */
  function MatchDate(s: string): (r: Result<DateTime, Error>)
    ensures r.Success? ==> ValidDateTime(r.value) && r.value.time == MIDNIGHT
    ensures r.Failure? ==> r.error == ValueError
  {
    if |s| < 5 || !AllDigits(s[..4]) || s[4] != '-' then Failure(ValueError)
    else ParseMonthDay(DigitsValue(s[..4]), s[5..])
  }

  /**
   * The text after `YYYY-`. The month alternatives hold digits only, so the month
   * text is what lies before the next dash; the day text must reach the end.
   */
  function ParseMonthDay(y: int, rest: string): (r: Result<DateTime, Error>)
    ensures r.Success? ==> ValidDateTime(r.value) && r.value.time == MIDNIGHT && r.value.date.year == y
    ensures r.Failure? ==> r.error == ValueError
  {
    var j := FirstIndex(rest, '-');
    if j == |rest| then Failure(ValueError)
    else match (MonthToken(rest[..j]), DayToken(rest[j + 1..]))
      case (Some(m), Some(d)) =>
        var date := Date(y, m, d);
        if ValidDate(date) then Success(AtMidnight(date)) else Failure(ValueError)
      case _ => Failure(ValueError)
  }

  // ---------------------------------------------------------------------------
  // What the formatter produces
  // ---------------------------------------------------------------------------

  /** A year of four digits is printed as exactly those digits. */
  lemma Format4dFourDigits(y: int)
    requires 1000 <= y <= 9999
    ensures Format4d(y) == Digits(y) && |Format4d(y)| == 4
  {
    DigitsLength(y, 3);
    DigitsLength(y, 4);
    assert Pow10(3) == 1000 && Pow10(4) == 10000;
  }

  /** Any other year does not start with four digits and a dash. */
  lemma Format4dOtherYears(y: int, rest: string)
    requires !(1000 <= y <= 9999)
    ensures var s := Format4d(y) + rest; |s| >= 5 ==> !AllDigits(s[..4]) || s[4] != '-'
  {
    var s := Format4d(y) + rest;
    assert Pow10(3) == 1000 && Pow10(4) == 10000;
    if y < 0 {
      var body := "-" + Digits(-y);
      if |body| < 4 {
        assert s[0] == ' ';
      } else {
        assert s[0] == '-';
      }
    } else if y < 1000 {
      DigitsLength(y, 3);
      assert s[0] == ' ';
    } else {
      DigitsLength(y, 4);
      assert IsDigit(Digits(y)[4]);
      assert s[4] == Digits(y)[4];
    }
  }

  /** `{:02d}` of a non-negative number contains no dash. */
  lemma Format02dNoDash(n: int)
    requires n >= 0
    ensures forall i :: 0 <= i < |Format02d(n)| ==> Format02d(n)[i] != '-'
  {
  }

  /** A number below 100 is printed by `{:02d}` as its tens digit and its units digit. */
  lemma Format02dTwoDigits(n: int)
    requires 0 <= n <= 99
    ensures Format02d(n) == [DigitChar(n / 10), DigitChar(n % 10)]
  {
    if n >= 10 {
      assert Digits(n) == Digits(n / 10) + [DigitChar(n % 10)];
    }
  }

  lemma TwoDigitsValue(n: int)
    requires 0 <= n <= 99
    ensures AllDigits(Format02d(n)) && DigitsValue(Format02d(n)) == n
  {
    Format02dTwoDigits(n);
    var t := Format02d(n);
    var tens := [DigitChar(n / 10)];
    assert t[..1] == tens;
    assert tens[..0] == [];
    assert DigitsValue(tens) == n / 10 by {
      assert DigitValue(DigitChar(n / 10)) == n / 10;
    }
    assert DigitsValue(t) == DigitsValue(tens) * 10 + DigitValue(DigitChar(n % 10));
    assert DigitValue(DigitChar(n % 10)) == n % 10;
  }

  /** The month text printed by `{:02d}` is read back as the same month exactly when it is one. */
  lemma MonthTokenOfFormatted(m: int)
    ensures MonthToken(Format02d(m)) == if 1 <= m <= 12 then Some(m) else None
  {
    if 0 <= m <= 99 {
      Format02dTwoDigits(m);
    } else if m >= 100 {
      DigitsLength(m, 2);
      assert Pow10(2) == 100;
    }
  }

  /** The day text printed by `{:02d}` is read back as the same day exactly when it is 1..31. */
  lemma DayTokenOfFormatted(d: int)
    ensures DayToken(Format02d(d)) == if 1 <= d <= 31 then Some(d) else None
  {
    if 0 <= d <= 99 {
      Format02dTwoDigits(d);
    } else if d >= 100 {
      DigitsLength(d, 2);
      assert Pow10(2) == 100;
    }
  }

  /**
   * For four-digit years and two-digit fields, `fmt` prints
   * `YYYY-MM-DD`: ten characters, dashes at 4 and 7, digits elsewhere, reading
   * back as the year, month and day.
   */
  lemma FormatDateShape(y: int, m: int, d: int)
    requires 1000 <= y <= 9999 && 0 <= m <= 99 && 0 <= d <= 99
    ensures var s := FormatDate(y, m, d);
      && |s| == 10 && s[4] == '-' && s[7] == '-'
      && AllDigits(s[..4]) && AllDigits(s[5..7]) && AllDigits(s[8..])
      && DigitsValue(s[..4]) == y && DigitsValue(s[5..7]) == m && DigitsValue(s[8..]) == d
  {
    var s := FormatDate(y, m, d);
    Format4dFourDigits(y);
    DigitsRoundTrip(y);
    Format02dTwoDigits(m);
    Format02dTwoDigits(d);
    assert s[..4] == Digits(y);
    assert s[5..7] == Format02d(m);
    assert s[8..] == Format02d(d);
    TwoDigitsValue(m);
    TwoDigitsValue(d);
  }

  /** The characters `fmt` can print: digits, the space it pads with, and the dash. */
  predicate FormatChars(s: string) {
    forall i :: 0 <= i < |s| ==> IsDigit(s[i]) || s[i] == ' ' || s[i] == '-'
  }

  /** `fmt` prints no NUL, so strptime never refuses its text with TypeError. */
  lemma FormatDateHasNoNul(y: int, m: int, d: int)
    ensures FormatChars(FormatDate(y, m, d))
    ensures '\0' !in FormatDate(y, m, d)
    ensures FirstIndex(FormatDate(y, m, d), '\0') == |FormatDate(y, m, d)|
  {
    assert FormatChars(Format4d(y));
    assert FormatChars(Format02d(m));
    assert FormatChars(Format02d(d));
    var s := FormatDate(y, m, d);
    assert FormatChars(s);
    assert forall i :: 0 <= i < |s| ==> s[i] != '\0';
  }

  /**
   * Parsing what `fmt` prints: midnight of that date when the year has four
   * digits and the date exists, ValueError for every other integer triple
   * (month 13 included).
   */
  lemma ParseFormatted(y: int, m: int, d: int)
    ensures StringToDate(FormatDate(y, m, d)) ==
      if 1000 <= y <= 9999 && ValidDate(Date(y, m, d)) then Success(AtMidnight(Date(y, m, d)))
      else Failure(ValueError)
  {
    FormatDateHasNoNul(y, m, d);
    MatchFormatted(y, m, d);
  }

  lemma MatchFormatted(y: int, m: int, d: int)
    ensures MatchDate(FormatDate(y, m, d)) ==
      if 1000 <= y <= 9999 && ValidDate(Date(y, m, d)) then Success(AtMidnight(Date(y, m, d)))
      else Failure(ValueError)
  {
    var rest := Format02d(m) + "-" + Format02d(d);
    assert FormatDate(y, m, d) == Format4d(y) + ("-" + rest);
    if 1000 <= y <= 9999 {
      ParseFourDigitYear(y, rest);
      ParseMonthDayFormatted(y, m, d);
    } else {
      Format4dOtherYears(y, "-" + rest);
    }
  }

  lemma ParseFourDigitYear(y: int, rest: string)
    requires 1000 <= y <= 9999
    ensures MatchDate(Format4d(y) + ("-" + rest)) == ParseMonthDay(y, rest)
  {
    var s := Format4d(y) + ("-" + rest);
    Format4dFourDigits(y);
    DigitsRoundTrip(y);
    assert s[..4] == Digits(y);
    assert s[5..] == rest;
  }

  lemma ParseMonthDayFormatted(y: int, m: int, d: int)
    ensures ParseMonthDay(y, Format02d(m) + "-" + Format02d(d)) ==
      if ValidDate(Date(y, m, d)) then Success(AtMidnight(Date(y, m, d))) else Failure(ValueError)
  {
    var rest := Format02d(m) + "-" + Format02d(d);
    var j := FirstIndex(rest, '-');
    if m < 0 {
      assert rest[0] == '-';
      assert rest[..j] == [];
    } else {
      Format02dNoDash(m);
      var k := |Format02d(m)|;
      assert rest[k] == '-';
      assert j == k;
      assert rest[..j] == Format02d(m);
      assert rest[j + 1..] == Format02d(d);
      MonthTokenOfFormatted(m);
      DayTokenOfFormatted(d);
    }
  }

  /** Two digits read as a month or a day exactly when their value is in range. */
  lemma TwoDigitTokens(t: string)
    requires |t| == 2 && AllDigits(t)
    ensures MonthToken(t) == if 1 <= DigitsValue(t) <= 12 then Some(DigitsValue(t)) else None
    ensures DayToken(t) == if 1 <= DigitsValue(t) <= 31 then Some(DigitsValue(t)) else None
  {
    var head := t[..1];
    assert head[..0] == [] && head[0] == t[0];
    assert DigitsValue(head) == DigitValue(t[0]);
    assert t[..|t| - 1] == head;
    assert DigitsValue(t) == 10 * DigitValue(t[0]) + DigitValue(t[1]);
  }

  /**
   * Any zero-padded `YYYY-MM-DD` text is read as midnight of the date its three
   * fields name, and fails with ValueError when there is no such date.
   */
  lemma ParseZeroPadded(s: string)
    requires |s| == 10 && s[4] == '-' && s[7] == '-'
    requires AllDigits(s[..4]) && AllDigits(s[5..7]) && AllDigits(s[8..])
    ensures var date := Date(DigitsValue(s[..4]), DigitsValue(s[5..7]), DigitsValue(s[8..]));
      StringToDate(s) == if ValidDate(date) then Success(AtMidnight(date)) else Failure(ValueError)
  {
    assert forall i :: 0 <= i < |s| ==> s[i] != '\0' by {
      forall i | 0 <= i < |s| ensures s[i] != '\0' {
        if i < 4 {
          assert s[i] == s[..4][i];
        } else if 5 <= i < 7 {
          assert s[i] == s[5..7][i - 5];
        } else if i >= 8 {
          assert s[i] == s[8..][i - 8];
        }
      }
    }
    var rest := s[5..];
    assert rest[..2] == s[5..7];
    assert rest[3..] == s[8..];
    assert FirstIndex(rest, '-') == 2 by {
      assert rest[0] != '-' && rest[1] != '-' by {
        assert IsDigit(s[5..7][0]) && IsDigit(s[5..7][1]);
      }
      assert rest[2] == '-';
    }
    TwoDigitTokens(s[5..7]);
    TwoDigitTokens(s[8..]);
  }
}
