/** The expiry token at the end of a contract symbol: its `%d%m%y` parse
    (two-digit day, month and year, the year pivoting as strptime's `%y`
    does) and the `%d-%m-%Y` text the date is displayed as. */
module ExpiryToken {
  import opened Wrappers
  import opened Calendar
  import Text

  predicate IsDigit(c: char)
  {
    '0' <= c <= '9'
  }

  function DigitValue(c: char): nat
    requires IsDigit(c)
  {
    (c as int) - ('0' as int)
  }

  function DigitChar(n: nat): (c: char)
    requires n < 10
    ensures IsDigit(c) && DigitValue(c) == n
  {
    (('0' as int) + n) as char
  }

  function TwoDigitValue(a: char, b: char): nat
    requires IsDigit(a) && IsDigit(b)
  {
    10 * DigitValue(a) + DigitValue(b)
  }

  /** Zero-padded two-digit rendering of `n`. */
  function TwoDigits(n: nat): (s: string)
    requires n < 100
    ensures |s| == 2 && IsDigit(s[0]) && IsDigit(s[1]) && TwoDigitValue(s[0], s[1]) == n
  {
    [DigitChar(n / 10), DigitChar(n % 10)]
  }

  /** strptime's `%y`: 69 to 99 are read as 1969 to 1999, 00 to 68 as
      2000 to 2068. */
  function CenturyYear(yy: nat): (y: int)
    requires yy < 100
    ensures 1969 <= y <= 2068 && y % 100 == yy
  {
    if yy <= 68 then 2000 + yy else 1900 + yy
  }

  /** The years a two-digit `%y` can denote. */
  predicate InPivotWindow(d: Date)
  {
    1969 <= d.year <= 2068
  }

  predicate AllDigits(t: string)
  {
    forall i :: 0 <= i < |t| ==> IsDigit(t[i])
  }

  /** `pd.to_datetime(token, format="%d%m%y")`: six digits naming an
      existing day, or no date at all (the caller raises). */
  function ParseDdmmyy(t: string): (r: Option<Date>)
    ensures r.Some? ==> ValidDate(r.value) && InPivotWindow(r.value)
    ensures r.Some? ==> |t| == 6 && AllDigits(t)
  {
    if |t| == 6 && AllDigits(t) then
      var d := Date(CenturyYear(TwoDigitValue(t[4], t[5])),
                    TwoDigitValue(t[2], t[3]),
                    TwoDigitValue(t[0], t[1]));
      if ValidDate(d) then Some(d) else None
    else None
  }

  /** `d.strftime("%d%m%y")`, the inverse of ParseDdmmyy. */
  function FormatDdmmyy(d: Date): (t: string)
    requires ValidDate(d) && InPivotWindow(d)
    ensures |t| == 6 && AllDigits(t)
  {
    TwoDigits(d.day) + TwoDigits(d.month) + TwoDigits(d.year % 100)
  }

  /** Every day of the pivot window is denoted by exactly one token:
      formatting then parsing gives the day back ... */
  lemma ParseFormat(d: Date)
    requires ValidDate(d) && InPivotWindow(d)
    ensures ParseDdmmyy(FormatDdmmyy(d)) == Some(d)
  {
    var dd, mm, yy := TwoDigits(d.day), TwoDigits(d.month), TwoDigits(d.year % 100);
    var t := FormatDdmmyy(d);
    assert t[0] == dd[0] && t[1] == dd[1];
    assert t[2] == mm[0] && t[3] == mm[1];
    assert t[4] == yy[0] && t[5] == yy[1];
    assert CenturyYear(d.year % 100) == d.year;
  }

  /** ... and parsing then formatting gives the token back. */
  lemma FormatParse(t: string)
    requires ParseDdmmyy(t).Some?
    ensures FormatDdmmyy(ParseDdmmyy(t).value) == t
  {
    var d := ParseDdmmyy(t).value;
    var u := FormatDdmmyy(d);
    assert u[0] == t[0] && u[1] == t[1];
    assert u[2] == t[2] && u[3] == t[3];
    assert u[4] == t[4] && u[5] == t[5];
  }

  /** `d.strftime("%d-%m-%Y")` for a four-digit year. */
  function DisplayDate(d: Date): (s: string)
    requires ValidDate(d) && 1000 <= d.year <= 9999
    ensures |s| == 10 && s[2] == '-' && s[5] == '-'
  {
    TwoDigits(d.day) + "-" + TwoDigits(d.month) + "-" + TwoDigits(d.year / 100) + TwoDigits(d.year % 100)
  }

  /** The two century digits `%Y` writes in front of a `%y` year. */
  function CenturyDigits(yy: nat): string
    requires yy < 100
  {
    if yy <= 68 then "20" else "19"
  }

  /** The displayed expiry is the token rewritten: `ddmmyy` becomes
      `dd-mm-` followed by the century and `yy`. */
  lemma DisplayRewritesToken(t: string)
    requires ParseDdmmyy(t).Some?
    ensures var d := ParseDdmmyy(t).value;
      DisplayDate(d) == t[0..2] + "-" + t[2..4] + "-" + CenturyDigits(TwoDigitValue(t[4], t[5])) + t[4..6]
  {
    var d := ParseDdmmyy(t).value;
    FormatParse(t);
    var yy := TwoDigitValue(t[4], t[5]);
    assert TwoDigits(d.year / 100) == CenturyDigits(yy);
    assert TwoDigits(d.year % 100) == t[4..6];
    assert TwoDigits(d.day) == t[0..2];
    assert TwoDigits(d.month) == t[2..4];
  }

  /** The token characters that a `dd-mm-YYYY` display keeps. */
  function TokenOfDisplay(s: string): string
    requires |s| == 10
  {
    s[0..2] + s[3..5] + s[8..10]
  }

  /** The token can be read back from its display, so two different
      valid tokens are never displayed alike. */
  lemma DisplayInjective(t: string, u: string)
    requires ParseDdmmyy(t).Some? && ParseDdmmyy(u).Some?
    ensures TokenOfDisplay(DisplayDate(ParseDdmmyy(t).value)) == t
    ensures t != u ==> DisplayDate(ParseDdmmyy(t).value) != DisplayDate(ParseDdmmyy(u).value)
  {
    DisplayRewritesToken(t);
    DisplayRewritesToken(u);
    var dt := DisplayDate(ParseDdmmyy(t).value);
    var du := DisplayDate(ParseDdmmyy(u).value);
    assert dt[0..2] == t[0..2] && dt[3..5] == t[2..4] && dt[8..10] == t[4..6];
    assert t == t[0..2] + t[2..4] + t[4..6];
    assert TokenOfDisplay(dt) == t;
    assert du[0..2] == u[0..2] && du[3..5] == u[2..4] && du[8..10] == u[4..6];
    assert u == u[0..2] + u[2..4] + u[4..6];
    assert TokenOfDisplay(du) == u;
  }

  /** Ordering tokens as strings, as the selection does, is not ordering
      them by date: 1 January 2026 sorts before 31 December 2025. */
  lemma TokenOrderIsNotDateOrder()
    ensures ParseDdmmyy("010126") == Some(Date(2026, 1, 1))
    ensures ParseDdmmyy("311225") == Some(Date(2025, 12, 31))
    ensures Text.Less("010126", "311225")
    ensures Before(Date(2025, 12, 31), Date(2026, 1, 1))
  {
    assert AllDigits("010126");
    assert AllDigits("311225");
  }
}
