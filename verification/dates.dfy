/** Calendar dates as the build tools use them: `datetime.date` comparison,
    and `datetime.strptime(s, "%Y-%m-%d")` with the patterns Python's `_strptime`
    compiles for the three directives. */
module Dates {
  import opened Wrappers

  datatype Date = Date(year: int, month: int, day: int)

  /** `a < b` on `datetime.date`: the (year, month, day) tuples in
      lexicographic order. */
  predicate Before(a: Date, b: Date)
  {
    a.year < b.year ||
    (a.year == b.year && (a.month < b.month || (a.month == b.month && a.day < b.day)))
  }

  /** An independent order on dates of the calendar: the number a date reads
      as when written YYYYMMDD. */
  function DayKey(d: Date): int
  {
    d.year * 10000 + d.month * 100 + d.day
  }

  /** Gregorian leap years. */
  predicate IsLeap(y: int)
  {
    y % 4 == 0 && (y % 100 != 0 || y % 400 == 0)
  }

  function DaysInMonth(y: int, m: int): (n: int)
    requires 1 <= m <= 12
    ensures 28 <= n <= 31
    ensures m == 2 ==> (n == 29 <==> IsLeap(y))
  {
    if m == 2 then (if IsLeap(y) then 29 else 28)
    else if m == 4 || m == 6 || m == 9 || m == 11 then 30
    else 31
  }

  /** A date `datetime.date` accepts: years 1 to 9999 and a day that exists. */
  predicate ValidDate(d: Date)
  {
    1 <= d.year <= 9999 && 1 <= d.month <= 12 && 1 <= d.day <= DaysInMonth(d.year, d.month)
  }

  /** On dates of the calendar, tuple order is the order of their YYYYMMDD
      numbers. */
  lemma BeforeIsKeyOrder(a: Date, b: Date)
    requires ValidDate(a) && ValidDate(b)
    ensures Before(a, b) <==> DayKey(a) < DayKey(b)
  {
    if a.year < b.year {
      assert DayKey(a) < (a.year + 1) * 10000;
      assert (a.year + 1) * 10000 <= b.year * 10000;
    } else if a.year > b.year {
      assert DayKey(b) < (b.year + 1) * 10000;
      assert (b.year + 1) * 10000 <= a.year * 10000;
    }
  }

  /** `Before` is a strict total order on calendar dates. */
  lemma BeforeTotalOrder(a: Date, b: Date, c: Date)
    requires ValidDate(a) && ValidDate(b) && ValidDate(c)
    ensures !Before(a, a)
    ensures Before(a, b) && Before(b, c) ==> Before(a, c)
    ensures a == b || Before(a, b) || Before(b, a)
    ensures !(Before(a, b) && Before(b, a))
  {
    BeforeIsKeyOrder(a, b);
    BeforeIsKeyOrder(b, c);
    BeforeIsKeyOrder(a, c);
    BeforeIsKeyOrder(b, a);
  }

  predicate IsDigit(c: char)
  {
    '0' <= c <= '9'
  }

  function DigitValue(c: char): int
  {
    c as int - '0' as int
  }

  function DigitChar(n: int): char
    requires 0 <= n <= 9
  {
    (n + '0' as int) as char
  }

  /** The month group `1[0-2]|0[1-9]|[1-9]` followed by the literal `-`: the
      month and the number of characters consumed. At most one alternative can
      be followed by `-`, so backtracking never picks a different one. */
  function MonthThenDash(r: string): (m: Option<(int, nat)>)
    ensures m.Some? ==> 1 <= m.value.0 <= 12 && 2 <= m.value.1 <= 3 && m.value.1 <= |r|
    ensures m.Some? ==> r[m.value.1 - 1] == '-'
  {
    if |r| >= 3 && r[0] == '1' && '0' <= r[1] <= '2' && r[2] == '-' then Some((10 + DigitValue(r[1]), 3))
    else if |r| >= 3 && r[0] == '0' && '1' <= r[1] <= '9' && r[2] == '-' then Some((DigitValue(r[1]), 3))
    else if |r| >= 2 && '1' <= r[0] <= '9' && r[1] == '-' then Some((DigitValue(r[0]), 2))
    else None
  }

  /** The day group `3[01]|[12]\d|0[1-9]|[1-9]| [1-9]`, the last of the
      pattern, so the first alternative that matches is the one taken: the day
      and the number of characters consumed. */
  function DayGroup(r: string): (d: Option<(int, nat)>)
    ensures d.Some? ==> 1 <= d.value.0 <= 31 && 1 <= d.value.1 <= 2 && d.value.1 <= |r|
  {
    if |r| >= 2 && r[0] == '3' && '0' <= r[1] <= '1' then Some((30 + DigitValue(r[1]), 2))
    else if |r| >= 2 && '1' <= r[0] <= '2' && IsDigit(r[1]) then Some((10 * DigitValue(r[0]) + DigitValue(r[1]), 2))
    else if |r| >= 2 && r[0] == '0' && '1' <= r[1] <= '9' then Some((DigitValue(r[1]), 2))
    else if |r| >= 1 && '1' <= r[0] <= '9' then Some((DigitValue(r[0]), 1))
    else if |r| >= 2 && r[0] == ' ' && '1' <= r[1] <= '9' then Some((DigitValue(r[1]), 2))
    else None
  }

  /** `datetime.strptime(s, "%Y-%m-%d")`: four digits, a dash, the month group
      and a dash, the day group; anything left over ("unconverted data"), year 0
      or a day the month lacks is the `ValueError` (None). */
  function ParseDate(s: string): (r: Option<Date>)
    ensures r.Some? ==> ValidDate(r.value)
  {
    if |s| < 5 || !(IsDigit(s[0]) && IsDigit(s[1]) && IsDigit(s[2]) && IsDigit(s[3])) || s[4] != '-' then None
    else
      var year := 1000 * DigitValue(s[0]) + 100 * DigitValue(s[1]) + 10 * DigitValue(s[2]) + DigitValue(s[3]);
      match MonthThenDash(s[5..])
      case None => None
      case Some(mm) =>
        var rest := s[5 + mm.1..];
        match DayGroup(rest)
        case None => None
        case Some(dd) =>
          if dd.1 != |rest| || year < 1 || dd.0 > DaysInMonth(year, mm.0) then None
          else Some(Date(year, mm.0, dd.0))
  }

  lemma DigitRoundTrip(n: int)
    requires 0 <= n <= 9
    ensures IsDigit(DigitChar(n)) && DigitValue(DigitChar(n)) == n
  {
  }

  /** Two decimal digits, zero-padded. */
  function TwoDigits(n: int): (s: string)
    requires 0 <= n <= 99
    ensures |s| == 2 && IsDigit(s[0]) && IsDigit(s[1])
    ensures 10 * DigitValue(s[0]) + DigitValue(s[1]) == n
  {
    [DigitChar(n / 10), DigitChar(n % 10)]
  }

  /** The canonical spelling `YYYY-MM-DD` of a date of the calendar. */
  function FormatDate(d: Date): (s: string)
    requires ValidDate(d)
    ensures |s| == 10 && s[4] == '-' && s[7] == '-' && ' ' !in s
  {
    TwoDigits(d.year / 100) + TwoDigits(d.year % 100) + "-" + TwoDigits(d.month) + "-" + TwoDigits(d.day)
  }

  /** The year digits of the canonical spelling read back as the year. */
  lemma YearRoundTrip(d: Date)
    requires ValidDate(d)
    ensures var s := FormatDate(d);
      IsDigit(s[0]) && IsDigit(s[1]) && IsDigit(s[2]) && IsDigit(s[3]) &&
      1000 * DigitValue(s[0]) + 100 * DigitValue(s[1]) + 10 * DigitValue(s[2]) + DigitValue(s[3]) == d.year
  {
    var s := FormatDate(d);
    var hi := TwoDigits(d.year / 100);
    var lo := TwoDigits(d.year % 100);
    assert s[0] == hi[0] && s[1] == hi[1] && s[2] == lo[0] && s[3] == lo[1];
  }

  /** The two month digits followed by the dash match the month group. */
  lemma MonthRoundTrip(m: int, tail: string)
    requires 1 <= m <= 12
    ensures MonthThenDash(TwoDigits(m) + "-" + tail) == Some((m, 3))
  {
    DigitRoundTrip(m / 10);
    DigitRoundTrip(m % 10);
  }

  /** The two day digits match the day group in full. */
  lemma DayRoundTrip(d: int)
    requires 1 <= d <= 31
    ensures DayGroup(TwoDigits(d)) == Some((d, 2))
  {
    DigitRoundTrip(d / 10);
    DigitRoundTrip(d % 10);
  }

  /** Parsing the canonical spelling of a calendar date gives the date back. */
  lemma ParseFormat(d: Date)
    requires ValidDate(d)
    ensures ParseDate(FormatDate(d)) == Some(d)
  {
    var s := FormatDate(d);
    YearRoundTrip(d);
    var monthPart := TwoDigits(d.month);
    var dayPart := TwoDigits(d.day);
    assert s[5..] == monthPart + "-" + dayPart;
    MonthRoundTrip(d.month, dayPart);
    assert s[8..] == dayPart;
    DayRoundTrip(d.day);
  }

  /** Two digits read as a number spell that number back. */
  lemma TwoDigitsBack(a: char, b: char)
    requires IsDigit(a) && IsDigit(b)
    ensures TwoDigits(10 * DigitValue(a) + DigitValue(b)) == [a, b]
  {
  }

  /** Four digits read as a year spell that year back. */
  lemma DigitsRoundTrip(a: char, b: char, c: char, d: char)
    requires IsDigit(a) && IsDigit(b) && IsDigit(c) && IsDigit(d)
    ensures var y := 1000 * DigitValue(a) + 100 * DigitValue(b) + 10 * DigitValue(c) + DigitValue(d);
      TwoDigits(y / 100) + TwoDigits(y % 100) == [a, b, c, d]
  {
    var hi := 10 * DigitValue(a) + DigitValue(b);
    var lo := 10 * DigitValue(c) + DigitValue(d);
    var y := 100 * hi + lo;
    assert y / 100 == hi && y % 100 == lo;
    TwoDigitsBack(a, b);
    TwoDigitsBack(c, d);
  }

  /** A three-character month match is two digits spelling the month. */
  lemma MonthSpelling(r: string)
    requires MonthThenDash(r).Some? && MonthThenDash(r).value.1 == 3
    ensures TwoDigits(MonthThenDash(r).value.0) == r[..2]
  {
  }

  /** A two-character day match without the space alternative is two digits
      spelling the day. */
  lemma DaySpelling(r: string)
    requires DayGroup(r).Some? && DayGroup(r).value.1 == 2 && r[0] != ' '
    ensures TwoDigits(DayGroup(r).value.0) == r[..2]
  {
  }

  /** A ten-character string without spaces that parses is the canonical
      spelling of its date: the lenient forms (`2009-1-05`, `2009-01- 5`) are
      the only other spellings accepted. */
  lemma FormatParse(s: string)
    requires ParseDate(s).Some? && |s| == 10 && ' ' !in s
    ensures FormatDate(ParseDate(s).value) == s
  {
    var d := ParseDate(s).value;
    var mm := MonthThenDash(s[5..]).value;
    var rest := s[5 + mm.1..];
    var dd := DayGroup(rest).value;
    assert mm.1 == 3 && dd.1 == 2;
    assert rest[0] == s[8];
    DigitsRoundTrip(s[0], s[1], s[2], s[3]);
    assert [s[0], s[1], s[2], s[3]] == s[..4];
    MonthSpelling(s[5..]);
    assert s[5..][..2] == s[5..7];
    DaySpelling(rest);
    assert rest[..2] == s[8..];
    assert s == s[..4] + "-" + s[5..7] + "-" + s[8..];
  }

  /** `strptime` also takes an unpadded month and a space-padded day. */
  lemma LenientSpellings()
    ensures ParseDate("2009-1-5") == Some(Date(2009, 1, 5))
    ensures ParseDate("2009-01- 5") == Some(Date(2009, 1, 5))
  {
    assert "2009-1-5"[5..] == "1-5";
    assert "2009-1-5"[7..] == "5";
    assert "2009-01- 5"[5..] == "01- 5";
    assert "2009-01- 5"[8..] == " 5";
  }

  /** February 29th exists in leap years only, and no month has a 32nd. */
  lemma CalendarChecks()
    ensures ParseDate("2009-02-29") == None
    ensures ParseDate("2008-02-29") == Some(Date(2008, 2, 29))
    ensures ParseDate("2009-01-32") == None
  {
    assert "2009-02-29"[5..] == "02-29";
    assert "2009-02-29"[8..] == "29";
    assert "2008-02-29"[5..] == "02-29";
    assert "2008-02-29"[8..] == "29";
    assert "2009-01-32"[5..] == "01-32";
    assert "2009-01-32"[8..] == "32";
  }
}
