/** The parts of Go's `time` package the report uses: weekdays, and parsing
    calendar dates with the layout "2006-01-02". */
module GoTime {
  import opened Wrappers

  /** `time.Weekday`: Sunday is 0, Saturday is 6. */
  type Weekday = d: int | 0 <= d < 7

  const Sunday: Weekday := 0
  const Friday: Weekday := 5
  const Saturday: Weekday := 6

  /** `time.Weekday.String` for a weekday in range: an English name ending
      in "day" whose first two letters tell the weekday back. */
  function WeekdayName(d: Weekday): (name: string)
    ensures 6 <= |name| && name[|name| - 3..] == "day"
    ensures WeekdayOfPrefix(name[0], name[1]) == d
  {
    if d == 0 then "Sunday"
    else if d == 1 then "Monday"
    else if d == 2 then "Tuesday"
    else if d == 3 then "Wednesday"
    else if d == 4 then "Thursday"
    else if d == 5 then "Friday"
    else "Saturday"
  }

  /** Recovers the weekday from the first two letters of its name. */
  function WeekdayOfPrefix(c0: char, c1: char): int {
    if c0 == 'S' && c1 == 'u' then 0
    else if c0 == 'M' then 1
    else if c0 == 'T' && c1 == 'u' then 2
    else if c0 == 'W' then 3
    else if c0 == 'T' then 4
    else if c0 == 'F' then 5
    else 6
  }

  /** A calendar date as `time.Parse` reads it from "YYYY-MM-DD". */
  datatype Date = Date(year: int, month: int, day: int)

  /** The Gregorian leap-year rule. */
  predicate IsLeapYear(year: int) {
    year % 4 == 0 && (year % 100 != 0 || year % 400 == 0)
  }

  /** The length of a month, February included. */
  function DaysIn(month: int, year: int): (n: int)
    requires 1 <= month <= 12
    ensures 28 <= n <= 31
    ensures month == 2 ==> (n == 29 <==> IsLeapYear(year))
  {
    if month == 2 then (if IsLeapYear(year) then 29 else 28)
    else if month == 4 || month == 6 || month == 9 || month == 11 then 30
    else 31
  }

  /** A date the four-digit layout can express and whose day exists. */
  predicate ValidDate(d: Date) {
    && 0 <= d.year <= 9999
    && 1 <= d.month <= 12
    && 1 <= d.day <= DaysIn(d.month, d.year)
  }

  /** `Time.Before` on midnight-UTC instants: strictly earlier. */
  predicate DateBefore(a: Date, b: Date) {
    || a.year < b.year
    || (a.year == b.year && a.month < b.month)
    || (a.year == b.year && a.month == b.month && a.day < b.day)
  }

  predicate IsDigit(c: char) {
    '0' <= c <= '9'
  }

  function DigitChar(n: int): (c: char)
    requires 0 <= n <= 9
    ensures IsDigit(c)
  {
    ('0' as int + n) as char
  }

  function DigitValue(c: char): (n: int)
    requires IsDigit(c)
    ensures 0 <= n <= 9 && DigitChar(n) == c
  {
    c as int - '0' as int
  }

  /** The value of two decimal digits. */
  function Number2(c1: char, c0: char): int
    requires IsDigit(c1) && IsDigit(c0)
  {
    10 * DigitValue(c1) + DigitValue(c0)
  }

  /** Zero-padded two-digit decimal. */
  function Pad2(n: int): string
    requires 0 <= n <= 99
  {
    [DigitChar(n / 10), DigitChar(n % 10)]
  }

  /** Zero-padded four-digit decimal. */
  function Pad4(n: int): string
    requires 0 <= n <= 9999
  {
    Pad2(n / 100) + Pad2(n % 100)
  }

  /** A date written in the layout "2006-01-02". */
  function FormatDate(d: Date): (s: string)
    requires ValidDate(d)
    ensures |s| == 10 && s[4] == '-' && s[7] == '-'
  {
    Pad4(d.year) + "-" + Pad2(d.month) + "-" + Pad2(d.day)
  }

  /** Digits at every position of "YYYY-MM-DD" that holds one, dashes between. */
  predicate DateShaped(s: string) {
    && |s| == 10
    && IsDigit(s[0]) && IsDigit(s[1]) && IsDigit(s[2]) && IsDigit(s[3])
    && s[4] == '-'
    && IsDigit(s[5]) && IsDigit(s[6])
    && s[7] == '-'
    && IsDigit(s[8]) && IsDigit(s[9])
  }

  /** `time.Parse("2006-01-02", s)`: exactly four year digits, two month
      digits and two day digits separated by dashes, a month in 1..12 and a
      day that exists in that month of that year; anything else is an error. */
  function ParseDate(s: string): (r: Option<Date>)
    ensures r.Some? ==> ValidDate(r.value) && FormatDate(r.value) == s
  {
    if !DateShaped(s) then None
    else
      var d := DigitsDate(s);
      if 1 <= d.month <= 12 && 1 <= d.day <= DaysIn(d.month, d.year) then
        DigitsDateFormats(s);
        Some(d)
      else None
  }

  /** The year, month and day a date-shaped string spells. */
  function DigitsDate(s: string): (d: Date)
    requires DateShaped(s)
    ensures 0 <= d.year <= 9999 && 0 <= d.month <= 99 && 0 <= d.day <= 99
  {
    Pad2OfDigits(s[0], s[1]);
    Pad2OfDigits(s[2], s[3]);
    Pad2OfDigits(s[5], s[6]);
    Pad2OfDigits(s[8], s[9]);
    Date(100 * Number2(s[0], s[1]) + Number2(s[2], s[3]), Number2(s[5], s[6]), Number2(s[8], s[9]))
  }

  /** A date-shaped string spelling a valid date is that date's formatting. */
  lemma DigitsDateFormats(s: string)
    requires DateShaped(s) && ValidDate(DigitsDate(s))
    ensures FormatDate(DigitsDate(s)) == s
  {
    var d := DigitsDate(s);
    assert Pad4(d.year) == s[..4] by {
      Pad2OfDigits(s[0], s[1]);
      Pad2OfDigits(s[2], s[3]);
      Pad4OfHalves(Number2(s[0], s[1]), Number2(s[2], s[3]));
      assert [s[0], s[1]] + [s[2], s[3]] == s[..4];
    }
    assert Pad2(d.month) == s[5..7] by {
      Pad2OfDigits(s[5], s[6]);
    }
    assert Pad2(d.day) == s[8..] by {
      Pad2OfDigits(s[8], s[9]);
    }
    assert s == s[..4] + "-" + s[5..7] + "-" + s[8..];
  }

  lemma Pad2OfDigits(c1: char, c0: char)
    requires IsDigit(c1) && IsDigit(c0)
    ensures 0 <= Number2(c1, c0) <= 99 && Pad2(Number2(c1, c0)) == [c1, c0]
  {
  }

  lemma Pad4OfHalves(hi: int, lo: int)
    requires 0 <= hi <= 99 && 0 <= lo <= 99
    ensures Pad4(100 * hi + lo) == Pad2(hi) + Pad2(lo)
  {
    assert (100 * hi + lo) / 100 == hi;
    assert (100 * hi + lo) % 100 == lo;
  }

  lemma Pad2Digits(n: int)
    requires 0 <= n <= 99
    ensures DateShapedPair(Pad2(n)) && Number2(Pad2(n)[0], Pad2(n)[1]) == n
  {
  }

  predicate DateShapedPair(s: string) {
    |s| == 2 && IsDigit(s[0]) && IsDigit(s[1])
  }

  /** Every valid date parses back from its own formatting. */
  lemma ParseFormatDate(d: Date)
    requires ValidDate(d)
    ensures ParseDate(FormatDate(d)) == Some(d)
  {
    var s := FormatDate(d);
    FormatDateDigits(d);
    assert DigitsDate(s) == d by {
      assert d.year == 100 * (d.year / 100) + d.year % 100;
    }
  }

  /** The digits of a formatted date, pair by pair. */
  lemma FormatDateDigits(d: Date)
    requires ValidDate(d)
    ensures DateShaped(FormatDate(d))
    ensures Number2(FormatDate(d)[0], FormatDate(d)[1]) == d.year / 100
    ensures Number2(FormatDate(d)[2], FormatDate(d)[3]) == d.year % 100
    ensures Number2(FormatDate(d)[5], FormatDate(d)[6]) == d.month
    ensures Number2(FormatDate(d)[8], FormatDate(d)[9]) == d.day
  {
    var s := FormatDate(d);
    var y1, y0, m, dd := Pad2(d.year / 100), Pad2(d.year % 100), Pad2(d.month), Pad2(d.day);
    assert s == y1 + y0 + "-" + m + "-" + dd;
    Pad2Digits(d.year / 100);
    Pad2Digits(d.year % 100);
    Pad2Digits(d.month);
    Pad2Digits(d.day);
    assert s[0] == y1[0] && s[1] == y1[1] && s[2] == y0[0] && s[3] == y0[1];
    assert s[5] == m[0] && s[6] == m[1] && s[8] == dd[0] && s[9] == dd[1];
  }

  /** A string parses exactly when it is the formatting of a valid date, and
      then to that date. */
  lemma ParseDateExact(s: string, d: Date)
    ensures ParseDate(s) == Some(d) <==> ValidDate(d) && FormatDate(d) == s
  {
    if ValidDate(d) && FormatDate(d) == s {
      ParseFormatDate(d);
    }
  }

  /** A parsed date string holds only digits and dashes, so no parenthesis. */
  lemma ParsedDateHasNoParens(s: string)
    requires ParseDate(s).Some?
    ensures forall i :: 0 <= i < |s| ==> s[i] != '(' && s[i] != ')'
  {
    assert DateShaped(s);
    forall i | 0 <= i < |s| ensures s[i] != '(' && s[i] != ')' {
      assert IsDigit(s[i]) || s[i] == '-';
    }
  }
}
