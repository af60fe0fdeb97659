/**
 * Calendar dates: the `effective_date` column, the `YYYY-MM-DD` shape test
 * the controllers apply to request text, and the cast of that text to a
 * date that the database performs when a query or a write binds it.
 */
module Dates {
  import opened Options

  datatype Date = Date(year: int, month: int, day: int)

  /** Chronological order of dates. */
  predicate DateLe(a: Date, b: Date) {
    || a.year < b.year
    || (a.year == b.year && (a.month < b.month || (a.month == b.month && a.day <= b.day)))
  }

  /** Gregorian leap years. */
  predicate IsLeapYear(y: int) {
    y % 4 == 0 && (y % 100 != 0 || y % 400 == 0)
  }

  function DaysInMonth(y: int, m: int): (n: int)
    requires 1 <= m <= 12
    ensures 28 <= n <= 31
    ensures n == 29 <==> m == 2 && IsLeapYear(y)
  {
    if m == 2 then (if IsLeapYear(y) then 29 else 28)
    else if m == 4 || m == 6 || m == 9 || m == 11 then 30
    else 31
  }

  /** A date the database's date type can hold (it has no year 0). */
  predicate IsCalendarDate(d: Date) {
    1 <= d.year && 1 <= d.month <= 12 && 1 <= d.day <= DaysInMonth(d.year, d.month)
  }

  /** An ASCII decimal digit (what `\d` matches in a non-Unicode pattern). */
  predicate IsDigit(c: char) {
    '0' <= c <= '9'
  }

  /**
   * The controllers' test `^\d{4}-\d{2}-\d{2}$`: four digits, a hyphen, two
   * digits, a hyphen, two digits, and nothing else. Month and day ranges are
   * not checked.
   */
  predicate HasIsoDateShape(s: string) {
    && |s| == 10
    && IsDigit(s[0]) && IsDigit(s[1]) && IsDigit(s[2]) && IsDigit(s[3])
    && s[4] == '-'
    && IsDigit(s[5]) && IsDigit(s[6])
    && s[7] == '-'
    && IsDigit(s[8]) && IsDigit(s[9])
  }

  function DigitValue(c: char): (n: int)
    requires IsDigit(c)
    ensures 0 <= n <= 9
  {
    c as int - '0' as int
  }

  function DigitChar(n: int): (c: char)
    requires 0 <= n <= 9
    ensures IsDigit(c) && DigitValue(c) == n
  {
    ('0' as int + n) as char
  }

  /** The year, month and day fields written in a text of the date shape. */
  function DateOf(s: string): (d: Date)
    requires HasIsoDateShape(s)
    ensures 0 <= d.year <= 9999 && 0 <= d.month <= 99 && 0 <= d.day <= 99
  {
    Date(1000 * DigitValue(s[0]) + 100 * DigitValue(s[1]) + 10 * DigitValue(s[2]) + DigitValue(s[3]),
         10 * DigitValue(s[5]) + DigitValue(s[6]),
         10 * DigitValue(s[8]) + DigitValue(s[9]))
  }

  /** Two decimal digits of `n`, the tens first. */
  function TwoDigits(n: int): (t: string)
    requires 0 <= n <= 99
    ensures |t| == 2 && IsDigit(t[0]) && IsDigit(t[1])
    ensures 10 * DigitValue(t[0]) + DigitValue(t[1]) == n
  {
    [DigitChar(n / 10), DigitChar(n % 10)]
  }

  /** Four decimal digits of `n`, the thousands first. */
  function FourDigits(n: int): (t: string)
    requires 0 <= n <= 9999
    ensures |t| == 4 && IsDigit(t[0]) && IsDigit(t[1]) && IsDigit(t[2]) && IsDigit(t[3])
    ensures 1000 * DigitValue(t[0]) + 100 * DigitValue(t[1]) + 10 * DigitValue(t[2]) + DigitValue(t[3]) == n
  {
    TwoDigits(n / 100) + TwoDigits(n % 100)
  }

  /** The `YYYY-MM-DD` text of a date; reading it back gives the same date. */
  function FormatDate(d: Date): (s: string)
    requires 0 <= d.year <= 9999 && 0 <= d.month <= 99 && 0 <= d.day <= 99
    ensures HasIsoDateShape(s) && DateOf(s) == d
  {
    FourDigits(d.year) + "-" + TwoDigits(d.month) + "-" + TwoDigits(d.day)
  }

  lemma TwoDigitsOf(a: char, b: char)
    requires IsDigit(a) && IsDigit(b)
    ensures TwoDigits(10 * DigitValue(a) + DigitValue(b)) == [a, b]
  {
  }

  lemma FourDigitsOf(a: char, b: char, c: char, e: char)
    requires IsDigit(a) && IsDigit(b) && IsDigit(c) && IsDigit(e)
    ensures FourDigits(1000 * DigitValue(a) + 100 * DigitValue(b) + 10 * DigitValue(c) + DigitValue(e)) == [a, b, c, e]
  {
    var hi, lo := 10 * DigitValue(a) + DigitValue(b), 10 * DigitValue(c) + DigitValue(e);
    var n := 100 * hi + lo;
    assert n / 100 == hi && n % 100 == lo;
    TwoDigitsOf(a, b);
    TwoDigitsOf(c, e);
  }

  /**
   * The texts of the date shape are exactly the formatted texts of the
   * dates with a year of at most four digits and month and day of at most two.
   */
  lemma IsoShapeIsFormatted(s: string)
    ensures HasIsoDateShape(s) <==>
      exists d: Date :: 0 <= d.year <= 9999 && 0 <= d.month <= 99 && 0 <= d.day <= 99 && FormatDate(d) == s
  {
    if HasIsoDateShape(s) {
      FormatDateOf(s);
    }
  }

  /** Every text of the date shape is the formatted text of its fields. */
  lemma FormatDateOf(s: string)
    requires HasIsoDateShape(s)
    ensures FormatDate(DateOf(s)) == s
  {
    FourDigitsOf(s[0], s[1], s[2], s[3]);
    TwoDigitsOf(s[5], s[6]);
    TwoDigitsOf(s[8], s[9]);
    assert FormatDate(DateOf(s)) == s[0..4] + "-" + s[5..7] + "-" + s[8..10];
  }

  /**
   * The database's cast of a bound text parameter to a date: it accepts the
   * text exactly when it is the `YYYY-MM-DD` text of a calendar date, and
   * otherwise the statement fails.
   */
  function CastDate(s: string): (d: Option<Date>)
    ensures d.Some? ==> IsCalendarDate(d.value) && d.value.year <= 9999 && FormatDate(d.value) == s
    ensures d.None? ==> forall x :: IsCalendarDate(x) && x.year <= 9999 ==> FormatDate(x) != s
  {
    if HasIsoDateShape(s) && IsCalendarDate(DateOf(s)) then
      FormatDateOf(s);
      Some(DateOf(s))
    else
      None
  }

  /** A shape-valid text need not name a date: month 13, day 45. */
  lemma ShapeDoesNotCheckRanges()
    ensures HasIsoDateShape("2023-13-45") && CastDate("2023-13-45") == None
    ensures !HasIsoDateShape("invalid-date")
  {
    assert DateOf("2023-13-45").month == 13;
  }
}
