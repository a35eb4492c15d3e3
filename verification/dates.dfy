/** Dates as the forms submit them and the schemas show them. Only the
    calendar-date form of ISO 8601 (`YYYY-MM-DD`) is modelled; time of day,
    time zones and the week and ordinal forms are not. */
module Dates {
  import opened Optional
  import opened Text

  datatype Date = Date(year: nat, month: nat, day: nat)

  /** Leap years of the proleptic Gregorian calendar JavaScript dates use. */
  predicate IsLeap(year: nat) {
    year % 4 == 0 && (year % 100 != 0 || year % 400 == 0)
  }

  /** The number of days in a month. */
  function DaysIn(year: nat, month: nat): (n: nat)
    requires 1 <= month <= 12
    ensures 28 <= n <= 31
    ensures month == 12 ==> n == 31
  {
    if month == 2 then (if IsLeap(year) then 29 else 28)
    else if month == 4 || month == 6 || month == 9 || month == 11 then 30
    else 31
  }

  /** The dates of the calendar, with four-digit years. */
  predicate ValidDate(d: Date) {
    d.year <= 9999 && 1 <= d.month <= 12 && 1 <= d.day <= DaysIn(d.year, d.month)
  }

  /** The dates a record can hold. */
  type CalendarDate = d: Date | ValidDate(d) witness Date(1970, 1, 1)

  /** The value of one decimal digit. */
  function DigitOf(c: char): (d: nat)
    requires IsDigit(c)
    ensures d < 10 && DigitChar(d) == c
  {
    c as int - '0' as int
  }

  /** The value of two decimal digits. */
  function TwoDigits(hi: char, lo: char): (n: nat)
    requires IsDigit(hi) && IsDigit(lo)
    ensures n < 100
  {
    10 * DigitOf(hi) + DigitOf(lo)
  }

  /** `n` written with exactly two digits, zero-padded on the left. */
  function Two(n: nat): (r: string)
    requires n < 100
    ensures |r| == 2 && IsDigit(r[0]) && IsDigit(r[1])
  {
    [DigitChar(n / 10), DigitChar(n % 10)]
  }

  /** `n` written with exactly four digits, zero-padded on the left. */
  function Four(n: nat): (r: string)
    requires n < 10000
    ensures |r| == 4 && forall i | 0 <= i < 4 :: IsDigit(r[i])
  {
    Two(n / 100) + Two(n % 100)
  }

  lemma DivMod10(q: nat, d: nat)
    requires d < 10
    ensures (q * 10 + d) / 10 == q && (q * 10 + d) % 10 == d
  {
  }

  lemma DivMod100(q: nat, d: nat)
    requires d < 100
    ensures (q * 100 + d) / 100 == q && (q * 100 + d) % 100 == d
  {
  }

  /** Two digits read back give the number written. */
  lemma TwoValue(n: nat)
    requires n < 100
    ensures TwoDigits(Two(n)[0], Two(n)[1]) == n
  {
  }

  /** A number written with two digits gives back the digits. */
  lemma TwoOfDigits(hi: char, lo: char)
    requires IsDigit(hi) && IsDigit(lo)
    ensures Two(TwoDigits(hi, lo)) == [hi, lo]
  {
    DivMod10(DigitOf(hi), DigitOf(lo));
  }

  /** The calendar-date form of ISO 8601 that `isISO8601` accepts here:
      four digits, '-', a month 01-12, '-', a day 01-31. */
  predicate IsIsoDate(s: string) {
    && |s| == 10
    && IsDigit(s[0]) && IsDigit(s[1]) && IsDigit(s[2]) && IsDigit(s[3]) && s[4] == '-'
    && IsDigit(s[5]) && IsDigit(s[6]) && s[7] == '-' && IsDigit(s[8]) && IsDigit(s[9])
    && 1 <= TwoDigits(s[5], s[6]) <= 12
    && 1 <= TwoDigits(s[8], s[9]) <= 31
  }

  /** The year, month and day an ISO calendar-date string spells. */
  function YearOf(s: string): (n: nat)
    requires IsIsoDate(s)
    ensures n <= 9999
  {
    100 * TwoDigits(s[0], s[1]) + TwoDigits(s[2], s[3])
  }

  function MonthOf(s: string): (n: nat)
    requires IsIsoDate(s)
    ensures 1 <= n <= 12
  {
    TwoDigits(s[5], s[6])
  }

  function DayOf(s: string): (n: nat)
    requires IsIsoDate(s)
    ensures 1 <= n <= 31
  {
    TwoDigits(s[8], s[9])
  }

  /** The day the string spells exists in its month. */
  predicate DayFits(s: string)
    requires IsIsoDate(s)
  {
    DayOf(s) <= DaysIn(YearOf(s), MonthOf(s))
  }

  /** The sanitiser's `toDate()` on an ISO calendar date: `Date.parse` takes
      any day up to 31 and counts the days past the end of the month into
      the next month, so `2019-02-31` is the 3rd of March. December has 31
      days, so the year never changes. */
  function ToDate(s: string): (d: Date)
    requires IsIsoDate(s)
    ensures ValidDate(d)
    ensures d.year == YearOf(s)
    ensures DayFits(s) ==> d.month == MonthOf(s) && d.day == DayOf(s)
    ensures !DayFits(s) ==> d.month == MonthOf(s) + 1 && d.day + DaysIn(YearOf(s), MonthOf(s)) == DayOf(s)
  {
    var y, m, day := YearOf(s), MonthOf(s), DayOf(s);
    if day <= DaysIn(y, m) then Date(y, m, day)
    else Date(y, m + 1, day - DaysIn(y, m))
  }

  /** The ISO calendar-date text of a date. */
  function IsoString(d: Date): (r: string)
    requires ValidDate(d)
    ensures |r| == 10
  {
    Four(d.year) + "-" + Two(d.month) + "-" + Two(d.day)
  }

  /** Reading a date that exists and writing it back yields the submitted
      text. */
  lemma IsoStringOfDate(s: string)
    requires IsIsoDate(s) && DayFits(s)
    ensures IsoString(ToDate(s)) == s
  {
    var hi, lo := TwoDigits(s[0], s[1]), TwoDigits(s[2], s[3]);
    DivMod100(hi, lo);
    TwoOfDigits(s[0], s[1]);
    TwoOfDigits(s[2], s[3]);
    TwoOfDigits(s[5], s[6]);
    TwoOfDigits(s[8], s[9]);
    assert s == [s[0], s[1]] + [s[2], s[3]] + "-" + [s[5], s[6]] + "-" + [s[8], s[9]];
  }

  /** Writing a date and reading it back yields the date. */
  lemma DateOfIsoString(d: Date)
    requires ValidDate(d)
    ensures IsIsoDate(IsoString(d))
    ensures ToDate(IsoString(d)) == d
  {
    var s := IsoString(d);
    TwoValue(d.year / 100);
    TwoValue(d.year % 100);
    TwoValue(d.month);
    TwoValue(d.day);
    assert s[0..2] == Two(d.year / 100) && s[2..4] == Two(d.year % 100);
    assert s[5..7] == Two(d.month) && s[8..10] == Two(d.day);
  }

  /** A day past the end of its month does not print back as submitted. */
  lemma RolledOver(s: string)
    requires IsIsoDate(s) && !DayFits(s)
    ensures IsoString(ToDate(s)) != s
  {
    var d := ToDate(s);
    var t := IsoString(d);
    TwoValue(d.month);
    assert t[5] == Two(d.month)[0] && t[6] == Two(d.month)[1];
    assert TwoDigits(t[5], t[6]) != TwoDigits(s[5], s[6]);
  }

  /** The 31st of February 2019 is stored as the 3rd of March. */
  lemma FebruaryRollsOver()
    ensures IsIsoDate("2019-02-31") && ToDate("2019-02-31") == Date(2019, 3, 3)
  {
    assert TwoDigits('2', '0') == 20 && TwoDigits('1', '9') == 19;
    assert TwoDigits('0', '2') == 2 && TwoDigits('3', '1') == 31;
    assert YearOf("2019-02-31") == 2019 && !IsLeap(2019);
  }

  /** What the sanitiser's `toDate()` leaves in a date field: a date for an ISO
      string and `null` (here `None`) for anything else, the empty string
      included. The date prints back as the submitted text exactly when the
      day exists in its month. */
  function SanitiseDate(s: string): (r: Option<CalendarDate>)
    ensures r.Some? <==> IsIsoDate(s)
    ensures r.Some? ==> r.value == ToDate(s)
    ensures r.Some? ==> (IsoString(r.value) == s <==> DayFits(s))
  {
    if IsIsoDate(s) then
      if DayFits(s) then IsoStringOfDate(s); Some(ToDate(s))
      else RolledOver(s); Some(ToDate(s))
    else None
  }

  /** `optional({checkFalsy: true}).isISO8601()`: an absent or empty field is
      accepted; any other text must be an ISO date. */
  predicate OptionalIsoDate(v: Option<string>) {
    v.None? || v.value == "" || IsIsoDate(v.value)
  }

  function MonthName(m: nat): (r: string)
    requires 1 <= m <= 12
    ensures |r| > 0
  {
    ["January", "February", "March", "April", "May", "June", "July",
     "August", "September", "October", "November", "December"][m - 1]
  }

  /** The long form `MMMM DD, YYYY` the schemas use to show a date. */
  function LongDate(d: Date): (r: string)
    requires ValidDate(d)
    ensures |r| > 0
  {
    MonthName(d.month) + " " + Two(d.day) + ", " + Four(d.year)
  }

  /** A formatted date virtual: the empty string when the date is absent, the
      long form otherwise. */
  function Formatted(d: Option<CalendarDate>): (r: string)
    ensures r == "" <==> d.None?
    ensures d.Some? ==> r == LongDate(d.value)
  {
    match d
    case None => ""
    case Some(x) => LongDate(x)
  }
}
