/**
 * Calendar dates as the tracker sees them: ISO `YYYY-MM-DD` strings, parsed
 * into a civil (year, month, day) triple and numbered as days since
 * 1970-01-01 (the local time zone is taken to be UTC, so a local midnight is
 * a whole number of days after the epoch).
 */
module Dates {
  import opened Optional

  /** A civil date; `month` is 1-based as in the ISO string. */
  datatype Civil = Civil(year: int, month: int, day: int)

  predicate IsLeapYear(y: int) {
    y % 4 == 0 && (y % 100 != 0 || y % 400 == 0)
  }

  function DaysInMonth(y: int, m: int): (n: int)
    requires 1 <= m <= 12
    ensures 28 <= n <= 31
    ensures n == 29 <==> (m == 2 && IsLeapYear(y))
  {
    if m == 2 then (if IsLeapYear(y) then 29 else 28)
    else if m == 4 || m == 6 || m == 9 || m == 11 then 30
    else 31
  }

  predicate ValidCivil(c: Civil) {
    1 <= c.month <= 12 && 1 <= c.day <= DaysInMonth(c.year, c.month)
  }

  function YearDays(y: int): int {
    if IsLeapYear(y) then 366 else 365
  }

  /** Days from 1970-01-01 to January 1st of year `y` (negative before 1970). */
  function DaysBeforeYear(y: int): int
    decreases if y >= 1970 then y - 1970 else 1970 - y
  {
    if y == 1970 then 0
    else if y > 1970 then DaysBeforeYear(y - 1) + YearDays(y - 1)
    else DaysBeforeYear(y + 1) - YearDays(y)
  }

  /** Days from January 1st of year `y` to the first day of month `m`. */
  function DaysBeforeMonth(y: int, m: int): int
    requires 1 <= m <= 12
  {
    var common :=
      if m == 1 then 0 else if m == 2 then 31 else if m == 3 then 59 else if m == 4 then 90
      else if m == 5 then 120 else if m == 6 then 151 else if m == 7 then 181 else if m == 8 then 212
      else if m == 9 then 243 else if m == 10 then 273 else if m == 11 then 304 else 334;
    common + (if m > 2 && IsLeapYear(y) then 1 else 0)
  }

  /** The day number of a civil date: days since 1970-01-01. */
  function Ordinal(c: Civil): int
    requires 1 <= c.month <= 12
  {
    DaysBeforeYear(c.year) + DaysBeforeMonth(c.year, c.month) + c.day - 1
  }

  /**
   * ECMAScript's MakeDay: year, 0-based month and day of month, each allowed
   * to lie outside its usual range, with the overflow carried over (this is
   * what `setDate`, `setMonth` and `setFullYear` do, and what `new Date(y, m, d)`
   * does with the year `ConstructorYear(y)`).
   */
  function MakeDay(y: int, month0: int, d: int): int {
    DaysBeforeYear(y + month0 / 12) + DaysBeforeMonth(y + month0 / 12, month0 % 12 + 1) + d - 1
  }

  /**
   * The year `new Date(y, m, d)` builds its date in: a year from 0 to 99 is
   * read as 1900 to 1999, any other year as itself. The setters do not
   * apply this rule.
   */
  function ConstructorYear(y: int): int {
    if 0 <= y <= 99 then 1900 + y else y
  }

  /** Day of the week of a day number, 0 = Sunday (1970-01-01 was a Thursday). */
  function Weekday(n: int): (w: int)
    ensures 0 <= w < 7
  {
    (n + 4) % 7
  }

  /** Stepping back to the last Sunday gives a Sunday. */
  lemma WeekdayBack(n: int)
    ensures Weekday(n - Weekday(n)) == 0
  {
    var q, r := (n + 4) / 7, (n + 4) % 7;
    assert n - r + 4 == 7 * q;
  }

  /** Whole weeks keep the weekday. */
  lemma WeekdayShift(n: int, k: int)
    ensures Weekday(n + 7 * k) == Weekday(n)
  {
    var q, r := (n + 4) / 7, (n + 4) % 7;
    assert n + 7 * k + 4 == 7 * (q + k) + r;
  }

  lemma YearLength(y: int)
    ensures DaysBeforeYear(y + 1) - DaysBeforeYear(y) == YearDays(y)
  {
  }

  /** Years from 1970 on start at most 366 days apart. */
  lemma {:induction false} DaysBeforeYearBound(y: int)
    requires y >= 1970
    ensures 0 <= DaysBeforeYear(y) <= 366 * (y - 1970)
    decreases y - 1970
  {
    if y > 1970 {
      DaysBeforeYearBound(y - 1);
    }
  }

  lemma MonthsFillYear(y: int)
    ensures DaysBeforeMonth(y, 12) + DaysInMonth(y, 12) == DaysBeforeYear(y + 1) - DaysBeforeYear(y)
  {
    YearLength(y);
  }

  /** A civil date lies between the first and last day of its month. */
  lemma DaysBeforeMonthBounds(y: int, m: int)
    requires 1 <= m <= 12
    ensures 0 <= DaysBeforeMonth(y, m) <= YearDays(y) - 31
  {
  }

  /** The day after the last day of a month is the first day of the next month. */
  lemma {:induction false} NextMonthStart(y: int, m: int)
    requires 1 <= m <= 12
    ensures Ordinal(Civil(y, m, DaysInMonth(y, m))) + 1 ==
            (if m == 12 then Ordinal(Civil(y + 1, 1, 1)) else Ordinal(Civil(y, m + 1, 1)))
  {
    if m == 12 {
      MonthsFillYear(y);
    }
  }

  /** On an in-range month, MakeDay is the ordinal of the civil date. */
  lemma MakeDayInRange(y: int, month0: int, d: int)
    requires 0 <= month0 < 12
    ensures MakeDay(y, month0, d) == Ordinal(Civil(y, month0 + 1, d))
  {
  }

  /** MakeDay carries a month overflow into the year. */
  lemma MakeDayCarry(y: int, month0: int, d: int)
    ensures MakeDay(y, month0, d) == MakeDay(y + month0 / 12, month0 % 12, d)
  {
  }

  /**
   * Brings a date whose day of month is at most one month out of range back
   * into range, as the Date object does when it is set to such a date.
   */
  function Normalize(y: int, m: int, d: int): (c: Civil)
    requires 1 <= m <= 12
    requires -27 <= d <= 59
    ensures ValidCivil(c)
    ensures Ordinal(c) == Ordinal(Civil(y, m, d))
  {
    if d < 1 then
      var py := if m == 1 then y - 1 else y;
      var pm := if m == 1 then 12 else m - 1;
      NextMonthStart(py, pm);
      Civil(py, pm, d + DaysInMonth(py, pm))
    else if d > DaysInMonth(y, m) then
      var ny := if m == 12 then y + 1 else y;
      var nm := if m == 12 then 1 else m + 1;
      NextMonthStart(y, m);
      Civil(ny, nm, d - DaysInMonth(y, m))
    else
      Civil(y, m, d)
  }

  /** Distinct valid civil dates have distinct day numbers. */
  lemma {:induction false} OrdinalMonotone(a: Civil, b: Civil)
    requires ValidCivil(a) && ValidCivil(b)
    requires a.year < b.year || (a.year == b.year && a.month < b.month) ||
             (a.year == b.year && a.month == b.month && a.day < b.day)
    ensures Ordinal(a) < Ordinal(b)
  {
    if a.year < b.year {
      DaysBeforeMonthBounds(a.year, a.month);
      DaysBeforeMonthBounds(b.year, b.month);
      YearsIncrease(a.year, b.year);
    } else if a.month < b.month {
      MonthsIncrease(a.year, a.month, b.month);
    }
  }

  lemma {:induction false} YearsIncrease(y: int, z: int)
    requires y < z
    ensures DaysBeforeYear(z) - DaysBeforeYear(y) >= YearDays(y)
    decreases z - y
  {
    YearLength(y);
    if y + 1 < z {
      YearsIncrease(y + 1, z);
    }
  }

  lemma {:induction false} MonthsIncrease(y: int, m: int, n: int)
    requires 1 <= m < n <= 12
    ensures DaysBeforeMonth(y, n) >= DaysBeforeMonth(y, m) + DaysInMonth(y, m)
    decreases n - m
  {
    if m + 1 < n {
      MonthsIncrease(y, m + 1, n);
    }
  }

  lemma OrdinalInjective(a: Civil, b: Civil)
    requires ValidCivil(a) && ValidCivil(b)
    ensures Ordinal(a) == Ordinal(b) <==> a == b
  {
    if a != b {
      if a.year < b.year || (a.year == b.year && a.month < b.month) ||
         (a.year == b.year && a.month == b.month && a.day < b.day) {
        OrdinalMonotone(a, b);
      } else {
        OrdinalMonotone(b, a);
      }
    }
  }

  // ---------------------------------------------------------------------
  // ISO date strings

  predicate IsDigit(c: char) {
    '0' <= c <= '9'
  }

  function DigitValue(c: char): int {
    c as int - '0' as int
  }

  function DigitChar(n: int): char
    requires 0 <= n <= 9
  {
    (n + '0' as int) as char
  }

  /**
   * Parses an ISO calendar date `YYYY-MM-DD`; any other text, or a month or
   * day out of range, gives None (the Date object's NaN).
   */
  function ParseDate(s: string): (r: Option<Civil>)
    ensures r.Some? ==> ValidCivil(r.value) && 0 <= r.value.year <= 9999
  {
    if |s| == 10 && s[4] == '-' && s[7] == '-' &&
       IsDigit(s[0]) && IsDigit(s[1]) && IsDigit(s[2]) && IsDigit(s[3]) &&
       IsDigit(s[5]) && IsDigit(s[6]) && IsDigit(s[8]) && IsDigit(s[9])
    then
      var y := 1000 * DigitValue(s[0]) + 100 * DigitValue(s[1]) + 10 * DigitValue(s[2]) + DigitValue(s[3]);
      var m := 10 * DigitValue(s[5]) + DigitValue(s[6]);
      var d := 10 * DigitValue(s[8]) + DigitValue(s[9]);
      if 1 <= m <= 12 && 1 <= d <= DaysInMonth(y, m) then Some(Civil(y, m, d)) else None
    else
      None
  }

  /** Writes a date with a four-digit year as `YYYY-MM-DD`. */
  function FormatDate(c: Civil): (s: string)
    requires ValidCivil(c) && 0 <= c.year <= 9999
    ensures |s| == 10
  {
    [DigitChar(c.year / 1000), DigitChar(c.year % 1000 / 100), DigitChar(c.year % 100 / 10), DigitChar(c.year % 10), '-',
     DigitChar(c.month / 10), DigitChar(c.month % 10), '-',
     DigitChar(c.day / 10), DigitChar(c.day % 10)]
  }

  lemma DigitRoundTrip(n: int)
    requires 0 <= n <= 9
    ensures IsDigit(DigitChar(n)) && DigitValue(DigitChar(n)) == n
  {
  }

  lemma FourDigits(n: int)
    requires 0 <= n <= 9999
    ensures n == 1000 * (n / 1000) + 100 * (n % 1000 / 100) + 10 * (n % 100 / 10) + n % 10
    ensures 0 <= n / 1000 <= 9 && 0 <= n % 1000 / 100 <= 9 && 0 <= n % 100 / 10 <= 9
  {
    var a, r := n / 1000, n % 1000;
    assert n == 1000 * a + r && 0 <= r < 1000;
    var b, t := r / 100, r % 100;
    assert r == 100 * b + t && 0 <= t < 100;
    assert n == 100 * (10 * a + b) + t;
    assert n % 100 == t;
    var c, d := t / 10, t % 10;
    assert t == 10 * c + d && 0 <= d < 10;
    assert n == 10 * (100 * a + 10 * b + c) + d;
    assert n % 10 == d;
  }

  /** Every date with a four-digit year round-trips through its ISO string. */
  lemma ParseFormat(c: Civil)
    requires ValidCivil(c) && 0 <= c.year <= 9999
    ensures ParseDate(FormatDate(c)) == Some(c)
  {
    var s := FormatDate(c);
    DigitRoundTrip(c.year / 1000);
    DigitRoundTrip(c.year % 1000 / 100);
    DigitRoundTrip(c.year % 100 / 10);
    DigitRoundTrip(c.year % 10);
    DigitRoundTrip(c.month / 10);
    DigitRoundTrip(c.month % 10);
    DigitRoundTrip(c.day / 10);
    DigitRoundTrip(c.day % 10);
    FourDigits(c.year);
  }

  /** Decimal digits in fixed positions denote a number uniquely. */
  lemma DigitsUnique(a: int, b: int, c: int, d: int, a': int, b': int, c': int, d': int)
    requires 0 <= a <= 9 && 0 <= b <= 9 && 0 <= c <= 9 && 0 <= d <= 9
    requires 0 <= a' <= 9 && 0 <= b' <= 9 && 0 <= c' <= 9 && 0 <= d' <= 9
    requires 1000 * a + 100 * b + 10 * c + d == 1000 * a' + 100 * b' + 10 * c' + d'
    ensures a == a' && b == b' && c == c' && d == d'
  {
  }

  lemma CharOfDigit(x: char, y: char)
    requires IsDigit(x) && IsDigit(y) && DigitValue(x) == DigitValue(y)
    ensures x == y
  {
  }

  /** Two strings that parse to the same date are the same string. */
  lemma ParseUnique(s: string, t: string)
    requires ParseDate(s).Some? && ParseDate(s) == ParseDate(t)
    ensures s == t
  {
    DigitsUnique(DigitValue(s[0]), DigitValue(s[1]), DigitValue(s[2]), DigitValue(s[3]),
                 DigitValue(t[0]), DigitValue(t[1]), DigitValue(t[2]), DigitValue(t[3]));
    DigitsUnique(0, 0, DigitValue(s[5]), DigitValue(s[6]), 0, 0, DigitValue(t[5]), DigitValue(t[6]));
    DigitsUnique(0, 0, DigitValue(s[8]), DigitValue(s[9]), 0, 0, DigitValue(t[8]), DigitValue(t[9]));
    forall i | 0 <= i < 10
      ensures s[i] == t[i]
    {
      if i != 4 && i != 7 {
        CharOfDigit(s[i], t[i]);
      }
    }
  }

  /** Two date strings that parse denote the same day only if they are the same string. */
  lemma ParseInjective(s: string, t: string)
    requires ParseDate(s).Some? && ParseDate(t).Some?
    ensures Ordinal(ParseDate(s).value) == Ordinal(ParseDate(t).value) <==> s == t
  {
    OrdinalInjective(ParseDate(s).value, ParseDate(t).value);
    if ParseDate(s) == ParseDate(t) {
      ParseUnique(s, t);
    }
  }

  /** The day number of a date string, or None where the Date object is NaN. */
  function DayOf(s: string): (r: Option<int>)
    ensures r.Some? <==> ParseDate(s).Some?
  {
    match ParseDate(s)
    case Some(c) => Some(Ordinal(c))
    case None => None
  }
}
