/** The date arithmetic behind `calculate_days_remaining`: the proleptic
    Gregorian calendar numbered as Python's `date.toordinal` numbers it
    (0001-01-01 is day 1), the `YYYY-MM-DD` prefix that `datetime.fromisoformat`
    reads, and the signed whole-day difference to a given "today". */
module Dates {
  import opened Wrappers

  datatype Date = Date(year: int, month: int, day: int)

  /** `ValueError` raised by `datetime.fromisoformat` on a malformed string. */
  datatype DateError = InvalidIsoFormat(text: string)

  predicate IsLeapYear(y: int)
  {
    y % 4 == 0 && (y % 100 != 0 || y % 400 == 0)
  }

  function DaysInYear(y: int): int
  {
    if IsLeapYear(y) then 366 else 365
  }

  function DaysInMonth(y: int, m: int): (n: int)
    requires 1 <= m <= 12
    ensures 28 <= n <= 31
    ensures n == 29 <==> m == 2 && IsLeapYear(y)
  {
    if m == 2 then (if IsLeapYear(y) then 29 else 28)
    else if m == 4 || m == 6 || m == 9 || m == 11 then 30
    else 31
  }

  /** A calendar date Python's `date` can hold (the upper year bound 9999
      comes from the four-digit year field where it matters). */
  predicate ValidDate(d: Date)
  {
    1 <= d.year && 1 <= d.month <= 12 && 1 <= d.day <= DaysInMonth(d.year, d.month)
  }

  /** Days in the years 1 .. y-1. */
  function DaysBeforeYear(y: int): int
    requires 1 <= y
  {
    var n := y - 1;
    365 * n + n / 4 - n / 100 + n / 400
  }

  /** Days in the months 1 .. m-1 of year y, from the cumulative table. */
  function DaysBeforeMonth(y: int, m: int): int
    requires 1 <= m <= 12
  {
    [0, 31, 59, 90, 120, 151, 181, 212, 243, 273, 304, 334][m - 1]
      + (if m > 2 && IsLeapYear(y) then 1 else 0)
  }

  /** The day number of a date: 0001-01-01 is day 1. */
  function DayNumber(d: Date): int
    requires ValidDate(d)
  {
    DaysBeforeYear(d.year) + DaysBeforeMonth(d.year, d.month) + d.day
  }

  /** Lexicographic "strictly earlier" on (year, month, day). */
  predicate Before(a: Date, b: Date)
  {
    a.year < b.year
    || (a.year == b.year && a.month < b.month)
    || (a.year == b.year && a.month == b.month && a.day < b.day)
  }

  /** The calendar successor of a date. */
  function NextDay(d: Date): (r: Date)
    requires ValidDate(d)
    ensures ValidDate(r) && Before(d, r)
  {
    if d.day < DaysInMonth(d.year, d.month) then Date(d.year, d.month, d.day + 1)
    else if d.month < 12 then Date(d.year, d.month + 1, 1)
    else Date(d.year + 1, 1, 1)
  }

  /** The date k days after d. */
  function AddDays(d: Date, k: nat): (r: Date)
    requires ValidDate(d)
    ensures ValidDate(r) && d.year <= r.year
    decreases k
  {
    if k == 0 then d else AddDays(NextDay(d), k - 1)
  }

  lemma DaysBeforeMonthStep(y: int, m: int)
    requires 1 <= m < 12
    ensures DaysBeforeMonth(y, m + 1) == DaysBeforeMonth(y, m) + DaysInMonth(y, m)
  {
  }

  lemma DaysBeforeYearStep(y: int)
    requires 1 <= y
    ensures DaysBeforeYear(y + 1) == DaysBeforeYear(y) + DaysInYear(y)
  {
    var n := y - 1;
    DivStep(n, 4);
    DivStep(n, 100);
    DivStep(n, 400);
  }

  /** Integer division by a positive constant steps up by one exactly at
      the multiples of that constant. */
  lemma DivStep(n: nat, k: int)
    requires k == 4 || k == 100 || k == 400
    ensures (n + 1) / k == n / k + (if (n + 1) % k == 0 then 1 else 0)
  {
    var q, r := n / k, n % k;
    assert n == q * k + r && 0 <= r < k;
    if r == k - 1 {
      assert n + 1 == (q + 1) * k;
    } else {
      assert n + 1 == q * k + (r + 1);
    }
  }

  /** The day after d has the next day number, across month ends, year ends
      and 29 February. */
  lemma NextDayNumber(d: Date)
    requires ValidDate(d)
    ensures DayNumber(NextDay(d)) == DayNumber(d) + 1
  {
    if d.day == DaysInMonth(d.year, d.month) {
      if d.month < 12 {
        DaysBeforeMonthStep(d.year, d.month);
      } else {
        DaysBeforeYearStep(d.year);
      }
    }
  }

  /** Moving a date k days on moves its day number by exactly k. */
  lemma {:induction false} AddDaysNumber(d: Date, k: nat)
    requires ValidDate(d)
    ensures DayNumber(AddDays(d, k)) == DayNumber(d) + k
    decreases k
  {
    if k > 0 {
      NextDayNumber(d);
      AddDaysNumber(NextDay(d), k - 1);
    }
  }

  lemma {:induction false} MonthsBefore(y: int, m1: int, m2: int)
    requires 1 <= m1 < m2 <= 12
    ensures DaysBeforeMonth(y, m1) + DaysInMonth(y, m1) <= DaysBeforeMonth(y, m2)
    decreases m2 - m1
  {
    DaysBeforeMonthStep(y, m1);
    if m1 + 1 < m2 {
      MonthsBefore(y, m1 + 1, m2);
    }
  }

  lemma {:induction false} YearsBefore(y1: int, y2: int)
    requires 1 <= y1 < y2
    ensures DaysBeforeYear(y1) + DaysInYear(y1) <= DaysBeforeYear(y2)
    decreases y2 - y1
  {
    DaysBeforeYearStep(y1);
    if y1 + 1 < y2 {
      YearsBefore(y1 + 1, y2);
    }
  }

  /** The day numbers of year y fill the range just after DaysBeforeYear(y). */
  lemma DayNumberInYear(d: Date)
    requires ValidDate(d)
    ensures DaysBeforeYear(d.year) < DayNumber(d) <= DaysBeforeYear(d.year) + DaysInYear(d.year)
  {
    if d.month < 12 {
      MonthsBefore(d.year, d.month, 12);
    }
  }

  lemma EarlierDayNumber(a: Date, b: Date)
    requires ValidDate(a) && ValidDate(b) && Before(a, b)
    ensures DayNumber(a) < DayNumber(b)
  {
    if a.year < b.year {
      DayNumberInYear(a);
      DayNumberInYear(b);
      YearsBefore(a.year, b.year);
    } else if a.month < b.month {
      MonthsBefore(a.year, a.month, b.month);
    }
  }

  /** Day numbers order dates as the calendar does, and number each date
      once. */
  lemma DayNumberOrder(a: Date, b: Date)
    requires ValidDate(a) && ValidDate(b)
    ensures DayNumber(a) < DayNumber(b) <==> Before(a, b)
    ensures DayNumber(a) == DayNumber(b) <==> a == b
  {
    if Before(a, b) {
      EarlierDayNumber(a, b);
    } else if Before(b, a) {
      EarlierDayNumber(b, a);
    }
  }

  // ---------------------------------------------------------------------
  // The `YYYY-MM-DD` text form

  predicate IsDigit(c: char)
  {
    '0' <= c <= '9'
  }

  function DigitValue(c: char): (v: int)
    requires IsDigit(c)
    ensures 0 <= v < 10
  {
    c as int - '0' as int
  }

  function DigitChar(v: int): (c: char)
    requires 0 <= v < 10
    ensures IsDigit(c) && DigitValue(c) == v
  {
    ('0' as int + v) as char
  }

  /** The value of the decimal field s[i..i+w], w being 2 or 4. */
  function FieldValue(s: string, i: nat, w: nat): int
    requires w == 2 || w == 4
    requires i + w <= |s| && forall j :: i <= j < i + w ==> IsDigit(s[j])
  {
    if w == 2 then
      10 * DigitValue(s[i]) + DigitValue(s[i + 1])
    else
      1000 * DigitValue(s[i]) + 100 * DigitValue(s[i + 1]) + 10 * DigitValue(s[i + 2]) + DigitValue(s[i + 3])
  }

  /** `YYYY-MM-DD` at the start of s: ASCII digits and two hyphens. */
  predicate IsoDateLayout(s: string)
  {
    && |s| >= 10
    && (forall j :: 0 <= j < 10 && j != 4 && j != 7 ==> IsDigit(s[j]))
    && s[4] == '-' && s[7] == '-'
  }

  function DatePrefix(s: string): Date
    requires IsoDateLayout(s)
  {
    Date(FieldValue(s, 0, 4), FieldValue(s, 5, 2), FieldValue(s, 8, 2))
  }

  /** The zero-padded `YYYY-MM-DD` text of a date, as `date.isoformat` writes it. */
  function FormatIsoDate(d: Date): (t: string)
    requires 0 <= d.year <= 9999 && 0 <= d.month <= 99 && 0 <= d.day <= 99
    ensures IsoDateLayout(t) && |t| == 10
  {
    [ DigitChar(d.year / 1000), DigitChar(d.year / 100 % 10),
      DigitChar(d.year / 10 % 10), DigitChar(d.year % 10), '-',
      DigitChar(d.month / 10), DigitChar(d.month % 10), '-',
      DigitChar(d.day / 10), DigitChar(d.day % 10) ]
  }

  lemma DigitRoundTrip(c: char)
    requires IsDigit(c)
    ensures DigitChar(DigitValue(c)) == c
  {
  }

  lemma TwoDigits(a: int, b: int)
    requires 0 <= a && 0 <= b < 10
    ensures (10 * a + b) / 10 == a && (10 * a + b) % 10 == b
  {
  }

  lemma FourDigits(a: int, b: int, c: int, d: int)
    requires 0 <= a < 10 && 0 <= b < 10 && 0 <= c < 10 && 0 <= d < 10
    ensures var y := 1000 * a + 100 * b + 10 * c + d;
      y / 1000 == a && y / 100 % 10 == b && y / 10 % 10 == c && y % 10 == d
  {
    var y := 1000 * a + 100 * b + 10 * c + d;
    assert y == (10 * (10 * a + b) + c) * 10 + d;
    TwoDigits(10 * (10 * a + b) + c, d);
    assert y / 10 == 10 * (10 * a + b) + c;
    TwoDigits(10 * a + b, c);
    assert y / 100 == y / 10 / 10 == 10 * a + b;
    TwoDigits(a, b);
    assert y / 1000 == y / 100 / 10 == a;
  }

  lemma SplitFour(y: int)
    requires 0 <= y <= 9999
    ensures 1000 * (y / 1000) + 100 * (y / 100 % 10) + 10 * (y / 10 % 10) + y % 10 == y
  {
    assert y == 10 * (y / 10) + y % 10;
    assert y / 10 == 10 * (y / 100) + y / 10 % 10;
    assert y / 100 == 10 * (y / 1000) + y / 100 % 10;
  }

  lemma SplitTwo(m: int)
    requires 0 <= m <= 99
    ensures 10 * (m / 10) + m % 10 == m
  {
  }

  /** Writing a date as `YYYY-MM-DD` and reading it back gives the date. */
  lemma FormatReadsBack(d: Date)
    requires 0 <= d.year <= 9999 && 0 <= d.month <= 99 && 0 <= d.day <= 99
    ensures DatePrefix(FormatIsoDate(d)) == d
  {
    SplitFour(d.year);
    SplitTwo(d.month);
    SplitTwo(d.day);
  }

  /** Reading a `YYYY-MM-DD` prefix and writing the date back gives the prefix. */
  lemma FormatDatePrefix(s: string)
    requires IsoDateLayout(s)
    ensures FormatIsoDate(DatePrefix(s)) == s[..10]
  {
    var d := DatePrefix(s);
    FourDigits(DigitValue(s[0]), DigitValue(s[1]), DigitValue(s[2]), DigitValue(s[3]));
    TwoDigits(DigitValue(s[5]), DigitValue(s[6]));
    TwoDigits(DigitValue(s[8]), DigitValue(s[9]));
    var t := FormatIsoDate(d);
    forall j | 0 <= j < 10
      ensures t[j] == s[j]
    {
      if j != 4 && j != 7 {
        DigitRoundTrip(s[j]);
      }
    }
  }

  /** `datetime.fromisoformat(s).date()`. The date part is read here; whether
      the library accepts what follows it (time of day, UTC offset) is the
      parameter timeAccepted, applied to everything after the tenth character. */
  function ParseIsoDate(s: string, timeAccepted: string -> bool): (r: Result<Date, DateError>)
    ensures r.Success? ==>
      && ValidDate(r.value) && r.value.year <= 9999
      && |s| >= 10 && s[..10] == FormatIsoDate(r.value)
      && (|s| == 10 || timeAccepted(s[10..]))
    ensures r.Failure? ==> r.error == InvalidIsoFormat(s)
  {
    if IsoDateLayout(s) && ValidDate(DatePrefix(s)) && (|s| == 10 || timeAccepted(s[10..])) then
      FormatDatePrefix(s);
      Success(DatePrefix(s))
    else
      Failure(InvalidIsoFormat(s))
  }

  /** A string parses to d exactly when it is d's `YYYY-MM-DD` text followed
      by nothing or by a suffix the library accepts. */
  lemma ParseIsoDateExactly(s: string, timeAccepted: string -> bool, d: Date)
    ensures ParseIsoDate(s, timeAccepted) == Success(d) <==>
      && ValidDate(d) && d.year <= 9999
      && |s| >= 10 && s[..10] == FormatIsoDate(d)
      && (|s| == 10 || timeAccepted(s[10..]))
  {
    if ValidDate(d) && d.year <= 9999 && |s| >= 10 && s[..10] == FormatIsoDate(d) {
      FormatReadsBack(d);
      assert s[..10] == s[..|s|][..10];
      assert IsoDateLayout(s[..10]);
      assert DatePrefix(s) == DatePrefix(s[..10]);
    }
  }

  // ---------------------------------------------------------------------
  // Days remaining

  /** `(datetime.fromisoformat(s).date() - today).days`, with today given
      instead of read from the clock: a malformed string is an error;
      otherwise the count is zero on today, negative for an earlier date and
      positive for a later one, and moves one by one with the day number. */
  function DaysRemaining(s: string, today: Date, timeAccepted: string -> bool): (r: Result<int, DateError>)
    requires ValidDate(today)
    ensures r.Success? <==> ParseIsoDate(s, timeAccepted).Success?
    ensures r.Failure? ==> r.error == InvalidIsoFormat(s)
    ensures r.Success? ==>
      var d := ParseIsoDate(s, timeAccepted).value;
      && r.value == DayNumber(d) - DayNumber(today)
      && (r.value == 0 <==> d == today)
      && (r.value < 0 <==> Before(d, today))
      && (r.value > 0 <==> Before(today, d))
  {
    match ParseIsoDate(s, timeAccepted)
    case Success(d) =>
      DayNumberOrder(d, today);
      DayNumberOrder(today, d);
      Success(DayNumber(d) - DayNumber(today))
    case Failure(e) => Failure(e)
  }

  /** Only the `YYYY-MM-DD` part counts: strings that agree on their first
      ten characters and are both accepted give the same count. */
  lemma DaysRemainingDateOnly(s1: string, s2: string, today: Date, timeAccepted: string -> bool)
    requires ValidDate(today)
    requires |s1| >= 10 && |s2| >= 10 && s1[..10] == s2[..10]
    requires |s1| == 10 || timeAccepted(s1[10..])
    requires |s2| == 10 || timeAccepted(s2[10..])
    ensures DaysRemaining(s1, today, timeAccepted).Success? <==> DaysRemaining(s2, today, timeAccepted).Success?
    ensures DaysRemaining(s1, today, timeAccepted).Success? ==>
      DaysRemaining(s1, today, timeAccepted) == DaysRemaining(s2, today, timeAccepted)
  {
    match ParseIsoDate(s1, timeAccepted)
    case Success(d) =>
      ParseIsoDateExactly(s2, timeAccepted, d);
    case Failure(_) =>
      if ParseIsoDate(s2, timeAccepted).Success? {
        ParseIsoDateExactly(s1, timeAccepted, ParseIsoDate(s2, timeAccepted).value);
      }
  }

  /** Reading back the text of a valid date, with an accepted suffix,
      gives that date. */
  lemma ParseFormatted(d: Date, suffix: string, timeAccepted: string -> bool)
    requires ValidDate(d) && d.year <= 9999
    requires suffix == [] || timeAccepted(suffix)
    ensures ParseIsoDate(FormatIsoDate(d) + suffix, timeAccepted) == Success(d)
  {
    var s := FormatIsoDate(d) + suffix;
    assert s[..10] == FormatIsoDate(d) && s[10..] == suffix;
    ParseIsoDateExactly(s, timeAccepted, d);
  }

  lemma DaysRemainingOfParsed(s: string, d: Date, today: Date, timeAccepted: string -> bool)
    requires ValidDate(today) && ParseIsoDate(s, timeAccepted) == Success(d)
    ensures DaysRemaining(s, today, timeAccepted) == Success(DayNumber(d) - DayNumber(today))
  {
  }

  /** Moving the written date k days later raises the count by exactly k,
      whatever month, year or leap-day boundaries lie between. */
  lemma DaysRemainingShift(d: Date, k: nat, suffix: string, today: Date, timeAccepted: string -> bool)
    requires ValidDate(d) && ValidDate(today) && AddDays(d, k).year <= 9999
    requires suffix == [] || timeAccepted(suffix)
    ensures DaysRemaining(FormatIsoDate(d) + suffix, today, timeAccepted).Success?
    ensures DaysRemaining(FormatIsoDate(AddDays(d, k)) + suffix, today, timeAccepted)
      == Success(DaysRemaining(FormatIsoDate(d) + suffix, today, timeAccepted).value + k)
  {
    var e := AddDays(d, k);
    var s1, s2 := FormatIsoDate(d) + suffix, FormatIsoDate(e) + suffix;
    ParseFormatted(d, suffix, timeAccepted);
    ParseFormatted(e, suffix, timeAccepted);
    DaysRemainingOfParsed(s1, d, today, timeAccepted);
    DaysRemainingOfParsed(s2, e, today, timeAccepted);
    AddDaysNumber(d, k);
  }
}
