/**
 * The proleptic Gregorian calendar as Python's `datetime` uses it, the day of
 * the year (`timetuple().tm_yday`) and the extractor's seven-character
 * year-and-day code `f"{year:04d}{yday:03d}"` (YYYYDDD).
 */
module Calendar {
  import opened Text

  datatype Date = Date(year: int, month: int, day: int)

  predicate IsLeapYear(y: int) {
    y % 4 == 0 && (y % 100 != 0 || y % 400 == 0)
  }

  function DaysInYear(y: int): int {
    if IsLeapYear(y) then 366 else 365
  }

  function DaysInMonth(y: int, m: int): int
    requires 1 <= m <= 12
  {
    if m == 2 then (if IsLeapYear(y) then 29 else 28)
    else if m == 4 || m == 6 || m == 9 || m == 11 then 30
    else 31
  }

  /** A date `datetime` can hold: years from 1 on, a month of the year, a day of that month. */
  predicate ValidDate(d: Date) {
    1 <= d.year && 1 <= d.month <= 12 && 1 <= d.day <= DaysInMonth(d.year, d.month)
  }

  /** The dates a `datetime` value can hold. */
  type CalendarDate = d: Date | ValidDate(d) witness Date(2000, 1, 1)

  /** The number of days in the months of year `y` before month `m` (month 13: the whole year). */
  function DaysBeforeMonth(y: int, m: int): int
    requires 1 <= m <= 13
  {
    [0, 31, 59, 90, 120, 151, 181, 212, 243, 273, 304, 334, 365][m - 1]
      + (if m > 2 && IsLeapYear(y) then 1 else 0)
  }

  /** Each month follows on from the ones before it. */
  lemma DaysBeforeNextMonth(y: int, m: int)
    requires 1 <= m <= 12
    ensures DaysBeforeMonth(y, m + 1) == DaysBeforeMonth(y, m) + DaysInMonth(y, m)
  {
  }

  lemma DaysBeforeMonthGrows(y: int, m: int, m': int)
    requires 1 <= m <= m' <= 13
    ensures DaysBeforeMonth(y, m) <= DaysBeforeMonth(y, m')
  {
  }

  /** The twelve months together make up the year. */
  lemma DaysBeforeYearEnd(y: int)
    ensures DaysBeforeMonth(y, 13) == DaysInYear(y)
  {
  }

  /** `tm_yday`: the position of the date in its year, counting 1 January as day 1. */
  function DayOfYear(d: Date): (n: int)
    requires ValidDate(d)
    ensures 1 <= n <= DaysInYear(d.year)
  {
    DaysBeforeMonthGrows(d.year, d.month + 1, 13);
    DaysBeforeYearEnd(d.year);
    DaysBeforeMonth(d.year, d.month) + d.day
  }

  /** The day after `d`: the next day of the month, the first of the next month, or 1 January of the next year. */
  function NextDay(d: Date): (e: Date)
    requires ValidDate(d)
    ensures ValidDate(e)
  {
    if d.day < DaysInMonth(d.year, d.month) then Date(d.year, d.month, d.day + 1)
    else if d.month < 12 then Date(d.year, d.month + 1, 1)
    else Date(d.year + 1, 1, 1)
  }

  /** Consecutive days of one year have consecutive day numbers, and 31 December is followed by day 1 of the next year. */
  lemma NextDayOfYear(d: Date)
    requires ValidDate(d)
    ensures NextDay(d).year == d.year ==> DayOfYear(NextDay(d)) == DayOfYear(d) + 1
    ensures NextDay(d).year != d.year ==>
      && d.month == 12 && d.day == 31
      && DayOfYear(d) == DaysInYear(d.year)
      && NextDay(d) == Date(d.year + 1, 1, 1)
      && DayOfYear(NextDay(d)) == 1
  {
    DaysBeforeYearEnd(d.year);
  }

  /** The month holding day `n` of year `y`, searching from month `m` on. */
  function MonthOfDay(y: int, n: int, m: int): (k: int)
    requires 1 <= m <= 12
    requires DaysBeforeMonth(y, m) < n <= DaysInYear(y)
    ensures m <= k <= 12
    ensures DaysBeforeMonth(y, k) < n <= DaysBeforeMonth(y, k) + DaysInMonth(y, k)
    decreases 12 - m
  {
    DaysBeforeYearEnd(y);
    if n <= DaysBeforeMonth(y, m) + DaysInMonth(y, m) || m == 12 then m
    else MonthOfDay(y, n, m + 1)
  }

  /** The date that is day `n` of year `y`: the inverse of `DayOfYear`. */
  function DateOfDay(y: int, n: int): (d: Date)
    requires 1 <= y && 1 <= n <= DaysInYear(y)
    ensures ValidDate(d) && d.year == y
  {
    var m := MonthOfDay(y, n, 1);
    Date(y, m, n - DaysBeforeMonth(y, m))
  }

  lemma {:induction false} MonthOfDayIsMonth(d: Date, m: int)
    requires ValidDate(d) && 1 <= m <= d.month
    ensures DaysBeforeMonth(d.year, m) < DayOfYear(d)
    ensures MonthOfDay(d.year, DayOfYear(d), m) == d.month
    decreases d.month - m
  {
    DaysBeforeMonthGrows(d.year, m, d.month);
    if m < d.month {
      DaysBeforeMonthGrows(d.year, m + 1, d.month);
      MonthOfDayIsMonth(d, m + 1);
    }
  }

  /** A date is recovered from its year and day of year. */
  lemma DateOfDayOfYear(d: Date)
    requires ValidDate(d)
    ensures DateOfDay(d.year, DayOfYear(d)) == d
  {
    MonthOfDayIsMonth(d, 1);
  }

  /** Every day number of a year belongs to exactly the date `DateOfDay` gives. */
  lemma DayOfYearOfDate(y: int, n: int)
    requires 1 <= y && 1 <= n <= DaysInYear(y)
    ensures DayOfYear(DateOfDay(y, n)) == n
  {
  }

  /** YYYYDDD: the year zero-padded to four digits, then the day of year zero-padded to three. */
  function YearDayCode(d: Date): string
    requires ValidDate(d)
  {
    ZeroPad(Digits(d.year), 4) + ZeroPad(Digits(DayOfYear(d)), 3)
  }

  /** The code is all digits and reads back, as `int(...)` does, as year * 1000 + day of year. */
  lemma YearDayCodeValue(d: Date)
    requires ValidDate(d)
    ensures AllDigits(YearDayCode(d))
    ensures Value(YearDayCode(d)) == d.year * 1000 + DayOfYear(d)
  {
    var n := DayOfYear(d);
    PaddedNumber(d.year, 4);
    PaddedNumber(n, 3);
    DigitsLength(n, 3);
    assert Pow10(3) == 1000;
    JoinedNumber(ZeroPad(Digits(d.year), 4), ZeroPad(Digits(n), 3), d.year, n);
  }

  /**
   * For the years `datetime` can hold (up to 9999) the code has exactly seven
   * characters: four that spell the year and three that spell the day of year.
   */
  lemma YearDayCodeFields(d: Date)
    requires ValidDate(d) && d.year <= 9999
    ensures |YearDayCode(d)| == 7
    ensures AllDigits(YearDayCode(d)[..4]) && Value(YearDayCode(d)[..4]) == d.year
    ensures AllDigits(YearDayCode(d)[4..]) && Value(YearDayCode(d)[4..]) == DayOfYear(d)
  {
    var n := DayOfYear(d);
    var ys, ds := ZeroPad(Digits(d.year), 4), ZeroPad(Digits(n), 3);
    PaddedNumber(d.year, 4);
    PaddedNumber(n, 3);
    assert Pow10(4) == 10000;
    PaddedWidth(d.year, 4);
    JoinedParts(ys, ds);
  }

  /** A number below 10^w zero-padded to width w has exactly w characters. */
  lemma PaddedWidth(n: nat, w: nat)
    requires w >= 1 && n < Pow10(w)
    ensures |ZeroPad(Digits(n), w)| == w
  {
    DigitsLength(n, w);
  }

  lemma JoinedParts(ys: string, ds: string)
    requires |ys| == 4
    ensures (ys + ds)[..4] == ys && (ys + ds)[4..] == ds
  {
  }

  lemma PaddedNumber(n: nat, w: nat)
    ensures AllDigits(ZeroPad(Digits(n), w)) && Value(ZeroPad(Digits(n), w)) == n
  {
    ValueOfDigits(n);
    ValueZeroPad(Digits(n), w);
  }

  lemma JoinedNumber(ys: string, ds: string, y: int, n: int)
    requires AllDigits(ys) && AllDigits(ds) && |ds| == 3
    requires Value(ys) == y && Value(ds) == n
    ensures AllDigits(ys + ds) && Value(ys + ds) == y * 1000 + n
  {
    ValueConcat(ys, ds);
    assert Pow10(3) == 1000;
  }

  /** Two dates with the same code are the same date. */
  lemma YearDayCodeInjective(d: Date, e: Date)
    requires ValidDate(d) && ValidDate(e)
    requires YearDayCode(d) == YearDayCode(e)
    ensures d == e
  {
    YearDayCodeValue(d);
    YearDayCodeValue(e);
    QuotientRemainder(d.year, DayOfYear(d), e.year, DayOfYear(e));
    DateOfDayOfYear(d);
    DateOfDayOfYear(e);
  }

  lemma QuotientRemainder(y: int, n: int, y': int, n': int)
    requires 0 <= n < 1000 && 0 <= n' < 1000
    requires y * 1000 + n == y' * 1000 + n'
    ensures y == y' && n == n'
  {
  }

  /** The code of the next day is one more within a year, and day 001 of the next year after 31 December. */
  lemma NextYearDayCode(d: Date)
    requires ValidDate(d)
    ensures AllDigits(YearDayCode(d)) && AllDigits(YearDayCode(NextDay(d)))
    ensures NextDay(d).year == d.year ==> Value(YearDayCode(NextDay(d))) == Value(YearDayCode(d)) + 1
    ensures NextDay(d).year != d.year ==> Value(YearDayCode(NextDay(d))) == (d.year + 1) * 1000 + 1
  {
    NextDayOfYear(d);
    YearDayCodeValue(d);
    YearDayCodeValue(NextDay(d));
  }
}
