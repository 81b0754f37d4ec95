/**
 * Calendar dates in the proleptic ISO calendar (java.time.LocalDate) and the
 * whole-year part of java.time.Period.between, which the age rule relies on.
 */
module Dates {

  /** A year-month-day triple; only the valid ones are LocalDates. */
  datatype YearMonthDay = YearMonthDay(year: int, month: int, day: int)

  predicate IsLeapYear(year: int) {
    year % 4 == 0 && (year % 100 != 0 || year % 400 == 0)
  }

  function LengthOfMonth(year: int, month: int): (n: int)
    requires 1 <= month <= 12
    ensures 28 <= n <= 31
    ensures n == 29 <==> month == 2 && IsLeapYear(year)
  {
    if month == 2 then (if IsLeapYear(year) then 29 else 28)
    else if month == 4 || month == 6 || month == 9 || month == 11 then 30
    else 31
  }

  predicate IsValidDate(d: YearMonthDay) {
    1 <= d.month <= 12 && 1 <= d.day <= LengthOfMonth(d.year, d.month)
  }

  /** A LocalDate is always a real calendar day. */
  type LocalDate = d: YearMonthDay | IsValidDate(d) witness YearMonthDay(1970, 1, 1)

  /** LocalDate.isBefore: chronological order, year first, then month, then day. */
  predicate IsBefore(a: LocalDate, b: LocalDate) {
    a.year < b.year
    || (a.year == b.year && a.month < b.month)
    || (a.year == b.year && a.month == b.month && a.day < b.day)
  }

  /** LocalDate.isAfter */
  predicate IsAfter(a: LocalDate, b: LocalDate) {
    IsBefore(b, a)
  }

  /** True when (month, day) of a comes before (month, day) of b within a year. */
  predicate MonthDayBefore(a: LocalDate, b: LocalDate) {
    a.month < b.month || (a.month == b.month && a.day < b.day)
  }

  /**
   * Whole completed years from birth to today: the year difference, less one
   * when this year's birthday has not been reached yet.
   */
  function CompletedYears(birth: LocalDate, today: LocalDate): int {
    today.year - birth.year - (if MonthDayBefore(today, birth) then 1 else 0)
  }

  /** Java's integer division, which truncates toward zero. */
  function JavaDiv(a: int, b: int): (q: int)
    requires b > 0
    ensures a >= 0 ==> 0 <= a - q * b < b
    ensures a < 0 ==> -b < a - q * b <= 0
  {
    if a >= 0 then a / b else -((-a) / b)
  }

  /** LocalDate.getProlepticMonth: months counted from year 0. */
  function ProlepticMonth(d: LocalDate): int {
    d.year * 12 + d.month - 1
  }

  /**
   * Period.between(start, end).getYears(), following LocalDate.until: the
   * month difference, moved one month toward zero when the day-of-month
   * difference has the opposite sign, divided by twelve with truncation.
   */
  function PeriodYears(start: LocalDate, end: LocalDate): int {
    var totalMonths := ProlepticMonth(end) - ProlepticMonth(start);
    var days := end.day - start.day;
    var months :=
      if totalMonths > 0 && days < 0 then totalMonths - 1
      else if totalMonths < 0 && days > 0 then totalMonths + 1
      else totalMonths;
    JavaDiv(months, 12)
  }

  lemma DivTwelve(n: int, q: int)
    requires 12 * q <= n < 12 * q + 12
    ensures n / 12 == q
  {
  }

  /** For a birth date not after today, Period's years are the completed years. */
  lemma {:induction false} PeriodYearsIsCompletedYears(birth: LocalDate, today: LocalDate)
    requires !IsAfter(birth, today)
    ensures PeriodYears(birth, today) == CompletedYears(birth, today)
  {
    var y := today.year - birth.year;
    var total := ProlepticMonth(today) - ProlepticMonth(birth);
    assert total == 12 * y + (today.month - birth.month);
    var months :=
      if total > 0 && today.day - birth.day < 0 then total - 1 else total;
    assert total >= 0;
    if MonthDayBefore(today, birth) {
      assert y >= 1;
      assert 12 * (y - 1) <= months < 12 * y;
      DivTwelve(months, y - 1);
    } else {
      assert 12 * y <= months < 12 * y + 12;
      DivTwelve(months, y);
    }
  }

  /** A birth date after today never gives a positive age. */
  lemma {:induction false} FutureBirthDateHasNoYears(birth: LocalDate, today: LocalDate)
    requires IsAfter(birth, today)
    ensures PeriodYears(birth, today) <= 0
    ensures CompletedYears(birth, today) < 0
  {
    var total := ProlepticMonth(today) - ProlepticMonth(birth);
    assert total == 12 * (today.year - birth.year) + (today.month - birth.month);
    assert total <= 0;
  }

  /** LocalDate.minusYears: same month and day, the day clamped to the month's length. */
  function MinusYears(d: LocalDate, years: int): (r: LocalDate)
    ensures r.year == d.year - years && r.month == d.month && r.day <= d.day
  {
    var y := d.year - years;
    var last := LengthOfMonth(y, d.month);
    YearMonthDay(y, d.month, if d.day <= last then d.day else last)
  }

  /** LocalDate.plusDays(1) */
  function NextDay(d: LocalDate): (r: LocalDate)
    ensures IsAfter(r, d)
  {
    if d.day < LengthOfMonth(d.year, d.month) then YearMonthDay(d.year, d.month, d.day + 1)
    else if d.month < 12 then YearMonthDay(d.year, d.month + 1, 1)
    else YearMonthDay(d.year + 1, 1, 1)
  }

  /** Someone born exactly n years ago today is n years old. */
  lemma {:induction false} AgeOnAnniversary(today: LocalDate, n: int)
    requires n >= 0
    ensures PeriodYears(MinusYears(today, n), today) == n
  {
    var birth := MinusYears(today, n);
    PeriodYearsIsCompletedYears(birth, today);
  }

  /** Someone born one day after that date is still n - 1 years old. */
  lemma {:induction false} AgeDayBeforeAnniversary(today: LocalDate, n: int)
    requires n >= 1
    ensures PeriodYears(NextDay(MinusYears(today, n)), today) == n - 1
  {
    var b := MinusYears(today, n);
    var birth := NextDay(b);
    assert !IsAfter(birth, today);
    PeriodYearsIsCompletedYears(birth, today);
    if b.day < LengthOfMonth(b.year, b.month) {
      assert b.day == today.day;
      assert MonthDayBefore(today, birth);
    } else if b.month < 12 {
      assert MonthDayBefore(today, birth);
    } else {
      assert birth.year == today.year - n + 1;
      assert !MonthDayBefore(today, birth);
    }
  }
}
