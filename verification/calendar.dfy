/** The Gregorian calendar facts the month reports rely on, as Python's
    `calendar` module states them. */
module Calendar {
  import opened Wrappers

  datatype CalendarError = MonthOutOfRange(month: int)

  /** `calendar.isleap`: every fourth year, except centuries not divisible
      by 400. Python's `%` floors, which agrees with Dafny's for the positive
      divisors used here, so negative years behave as in Python. */
  predicate IsLeap(year: int) {
    year % 4 == 0 && (year % 100 != 0 || year % 400 == 0)
  }

  /** Days in `month` of `year`: `mdays[month] + (month == 2 and isleap(year))`. */
  function DaysInMonth(year: int, month: int): (r: int)
    requires 1 <= month <= 12
    ensures 28 <= r <= 31
    ensures r == 29 <==> month == 2 && IsLeap(year)
    ensures r == 28 <==> month == 2 && !IsLeap(year)
    ensures r == 30 <==> month in {4, 6, 9, 11}
    ensures r == 31 <==> month in {1, 3, 5, 7, 8, 10, 12}
  {
    if month == 2 then (if IsLeap(year) then 29 else 28)
    else if month in {4, 6, 9, 11} then 30
    else 31
  }

  /** The day-count half of `calendar.monthrange`, which raises
      `IllegalMonthError` for a month outside 1..12 and accepts any year. */
  function MonthRange(year: int, month: int): (r: Result<int, CalendarError>)
    ensures r.Ok? <==> 1 <= month <= 12
    ensures r.Err? ==> r.error == MonthOutOfRange(month)
    ensures r.Ok? ==> r.value == DaysInMonth(year, month)
  {
    if 1 <= month <= 12 then Ok(DaysInMonth(year, month)) else Err(MonthOutOfRange(month))
  }

  function DaysInYearFrom(year: int, month: int): int
    requires 1 <= month <= 13
    decreases 13 - month
  {
    if month == 13 then 0 else DaysInMonth(year, month) + DaysInYearFrom(year, month + 1)
  }

  /** The twelve month lengths add up to the length of the Gregorian year. */
  lemma YearLength(year: int)
    ensures DaysInYearFrom(year, 1) == if IsLeap(year) then 366 else 365
  {
  }

  /** The calendar repeats every 400 years. */
  lemma FourHundredYearCycle(year: int, month: int)
    requires 1 <= month <= 12
    ensures DaysInMonth(year + 400, month) == DaysInMonth(year, month)
  {
    LeapCycle(year);
  }

  /** Leap years repeat every 400 years. */
  lemma LeapCycle(year: int)
    ensures IsLeap(year + 400) == IsLeap(year)
  {
    assert (year + 400) % 4 == year % 4;
    assert (year + 400) % 100 == year % 100;
    assert (year + 400) % 400 == year % 400;
  }

  /** The month after (`year`, `month`), computed on the month count
      `12 * year + month - 1`; December rolls into January of `year + 1`. */
  function NextMonth(year: int, month: int): (ym: (int, int))
    requires 1 <= month <= 12
    ensures month < 12 ==> ym == (year, month + 1)
    ensures month == 12 ==> ym == (year + 1, 1)
  {
    var index := 12 * year + month;
    (index / 12, index % 12 + 1)
  }
}
