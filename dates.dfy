/**
 * Calendar dates as the due date of a work task.  A date is an opaque
 * (year, month, day) triple; `ParseDate` stands for
 * `DateTime.TryParse($"{year}-{month}-{day}")` applied to three integers and
 * accepts exactly the days of the proleptic Gregorian calendar that
 * `DateTime` can represent (years 1 to 9999).
 */
module Dates {
  import opened Input

  datatype Date = Date(year: int, month: int, day: int)

  predicate IsLeapYear(year: int) {
    year % 4 == 0 && (year % 100 != 0 || year % 400 == 0)
  }

  function DaysInMonth(year: int, month: int): (n: int)
    requires 1 <= month <= 12
    ensures 28 <= n <= 31
    ensures n == 29 <==> month == 2 && IsLeapYear(year)
    ensures month == 2 && !IsLeapYear(year) ==> n == 28
    ensures n == 30 <==> month == 4 || month == 6 || month == 9 || month == 11
  {
    if month == 2 then (if IsLeapYear(year) then 29 else 28)
    else if month == 4 || month == 6 || month == 9 || month == 11 then 30
    else 31
  }

  /** A day `DateTime` can hold: years 1 to 9999 of the Gregorian calendar. */
  predicate ValidDate(d: Date): (r: bool)
    ensures r ==> 1 <= d.day <= 31 && 1 <= d.month <= 12
    ensures r && d.month == 2 && d.day == 29 ==> IsLeapYear(d.year)
    ensures 1 <= d.year <= 9999 && 1 <= d.month <= 12 && 1 <= d.day <= 28 ==> r
    ensures d.year < 1 || 9999 < d.year ==> !r
  {
    && 1 <= d.year <= 9999
    && 1 <= d.month <= 12
    && 1 <= d.day <= DaysInMonth(d.year, d.month)
  }

  /**
   * The date that the three answers denote, or `None` when one of them is
   * not an integer or they do not form a calendar date.
   */
  function ParseDate(input: DateInput): (r: Option<Date>)
    ensures r.Some? ==> ValidDate(r.value)
    ensures r.Some? <==>
      && input.day.Some? && input.month.Some? && input.year.Some?
      && ValidDate(Date(input.year.value, input.month.value, input.day.value))
  {
    match (input.day, input.month, input.year)
    case (Some(d), Some(m), Some(y)) =>
      if ValidDate(Date(y, m, d)) then Some(Date(y, m, d)) else None
    case _ => None
  }

  /** Typing the three parts of a valid date gives back that date. */
  lemma ParseDateRoundTrip(d: Date)
    requires ValidDate(d)
    ensures ParseDate(DateInput(Some(d.day), Some(d.month), Some(d.year))) == Some(d)
  {
  }

}
