/** Calendar dates as (year, month, day) triples, and truncation to the first of the month. */
module Dates {
  import opened Ordering

  datatype Date = Date(year: int, month: int, day: int)

  predicate IsLeapYear(y: int) {
    (y % 4 == 0 && y % 100 != 0) || y % 400 == 0
  }

  function DaysInMonth(y: int, m: int): (n: int)
    requires 1 <= m <= 12
    ensures 28 <= n <= 31
  {
    if m == 2 then (if IsLeapYear(y) then 29 else 28)
    else if m == 4 || m == 6 || m == 9 || m == 11 then 30
    else 31
  }

  /** A date that exists in the proleptic Gregorian calendar. */
  predicate ValidDate(d: Date) {
    1 <= d.month <= 12 && 1 <= d.day <= DaysInMonth(d.year, d.month)
  }

  /** Chronological order: year, then month, then day. */
  predicate DateLess(a: Date, b: Date) {
    || a.year < b.year
    || (a.year == b.year && a.month < b.month)
    || (a.year == b.year && a.month == b.month && a.day < b.day)
  }

  lemma DateLessOrder()
    ensures StrictTotalOrder(DateLess)
  {
  }

  predicate SameMonth(a: Date, b: Date) {
    a.year == b.year && a.month == b.month
  }

  /** The month a date falls in, represented by the first day of that month. */
  function MonthStart(d: Date): Date {
    Date(d.year, d.month, 1)
  }

  /** The month value is day 1 of the date's own year and month, and a real date when `d` is. */
  lemma MonthStartShape(d: Date)
    ensures MonthStart(d).day == 1
    ensures SameMonth(MonthStart(d), d)
    ensures ValidDate(d) ==> ValidDate(MonthStart(d))
  {
  }

  /** Two dates get the same month value exactly when they are in the same calendar month. */
  lemma MonthStartSameMonth(a: Date, b: Date)
    ensures MonthStart(a) == MonthStart(b) <==> SameMonth(a, b)
  {
  }

  lemma MonthStartIdempotent(d: Date)
    ensures MonthStart(MonthStart(d)) == MonthStart(d)
  {
  }

  /** No valid date of the month comes before its month value, and the month value is not after `d`. */
  lemma MonthStartIsEarliest(d: Date, e: Date)
    requires ValidDate(d) && ValidDate(e) && SameMonth(d, e)
    ensures !DateLess(e, MonthStart(d))
    ensures !DateLess(d, MonthStart(d))
  {
  }
}
