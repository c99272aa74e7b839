/** Python's datetime.date and datetime.datetime, as far as the scraper uses
    them: proleptic Gregorian dates in years 1..9999, the one-day step, the
    comparison, and wall-clock times on a date. */
module Calendar {
  import opened Wrappers

  datatype YearMonthDay = YearMonthDay(year: int, month: int, day: int)

  predicate IsLeapYear(y: int)
  {
    y % 4 == 0 && (y % 100 != 0 || y % 400 == 0)
  }

  function DaysInMonth(y: int, m: int): (n: int)
    requires 1 <= m <= 12
    ensures 28 <= n <= 31
    ensures n == 29 <==> m == 2 && IsLeapYear(y)
  {
    if m == 2 then (if IsLeapYear(y) then 29 else 28)
    else if m == 4 || m == 6 || m == 9 || m == 11 then 30
    else 31
  }

  /** The values a datetime.date can hold (date.min .. date.max). */
  predicate ValidDate(d: YearMonthDay)
  {
    1 <= d.year <= 9999 && 1 <= d.month <= 12 && 1 <= d.day <= DaysInMonth(d.year, d.month)
  }

  type Date = d: YearMonthDay | ValidDate(d) witness YearMonthDay(1, 1, 1)

  /** date.max */
  const MaxDate: Date := YearMonthDay(9999, 12, 31)

  /** Python's date comparison a < b: by year, then month, then day. */
  predicate Before(a: Date, b: Date)
  {
    a.year < b.year
    || (a.year == b.year && a.month < b.month)
    || (a.year == b.year && a.month == b.month && a.day < b.day)
  }

  /** Python's a <= b on dates. */
  predicate NotAfter(a: Date, b: Date)
  {
    Before(a, b) || a == b
  }

  /** An order-preserving numeric key for a date (not a count of days:
      months are spaced 32 apart and years 416 apart); it measures how far
      the date loop still has to go. */
  function Ordinal(d: Date): nat
  {
    d.year * 416 + d.month * 32 + d.day
  }

  lemma OrdinalMonotone(a: Date, b: Date)
    ensures Before(a, b) <==> Ordinal(a) < Ordinal(b)
  {
  }

  /** date.max is the greatest date: nothing lies after it. */
  lemma NothingAfterMax(d: Date)
    ensures NotAfter(MaxDate, d) ==> d == MaxDate
    ensures NotAfter(d, MaxDate)
  {
  }

  /** d + timedelta(days=1), or None where Python raises OverflowError. */
  function NextDay(d: Date): (r: Option<Date>)
    ensures r.None? <==> d == MaxDate
    ensures r.Some? ==> Before(d, r.value)
  {
    if d.day < DaysInMonth(d.year, d.month) then Some(YearMonthDay(d.year, d.month, d.day + 1))
    else if d.month < 12 then Some(YearMonthDay(d.year, d.month + 1, 1))
    else if d.year < 9999 then Some(YearMonthDay(d.year + 1, 1, 1))
    else None
  }

  /** A wall-clock time on a date, as datetime.datetime(year, month, day,
      hour, minute) builds it. */
  datatype DateTime = DateTime(date: Date, hour: int, minute: int)

  /** The hours and minutes datetime.datetime accepts without ValueError. */
  predicate ValidClock(hour: int, minute: int)
  {
    0 <= hour <= 23 && 0 <= minute <= 59
  }

  /** The next day is the least date after d: no date lies strictly between. */
  lemma NextDayIsLeast(d: Date, e: Date)
    requires Before(d, e)
    ensures NextDay(d).Some? && NotAfter(NextDay(d).value, e)
  {
  }
}
