/**
 * Calendar dates as Python's datetime module treats the values the scripts
 * build: a date at midnight, compared field by field, with datetime.min being
 * 0001-01-01.
 */
module Calendar {

  datatype Date = Date(year: int, month: int, day: int)

  /** datetime.min: the value the scripts return for a name without a usable date. */
  const MinDate: Date := Date(1, 1, 1)

  predicate IsLeapYear(y: int) {
    y % 4 == 0 && (y % 100 != 0 || y % 400 == 0)
  }

  function DaysInMonth(y: int, m: int): (n: int)
    requires 1 <= m <= 12
    ensures 28 <= n <= 31
  {
    if m == 2 then (if IsLeapYear(y) then 29 else 28)
    else if m == 4 || m == 6 || m == 9 || m == 11 then 30
    else 31
  }

  /** What datetime(year, month, day) accepts without raising ValueError. */
  predicate Valid(d: Date) {
    1 <= d.year <= 9999 && 1 <= d.month <= 12 && 1 <= d.day <= DaysInMonth(d.year, d.month)
  }

  /** `a < b` on two datetimes at midnight. */
  predicate Before(a: Date, b: Date) {
    a.year < b.year
    || (a.year == b.year && (a.month < b.month || (a.month == b.month && a.day < b.day)))
  }

  /** An order-preserving rank of a date (not a count of days): it orders valid dates as Before does. */
  function Ordinal(d: Date): int {
    d.year * 372 + (d.month - 1) * 31 + (d.day - 1)
  }

  lemma BeforeIsOrdinalLess(a: Date, b: Date)
    requires Valid(a) && Valid(b)
    ensures Before(a, b) <==> Ordinal(a) < Ordinal(b)
  {
    if a.year < b.year {
      assert (a.month - 1) * 31 + (a.day - 1) < 372;
    } else if a.year > b.year {
      assert (b.month - 1) * 31 + (b.day - 1) < 372;
    }
  }

  /** Nothing valid lies before datetime.min. */
  lemma MinDateIsLeast(d: Date)
    requires Valid(d)
    ensures Valid(MinDate) && !Before(d, MinDate)
  {
  }
}
