/** Calendar dates as Python's `datetime.date` understands them: the
    proleptic Gregorian calendar, years 1 to 9999, and `toordinal`, which
    numbers 0001-01-01 as day 1. Subtracting two dates, as the aggregation
    code does, is subtracting their ordinals. */
module Dates {

  datatype Date = Date(year: int, month: int, day: int)

  predicate IsLeapYear(y: int)
  {
    y % 4 == 0 && (y % 100 != 0 || y % 400 == 0)
  }

  function DaysInMonth(y: int, m: int): (n: int)
    requires 1 <= m <= 12
    ensures 28 <= n <= 31
    ensures n == 29 <==> m == 2 && IsLeapYear(y)
  {
    if m == 2 then (if IsLeapYear(y) then 29 else 28)
    else if m == 4 || m == 6 || m == 9 || m == 11 then 30
    else 31
  }

  /** The arguments `datetime.date(year, month, day)` accepts without raising ValueError. */
  predicate IsValid(d: Date)
  {
    && 1 <= d.year <= 9999
    && 1 <= d.month <= 12
    && 1 <= d.day <= DaysInMonth(d.year, d.month)
  }

  function DaysBeforeYear(y: int): int
    requires y >= 1
  {
    var p := y - 1;
    p * 365 + p / 4 - p / 100 + p / 400
  }

  function DaysBeforeMonth(y: int, m: int): (n: int)
    requires 1 <= m <= 12
    ensures 28 * (m - 1) <= n <= 31 * (m - 1)
    decreases m
  {
    if m == 1 then 0 else DaysBeforeMonth(y, m - 1) + DaysInMonth(y, m - 1)
  }

  /** `date.toordinal()`. */
  function Ordinal(d: Date): int
    requires IsValid(d)
  {
    DaysBeforeYear(d.year) + DaysBeforeMonth(d.year, d.month) + d.day
  }

  /** Lexicographic order on (year, month, day), the order in which pandas sorts group keys. */
  predicate Before(a: Date, b: Date)
  {
    || a.year < b.year
    || (a.year == b.year && a.month < b.month)
    || (a.year == b.year && a.month == b.month && a.day < b.day)
  }

  ghost predicate StrictlySorted(s: seq<Date>)
  {
    forall i, j :: 0 <= i < j < |s| ==> Before(s[i], s[j])
  }

  /** Within one month, date subtraction is day-of-month subtraction. */
  lemma OrdinalSameMonth(a: Date, b: Date)
    requires IsValid(a) && IsValid(b)
    requires a.year == b.year && a.month == b.month
    ensures Ordinal(a) - Ordinal(b) == a.day - b.day
  {
  }

  lemma DaysBeforeMonthGrows(y: int, m: int, m': int)
    requires 1 <= m < m' <= 12
    ensures DaysBeforeMonth(y, m) + DaysInMonth(y, m) <= DaysBeforeMonth(y, m')
    decreases m' - m
  {
    if m + 1 < m' {
      DaysBeforeMonthGrows(y, m, m' - 1);
    }
  }

  /** The days of year `y` all come before the first day of year `y + 1`. */
  lemma {:induction false} YearFitsBeforeNext(y: int)
    requires 1 <= y
    ensures DaysBeforeYear(y) + DaysBeforeMonth(y, 12) + 31 <= DaysBeforeYear(y + 1)
  {
    DaysBeforeMonthTotal(y);
    var p := y - 1;
    StepDiv4(p);
    StepDiv100(p);
    StepDiv400(p);
    assert DaysBeforeYear(y + 1) - DaysBeforeYear(y)
      == 365 + ((p + 1) / 4 - p / 4) - ((p + 1) / 100 - p / 100) + ((p + 1) / 400 - p / 400);
    CenturiesAreLeapCandidates(y);
  }

  lemma CenturiesAreLeapCandidates(y: int)
    ensures y % 100 == 0 ==> y % 4 == 0
    ensures y % 400 == 0 ==> y % 100 == 0
  {
  }

  lemma StepDiv4(p: int)
    ensures (p + 1) / 4 - p / 4 == (if (p + 1) % 4 == 0 then 1 else 0)
  {
  }

  lemma StepDiv100(p: int)
    ensures (p + 1) / 100 - p / 100 == (if (p + 1) % 100 == 0 then 1 else 0)
  {
  }

  lemma StepDiv400(p: int)
    ensures (p + 1) / 400 - p / 400 == (if (p + 1) % 400 == 0 then 1 else 0)
  {
  }

  lemma DaysBeforeMonthTotal(y: int)
    ensures DaysBeforeMonth(y, 12) == (if IsLeapYear(y) then 335 else 334)
  {
  }

  lemma {:induction false} DaysBeforeYearGrows(y: int, y': int)
    requires 1 <= y < y'
    ensures DaysBeforeYear(y) + 365 <= DaysBeforeYear(y')
    decreases y' - y
  {
    YearFitsBeforeNext(y);
    if y + 1 < y' {
      DaysBeforeYearGrows(y + 1, y');
    }
  }

  /** Every day of year `y` has an ordinal at most the last day of that year's. */
  lemma OrdinalWithinYear(d: Date)
    requires IsValid(d)
    ensures DaysBeforeYear(d.year) < Ordinal(d) <= DaysBeforeYear(d.year) + DaysBeforeMonth(d.year, 12) + 31
  {
    if d.month < 12 {
      DaysBeforeMonthGrows(d.year, d.month, 12);
    }
  }

  /** `toordinal` respects the calendar order, so date differences have the sign of the order. */
  lemma {:induction false} OrdinalMonotone(a: Date, b: Date)
    requires IsValid(a) && IsValid(b)
    requires Before(a, b)
    ensures Ordinal(a) < Ordinal(b)
  {
    if a.year < b.year {
      OrdinalWithinYear(a);
      OrdinalWithinYear(b);
      YearFitsBeforeNext(a.year);
      if a.year + 1 < b.year {
        DaysBeforeYearGrows(a.year + 1, b.year);
      }
    } else if a.month < b.month {
      DaysBeforeMonthGrows(a.year, a.month, b.month);
    }
  }
}
