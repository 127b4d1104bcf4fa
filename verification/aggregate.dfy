/** The table operations of the temperature utilities, modelled on their
    row keys: grouping hourly rows by month or by day (`aggregate_by_month`,
    `aggregate_by_day`) and the two row filters `extract_month_of_daily` and
    `extract_day_of_hourly`. The summary statistics that pandas computes per
    group are not modelled, so an aggregated table is its date index. */
module Aggregate {
  import opened Options
  import opened Dates
  import opened Seqs

  const SecondsPerDay: int := 86400
  const SecondsPerHour: int := 3600

  /** A row of the hourly table: its time stamp (seconds, counted so that the
      midnight starting date `d` is `Ordinal(d) * SecondsPerDay`), its
      `year`, `month` and `day` columns and its temperature column `T`. */
  datatype HourRow = HourRow(stamp: int, year: int, month: int, day: int, temperature: real)

  /** A row of a month extracted from the daily table: the offset it is
      re-indexed by and its original date (the column `index`). */
  datatype IndexedDate = IndexedDate(offset: int, date: Date)

  /** A row of a day extracted from the hourly table, re-indexed by hours since midnight. */
  datatype HourPoint = HourPoint(hour: real, row: HourRow)

  /** The group of an hourly row in `aggregate_by_month`, as the date it is indexed by. */
  function MonthKey(r: HourRow): Date
  {
    Date(r.year, r.month, 15)
  }

  /** The group of an hourly row in `aggregate_by_day`, as the date it is indexed by. */
  function DayKey(r: HourRow): Date
  {
    Date(r.year, r.month, r.day)
  }

  /** Adds `x` to a strictly sorted sequence unless it is already there. */
  function Insert(s: seq<Date>, x: Date): (r: seq<Date>)
    requires StrictlySorted(s)
    ensures StrictlySorted(r)
    ensures forall d :: d in r <==> d in s || d == x
    decreases |s|
  {
    if |s| == 0 then [x]
    else if x == s[0] then s
    else if Before(x, s[0]) then [x] + s
    else
      var rest := Insert(s[1..], x);
      assert forall d :: d in rest ==> Before(s[0], d) by {
        forall d | d in rest ensures Before(s[0], d) {
          if d != x {
            var k :| 0 <= k < |s[1..]| && s[1..][k] == d;
            assert s[k + 1] == d;
          }
        }
      }
      [s[0]] + rest
  }

  /** The distinct keys, in sorted order: the group index pandas' `groupby` produces. */
  function SortedDistinct(ks: seq<Date>): (r: seq<Date>)
    ensures StrictlySorted(r)
    ensures forall d :: d in r <==> d in ks
    decreases |ks|
  {
    if |ks| == 0 then []
    else
      var r := Insert(SortedDistinct(ks[..|ks| - 1]), ks[|ks| - 1]);
      assert ks == ks[..|ks| - 1] + [ks[|ks| - 1]];
      r
  }

  /** `aggregate_by_month`'s index: one entry per (year, month) group, at day 15 of that
      month; `None` is the ValueError `datetime.date` raises for a key outside the calendar. */
  function AggregateByMonth(hourly: seq<HourRow>): (r: Option<seq<Date>>)
    ensures r.None? <==> exists i :: 0 <= i < |hourly| && !IsValid(MonthKey(hourly[i]))
    ensures r.Some? ==> StrictlySorted(r.value)
    ensures r.Some? ==> forall d :: d in r.value <==> exists i :: 0 <= i < |hourly| && MonthKey(hourly[i]) == d
    ensures r.Some? ==> forall j :: 0 <= j < |r.value| ==> r.value[j].day == 15 && IsValid(r.value[j])
  {
    if exists i :: 0 <= i < |hourly| && !IsValid(MonthKey(hourly[i])) then None
    else
      var keys := seq(|hourly|, i requires 0 <= i < |hourly| => MonthKey(hourly[i]));
      assert forall d :: d in keys <==> exists i :: 0 <= i < |hourly| && MonthKey(hourly[i]) == d by {
        forall d | d in keys ensures exists i :: 0 <= i < |hourly| && MonthKey(hourly[i]) == d {
          var i :| 0 <= i < |keys| && keys[i] == d;
        }
        forall i | 0 <= i < |hourly| ensures MonthKey(hourly[i]) in keys {
          assert keys[i] == MonthKey(hourly[i]);
        }
      }
      var r := SortedDistinct(keys);
      assert forall j :: 0 <= j < |r| ==> r[j] in keys;
      Some(r)
  }

  /** `aggregate_by_day`'s index: one entry per (year, month, day) group; `None` is the
      ValueError raised for a key that is not a calendar date. */
  function AggregateByDay(hourly: seq<HourRow>): (r: Option<seq<Date>>)
    ensures r.None? <==> exists i :: 0 <= i < |hourly| && !IsValid(DayKey(hourly[i]))
    ensures r.Some? ==> StrictlySorted(r.value)
    ensures r.Some? ==> forall d :: d in r.value <==> exists i :: 0 <= i < |hourly| && DayKey(hourly[i]) == d
    ensures r.Some? ==> forall j :: 0 <= j < |r.value| ==> IsValid(r.value[j])
  {
    if exists i :: 0 <= i < |hourly| && !IsValid(DayKey(hourly[i])) then None
    else
      var keys := seq(|hourly|, i requires 0 <= i < |hourly| => DayKey(hourly[i]));
      assert forall d :: d in keys <==> exists i :: 0 <= i < |hourly| && DayKey(hourly[i]) == d by {
        forall d | d in keys ensures exists i :: 0 <= i < |hourly| && DayKey(hourly[i]) == d {
          var i :| 0 <= i < |keys| && keys[i] == d;
        }
        forall i | 0 <= i < |hourly| ensures DayKey(hourly[i]) in keys {
          assert keys[i] == DayKey(hourly[i]);
        }
      }
      var r := SortedDistinct(keys);
      assert forall j :: 0 <= j < |r| ==> r[j] in keys;
      Some(r)
  }

  function MonthSelector(year: int, month: int): Date -> bool
  {
    (d: Date) => d.month == month && d.year == year
  }

  function DaySelector(year: int, month: int, day: int): HourRow -> bool
  {
    (r: HourRow) => r.month == month && r.year == year && r.day == day
  }

  function DatesOf(s: seq<IndexedDate>): (r: seq<Date>)
    ensures |r| == |s|
    ensures forall i :: 0 <= i < |s| ==> r[i] == s[i].date
  {
    seq(|s|, i requires 0 <= i < |s| => s[i].date)
  }

  function RowsOf(s: seq<HourPoint>): (r: seq<HourRow>)
    ensures |r| == |s|
    ensures forall i :: 0 <= i < |s| ==> r[i] == s[i].row
  {
    seq(|s|, i requires 0 <= i < |s| => s[i].row)
  }

  /** `extract_month_of_daily`: the days of one month, each re-indexed by its distance in
      days from the first kept day (so an empty month yields an empty table). */
  function ExtractMonthOfDaily(daily: seq<Date>, year: int, month: int): (r: seq<IndexedDate>)
    requires forall d :: d in daily ==> IsValid(d)
    ensures DatesOf(r) == Filter(daily, MonthSelector(year, month))
    ensures forall i :: 0 <= i < |r| ==> r[i].offset == r[i].date.day - r[0].date.day
    ensures StrictlySorted(daily) ==> forall i, j :: 0 <= i < j < |r| ==> r[i].offset < r[j].offset
  {
    var kept := Filter(daily, MonthSelector(year, month));
    assert forall i :: 0 <= i < |kept| ==> IsValid(kept[i]) by {
      forall i | 0 <= i < |kept| ensures IsValid(kept[i]) {
        FilterMembership(daily, MonthSelector(year, month), kept[i]);
      }
    }
    var r := seq(|kept|, i requires 0 <= i < |kept| => IndexedDate(Ordinal(kept[i]) - Ordinal(kept[0]), kept[i]));
    assert DatesOf(r) == kept;
    assert StrictlySorted(daily) ==> SortedBy(kept, Before) by {
      if StrictlySorted(daily) {
        FilterSorted(daily, MonthSelector(year, month), Before);
      }
    }
    r
  }

  /** The index the docstring of `extract_month_of_daily` and the monthly axis label
      describe: each kept day at its distance in days from the first of the month. */
  function ExtractMonthFromStart(daily: seq<Date>, year: int, month: int): (r: seq<IndexedDate>)
    requires forall d :: d in daily ==> IsValid(d)
    ensures DatesOf(r) == Filter(daily, MonthSelector(year, month))
    ensures forall i :: 0 <= i < |r| ==> r[i].offset == r[i].date.day - 1
  {
    var kept := Filter(daily, MonthSelector(year, month));
    var first := Date(year, month, 1);
    assert forall i :: 0 <= i < |kept| ==> IsValid(kept[i]) && kept[i].year == year && kept[i].month == month by {
      forall i | 0 <= i < |kept| ensures IsValid(kept[i]) && kept[i].year == year && kept[i].month == month {
        FilterMembership(daily, MonthSelector(year, month), kept[i]);
      }
    }
    var r := seq(|kept|, i requires 0 <= i < |kept| => IndexedDate(Ordinal(kept[i]) - Ordinal(first), kept[i]));
    assert DatesOf(r) == kept;
    forall i | 0 <= i < |r| ensures r[i].offset == r[i].date.day - 1 {
      OrdinalSameMonth(kept[i], first);
    }
    r
  }

  /** As written, a month whose data begin on the 3rd is indexed from the 3rd: its first
      day gets offset 0, where the documented index gives 2. */
  lemma OffsetCountsFromFirstKeptDay()
    ensures ExtractMonthOfDaily([Date(2021, 1, 3)], 2021, 1)[0].offset == 0
    ensures ExtractMonthFromStart([Date(2021, 1, 3)], 2021, 1)[0].offset == 2
  {
    var daily := [Date(2021, 1, 3)];
    assert Filter(daily, MonthSelector(2021, 1)) == daily;
    assert DatesOf(ExtractMonthOfDaily(daily, 2021, 1)) == daily;
    assert DatesOf(ExtractMonthFromStart(daily, 2021, 1)) == daily;
  }

  /** The two indices agree exactly for months whose data begin on the 1st. */
  lemma FromStartAgreesWhenFirstDayPresent(daily: seq<Date>, year: int, month: int)
    requires forall d :: d in daily ==> IsValid(d)
    requires |ExtractMonthOfDaily(daily, year, month)| > 0
    ensures ExtractMonthOfDaily(daily, year, month) == ExtractMonthFromStart(daily, year, month)
      <==> ExtractMonthOfDaily(daily, year, month)[0].date.day == 1
  {
    var a := ExtractMonthOfDaily(daily, year, month);
    var b := ExtractMonthFromStart(daily, year, month);
    assert |a| == |DatesOf(a)| == |DatesOf(b)| == |b|;
    forall i | 0 <= i < |a| ensures a[i].date == b[i].date {
      assert DatesOf(a)[i] == DatesOf(b)[i];
    }
    if a[0].date.day == 1 {
      forall i | 0 <= i < |a| ensures a[i] == b[i] {
      }
    } else {
      assert a[0].offset == 0 && b[0].offset == a[0].date.day - 1;
    }
  }

  /** `(stamp - midnight).seconds / 3600`: timedelta's `seconds` field is the
      remainder of the difference modulo one day, never negative. */
  function HoursSinceMidnight(stamp: int, midnight: int): (h: real)
    ensures 0.0 <= h < 24.0
    ensures midnight <= stamp < midnight + SecondsPerDay ==> h == (stamp - midnight) as real / 3600.0
  {
    ((stamp - midnight) % SecondsPerDay) as real / SecondsPerHour as real
  }

  /** `extract_day_of_hourly`: the hourly rows whose year, month and day columns match,
      re-indexed by hours since that day's midnight. The date must exist, or
      `datetime.datetime` raises. */
  function ExtractDayOfHourly(hourly: seq<HourRow>, year: int, month: int, day: int): (r: seq<HourPoint>)
    requires IsValid(Date(year, month, day))
    ensures RowsOf(r) == Filter(hourly, DaySelector(year, month, day))
    ensures forall i :: 0 <= i < |r| ==> 0.0 <= r[i].hour < 24.0
    ensures forall i :: 0 <= i < |r| ==>
      var midnight := Ordinal(Date(year, month, day)) * SecondsPerDay;
      midnight <= r[i].row.stamp < midnight + SecondsPerDay ==>
        r[i].hour == (r[i].row.stamp - midnight) as real / 3600.0
  {
    var kept := Filter(hourly, DaySelector(year, month, day));
    var midnight := Ordinal(Date(year, month, day)) * SecondsPerDay;
    var r := seq(|kept|, i requires 0 <= i < |kept| => HourPoint(HoursSinceMidnight(kept[i].stamp, midnight), kept[i]));
    assert RowsOf(r) == kept;
    r
  }

  /** The month extracted from the daily table is exactly that month's days, in order. */
  lemma ExtractMonthKeepsExactly(daily: seq<Date>, year: int, month: int)
    requires forall d :: d in daily ==> IsValid(d)
    ensures forall d :: d in DatesOf(ExtractMonthOfDaily(daily, year, month)) <==>
      d in daily && d.year == year && d.month == month
    ensures IsSubsequence(DatesOf(ExtractMonthOfDaily(daily, year, month)), daily)
    ensures |ExtractMonthOfDaily(daily, year, month)| == Count(daily, MonthSelector(year, month))
  {
    var p := MonthSelector(year, month);
    forall d ensures d in Filter(daily, p) <==> d in daily && p(d) {
      FilterMembership(daily, p, d);
    }
    FilterIsSubsequence(daily, p);
    FilterLength(daily, p);
  }

  /** The day extracted from the hourly table is exactly that day's rows, in order. */
  lemma ExtractDayKeepsExactly(hourly: seq<HourRow>, year: int, month: int, day: int)
    requires IsValid(Date(year, month, day))
    ensures forall x :: x in RowsOf(ExtractDayOfHourly(hourly, year, month, day)) <==>
      x in hourly && x.year == year && x.month == month && x.day == day
    ensures IsSubsequence(RowsOf(ExtractDayOfHourly(hourly, year, month, day)), hourly)
    ensures |ExtractDayOfHourly(hourly, year, month, day)| == Count(hourly, DaySelector(year, month, day))
  {
    var p := DaySelector(year, month, day);
    forall x ensures x in Filter(hourly, p) <==> x in hourly && p(x) {
      FilterMembership(hourly, p, x);
    }
    FilterIsSubsequence(hourly, p);
    FilterLength(hourly, p);
  }
}
