/** The legend labels of `AggregatedTimeTrace`: `"<name>: YYYY-MM"` for a
    month of daily data and `"<name>: YYYY-MM-DD"` for a day of hourly data
    (year padded to 4 digits, month and day to 2). The parsers read the
    numbers back; their round trips show that, for one data set name, a label
    determines the month (or the day) it was made from, so de-duplicating by
    label is de-duplicating by month. */
module Labels {
  import opened Options
  import opened Format

  function Prefix(name: string): string
  {
    name + ": "
  }

  function MonthLabel(name: string, year: int, month: int): (s: string)
    ensures Prefix(name) <= s
    ensures 0 <= year <= 9999 && 0 <= month <= 99 ==> |s| == |name| + 9
  {
    FormatIntWidth(year, 4);
    FormatIntWidth(month, 2);
    assert Pow10(4) == 10000 && Pow10(2) == 100;
    Prefix(name) + FormatInt(year, 4) + "-" + FormatInt(month, 2)
  }

  function DayLabel(name: string, year: int, month: int, day: int): (s: string)
    ensures MonthLabel(name, year, month) + "-" <= s
    ensures 0 <= year <= 9999 && 0 <= month <= 99 && 0 <= day <= 99 ==> |s| == |name| + 12
  {
    FormatIntWidth(day, 2);
    assert Pow10(2) == 100;
    MonthLabel(name, year, month) + "-" + FormatInt(day, 2)
  }

  /** Splits `"<int>-<rest>"` at the dash that ends the (possibly negative) integer. */
  function SplitSigned(s: string): Option<(int, string)>
  {
    match Find(s, '-', 1)
    case None => None
    case Some(k) =>
      match ParseInt(s[..k])
      case None => None
      case Some(v) => Some((v, s[k + 1..]))
  }

  function ParseMonthLabel(name: string, s: string): Option<(int, int)>
  {
    var p := Prefix(name);
    if !(p <= s) then None
    else
      match SplitSigned(s[|p|..])
      case None => None
      case Some((y, rest)) =>
        match ParseInt(rest)
        case None => None
        case Some(m) => Some((y, m))
  }

  function ParseDayLabel(name: string, s: string): Option<(int, int, int)>
  {
    var p := Prefix(name);
    if !(p <= s) then None
    else
      match SplitSigned(s[|p|..])
      case None => None
      case Some((y, rest)) =>
        match SplitSigned(rest)
        case None => None
        case Some((m, rest')) =>
          match ParseInt(rest')
          case None => None
          case Some(d) => Some((y, m, d))
  }

  /** Splitting a formatted integer followed by a dash recovers the integer and what follows. */
  lemma SplitFormatted(n: int, width: nat, tail: string)
    ensures SplitSigned(FormatInt(n, width) + "-" + tail) == Some((n, tail))
  {
    var f := FormatInt(n, width);
    var s := f + "-" + tail;
    FormatIntShape(n, width);
    ParseFormatInt(n, width);
    assert s[|f|] == '-';
    assert forall j :: 1 <= j < |f| ==> s[j] == f[j];
    FindFirst(s, '-', 1, |f|);
    assert s[..|f|] == f;
    assert s[|f| + 1..] == tail;
  }

  lemma MonthLabelRoundTrip(name: string, year: int, month: int)
    ensures ParseMonthLabel(name, MonthLabel(name, year, month)) == Some((year, month))
  {
    var mm := FormatInt(month, 2);
    MonthLabelAfterPrefix(Prefix(name), FormatInt(year, 4), mm);
    SplitFormatted(year, 4, mm);
    ParseFormatInt(month, 2);
    ParseMonthLabelParts(name, MonthLabel(name, year, month), year, month, mm);
  }

  lemma MonthLabelAfterPrefix(p: string, y: string, m: string)
    ensures p <= p + y + "-" + m
    ensures (p + y + "-" + m)[|p|..] == y + "-" + m
  {
    assert p + y + "-" + m == p + (y + "-" + m);
  }

  lemma ParseMonthLabelParts(name: string, s: string, y: int, m: int, rest: string)
    requires Prefix(name) <= s
    requires SplitSigned(s[|Prefix(name)|..]) == Some((y, rest))
    requires ParseInt(rest) == Some(m)
    ensures ParseMonthLabel(name, s) == Some((y, m))
  {
  }

  lemma DayLabelRoundTrip(name: string, year: int, month: int, day: int)
    ensures ParseDayLabel(name, DayLabel(name, year, month, day)) == Some((year, month, day))
  {
    var dd := FormatInt(day, 2);
    var rest := FormatInt(month, 2) + "-" + dd;
    var s := DayLabel(name, year, month, day);
    DayLabelAfterPrefix(name, year, month, day);
    SplitFormatted(year, 4, rest);
    SplitFormatted(month, 2, dd);
    ParseFormatInt(day, 2);
    ParseDayLabelParts(name, s, year, month, day, rest, dd);
  }

  lemma DayLabelAfterPrefix(name: string, year: int, month: int, day: int)
    ensures Prefix(name) <= DayLabel(name, year, month, day)
    ensures DayLabel(name, year, month, day)[|Prefix(name)|..]
         == FormatInt(year, 4) + "-" + (FormatInt(month, 2) + "-" + FormatInt(day, 2))
  {
    SliceAfterPrefix(Prefix(name), FormatInt(year, 4), FormatInt(month, 2), FormatInt(day, 2));
  }

  lemma SliceAfterPrefix(p: string, y: string, m: string, d: string)
    ensures p <= p + y + "-" + m + "-" + d
    ensures (p + y + "-" + m + "-" + d)[|p|..] == y + "-" + (m + "-" + d)
  {
    assert p + y + "-" + m + "-" + d == p + (y + "-" + (m + "-" + d));
  }

  lemma ParseDayLabelParts(name: string, s: string, y: int, m: int, d: int, rest: string, dd: string)
    requires Prefix(name) <= s
    requires SplitSigned(s[|Prefix(name)|..]) == Some((y, rest))
    requires SplitSigned(rest) == Some((m, dd))
    requires ParseInt(dd) == Some(d)
    ensures ParseDayLabel(name, s) == Some((y, m, d))
  {
  }

  lemma LayoutSlices(p: string, y: string, m: string)
    ensures |p + y + "-" + m| == |p| + |y| + 1 + |m|
    ensures (p + y + "-" + m)[..|p|] == p
    ensures (p + y + "-" + m)[|p|..|p| + |y|] == y
    ensures (p + y + "-" + m)[|p| + |y|] == '-'
    ensures (p + y + "-" + m)[|p| + |y| + 1..] == m
  {
    var s := p + y + "-" + m;
    assert s == p + (y + ("-" + m));
  }

  /** The month label of an in-range month is the name, `": "`, the year as exactly four
      digits, a dash and the month as exactly two digits. */
  lemma MonthLabelLayout(name: string, year: int, month: int)
    requires 0 <= year <= 9999 && 0 <= month <= 99
    ensures var s, n := MonthLabel(name, year, month), |name|;
      && |s| == n + 9
      && s[..n + 2] == name + ": "
      && AllDigits(s[n + 2..n + 6]) && ParseDigits(s[n + 2..n + 6]) == year
      && s[n + 6] == '-'
      && AllDigits(s[n + 7..]) && ParseDigits(s[n + 7..]) == month
  {
    assert Pow10(4) == 10000 && Pow10(2) == 100;
    FormatFits(year, 4);
    FormatFits(month, 2);
    LayoutSlices(Prefix(name), FormatInt(year, 4), FormatInt(month, 2));
  }

  /** The day label of an in-range day is its month label, a dash and the day as exactly
      two digits. */
  lemma DayLabelLayout(name: string, year: int, month: int, day: int)
    requires 0 <= year <= 9999 && 0 <= month <= 99 && 0 <= day <= 99
    ensures var s, n := DayLabel(name, year, month, day), |name|;
      && |s| == n + 12
      && s[..n + 9] == MonthLabel(name, year, month)
      && s[n + 9] == '-'
      && AllDigits(s[n + 10..]) && ParseDigits(s[n + 10..]) == day
  {
    assert Pow10(2) == 100;
    FormatFits(day, 2);
    var ml := MonthLabel(name, year, month);
    var dd := FormatInt(day, 2);
    var s := ml + "-" + dd;
    assert s[..|ml|] == ml;
    assert s[|ml| + 1..] == dd;
  }

  /** For one data set, two months share a label only if they are the same month. */
  lemma MonthLabelInjective(name: string, y1: int, m1: int, y2: int, m2: int)
    requires MonthLabel(name, y1, m1) == MonthLabel(name, y2, m2)
    ensures y1 == y2 && m1 == m2
  {
    MonthLabelRoundTrip(name, y1, m1);
    MonthLabelRoundTrip(name, y2, m2);
  }

  /** For one data set, two days share a label only if they are the same day. */
  lemma DayLabelInjective(name: string, y1: int, m1: int, d1: int, y2: int, m2: int, d2: int)
    requires DayLabel(name, y1, m1, d1) == DayLabel(name, y2, m2, d2)
    ensures y1 == y2 && m1 == m2 && d1 == d2
  {
    DayLabelRoundTrip(name, y1, m1, d1);
    DayLabelRoundTrip(name, y2, m2, d2);
  }
}
