/** `AggregatedTimeTrace`: one temperature data set drawn at three scales on
    three axes (months on the yearly axes, days on the monthly axes, hours on
    the daily axes) and driven by pick events. The model keeps the object's
    bookkeeping: the two label-keyed maps `daily_artists` and `daily_index`,
    the position in the style cycle, and the hourly lines on the daily axes.
    Artists are opaque tokens minted from a counter; drawing them is not
    modelled. Every transition is a pure function from state to state. */
module TimeTrace {
  import opened Options
  import opened Dates
  import opened Seqs
  import opened Labels
  import opened Aggregate

  datatype Style = Style(marker: string, color: string)

  const Markers: seq<string> := ["o", "s", "^", "*", "x", "v", "8", "D", "H", "<"]
  const Colors: seq<string> := [
    "#1f77b4", "#ff7f0e", "#2ca02c", "#d62728", "#9467bd",
    "#8c564b", "#e377c2", "#7f7f7f", "#bcbd22", "#17becf"]

  /** The default cycle: markers and colours zipped pairwise, ten styles long. */
  const DefaultStyleCycle: seq<Style> := [
    Style(Markers[0], Colors[0]), Style(Markers[1], Colors[1]), Style(Markers[2], Colors[2]),
    Style(Markers[3], Colors[3]), Style(Markers[4], Colors[4]), Style(Markers[5], Colors[5]),
    Style(Markers[6], Colors[6]), Style(Markers[7], Colors[7]), Style(Markers[8], Colors[8]),
    Style(Markers[9], Colors[9])]

  /** An opaque handle for an artist the plotting library created. */
  type Token = nat

  /** What `plot_aggregated_errorbar` returns: the error bar (whose data line is the
      pickable artist) and the min/max band, plus the style they were drawn with. */
  datatype Errorbar = Errorbar(line: Token, fill: Token, style: Style)

  /** A line drawn by `_plot_T_by_hour` on the daily axes. */
  datatype HourlyLine = HourlyLine(line: Token, legend: string, points: seq<HourPoint>, style: Style)

  /** The axes a mouse event happened in; `OtherAxes` also stands for no axes at all. */
  datatype Axes = YearlyAxes | MonthlyAxes | DailyAxes | OtherAxes

  /** A pick event: the axes of its mouse event, the picked artist, that artist's gid,
      the modifier key held, and the indices of the picked points. */
  datatype PickEvent = PickEvent(inaxes: Axes, artist: Token, gid: Option<string>, key: Option<string>, ind: seq<nat>)

  datatype Trace = Trace(
    name: string,
    hourly: seq<HourRow>,
    byDay: seq<Date>,
    byMonth: seq<Date>,
    styles: seq<Style>,
    drawn: nat,
    tokens: nat,
    yearlyArt: Option<Errorbar>,
    dailyArtists: map<string, Errorbar>,
    dailyIndex: map<string, seq<IndexedDate>>,
    hourlyLines: seq<HourlyLine>)

  /** The daily table as `aggregate_by_day` builds it: calendar dates, sorted, no repeats. */
  ghost predicate DayIndexOk(byDay: seq<Date>)
  {
    (forall d :: d in byDay ==> IsValid(d)) && StrictlySorted(byDay)
  }

  /** A stored `daily_index` entry: calendar dates under strictly increasing offsets,
      so a lookup by offset finds at most one date. */
  ghost predicate IndexOk(entries: seq<IndexedDate>)
  {
    && (forall i :: 0 <= i < |entries| ==> IsValid(entries[i].date))
    && (forall i, j :: 0 <= i < j < |entries| ==> entries[i].offset < entries[j].offset)
  }

  /** Every artist token in the state was minted before the counter's current value. */
  ghost predicate TokensBelow(t: Trace)
  {
    && (t.yearlyArt.Some? ==> t.yearlyArt.value.line < t.tokens && t.yearlyArt.value.fill < t.tokens)
    && (forall l :: l in t.dailyArtists ==> t.dailyArtists[l].line < t.tokens && t.dailyArtists[l].fill < t.tokens)
    && (forall k :: 0 <= k < |t.hourlyLines| ==> t.hourlyLines[k].line < t.tokens)
  }

  /** No two hourly lines share an artist: each one is a separate object. */
  ghost predicate DistinctLines(lines: seq<HourlyLine>)
  {
    forall i, j :: 0 <= i < j < |lines| ==> lines[i].line != lines[j].line
  }

  /** The object invariant: the two maps have the same labels, the stored data is well
      formed, and artists are distinct objects minted by the counter. */
  ghost predicate Valid(t: Trace)
  {
    && |t.styles| > 0
    && t.dailyArtists.Keys == t.dailyIndex.Keys
    && DayIndexOk(t.byDay)
    && (forall l :: l in t.dailyIndex ==> IndexOk(t.dailyIndex[l]))
    && TokensBelow(t)
    && DistinctLines(t.hourlyLines)
  }

  /** The fields no handler changes. */
  predicate SameData(a: Trace, b: Trace)
  {
    a.name == b.name && a.hourly == b.hourly && a.byDay == b.byDay && a.byMonth == b.byMonth
    && a.styles == b.styles && a.yearlyArt == b.yearlyArt
  }

  /** The style `next(self.style_cycle)` yields after `drawn` earlier draws. */
  function NextStyle(t: Trace): Style
    requires |t.styles| > 0
  {
    t.styles[t.drawn % |t.styles|]
  }

  lemma ExtractMonthIndexOk(daily: seq<Date>, year: int, month: int)
    requires DayIndexOk(daily)
    ensures IndexOk(ExtractMonthOfDaily(daily, year, month))
  {
    var r := ExtractMonthOfDaily(daily, year, month);
    forall i | 0 <= i < |r| ensures IsValid(r[i].date) {
      assert DatesOf(r)[i] == r[i].date;
      FilterMembership(daily, MonthSelector(year, month), r[i].date);
    }
  }

  /** The constructor: aggregate what was not supplied, pick the style cycle, and draw the
      yearly error bar with the first style. `None` is the ValueError an aggregation raises. */
  function Init(hourly: seq<HourRow>, name: string, byDay: Option<seq<Date>>, byMonth: Option<seq<Date>>,
                styles: Option<seq<Style>>): (r: Option<Trace>)
    requires byDay.Some? ==> DayIndexOk(byDay.value)
    requires styles.Some? ==> |styles.value| > 0
    ensures r.None? <==>
      || (byDay.None? && exists i :: 0 <= i < |hourly| && !IsValid(DayKey(hourly[i])))
      || (byMonth.None? && exists i :: 0 <= i < |hourly| && !IsValid(MonthKey(hourly[i])))
    ensures r.Some? ==> Valid(r.value)
    ensures r.Some? ==> r.value.dailyArtists == map[] && r.value.dailyIndex == map[] && r.value.hourlyLines == []
    ensures r.Some? ==> r.value.yearlyArt.Some? && r.value.yearlyArt.value.style == r.value.styles[0]
    ensures r.Some? ==> r.value.drawn == 1 && r.value.yearlyArt.value.line < r.value.tokens
    ensures r.Some? ==> r.value.styles == (if styles.Some? then styles.value else DefaultStyleCycle)
  {
    if (byDay.None? && AggregateByDay(hourly).None?) || (byMonth.None? && AggregateByMonth(hourly).None?) then None
    else
      Some(Trace(name, hourly,
                 if byDay.Some? then byDay.value else AggregateByDay(hourly).value,
                 if byMonth.Some? then byMonth.value else AggregateByMonth(hourly).value,
                 CycleOf(styles), 1, 2, Some(Errorbar(0, 1, CycleOf(styles)[0])), map[], map[], []))
  }

  /** The style cycle the constructor uses: the one supplied, or the default. */
  function CycleOf(styles: Option<seq<Style>>): seq<Style>
  {
    if styles.Some? then styles.value else DefaultStyleCycle
  }

  /** `_plot_T_by_day`: draw one month of daily data on the monthly axes, unless its
      label is already there. */
  function PlotTByDay(t: Trace, year: int, month: int): (r: Trace)
    requires Valid(t)
    ensures Valid(r)
    ensures SameData(r, t) && r.hourlyLines == t.hourlyLines
    ensures MonthLabel(t.name, year, month) in t.dailyArtists ==> r == t
    ensures MonthLabel(t.name, year, month) !in t.dailyArtists ==>
      var lbl := MonthLabel(t.name, year, month);
      && r.dailyArtists.Keys == t.dailyArtists.Keys + {lbl}
      && r.dailyIndex.Keys == t.dailyIndex.Keys + {lbl}
      && r.dailyIndex[lbl] == ExtractMonthOfDaily(t.byDay, year, month)
      && r.dailyArtists[lbl].style == NextStyle(t)
      && t.tokens <= r.dailyArtists[lbl].line < r.tokens
      && r.drawn == t.drawn + 1
    ensures forall l :: l in t.dailyArtists ==> r.dailyArtists[l] == t.dailyArtists[l]
    ensures forall l :: l in t.dailyIndex ==> r.dailyIndex[l] == t.dailyIndex[l]
  {
    var df := ExtractMonthOfDaily(t.byDay, year, month);
    var lbl := MonthLabel(t.name, year, month);
    if lbl in t.dailyArtists then t
    else
      ExtractMonthIndexOk(t.byDay, year, month);
      var eb := Errorbar(t.tokens, t.tokens + 1, NextStyle(t));
      t.(drawn := t.drawn + 1, tokens := t.tokens + 2,
         dailyArtists := t.dailyArtists[lbl := eb],
         dailyIndex := t.dailyIndex[lbl := df])
  }

  /** `_plot_T_by_hour`: draw one day of hourly data on the daily axes. There is no
      de-duplication: every call adds a line and takes the next style. */
  function PlotTByHour(t: Trace, year: int, month: int, day: int): (r: Trace)
    requires Valid(t)
    requires IsValid(Date(year, month, day))
    ensures Valid(r)
    ensures SameData(r, t) && r.dailyArtists == t.dailyArtists && r.dailyIndex == t.dailyIndex
    ensures |r.hourlyLines| == |t.hourlyLines| + 1 && t.hourlyLines <= r.hourlyLines
    ensures r.hourlyLines[|t.hourlyLines|].legend == DayLabel(t.name, year, month, day)
    ensures r.hourlyLines[|t.hourlyLines|].points == ExtractDayOfHourly(t.hourly, year, month, day)
    ensures r.hourlyLines[|t.hourlyLines|].style == NextStyle(t)
    ensures t.tokens <= r.hourlyLines[|t.hourlyLines|].line < r.tokens
    ensures r.drawn == t.drawn + 1
  {
    var df := ExtractDayOfHourly(t.hourly, year, month, day);
    var lbl := DayLabel(t.name, year, month, day);
    var ln := HourlyLine(t.tokens, lbl, df, NextStyle(t));
    t.(drawn := t.drawn + 1, tokens := t.tokens + 1, hourlyLines := t.hourlyLines + [ln])
  }

  /** The event picked this trace's yearly error bar on the yearly axes. */
  predicate PicksYearlyArt(t: Trace, ev: PickEvent)
  {
    ev.inaxes == YearlyAxes && t.yearlyArt.Some? && ev.artist == t.yearlyArt.value.line
  }

  /** Points picked on the yearly error bar index rows of the monthly table. */
  predicate YearlyIndicesOk(t: Trace, ev: PickEvent)
  {
    PicksYearlyArt(t, ev) ==> forall k :: 0 <= k < |ev.ind| ==> ev.ind[k] < |t.byMonth|
  }

  /** The labels of a sequence of months. */
  function LabelsOf(name: string, months: seq<Date>): set<string>
  {
    set k | 0 <= k < |months| :: MonthLabel(name, months[k].year, months[k].month)
  }

  lemma LabelsOfCons(name: string, months: seq<Date>)
    requires |months| > 0
    ensures LabelsOf(name, months) == {MonthLabel(name, months[0].year, months[0].month)} + LabelsOf(name, months[1..])
  {
    forall l | l in LabelsOf(name, months)
      ensures l in {MonthLabel(name, months[0].year, months[0].month)} + LabelsOf(name, months[1..])
    {
      var k :| 0 <= k < |months| && l == MonthLabel(name, months[k].year, months[k].month);
      if k > 0 { assert months[1..][k - 1] == months[k]; }
    }
    forall l | l in LabelsOf(name, months[1..]) ensures l in LabelsOf(name, months) {
      var k :| 0 <= k < |months[1..]| && l == MonthLabel(name, months[1..][k].year, months[1..][k].month);
      assert months[1..][k] == months[k + 1];
    }
  }

  /** The loop of `_yearly_on_pick`: plot each picked month in turn. */
  function PlotMonths(t: Trace, months: seq<Date>): (r: Trace)
    requires Valid(t)
    ensures Valid(r)
    ensures SameData(r, t) && r.hourlyLines == t.hourlyLines
    ensures r.dailyArtists.Keys == t.dailyArtists.Keys + LabelsOf(t.name, months)
    ensures forall l :: l in t.dailyArtists ==> r.dailyArtists[l] == t.dailyArtists[l]
    ensures forall l :: l in t.dailyIndex ==> r.dailyIndex[l] == t.dailyIndex[l]
    ensures forall k :: 0 <= k < |months| ==> MonthLabel(t.name, months[k].year, months[k].month) in r.dailyIndex
    ensures forall k :: 0 <= k < |months| && MonthLabel(t.name, months[k].year, months[k].month) !in t.dailyIndex ==>
      r.dailyIndex[MonthLabel(t.name, months[k].year, months[k].month)]
        == ExtractMonthOfDaily(t.byDay, months[k].year, months[k].month)
    decreases |months|
  {
    if |months| == 0 then t
    else
      var t' := PlotTByDay(t, months[0].year, months[0].month);
      var r := PlotMonths(t', months[1..]);
      PlotMonthsFrame(t, t', r, months);
      PlotMonthsNewIndex(t, t', r, months);
      r
  }

  lemma PlotMonthsFrame(t: Trace, t': Trace, r: Trace, months: seq<Date>)
    requires Valid(t) && |months| > 0
    requires t' == PlotTByDay(t, months[0].year, months[0].month)
    requires r.dailyArtists.Keys == t'.dailyArtists.Keys + LabelsOf(t.name, months[1..])
    requires forall l :: l in t'.dailyArtists ==> r.dailyArtists[l] == t'.dailyArtists[l]
    requires forall l :: l in t'.dailyIndex ==> l in r.dailyIndex && r.dailyIndex[l] == t'.dailyIndex[l]
    ensures r.dailyArtists.Keys == t.dailyArtists.Keys + LabelsOf(t.name, months)
    ensures forall l :: l in t.dailyArtists ==> r.dailyArtists[l] == t.dailyArtists[l]
    ensures forall l :: l in t.dailyIndex ==> l in r.dailyIndex && r.dailyIndex[l] == t.dailyIndex[l]
  {
    LabelsOfCons(t.name, months);
  }

  lemma PlotMonthsNewIndex(t: Trace, t': Trace, r: Trace, months: seq<Date>)
    requires Valid(t) && |months| > 0
    requires t' == PlotTByDay(t, months[0].year, months[0].month)
    requires t'.name == t.name && t'.byDay == t.byDay
    requires forall l :: l in t'.dailyIndex ==> l in r.dailyIndex && r.dailyIndex[l] == t'.dailyIndex[l]
    requires forall k :: 0 <= k < |months[1..]| ==> MonthLabel(t.name, months[1..][k].year, months[1..][k].month) in r.dailyIndex
    requires forall k :: 0 <= k < |months[1..]| && MonthLabel(t.name, months[1..][k].year, months[1..][k].month) !in t'.dailyIndex ==>
      r.dailyIndex[MonthLabel(t.name, months[1..][k].year, months[1..][k].month)]
        == ExtractMonthOfDaily(t.byDay, months[1..][k].year, months[1..][k].month)
    ensures forall k :: 0 <= k < |months| ==> MonthLabel(t.name, months[k].year, months[k].month) in r.dailyIndex
    ensures forall k :: 0 <= k < |months| && MonthLabel(t.name, months[k].year, months[k].month) !in t.dailyIndex ==>
      r.dailyIndex[MonthLabel(t.name, months[k].year, months[k].month)]
        == ExtractMonthOfDaily(t.byDay, months[k].year, months[k].month)
  {
    forall k | 0 <= k < |months| ensures MonthLabel(t.name, months[k].year, months[k].month) in r.dailyIndex {
      if k > 0 { assert months[1..][k - 1] == months[k]; }
    }
    var l0 := MonthLabel(t.name, months[0].year, months[0].month);
    forall k | 0 <= k < |months| && MonthLabel(t.name, months[k].year, months[k].month) !in t.dailyIndex
      ensures MonthLabel(t.name, months[k].year, months[k].month) in r.dailyIndex
      ensures r.dailyIndex[MonthLabel(t.name, months[k].year, months[k].month)]
        == ExtractMonthOfDaily(t.byDay, months[k].year, months[k].month)
    {
      var lk := MonthLabel(t.name, months[k].year, months[k].month);
      if lk == l0 {
        MonthLabelInjective(t.name, months[k].year, months[k].month, months[0].year, months[0].month);
      } else {
        assert months[1..][k - 1] == months[k];
      }
    }
  }

  /** The rows of the monthly table at the picked positions (`data_by_month.iloc[i]`). */
  function PickedMonths(t: Trace, ind: seq<nat>): (ms: seq<Date>)
    requires forall k :: 0 <= k < |ind| ==> ind[k] < |t.byMonth|
    ensures |ms| == |ind|
    ensures forall k :: 0 <= k < |ind| ==> ms[k] == t.byMonth[ind[k]]
  {
    seq(|ind|, k requires 0 <= k < |ind| => t.byMonth[ind[k]])
  }

  /** `_yearly_on_pick`: ignore events from other axes or on other artists; otherwise plot
      the month of every picked point. */
  function YearlyOnPick(t: Trace, ev: PickEvent): (r: Trace)
    requires Valid(t)
    requires YearlyIndicesOk(t, ev)
    ensures Valid(r)
    ensures SameData(r, t) && r.hourlyLines == t.hourlyLines
    ensures !PicksYearlyArt(t, ev) ==> r == t
    ensures PicksYearlyArt(t, ev) ==>
      r.dailyArtists.Keys == t.dailyArtists.Keys
        + LabelsOf(t.name, PickedMonths(t, ev.ind))
    ensures PicksYearlyArt(t, ev) ==> forall k :: 0 <= k < |ev.ind| ==>
      var m := t.byMonth[ev.ind[k]];
      MonthLabel(t.name, m.year, m.month) !in t.dailyIndex ==>
        r.dailyIndex[MonthLabel(t.name, m.year, m.month)] == ExtractMonthOfDaily(t.byDay, m.year, m.month)
    ensures forall l :: l in t.dailyArtists ==> r.dailyArtists[l] == t.dailyArtists[l]
    ensures forall l :: l in t.dailyIndex ==> r.dailyIndex[l] == t.dailyIndex[l]
  {
    if ev.inaxes != YearlyAxes then t
    else if t.yearlyArt.None? || ev.artist != t.yearlyArt.value.line then t
    else
      PlotMonths(t, PickedMonths(t, ev.ind))
  }

  /** The shift-click branch of `_monthly_on_pick`: drop a label from both maps
      (`dict.pop` with a default, so an absent or missing label changes nothing). */
  function RemoveLabel(t: Trace, gid: Option<string>): (r: Trace)
    requires Valid(t)
    ensures Valid(r)
    ensures SameData(r, t) && r.hourlyLines == t.hourlyLines && r.drawn == t.drawn && r.tokens == t.tokens
    ensures gid.Some? ==> gid.value !in r.dailyArtists && gid.value !in r.dailyIndex
    ensures gid.Some? ==> r.dailyArtists.Keys == t.dailyArtists.Keys - {gid.value}
    ensures gid.None? || gid.value !in t.dailyArtists ==> r == t
    ensures forall l :: l in r.dailyArtists ==> l in t.dailyArtists && r.dailyArtists[l] == t.dailyArtists[l]
    ensures forall l :: l in t.dailyIndex && Some(l) != gid ==> l in r.dailyIndex && r.dailyIndex[l] == t.dailyIndex[l]
  {
    match gid
    case None => t
    case Some(lbl) =>
      if lbl !in t.dailyArtists then t
      else t.(dailyIndex := t.dailyIndex - {lbl}, dailyArtists := t.dailyArtists - {lbl})
  }

  /** `self.daily_index[label][i]`: a pandas label lookup, so `i` is matched against the
      stored day offsets, not used as a position. */
  function LookupOffset(entries: seq<IndexedDate>, i: int): (r: Option<Date>)
    ensures r.Some? <==> exists k :: 0 <= k < |entries| && entries[k].offset == i
    ensures r.Some? ==> exists k :: 0 <= k < |entries| && entries[k].offset == i && entries[k].date == r.value
    decreases |entries|
  {
    if |entries| == 0 then None
    else if entries[0].offset == i then Some(entries[0].date)
    else
      var r := LookupOffset(entries[1..], i);
      assert forall k :: 1 <= k < |entries| ==> entries[1..][k - 1] == entries[k];
      r
  }

  /** The lookup a pick index calls for: `ind` holds positions of the picked points in the
      drawn line, so point `i` is the `i`-th stored day (`iloc`), and a position past the
      end fails. */
  function LookupPosition(entries: seq<IndexedDate>, i: int): (r: Option<Date>)
    ensures r.Some? <==> 0 <= i < |entries|
    ensures r.Some? ==> r.value == entries[i].date
  {
    if 0 <= i < |entries| then Some(entries[i].date) else None
  }

  /** By position, point `i` of a drawn month is the `i`-th day of that month in the daily
      table, whatever days are missing. */
  lemma PositionalLookupFindsPickedDay(daily: seq<Date>, year: int, month: int, i: nat)
    requires DayIndexOk(daily)
    ensures var kept := Filter(daily, MonthSelector(year, month));
      LookupPosition(ExtractMonthOfDaily(daily, year, month), i)
        == if i < |kept| then Some(kept[i]) else None
  {
    var e := ExtractMonthOfDaily(daily, year, month);
    assert |DatesOf(e)| == |e|;
    if i < |e| {
      assert DatesOf(e)[i] == e[i].date;
    }
  }

  /** On the month holding only the 1st and the 3rd, the positional lookup of point 1 finds
      the 3rd, where the offset lookup finds nothing. */
  lemma PositionalLookupAfterGap()
    ensures var e := ExtractMonthOfDaily([Date(2021, 1, 1), Date(2021, 1, 3)], 2021, 1);
      LookupPosition(e, 1) == Some(Date(2021, 1, 3)) && LookupOffset(e, 1) == None
  {
    LookupMissesAfterGap();
  }

  /** The `try` block of `_monthly_on_pick`; `None` is the KeyError it catches. */
  function LookupDate(t: Trace, gid: Option<string>, i: int): Option<Date>
  {
    if gid.None? || gid.value !in t.dailyIndex then None else LookupOffset(t.dailyIndex[gid.value], i)
  }

  /** The dates the picked points resolve to, in pick order, skipping failed lookups. */
  function FoundDates(t: Trace, gid: Option<string>, ind: seq<nat>): seq<Date>
    decreases |ind|
  {
    if |ind| == 0 then []
    else
      match LookupDate(t, gid, ind[0])
      case None => FoundDates(t, gid, ind[1..])
      case Some(d) => [d] + FoundDates(t, gid, ind[1..])
  }

  lemma FoundDatesValid(t: Trace, gid: Option<string>, ind: seq<nat>)
    requires Valid(t)
    ensures forall k :: 0 <= k < |FoundDates(t, gid, ind)| ==> IsValid(FoundDates(t, gid, ind)[k])
    decreases |ind|
  {
    if |ind| > 0 {
      FoundDatesValid(t, gid, ind[1..]);
    }
  }

  /** Lookups read only the labels and the stored index. */
  lemma FoundDatesFrame(t: Trace, t': Trace, gid: Option<string>, ind: seq<nat>)
    requires t'.dailyIndex == t.dailyIndex
    ensures FoundDates(t', gid, ind) == FoundDates(t, gid, ind)
    decreases |ind|
  {
    if |ind| > 0 {
      FoundDatesFrame(t, t', gid, ind[1..]);
    }
  }

  /** `lines` are the hourly lines drawn for the days `ds`, one per day, in order. */
  ghost predicate DrawsDays(lines: seq<HourlyLine>, name: string, hourly: seq<HourRow>, ds: seq<Date>)
  {
    && |lines| == |ds|
    && forall k :: 0 <= k < |ds| ==>
      && IsValid(ds[k])
      && lines[k].legend == DayLabel(name, ds[k].year, ds[k].month, ds[k].day)
      && lines[k].points == ExtractDayOfHourly(hourly, ds[k].year, ds[k].month, ds[k].day)
  }

  lemma DrawsDaysCons(line: HourlyLine, lines: seq<HourlyLine>, name: string, hourly: seq<HourRow>, d: Date, ds: seq<Date>)
    requires IsValid(d)
    requires line.legend == DayLabel(name, d.year, d.month, d.day)
    requires line.points == ExtractDayOfHourly(hourly, d.year, d.month, d.day)
    requires DrawsDays(lines, name, hourly, ds)
    ensures DrawsDays([line] + lines, name, hourly, [d] + ds)
  {
    var ls := [line] + lines;
    var dd := [d] + ds;
    forall k | 0 <= k < |dd|
      ensures IsValid(dd[k])
      ensures ls[k].legend == DayLabel(name, dd[k].year, dd[k].month, dd[k].day)
      ensures ls[k].points == ExtractDayOfHourly(hourly, dd[k].year, dd[k].month, dd[k].day)
    {
      if k > 0 {
        assert ls[k] == lines[k - 1] && dd[k] == ds[k - 1];
      }
    }
  }

  /** The plain-click loop of `_monthly_on_pick`: for each picked point whose date is found,
      draw that day's hourly data; a failed lookup draws nothing. */
  function PlotPickedDays(t: Trace, gid: Option<string>, ind: seq<nat>): (r: Trace)
    requires Valid(t)
    ensures Valid(r)
    ensures SameData(r, t) && r.dailyArtists == t.dailyArtists && r.dailyIndex == t.dailyIndex
    ensures t.hourlyLines <= r.hourlyLines
    ensures DrawsDays(r.hourlyLines[|t.hourlyLines|..], t.name, t.hourly, FoundDates(t, gid, ind))
    decreases |ind|
  {
    if |ind| == 0 then t
    else
      match LookupDate(t, gid, ind[0])
      case None => PlotPickedDays(t, gid, ind[1..])
      case Some(d) =>
        FoundDatesValid(t, gid, ind);
        assert IsValid(FoundDates(t, gid, ind)[0]);
        var t' := PlotTByHour(t, d.year, d.month, d.day);
        FoundDatesFrame(t, t', gid, ind[1..]);
        var r := PlotPickedDays(t', gid, ind[1..]);
        PlotPickedDaysStep(t, t', r, d, FoundDates(t, gid, ind[1..]));
        r
  }

  lemma PlotPickedDaysStep(t: Trace, t': Trace, r: Trace, d: Date, ds: seq<Date>)
    requires IsValid(d)
    requires |t'.hourlyLines| == |t.hourlyLines| + 1 && t.hourlyLines <= t'.hourlyLines
    requires t'.hourlyLines[|t.hourlyLines|].legend == DayLabel(t.name, d.year, d.month, d.day)
    requires t'.hourlyLines[|t.hourlyLines|].points == ExtractDayOfHourly(t.hourly, d.year, d.month, d.day)
    requires t'.hourlyLines <= r.hourlyLines
    requires t'.name == t.name && t'.hourly == t.hourly
    requires DrawsDays(r.hourlyLines[|t'.hourlyLines|..], t'.name, t'.hourly, ds)
    ensures t.hourlyLines <= r.hourlyLines
    ensures DrawsDays(r.hourlyLines[|t.hourlyLines|..], t.name, t.hourly, [d] + ds)
  {
    var n := |t.hourlyLines|;
    assert r.hourlyLines[n..] == [t'.hourlyLines[n]] + r.hourlyLines[n + 1..];
    DrawsDaysCons(t'.hourlyLines[n], r.hourlyLines[n + 1..], t.name, t.hourly, d, ds);
  }

  /** A plain pick whose every point misses (no such label, or no such offset under it)
      leaves the whole state unchanged, the style cycle included. */
  lemma {:induction false} MissedPicksChangeNothing(t: Trace, gid: Option<string>, ind: seq<nat>)
    requires Valid(t)
    requires forall k :: 0 <= k < |ind| ==> LookupDate(t, gid, ind[k]).None?
    ensures PlotPickedDays(t, gid, ind) == t
    decreases |ind|
  {
    if |ind| > 0 {
      assert LookupDate(t, gid, ind[0]).None?;
      assert forall k :: 0 <= k < |ind[1..]| ==> ind[1..][k] == ind[k + 1];
      MissedPicksChangeNothing(t, gid, ind[1..]);
    }
  }

  /** A single plain pick that resolves to date `d` draws exactly one line: that day's
      hourly data under its day label, in the next style. */
  lemma SinglePickDrawsItsDay(t: Trace, gid: Option<string>, i: nat, d: Date)
    requires Valid(t)
    requires LookupDate(t, gid, i) == Some(d)
    ensures var r := PlotPickedDays(t, gid, [i]);
      && IsValid(d)
      && r.hourlyLines == t.hourlyLines + [r.hourlyLines[|t.hourlyLines|]]
      && r.hourlyLines[|t.hourlyLines|].legend == DayLabel(t.name, d.year, d.month, d.day)
      && r.hourlyLines[|t.hourlyLines|].points == ExtractDayOfHourly(t.hourly, d.year, d.month, d.day)
      && r.hourlyLines[|t.hourlyLines|].style == NextStyle(t)
  {
    FoundDatesValid(t, gid, [i]);
    assert FoundDates(t, gid, [i]) == [d];
    var t' := PlotTByHour(t, d.year, d.month, d.day);
    assert [i][1..] == [];
    assert PlotPickedDays(t, gid, [i]) == PlotPickedDays(t', gid, []);
  }

  /** `_monthly_on_pick`: ignore other axes; shift-click removes the picked label;
      any other click draws the hourly data of the picked days. */
  function MonthlyOnPick(t: Trace, ev: PickEvent): (r: Trace)
    requires Valid(t)
    ensures Valid(r)
    ensures SameData(r, t)
    ensures ev.inaxes != MonthlyAxes ==> r == t
    ensures ev.inaxes == MonthlyAxes && ev.key == Some("shift") ==> r == RemoveLabel(t, ev.gid)
    ensures ev.inaxes == MonthlyAxes && ev.key != Some("shift") ==> r == PlotPickedDays(t, ev.gid, ev.ind)
  {
    if ev.inaxes != MonthlyAxes then t
    else if ev.key == Some("shift") then RemoveLabel(t, ev.gid)
    else PlotPickedDays(t, ev.gid, ev.ind)
  }

  /** Some hourly line is the artist `tok`. */
  ghost predicate HasLine(lines: seq<HourlyLine>, tok: Token)
  {
    exists k :: 0 <= k < |lines| && lines[k].line == tok
  }

  /** `_daily_on_pick`: on the daily axes, remove the picked line; nothing else changes.
      Lines are distinct artists, so at most one line goes. */
  function DailyOnPick(t: Trace, ev: PickEvent): (r: Trace)
    requires Valid(t)
    ensures Valid(r)
    ensures SameData(r, t) && r.dailyArtists == t.dailyArtists && r.dailyIndex == t.dailyIndex
    ensures r.tokens == t.tokens && r.drawn == t.drawn
    ensures ev.inaxes != DailyAxes ==> r == t
    ensures ev.inaxes == DailyAxes ==>
      && (forall x :: x in r.hourlyLines <==> x in t.hourlyLines && x.line != ev.artist)
      && IsSubsequence(r.hourlyLines, t.hourlyLines)
      && |r.hourlyLines| == Count(t.hourlyLines, OtherLine(ev.artist))
      && |r.hourlyLines| == |t.hourlyLines| - (if HasLine(t.hourlyLines, ev.artist) then 1 else 0)
  {
    if ev.inaxes != DailyAxes then t
    else
      var kept := Filter(t.hourlyLines, OtherLine(ev.artist));
      KeptLines(t.hourlyLines, ev.artist);
      FilterKeepsDistinct(t.hourlyLines, OtherLine(ev.artist));
      CountOthers(t.hourlyLines, ev.artist);
      assert forall k :: 0 <= k < |kept| ==> kept[k].line < t.tokens by {
        forall k | 0 <= k < |kept| ensures kept[k].line < t.tokens {
          assert kept[k] in kept;
          var j :| 0 <= j < |t.hourlyLines| && t.hourlyLines[j] == kept[k];
        }
      }
      t.(hourlyLines := kept)
  }

  /** Dropping lines keeps the remaining artists distinct. */
  lemma {:induction false} FilterKeepsDistinct(lines: seq<HourlyLine>, p: HourlyLine -> bool)
    requires DistinctLines(lines)
    ensures DistinctLines(Filter(lines, p))
    decreases |lines|
  {
    if |lines| > 0 {
      var rest := lines[1..];
      assert DistinctLines(rest) by {
        forall i, j | 0 <= i < j < |rest| ensures rest[i].line != rest[j].line {
          assert rest[i] == lines[i + 1] && rest[j] == lines[j + 1];
        }
      }
      FilterKeepsDistinct(rest, p);
      if p(lines[0]) {
        var f := Filter(rest, p);
        forall k | 0 <= k < |f| ensures f[k].line != lines[0].line {
          FilterMembership(rest, p, f[k]);
          assert f[k] in rest;
          var j :| 0 <= j < |rest| && rest[j] == f[k];
          assert rest[j] == lines[j + 1];
        }
        var r := [lines[0]] + f;
        assert Filter(lines, p) == r;
        forall i, j | 0 <= i < j < |r| ensures r[i].line != r[j].line {
          if i == 0 {
            assert r[j] == f[j - 1];
          } else {
            assert r[i] == f[i - 1] && r[j] == f[j - 1];
          }
        }
      }
    }
  }

  /** Among distinct artists, removing `tok` removes one line if it is there and none otherwise. */
  lemma {:induction false} CountOthers(lines: seq<HourlyLine>, tok: Token)
    requires DistinctLines(lines)
    ensures Count(lines, OtherLine(tok)) == |lines| - (if HasLine(lines, tok) then 1 else 0)
    decreases |lines|
  {
    if |lines| > 0 {
      var rest := lines[1..];
      assert DistinctLines(rest) by {
        forall i, j | 0 <= i < j < |rest| ensures rest[i].line != rest[j].line {
          assert rest[i] == lines[i + 1] && rest[j] == lines[j + 1];
        }
      }
      CountOthers(rest, tok);
      if lines[0].line == tok {
        assert HasLine(lines, tok);
        assert !HasLine(rest, tok);
      } else {
        if HasLine(rest, tok) {
          var k :| 0 <= k < |rest| && rest[k].line == tok;
          assert lines[k + 1] == rest[k];
        }
        if HasLine(lines, tok) {
          var k :| 0 <= k < |lines| && lines[k].line == tok;
          assert k > 0 && rest[k - 1] == lines[k];
        }
      }
    }
  }

  function OtherLine(tok: Token): HourlyLine -> bool
  {
    (x: HourlyLine) => x.line != tok
  }

  lemma KeptLines(lines: seq<HourlyLine>, tok: Token)
    ensures forall x :: x in Filter(lines, OtherLine(tok)) <==> x in lines && x.line != tok
    ensures IsSubsequence(Filter(lines, OtherLine(tok)), lines)
    ensures |Filter(lines, OtherLine(tok))| == Count(lines, OtherLine(tok))
  {
    FilterLength(lines, OtherLine(tok));
    forall x ensures x in Filter(lines, OtherLine(tok)) <==> x in lines && OtherLine(tok)(x) {
      FilterMembership(lines, OtherLine(tok), x);
    }
    FilterIsSubsequence(lines, OtherLine(tok));
  }

  /** A pick event goes to the three callbacks in the order they were connected. */
  function OnPick(t: Trace, ev: PickEvent): (r: Trace)
    requires Valid(t)
    requires YearlyIndicesOk(t, ev)
    ensures Valid(r)
    ensures SameData(r, t)
  {
    DailyOnPick(MonthlyOnPick(YearlyOnPick(t, ev), ev), ev)
  }

  /** Each event reaches at most one handler: the one for the axes it happened in. */
  lemma OnPickDispatch(t: Trace, ev: PickEvent)
    requires Valid(t)
    requires YearlyIndicesOk(t, ev)
    ensures ev.inaxes == YearlyAxes ==> OnPick(t, ev) == YearlyOnPick(t, ev)
    ensures ev.inaxes == MonthlyAxes ==> OnPick(t, ev) == MonthlyOnPick(t, ev)
    ensures ev.inaxes == DailyAxes ==> OnPick(t, ev) == DailyOnPick(t, ev)
    ensures ev.inaxes == OtherAxes ==> OnPick(t, ev) == t
  {
  }

  /** Plotting a month twice is plotting it once. */
  lemma PlotTByDayIdempotent(t: Trace, year: int, month: int)
    requires Valid(t)
    ensures PlotTByDay(PlotTByDay(t, year, month), year, month) == PlotTByDay(t, year, month)
  {
  }

  /** Two different months get two different entries: labels tell months apart. */
  lemma PlotTwoMonths(t: Trace, y1: int, m1: int, y2: int, m2: int)
    requires Valid(t)
    requires MonthLabel(t.name, y1, m1) !in t.dailyArtists && MonthLabel(t.name, y2, m2) !in t.dailyArtists
    requires (y1, m1) != (y2, m2)
    ensures |PlotTByDay(PlotTByDay(t, y1, m1), y2, m2).dailyArtists| == |t.dailyArtists| + 2
  {
    var l1 := MonthLabel(t.name, y1, m1);
    var l2 := MonthLabel(t.name, y2, m2);
    if l1 == l2 {
      MonthLabelInjective(t.name, y1, m1, y2, m2);
    }
    var r := PlotTByDay(PlotTByDay(t, y1, m1), y2, m2);
    assert r.dailyArtists.Keys == t.dailyArtists.Keys + {l1} + {l2};
    assert |r.dailyArtists.Keys| == |t.dailyArtists.Keys| + 2;
  }

  /** Shift-clicking the month just plotted removes it again: both maps are as before. */
  lemma RemoveUndoesPlot(t: Trace, year: int, month: int, ev: PickEvent)
    requires Valid(t)
    requires MonthLabel(t.name, year, month) !in t.dailyArtists
    requires ev.inaxes == MonthlyAxes && ev.key == Some("shift") && ev.gid == Some(MonthLabel(t.name, year, month))
    ensures MonthlyOnPick(PlotTByDay(t, year, month), ev).dailyArtists == t.dailyArtists
    ensures MonthlyOnPick(PlotTByDay(t, year, month), ev).dailyIndex == t.dailyIndex
  {
    var lbl := MonthLabel(t.name, year, month);
    var r := MonthlyOnPick(PlotTByDay(t, year, month), ev);
    assert lbl !in t.dailyIndex;
    assert r.dailyArtists.Keys == t.dailyArtists.Keys;
    assert r.dailyIndex.Keys == t.dailyIndex.Keys;
  }

  /** The days of the month follow one another with no day missing. */
  ghost predicate Consecutive(entries: seq<IndexedDate>)
  {
    forall k :: 0 <= k < |entries| ==> entries[k].date.day == entries[0].date.day + k
  }

  /** Without missing days the offset lookup is the positional lookup the pick index
      means: point `i` resolves to the `i`-th day, and indices past the end fail. */
  lemma LookupIsPositionalWithoutGaps(daily: seq<Date>, year: int, month: int, i: nat)
    requires DayIndexOk(daily)
    requires Consecutive(ExtractMonthOfDaily(daily, year, month))
    ensures var e := ExtractMonthOfDaily(daily, year, month);
      LookupOffset(e, i) == if i < |e| then Some(e[i].date) else None
  {
    var e := ExtractMonthOfDaily(daily, year, month);
    ExtractMonthIndexOk(daily, year, month);
    assert forall k :: 0 <= k < |e| ==> e[k].offset == k;
    var r := LookupOffset(e, i);
    if r.Some? {
      var k :| 0 <= k < |e| && e[k].offset == i && e[k].date == r.value;
    }
  }

  /** With a missing day the two lookups part: the second point of a month holding
      only the 1st and the 3rd is the 3rd, but looking up 1 finds nothing. */
  lemma LookupMissesAfterGap()
    ensures var e := ExtractMonthOfDaily([Date(2021, 1, 1), Date(2021, 1, 3)], 2021, 1);
      |e| == 2 && e[1].date == Date(2021, 1, 3) && LookupOffset(e, 1) == None
  {
    var daily := [Date(2021, 1, 1), Date(2021, 1, 3)];
    var e := ExtractMonthOfDaily(daily, 2021, 1);
    assert Filter(daily, MonthSelector(2021, 1)) == daily;
    assert DatesOf(e) == daily;
    assert e[0].offset == 0 && e[1].offset == 2;
  }
}
