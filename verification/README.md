# Temperature traces and the XRF map explorer, modelled in Dafny

This project models the discrete logic of two interactive plotting helpers.

**`AggregatedTimeTrace`** (`code/temperture/temperature_utils.py`) shows one
temperature data set at three scales. The yearly axes show monthly
aggregates. Picking a month draws that month's daily aggregates on the
monthly axes under the label `"<name>: YYYY-MM"`. Picking a day there draws
its hourly data on the daily axes under `"<name>: YYYY-MM-DD"`. A shift-pick
on the monthly axes removes a month, and picking an hourly line removes it.
The object keeps two label-keyed maps, `daily_artists` and `daily_index`,
and one style cycle shared by everything it draws. The model is a state
machine over an immutable `Trace` record. Artists are opaque tokens drawn
from a counter. Dates are `(year, month, day)` triples with the proleptic
Gregorian calendar of Python's `datetime`. The module-level helpers
`aggregate_by_month`, `aggregate_by_day`, `extract_month_of_daily` and
`extract_day_of_hourly` are modelled on their keys and indices.

**`XRFInteract`** (`code/xrf/xrf_interact.py`) shows a map of X-ray
fluorescence counts with a red overlay for the selected region, plus the
spectrum of that region. Clicking the map resets the selection, starts a
lasso or picks one pixel. Dragging a span over the spectrum re-images the
map over those energy bins. The model is an immutable `Explorer` record
holding the counts cube, the mask and its RGBA overlay, the image and its
colour limits, and the two text annotations.

Files:

- `options.dfy`: the `Option` type.
- `seqs.dfy`: order-preserving filtering, subsequences and counting.
- `format.dfy`: Python's `str(n)` and `"{:0Nd}"` integer formatting, and parsing it back.
- `dates.dfy`: calendar validity and `date.toordinal`.
- `labels.dfy`: the month and day labels and their parsers.
- `aggregate.dfy`: the aggregation indices and the two extract helpers.
- `time_trace.dfy`: the `AggregatedTimeTrace` state machine.
- `xrf_overlay.dfy`: the mask overlay image.
- `xrf_explorer.dfy`: the `XRFInteract` state machine.

## Model

| member | source | states |
|---|---|---|
| Format.FormatIntWidth | code/temperture/temperature_utils.py:173 | zero-padded formatting never truncates: the text is at least the field width, and exactly the width when a non-negative value fits |
| Format.FormatFits | code/temperture/temperature_utils.py:173 | a value below 10^width is written as exactly `width` digits, and they read back as the value |
| Format.ParseFormatInt | code/temperture/temperature_utils.py:173 | formatted integer text, with or without padding and sign, parses back to the same integer |
| Labels.MonthLabel | code/temperture/temperature_utils.py:173 | the month label starts with `"<name>: "` and is 9 characters longer than the name for years 0..9999 |
| Labels.DayLabel | code/temperture/temperature_utils.py:198 | the day label extends the month label with a dash and is 12 characters longer than the name in range |
| Labels.MonthLabelLayout | code/temperture/temperature_utils.py:173 | the month label is the name, `": "`, the year in exactly four digits, `-`, and the month in exactly two digits |
| Labels.DayLabelLayout | code/temperture/temperature_utils.py:198 | the day label is the month label, `-`, and the day in exactly two digits |
| Labels.MonthLabelRoundTrip | code/temperture/temperature_utils.py:173 | parsing a month label gives back its year and month |
| Labels.DayLabelRoundTrip | code/temperture/temperature_utils.py:198 | parsing a day label gives back its year, month and day |
| Labels.MonthLabelInjective | code/temperture/temperature_utils.py:173-176 | for one data set, equal month labels mean equal months, so de-duplicating by label is de-duplicating by month |
| Labels.DayLabelInjective | code/temperture/temperature_utils.py:198 | for one data set, equal day labels mean equal days |
| Dates.DaysInMonth | code/temperture/temperature_utils.py:240 | month lengths are 28 to 31 days, and February has 29 exactly in leap years |
| Dates.OrdinalSameMonth | code/temperture/temperature_utils.py:290 | within one month, the difference of two dates in days is the difference of their day numbers |
| Dates.OrdinalMonotone | code/temperture/temperature_utils.py:290 | for valid dates, an earlier date has a smaller ordinal |
| Aggregate.AggregateByMonth | code/temperture/temperature_utils.py:239-242 | the index has one date per (year, month) group, sorted and without repeats, each on day 15; it fails exactly when some group is not a calendar month |
| Aggregate.AggregateByDay | code/temperture/temperature_utils.py:264-267 | the index has one date per (year, month, day) group, sorted and without repeats; it fails exactly when some group is not a calendar date |
| Aggregate.ExtractMonthOfDaily | code/temperture/temperature_utils.py:288-293 | the kept dates are the input's dates of that month in input order; each offset is its day distance from the first kept date; offsets increase on a sorted table |
| Aggregate.ExtractMonthKeepsExactly | code/temperture/temperature_utils.py:288-289 | a date is kept if and only if it is in the table and has the year and month asked for; the kept dates are a subsequence of the input with one entry per matching row |
| Aggregate.ExtractMonthFromStart | code/temperture/temperature_utils.py:285-286 | the documented index: the month's days in input order, each at its day number minus one |
| Aggregate.OffsetCountsFromFirstKeptDay | code/temperture/temperature_utils.py:290 | as written, a month whose data begin on the 3rd gives that day offset 0, where the documented index gives 2 |
| Aggregate.FromStartAgreesWhenFirstDayPresent | code/temperture/temperature_utils.py:290 | the as-written and the documented index agree if and only if the month's first kept day is the 1st |
| Aggregate.HoursSinceMidnight | code/temperture/temperature_utils.py:316 | the hour index is always in [0, 24), and equals the elapsed hours for a timestamp within the day |
| Aggregate.ExtractDayOfHourly | code/temperture/temperature_utils.py:309-316 | the kept rows are exactly the input rows of that day in order, each indexed by its hours since that day's midnight |
| Aggregate.ExtractDayKeepsExactly | code/temperture/temperature_utils.py:309-314 | a row is kept if and only if its year, month and day all match; the kept rows are a subsequence of the input with one entry per matching row |
| TimeTrace.Init | code/temperture/temperature_utils.py:54-100 | construction fails exactly when a needed aggregation fails; otherwise both maps are empty, the state is valid, and the yearly error bar takes the first style of the given or default cycle |
| TimeTrace.ExtractMonthIndexOk | code/temperture/temperature_utils.py:288-292 | a month extracted from a sorted daily table stores valid dates under strictly increasing offsets |
| TimeTrace.PlotTByDay | code/temperture/temperature_utils.py:169-192 | an existing label leaves everything unchanged; a new label enters both maps with that month's index and the next style; other entries are untouched |
| TimeTrace.PlotTByDayIdempotent | code/temperture/temperature_utils.py:175-176 | plotting the same month twice is the same as plotting it once |
| TimeTrace.PlotTwoMonths | code/temperture/temperature_utils.py:173-176 | plotting two different new months adds two entries |
| TimeTrace.PlotTByHour | code/temperture/temperature_utils.py:194-213 | each call appends one line with the day label, that day's hourly rows and the next style, without de-duplication; the maps are unchanged |
| TimeTrace.PlotMonths | code/temperture/temperature_utils.py:122-124 | plotting the picked months adds exactly their labels; a label that was new holds that month's daily index; old entries are untouched |
| TimeTrace.YearlyOnPick | code/temperture/temperature_utils.py:113-124 | events from other axes or on another artist change nothing; otherwise the labels of the picked months are added with their daily indices |
| TimeTrace.RemoveLabel | code/temperture/temperature_utils.py:134-146 | the shift branch drops the label from both maps; an absent label changes nothing; every other entry is kept |
| TimeTrace.RemoveUndoesPlot | code/temperture/temperature_utils.py:134-136 | shift-picking a month just plotted restores both maps |
| TimeTrace.LookupOffset | code/temperture/temperature_utils.py:151 | a lookup finds a date if and only if some entry has that offset, and then it returns that entry's date |
| TimeTrace.LookupIsPositionalWithoutGaps | code/temperture/temperature_utils.py:151 | when the month has no missing days, looking up point `i` gives the `i`-th day, and indices past the end fail |
| TimeTrace.LookupMissesAfterGap | code/temperture/temperature_utils.py:151 | with the 2nd of the month missing, looking up point 1 fails although the second point is the 3rd |
| TimeTrace.LookupPosition | code/temperture/temperature_utils.py:148-151 | the intended lookup: point `i` resolves to the `i`-th stored day, and a position past the end fails |
| TimeTrace.PositionalLookupFindsPickedDay | code/temperture/temperature_utils.py:148-151 | by position, point `i` of a drawn month is the `i`-th day of that month in the daily table, whatever days are missing |
| TimeTrace.PositionalLookupAfterGap | code/temperture/temperature_utils.py:151 | on a month holding the 1st and the 3rd, the positional lookup of point 1 finds the 3rd where the offset lookup finds nothing |
| TimeTrace.PlotPickedDays | code/temperture/temperature_utils.py:147-155 | the plain-click loop appends exactly one hourly line per successful lookup, in pick order, for that date's day; the maps are unchanged |
| TimeTrace.MissedPicksChangeNothing | code/temperture/temperature_utils.py:148-155 | when every lookup fails (missing label or offset) the whole state is unchanged |
| TimeTrace.SinglePickDrawsItsDay | code/temperture/temperature_utils.py:151-155 | a single pick that finds a date draws exactly that day's hourly line in the next style |
| TimeTrace.MonthlyOnPick | code/temperture/temperature_utils.py:126-155 | other axes change nothing; shift removes the picked label; any other pick plots the picked days |
| TimeTrace.KeptLines | code/temperture/temperature_utils.py:163 | removing a line's artist keeps exactly the other lines, in order, one entry for each line that stays |
| TimeTrace.CountOthers | code/temperture/temperature_utils.py:163 | since lines are distinct artists, removing one artist removes one line when it is drawn and none otherwise |
| TimeTrace.DailyOnPick | code/temperture/temperature_utils.py:157-167 | other axes change nothing; on the daily axes the picked line and only it goes (the count drops by one exactly when it was drawn), the rest keep their order, and both maps are unchanged |
| TimeTrace.OnPick | code/temperture/temperature_utils.py:102-111 | running the three connected handlers in order keeps the state valid and the data unchanged |
| TimeTrace.OnPickDispatch | code/temperture/temperature_utils.py:102-111 | an event has the effect of its own axes' handler alone, and none on other axes |
| XrfOverlay.OverlayImage | code/xrf/xrf_interact.py:131-138 | the overlay has the mask's height and width with 4 channels; an all-true mask gives all zeros; otherwise red is 255, green and blue are 0, and alpha is 100 where selected and 0 elsewhere |
| XrfOverlay.BlankIffAllSelected | code/xrf/xrf_interact.py:133-135 | the overlay is all zeros if and only if every pixel is selected |
| XrfOverlay.AlphaRecoversMask | code/xrf/xrf_interact.py:136-137 | when not every pixel is selected, the mask can be read back from the alpha channel |
| XrfOverlay.EmptySelectionInvisible | code/xrf/xrf_interact.py:136-137 | an all-false mask gives an overlay whose alpha is zero everywhere |
| XrfExplorer.Init | code/xrf/xrf_interact.py:70-98 | at start every pixel is selected, the overlay is blank, each image pixel is its total count over all bins, and the texts read "ROI: all" and the map average |
| XrfExplorer.ResetSpectrum | code/xrf/xrf_interact.py:157-165 | every pixel is selected again, the overlay is blank, and the caption and spectrum are the map average; the image, limits and ROI text are untouched |
| XrfExplorer.PixelSelect | code/xrf/xrf_interact.py:167-190 | the marker is at the click, the mask is all false, and the caption and spectrum are those of the nearest pixel |
| XrfExplorer.StartLasso | code/xrf/xrf_interact.py:201-204 | a lasso starts at the click and nothing else changes |
| XrfExplorer.LassoDone | code/xrf/xrf_interact.py:206-217 | the mask becomes the lasso's selection, the overlay shows it, and the caption reads "lasso mask" |
| XrfExplorer.OnClick | code/xrf/xrf_interact.py:140-155 | clicks off the "imgmap" axes change nothing; otherwise the marker is cleared, then button 3 resets, else alt starts a lasso, else shift selects a pixel, else nothing more happens |
| XrfExplorer.RightClickResets | code/xrf/xrf_interact.py:147-148 | a right click on the map selects every pixel, whatever the key held |
| XrfExplorer.ShiftClickHighlightsNothing | code/xrf/xrf_interact.py:178-180 | after a shift-click no pixel of the overlay is visible |
| XrfExplorer.Trunc | code/xrf/xrf_interact.py:193 | `int()` truncates toward zero for both signs |
| XrfExplorer.SliceIndex | code/xrf/xrf_interact.py:194 | a slice bound is normalised like Python's: negative counts from the end, out-of-range clamps |
| XrfExplorer.SliceRange | code/xrf/xrf_interact.py:194 | `[start:stop]` selects the half-open bin range between the normalised bounds, and nothing when stop is not past start |
| XrfExplorer.SumConcat | code/xrf/xrf_interact.py:194 | the sum over a concatenation is the sum of the sums |
| XrfExplorer.RowMax | code/xrf/xrf_interact.py:195 | the maximum of a row bounds every value and is attained |
| XrfExplorer.GridMax | code/xrf/xrf_interact.py:195 | the image maximum bounds every pixel and is attained at some pixel |
| XrfExplorer.OnSpan | code/xrf/xrf_interact.py:192-199 | each pixel is the sum over bins `[int(vmin), int(vmax))` after slice normalisation, the limits are 0 and the attained maximum, the ROI text uses the truncated bounds, and the mask, texts and spectrum are untouched |
| XrfExplorer.RoiTextRoundTrip | code/xrf/xrf_interact.py:196 | the ROI text "ROI: <vmin>:<vmax>" reads back as the two truncated bounds |
| XrfExplorer.FullSpanIsTotal | code/xrf/xrf_interact.py:89 | a span over all bins reproduces the start-up image of total counts |
| XrfExplorer.AdjacentSpansAdd | code/xrf/xrf_interact.py:194 | the image of `[a, c)` is the pixelwise sum of the images of `[a, b)` and `[b, c)` |
| XrfExplorer.EmptySpanIsBlank | code/xrf/xrf_interact.py:194-198 | a span selecting no bins gives an all-zero image with limits (0, 0) |

## Left out

- The statistics columns of the aggregated tables (`groupby().describe()`): tables are modelled by their date index only, because the statistics are floating point from pandas.
- Rendering: error bars, fill bands, legends, colour bars, titles, extents, `draw_idle` and the `containers` work-around are not modelled; artists are opaque tokens.
- The `print` calls in `_monthly_on_pick` are output only and are not modelled.
- The unused `hourly_artiists` dictionary is not modelled.
- `AggregatedTimeTrace.remove` is not modelled: it disconnects an attribute `cid` that the object never sets.
- `_plot_T_by_hour` has a stray `)` after the plot call, so the file does not parse as written; the model gives the evidently intended effect of one new line per call.
- Several traces sharing one figure, where each trace's callbacks see every pick event, are not modelled; one trace is modelled on its own.
- TimeTrace.YearlyOnPick: requires the picked indices to be rows of the monthly table; an out-of-range `iloc` would raise, and the plotting library only reports indices of drawn points.
- TimeTrace.PlotTByHour: requires a calendar date, as `datetime.datetime` raises otherwise; its callers pass dates taken from the daily index.
- Aggregate.ExtractDayOfHourly: requires a calendar date for the same reason.
- Aggregate.ExtractMonthOfDaily: requires the daily table to hold calendar dates, which `aggregate_by_day` guarantees.
- TimeTrace.Init: requires a supplied daily table to hold sorted, distinct calendar dates, as `aggregate_by_day` builds it, and a supplied style cycle to be non-empty.
- Aggregate.HoursSinceMidnight: the hour index is an exact real, not a rounded floating-point quotient of `.seconds / 3600`.
- XrfExplorer.Trunc: the span bounds are exact reals; `int()` raising on NaN or infinity is not modelled.
- TimeTrace.DailyOnPick: only hourly lines are modelled as pickable artists on the daily axes.
- Loading data (`load_data`, `show_xrf`, HDF5 files) is I/O and is not modelled.
- The normalisation of counts by the scaler (`counts / norm`) is floating point; counts are natural numbers here.
- XrfExplorer.ResetSpectrum: the spectrum is recorded as "mean of the map" rather than computed, because means are floating point.
- XrfExplorer.LassoDone: the spectrum is recorded as "mean of the mask", and the point-in-polygon mask is a parameter, because `path.contains_points` is foreign geometry.
- XrfExplorer.PixelSelect: the nearest pixel is a parameter, because the `hypot`/`argmin` search is floating point; the caption keeps the pixel indices but not the `.3g` coordinates.
- XrfExplorer.Init: requires a map at least one pixel high and wide; on an empty map `new_image.max()` in `_on_span` would raise.
- XrfExplorer.OnSpan: the span is accepted at any width; the widget's two-unit minimum span is not modelled.
- The relimit and autoscale of the spectrum axes are rendering and are not modelled.

## Findings

The transitions above follow the code as written. The corrected members are
proved alongside them, with lemmas saying when the two agree. The two rows
interact: the offset lookup at line 151 only works because offsets count
from the first kept day. With offsets from the first of the month, it would
miss on every month whose data begin after the 1st. The positional lookup
is right under either index.

| source | as written | input that shows it | evidently intended | confidence | as-written member | corrected member |
|---|---|---|---|---|---|---|
| code/temperture/temperature_utils.py:290 | the daily index counts days from the first kept day of the month | January 2021 data that begin on the 3rd: the 3rd gets offset 0 | days from the start of the month, as the docstring (line 286) and the axis label (line 381) say: offset = day - 1 | not executed | Aggregate.OffsetCountsFromFirstKeptDay | Aggregate.ExtractMonthFromStart |
| code/temperture/temperature_utils.py:151 | `daily_index[label][i]` looks the pick position `i` up among the offset labels | a month holding only the 1st and the 3rd: picking its second point looks up offset 1, hits the caught KeyError, and draws nothing | the `i`-th stored day (`iloc[i]`) | not executed | TimeTrace.LookupMissesAfterGap | TimeTrace.LookupPosition |
