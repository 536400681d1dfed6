# DateAxisItem tick model

A Dafny model of `DateAxisItem`, the time-aware axis of the dashboard viewer
(`dashboardViewer.py`). The axis reads positions as Unix timestamps. It has
two operations:

- `tickValues(minVal, maxVal, size)` does four things:
  - converts both ends of the visible range with `datetime.fromtimestamp`;
  - picks one of nine granularity tiers from the span `dx = maxVal - minVal`
    (year, month, day, hour, ten minutes, minute, ten seconds, second, and a
    sub-second fallback to the parent `AxisItem`);
  - walks the tier's calendar-aligned candidates from `dt1` up to `dt2`;
  - thins them with a stride so that at most `int(size / 80)` remain.

  It returns `[(spacing, ticks)]`, where the spacing is the tier's step.
- `tickStrings(values, scale, spacing)` picks a strftime template from the
  spacing alone. It then labels every value with that template, or with `''`
  when `fromtimestamp` raises `ValueError`.

The modules follow the structure of the code:

| module | what it holds |
|---|---|
| `Numbers`, `Wrappers`, `Sequences` | `int()` truncation, ceiling division, `Option`/`Result` and the Python exceptions, increasing lists |
| `Calendar` | the proleptic Gregorian calendar of Python's `datetime` (years 1..9999): days-from-civil and back, `fromtimestamp`, `dt < dt2`, and `dt + timedelta` with its `OverflowError` |
| `Tiers` | the threshold chain on `dx` and each tier's `timedelta` step |
| `YearTicks`, `MonthTicks`, `StepTicks`, `SecondTicks` | the year, month and fixed-step (day, hour, ten-minute, minute, ten-second) branches, whose loops are methods proved equal to specification functions, and the second branch, a `range(...)` without a loop, as a function; plus lemmas about those functions |
| `Decimation` | `majticks[::int(np.ceil(float(L) / maxMajSteps))]`, with Python's slice semantics and its exceptions |
| `DateAxis` | `tickValues` as a method, `TickValuesSpec` as its specification, and the properties of the result |
| `Labels` | `tickStrings`: templates as a datatype and labels as the fields a template prints |

Timestamps are modelled as follows:
- `minVal`, `maxVal` and `size` are exact reals.
- Tick positions are whole seconds (`int`).
- `fromtimestamp(x)` holds the civil fields of `floor(x)` plus the sub-second
  part as microseconds. It fails exactly when that second falls outside
  years 1..9999.
- A loop test `dt < dt2`, where `dt` is a whole second, is the comparison of
  `dt`'s timestamp with the ceiling of `dt2`.

## Model

| member | source | states |
|---|---|---|
| Tiers.TierOfIff | dashboardViewer.py:54-111 | each span falls in exactly one tier: tier t iff dx exceeds t's threshold and does not exceed the threshold of the tier above |
| Tiers.TierOfMonotone | dashboardViewer.py:54-111 | a wider span never selects a finer tier |
| Tiers.Step | dashboardViewer.py:55-107 | each tier's step, in whole seconds, is positive and below the tier's threshold |
| Tiers.StepsShrink | dashboardViewer.py:55-107 | steps shrink strictly from each tier to the next finer one |
| Numbers.Trunc | dashboardViewer.py:46 | int() truncates toward zero: the result is within one of x, on the side of zero |
| Calendar.FromTimestamp | dashboardViewer.py:48-49 | fromtimestamp succeeds exactly for representable values; it then yields a well-formed datetime holding the whole second of x |
| Calendar.RepresentableIff | dashboardViewer.py:48-49 | a value is accepted exactly when its whole second lies between 0001-01-01 and the end of 9999-12-31 |
| Calendar.FromTimestampConverted | dashboardViewer.py:48-49 | a successful conversion keeps the whole second of x, and whole seconds below the datetime's ceiling are below x |
| Calendar.BeforeIffBelowCeil | dashboardViewer.py:64 | a whole-second dt is before dt2 exactly when its timestamp is below dt2 rounded up to a whole second |
| Calendar.Add | dashboardViewer.py:68 | dt + timedelta fails exactly when the result leaves years 1..9999, with OverflowError; otherwise it is the datetime n seconds later with the same microsecond |
| YearTicks.YearTicks | dashboardViewer.py:56-58 | the loop appends the new year of every year in range(dt1.year + 1, dt2.year), in order |
| YearTicks.NewYearsHas | dashboardViewer.py:56-58 | January 1st of y is a tick exactly when dt1.year < y < dt2.year: both end years are excluded |
| YearTicks.NewYearsAreNewYears | dashboardViewer.py:57 | the i-th tick is midnight on January 1st of year dt1.year + 1 + i |
| YearTicks.NewYearsIncreasing | dashboardViewer.py:56-58 | year ticks increase |
| YearTicks.NewYearsBetween | dashboardViewer.py:56 | every year tick lies strictly after dt1 and strictly before dt2 |
| MonthTicks.MonthTicks | dashboardViewer.py:60-68 | the month branch returns the month walk from the month after dt1's, or the OverflowError of adding 31 days past year 9999 |
| MonthTicks.FirstMonthProbe | dashboardViewer.py:62-63 | dt1 truncated to the first of its month plus 31 days is the probe of month MonthIndex(dt1) + 1, or OverflowError exactly when that probe leaves year 9999; the month branch's result is the walk from that month |
| MonthTicks.MonthStep | dashboardViewer.py:66-68 | one pass of the loop body appends the first of the probe's month, and the next probe falls in the following month (day 1 to 4) or overflows |
| MonthTicks.MonthsFrom | dashboardViewer.py:64-68 | the loop, from any probe, produces the month walk from that month up to dt2, or OverflowError |
| MonthTicks.NextProbe | dashboardViewer.py:66-68 | 31 days after the first of a month, reset to day 1, is the first of the next month: each pass advances exactly one calendar month |
| MonthTicks.ProbeBounds | dashboardViewer.py:63-68 | the date the loop compares with dt2 lies on day 1 to 4 of its month, and consecutive probes are at least 28 days apart |
| MonthTicks.MonthWalkAt | dashboardViewer.py:64-67 | the ticks are the firsts of consecutive months; month j is a tick exactly while its probe is below dt2 |
| MonthTicks.MonthTickAt | dashboardViewer.py:66-67 | each month tick, read back as a datetime, is midnight on day 1 of its month |
| MonthTicks.MonthWalkIncreasing | dashboardViewer.py:64-67 | month ticks increase |
| MonthTicks.MonthTicksBetween | dashboardViewer.py:62-67 | every month tick lies strictly after dt1 and before dt2 |
| MonthTicks.MonthStartKept | dashboardViewer.py:64-66 | every later month start more than three days before dt2 is a tick |
| MonthTicks.MonthAfterLastTick | dashboardViewer.py:64-66 | the month where the loop stops is not a tick, yet it starts at most three days before dt2 |
| MonthTicks.MonthResultPastEnd | dashboardViewer.py:68 | a month walk whose first probe lies past year 9999 fails with OverflowError |
| StepTicks.StepTicks | dashboardViewer.py:70-104 | each fixed-step branch truncates dt1, adds the step and walks while dt < dt2, producing StepCandidates or OverflowError |
| StepTicks.WalkFrom | dashboardViewer.py:73-75 | the shared loop appends the walk from its start by the step while below dt2, or fails with OverflowError when a step leaves year 9999 first |
| StepTicks.TruncateFacts | dashboardViewer.py:72-101 | dt1.replace(...) lands on the tier's last boundary at or before dt1, less than one step earlier, on a multiple of the step |
| StepTicks.AlignedIffMultiple | dashboardViewer.py:72-101 | an instant has the tier's zeroed fields (midnight; minute and second 0; minute a multiple of 10; second 0; second a multiple of 10) exactly when it is a multiple of the step |
| StepTicks.StepWalkIff | dashboardViewer.py:70-104 | the fixed-step ticks are exactly the multiples of the step strictly after dt1 and before dt2 |
| StepTicks.StepTickIff | dashboardViewer.py:70-104 | the fixed-step ticks are exactly the tier's round boundaries strictly after dt1 and before dt2 |
| StepTicks.StepWalkIncreasing | dashboardViewer.py:73-75 | fixed-step ticks increase, one step apart |
| SecondTicks.SecondTicksIff | dashboardViewer.py:108 | the second ticks are exactly the integers in [int(minVal), int(maxVal)); each is below maxVal but only above minVal - 1 |
| SecondTicks.IntRangeIncreasing | dashboardViewer.py:108 | range(lo, hi) counts up by one |
| Numbers.CeilDiv | dashboardViewer.py:115 | ceiling division: the least q with a <= b * q |
| Decimation.CeilQuotient | dashboardViewer.py:115 | int(np.ceil(L / m)) for either sign of m: the least k with L <= k * m for m > 0, its mirror for m < 0 |
| Decimation.StrideLength | dashboardViewer.py:115 | s[::k] has ceil(\|s\| / k) elements |
| Decimation.StrideAt | dashboardViewer.py:115 | the i-th element of s[::k] is s[i * k] |
| Decimation.DecimateErrors | dashboardViewer.py:113-115 | thinning fails exactly for m == 0 with ticks to thin (ZeroDivisionError) or a negative m beyond the count (ValueError, zero slice step) |
| Decimation.DecimateKeeps | dashboardViewer.py:113-115 | for m > 0: at most m ticks stay unchanged; more are cut to the ticks at 0, k, 2k, ... with k = ceil(L / m) |
| Decimation.DecimateBound | dashboardViewer.py:113-115 | for m >= 0 the thinned list has at most m ticks |
| Decimation.DecimateIncreasing | dashboardViewer.py:113-115 | thinning keeps an increasing list increasing and keeps its first tick |
| Decimation.DecimateSubset | dashboardViewer.py:113-115 | every tick kept was a candidate |
| DateAxis.CandidateTicks | dashboardViewer.py:54-108 | the branch of the selected tier produces that tier's candidates |
| DateAxis.TickValues | dashboardViewer.py:39-117 | tickValues returns TickValuesSpec: ValueError, the parent's levels, the error of a loop or of thinning, or one level of thinned ticks |
| DateAxis.TickValuesValueError | dashboardViewer.py:46-49 | for a non-negative size, ValueError is raised exactly when minVal or maxVal cannot be converted |
| DateAxis.TickValuesLevels | dashboardViewer.py:110-117 | dx <= 2 returns the parent's result unchanged; otherwise one level whose spacing is the tier's step, whatever the ticks and the size |
| DateAxis.TickValuesCount | dashboardViewer.py:113-117 | for a non-negative size, at most int(size / 80) ticks are returned |
| DateAxis.TickValuesGood | dashboardViewer.py:52-117 | the returned ticks are the thinned candidates, strictly increasing, each on its tier's boundary, after minVal (minVal - 1 for seconds) and before maxVal |
| DateAxis.CandidatesGood | dashboardViewer.py:54-108 | every tier's candidates are increasing, on the tier's boundaries and inside the visible range |
| DateAxis.YearCandidatesGood | dashboardViewer.py:54-58 | year candidates are increasing new years strictly inside the range |
| DateAxis.MonthCandidatesGood | dashboardViewer.py:60-68 | month candidates are increasing firsts of months strictly inside the range |
| DateAxis.StepCandidatesGood | dashboardViewer.py:70-104 | fixed-step candidates are increasing aligned instants strictly inside the range |
| DateAxis.SecondCandidatesGood | dashboardViewer.py:106-108 | second candidates are increasing whole seconds after minVal - 1 and below maxVal |
| Labels.TemplateForIff | dashboardViewer.py:125-146 | each spacing selects exactly one template: the one whose threshold it reaches while staying below the next coarser threshold |
| Labels.TierTemplates | dashboardViewer.py:125-146 | each spacing tickValues declares selects a fixed template: %Y, %Y %b, %b/%d, %b/%d-%Hh, %H:%M (twice), %H:%M:%S (twice) |
| Labels.LabelOf | dashboardViewer.py:149-153 | a label is blank exactly when the value cannot be converted; otherwise it uses the chosen template |
| Labels.LabelOfWholeSecond | dashboardViewer.py:150-151 | a whole second within years 1..9999 is labelled with the fields of its own datetime |
| Labels.YearTickLabel | dashboardViewer.py:126 | a year tick is labelled with its year |
| Labels.MonthTickLabel | dashboardViewer.py:129 | a month tick is labelled with its year and month |
| Labels.TickStrings | dashboardViewer.py:119-155 | one label per value, in order, each the label of that value under the spacing's template; [] for no values |

## Left out

- `ArchiverRequester.py` is not part of this model. It builds a URL and makes a blocking HTTP request.
- `attachToPlotItem` and `detachFromPlotItem` (dashboardViewer.py:157-175) are not modelled. They are Qt widget wiring, and the second one only raises `NotImplementedError`.
- The `__main__` demo (dashboardViewer.py:179-244) is not modelled. It is GUI, EPICS-callback and HTTP plumbing.
- The parent `AxisItem.tickValues` is a library routine whose code is not part of this model. It is a function-valued parameter of `TickValues` and `TickValuesSpec`, and its result is returned unchanged.
- Time zones are left out. `fromtimestamp` and `mktime` use a fixed UTC civil calendar, with no local offset and no daylight-saving gaps or folds, so `mktime(dt.timetuple())` is the exact inverse of the conversion.
- Calendar.FromTimestamp: the microsecond field truncates the sub-second part, where Python rounds it to the nearest microsecond. The two differ in the whole second only for a value less than half a microsecond below a whole second, which Python reads as the next second.
- Calendar.FromTimestamp: `ValueError` is raised only for years outside 1..9999. Platform limits of `localtime` (such as values before 1970 on Windows) and their `OSError`/`OverflowError` are not modelled.
- Floating point is not modelled. `minVal`, `maxVal`, `size`, `dx`, `size / 80` and `float(L) / maxMajSteps` are exact reals or integers, and `mktime` returns whole seconds, given to the caller as reals.
- Rendering is left out. `strftime`, the locale month names of `%b` and the `%f` digits are abstracted to a `Template` and the list of datetime fields it prints.
- The `scale` argument of `tickStrings` is accepted and unused, as in the source.
- The month loop does not promise every first of a month inside the range. It compares the probe with `dt2`, where the probe is 31 days after the previous first and lands on day 1 to 4 of the month. So a first of a month at most three days before `maxVal` (rounded up to a whole second) can be dropped; after a 28-day February the probe of March is March 4th, so March 1st is not a tick when that rounded `maxVal` is 2019-03-04T00:00:00. The model follows the code: `MonthStartKept` and `MonthAfterLastTick` state both sides.
- DateAxis.TickValuesCount and DateAxis.TickValuesGood assume a non-negative size. For a negative size, `int(size/80)` is negative and the slice step is negative or zero. The model computes that case (a reversed stride, or `ValueError`), but it promises neither the count bound nor increasing order.
