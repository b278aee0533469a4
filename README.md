# AGP report statistics, modelled in Dafny

This project models the statistics behind an ambulatory glucose profile (AGP)
report page (`streamlit_app.py`). The page takes a table of timestamped
glucose readings in mg/dL and computes four things:

- **Summary card** (`compute_agp_summary`):
  - the number of readings;
  - the percentage of readings in each of five glucose bands;
  - the mean glucose;
  - the coefficient of variation.
- **GMI**: the Glucose Management Indicator, `3.31 + 0.02392 × mean`.
- **Daily profiles** (`compute_daily_profiles`): one row per calendar date,
  with the minimum, maximum and mean glucose of that date.
- **AGP curve** (`compute_agp`): readings grouped on the time-of-day
  coordinate `hour + minute / 60`. Each group gets its median and its 5th,
  25th, 75th and 95th percentiles, computed by numpy's default linear
  interpolation.

A reading is a record of calendar date, hour, minute and glucose value.
Glucose is a Dafny `real`: exact rational arithmetic. Each computation is a
pure function over a sequence of readings. Its contract and the lemmas beside
it state what the report promises.

The modules:

| Module | Contents |
|---|---|
| `Stats` | sum, mean, minimum, maximum, sample variance |
| `Readings` | the reading record and its derived columns |
| `Sorting` | ascending sort; the distinct ascending keys a sorted `groupby` emits |
| `Percentiles` | `np.percentile` (linear) and pandas' `median` |
| `AgpSummary` | band classification, percentages, the summary, GMI |
| `DailyProfiles` | the daily table |
| `AgpCurve` | the time-of-day table |
| `Frame` | the readings table as an object |

Two of the report functions add a column to the caller's table in place
before they group: `Date` and `Time of Day`. `Frame.GlucoseFrame` is that
table as a class. Its methods set the column and return the pure
computation's result. They leave the readings and the other column alone.

The program's own summary labels describe the outer bands as "<54 mg/dL"
and ">250 mg/dL" (streamlit_app.py:38 and :40), which reads as half-open
intervals covering every non-negative value: [0,54), [54,70), [70,181),
[181,251), [251,∞). The code instead calls `Series.between(lo, hi)`, which is
inclusive at both ends, with the ranges [0,53], [54,69], [70,180], [181,250]
and [251,∞). The model follows the code. As a result, a reading of 53.5
counts as "<54" by its label but lies in no band, and so do 250.5 (">250" by
its label) and −5. More generally:

- a non-integer value strictly inside (53,54), (69,70), (180,181) or
  (250,251) lies in no band;
- so does a negative value;
- the five percentages add up to the share of readings that lie in some band,
  which is 100 exactly when every reading does;
- every whole-number reading of at least 0 does lie in a band (`AgpSummary.WholeNumbersCovered`).

## Model

| member | source | states |
|---|---|---|
| Readings.Glucose | streamlit_app.py:37-42 | the glucose column has one entry per reading, the reading's value, in row order |
| Readings.Dates | streamlit_app.py:48 | the `Date` column has one entry per reading, that reading's date, in row order |
| Readings.TimeOfDay | streamlit_app.py:56 | `hour + minute / 60` lies in [0, 24) for every hour 0..23 and minute 0..59 |
| Readings.TimeOfDayIsMinuteOfDay | streamlit_app.py:56 | the coordinate is `KeyTime` of the minute of the day: that minute divided by 60 |
| Readings.TimeOfDayOrder | streamlit_app.py:56-57 | two readings share a coordinate iff they share hour and minute; coordinates are ordered as minutes of the day are |
| Readings.MinuteKeys | streamlit_app.py:56-57 | one minute-of-day key per reading, in row order |
| Stats.Mean | streamlit_app.py:41 | no `ensures` of its own (sum over size); its properties are stated by `MeanWithinMinMax` (it lies in [min, max]), `MeanBetween`, `MeanScale` and `MeanTimesCount` (size × mean = sum) |
| Stats.MeanTimesCount | streamlit_app.py:41 | a sample's size times its mean is its sum |
| Stats.Min | streamlit_app.py:50 | the `min` aggregate is a value of the sample and bounds every value from below |
| Stats.Max | streamlit_app.py:50 | the `max` aggregate is a value of the sample and bounds every value from above |
| Stats.MeanWithinMinMax | streamlit_app.py:41 | the mean of a non-empty sample lies between its minimum and maximum |
| Stats.MeanBetween | streamlit_app.py:41 | the mean of values that all lie in [lo, hi] lies in [lo, hi] |
| Stats.SumBetween | streamlit_app.py:41 | n values in [lo, hi] sum to a value in [n·lo, n·hi] |
| Stats.MeanScale | streamlit_app.py:41 | scaling every value by k scales the mean by k |
| Stats.SampleVariance | streamlit_app.py:42 | the `std()` variance (divisor n − 1) exists iff there are at least two values, and it is never negative |
| Stats.SquaredDeviations | streamlit_app.py:42 | a sum of squared deviations is never negative |
| Stats.SquaredDeviationsScale | streamlit_app.py:42 | scaling values and centre by k scales the squared deviations by k² |
| Stats.VarianceScale | streamlit_app.py:42 | scaling every value by k scales the sample variance by k² |
| Sorting.Sort | streamlit_app.py:60-63 | the sorted sample that `np.percentile` reads is ascending and a permutation of the group |
| Sorting.Insert | streamlit_app.py:60-63 | inserting into an ascending sample keeps it ascending and adds exactly that value |
| Sorting.InsertBehindHead | streamlit_app.py:60-63 | the head of an ascending sample, put back before the rest with a larger value inserted, keeps the sample ascending and holds exactly the head, the rest and that value |
| Sorting.DistinctSorted | streamlit_app.py:49 | `groupby` row keys are strictly ascending and are exactly the keys present |
| Sorting.KeyIndices | streamlit_app.py:49-57 | the positions holding a key are listed once each, in increasing order, and are exactly the positions whose key it is |
| Sorting.InsertKey | streamlit_app.py:57 | adding a key keeps the key list strictly ascending and adds only that key |
| Percentiles.Position | streamlit_app.py:60-63 | the position p·(n − 1), in hundredths, never passes the last index |
| Percentiles.Interpolate | streamlit_app.py:60-63 | no `ensures` of its own; `InterpolateIsLinear` proves it equals numpy's linear formula, and `InterpolateBounds` and `InterpolateMonotone` prove it stays within the sorted sample's range and is monotone in the position |
| Percentiles.InterpolateIsLinear | streamlit_app.py:60-63 | the value is numpy's `s[lo] + g·(s[hi] − s[lo])`, with lo the whole part of the position, g its fraction, and hi clipped to the last index |
| Percentiles.InterpolateAt | streamlit_app.py:60-63 | the same, for a position given as its whole part and its remainder in hundredths |
| Percentiles.LerpBetween | streamlit_app.py:60-63 | interpolating between a ≤ b with a fraction in [0, 1] stays in [a, b] |
| Percentiles.LerpMonotone | streamlit_app.py:60-63 | interpolating between a ≤ b is monotone in the fraction |
| Percentiles.InterpolateMonotone | streamlit_app.py:60-63 | interpolating a sorted sample is monotone in the position |
| Percentiles.InterpolateBounds | streamlit_app.py:60-63 | interpolation stays between the first and last order statistics and reaches each at its end |
| Percentiles.InterpolateAtIndex | streamlit_app.py:59 | at a whole position j, the value is the j-th order statistic |
| Percentiles.InterpolateMidway | streamlit_app.py:59 | half-way between j and j + 1, the value is the average of those order statistics |
| Percentiles.SortEnds | streamlit_app.py:60-63 | the sorted group starts at its minimum and ends at its maximum |
| Percentiles.SortedPermutationEnds | streamlit_app.py:60-63 | any ascending permutation of a sample starts at its minimum and ends at its maximum |
| Percentiles.Percentile | streamlit_app.py:60-63 | no `ensures` of its own (sort, then interpolate at p·(n − 1)); `PercentileBounds` proves it lies in [min, max], with P0 = min and P100 = max, and `PercentileMonotone` proves it is monotone in p |
| Percentiles.PercentileBounds | streamlit_app.py:60-63 | every percentile lies in [min, max]; the 0th is the minimum and the 100th the maximum |
| Percentiles.PercentileMonotone | streamlit_app.py:60-63 | a larger percent never gives a smaller percentile |
| Percentiles.PositionMonotone | streamlit_app.py:60-63 | a larger percent gives a position at least as far along |
| Percentiles.Median | streamlit_app.py:59 | no `ensures` of its own (the middle order statistic, or the mean of the two middle ones); `MedianIsPercentile50` proves it is the linear 50th percentile |
| Percentiles.MedianIsPercentile50 | streamlit_app.py:59 | pandas' `median` equals the linearly interpolated 50th percentile, for odd and even group sizes |
| Percentiles.ThreeReadingExample | streamlit_app.py:59-63 | the group [70, 180, 125] has median 125, P5 75.5, P25 97.5, P75 152.5 and P95 174.5 |
| AgpSummary.Between | streamlit_app.py:36-40 | no `ensures` of its own: inclusive at both ends, with an unbounded upper end for `float('inf')`; `Classify`, `BandsDisjoint` and `CoveredIff` state what the five ranges cover |
| AgpSummary.InBand | streamlit_app.py:28-40 | no `ensures` of its own: `Between` on a band's limits from lines 28-32; `Classify` proves that a value is in band b exactly when it gets b |
| AgpSummary.Classify | streamlit_app.py:28-32 | a value gets band b exactly when it lies in b's inclusive range |
| AgpSummary.BandsDisjoint | streamlit_app.py:28-32 | no value lies in two of the five ranges |
| AgpSummary.CoveredIff | streamlit_app.py:28-32 | a value lies in some band iff it is not negative and not strictly inside one of the four gaps |
| AgpSummary.WholeNumbersCovered | streamlit_app.py:28-32 | every whole number of at least 0 lies in a band |
| AgpSummary.BoundaryValues | streamlit_app.py:28-32 | 0 and 53 are very low; 54 and 69 low; 70 and 180 target; 181 and 250 high; 251 very high; −1, 53.5, 69.5, 180.5 and 250.5 are in no band |
| AgpSummary.CountIn | streamlit_app.py:36-40 | the band count is at most the sample size, and equals it iff every value lies in the band |
| AgpSummary.CoveredCount | streamlit_app.py:36-40 | the number of values in some band is at most the sample size |
| AgpSummary.BandCountsPartition | streamlit_app.py:28-40 | the five band counts add up to the number of values in some band |
| AgpSummary.CoveredCountAll | streamlit_app.py:28-40 | the covered count is the whole sample iff every value lies in some band |
| AgpSummary.Percent | streamlit_app.py:36-40 | `between(...).mean() * 100` lies in [0, 100], and is 100 iff every value lies in the band |
| AgpSummary.Share | streamlit_app.py:36-40 | c out of n, in percent, lies in [0, 100] and is 100 iff c = n |
| AgpSummary.AddShares | streamlit_app.py:36-40 | percentages of the same total add up like their counts |
| AgpSummary.SumOfPercents | streamlit_app.py:36-40 | the five percentages add up to the percentage of values in some band |
| AgpSummary.SquaredCv | streamlit_app.py:42 | the squared CV is defined iff there are at least two readings and the mean is not zero, and it is never negative |
| AgpSummary.SquaredCvIsSquaredRatio | streamlit_app.py:42 | where defined, the squared CV is 100² × sample variance / mean², the square of `std / mean * 100` |
| AgpSummary.SquaredCvScaleInvariant | streamlit_app.py:42 | multiplying every reading by a non-zero factor leaves the (squared) CV unchanged |
| AgpSummary.ScaledMeanZero | streamlit_app.py:42 | scaling by a non-zero factor keeps a zero mean zero and a non-zero mean non-zero |
| AgpSummary.NormalizedScaledSample | streamlit_app.py:42 | a scaled sample divided by its mean equals the original divided by its mean |
| AgpSummary.NormalizedScaled | streamlit_app.py:42 | dividing scaled readings by a scaled mean undoes the scaling, reading by reading |
| AgpSummary.ComputeAgpSummary | streamlit_app.py:26-44 | the total is the number of readings; each band field is that band's percentage; the mean lies between the minimum and the maximum; the squared CV is defined iff there are at least two readings and a non-zero mean |
| AgpSummary.PercentagesSum | streamlit_app.py:28-41 | the five percentages sum to the percentage of readings in some band: at most 100, and 100 iff every reading lies in a band |
| AgpSummary.ThreeReadingSummary | streamlit_app.py:34-41 | readings 70, 180 and 125: 3 readings, 100 % in target, 0 % elsewhere, mean 125 |
| AgpSummary.ThreeReadingPercents | streamlit_app.py:36-40 | the band percentages of [70, 180, 125] |
| AgpSummary.ThreeReadingCounts | streamlit_app.py:36-40 | the band counts of [70, 180, 125] |
| AgpSummary.ThreeReadingMean | streamlit_app.py:41 | the mean of [70, 180, 125] is 125 |
| AgpSummary.Gmi | streamlit_app.py:123 | the mean glucose is recovered from the GMI by `MeanForGmi` |
| AgpSummary.GmiInvertible | streamlit_app.py:123 | GMI is strictly increasing in the mean, and `MeanForGmi` inverts it |
| AgpSummary.GmiExample | streamlit_app.py:123 | a mean of 154 mg/dL gives a GMI of 6.99368 % |
| DailyProfiles.GlucoseOn | streamlit_app.py:49 | a date's group is non-empty iff some reading was taken on that date |
| DailyProfiles.GlucoseOnHas | streamlit_app.py:49 | every reading of a date is in that date's group |
| DailyProfiles.GlucoseOnFrom | streamlit_app.py:49 | every value in a date's group comes from a reading of that date |
| DailyProfiles.DateGroupRows | streamlit_app.py:49 | a date's group holds the value of every reading taken on that date, once each and in row order: its j-th value is that of the j-th such reading |
| DailyProfiles.DateGroupRowsFrom | streamlit_app.py:49 | the same, for the readings from a given position on |
| DailyProfiles.Profile | streamlit_app.py:49-51 | a date's row carries that date, and its mean lies between its min and max |
| DailyProfiles.ProfilesFor | streamlit_app.py:49-51 | no `ensures` of its own: the per-date `agg` step, one `Profile` per listed date in list order; `ComputeDailyProfiles`, `DailyProfileBounds` and `WeightedIsSumByDate` state its properties |
| DailyProfiles.ComputeDailyProfiles | streamlit_app.py:46-52 | row dates are strictly ascending; there is a row for a date iff a reading was taken on it; in every row min ≤ mean ≤ max, and the row's min, max and mean are those of the readings taken on its date |
| DailyProfiles.DailyProfileBounds | streamlit_app.py:49-51 | a row's min and max bound every reading of its date, and each is the value of some reading of that date |
| DailyProfiles.ProfileBounds | streamlit_app.py:49-51 | the same, for the row of a given date |
| DailyProfiles.ByDateStep | streamlit_app.py:49-50 | removing the first reading takes its value out of exactly one date group |
| DailyProfiles.DatesPartitionReadings | streamlit_app.py:49-50 | the date groups hold every reading exactly once: group sums add up to the column sum, and group sizes to the reading count |
| DailyProfiles.EmptyGroups | streamlit_app.py:49-50 | with no readings, every date group is empty |
| DailyProfiles.WeightedIsSumByDate | streamlit_app.py:49-50 | a row's mean weighted by its group size is its group's sum |
| DailyProfiles.ProfileWeight | streamlit_app.py:49-50 | the same, for the row of one date |
| DailyProfiles.OverallMeanIsWeightedDailyMean | streamlit_app.py:41-50 | the overall mean is the average of the daily means weighted by each date's reading count; the date groups hold every reading once |
| DailyProfiles.TwoDayExample | streamlit_app.py:46-52 | for any dates d1 < d2, readings 70 and 180 on d1 and 125 on d2 give the rows (d1, 70, 180, 125) and (d2, 125, 125, 125), in that order |
| DailyProfiles.TwoRows | streamlit_app.py:49-51 | readings taken on exactly two dates give those two dates' rows, in ascending order |
| DailyProfiles.TwoDayGroups | streamlit_app.py:48-49 | the date column and date groups of that example |
| DailyProfiles.TwoDayKeys | streamlit_app.py:49 | the distinct ascending dates of that example |
| DailyProfiles.TwoDayStats | streamlit_app.py:50 | min, max and mean of that example's groups |
| AgpCurve.Coordinates | streamlit_app.py:56 | the `Time of Day` column has one entry per reading, that reading's coordinate |
| AgpCurve.GlucoseAt | streamlit_app.py:57 | a coordinate's group is non-empty iff some reading has that coordinate |
| AgpCurve.GlucoseAtHas | streamlit_app.py:57 | every reading with a coordinate is in that coordinate's group |
| AgpCurve.GlucoseAtFrom | streamlit_app.py:57 | every value in a coordinate's group comes from a reading with that coordinate |
| AgpCurve.TimeGroupRows | streamlit_app.py:57 | a coordinate's group holds the value of every reading with that coordinate, once each and in row order: its j-th value is that of the j-th such reading |
| AgpCurve.TimeGroupRowsFrom | streamlit_app.py:57 | the same, for the readings from a given position on |
| AgpCurve.CoordinateIsKeyTime | streamlit_app.py:56 | a reading's coordinate is its minute of the day over 60 |
| AgpCurve.KeyTimePresent | streamlit_app.py:56-57 | a minute of the day at which a reading was taken gives a coordinate that is present |
| AgpCurve.CoordinateHasKey | streamlit_app.py:56-57 | every coordinate present comes from a minute-of-day key that is present |
| AgpCurve.Row | streamlit_app.py:58-64 | a group's row carries the group's time of day |
| AgpCurve.RowStatistics | streamlit_app.py:58-64 | P5 ≤ P25 ≤ median ≤ P75 ≤ P95; the group's min ≤ P5 and P95 ≤ its max; median = P50 |
| AgpCurve.RowsFor | streamlit_app.py:57-64 | no `ensures` of its own: the per-key `agg` step, one `Row` per listed key in list order; `ComputeAgp` and `AgpRowStatistics` state its properties |
| AgpCurve.ComputeAgp | streamlit_app.py:54-65 | row times are strictly ascending; there is a row for a coordinate iff some reading has it |
| AgpCurve.AgpRowStatistics | streamlit_app.py:58-64 | in every row P5 ≤ P25 ≤ median ≤ P75 ≤ P95; some reading at that time is ≤ P5 and some is ≥ P95; the median is the interpolated 50th percentile; the median and the four percentiles are `median` and `np.percentile` of the readings at the row's time of day |
| AgpCurve.ThreeReadingCurve | streamlit_app.py:54-65 | three 08:00 readings of 70, 180 and 125, on any dates, give the single row (8, 125, 75.5, 97.5, 152.5, 174.5) |
| AgpCurve.SingleRow | streamlit_app.py:57-64 | readings that all fall in one minute of the day give a table of that minute's row alone |
| AgpCurve.ThreeReadingRow | streamlit_app.py:58-64 | the 08:00 row of that example |
| AgpCurve.ThreeReadingKeys | streamlit_app.py:56-57 | the example's minute keys, and its one distinct key |
| AgpCurve.ThreeReadingGroup | streamlit_app.py:57 | the example's 08:00 group holds 70, 180 and 125 in row order |
| Frame.GlucoseFrame.constructor | streamlit_app.py:117 | a freshly loaded table holds the readings and no derived column |
| Frame.GlucoseFrame.ComputeDailyProfiles | streamlit_app.py:46-52 | sets the `Date` column to the readings' dates and changes nothing else; returns the daily table |
| Frame.GlucoseFrame.ComputeAgp | streamlit_app.py:54-65 | sets the `Time of Day` column to the readings' coordinates and changes nothing else; returns the AGP table |
| Frame.Report | streamlit_app.py:127-132 | the AGP curve followed by the daily profiles leaves both columns set, leaves the readings unchanged, and returns the two pure results |

## Left out

- `load_data` (streamlit_app.py:16-24): Excel parsing and `pd.to_datetime` are library I/O. The model starts from readings whose date, hour and minute are already extracted.
- Deriving the date, hour and minute from a timestamp, with its time zone, is library datetime code. These are given fields. A date is modelled as its ordinal day number, so date order is integer order.
- All plotting (streamlit_app.py:71-106), the Streamlit page flow, and the `:.1f` display rounding of the mean and the GMI (streamlit_app.py:112-134): rendering and string formatting.
- The DuckDB editable-table screen (streamlit_app.py:139-183): database I/O, unrelated to the glucose report.
- AgpSummary.SquaredCv: reports the square of the coefficient of variation, (100 · std / mean)², not the CV. A square root is not exact over the reals. The square also drops the CV's sign when the mean is negative. Where pandas yields NaN or an infinity (fewer than two readings, or a zero mean), the model yields None.
- AgpSummary.ComputeAgpSummary: requires at least one reading. On an empty table pandas yields NaN for the mean and the percentages, and the model has no NaN.
- Floating point is not modelled. Glucose values, means and percentiles are exact reals, so float rounding in `mean`, `std` and the interpolation is not captured. Rounding of the percentile position `p/100 · (n − 1)` could shift an interpolated value by an ulp. The coordinate `hour + minute / 60` is exact too, and here this costs nothing: for hours 0..23 and minutes 0..59, distinct coordinates are at least 1/60 apart, far more than float64 error, and equal (hour, minute) pairs always round the same way. So grouping and ordering on the float coordinate match the exact model.
- NaN glucose values are not modelled: every reading has a value. In pandas, a NaN row still counts in `len(data)` (streamlit_app.py:35) and in the denominator of each `between(...).mean()`, since `between` is False on NaN (lines 36-40). `mean`, `std`, `min`, `max` and `median` skip NaN. `np.percentile` returns NaN for any group that holds a NaN (lines 60-63).
- The page calls `compute_agp_summary` first (streamlit_app.py:120). It does not change the table, so `Frame.Report` covers only the two calls that do.
