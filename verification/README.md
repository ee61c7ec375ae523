# ReEDS stress periods, load profiles and run status in Dafny

This project models five pieces of the ReEDS capacity-expansion model as pure
Dafny functions and proves what each one promises.

1. **Stress-period selection** (`ReEDS_Augur/stress_periods.py`). Between two
   solves, ReEDS reads the hourly expected unserved energy (EUE) that the
   PRAS reliability model reports for each region.
   - The EUE is rolled up to a hierarchy level.
   - Each calendar day gets a metric: EUE or normalized EUE (NEUE, in ppm of
     load), summed or maximised over the day's hours.
   - The days are ranked.
   - Each criterion of `GSw_PRM_StressThreshold` is tested against the
     annual NEUE of its level.
   - For the first criterion that fails, the model picks new stress days for
     every failed region and optionally adds the neighbouring "shoulder"
     days.
   - It then decides whether to raise the planning reserve margin (PRM). The
     PRM increment comes from a piecewise-linear curve of EUE against added
     surplus, built from the PRAS shortfall samples and inverted at the
     target.
2. **Load-profile arithmetic** (`input_processing/hourly_load.py`):
   - scaling of historical profiles to annual totals;
   - interpolation and calibration across model years;
   - downselection and repetition of weather years;
   - the distribution-loss gross-up;
   - coincident peaks at every hierarchy level;
   - allocation of state load to model regions.
3. **EER load conversion** (`hourlize/load.py`):
   - the state name-to-code table;
   - the `Etc/GMT±N` time-zone roll;
   - removal of sectoral load that another profile replaces;
   - folding of state columns into state codes;
   - scenario validation.
4. **Renewable capacity-factor inputs** (`input_processing/recf.py`):
   - the no-foresight dispatch of concentrating solar power (CSP) with
     storage;
   - GAMS-style technology ranges;
   - the split of resource names;
   - the offshore-wind switch.
5. **Run status** (`runstatus.py`):
   - expansion of multi-run job names;
   - the finished / running / failed partition;
   - the step, stall and failure-reason classification.

Python exceptions become values: every fallible operation returns
`Wrappers.Result`, whose error cases name the exception the source raises
(`KeyError`, `ValueError`, `IndexError`, `NotImplementedError`, …). Other
modelling choices:

- pandas tables are sequences of named columns (`Frames`).
- numpy division by zero is modelled in `Floats` (signed infinity or NaN).
- Rounding to three decimals is numpy's half-to-even rounding, stated on
  exact reals (`Rounding`).
- Python string functions (`split`, `rsplit`, `join`, `lower`, `int`,
  `float`) are modelled in `Text`.

One module per file:

- Shared modules: `wrappers`, `seqs`, `text`, `order`, `rounding`, `frames`,
  `calendar`, `floats`.
- `stress_periods.py`: `stress_metric`, `neue`, `selection`, `shoulder`,
  `stress_iteration`, `plf`, `prm_update`.
- `hourly_load.py`: `hourly_load`, `load_reshape`, `peak_load`,
  `regional_load`.
- `hourlize/load.py`: `eer_load`.
- `recf.py`: `recf`.
- `runstatus.py`: `run_status`.

## Model

| member | source | states |
|---|---|---|
| StressMetric.RegionMap | ReEDS_Augur/stress_periods.py:65-76 | The region map exists exactly when the level is 'r' or a hierarchy column, otherwise KeyError(level). Level 'r' maps every region to itself. Any other level maps each region to its entry in that hierarchy column. |
| StressMetric.DayValuesRatio | ReEDS_Augur/stress_periods.py:168-174 | Restricting the hourly EUE/load ratio to one day gives the same result as taking the ratio of the day's EUE and load hours. So the 'max' NEUE divides hour by hour, within the day. |
| StressMetric.RatioOfSumsAtMostMaxRatio | ReEDS_Augur/stress_periods.py:156-174 | For positive loads, the ratio of summed EUE to summed load never exceeds the largest hourly ratio. |
| StressMetric.DailyNeueSumAtMostMax | ReEDS_Augur/stress_periods.py:156-174 | A day's NEUE under 'sum' is never above its NEUE under 'max'. |
| StressMetric.NeueSumAndMaxDiffer | ReEDS_Augur/stress_periods.py:156-174 | A concrete day on which the 'sum' and 'max' NEUE differ: the two aggregations are different formulas. |
| StressMetric.Stack | ReEDS_Augur/stress_periods.py:178 | Stacking the per-day table gives one entry per (day, rolled-up region), day-major. Each entry carries that region's daily metric. |
| StressMetric.StackEntries | ReEDS_Augur/stress_periods.py:178 | An entry is in the stacked table exactly when it is the metric of some day of the time index and some rolled-up region. |
| StressMetric.TopPerDay | ReEDS_Augur/stress_periods.py:177-184 | The ranked rows are sorted by decreasing value, hold each calendar day at most once, and are all nonzero rows of the input. |
| StressMetric.TopPerDayCoversDays | ReEDS_Augur/stress_periods.py:177-184 | Every nonzero input row has a ranked row for its day whose value is at least as large, so each day keeps its worst region. |
| StressMetric.ParseMetric | ReEDS_Augur/stress_periods.py:139-147 | A metric name is accepted exactly when its upper-case form is "EUE" or "NEUE". |
| StressMetric.ParseAgg | ReEDS_Augur/stress_periods.py:139-174 | An aggregation is accepted exactly when it is "sum" or "max". A rejected one is a ValueError exactly under the EUE metric; under NEUE the table is never bound. |
| StressMetric.StressPeriods | ReEDS_Augur/stress_periods.py:102-191 | The daily stress table exists exactly when the level, the metric and the aggregation are all valid and, under NEUE, the load has as many hours as the EUE index. An unknown level fails with KeyError(level), and a NEUE load of another length fails with pandas' length-mismatch ValueError. A successful table is sorted in decreasing order and holds each day at most once. |
| StressMetric.StressPeriodsIgnoresLoad | ReEDS_Augur/stress_periods.py:139-146 | Under any metric but NEUE the load is never read: two load tables give the same result. |
| StressMetric.StressPeriodsRows | ReEDS_Augur/stress_periods.py:126-184 | Every row of the stress table is a nonzero daily metric of some region. Every nonzero daily metric has a row for its day that is at least as large. |
| Neue.LevelNeue | ReEDS_Augur/stress_periods.py:194-226 | One level's annual NEUE: KeyError(level) when the level has no region map. Otherwise every row reports its group's summed or maximised NEUE, and every rolled-up group has both rows. |
| Neue.NeueTable | ReEDS_Augur/stress_periods.py:194-226 | The table over several levels fails with KeyError at the first level without a map. Otherwise it is complete for every level, and its (level, metric, group) keys are unique. |
| Neue.AnnualNeue | ReEDS_Augur/stress_periods.py:194-226 | The annual NEUE of the levels country, interconnect, nercr, transreg, transgrp, st and r exists exactly when each of these levels has a map. It reports every group of every level exactly once per metric. |
| Neue.AnnualSumAtMostMax | ReEDS_Augur/stress_periods.py:212-221 | The annual NEUE under 'sum' of a group is never above its value under 'max'. |
| Neue.Exceeding | ReEDS_Augur/stress_periods.py:483-486 | The threshold test fails with KeyError on an unknown level or metric. Otherwise it returns, in order, exactly the rows of that level and metric whose NEUE is strictly above the ppm. |
| Selection.Criteria | ReEDS_Augur/stress_periods.py:464 | The criteria of the switch are its '/'-separated pieces: there is at least one, and joining them gives the switch back. |
| Selection.ParseCriterion | ReEDS_Augur/stress_periods.py:466 | A criterion parses exactly when it has four '_'-separated fields, otherwise ValueError. Writing the parsed criterion back gives the text. |
| Selection.ParseRender | ReEDS_Augur/stress_periods.py:466 | Writing a criterion out and parsing it gives the criterion back. |
| Selection.SelectNew | ReEDS_Augur/stress_periods.py:489-504 | The new periods lie in failed regions and are not already modelled. Each day appears once, the periods are sorted by decreasing metric, and no region gets more than the increment. |
| Selection.SelectCoversAll | ReEDS_Augur/stress_periods.py:489-504 | Every eligible day is either chosen or shut out by chosen days at least as bad. Either a chosen period of the same date is at least as large, or some region has a full quota whose values are all at least as large. |
| Shoulder.ParsePolicy | ReEDS_Augur/stress_periods.py:528 | The storage cutoff parses exactly when its lower-case form has two '_'-separated fields, otherwise ValueError. The parsed type and cutoff rebuild it. |
| Shoulder.PeriodHours | ReEDS_Augur/stress_periods.py:529 | The period length is known for 'day', 'wek' and 'year' only, otherwise KeyError. It is a whole number of days and equals 120 hours exactly for 'wek'. |
| Shoulder.EnergyByRegion | ReEDS_Augur/stress_periods.py:452-456 | Storage energy by region fails with IndexError when a unit name has no region part. Otherwise the regional table has every hour and the same hourly total as the units. |
| Shoulder.EnergyAtLevel | ReEDS_Augur/stress_periods.py:532-535 | Storage energy at a level fails with KeyError(level) on an unknown level. Otherwise it keeps every hour and the hourly total. |
| Shoulder.Headspace | ReEDS_Augur/stress_periods.py:536 | The headspace is never negative, and it is zero exactly at the hours where the storage level is at its maximum. |
| Shoulder.HeadspaceShareBounded | ReEDS_Augur/stress_periods.py:537 | When the maximum level is positive, the headspace fraction is finite and lies between 0 and 1. |
| Shoulder.BeforeIndex | ReEDS_Augur/stress_periods.py:552-553 | The hour one period before exists exactly when it does not fall off the start of the index by more than one turn (IndexError otherwise). Stepping forward one period from it returns to the hour. |
| Shoulder.AfterIndex | ReEDS_Augur/stress_periods.py:556-557 | The hour one period after is taken modulo the length of the time index. |
| Shoulder.BeforeAfter | ReEDS_Augur/stress_periods.py:552-557 | Going one period forward, then one period back, returns to the hour. |
| Shoulder.AfterBefore | ReEDS_Augur/stress_periods.py:552-557 | Going one period back, then one period forward, returns to the hour. |
| Shoulder.Wanted | ReEDS_Augur/stress_periods.py:559-574 | The shoulder test: 'eue' compares headspace over the day's EUE with the cutoff, and 'cap*' compares the headspace fraction. 'abs*' always adds the shoulder; any other type never does. |
| Shoulder.DayShoulders | ReEDS_Augur/stress_periods.py:539-579 | A day of a region without storage adds nothing, and a day missing from the index is a KeyError. Unless the metric text is exactly "EUE", the `row.EUE` read fails. Any shoulder added is labelled 'y%Yd%j' and lies next to the day. |
| Shoulder.StorageShoulders | ReEDS_Augur/stress_periods.py:539-579 | For one stress day with storage: the day before is an IndexError when it falls off the index. 'abs*' always adds both neighbours, and an unknown cutoff type adds neither. |
| Shoulder.AllShoulders | ReEDS_Augur/stress_periods.py:539-579 | At most two shoulders per stress day, each a labelled day of the index in a region with storage. Any shoulder at all needs the metric text "EUE". |
| Shoulder.AbsAddsBothShoulders | ReEDS_Augur/stress_periods.py:559-574 | Under 'abs*' and the "EUE" metric, exactly two shoulders are added per stress day whose region has storage. |
| Shoulder.Expand | ReEDS_Augur/stress_periods.py:513-579 | With the cutoff off, or no storage or no hours, no shoulders. A malformed cutoff is a ValueError. Any shoulder added needs the "EUE" metric. |
| StressIteration.PeriodRows | ReEDS_Augur/stress_periods.py:595-603 | The write-out rows exist exactly when every label's year and period index parse. There is one row per label, carrying the parsed year and index. |
| StressIteration.DayLabelRoundTrip | ReEDS_Augur/stress_periods.py:595-603 | Reading a 'y%Yd%j' label back in day mode gives the day's year and day of the year. |
| StressIteration.DayLabelsMakeRows | ReEDS_Augur/stress_periods.py:595-603 | Day labels always give write-out rows in day mode, and each row holds its day's year and day of the year. |
| StressIteration.WeekModeRejectsDayLabels | ReEDS_Augur/stress_periods.py:595-601 | In 'wek' mode a non-empty list of day labels gives a ValueError, because the year field keeps its 'd'. |
| StressIteration.OverThreshold | ReEDS_Augur/stress_periods.py:483-486 | The rows over a criterion's ppm: KeyError on an unknown level or metric. Otherwise, exactly the level's NEUE rows of that metric that lie strictly above the ppm. |
| StressIteration.Check | ReEDS_Augur/stress_periods.py:464-585 | Checking one criterion fails with ValueError unless it has four fields. A pass means every NEUE row of its level and metric is at most the ppm. A failure carries the over-threshold rows, the new days and their shoulders. |
| StressIteration.FirstFailure | ReEDS_Augur/stress_periods.py:464-585 | The criteria loop returns no failure exactly when every criterion passes. Otherwise it returns the outcome of the first criterion that does not pass, after all earlier ones passed. |
| StressIteration.NewPeriods | ReEDS_Augur/stress_periods.py:589-592 | The new periods hold every new stress day and every shoulder, with each label once, and nothing else. |
| StressIteration.Combine | ReEDS_Augur/stress_periods.py:614-617 | The combined periods hold each label once: exactly the current and the new ones, with the current ones first and in their order. |
| StressIteration.PrmUpdateModes | ReEDS_Augur/stress_periods.py:647-661 | Mode 0 writes an empty table. Mode 3 updates the PRM exactly when there are no new periods. Every other mode updates it. |
| StressIteration.Advance | ReEDS_Augur/stress_periods.py:589-661 | No failure means all criteria passed. With a failure, the written periods are the current ones combined with the rows of the new periods. The PRM action follows the mode and the number of new rows. |
| StressIteration.Iterate | ReEDS_Augur/stress_periods.py:464-661 | One iteration reports "all passed" only when every criterion of the switch passes. Otherwise the failure it reports is the first criterion that did not pass. |
| Plf.Slopes | ReEDS_Augur/stress_periods.py:358-362 | Segment i of the curve falls by one sample for every shortfall not yet covered: slope −(m − i)/n, always negative. |
| Plf.CurveEndsAtZero | ReEDS_Augur/stress_periods.py:375 | Once the surplus reaches the largest shortfall, no unserved energy is left, so the last y2 is 0. |
| Plf.DropsNonPositive | ReEDS_Augur/stress_periods.py:370 | Every segment's Dy is at most zero, the invariant the source asserts. |
| Plf.CurveFalls | ReEDS_Augur/stress_periods.py:353-375 | Every segment of the curve built with the corrected slopes has a nonzero slope. |
| Plf.Surplus | ReEDS_Augur/stress_periods.py:385-386 | The surplus computed on a segment is the point where that segment's line reaches the target. |
| Plf.Inversions | ReEDS_Augur/stress_periods.py:379-384 | The inversions are exactly the surpluses of the segments with y2 ≤ target ≤ y1. |
| Plf.InversionHitsTarget | ReEDS_Augur/stress_periods.py:379-391 | Every inversion is a non-negative surplus at which the expected unserved energy, averaged over the samples, equals the target. |
| Plf.InversionExists | ReEDS_Augur/stress_periods.py:379-391 | A target below the intercept always has an inversion. |
| Plf.ExcessPermutation | ReEDS_Augur/stress_periods.py:353-358 | The unserved energy after adding a surplus depends only on the shortfall totals, not on their order. |
| Plf.ExcessOfShort | ReEDS_Augur/stress_periods.py:353 | Samples with no positive shortfall add nothing at a non-negative surplus, so dropping them is harmless. |
| Plf.SlopesAsWritten | ReEDS_Augur/stress_periods.py:358-362 | The slopes as written: each sample's slope is minus its rank in the sorted order plus one, over n. |
| Plf.AsWrittenWithoutTies | ReEDS_Augur/stress_periods.py:358-362 | Without equal shortfall totals, the slopes as written are the corrected ones. |
| Plf.TiedShortfallsAsWritten | ReEDS_Augur/stress_periods.py:358-366 | With shortfalls [5, 5], 2 samples and target 1, the slopes as written invert to 6.5, where the unserved energy is 0. The corrected slopes give 4, which meets the target. |
| PrmUpdate.Lookup | ReEDS_Augur/stress_periods.py:267 | `failed[criterion]` finds the criterion's entry when it is present, otherwise KeyError(criterion). |
| PrmUpdate.CriterionRegions | ReEDS_Augur/stress_periods.py:262-272 | A malformed criterion is a ValueError, and a bad level gives that level's KeyError. At level 'r' the `reset_index` of line 266 is a ValueError ("cannot insert r, already exists"), because the identity map is a series named like its index. For a usable criterion the lookup succeeds exactly when the criterion failed. |
| PrmUpdate.Stringent | ReEDS_Augur/stress_periods.py:275-277 | One row per model region, taken from the input, covering every input region, with the lowest ppm of that region. |
| PrmUpdate.StringentKeepsLowest | ReEDS_Augur/stress_periods.py:275-277 | A region's kept ppm is at most the ppm of any of its input rows. |
| PrmUpdate.Collect | ReEDS_Augur/stress_periods.py:261-277 | The rows of several criteria succeed exactly when each criterion does, and otherwise carry one of their errors. The result has one row per region, each from one of the criteria. |
| PrmUpdate.FailedRegionsAsWritten | ReEDS_Augur/stress_periods.py:261-273 | The loop as written succeeds only when the lookup succeeds for every criterion of the switch. |
| PrmUpdate.AsWrittenNeedsEveryCriterion | ReEDS_Augur/stress_periods.py:261-273 | When the switch lists a usable criterion that did not fail, the loop as written raises KeyError. |
| PrmUpdate.FailedRegionsCorrected | ReEDS_Augur/stress_periods.py:261-277 | The corrected loop looks up only the failed criteria. It succeeds when they are usable, and every row is a model region of a failed entry. |
| PrmUpdate.CorrectedAgreesOnSingleCriterion | ReEDS_Augur/stress_periods.py:261-277 | When the switch holds the failed criterion alone, the corrected loop and the loop as written agree. |
| PrmUpdate.FixedIncrements | ReEDS_Augur/stress_periods.py:280-284 | A fixed increment applies when the switch value parses, otherwise ValueError. It gives every failed region that value. |
| PrmUpdate.ClippedSum | ReEDS_Augur/stress_periods.py:307-310 | A sample's clipped shortfall is never negative, and it is positive exactly when some hour is short. |
| PrmUpdate.SampleTotal | ReEDS_Augur/stress_periods.py:307-310 | A region's sample total is never negative, and it is positive exactly when one of its columns has a positive clipped shortfall. |
| PrmUpdate.Shortfalls | ReEDS_Augur/stress_periods.py:353-357 | The curve's input holds the positive sample totals of the region, ascending, as a permutation. |
| PrmUpdate.IncrementMeetsTarget | ReEDS_Augur/stress_periods.py:342-391 | The surplus behind every increment is non-negative, and brings the expected shortfall exactly to the target: ppm/1e6 of the region's annual load. |
| PrmUpdate.SampledIncrements | ReEDS_Augur/stress_periods.py:287-392 | No samples is a ValueError, and samples without any shortfall are an AssertionError. Otherwise every increment is the inversion's surplus over the stress load, and every increment of every failed region is in the result. |
| PrmUpdate.Increments | ReEDS_Augur/stress_periods.py:279-392 | Mode 1 takes the fixed increment, and every other mode the sample-informed one. |
| PrmUpdate.Previous | ReEDS_Augur/stress_periods.py:248-258 | The previous margins fail with KeyError("nercr") without that column. They hold one row per (region, year) and keep the last iteration's rows where it wrote one. |
| PrmUpdate.Joined | ReEDS_Augur/stress_periods.py:395 | The join has exactly one row for each increment and each previous margin of the same region. |
| PrmUpdate.NewMargins | ReEDS_Augur/stress_periods.py:395-409 | The new margins are sorted by region, and are exactly the joined rows whose rounded new margin is positive and more than 0.001 above the previous one. |
| PrmUpdate.RaisedByTwoSteps | ReEDS_Augur/stress_periods.py:396-400 | When the previous margin is on the 0.001 grid, a written margin is positive and at least 0.002 above it. |
| PrmUpdate.SmallIncrementDropped | ReEDS_Augur/stress_periods.py:396-400 | An increment that rounds away leaves the margin where it was, and the region is dropped. |
| PrmUpdate.NonFiniteIncrements | ReEDS_Augur/stress_periods.py:388-400 | An infinite increment from a zero stress load writes an infinite margin. NaN and −∞ are dropped. |
| PrmUpdate.RaisedMargins | ReEDS_Augur/stress_periods.py:229-409 | It succeeds exactly when "nercr" is a column, the failed regions are found and their increments computed; missing "nercr" is a KeyError. A success is sorted by region, and holds exactly the margins raised from the previous margins by the increments (`RaisedFrom`), so only regions of the failed-region rows are written. |
| PrmUpdate.Update | ReEDS_Augur/stress_periods.py:229-409 | The PRM update with the corrected failed-region loop: KeyError("nercr") when that column is missing. It succeeds exactly when the corrected loop and the increments succeed; a success is sorted by region and holds exactly the margins raised by the increments of regions that failed some criterion. |
| PrmUpdate.UpdateAsWritten | ReEDS_Augur/stress_periods.py:229-409 | The update as written: KeyError("nercr") when that column is missing. It succeeds exactly when the as-written loop (a lookup for every criterion of the switch) and the increments succeed; a success holds exactly the margins raised by those increments, sorted by region. |
| PrmUpdate.UpdateAgreesOnSingleCriterion | ReEDS_Augur/stress_periods.py:261-273 | With a switch of one failed criterion, the update as written and the corrected update agree. |
| PrmUpdate.UpdateAsWrittenFails | ReEDS_Augur/stress_periods.py:261-273 | With two criteria of which only the first failed, the update as written raises KeyError. |
| HourlyLoad.Historical | input_processing/hourly_load.py:43-62 | A state's historical load for a year is found exactly when the annual table has that (state, year) row, and then it is that row's load. |
| HourlyLoad.Scale | input_processing/hourly_load.py:64-102 | The scaled profile keeps the table's shape. In every weather year, each state's total equals its historical annual load for the model year. |
| HourlyLoad.RescaleKeepsShares | input_processing/hourly_load.py:88-100 | Scaling keeps each hour's share of its weather-year total. |
| HourlyLoad.Interpolate | input_processing/hourly_load.py:104-154 | One block is produced for every model year from the first known year through endyear. No input is a TypeError and an endyear before the first year is a ValueError. With fewer than two known years up to endyear the loop never binds its section start, which is an UnboundLocalError. Otherwise each year's block is the line through its section's two known blocks. |
| HourlyLoad.InterpolateKeepsYear | input_processing/hourly_load.py:119-135 | A model year present in the input is reproduced unchanged. |
| HourlyLoad.BetweenKnownYears | input_processing/hourly_load.py:128-152 | A year strictly inside the known range lies, hour by hour and column by column, between the values of its section's two known years. |
| HourlyLoad.Section | input_processing/hourly_load.py:128-135 | A year before the last known year falls in the section of the two consecutive known years around it. From the last known year on, the loop never breaks, so the last two known years are reused. |
| HourlyLoad.ExpectedIs | input_processing/hourly_load.py:138-152 | The block expected for a year is the straight line through its section's two known blocks, evaluated at that year. |
| HourlyLoad.LerpAtStart | input_processing/hourly_load.py:140-152 | The line through two blocks gives the first block at the first year. |
| HourlyLoad.LerpAtEnd | input_processing/hourly_load.py:140-152 | The line through two blocks gives the second block at the second year. |
| HourlyLoad.Calibrate | input_processing/hourly_load.py:156-269 | No input is a TypeError, and a last historical year missing from the projections is a KeyError. On success the input was non-empty. |
| HourlyLoad.CalibrateCalibrated | input_processing/hourly_load.py:183-265 | Up to the last historical year, each block matches the historical annual loads. Later blocks are scaled by (projected + gap)/projected. |
| HourlyLoad.CalibrationGapClosed | input_processing/hourly_load.py:220-265 | In the last historical year, every weather-year total of the calibrated block equals the historical annual load, so the gap measured there is zero. |
| HourlyLoad.CalibrateYears | input_processing/hourly_load.py:156-269 | The calibrated load has exactly the model years of the input, in increasing order. |
| HourlyLoad.CalibrateMissing | input_processing/hourly_load.py:236-265 | A gap in the model years after the last historical year raises KeyError for the first missing year. |
| HourlyLoad.Prepend | input_processing/hourly_load.py:271-319 | No input is a TypeError. It fails with ValueError exactly when no historical year precedes the first projected year. Otherwise the projected blocks are kept unchanged as the suffix, preceded by one scaled historical block for each year from the first historical year up to the first projected year. |
| HourlyLoad.PrependBefore | input_processing/hourly_load.py:271-319 | Every prepended year comes before every projected year. |
| LoadReshape.DownselectModelYears | input_processing/hourly_load.py:403-426 | The kept blocks are, in order, exactly the input blocks whose model year is listed. |
| LoadReshape.DownselectModelYearsIdempotent | input_processing/hourly_load.py:403-426 | Selecting the same model years twice keeps the same blocks. |
| LoadReshape.DownselectWeatherYears | input_processing/hourly_load.py:428-452 | Each model year keeps exactly the hours whose weather year is listed, with every column. |
| LoadReshape.DownselectWeatherTotal | input_processing/hourly_load.py:428-452 | A kept weather year's total is unchanged by the downselection. |
| LoadReshape.DuplicateWeatherYears | input_processing/hourly_load.py:454-488 | A time stamp listed twice is `unstack`'s ValueError; otherwise anything but 8760 hours is a ValueError, and an empty weather-year list is a ValueError. A success holds every model year once, model years strictly ascending, each on the weather years' time index with the input's columns. |
| LoadReshape.DuplicateBlocks | input_processing/hourly_load.py:468-479 | Hour h of copy b of every column of an output model year is that model year's input value at the h-th earliest time stamp. |
| LoadReshape.DuplicateInOrder | input_processing/hourly_load.py:468-479 | On input already in time order with model years ascending, output model year i is input model year i, and hour h of copy b is its hour h. |
| LoadReshape.TimeOrder | input_processing/hourly_load.py:468 | The row order of `unstack`: a permutation of the row numbers under which the time stamps never go back in time. |
| LoadReshape.TimeOrderChronological | input_processing/hourly_load.py:468 | A time index already in order keeps every row where it is. |
| LoadReshape.LoadAdjustSuffixes | input_processing/hourly_load.py:512-519 | The profile and adoption switches must have as many '__' pieces as each other (SystemExit otherwise). The pieces rebuild both switches. |
| LoadReshape.DistLoss | input_processing/hourly_load.py:601-617 | At distloss = 1 the division is by zero (`OverZero`: every value becomes an infinity, or NaN for 0). Otherwise every value times 1 − distloss is the input value, keeping the model years, time index and columns. |
| LoadReshape.DistLossCells | input_processing/hourly_load.py:617 | Every cell of the result is the float quotient of the input value by 1 − distloss, including the infinities and NaN at distloss = 1. |
| LoadReshape.DistLossTotal | input_processing/hourly_load.py:617 | The gross-up scales every weather-year total by 1/(1 − distloss). |
| PeakLoad.Peak | input_processing/hourly_load.py:619-648 | No load gives no peaks, and every peak row has one peak per model year: the level rows first, then the model regions unless a level is itself named 'r'. |
| PeakLoad.LevelPeakIsGroupPeak | input_processing/hourly_load.py:634-646 | A level's peak for a group and year is the rounded maximum, over the hours, of the summed load of the regions mapped to that group. |
| PeakLoad.RegionPeakBounds | input_processing/hourly_load.py:644-646 | A region's rounded peak is within half a thousandth above every hour of its load, and within half a thousandth of some hour. |
| PeakLoad.PeakCovers | input_processing/hourly_load.py:634-646 | Every group of every level has a peak row. |
| PeakLoad.RegionCovered | input_processing/hourly_load.py:644-646 | Every model region has a peak row at level 'r'. |
| PeakLoad.PeakRowOrigin | input_processing/hourly_load.py:634-646 | Every peak row comes from a listed level or is a model region at level 'r'. |
| RegionalLoad.PivotOf | input_processing/hourly_load.py:675-682 | The share matrix has one row per state and one column per region. Each cell is the state's share in that region, 0 where no row gives one. |
| RegionalLoad.StatesRegionsIn | input_processing/hourly_load.py:675-682 | The pivot's states and regions are exactly those of the allocation rows. |
| RegionalLoad.ZeroRegionsIff | input_processing/hourly_load.py:685-695 | The error names exactly the regions whose share column sums to zero. |
| RegionalLoad.MinIsZeroIff | input_processing/hourly_load.py:687 | The smallest column sum is zero exactly when some region's column sums to zero. |
| RegionalLoad.Reaggregate | input_processing/hourly_load.py:650-703 | A region no state feeds is a ValueError listing every such region. A state with no load column is a KeyError. Otherwise there is one column per region on the same hours. |
| RegionalLoad.ReaggregateAt | input_processing/hourly_load.py:698-701 | Every hour of every region is the sum over states of the state's load times its share in the region: the matrix product. |
| RegionalLoad.ReaggregateConserves | input_processing/hourly_load.py:698-701 | When every state's shares sum to one, each hour's regional total equals its state total. |
| EerLoad.StateCodeMap | hourlize/load.py:36-40 | The state table has distinct keys, and maps 'district of columbia' to "MD". |
| EerLoad.StateCodeKeys | hourlize/load.py:36-40 | A name is in the table exactly when it is the lower-cased name of some row, or 'district of columbia'. |
| EerLoad.StateCodeOfLastRow | hourlize/load.py:36-40 | Every other state maps to the upper-cased code of its last row. |
| EerLoad.StateCodeValues | hourlize/load.py:36-40 | Every code in the table is an upper-cased input code or "MD". |
| EerLoad.TzOffset | hourlize/load.py:64-65 | A zone gives an offset exactly when what is left after removing "Etc/GMT" is an integer. The offset is minus that integer. |
| EerLoad.TzOffsetOfZone | hourlize/load.py:64-65 | "Etc/GMT+N" is N hours west of UTC, and "Etc/GMT-N" is N hours east. |
| EerLoad.ZoneShift | hourlize/load.py:64-67 | The shift is the output offset minus the input offset, and fails with the first zone's parse error. |
| EerLoad.ZoneShiftSwap | hourlize/load.py:64-67 | Swapping the zones negates the shift. |
| EerLoad.Roll | hourlize/load.py:70 | `np.roll`: element i moves to position (i + shift) mod n. |
| EerLoad.RollPermutes | hourlize/load.py:70 | A roll only reorders its input. |
| EerLoad.RollInverse | hourlize/load.py:70 | Rolling back by the same amount restores the input. |
| EerLoad.RollHourlyData | hourlize/load.py:44-72 | Succeeds exactly when both zones parse. It rolls the rows by the zone shift, so the rows are only permuted. Equal offsets leave them unchanged. |
| EerLoad.RollHourlyDataBack | hourlize/load.py:44-72 | Converting back to the input zone restores the rows. |
| EerLoad.RollKeepsHours | hourlize/load.py:44-72 | Every rolled row is a row of the input. |
| EerLoad.RollShiftLost | hourlize/load.py:314-325 | From UTC-5 to UTC-6, two rows of one year come back swapped together with their timestamps, so each timestamp keeps its value. The intended shift moves the second hour's value onto the first timestamp. |
| EerLoad.ShiftHours | hourlize/load.py:314-325 | The intended shift keeps every timestamp in place and rolls the values under them. |
| EerLoad.ShiftHoursMoves | hourlize/load.py:314-325 | A value lands shift hours later, wrapping around the year, under the timestamp already there. |
| EerLoad.ShiftHoursInverse | hourlize/load.py:314-325 | Shifting back by the same amount restores the table. |
| EerLoad.RemoveSectoralLoad | hourlize/load.py:74-114 | With a sector mapping: a replaced state that is not a column is a KeyError, and a model year without a share is a KeyError. Otherwise the table keeps its states and rows. |
| EerLoad.RemoveSectoralLoadCell | hourlize/load.py:105-113 | A cell is scaled by 1 − share exactly when its row's sector and subsector are mapped and its column is a replaced state. Every other cell is unchanged. |
| EerLoad.ReplaceStates | hourlize/load.py:277-280 | A listed choice is used as given. 'all' means the mapped names that are columns of the table. |
| EerLoad.RemoveSectors | hourlize/load.py:285-303 | A sector missing from the configuration is a NotImplementedError. On success every sector is configured, and the table keeps its states and rows. |
| EerLoad.RemoveSectorsOffYear | hourlize/load.py:285-303 | Outside every listed sector's model years, nothing is removed. |
| EerLoad.RemoveSectorsFailsOnUnknown | hourlize/load.py:285-303 | The first unknown sector stops the loop with its NotImplementedError. |
| EerLoad.KeptCodes | hourlize/load.py:330-332 | The output columns are distinct codes. |
| EerLoad.KeptCodesIff | hourlize/load.py:330-332 | A code gets a column exactly when some column other than Alaska's and Hawaii's folds into it. |
| EerLoad.FirstHoursPerYear | hourlize/load.py:336-338 | Each weather year keeps its first 8760 hours, in order. |
| EerLoad.FoldStates | hourlize/load.py:330-341 | Dropping AK and HI is a KeyError naming whichever is not a column. Otherwise there is one column per kept code. |
| EerLoad.FoldStatesValue | hourlize/load.py:330-341 | Each value is the rounded sum, at a kept hour, of the columns that fold into its code. |
| EerLoad.ScenarioPrefix | hourlize/load.py:429-447 | Only 'IRA cons', 'central' and 'baseline' have a file prefix. Any other scenario is a NotImplementedError. |
| EerLoad.OutputFiles | hourlize/load.py:429-450 | The files exist exactly when every scenario is valid. There is one `<prefix>_load_hourly.h5` per scenario. |
| EerLoad.OutputFilesFirstInvalid | hourlize/load.py:429-450 | The run stops at the first invalid scenario, with its error. |
| Recf.Clipped | input_processing/recf.py:49 | The clipped field output is never negative, and positive exactly when the field output is above 1. |
| Recf.HourFacts | input_processing/recf.py:64-93 | In one hour the level stays within the storage. A clipping hour dispatches nothing from storage, and any other hour dispatches the lesser of headspace and stored energy. Dispatch plus next level never exceeds stored plus clipped. |
| Recf.HourCapacity | input_processing/recf.py:53-99 | Direct plus storage dispatch never exceeds the plant's capacity. |
| Recf.ReferenceRules | input_processing/recf.py:59-93 | Storage starts empty and never leaves [0, duration]. A clipping hour dispatches nothing from storage, and any other hour dispatches min(1 − field, level). |
| Recf.StorageBound | input_processing/recf.py:64-93 | Everything dispatched from storage plus what is left at the end is at most the clipped energy. |
| Recf.CspDispatch | input_processing/recf.py:34-101 | Total dispatch is min(field, 1) plus that hour's storage dispatch from the storage rules, and it never exceeds 1. |
| Recf.ToNumeric | input_processing/recf.py:162-163 | An end of a range converts exactly when it is integer text, to that integer. |
| Recf.Numbered | input_processing/recf.py:169-170 | `prefix_c` for every c from low to high inclusive, in order. |
| Recf.ExpandAll | input_processing/recf.py:157-170 | Expanding the ranges succeeds exactly when each range does. |
| Recf.TechSubset | input_processing/recf.py:150-173 | The subset is the lower-cased plain entries, followed by the expansions of the range entries. It fails when a range end is not an integer. |
| Recf.TechSubsetMembers | input_processing/recf.py:150-173 | A name is in the subset exactly when it is a plain entry, or in the range of some range entry. |
| Recf.ResourceOf | input_processing/recf.py:185-187 | A name with a '\|' splits at the last one into tech and area, and rebuilds. Without one it is an IndexError. |
| Recf.ResourceOfGlue | input_processing/recf.py:257-259 | A tech and an area without '\|' joined by '\|' split back into that tech and area. |
| Recf.ResourceTable | input_processing/recf.py:256-264 | The table exists exactly when every onshore and added name has a '\|'. It is sorted by resource name, with one row per name. |
| Recf.ResourceTableNames | input_processing/recf.py:256-264 | A row is in the table exactly when its name is an onshore or added column and the row is that name's split. |
| Recf.OffshoreTechs | input_processing/recf.py:270 | The offshore technologies are wind-ofs_1 through wind-ofs_15. |
| Recf.DropOffshore | input_processing/recf.py:269-271 | The filtered table is a subsequence of the input, and unchanged when the switch is on. |
| Recf.DropOffshoreMembers | input_processing/recf.py:269-271 | A row is kept exactly when it is in the input and not (switch off and tech is wind-ofs_n, n in 1..15). |
| RunStatus.MultiRun | runstatus.py:19-21 | A recognised multi-run name is its head, '(', its constituents joined by ',', and ')'. |
| RunStatus.MultiRunOfShape | runstatus.py:19-21 | A word head ending in '_' with two or more word constituents is recognised, with exactly those parts. |
| RunStatus.ExpandRunOfShape | runstatus.py:19-22 | `foo_(bar,baz)` stands for foo_bar and foo_baz, in that order. |
| RunStatus.SingleConstituentKept | runstatus.py:19-25 | `name_(a)` does not match the pattern and is kept verbatim. |
| RunStatus.ParseMultipleRuns | runstatus.py:15-26 | The expanded job names are sorted and are a permutation of every job name's expansion. |
| RunStatus.ParseMultipleRunsCount | runstatus.py:15-26 | The result has one name per constituent of a matching job, and one per other job. |
| RunStatus.ParseMultipleRunsMembers | runstatus.py:15-26 | A name is in the result exactly when some job name stands for it. |
| RunStatus.BatchName | runstatus.py:42-45 | A given batch name is kept. Without one, an empty queue is an IndexError. |
| RunStatus.BatchNameOfGreatest | runstatus.py:42-45 | Without a batch name, it is the text before the first '_' of the greatest job name. |
| RunStatus.Partition | runstatus.py:48-73 | There are no more finished and failed runs than run folders, and every running run is an existing folder. |
| RunStatus.PartitionFinished | runstatus.py:50-53 | A run is finished exactly when it is a run folder with a report. |
| RunStatus.PartitionFailed | runstatus.py:55-64 | A run failed exactly when it is a run folder without a report that is not in the queue. |
| RunStatus.PartitionRunning | runstatus.py:58-73 | A run is running exactly when it is queued, is not finished, and its folder exists. |
| RunStatus.PartitionCovers | runstatus.py:50-64 | Finished runs are neither failed nor running, and every run folder is finished, failed or queued. |
| RunStatus.Status | runstatus.py:36-75 | The status fails exactly when there is neither a batch name nor a queued job. |
| RunStatus.StatusRuns | runstatus.py:36-75 | A run is finished exactly when it is a folder of the batch with a report. It failed exactly when it is one without a report and not among the queued runs of the batch. |
| RunStatus.JobNames | runstatus.py:40 | Each queued job name with its extension removed. |
| RunStatus.LstStepReport | runstatus.py:117-120 | The step is 'e_report.gms' exactly when some lst file starts with 'report'. |
| RunStatus.LstStepNoInputs | runstatus.py:121-135 | Without any lst file, the run failed in input processing. |
| RunStatus.StepFilesMembers | runstatus.py:122-129 | With more than one lst file, environment.csv and mcs_group_weights.csv are ignored, and every other file is kept. |
| RunStatus.LstStepLatest | runstatus.py:121-145 | Otherwise the step is read from the greatest remaining file. |
| RunStatus.StepOfTagged | runstatus.py:145 | The step of `stem_tag.ext` is tag: the text after the last '_' of the name without extension. |
| RunStatus.StalledByLine | runstatus.py:150-158 | The stall message on one of the last five log lines gives the warning. |
| RunStatus.StalledOnLine | runstatus.py:150-158 | Conversely, on lines as `readlines` returns them (each but the last ending in a newline), the warning means the stall message is on one of the last five lines. |
| RunStatus.StalledIgnoresOlder | runstatus.py:150-158 | Lines before the last five never decide the warning. |
| RunStatus.FailureReason | runstatus.py:169-182 | The reason is empty exactly when the log shows no time-out, no dual objective limit and no infeasibility. |
| RunStatus.FailureReasonPriority | runstatus.py:173-182 | The dual-limit reason applies exactly when there is no time-out and that message appears. Infeasible applies exactly when neither earlier reason applies and its message appears. |
| RunStatus.TimedOutPersists | runstatus.py:173-174 | A log with both time-out messages reports a time-out whatever else it holds. |
| RunStatus.FailureReportLatest | runstatus.py:169-171 | The reason read is that of a slurm log whose name no other log exceeds. |
| Seqs.DedupBy | ReEDS_Augur/stress_periods.py:181 | `drop_duplicates(keep='first')`: a subsequence with unique keys and the same set of keys, holding the first row of every key. |
| Seqs.DedupByIdempotent | ReEDS_Augur/stress_periods.py:181 | De-duplicating twice changes nothing more. |
| Seqs.HeadPerGroup | ReEDS_Augur/stress_periods.py:503 | `groupby('r').head(n)`: a subsequence in which each group keeps exactly its first n rows, or all of them. |
| Seqs.HeadPerGroupQuota | ReEDS_Augur/stress_periods.py:503 | No group keeps more than n rows. |
| Seqs.HeadPerGroupDropped | ReEDS_Augur/stress_periods.py:503 | In a table sorted by decreasing value, a dropped row's group already keeps n rows, all at least as large. |
| Seqs.SortDesc | ReEDS_Augur/stress_periods.py:179 | `sort_values(ascending=False)`: sorted by decreasing value, and a permutation of the input. |
| Rounding.Round3 | input_processing/hourly_load.py:646 | Rounding to three decimals moves the value by at most half a thousandth and lands on a multiple of 0.001. |
| Rounding.Round3Idempotent | input_processing/hourly_load.py:646 | Rounding a rounded value changes nothing. |
| Rounding.Round3Monotone | ReEDS_Augur/stress_periods.py:399 | Rounding never reverses the order of two values. |
| Text.Split | ReEDS_Augur/stress_periods.py:466 | `str.split(sep)`: at least one piece, and no piece contains the separator. |
| Text.JoinSplit | ReEDS_Augur/stress_periods.py:464 | Joining the pieces of a split with the separator gives the text back. |
| Text.SplitJoin | ReEDS_Augur/stress_periods.py:466 | Splitting the join of separator-free pieces gives those pieces back. |
| Text.SplitLast | input_processing/recf.py:186 | `rsplit(sep, 1)`: at most two pieces, and the last holds no separator. |
| Text.SplitLastGlue | input_processing/recf.py:186 | Splitting `a + sep + b`, with no separator in b, gives a and b back. |
| Text.ParseDecimal | ReEDS_Augur/stress_periods.py:485 | `float(ppm)` on unsigned decimal text: the value read is never negative. |
| Text.ParseDecimalNat | ReEDS_Augur/stress_periods.py:485 | The digits of a natural number read back as that number. |
| Text.NatToStringRoundTrip | ReEDS_Augur/stress_periods.py:597 | Reading the digits of a written natural number back gives the number. |
| Floats.Div | ReEDS_Augur/stress_periods.py:390 | numpy division: finite exactly when the divisor is nonzero, and then times the divisor it gives the dividend. NaN exactly for 0/0. |
| Frames.RollUp | ReEDS_Augur/stress_periods.py:132-136 | Renaming the columns and summing the columns that share a name gives one column per new name, in first-appearance order. Each hour holds the sum of that group. |
| Frames.RollUpConservesTotal | ReEDS_Augur/stress_periods.py:132-136 | Rolling up keeps every hour's total over the columns. |
| Order.SortBy | runstatus.py:26 | `sorted`: sorted by the key in Python's string order, and a permutation of the input. |
| Calendar.DayOfYear | ReEDS_Augur/stress_periods.py:565 | `%j`: the day of the year, from 1 to 366. |
| Calendar.DayOfYearInjective | ReEDS_Augur/stress_periods.py:565 | Two dates of one year with the same day of the year are the same date. |

## Left out

- EerLoad.KeptCodes: the output columns follow the first appearance of each code, not pandas' sorted group order (`groupby` of hourlize/load.py:332). The set of columns and their values are modelled, their order is not.
- RegionalLoad.PivotOf: states and regions follow their first appearance in the allocation rows, not the sorted labels of `pivot` (input_processing/hourly_load.py:679).
- PeakLoad.Peak: rows follow the order of the levels and of first appearance, not the sorted keys of the `groupby`/`concat` (input_processing/hourly_load.py:619-648).
- Frames.RollUp: rolled-up columns follow the first appearance of each new name, not the sorted labels of `groupby(axis=1, level=0)`.
- Order.SortBy and Seqs.SortDesc: both are stable sorts. pandas' single-key `sort_values` uses quicksort, which may order equal keys differently.
- Text.ParseDecimal: only unsigned plain decimals ("12", "0.5") are read. "-1.5", "1e-3", "inf" and " 2 ", which Python's `float` accepts, are rejected as unparseable.
- Text.Lower: only ASCII letters are lower-cased. Python's `str.lower`, which `EerLoad.StateCodeMap` applies to state names, also maps other Unicode letters.
- Text.Upper: only ASCII letters are upper-cased. Python's `str.upper`, which `EerLoad.StateCodeMap` applies to state codes, also maps other Unicode letters.
- Text.ParseInt: only an optional sign followed by ASCII digits is read. Python's `int`, which `EerLoad.TzOffset` stands for, also accepts surrounding whitespace, '_' between digits and Unicode digits.
- StressMetric.ParseAgg: under EUE, an aggregation other than 'sum' or 'max' is a ValueError. pandas would accept other reducer names such as 'mean'. Under NEUE the source leaves the table unbound (an UnboundLocalError), which the model reports as an error too.
- StressMetric.StressPeriods: under NEUE, a load whose length fits the time index must have the EUE table's regions and positive values (`StressInputs`). With other regions, pandas aligns the two tables into NaN columns that `dropna` (line 180) removes. A zero-load hour becomes an infinity or NaN in numpy. Neither is modelled. A load table with no columns is taken to fit any index.
- Neue.AnnualNeue: every load value must be positive, for the same reason.
- Neue.LevelNeue: requires at least one hour, the same regions in the EUE and load tables, load of the index's length, and positive load values (`NeueInputs`). The source would raise the length-mismatch ValueError of line 205, align differing regions into NaN columns, and produce infinities or NaN for zero load or an empty year.
- Neue.NeueTable: takes the same `NeueInputs` requirement as LevelNeue, for the same reasons.
- PrmUpdate.Update: uses the corrected failed-region loop and the corrected `Plf.Slopes`. The code as written is modelled by `PrmUpdate.UpdateAsWritten` and `Plf.SlopesAsWritten` (see Findings).
- PrmUpdate.RegionIncrements: inverts the curve built with the corrected `Plf.Slopes`, not the tie-order slopes of lines 358-362.
- HourlyLoad.Interpolate: requires every model year's table to have the same hours and columns (`Uniform`). pandas would align differently shaped tables and fill NaN.
- HourlyLoad.Scale: requires every weather-year total to be nonzero (`Divisible`) and the historical load for every state to be present (`Covers`). pandas would produce infinities or NaN instead. The output keeps exactly the hourly table's columns. pandas aligns on the union of the hourly table's columns and the annual table's states, so every state of the annual year missing from the hourly table (such as AK or HI) would add an all-NaN column; that column is not modelled.
- HourlyLoad.ScaledYears: takes the same `Divisible`/`Covers` requirements as Scale. The output keeps exactly the hourly table's columns. pandas aligns on the union of the hourly table's columns and the annual table's states, so every state of the annual year missing from the hourly table (such as AK or HI) would add an all-NaN column; that column is not modelled.
- HourlyLoad.Calibrate: requires every model year's weather-year totals to be nonzero (`Divisible`) and the historical load of every state to be present for the years up to the last historical one (`Covers`), through `Calibratable`. pandas would produce infinities or NaN instead. The output keeps exactly the hourly table's columns. pandas aligns on the union of the hourly table's columns and the annual table's states, so every state of the annual year missing from the hourly table (such as AK or HI) would add, through `.div`, `.mul` and `.sub` at input_processing/hourly_load.py:198-235, an all-NaN column; that column is not modelled.
- HourlyLoad.Prepend: requires the historical profile's weather-year totals to be nonzero (`Divisible`) and the historical load of every state to be present for each prepended year (`Covers`), through `Prependable`. pandas would produce infinities or NaN instead. The output keeps the projected table's columns. The scaling's alignment with the annual states, and the `pd.concat` of historical and projected tables at input_processing/hourly_load.py:309-317, would instead give the union of their columns, with NaN where a table lacks a state; that is not modelled.
- LoadReshape.DuplicateWeatherYears: requires every model year on the same time index and columns (`Uniform`). pandas would align differing time indexes into NaN rows of the wide table. The column order after `stack` is taken to be the input's.
- PrmUpdate.CriterionRegions: takes the hierarchy's index to be named 'r', as the model region column is. With an unnamed index the `reset_index` of line 266 would fail with KeyError('r') instead of the ValueError.
- Selection.SelectNew: the increment `GSw_PRM_StressIncrement` is a natural number. The negative `head(-n)` of pandas is not modelled.
- Recf.ToNumeric: only integer text is converted. `pd.to_numeric` would also accept floats, which then fail in `range`.
- RunStatus.MultiRun: `\w` is read as ASCII letters, digits and '_' only. Python's `re` also accepts Unicode word characters.
- RunStatus.BatchRuns: `glob` hides names starting with '.', which is not modelled. A run folder is `root/runs/name`, without a trailing '/'.
- RunStatus.Status: the `squeue` call, the file-existence tests, modification times and the printing are inputs or left out. `print_log_if_verbose` is left out.
- StressIteration.Iterate: the PRAS arrays, the time index, `timestamp2h`/`h2timestamp` and `hourly_writetimeseries.main` are inputs. File reads and writes, the top-level try/except wrapper and the plotting of lines 680-705 are left out. It takes the same `WellFormed` requirement as Check: load of the index's length, equal regions and positive load for every criterion, EUE ones included.
- StressIteration.Check: requires `WellFormed`, which asks for load of the index's length, the EUE table's regions and positive load values for every criterion. It asks this even under EUE, where `StressPeriods` does not read the load. The NEUE length-mismatch ValueError is therefore not reachable through Check.
- StressIteration.FirstFailure: takes the same `WellFormed` requirement as Check.
- `get_and_write_neue` (ReEDS_Augur/stress_periods.py:27-62): reporting only, reads and writes files.
- `get_pras_eue` (ReEDS_Augur/stress_periods.py:79-100): the EUE table is an input.
- `apply_regional_load_adjustments` (input_processing/hourly_load.py:490-599): only the count check of its two switches is modelled (`LoadReshape.LoadAdjustSuffixes`). The rest reads files.
- `apply_load_growth_factors_to_historical_state_load` (input_processing/hourly_load.py:321-401): not part of this model. It reads growth-factor files.
- `get_sectoral_replacement_load` and `aggregate_legacy_bas_to_states` (hourlize/load.py:116-215): file reads. Their tables feed the addition of exogenous sectoral load, which is left out below.
- Sum over sectors (hourlize/load.py:305-310): the `groupby('weather_datetime').sum()` that totals the sectors into one state-level table is not modelled. `EerLoad.RollHourlyData` and `EerLoad.FoldStates` take the summed state-level table as an input.
- Exogenous sectoral load (hourlize/load.py:344-368): adding the replacement load to each weather year is not modelled. It depends on the file reads above.
- `input_processing/h2_storage.py`: geometric operations on shapes, not part of this model.
- Float specifics: float16/float32 casts, IEEE rounding and `astype(int)` are not modelled. Values are exact reals, and `round(0)` is `Rounding.RoundHalfEven`.
- Concurrency: none in these files.

## Findings

| source | as written | input that shows it | evidently intended | confidence | as-written member | corrected member |
|---|---|---|---|---|---|---|
| ReEDS_Augur/stress_periods.py:358-366 | Samples are sorted by shortfall, and the slope of each is minus its rank over n. The two stable sorts keep equal shortfalls in the reverse of the order the segments need, so the slopes of tied samples are swapped. | Shortfalls [5, 5], 2 samples, target 1: the curve as written inverts to a surplus of 6.5, where no energy is left unserved. | The slope of segment i is −(m − i)/n, so the inversion meets the target: surplus 4 gives unserved energy 1. | medium, not executed | Plf.SlopesAsWritten, Plf.TiedShortfallsAsWritten | Plf.Slopes, Plf.InversionHitsTarget |
| ReEDS_Augur/stress_periods.py:261-273 | `update_prm` reads `failed[criterion]` for every criterion of `GSw_PRM_StressThreshold`. `main` records only the first failing criterion and stops. | A switch `a/b` of two usable criteria where `a` fails: the lookup of `b` raises KeyError. | Look up only the criteria that failed, i.e. iterate over `failed`. | high, not executed | PrmUpdate.AsWrittenNeedsEveryCriterion, PrmUpdate.UpdateAsWrittenFails | PrmUpdate.FailedRegionsCorrected, PrmUpdate.Update |
| hourlize/load.py:314-325 | `roll_hourly_data` runs on each year's group with its 'datetime' column, so the timestamps roll with the values. `tz_localize` then relabels the rows without any shift. | Two hours of 2012 from UTC-5 to UTC-6: each timestamp keeps its own value, in swapped rows. | Keep the timestamps in place and move the values by the zone shift. | medium, not executed | EerLoad.RollHourlyData, EerLoad.RollShiftLost | EerLoad.ShiftHours, EerLoad.ShiftHoursMoves |
