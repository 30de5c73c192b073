# EMME_ROCH core in Dafny

This project models the data-preparation core of EMME_ROCH: the tools that collect
ERA5-Land climate data month by month and turn it into NUTS-region averages.
Four pieces are modelled:

- **Area weighting** (`geometries.dfy`, module `Geometries`).
  - the NUTS table filter of `readNuts`;
  - the square cell of `make_polygon`;
  - the longitude-major enumeration of grid points and the sequential region loop of `getNutsClimAll`;
  - the per-region pipeline of `getNutsclim`: keep the intersecting cells, coverage = intersection area / cell area, left join on rounded (lon, lat), `dropna`, renormalise over the distinct (lon, lat, cover) triples, weight every variable, sum per time step, tag with the region's NUTS_ID.
  - Sums are over exact reals (`sums.dfy`, module `Sums`).
- **Monthly-file inventory** (`climate_temporal.dfy`, module `ClimateTemporal`).
  - the file-name parser `parse_name`;
  - the per-year month-gap report `checkYears`;
  - the first-seen variable-list scan `checkVariables`;
  - the file-name, Monday-alignment and time-step arithmetic of `weekly_cdo`.
- **Week code to Monday** (`eurostat.dfy`, module `Eurostat`).
  - `weekToDate`, which calls `strptime(code + "-1", "%YW%W-%w")`;
  - the model follows the C/POSIX `%W` week convention, not ISO 8601 weeks;
  - a failure of any kind gives None.
  - build/lib/emme_roch/eurostat_data.py is an identical copy of src/eurostat_data.py; the same members model both, and the table cites either file.
- **Download scheduling** (`download_cds.dfy`, module `CdsDownload`).
  - the target name and the skip-if-present rule of `downloadCDS`;
  - the calendar-month walk of `downloadMultipleCDS`;
  - the gap downloads, the incomplete-last-month removal and the top-up of `completeDataset`.
  - Class `DataStore` holds the download folder's state. Its methods are proved against the value-level `Run`/`Step` functions.

Supporting modules:

- `Wrappers`: Option.
- `Text`: decimal numerals as `int()`/`str()` read and write them, leftmost `find`, `str.replace`, and the trailing-slash rule.
- `Calendar`: proleptic Gregorian dates, ordinals and weekdays, `monthrange`, `timedelta` day steps.

## Model

| member | source | states |
|---|---|---|
| Geometries.SelectLevels | src/geometries.py:23 | a row is kept iff it is in the table and its LEVL_CODE is one of the levels |
| Geometries.SelectCountries | src/geometries.py:26-27 | a row is kept iff it is in the table and its CNTR_CODE is one of the countries |
| Geometries.ReadNuts | src/geometries.py:23-29 | a row survives iff its level is listed and, when countries is given, its country is listed |
| Geometries.ReadNutsIsOnePass | src/geometries.py:23-29 | the two successive filters equal a one-pass filter, as a sequence, so in the same order |
| Geometries.ReadNutsConcat | src/geometries.py:23-29 | relative order is preserved: filtering a table split in two filters each part in place |
| Geometries.ReadNutsIdempotent | src/geometries.py:23-29 | filtering an already filtered table changes nothing |
| Geometries.RingsUseTheCorners | src/geometries.py:49-55 | both the ring as written and the corrected ring have as vertices exactly the four corners (x±o, y±o) |
| Geometries.AsWrittenIsBowTie | src/geometries.py:49-58 | for o > 0 the ring as written crosses itself: edges 1→2 and 3→0 meet at the centre along different directions, and the shoelace area is 0 |
| Geometries.SquareArea | src/geometries.py:33-60 | the corrected ring encloses signed area (2o)², counter-clockwise |
| Geometries.SquareEdgesAreSides | src/geometries.py:33-60 | each edge of the corrected ring, the closing edge included, is a side of length 2o parallel to an axis |
| Geometries.MakePolygonAsWritten | src/geometries.py:47-55 | the ring of four vertices in the order the code lists the corners |
| Geometries.MakeSquare | src/geometries.py:33-60 | the corrected ring: the same four corners in boundary order |
| Geometries.LobeShape | src/geometries.py:49-58 | each of the two triangles make_valid keeps of the bow-tie has area o², with its centroid 2o/3 to the right or left of the centre |
| Geometries.RepairedCellCentroid | src/geometries.py:55-92 | for o > 0 the repaired cell has area 2o², half the square, and its area centroid (area-weighted mean of its triangles' centroids) is the grid point the cell was drawn around |
| Geometries.CartesianShape | src/geometries.py:164-166 | there are \|lons\|·\|lats\| grid points, with (lons[i], lats[j]) at position i·\|lats\|+j (longitude-major) |
| Geometries.BuildCoords | src/geometries.py:163-168 | the nested loop that grows the coordinate table one point at a time yields exactly the longitude-major product |
| Geometries.HalfCellSize | src/geometries.py:160 | round(\|lat1−lat0\|/2, 3), the common half-width of every cell (stated through GridShape) |
| Geometries.CellAt | src/geometries.py:170-173 | the cell of a grid point: centre rounded to 1 decimal and the square ring of the common half-width around it (stated through GridShape) |
| Geometries.Grid | src/geometries.py:160-174 | the cell table: one cell per grid point, in the order the coordinate loop produces the points (the contract is in GridShape) |
| Geometries.GridShape | src/geometries.py:160-174 | one cell per grid point, longitude-major; each cell has its centre rounded to 1 decimal and the square ring with half-width round(\|lat1−lat0\|/2, 3) around it |
| Geometries.Coverage | src/geometries.py:87-90 | the coverage is defined iff the cell area is non-zero, and then coverage × cell area = intersection area |
| Geometries.Covers | src/geometries.py:84-92 | at most one cover entry per cell, in cell order (what the entries are is CoversExact) |
| Geometries.CoversExact | src/geometries.py:84-92 | an entry is in the cover table iff some cell that intersects the region produced it, keyed by its rounded centre, with that cell's coverage |
| Geometries.CoversAt | src/geometries.py:98 | the coverages joined to a key are exactly those of the cover entries with that key |
| Geometries.LeftJoin | src/geometries.py:98 | the left join, row by row in table order (its effect is stated by CoversAt, UnmatchedRowDropped and MatchedRowKept) |
| Geometries.DropNa | src/geometries.py:99 | dropna keeps at most as many rows as it is given (which it keeps: IncompleteRowDropped, UnmatchedRowDropped) |
| Geometries.UnmatchedRowDropped | src/geometries.py:95-99 | a climate row whose rounded key matches no intersecting cell is dropped, not kept with weight 0 |
| Geometries.IncompleteRowDropped | src/geometries.py:99 | a row with any missing variable is dropped, whatever cells it matches |
| Geometries.MatchedRowKept | src/geometries.py:95-99 | a complete row matching exactly one cell of coverage c is kept once, with coverage c |
| Geometries.Prepared | src/geometries.py:95-99 | the left join of the climate rows on the intersecting cells' keys, then dropna: an unmatched or incomplete row is dropped (stated by UnmatchedRowDropped, IncompleteRowDropped, MatchedRowKept) |
| Geometries.PreparedConcat | src/geometries.py:98-99 | join and dropna treat each climate row on its own, in table order |
| Geometries.NoMatchNothingPrepared | src/geometries.py:98-99 | when no climate row lies on an intersecting cell, nothing survives the join |
| Geometries.Distinct | src/geometries.py:102 | the result has the same members as the input and no repetition |
| Geometries.Normalise | src/geometries.py:102-103 | each distinct grid point's coverage divided by the total coverage, NaN when the total is 0 (stated by WeightsSumToOne and ZeroTotalNoWeight) |
| Geometries.WeightsSumToOne | src/geometries.py:102-103 | with a non-zero total every weight is its coverage divided by the total, and the weights sum to 1 |
| Geometries.Weighted | src/geometries.py:102-105 | every prepared row with its normalised weight; the weights sum to 1 and a constant field sums to itself (stated by WeightsSumToOne, WeightsAtUnique, ReweighSum, ConstantFieldAverage) |
| Geometries.ZeroTotalNoWeight | src/geometries.py:103 | when the coverages sum to zero every weight is NaN |
| Geometries.TotalPositive | src/geometries.py:103 | one positive coverage among non-negative ones makes the total positive, so the weights are defined |
| Geometries.WeightsAtUnique | src/geometries.py:105 | when each key has one grid point, the second join gives a row exactly one weight: its coverage over the total |
| Geometries.Reweigh | src/geometries.py:105 | the second left join, which gives every row the weights of its key (stated by WeightsAtUnique) |
| Geometries.SumAt | src/geometries.py:107-112 | the groupby sum of variable k at time step t of the weighted rows (stated by ReweighSum) |
| Geometries.ReweighSum | src/geometries.py:105-112 | the step-t sum of a variable that is v at step t is v times the share of the total coverage held by the step's grid points |
| Geometries.ConstantFieldAverage | src/geometries.py:102-112 | a field that is v at step t sums to v at t, when every grid point occurs once among the rows of step t and the total is non-zero |
| Geometries.SortedDistinct | src/geometries.py:112 | the groups are the distinct time steps, each once, in increasing order |
| Geometries.NutsClim | src/geometries.py:64-117 | one row per time step, in strictly increasing time; every row has the region's NUTS_ID and, for each variable k, the step's weighted sum of k; every time comes from the weighted rows |
| Geometries.NutsClimTimes | src/geometries.py:105-112 | every time step present after the joins has an output row |
| Geometries.ConstantFieldWeighted | src/geometries.py:84-112 | for one region, a field that is v at step t sums to v at t, and t is present after the joins |
| Geometries.ConstantFieldOutput | src/geometries.py:64-117 | the region's result holds a row for step t whose sum of that variable is v |
| Geometries.NoMatchNoRows | src/geometries.py:64-117 | a region none of whose intersecting cells carries a climate row yields no rows |
| Geometries.NutsClimAll | src/geometries.py:195-202 | the sequential region loop yields the regions' results concatenated in region-index order |
| Geometries.AllRegions | src/geometries.py:195-202 | the regions' results concatenated in index order (stated by NutsClimAll, AllRegionsConcat, AllRegionsTagged) |
| Geometries.AllRegionsConcat | src/geometries.py:195-202 | the result for two lists of regions is the one for the first list followed by the one for the second |
| Geometries.AllRegionsTagged | src/geometries.py:115 | every output row carries the NUTS_ID of one of the regions |
| Geometries.GetNutsClimAll | src/geometries.py:159-202 | the cell table built from the grid matches every region's overlap table, and the output is the concatenation of the region results over that grid |
| Sums.SumOfPermutation | src/geometries.py:103 | reordering the summands does not change a column sum |
| ClimateTemporal.NumberAfter | src/climate_temporal.py:16-19 | a number is read iff the tag occurs and its first occurrence is followed by a digit; the number is the value of the digit run that follows it |
| ClimateTemporal.NumberAfterAt | src/climate_temporal.py:16-19 | with the first occurrence of the tag at i followed by a digit, the number is the value of the digits after i |
| ClimateTemporal.NumberAfterValue | src/climate_temporal.py:16-19 | in a + tag + d + b with no earlier tag, d a digit run and b not starting with a digit, the number is the value of d |
| ClimateTemporal.ResolutionOf | src/climate_temporal.py:20-25 | "weekly" when the name contains it, else "daily" when it contains that, else "hourly" (stated through ParseName's contract) |
| ClimateTemporal.ParseName | src/climate_temporal.py:2-30 | a parsed name has both tokens; its resolution is weekly iff the name contains "weekly", else daily iff it contains "daily"; the file name is kept unchanged |
| ClimateTemporal.ParseNameNeedsTokens | src/climate_temporal.py:15-30 | a name lacking "yr_" or "mnth_" gives None, without raising |
| ClimateTemporal.ParseNameNeedsYearDigits | src/climate_temporal.py:15-30 | a first "yr_" not followed by a digit gives None (int("") raises and is caught) |
| ClimateTemporal.ParseNameNeedsMonthDigits | src/climate_temporal.py:15-30 | a first "mnth_" not followed by a digit gives None (int("") raises and is caught) |
| ClimateTemporal.ParseNameReads | src/climate_temporal.py:15-30 | when the first "yr_" and the first "mnth_" are both followed by a digit, the name is parsed, with year and month the values of the digit runs after them |
| ClimateTemporal.ParseNameYear | src/climate_temporal.py:16-17 | a parsed name a + "yr_" + d + b, with no earlier "yr_", has year int(d) |
| ClimateTemporal.ParseNameMonth | src/climate_temporal.py:18-19 | a parsed name a + "mnth_" + d + b, with no earlier "mnth_", has month int(d) |
| ClimateTemporal.MonthsOfMembers | src/climate_temporal.py:52 | the month selection for year y holds exactly the months of that year's rows |
| ClimateTemporal.MinOfIsLeast | src/climate_temporal.py:47 | min() is a lower bound of the column |
| ClimateTemporal.MaxOfIsGreatest | src/climate_temporal.py:47 | max() is an upper bound of the column |
| ClimateTemporal.AscendingMinMax | src/climate_temporal.py:47-52 | in an ascending column min is the first value and max the last |
| ClimateTemporal.MissingMonths | src/climate_temporal.py:53-59 | a month is in the result iff it is in lo..hi and not present |
| ClimateTemporal.MissingMonthsAscending | src/climate_temporal.py:59 | the missing months come out in strictly ascending order |
| ClimateTemporal.GapsThrough | src/climate_temporal.py:50-68 | the report rows of the years lo..y, in year order (stated by GapsRows, GapsIncreasing, GapsComplete) |
| ClimateTemporal.GapsThroughStep | src/climate_temporal.py:50-68 | one more year of the loop appends that year's row, if any, at the end |
| ClimateTemporal.CheckYears | src/climate_temporal.py:34-74 | the method returns the report of the year loop, and None when no year has a gap |
| ClimateTemporal.YearLoop | src/climate_temporal.py:50-68 | the loop over years lo..hi builds exactly the rows of those years |
| ClimateTemporal.AddYearRow | src/climate_temporal.py:52-68 | one pass appends year y's row exactly when its set difference is non-empty |
| ClimateTemporal.MissingOfSpec | src/climate_temporal.py:53-59 | a reported month lies strictly between the year's first and last month and has no file, and every such month is reported; a year has months reported iff it has a gap |
| ClimateTemporal.GapsRows | src/climate_temporal.py:57-68 | every row names a year of the range and carries that year's non-empty list of missing months |
| ClimateTemporal.GapsIncreasing | src/climate_temporal.py:50-68 | rows come in strictly increasing year order |
| ClimateTemporal.GapsComplete | src/climate_temporal.py:50-68 | a year of the range has a row iff it has a gap |
| ClimateTemporal.GapReport | src/climate_temporal.py:47-74 | what checkYears returns: the rows of min_year..max_year, or None when there are none (stated by GapReportNoneIff) |
| ClimateTemporal.GapReportNoneIff | src/climate_temporal.py:57-74 | the result is None iff every year's months are contiguous from its first to its last |
| ClimateTemporal.SingleYearReport | src/climate_temporal.py:47-74 | a single-year table yields that year's row, or None when it has no gap |
| ClimateTemporal.GapExample | src/climate_temporal.py:34-74 | months 1, 2, 4, 5 of 2020 give the single row (2020, [3]) |
| ClimateTemporal.NoGapExample | src/climate_temporal.py:34-74 | months 1 to 3 of one year give None |
| ClimateTemporal.DatasetPath | src/climate_temporal.py:111 | the folder with exactly one separator added when missing, then the name |
| ClimateTemporal.CheckVariables | src/climate_temporal.py:107-121 | the loop returns exactly the names of the flagged files, in file order |
| ClimateTemporal.FlaggedNamesIff | src/climate_temporal.py:109-119 | a name is reported iff some file of that name has a variable list not seen in any earlier file and is not the first file's name |
| ClimateTemporal.FirstNeverReported | src/climate_temporal.py:116 | the first file is never reported |
| ClimateTemporal.SameVariablesNoneReported | src/climate_temporal.py:114-118 | when every file has the first file's variables nothing is reported |
| ClimateTemporal.VariablesExample | src/climate_temporal.py:107-121 | of three files, the one with an extra variable is the only one reported |
| ClimateTemporal.DayOffset | src/climate_temporal.py:197-199 | the offset is in 0..6, lands on a Monday, and no smaller offset does |
| ClimateTemporal.FirstTimestep | src/climate_temporal.py:203 | tstep_start = 24·day_offset + 1, the first step of the first Monday (stated by FirstTimestepIsFirstMonday) |
| ClimateTemporal.FirstTimestepIsFirstMonday | src/climate_temporal.py:197-204 | for hourly steps from midnight of the first date, the first step handed to the averaging starts at midnight of a Monday, and no earlier step falls on a Monday |
| ClimateTemporal.StepsOfDays | src/climate_temporal.py:202-203 | step 24n + 1 starts day n |
| ClimateTemporal.WindowStartsOnMonday | src/climate_temporal.py:202-208 | for hourly steps from midnight of the first date, every 168-step averaging window starts at midnight of a Monday |
| ClimateTemporal.DayStartIsMonday | src/climate_temporal.py:202-203 | for hourly steps from midnight of the first date, the step starting a day on which a Monday falls is at midnight of that Monday |
| ClimateTemporal.Pad4 | src/climate_temporal.py:191-193 | four digits whose value is the year |
| ClimateTemporal.Pad4IsDecimal | src/climate_temporal.py:191-193 | from year 1000 on, the padded year is str(year) |
| ClimateTemporal.Kept | src/climate_temporal.py:159-160 | a row is kept iff it is in the table and its name is not among the reported ones |
| ClimateTemporal.HourlyNames | src/climate_temporal.py:172-182 | exactly the names of the hourly rows |
| ClimateTemporal.OutPath | src/climate_temporal.py:211-212 | without path_out the file name; otherwise path_out with one separator, then the file name |
| ClimateTemporal.OutPathAsWritten | src/climate_temporal.py:211-212 | path_out joined as written: the test is on out_file, so a '/' is always inserted (stated by OutPathAsWrittenDoublesSlash and OutPathAsWrittenExample) |
| ClimateTemporal.OutPathAsWrittenDoublesSlash | src/climate_temporal.py:211-212 | as written, a path_out ending in '/' gets a second '/', unlike the intended path |
| ClimateTemporal.OutPathAsWrittenExample | src/climate_temporal.py:211-212 | path_out "out/" gives "out//ERA_land_20201_202012.nc" |
| ClimateTemporal.OutPathExample | src/climate_temporal.py:211-212 | the corrected rule gives "out/ERA_land_20201_202012.nc" |
| ClimateTemporal.YearsOrdered | src/climate_temporal.py:175-176 | the first year is not after the last |
| ClimateTemporal.MergeStep | src/climate_temporal.py:179-183 | the mergetime call over the kept hourly files, issued only when the merged file is absent (stated by MergeStepSpec) |
| ClimateTemporal.MergeStepSpec | src/climate_temporal.py:159-183 | the merge lists exactly the hourly files that were not reported, and runs only when its output is missing |
| ClimateTemporal.AverageStep | src/climate_temporal.py:214-221 | the weekly-mean call with a 168-step window from tstep_start to the last step, issued only when its output, under the corrected OutPath, is absent (stated by AverageStepSpec) |
| ClimateTemporal.AverageStepSpec | src/climate_temporal.py:197-221 | the averaging uses 168-step windows from the first Monday's midnight to the last step, and runs only when its output is missing |
| ClimateTemporal.WeeklyCdo | src/climate_temporal.py:125-223 | the gap report of the kept table and the commands weekly_cdo issues (stated by WeeklyCommands, MergeStepSpec, AverageStepSpec) |
| ClimateTemporal.WeeklyCommands | src/climate_temporal.py:125-223 | weekly_cdo reports the gaps of the kept table and issues at most a merge and then an averaging, both in the data folder |
| ClimateTemporal.AveragingReadsMergedFile | src/climate_temporal.py:175-220 | when the first time step falls in the first month of the first year (year 1000 to 9999), the file the averaging reads (year as printed, month unpadded) is the merged file name_prefix_<first year><month>_<last year><month>.nc |
| ClimateTemporal.MergedName | src/climate_temporal.py:175-177 | the merged file prefix_<first year><first month>_<last year><last month>.nc, months unpadded, with ".nc" only at its end (stated by OnlyFinalExtension and WeeklyName) |
| ClimateTemporal.WeeklyName | src/climate_temporal.py:177-216 | the merged name has ".nc" only at its end, so replace() turns it into prefix_<span>_weekly.nc |
| ClimateTemporal.ExtensionReplaced | src/climate_temporal.py:216 | a name with ".nc" only at its end has just that extension replaced |
| ClimateTemporal.OnlyFinalExtension | src/climate_temporal.py:177 | in the merged name no ".nc" starts before the final one |
| Eurostat.Strptime | src/eurostat_data.py:8 | strptime with "%YW%W-%w": the year, week and weekday fields of a fully matching string, or None (stated by StrptimeAccepts) |
| Eurostat.WeekToDate | src/eurostat_data.py:2-11 | weekToDate: the date of the fields strptime reads from code + "-1", None on any failure (stated by WeekToDateOrdinal, WeekToDateIsMonday, MalformedIsNone) |
| Eurostat.JulianFromWeek | src/eurostat_data.py:8 | the day of the year is never below −5, and is at least 1 from week 1 on |
| Eurostat.CodeYearBound | src/eurostat_data.py:8 | a four-digit year is at most 9999 |
| Eurostat.WeekNumberTokenValue | src/eurostat_data.py:8 | the %W alternation accepts exactly the one- and two-digit numerals up to 53 |
| Eurostat.StrptimeAccepts | src/eurostat_data.py:8 | code + "-1" is accepted iff the code is four digits, 'W' or 'w', a week number 0..53; the weekday read is then 1 |
| Eurostat.MalformedIsNone | src/eurostat_data.py:7-11 | every malformed code gives None, without raising |
| Eurostat.InRangeOrdinal | src/eurostat_data.py:8 | a day step succeeds iff it stays within 9999-12-31, and then moves the ordinal by exactly n |
| Eurostat.DateOfFields | src/eurostat_data.py:8 | the date strptime builds from year, %W week and %w weekday, None where datetime raises (stated by WeekZeroOrdinal, WeekNOrdinal, TargetIsMonday) |
| Eurostat.WeekZeroOrdinal | src/eurostat_data.py:8 | week 0 is the Monday on or before 1 January |
| Eurostat.WeekNOrdinal | src/eurostat_data.py:8 | week w ≥ 1 is the year's first Monday plus 7(w−1) days, when representable |
| Eurostat.WellFormedFields | src/eurostat_data.py:8 | a well-formed code's date is the date of the fields strptime reads from it |
| Eurostat.TargetIsMonday | src/eurostat_data.py:8 | the %W rule always lands on a Monday |
| Eurostat.WeekToDateOrdinal | src/eurostat_data.py:7-11 | a well-formed code gives the %W Monday, or None when that is past 9999-12-31 |
| Eurostat.WeekToDateIsMonday | src/eurostat_data.py:3-8 | every date returned is a valid Monday |
| Eurostat.YearZeroIsNone | src/eurostat_data.py:7-11 | year 0000 matches the format but gives None |
| Eurostat.WeekIsNthMonday | src/eurostat_data.py:8 | for w ≥ 1 the result is the year's first Monday plus 7(w−1) days |
| Eurostat.ConsecutiveWeeks | build/lib/emme_roch/eurostat_data.py:8 | codes for weeks w and w+1 (w ≥ 1) of one year give dates exactly 7 days apart |
| Eurostat.WellFormedIsSome | build/lib/emme_roch/eurostat_data.py:7-11 | every well-formed code of years 0001 to 9998 gives a date |
| Eurostat.Week2020W05 | src/eurostat_data.py:2-11 | "2020W05" gives 3 February 2020, not the ISO 8601 27 January |
| Eurostat.NotAWeek | build/lib/emme_roch/eurostat_data.py:7-11 | "notaweek" gives None |
| Eurostat.Week54IsNone | build/lib/emme_roch/eurostat_data.py:7-11 | "2020W54" gives None |
| Text.WithSlash | src/downloadCDS.py:32-33 | the result ends in '/', extends the folder by at most one character, and is the folder itself when it already ends in '/' |
| Text.NatToStringValue | src/climate_temporal.py:16-19 | int(str(n)) == n, so a year or month written into a name is read back |
| CdsDownload.TargetName | src/downloadCDS.py:36 | the file name prefix_yr_Y_mnth_M.nc; parse_name reads back Y, M and "hourly" from it for a prefix without "yr_", "mnth_", "weekly" or "daily" (stated by NameRoundTrip) |
| CdsDownload.TargetPath | src/downloadCDS.py:32-63 | the path the skip test checks and the retrieval writes: the folder, a '/' if it lacks one, then prefix_yr_Y_mnth_M.nc |
| CdsDownload.NameRoundTrip | src/downloadCDS.py:63 | parse_name reads back year, month and "hourly" from a written name, for a prefix without "yr_", "mnth_", "weekly" or "daily" |
| CdsDownload.NamesDistinct | src/downloadCDS.py:63 | different months are saved under different names |
| CdsDownload.DefaultPrefixReadable | src/downloadCDS.py:76 | the default prefix "ERA_land" can be read back |
| CdsDownload.DefaultNameParsed | src/downloadCDS.py:63 | "ERA_land_yr_2020_mnth_3.nc" parses as (2020, 3, hourly) |
| CdsDownload.PrefixEndingInYrUnreadable | src/downloadCDS.py:63 | a prefix ending in "yr" hides the year: the name is written but cannot be read back |
| CdsDownload.MonthRange | src/downloadCDS.py:98 | range(a, b) of months in one year: b − a requests, the i-th being month a + i |
| CdsDownload.MonthWalk | src/downloadCDS.py:97-118 | every request downloadMultipleCDS issues, in order (stated by SameYearWalk, MultipleWalkContiguous, MultipleWalkEnds) |
| CdsDownload.SameYearWalk | src/downloadCDS.py:97-101 | within one year the requests are month_start..month_end ascending, none when reversed |
| CdsDownload.BackwardsWalkEmpty | src/downloadCDS.py:102-118 | a start year after the end year requests nothing |
| CdsDownload.YearsBeforeContiguous | src/downloadCDS.py:103-118 | the requests of the years before y run on from the start month without a gap |
| CdsDownload.MultipleWalkContiguous | src/downloadCDS.py:102-118 | across years there are 12(ye−ys) + me − ms + 1 requests, the i-th being i months after the start, each with month in 1..12 |
| CdsDownload.MultipleWalkEnds | src/downloadCDS.py:102-118 | the walk starts at (year_start, month_start), ends at (year_end, month_end) and steps one calendar month at a time |
| CdsDownload.PathsOf | src/downloadCDS.py:36-63 | one target path per request, in order |
| CdsDownload.Retrieved | src/downloadCDS.py:36-68 | the retrievals a run attempts, in order (stated by RetrievedSkipsPresent) |
| CdsDownload.RetrievedSkipsPresent | src/downloadCDS.py:36-68 | a run never retrieves a file that was there, retrieves every missing one, and refetches a file only after the server failed on it |
| CdsDownload.NothingMissingNothingRetrieved | src/downloadCDS.py:36-37 | when every target is present nothing is retrieved |
| CdsDownload.DaysBetween | src/downloadCDS.py:198 | the day count is the whole days of the difference, rounded down |
| CdsDownload.DaysBetweenSameTime | src/downloadCDS.py:198 | two stamps at the same time of day are as many days apart as their dates |
| CdsDownload.LastMonthIncomplete | src/downloadCDS.py:200 | the last month is incomplete when the last timestamp's day is not the month's Gregorian length, that is iff the next day is still in that month (stated by IncompleteIffMonthGoesOn) |
| CdsDownload.IncompleteIffMonthGoesOn | src/downloadCDS.py:200 | the last month is incomplete iff the day after the last timestamp is still in that month |
| CdsDownload.RefreshAsWritten | src/downloadCDS.py:208-250 | the top-up months as the code asks for them: the rest of the last file's year and, from March on, the current year up to the cutoff month; with a lag over a year the years between are skipped (stated by RefreshAsWrittenSkipsYears and RefreshAsWrittenExample) |
| CdsDownload.RefreshAsWrittenSkipsYears | src/downloadCDS.py:223-250 | as written, with a lag of more than a year only the last file's year and the current year are requested |
| CdsDownload.RefreshAsWrittenExample | src/downloadCDS.py:223-250 | last file November 2019, now 15 June 2021, threshold 65: six requests, none for 2020 |
| CdsDownload.FromIndex | src/downloadCDS.py:209-211 | the month counted back from the current one is a calendar month (1..12) whose month index is the one asked for, carrying into the year before |
| CdsDownload.CutoffIndex | src/downloadCDS.py:211-239 | the month index of the top-up's last month, floor(diff_threshold/30) months before the current month, counted across year boundaries (used by RefreshWalkContiguous, which states where the walk ends) |
| CdsDownload.RefreshWalk | src/downloadCDS.py:208-250 | the corrected top-up: every calendar month from the last file's month to the cutoff month (stated by RefreshWalkContiguous; equal to RefreshAsWritten in the cases RefreshAgreesSameYear and RefreshAgreesNextYear name) |
| CdsDownload.RefreshWalkContiguous | src/downloadCDS.py:203-250 | the corrected top-up is the run of consecutive months from the last file's month to the cutoff, floor(diff_threshold/30) months before the current month in whichever year that falls: empty when the last file is past the cutoff, otherwise starting at the last file's month, ending at the cutoff month and stepping one calendar month at a time |
| CdsDownload.RefreshWalkExample | src/downloadCDS.py:203-250 | last file November 2019, now 15 January 2021, threshold 65: the corrected top-up is November 2019 to November 2020, thirteen months |
| CdsDownload.RefreshAgreesSameYear | src/downloadCDS.py:210-222 | when the last file is from the current year and the cutoff is not past December, the code and the corrected top-up agree, including a cutoff before January, for which both ask nothing |
| CdsDownload.RefreshAgreesNextYear | src/downloadCDS.py:223-250 | when the last file is from the previous year, the current month is past February and the cutoff is a month of the current year, they agree |
| CdsDownload.RowRequests | src/downloadCDS.py:176-184 | one request per missing month of the row, in order |
| CdsDownload.MissingRequests | src/downloadCDS.py:173-187 | the gap downloads: each row of the report in order, each of its missing months in order (stated by MissingRequestsMembers) |
| CdsDownload.MissingRequestsMembers | src/downloadCDS.py:173-187 | a month is requested iff the report row of its year lists it |
| CdsDownload.MissingRequestsAscending | src/downloadCDS.py:173-187 | with rows in year order and months ascending, requests are strictly ascending, so each month is attempted once |
| CdsDownload.CompletePlan | src/downloadCDS.py:189-206 | the last file is removed iff the lag exceeds the threshold and its month is incomplete, and then it is the last file of the folder; a lag within the threshold asks for no top-up |
| CdsDownload.PlanMissingExact | src/downloadCDS.py:164-187 | every month checkYears reports missing is requested exactly once, and nothing else is |
| CdsDownload.Step | src/downloadCDS.py:30-68 | one downloadCDS call on the folder state: log it, make the folder, skip a present target, else retrieve it and add it unless the server fails |
| CdsDownload.Run | src/downloadCDS.py:173-250 | a sequence of calls, in order (stated by RunConcat, RunFiles, RunRetrievals, RunEffect) |
| CdsDownload.RunConcat | src/downloadCDS.py:173-250 | two runs of downloads one after the other are one joined run |
| CdsDownload.RunSnoc | src/downloadCDS.py:173-187 | a run extended by one call is the run followed by that call |
| CdsDownload.RunLogs | src/downloadCDS.py:2-68 | every call of a run is logged in order, the folder is made, and nothing is removed |
| CdsDownload.RunFiles | src/downloadCDS.py:36-68 | a run adds exactly the targets the server delivers |
| CdsDownload.RunRetrievals | src/downloadCDS.py:36-64 | the retrievals of a run are those Retrieved describes, in order |
| CdsDownload.RunEffect | src/downloadCDS.py:2-68 | what a run leaves behind: calls logged, folder made, retrievals as Retrieved describes, delivered targets added |
| CdsDownload.DataStore.constructor | src/downloadCDS.py:30-37 | a store starts with the given folders and files and no log |
| CdsDownload.DataStore.DownloadCDS | src/downloadCDS.py:2-68 | one call makes the folder if missing, skips a present target, otherwise retrieves it; a failure is caught |
| CdsDownload.DataStore.DownloadMonths | src/downloadCDS.py:98-101 | the month loop of one year is the run of MonthRange |
| CdsDownload.DataStore.DownloadYear | src/downloadCDS.py:104-118 | one pass of the year loop issues that year's months |
| CdsDownload.DataStore.DownloadMultipleCDS | src/downloadCDS.py:72-118 | the whole call is the run of the month walk |
| CdsDownload.DataStore.DownloadRow | src/downloadCDS.py:176-187 | the inner loop is the run of one report row's months |
| CdsDownload.DataStore.DownloadMissing | src/downloadCDS.py:173-187 | the gap loop is the run of every reported month |
| CdsDownload.DataStore.CompleteDataset | src/downloadCDS.py:122-250 | the gap downloads, then the removal, then the top-up of CompletePlan, in that order |

## Left out

- I/O is not modelled; its results are parameters instead. This covers `glob`, `chdir`, `isdir`/`mkdir`, `isfile`, `remove`, `open_dataset` (the variable lists, the last timestamp and the merged file's step count and first date), `read_file`/`set_crs`, and `datetime.now()`.
- The network calls `cdsapi.Client().retrieve` and `eurostat.get_data_df` are left out. Which targets the server fails to deliver is a parameter of the store.
- The shell commands (`cdo` through `os.system`/`os.popen`) and the parsing of their output are left out: the commands are data, and the numbers they print are parameters.
- The geometry engine is left out: `intersects`, `intersection`, `.area`, `.centroid` and `make_valid` are inputs. The centroid is taken to be the cell centre: the repaired cell is symmetric about its centre, so its centroid is the centre, as RepairedCellCentroid shows for the two triangles `make_valid` keeps.
- Geometries.MakeSquare: `make_valid` would turn the bow-tie into two triangles. The model uses the intended square instead (see Findings).
- Float rounding (`round(…, 3)`, `coords.round(1)`) is an abstract key function. Weighting is exact `real` arithmetic, not IEEE floating point.
- Geometries.Coverage: a cell of zero area is treated as NaN (None). The `inf` that pandas gives for a positive area divided by 0 is not modelled.
- The `for var` loop that overwrites each column is modelled per row and variable through `Contribution`, not as an update in place of a data frame.
- Geometries.Distinct: groupby sorts grid_points by key. The model keeps them in order of first appearance; the sums do not change (Sums.SumOfPermutation).
- Geometries.ConstantFieldAverage, Geometries.ConstantFieldWeighted and Geometries.ConstantFieldOutput require that no key carries two coverages, that every grid point occurs once at the step, and that the total coverage is non-zero. The source promises the result only in that case.
- The `multiprocessing.Pool` branch of getNutsClimAll is left out, because it is concurrency. The progress bars, `print` and `warn` are left out too.
- The reading of the netCDF file and the renaming of its coordinates (src/geometries.py:147-157, 181) are left out: the grid axes and the climate rows are inputs.
- `weeklyEurostat` and `TLCC` in src/eurostat_data.py are left out: they are a network fetch, pandas reshaping and plotting.
- The hard-coded debugging drop of rows 2, 17, 18, 19 (src/downloadCDS.py:161) is left out.
- Listings are taken as already parsed and sorted by (year, month).
- Geometries.HalfCellSize, Geometries.Grid and Geometries.GetNutsClimAll require at least two latitudes. With one latitude the source raises IndexError at src/geometries.py:160; that error path is not modelled.
- ClimateTemporal.CheckYears requires a non-empty table with a file in every year of its range. Otherwise the source raises on `min()` of an empty selection.
- ClimateTemporal.MissingMonths: the model lists the missing months in ascending order. Python's set iteration order is not modelled.
- ClimateTemporal.FirstTimestepIsFirstMonday, ClimateTemporal.WindowStartsOnMonday and ClimateTemporal.DayStartIsMonday assume, through StepDay, that the merged file's first step is at 00:00 of the first date and that the steps are hourly and gapless. The source reads a full "%Y-%m-%d %H:%M:%S" stamp but uses only its weekday, so for a first step at 06:00 the windows start at 06:00 on a Monday.
- ClimateTemporal.WeeklyCdo, ClimateTemporal.AverageStep and ClimateTemporal.AverageStepSpec use the corrected OutPath. For a path_out ending in '/', the source gives `isfile` and cdo "out//…_weekly.nc", where the model gives "out/…_weekly.nc" (see Findings).
- The unused `files_to_join` list in weekly_cdo is left out.
- CdsDownload.DataStore.CompleteDataset: removing a file that is already absent (which would raise) is not modelled.
- Text.DigitsValue, Eurostat.Strptime and Eurostat.WeekToDate: digits are ASCII only, while Python's `\d` and `int()` also accept other Unicode digits.
- CdsDownload.DataStore.CompleteDataset uses the corrected top-up, RefreshWalk (see Findings). It differs from the code in three cases beyond the skipped years. (1) In January or February, with the cutoff in the current year, RefreshWalk requests the current year's months up to the cutoff, where the code asks for none. (2) When the cutoff falls in an earlier year, RefreshWalk stops at that month, where the code's previous-year loop runs to December. (3) When a negative diff_threshold puts the cutoff past December, RefreshWalk carries into the next year, where the code asks for month numbers above 12.
- CdsDownload.DataStore.CompleteDataset and ClimateTemporal.WeeklyCdo: folder arguments are taken to be absolute. With a relative folder, the source resolves it a second time inside itself after its own `chdir` and raises FileNotFoundError. That happens at src/downloadCDS.py:155 and :191, and at src/climate_temporal.py:98 and :147.
- The `DataStore` class keeps its state as one `Store` value read through `State()`. The folder is recorded as created, under the name `path_save` as given (before the trailing `/` is added), once any call is made.

## Findings

| source | as written | input that shows it | evidently intended | confidence | as-written member | corrected member |
|---|---|---|---|---|---|---|
| src/climate_temporal.py:211-212 | the trailing-slash test is on `out_file`, which always ends in ".nc", so a '/' is always inserted | path_out "out/" gives "out//ERA_land_20201_202012.nc" | test whether path_out ends in '/', giving "out/ERA_land_20201_202012.nc" | not executed | ClimateTemporal.OutPathAsWritten (ClimateTemporal.OutPathAsWrittenDoublesSlash, ClimateTemporal.OutPathAsWrittenExample) | ClimateTemporal.OutPath (ClimateTemporal.OutPathExample), used by ClimateTemporal.AverageStep and ClimateTemporal.WeeklyCdo |
| src/downloadCDS.py:223-250 | when the last file is from an earlier year, only the rest of that year and the current year are requested | last file November 2019, now 15 June 2021, diff_threshold 65: 2020 is never requested | every calendar month from the last file's month to the cutoff month, floor(diff_threshold/30) months before the current one, counted across year boundaries | not executed | CdsDownload.RefreshAsWritten (CdsDownload.RefreshAsWrittenSkipsYears, CdsDownload.RefreshAsWrittenExample) | CdsDownload.RefreshWalk (CdsDownload.RefreshWalkContiguous, CdsDownload.RefreshWalkExample), used by CdsDownload.DataStore.CompleteDataset |
| src/geometries.py:49-55 | the corners are listed (x+o,y−o), (x+o,y+o), (x−o,y−o), (x−o,y+o), a self-crossing bow-tie with zero signed area | any o > 0, e.g. centre (0, 0) and o = 0.05 | the square around the centre, corners in boundary order | not executed | Geometries.MakePolygonAsWritten (Geometries.AsWrittenIsBowTie) | Geometries.MakeSquare (Geometries.SquareArea, Geometries.SquareEdgesAreSides), used by Geometries.CellAt and Geometries.Grid |
