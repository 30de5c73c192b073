/**
 * The monthly-file inventory of climate_temporal: reading (year, month,
 * resolution) out of file names, the per-year month-gap report, the
 * first-seen scan for files whose variable list differs, and the file-name
 * and time-step arithmetic that weekly_cdo hands to the averaging tool.
 */
module ClimateTemporal {
  import opened Wrappers
  import opened Text
  import opened Calendar

  datatype Resolution = Hourly | Daily | Weekly

  /** One row of the table parse_name returns. */
  datatype FileInfo = FileInfo(year: int, month: int, res: Resolution, filename: string)

  // ---------------------------------------------------------------- parse_name

  /** "weekly" if the name says so, else "daily" if it says so, else "hourly". */
  function ResolutionOf(x: string): Resolution
  {
    if Contains(x, "weekly") then Weekly
    else if Contains(x, "daily") then Daily
    else Hourly
  }

  /**
   * The number after the first occurrence of tag: None when the tag is
   * absent (re.search gives None) or is not followed by a digit (int("")).
   */
  function NumberAfter(x: string, tag: string): (r: Option<nat>)
    ensures r.Some? ==> Contains(x, tag)
    ensures r.Some? <==> Find(x, tag).Some? && Find(x, tag).value + |tag| < |x| && IsDigit(x[Find(x, tag).value + |tag|])
    ensures r.Some? ==> r.value == DigitsValue(LeadingDigits(x[Find(x, tag).value + |tag|..]))
  {
    match Find(x, tag)
    case None => None
    case Some(i) =>
      var digits := LeadingDigits(x[i + |tag|..]);
      if digits == [] then None else Some(DigitsValue(digits))
  }

  /** parse_name(x): None wherever the Python code catches an exception. */
  function ParseName(x: string): (r: Option<FileInfo>)
    ensures r.Some? ==> Contains(x, "yr_") && Contains(x, "mnth_") && r.value.filename == x
    ensures r.Some? ==> (r.value.res == Weekly <==> Contains(x, "weekly"))
    ensures r.Some? ==> (r.value.res == Daily <==> !Contains(x, "weekly") && Contains(x, "daily"))
    ensures r.Some? ==> r.value.year >= 0 && r.value.month >= 0
  {
    match NumberAfter(x, "yr_")
    case None => None
    case Some(year) =>
      match NumberAfter(x, "mnth_")
      case None => None
      case Some(month) => Some(FileInfo(year, month, ResolutionOf(x), x))
  }

  /** A name without a "yr_" or without a "mnth_" token is not parsed, and nothing raises. */
  lemma ParseNameNeedsTokens(x: string)
    requires !Contains(x, "yr_") || !Contains(x, "mnth_")
    ensures ParseName(x) == None
  {
  }

  /** A "yr_" whose first occurrence is not followed by a digit makes the name unparseable. */
  lemma ParseNameNeedsYearDigits(x: string, i: nat)
    requires MatchAt(x, "yr_", i) && forall j :: 0 <= j < i ==> !MatchAt(x, "yr_", j)
    requires i + 3 == |x| || !IsDigit(x[i + 3])
    ensures ParseName(x) == None
  {
    FindAt(x, "yr_", i);
  }

  /** A "mnth_" whose first occurrence is not followed by a digit makes the name unparseable. */
  lemma ParseNameNeedsMonthDigits(x: string, i: nat)
    requires MatchAt(x, "mnth_", i) && forall j :: 0 <= j < i ==> !MatchAt(x, "mnth_", j)
    requires i + 5 == |x| || !IsDigit(x[i + 5])
    ensures ParseName(x) == None
  {
    FindAt(x, "mnth_", i);
  }

  /**
   * When the first "yr_" (at i) and the first "mnth_" (at k) are both
   * followed by a digit, the name is parsed, and year and month are the
   * values of the digit runs that follow them.
   */
  lemma ParseNameReads(x: string, i: nat, k: nat)
    requires MatchAt(x, "yr_", i) && forall j :: 0 <= j < i ==> !MatchAt(x, "yr_", j)
    requires MatchAt(x, "mnth_", k) && forall j :: 0 <= j < k ==> !MatchAt(x, "mnth_", j)
    requires i + 3 < |x| && IsDigit(x[i + 3]) && k + 5 < |x| && IsDigit(x[k + 5])
    ensures ParseName(x) ==
      Some(FileInfo(DigitsValue(LeadingDigits(x[i + 3..])), DigitsValue(LeadingDigits(x[k + 5..])), ResolutionOf(x), x))
  {
    NumberAfterAt(x, "yr_", i);
    NumberAfterAt(x, "mnth_", k);
  }

  /** The number after the first occurrence of tag, at i, when a digit follows it. */
  lemma NumberAfterAt(x: string, tag: string, i: nat)
    requires MatchAt(x, tag, i) && forall j :: 0 <= j < i ==> !MatchAt(x, tag, j)
    requires i + |tag| < |x| && IsDigit(x[i + |tag|])
    ensures NumberAfter(x, tag) == Some(DigitsValue(LeadingDigits(x[i + |tag|..])))
  {
    FindAt(x, tag, i);
    assert NumberAfter(x, tag).Some?;
  }

  /**
   * The number after a tag, for a text that spells it out: no occurrence
   * of the tag inside a, then the tag, a digit run d, and a rest b that
   * does not continue the run.
   */
  lemma NumberAfterValue(a: string, tag: string, d: string, b: string)
    requires forall j :: 0 <= j < |a| ==> !MatchAt(a + tag + d + b, tag, j)
    requires d != [] && AllDigits(d) && (b == [] || !IsDigit(b[0]))
    ensures NumberAfter(a + tag + d + b, tag) == Some(DigitsValue(d))
  {
    var x := a + tag + d + b;
    var p, rest := a + tag, d + b;
    assert x == p + rest;
    assert x[|p|..] == rest;
    assert x[|a|..|p|] == p[|a|..] == tag;
    assert x[|p|] == d[0];
    NumberAfterAt(x, tag, |a|);
    LeadingDigitsOfNumeral(d, b);
  }

  /** The year of a name spelled a + "yr_" + d + b is the value of d. */
  lemma ParseNameYear(a: string, d: string, b: string)
    requires forall j :: 0 <= j < |a| ==> !MatchAt(a + "yr_" + d + b, "yr_", j)
    requires d != [] && AllDigits(d) && (b == [] || !IsDigit(b[0]))
    ensures var r := ParseName(a + "yr_" + d + b); r.Some? ==> r.value.year == DigitsValue(d)
  {
    NumberAfterValue(a, "yr_", d, b);
  }

  /** The month of a name spelled a + "mnth_" + d + b is the value of d. */
  lemma ParseNameMonth(a: string, d: string, b: string)
    requires forall j :: 0 <= j < |a| ==> !MatchAt(a + "mnth_" + d + b, "mnth_", j)
    requires d != [] && AllDigits(d) && (b == [] || !IsDigit(b[0]))
    ensures var r := ParseName(a + "mnth_" + d + b); r.Some? ==> r.value.month == DigitsValue(d)
  {
    NumberAfterValue(a, "mnth_", d, b);
  }

  // ---------------------------------------------------------------- checkYears

  /** files[files.year == y].month.values, in table order. */
  function MonthsOf(files: seq<FileInfo>, y: int): seq<int>
  {
    if files == [] then []
    else (if files[0].year == y then [files[0].month] else []) + MonthsOf(files[1..], y)
  }

  /** The selection keeps exactly the months of the rows of year y. */
  lemma {:induction false} MonthsOfMembers(files: seq<FileInfo>, y: int, m: int)
    ensures m in MonthsOf(files, y) <==>
      exists i :: 0 <= i < |files| && files[i].year == y && files[i].month == m
  {
    if files != [] {
      var rest := files[1..];
      MonthsOfMembers(rest, y, m);
      if m in MonthsOf(rest, y) {
        var i :| 0 <= i < |rest| && rest[i].year == y && rest[i].month == m;
        assert files[i + 1] == rest[i];
      }
      if exists i :: 0 <= i < |files| && files[i].year == y && files[i].month == m {
        var i :| 0 <= i < |files| && files[i].year == y && files[i].month == m;
        if i > 0 {
          assert rest[i - 1] == files[i];
        }
      }
    }
  }

  function MinOf(s: seq<int>): (r: int)
    ensures s != [] ==> r in s
  {
    if |s| == 0 then 0
    else if |s| == 1 then s[0]
    else
      var m := MinOf(s[..|s| - 1]);
      if s[|s| - 1] < m then s[|s| - 1] else m
  }

  /** The greatest element; 0 for an empty sequence, where it is never used. */
  function MaxOf(s: seq<int>): (r: int)
    ensures s != [] ==> r in s
  {
    if |s| == 0 then 0
    else if |s| == 1 then s[0]
    else
      var m := MaxOf(s[..|s| - 1]);
      if s[|s| - 1] > m then s[|s| - 1] else m
  }

  lemma {:induction false} MinOfIsLeast(s: seq<int>, x: int)
    requires x in s
    ensures MinOf(s) <= x
  {
    if |s| > 1 && x in s[..|s| - 1] {
      MinOfIsLeast(s[..|s| - 1], x);
    } else if |s| > 1 {
      assert x == s[|s| - 1];
    }
  }

  lemma {:induction false} MaxOfIsGreatest(s: seq<int>, x: int)
    requires x in s
    ensures x <= MaxOf(s)
  {
    if |s| > 1 && x in s[..|s| - 1] {
      MaxOfIsGreatest(s[..|s| - 1], x);
    } else if |s| > 1 {
      assert x == s[|s| - 1];
    }
  }

  /** In an ascending sequence the least element is the first and the greatest the last. */
  lemma {:induction false} AscendingMinMax(s: seq<int>)
    requires s != [] && forall i, j :: 0 <= i < j < |s| ==> s[i] <= s[j]
    ensures MinOf(s) == s[0] && MaxOf(s) == s[|s| - 1]
  {
    if |s| > 1 {
      AscendingMinMax(s[..|s| - 1]);
    }
  }

  function Years(files: seq<FileInfo>): (ys: seq<int>)
    ensures |ys| == |files|
    ensures forall i :: 0 <= i < |files| ==> ys[i] == files[i].year
  {
    if files == [] then [] else [files[0].year] + Years(files[1..])
  }

  function MinYear(files: seq<FileInfo>): int
  {
    MinOf(Years(files))
  }

  function MaxYear(files: seq<FileInfo>): int
  {
    MaxOf(Years(files))
  }

  /**
   * What checkYears needs to run at all: a non-empty table, and a file in
   * every year from the first to the last (min() of an empty selection is
   * NaN and range() raises on it).
   */
  predicate EveryYearPresent(files: seq<FileInfo>)
  {
    files != [] && forall y :: MinYear(files) <= y <= MaxYear(files) ==> MonthsOf(files, y) != []
  }

  /** The months lo..hi that are not present, ascending. */
  function MissingMonths(lo: int, hi: int, present: seq<int>): (r: seq<int>)
    ensures forall m {:trigger m in r} :: m in r <==> lo <= m <= hi && m !in present
    decreases hi - lo
  {
    if hi < lo then []
    else MissingMonths(lo, hi - 1, present) + (if hi in present then [] else [hi])
  }

  /** The missing months come out in ascending order, as the set difference prints them. */
  lemma {:induction false} MissingMonthsAscending(lo: int, hi: int, present: seq<int>)
    ensures forall i, j :: 0 <= i < j < |MissingMonths(lo, hi, present)| ==>
      MissingMonths(lo, hi, present)[i] < MissingMonths(lo, hi, present)[j]
    decreases hi - lo
  {
    if hi >= lo {
      MissingMonthsAscending(lo, hi - 1, present);
      var r0 := MissingMonths(lo, hi - 1, present);
      var r := MissingMonths(lo, hi, present);
      forall i, j | 0 <= i < j < |r|
        ensures r[i] < r[j]
      {
        assert r[i] == r0[i];
        if j < |r0| {
          assert r[j] == r0[j];
        } else {
          assert r0[i] in r0;
        }
      }
    }
  }

  /** One row of the report: a year and the months missing between its first and last file. */
  datatype Gap = Gap(year: int, missing: seq<int>)

  /**
   * The missing months of year y, between its first and its last month.  A
   * year without files never reaches this under checkYears' precondition;
   * it gets no missing months.
   */
  function MissingOf(files: seq<FileInfo>, y: int): seq<int>
  {
    var months := MonthsOf(files, y);
    if months == [] then [] else MissingMonths(MinOf(months), MaxOf(months), months)
  }

  /** The rows for the years lo..y, in increasing year order. */
  function GapsThrough(files: seq<FileInfo>, lo: int, y: int): seq<Gap>
    decreases y - lo
  {
    if y < lo then []
    else
      var missing := MissingOf(files, y);
      GapsThrough(files, lo, y - 1) + (if missing == [] then [] else [Gap(y, missing)])
  }

  lemma GapsThroughStep(files: seq<FileInfo>, lo: int, y: int)
    requires lo <= y
    ensures GapsThrough(files, lo, y) ==
      GapsThrough(files, lo, y - 1) + (if MissingOf(files, y) == [] then [] else [Gap(y, MissingOf(files, y))])
  {
  }

  /** What checkYears returns: None when no year has a gap. */
  function GapReport(files: seq<FileInfo>): Option<seq<Gap>>
    requires EveryYearPresent(files)
  {
    var gaps := GapsThrough(files, MinYear(files), MaxYear(files));
    if gaps == [] then None else Some(gaps)
  }

  /** checkYears(files): the report of its year loop, None when that found nothing. */
  method CheckYears(files: seq<FileInfo>) returns (report: Option<seq<Gap>>)
    requires EveryYearPresent(files)
    ensures report == GapReport(files)
  {
    MinOfIsLeast(Years(files), files[0].year);
    MaxOfIsGreatest(Years(files), files[0].year);
    var rows := YearLoop(files, MinYear(files), MaxYear(files));
    report := if rows == [] then None else Some(rows);
  }

  /** The loop over the years lo..hi of checkYears. */
  method YearLoop(files: seq<FileInfo>, lo: int, hi: int) returns (rows: seq<Gap>)
    requires lo <= hi + 1
    requires forall y :: lo <= y <= hi ==> MonthsOf(files, y) != []
    ensures rows == GapsThrough(files, lo, hi)
  {
    rows := [];
    var year := lo;
    while year <= hi
      invariant lo <= year <= hi + 1
      invariant rows == GapsThrough(files, lo, year - 1)
    {
      rows := AddYearRow(files, lo, year, rows);
      year := year + 1;
    }
    assert year - 1 == hi;
  }

  /** One pass of the year loop: the set difference for year y, appended when non-empty. */
  method AddYearRow(files: seq<FileInfo>, lo: int, y: int, rows: seq<Gap>) returns (rows': seq<Gap>)
    requires lo <= y && MonthsOf(files, y) != []
    requires rows == GapsThrough(files, lo, y - 1)
    ensures rows' == GapsThrough(files, lo, y)
  {
    var months := MonthsOf(files, y);
    var missing := MissingMonths(MinOf(months), MaxOf(months), months);
    GapsThroughStep(files, lo, y);
    rows' := if missing == [] then rows else rows + [Gap(y, missing)];
  }

  /** Year y has a gap: some month between its first and last month has no file. */
  predicate HasGap(files: seq<FileInfo>, y: int)
  {
    var months := MonthsOf(files, y);
    exists m :: MinOf(months) < m < MaxOf(months) && m !in months
  }

  /**
   * The months reported for a year are exactly those strictly between its
   * first and last month that have no file, and there are some exactly
   * when the year has a gap.
   */
  lemma MissingOfSpec(files: seq<FileInfo>, y: int)
    ensures forall m :: m in MissingOf(files, y) <==>
      MinOf(MonthsOf(files, y)) < m < MaxOf(MonthsOf(files, y)) && m !in MonthsOf(files, y)
    ensures MissingOf(files, y) != [] <==> HasGap(files, y)
  {
    var months := MonthsOf(files, y);
    var missing := MissingOf(files, y);
    if months != [] {
      var lo, hi := MinOf(months), MaxOf(months);
      assert lo in months && hi in months;
      forall m
        ensures m in missing <==> lo < m < hi && m !in months
      {
        assert m in missing <==> lo <= m <= hi && m !in months;
      }
      if missing != [] {
        assert missing[0] in missing;
      }
      if HasGap(files, y) {
        var m :| lo < m < hi && m !in months;
        assert m in missing;
      }
    }
  }

  /** Every row names a year of lo..hi and carries that year's non-empty list of missing months. */
  predicate RowsWellFormed(files: seq<FileInfo>, lo: int, hi: int, g: seq<Gap>)
  {
    forall k :: 0 <= k < |g| ==>
      lo <= g[k].year <= hi && g[k].missing == MissingOf(files, g[k].year) && g[k].missing != []
  }

  predicate YearsIncreasing(g: seq<Gap>)
  {
    forall i, j :: 0 <= i < j < |g| ==> g[i].year < g[j].year
  }

  lemma {:induction false} GapsRows(files: seq<FileInfo>, lo: int, y: int)
    ensures RowsWellFormed(files, lo, y, GapsThrough(files, lo, y))
    decreases y - lo
  {
    if y >= lo {
      GapsRows(files, lo, y - 1);
      var g0 := GapsThrough(files, lo, y - 1);
      var missing := MissingOf(files, y);
      var g := GapsThrough(files, lo, y);
      assert g == g0 + (if missing == [] then [] else [Gap(y, missing)]);
      forall k | 0 <= k < |g|
        ensures lo <= g[k].year <= y && g[k].missing == MissingOf(files, g[k].year) && g[k].missing != []
      {
        if k < |g0| {
          assert g[k] == g0[k];
        } else {
          assert g[k] == Gap(y, missing);
        }
      }
    }
  }

  /** Rows come in strictly increasing year order. */
  lemma {:induction false} GapsIncreasing(files: seq<FileInfo>, lo: int, y: int)
    ensures YearsIncreasing(GapsThrough(files, lo, y))
    decreases y - lo
  {
    if y >= lo {
      GapsIncreasing(files, lo, y - 1);
      GapsRows(files, lo, y - 1);
      var g0 := GapsThrough(files, lo, y - 1);
      var missing := MissingOf(files, y);
      var g := GapsThrough(files, lo, y);
      assert g == g0 + (if missing == [] then [] else [Gap(y, missing)]);
      forall i, j | 0 <= i < j < |g|
        ensures g[i].year < g[j].year
      {
        assert g[i] == g0[i];
        if j < |g0| {
          assert g[j] == g0[j];
        }
      }
    }
  }

  /** Some row of g is for year yy. */
  predicate HasRow(g: seq<Gap>, yy: int)
  {
    exists k :: 0 <= k < |g| && g[k].year == yy
  }

  lemma HasRowAppend(g0: seq<Gap>, tail: seq<Gap>, yy: int)
    ensures HasRow(g0 + tail, yy) <==> HasRow(g0, yy) || HasRow(tail, yy)
  {
    var g := g0 + tail;
    if HasRow(g, yy) {
      var k :| 0 <= k < |g| && g[k].year == yy;
      if k < |g0| {
        assert g0[k] == g[k];
      } else {
        assert tail[k - |g0|] == g[k];
      }
    }
    if HasRow(g0, yy) {
      var k :| 0 <= k < |g0| && g0[k].year == yy;
      assert g[k] == g0[k];
    }
    if HasRow(tail, yy) {
      var k :| 0 <= k < |tail| && tail[k].year == yy;
      assert g[|g0| + k] == tail[k];
    }
  }

  /** A year of the range has a row exactly when it has a gap. */
  lemma {:induction false} GapsComplete(files: seq<FileInfo>, lo: int, y: int, yy: int)
    requires lo <= yy <= y
    ensures HasGap(files, yy) <==> HasRow(GapsThrough(files, lo, y), yy)
    decreases y - lo
  {
    var g0 := GapsThrough(files, lo, y - 1);
    var missing := MissingOf(files, y);
    var tail := if missing == [] then [] else [Gap(y, missing)];
    GapsThroughStep(files, lo, y);
    HasRowAppend(g0, tail, yy);
    MissingOfSpec(files, y);
    if yy < y {
      GapsComplete(files, lo, y - 1, yy);
      assert !HasRow(tail, yy);
    } else {
      GapsRows(files, lo, y - 1);
      assert !HasRow(g0, y);
      if HasGap(files, y) {
        assert tail[0].year == y;
      }
    }
  }

  /** checkYears finds no gap exactly when every year's months are contiguous. */
  lemma GapReportNoneIff(files: seq<FileInfo>)
    requires EveryYearPresent(files)
    ensures GapReport(files).None? <==>
      forall y :: MinYear(files) <= y <= MaxYear(files) ==> !HasGap(files, y)
  {
    var lo, hi := MinYear(files), MaxYear(files);
    var g := GapsThrough(files, lo, hi);
    GapsRows(files, lo, hi);
    if g != [] {
      assert g[0].year == g[0].year;
      GapsComplete(files, lo, hi, g[0].year);
    } else {
      forall y | lo <= y <= hi
        ensures !HasGap(files, y)
      {
        GapsComplete(files, lo, hi, y);
      }
    }
  }

  /** For a table of a single year the report is that year's row, if it has one. */
  lemma SingleYearReport(files: seq<FileInfo>, y: int)
    requires files != [] && forall i :: 0 <= i < |files| ==> files[i].year == y
    ensures EveryYearPresent(files)
    ensures GapReport(files) == if MissingOf(files, y) == [] then None else Some([Gap(y, MissingOf(files, y))])
  {
    SingleYearRange(Years(files), y);
    assert MinYear(files) == y && MaxYear(files) == y;
    MonthsOfMembers(files, y, files[0].month);
    assert files[0].month in MonthsOf(files, y);
    GapsThroughStep(files, y, y);
    assert GapsThrough(files, y, y - 1) == [];
    assert GapsThrough(files, y, y) == if MissingOf(files, y) == [] then [] else [Gap(y, MissingOf(files, y))];
  }

  /** A table whose rows all carry year y spans exactly that year. */
  lemma SingleYearRange(ys: seq<int>, y: int)
    requires ys != [] && forall i :: 0 <= i < |ys| ==> ys[i] == y
    ensures MinOf(ys) == y && MaxOf(ys) == y
  {
    AscendingMinMax(ys);
  }

  /** A year with files for months 1, 2, 4 and 5. */
  const GapTable: seq<FileInfo> :=
    [FileInfo(2020, 1, Hourly, "a"), FileInfo(2020, 2, Hourly, "b"),
     FileInfo(2020, 4, Hourly, "c"), FileInfo(2020, 5, Hourly, "d")]

  /** A year with files for months 1 to 3. */
  const FullTable: seq<FileInfo> :=
    [FileInfo(2021, 1, Hourly, "a"), FileInfo(2021, 2, Hourly, "b"), FileInfo(2021, 3, Hourly, "c")]

  /** Months [1, 2, 4, 5] in one year: month 3 is reported missing. */
  lemma GapExample()
    ensures EveryYearPresent(GapTable) && GapReport(GapTable) == Some([Gap(2020, [3])])
  {
    SingleYearReport(GapTable, 2020);
    GapTableMissing();
  }

  lemma GapTableMissing()
    ensures MissingOf(GapTable, 2020) == [3]
  {
    GapTableMonths();
    AscendingMinMax([1, 2, 4, 5]);
    MissingThree();
  }

  lemma GapTableMonths()
    ensures MonthsOf(GapTable, 2020) == [1, 2, 4, 5]
  {
    var t := GapTable;
    assert MonthsOf(t[3..], 2020) == [5];
    assert MonthsOf(t[2..], 2020) == [4, 5];
    assert MonthsOf(t[1..], 2020) == [2, 4, 5];
  }

  lemma MissingThree()
    ensures MissingMonths(1, 5, [1, 2, 4, 5]) == [3]
  {
    assert MissingMonths(1, 2, [1, 2, 4, 5]) == [];
    assert MissingMonths(1, 3, [1, 2, 4, 5]) == [3];
    assert MissingMonths(1, 4, [1, 2, 4, 5]) == [3];
  }

  /** Months [1, 2, 3]: no gap, so checkYears returns None. */
  lemma NoGapExample()
    ensures EveryYearPresent(FullTable) && GapReport(FullTable) == None
  {
    SingleYearReport(FullTable, 2021);
    FullTableMissing();
  }

  lemma FullTableMissing()
    ensures MissingOf(FullTable, 2021) == []
  {
    FullTableMonths();
    AscendingMinMax([1, 2, 3]);
    assert MissingMonths(1, 2, [1, 2, 3]) == [];
    assert MissingMonths(1, 3, [1, 2, 3]) == [];
  }

  lemma FullTableMonths()
    ensures MonthsOf(FullTable, 2021) == [1, 2, 3]
  {
    var t := FullTable;
    assert MonthsOf(t[2..], 2021) == [3];
    assert MonthsOf(t[1..], 2021) == [2, 3];
  }

  // ---------------------------------------------------------------- checkVariables

  /** A dataset of the folder: its name and the list of its data variables, in file order. */
  datatype Dataset = Dataset(filename: string, variables: seq<string>)

  /** Where checkVariables opens a dataset: the folder, one separator, the name. */
  function DatasetPath(pathDat: string, filename: string): (p: string)
    ensures p == WithSlash(pathDat) + filename
    ensures EndsWithSlash(pathDat) ==> p == pathDat + filename
  {
    WithSlash(pathDat) + filename
  }

  /**
   * The i-th dataset is reported: no earlier dataset has its variable list,
   * and its name differs from the first dataset's.
   */
  predicate Flagged(files: seq<Dataset>, i: int)
    requires 0 <= i < |files|
  {
    (forall j :: 0 <= j < i ==> files[j].variables != files[i].variables)
    && files[i].filename != files[0].filename
  }

  /** The names reported among the first n datasets, in order. */
  function FlaggedNames(files: seq<Dataset>, n: nat): seq<string>
    requires n <= |files|
  {
    if n == 0 then []
    else FlaggedNames(files, n - 1) + (if Flagged(files, n - 1) then [files[n - 1].filename] else [])
  }

  /** checkVariables: the scan that remembers each variable list it has seen. */
  method CheckVariables(files: seq<Dataset>) returns (different: seq<string>)
    ensures different == FlaggedNames(files, |files|)
  {
    var variables: seq<seq<string>> := [];
    different := [];
    for i := 0 to |files|
      invariant forall v :: v in variables <==> exists j :: 0 <= j < i && files[j].variables == v
      invariant different == FlaggedNames(files, i)
    {
      var f := files[i];
      if f.variables !in variables {
        variables := variables + [f.variables];
        if f.filename != files[0].filename {
          different := different + [f.filename];
        }
      } else {
        var j :| 0 <= j < i && files[j].variables == f.variables;
        assert !Flagged(files, i);
      }
    }
  }

  /** A name is reported exactly when some dataset with that name is flagged. */
  lemma {:induction false} FlaggedNamesIff(files: seq<Dataset>, n: nat, name: string)
    requires n <= |files|
    ensures name in FlaggedNames(files, n) <==>
      exists i :: 0 <= i < n && Flagged(files, i) && files[i].filename == name
  {
    if n > 0 {
      FlaggedNamesIff(files, n - 1, name);
      var head := FlaggedNames(files, n - 1);
      var flagged := Flagged(files, n - 1);
      var last := if flagged then [files[n - 1].filename] else [];
      assert FlaggedNames(files, n) == head + last;
      assert name in head + last <==> name in head || name in last;
      if exists i :: 0 <= i < n && Flagged(files, i) && files[i].filename == name {
        var i :| 0 <= i < n && Flagged(files, i) && files[i].filename == name;
        if i == n - 1 {
          assert name in last;
        }
      }
    }
  }

  /** The first dataset is the reference: its name is never reported. */
  lemma FirstNeverReported(files: seq<Dataset>)
    requires files != []
    ensures files[0].filename !in FlaggedNames(files, |files|)
  {
    FlaggedNamesIff(files, |files|, files[0].filename);
  }

  /** When every dataset has the first one's variables, nothing is reported. */
  lemma {:induction false} SameVariablesNoneReported(files: seq<Dataset>, n: nat)
    requires n <= |files|
    requires forall i :: 0 <= i < |files| ==> files[i].variables == files[0].variables
    ensures FlaggedNames(files, n) == []
  {
    if n > 0 {
      SameVariablesNoneReported(files, n - 1);
      if n - 1 > 0 {
        assert files[0].variables == files[n - 1].variables;
      }
    }
  }

  /** Three datasets, the third with an extra variable: only the third is reported. */
  lemma VariablesExample()
    ensures var files := [Dataset("ERA_land_yr_2020_mnth_1.nc", ["t2m", "tp"]),
                          Dataset("ERA_land_yr_2020_mnth_2.nc", ["t2m", "tp"]),
                          Dataset("ERA_land_yr_2020_mnth_3.nc", ["t2m", "tp", "e"])];
            FlaggedNames(files, 3) == ["ERA_land_yr_2020_mnth_3.nc"]
  {
    var files := [Dataset("ERA_land_yr_2020_mnth_1.nc", ["t2m", "tp"]),
                  Dataset("ERA_land_yr_2020_mnth_2.nc", ["t2m", "tp"]),
                  Dataset("ERA_land_yr_2020_mnth_3.nc", ["t2m", "tp", "e"])];
    assert files[0].variables == files[1].variables;
    assert files[0].variables != files[2].variables && files[1].variables != files[2].variables
      by { assert |files[2].variables| == 3; }
    assert files[2].filename != files[0].filename by { assert files[2].filename[22] != files[0].filename[22]; }
    assert FlaggedNames(files, 1) == [];
    assert FlaggedNames(files, 2) == [];
  }

  // ---------------------------------------------------------------- weekly_cdo

  /** Hourly data: 24 time steps a day; a week of them is one averaging window. */
  const DailySteps := 24
  const WeekSteps := 7 * DailySteps

  /**
   * Days from the first timestamp, whose weekday() is firstDay (Monday = 0),
   * to the first Monday at or after it.
   */
  function DayOffset(firstDay: int): (r: int)
    requires 0 <= firstDay <= 6
    ensures 0 <= r <= 6 && LandsOnMonday(firstDay, r)
    ensures forall k :: 0 <= k < r ==> !LandsOnMonday(firstDay, k)
  {
    if firstDay == 0 then firstDay else 7 - firstDay
  }

  /** k days after a day with weekday() firstDay is a Monday. */
  predicate LandsOnMonday(firstDay: int, k: int)
  {
    (firstDay + k) % 7 == 0
  }

  /** tstep_start: the first time step (counted from 1) handed to the averaging. */
  function FirstTimestep(firstDay: int): int
    requires 0 <= firstDay <= 6
  {
    DailySteps * DayOffset(firstDay) + 1
  }

  /** Time step t of hourly data starts a day. */
  predicate AtMidnight(t: int)
  {
    (t - 1) % DailySteps == 0
  }

  /** The day of time step t of hourly data whose first step is midnight of start. */
  function StepDay(start: Date, t: int): Date
    requires Valid(start) && t >= 1
  {
    AddDays(start, (t - 1) / DailySteps)
  }

  /** The selection starts at midnight of a Monday, and no earlier day of the file is a Monday. */
  lemma FirstTimestepIsFirstMonday(start: Date)
    requires Valid(start)
    ensures AtMidnight(FirstTimestep(Weekday(start)))
    ensures Weekday(StepDay(start, FirstTimestep(Weekday(start)))) == 0
    ensures forall t :: 1 <= t < FirstTimestep(Weekday(start)) ==> Weekday(StepDay(start, t)) != 0
  {
    var w := Weekday(start);
    var off := DayOffset(w);
    StepsOfDays(off);
    AddDaysWeekday(start, off);
    forall t | 1 <= t < FirstTimestep(w)
      ensures Weekday(StepDay(start, t)) != 0
    {
      var k := (t - 1) / DailySteps;
      assert 0 <= k < off;
      assert !LandsOnMonday(w, k);
      AddDaysWeekday(start, k);
    }
  }

  /** The step that starts day n (counted from 0) of the file. */
  lemma StepsOfDays(n: int)
    ensures AtMidnight(DailySteps * n + 1) && (DailySteps * n + 1 - 1) / DailySteps == n
  {
  }

  /** Every averaging window of WeekSteps steps after the first one also starts at midnight of a Monday. */
  lemma WindowStartsOnMonday(start: Date, k: nat)
    requires Valid(start)
    ensures AtMidnight(FirstTimestep(Weekday(start)) + k * WeekSteps)
    ensures Weekday(StepDay(start, FirstTimestep(Weekday(start)) + k * WeekSteps)) == 0
  {
    var w := Weekday(start);
    var off := DayOffset(w);
    var n := off + 7 * k;
    assert FirstTimestep(w) + k * WeekSteps == DailySteps * n + 1;
    assert LandsOnMonday(w, n) by { ModShift(w + off, 7 * k); }
    DayStartIsMonday(start, n);
  }

  /** The step that starts day n of the file, when that day is a Monday. */
  lemma DayStartIsMonday(start: Date, n: nat)
    requires Valid(start) && LandsOnMonday(Weekday(start), n)
    ensures AtMidnight(DailySteps * n + 1) && Weekday(StepDay(start, DailySteps * n + 1)) == 0
  {
    StepsOfDays(n);
    AddDaysWeekday(start, n);
  }

  /** A year as four digits, zero-padded, as a timestamp prints it. */
  function Pad4(y: int): (s: string)
    requires 0 <= y <= 9999
    ensures |s| == 4 && AllDigits(s) && DigitsValue(s) == y
  {
    var s := [DigitChar(y / 1000), DigitChar(y / 100 % 10), DigitChar(y / 10 % 10), DigitChar(y % 10)];
    FourDigitsValue(s);
    DecimalPlaces(y);
    s
  }

  /** The value of a four-digit numeral, digit by digit. */
  lemma FourDigitsValue(s: string)
    requires |s| == 4 && AllDigits(s)
    ensures DigitsValue(s) == 1000 * (s[0] as int - '0' as int) + 100 * (s[1] as int - '0' as int)
      + 10 * (s[2] as int - '0' as int) + (s[3] as int - '0' as int)
  {
    var d0, d1, d2, d3 := s[0] as int - '0' as int, s[1] as int - '0' as int,
      s[2] as int - '0' as int, s[3] as int - '0' as int;
    assert s[..1][..0] == [] && s[..1][0] == s[0];
    assert DigitsValue(s[..1]) == d0;
    assert s[..2][..1] == s[..1] && s[..2][1] == s[1];
    assert DigitsValue(s[..2]) == 10 * d0 + d1;
    assert s[..3][..2] == s[..2] && s[..3][2] == s[2];
    assert DigitsValue(s[..3]) == 100 * d0 + 10 * d1 + d2;
  }

  /** A year below 10000 from its thousands, hundreds, tens and units. */
  lemma DecimalPlaces(y: int)
    requires 0 <= y <= 9999
    ensures y == 1000 * (y / 1000) + 100 * (y / 100 % 10) + 10 * (y / 10 % 10) + y % 10
  {
    assert y == 10 * (y / 10) + y % 10;
    assert y / 10 == 10 * (y / 100) + y / 10 % 10 by {
      assert y / 10 / 10 == y / 100;
    }
    assert y / 100 == 10 * (y / 1000) + y / 100 % 10 by {
      assert y / 100 / 10 == y / 1000;
    }
  }

  /** From year 1000 on, the padded year is str(year). */
  lemma Pad4IsDecimal(y: int)
    requires 1000 <= y <= 9999
    ensures Pad4(y) == NatToString(y)
  {
    assert y / 10 / 10 == y / 100 && y / 100 / 10 == y / 1000;
    assert NatToString(y / 1000) == [DigitChar(y / 1000)];
    assert NatToString(y / 100) == [DigitChar(y / 1000), DigitChar(y / 100 % 10)];
    assert NatToString(y / 10) == [DigitChar(y / 1000), DigitChar(y / 100 % 10), DigitChar(y / 10 % 10)];
  }

  /** The dates part of the names: f"{start}_{end}", each date as year then unpadded month. */
  function DateSpan(firstYear: int, firstMonth: int, lastYear: int, lastMonth: int): string
  {
    IntToString(firstYear) + IntToString(firstMonth) + "_" + IntToString(lastYear) + IntToString(lastMonth)
  }

  /** out_file of the merge: f"{name_prefix}_{start}_{end}.nc". */
  function MergedName(prefix: string, firstYear: int, firstMonth: int, lastYear: int, lastMonth: int): string
  {
    prefix + "_" + DateSpan(firstYear, firstMonth, lastYear, lastMonth) + ".nc"
  }

  /** The dates part as the averaging rebuilds it from the merged file's first timestamp. */
  function StampSpan(firstStamp: Date, lastYear: int, lastMonth: int): string
    requires Valid(firstStamp) && firstStamp.year <= 9999
  {
    Pad4(firstStamp.year) + IntToString(firstStamp.month) + "_" + IntToString(lastYear) + IntToString(lastMonth)
  }

  /** The file the averaging reads. */
  function AveragingInput(prefix: string, firstStamp: Date, lastYear: int, lastMonth: int): string
    requires Valid(firstStamp) && firstStamp.year <= 9999
  {
    prefix + "_" + StampSpan(firstStamp, lastYear, lastMonth) + ".nc"
  }

  /** The rows that remain once the reported datasets are dropped, in table order. */
  function Kept(files: seq<FileInfo>, different: seq<string>): (r: seq<FileInfo>)
    ensures forall f :: f in r <==> f in files && f.filename !in different
  {
    if files == [] then []
    else (if files[0].filename in different then [] else [files[0]]) + Kept(files[1..], different)
  }

  /** The hourly names of the table, in table order: the inputs of mergetime. */
  function HourlyNames(files: seq<FileInfo>): (r: seq<string>)
    ensures forall n :: n in r <==> exists f :: f in files && f.res == Hourly && f.filename == n
  {
    if files == [] then []
    else
      var rest := HourlyNames(files[1..]);
      assert forall f :: f in files <==> f == files[0] || f in files[1..];
      (if files[0].res == Hourly then [files[0].filename] else []) + rest
  }

  /** The two CDO invocations weekly_cdo can issue, both run from the data folder. */
  datatype Command =
    | MergeTime(dir: string, inputs: seq<string>, output: string)
    | WeeklyMean(dir: string, window: int, firstStep: int, lastStep: int, input: string, output: string)

  /** What weekly_cdo does: the gap report it warns with and the commands it runs. */
  datatype WeeklyRun = WeeklyRun(gaps: Option<seq<Gap>>, commands: seq<Command>)

  /** path_out handling as written: the test is on out_file, which always ends in ".nc". */
  function OutPathAsWritten(pathOut: Option<string>, outFile: string): string
  {
    match pathOut
    case None => outFile
    case Some(p) => if EndsWithSlash(outFile) then p + outFile else p + "/" + outFile
  }

  /** The evident intent: one separator between path_out and the file name. */
  function OutPath(pathOut: Option<string>, outFile: string): (r: string)
    ensures pathOut.None? ==> r == outFile
    ensures pathOut.Some? ==> r == WithSlash(pathOut.value) + outFile
  {
    match pathOut
    case None => outFile
    case Some(p) => WithSlash(p) + outFile
  }

  /** As written, a path_out that already ends in '/' gets a second one. */
  lemma OutPathAsWrittenDoublesSlash(p: string, outFile: string)
    requires EndsWithSlash(p) && outFile != [] && outFile[|outFile| - 1] == 'c'
    ensures OutPathAsWritten(Some(p), outFile) == p + "/" + outFile
    ensures OutPathAsWritten(Some(p), outFile) != OutPath(Some(p), outFile)
  {
    var a := OutPathAsWritten(Some(p), outFile);
    assert a[|p|] == '/' && a[|p| - 1] == '/';
    assert |a| == |OutPath(Some(p), outFile)| + 1;
  }

  /** The counterexample: path_out "out/" yields "out//ERA_land_20201_202012.nc". */
  lemma OutPathAsWrittenExample()
    ensures OutPathAsWritten(Some("out/"), "ERA_land_20201_202012.nc") == "out//ERA_land_20201_202012.nc"
  {
    var name := "ERA_land_20201_202012.nc";
    assert name[|name| - 1] == 'c';
    assert "out/" + "/" + name == "out//ERA_land_20201_202012.nc";
  }

  /** With the test on path_out, the same call gives a single separator. */
  lemma OutPathExample()
    ensures OutPath(Some("out/"), "ERA_land_20201_202012.nc") == "out/ERA_land_20201_202012.nc"
  {
    assert EndsWithSlash("out/");
    assert "out/" + "ERA_land_20201_202012.nc" == "out/ERA_land_20201_202012.nc";
  }

  /** The first and last (year, month) of a table, as weekly_cdo reads them off the sorted rows. */
  function FirstMonth(files: seq<FileInfo>): int
    requires EveryYearPresent(files)
  {
    YearsOrdered(files);
    MonthsOf(files, MinYear(files))[0]
  }

  function LastMonth(files: seq<FileInfo>): int
    requires EveryYearPresent(files)
  {
    YearsOrdered(files);
    var ms := MonthsOf(files, MaxYear(files));
    ms[|ms| - 1]
  }

  lemma YearsOrdered(files: seq<FileInfo>)
    requires files != []
    ensures MinYear(files) <= MaxYear(files)
  {
    MinOfIsLeast(Years(files), files[0].year);
    MaxOfIsGreatest(Years(files), files[0].year);
  }

  /** The merge, unless its output already exists. */
  function MergeStep(pathDat: string, kept: seq<FileInfo>, outFile: string, existing: set<string>): seq<Command>
  {
    if outFile in existing then [] else [MergeTime(pathDat, HourlyNames(kept), outFile)]
  }

  /** The weekly averaging, unless its output already exists. */
  function AverageStep(pathDat: string, prefix: string, pathOut: Option<string>, outFile: string,
                       lastYear: int, lastMonth: int, existing: set<string>,
                       steps: int, firstStamp: Date): seq<Command>
    requires Valid(firstStamp) && firstStamp.year <= 9999
  {
    var weeklyOut := ReplaceAll(OutPath(pathOut, outFile), ".nc", "_weekly.nc");
    if weeklyOut in existing then []
    else [WeeklyMean(pathDat, WeekSteps, FirstTimestep(Weekday(firstStamp)), steps,
                     AveragingInput(prefix, firstStamp, lastYear, lastMonth), weeklyOut)]
  }

  /** The merged file's name for a table. */
  function MergedFile(prefix: string, kept: seq<FileInfo>): string
    requires EveryYearPresent(kept)
  {
    MergedName(prefix, MinYear(kept), FirstMonth(kept), MaxYear(kept), LastMonth(kept))
  }

  /**
   * weekly_cdo over a parsed, sorted table.  The I/O it depends on are
   * parameters: the names checkVariables reports, the paths that exist
   * under the data folder, and what it reads back from the merged file
   * (its number of time steps and the day of its first step).
   */
  function WeeklyCdo(pathDat: string, prefix: string, pathOut: Option<string>,
                     files: seq<FileInfo>, different: seq<string>, existing: set<string>,
                     steps: int, firstStamp: Date): WeeklyRun
    requires EveryYearPresent(Kept(files, different))
    requires Valid(firstStamp) && firstStamp.year <= 9999
  {
    var kept := Kept(files, different);
    var outFile := MergedFile(prefix, kept);
    WeeklyRun(GapReport(kept),
              MergeStep(pathDat, kept, outFile, existing)
              + AverageStep(pathDat, prefix, pathOut, outFile, MaxYear(kept), LastMonth(kept),
                            existing, steps, firstStamp))
  }

  /** The merge lists exactly the hourly files that were not reported, and runs only when its output is missing. */
  lemma MergeStepSpec(pathDat: string, files: seq<FileInfo>, different: seq<string>,
                      outFile: string, existing: set<string>)
    ensures forall c :: c in MergeStep(pathDat, Kept(files, different), outFile, existing) ==>
      && c.MergeTime? && c.dir == pathDat && c.output == outFile && outFile !in existing
      && forall n :: n in c.inputs <==>
           exists f :: f in files && f.res == Hourly && f.filename == n && n !in different
  {
    var kept := Kept(files, different);
    forall n
      ensures n in HourlyNames(kept) <==>
        exists f :: f in files && f.res == Hourly && f.filename == n && n !in different
    {
      if n in HourlyNames(kept) {
        var f :| f in kept && f.res == Hourly && f.filename == n;
        assert f in files;
      }
      if exists f :: f in files && f.res == Hourly && f.filename == n && n !in different {
        var f :| f in files && f.res == Hourly && f.filename == n && n !in different;
        assert f in kept;
      }
    }
  }

  /**
   * The averaging takes week-long windows up to the last step, the first
   * window starting at midnight of the first Monday of the merged file, and
   * runs only when its output is missing.
   */
  lemma AverageStepSpec(pathDat: string, prefix: string, pathOut: Option<string>, outFile: string,
                        lastYear: int, lastMonth: int, existing: set<string>,
                        steps: int, firstStamp: Date)
    requires Valid(firstStamp) && firstStamp.year <= 9999
    ensures forall c :: c in AverageStep(pathDat, prefix, pathOut, outFile, lastYear, lastMonth,
                                         existing, steps, firstStamp) ==>
      && c.WeeklyMean? && c.dir == pathDat && c.output !in existing
      && c.window == 7 * 24 && c.lastStep == steps
      && c.output == ReplaceAll(OutPath(pathOut, outFile), ".nc", "_weekly.nc")
      && AtMidnight(c.firstStep) && c.firstStep >= 1
      && Weekday(StepDay(firstStamp, c.firstStep)) == 0
      && forall t :: 1 <= t < c.firstStep ==> Weekday(StepDay(firstStamp, t)) != 0
  {
    FirstTimestepIsFirstMonday(firstStamp);
  }

  /** weekly_cdo issues at most the merge and then the averaging, and reports the gaps of the table it keeps. */
  lemma WeeklyCommands(pathDat: string, prefix: string, pathOut: Option<string>,
                       files: seq<FileInfo>, different: seq<string>, existing: set<string>,
                       steps: int, firstStamp: Date)
    requires EveryYearPresent(Kept(files, different))
    requires Valid(firstStamp) && firstStamp.year <= 9999
    ensures var run := WeeklyCdo(pathDat, prefix, pathOut, files, different, existing, steps, firstStamp);
      && run.gaps == GapReport(Kept(files, different))
      && |run.commands| <= 2
      && (forall i :: 0 <= i < |run.commands| ==> run.commands[i].dir == pathDat)
      && (forall i, j :: 0 <= i < j < |run.commands| ==> run.commands[i].MergeTime? && run.commands[j].WeeklyMean?)
  {
    var kept := Kept(files, different);
    var outFile := MergedFile(prefix, kept);
    var m := MergeStep(pathDat, kept, outFile, existing);
    var a := AverageStep(pathDat, prefix, pathOut, outFile, MaxYear(kept), LastMonth(kept), existing, steps, firstStamp);
    MergeStepShape(pathDat, kept, outFile, existing);
    AverageStepShape(pathDat, prefix, pathOut, outFile, MaxYear(kept), LastMonth(kept), existing, steps, firstStamp);
    MergeThenAverage(m, a, pathDat);
  }

  lemma MergeStepShape(pathDat: string, kept: seq<FileInfo>, outFile: string, existing: set<string>)
    ensures var m := MergeStep(pathDat, kept, outFile, existing);
      |m| <= 1 && forall c :: c in m ==> c.MergeTime? && c.dir == pathDat
  {
  }

  lemma AverageStepShape(pathDat: string, prefix: string, pathOut: Option<string>, outFile: string,
                         lastYear: int, lastMonth: int, existing: set<string>,
                         steps: int, firstStamp: Date)
    requires Valid(firstStamp) && firstStamp.year <= 9999
    ensures var a := AverageStep(pathDat, prefix, pathOut, outFile, lastYear, lastMonth, existing, steps, firstStamp);
      |a| <= 1 && forall c :: c in a ==> c.WeeklyMean? && c.dir == pathDat
  {
  }

  /** A list of at most one merge followed by at most one averaging, all in one folder. */
  lemma MergeThenAverage(m: seq<Command>, a: seq<Command>, dir: string)
    requires |m| <= 1 && forall c :: c in m ==> c.MergeTime? && c.dir == dir
    requires |a| <= 1 && forall c :: c in a ==> c.WeeklyMean? && c.dir == dir
    ensures |m + a| <= 2
    ensures forall i :: 0 <= i < |m + a| ==> (m + a)[i].dir == dir
    ensures forall i, j :: 0 <= i < j < |m + a| ==> (m + a)[i].MergeTime? && (m + a)[j].WeeklyMean?
  {
    var cs := m + a;
    forall i | 0 <= i < |cs|
      ensures cs[i].dir == dir
    {
      if i < |m| { assert cs[i] in m; } else { assert cs[i] == a[i - |m|] && cs[i] in a; }
    }
    forall i, j | 0 <= i < j < |cs|
      ensures cs[i].MergeTime? && cs[j].WeeklyMean?
    {
      assert cs[i] == m[0] && cs[i] in m;
      assert cs[j] == a[0] && cs[j] in a;
    }
  }

  /**
   * When the merged file's first time step is in the first month of the
   * first year, from year 1000 on, the averaging reads the very file the
   * merge wrote.
   */
  lemma AveragingReadsMergedFile(prefix: string, kept: seq<FileInfo>, firstStamp: Date)
    requires EveryYearPresent(kept)
    requires Valid(firstStamp) && 1000 <= firstStamp.year <= 9999
    requires firstStamp.year == MinYear(kept) && firstStamp.month == FirstMonth(kept)
    ensures AveragingInput(prefix, firstStamp, MaxYear(kept), LastMonth(kept)) ==
      MergedName(prefix, MinYear(kept), FirstMonth(kept), MaxYear(kept), LastMonth(kept))
  {
    Pad4IsDecimal(firstStamp.year);
  }

  /**
   * The weekly output name: ".nc" occurs in the merged name only at its
   * end, so replace() only turns the extension into "_weekly.nc".
   */
  lemma WeeklyName(prefix: string, y0: nat, m0: nat, y1: nat, m1: nat)
    requires !Contains(prefix + "_", ".nc")
    ensures ReplaceAll(MergedName(prefix, y0, m0, y1, m1), ".nc", "_weekly.nc") ==
      prefix + "_" + DateSpan(y0, m0, y1, m1) + "_weekly.nc"
  {
    DateDigitsHaveNoDot(NatToString(y0) + NatToString(m0), NatToString(y1) + NatToString(m1));
    ExtensionReplaced(prefix + "_", DateSpan(y0, m0, y1, m1));
  }

  lemma ExtensionReplaced(a: string, d: string)
    requires !Contains(a, ".nc") && |a| > 0 && a[|a| - 1] == '_'
    requires forall k :: 0 <= k < |d| ==> d[k] != '.'
    ensures ReplaceAll(a + d + ".nc", ".nc", "_weekly.nc") == a + d + "_weekly.nc"
  {
    OnlyFinalExtension(a, d);
    ReplaceAllAtEnd(a + d, ".nc", "_weekly.nc");
  }

  lemma DateDigitsHaveNoDot(x: string, y: string)
    requires AllDigits(x) && AllDigits(y)
    ensures forall k :: 0 <= k < |x + "_" + y| ==> (x + "_" + y)[k] != '.'
  {
    forall k | 0 <= k < |x + "_" + y|
      ensures (x + "_" + y)[k] != '.'
    {
      if k < |x| { assert (x + "_" + y)[k] == x[k]; }
      else if k > |x| { assert (x + "_" + y)[k] == y[k - |x| - 1]; }
    }
  }

  /** No ".nc" starts before the final one in a + d + ".nc" when a has none and d has no dot. */
  lemma OnlyFinalExtension(a: string, d: string)
    requires !Contains(a, ".nc") && |a| > 0 && a[|a| - 1] == '_'
    requires forall k :: 0 <= k < |d| ==> d[k] != '.'
    ensures forall i :: 0 <= i < |a + d| ==> !MatchAt((a + d) + ".nc", ".nc", i)
  {
    NoMatchStartingIn(a, d + ".nc", ".nc");
    assert a + (d + ".nc") == (a + d) + ".nc";
    forall i | |a| <= i < |a + d|
      ensures !MatchAt((a + d) + ".nc", ".nc", i)
    {
      var t := (a + d) + ".nc";
      assert t[i] == d[i - |a|];
      if i + 3 <= |t| {
        assert t[i..i + 3][0] == t[i];
      }
    }
  }
}
