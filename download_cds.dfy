/**
 * The download scheduling of downloadCDS: the name each monthly file is
 * saved under, the skip-if-present rule, the calendar-month walk of
 * downloadMultipleCDS and the top-up rules of completeDataset (download
 * the months checkYears reports missing, drop an incomplete last month,
 * fetch the months since).  The retrieval itself is abstract: the store
 * is told up front which targets the server fails to deliver.
 */
module CdsDownload {
  import opened Wrappers
  import opened Text
  import opened Calendar
  import opened ClimateTemporal

  // ---------------------------------------------------------------- file names

  /** f"{name_prefix}_yr_{year}_mnth_{month}.nc". */
  function TargetName(prefix: string, year: int, month: int): string
  {
    prefix + "_yr_" + IntToString(year) + "_mnth_" + IntToString(month) + ".nc"
  }

  /** The saved file: the folder with a trailing '/' added if missing, then the name. */
  function TargetPath(pathSave: string, prefix: string, year: int, month: int): (p: string)
    ensures EndsWithSlash(pathSave) ==> p == pathSave + TargetName(prefix, year, month)
    ensures !EndsWithSlash(pathSave) ==> p == pathSave + "/" + TargetName(prefix, year, month)
  {
    WithSlash(pathSave) + TargetName(prefix, year, month)
  }

  /** What a prefix must avoid for parse_name to read its names back. */
  predicate ReadablePrefix(prefix: string)
  {
    !Contains(prefix + "_", "yr_") && !Contains(prefix + "_", "mnth_")
    && !Contains(prefix, "weekly") && !Contains(prefix, "daily")
  }

  /** parse_name reads back the year, the month and "hourly" from every name downloadCDS writes. */
  lemma NameRoundTrip(prefix: string, year: nat, month: nat)
    requires ReadablePrefix(prefix)
    ensures ParseName(TargetName(prefix, year, month)) ==
      Some(FileInfo(year, month, Hourly, TargetName(prefix, year, month)))
  {
    var name := TargetName(prefix, year, month);
    var y, m := NatToString(year), NatToString(month);
    YearFound(prefix, y, m);
    MonthFound(prefix, y, m);
    NoResolutionWord(prefix, y, m);
    NatToStringValue(year);
    NatToStringValue(month);
  }

  /**
   * A tag whose first occurrence follows a separator-ended text free of it
   * is found there, and the digits after it are what NumberAfter reads.
   */
  lemma TagFound(a: string, tag: string, d: string, r: string)
    requires |tag| > 0 && !Contains(a, tag) && |a| > 0 && a[|a| - 1] == '_'
    requires forall k :: 0 <= k < |tag| - 1 ==> tag[k] != '_'
    requires AllDigits(d) && d != [] && r != [] && !IsDigit(r[0])
    ensures NumberAfter(a + tag + d + r, tag) == Some(DigitsValue(d))
  {
    var name := a + tag + d + r;
    TagFirstAt(a, tag, d + r);
    assert name == a + tag + (d + r);
    assert name[|a| + |tag|..] == d + r;
    LeadingDigitsOfNumeral(d, r);
  }

  lemma TagFirstAt(a: string, tag: string, rest: string)
    requires |tag| > 0 && !Contains(a, tag) && |a| > 0 && a[|a| - 1] == '_'
    requires forall k :: 0 <= k < |tag| - 1 ==> tag[k] != '_'
    ensures Find(a + tag + rest, tag) == Some(|a|)
  {
    var name := a + tag + rest;
    assert name == a + (tag + rest);
    NoMatchStartingIn(a, tag + rest, tag);
    assert name[|a|..|a| + |tag|] == tag;
    FindAt(name, tag, |a|);
  }

  /** The first "yr_" of a name is the one after the prefix, and the year's digits follow it. */
  lemma YearFound(prefix: string, y: string, m: string)
    requires !Contains(prefix + "_", "yr_") && AllDigits(y) && y != []
    ensures var name := prefix + "_yr_" + y + "_mnth_" + m + ".nc";
      NumberAfter(name, "yr_") == Some(DigitsValue(y))
  {
    TagFound(prefix + "_", "yr_", y, "_mnth_" + m + ".nc");
    YearRegrouped(prefix, y, m);
  }

  lemma YearRegrouped(prefix: string, y: string, m: string)
    ensures prefix + "_yr_" + y + "_mnth_" + m + ".nc" == (prefix + "_") + "yr_" + y + ("_mnth_" + m + ".nc")
  {
    assert "_yr_" == "_" + "yr_";
    var c := (prefix + "_") + "yr_" + y;
    assert prefix + "_yr_" + y == c;
    assert ((c + "_mnth_") + m) + ".nc" == c + (("_mnth_" + m) + ".nc");
  }

  /** The first "mnth_" of a name is the one after the year, and the month's digits follow it. */
  lemma MonthFound(prefix: string, y: string, m: string)
    requires !Contains(prefix + "_", "mnth_") && AllDigits(y) && AllDigits(m) && m != []
    ensures var name := prefix + "_yr_" + y + "_mnth_" + m + ".nc";
      NumberAfter(name, "mnth_") == Some(DigitsValue(m))
  {
    var a := prefix + "_yr_" + y + "_";
    MonthTagFree(prefix, y);
    assert a[|a| - 1] == '_';
    TagWithoutInnerSeparator("mnth_");
    MonthRegrouped(prefix, y, m);
    TagFound(a, "mnth_", m, ".nc");
  }

  /** "mnth_" and "yr_" have no '_' before their last character. */
  lemma TagWithoutInnerSeparator(tag: string)
    requires tag == "mnth_" || tag == "yr_"
    ensures |tag| > 0 && forall k :: 0 <= k < |tag| - 1 ==> tag[k] != '_'
  {
  }

  lemma MonthRegrouped(prefix: string, y: string, m: string)
    ensures prefix + "_yr_" + y + "_mnth_" + m + ".nc" == (prefix + "_yr_" + y + "_") + "mnth_" + m + ".nc"
  {
    var x := prefix + "_yr_" + y;
    assert "_mnth_" == "_" + "mnth_";
    assert x + "_mnth_" == (x + "_") + "mnth_";
  }

  lemma MonthTagFree(prefix: string, y: string)
    requires !Contains(prefix + "_", "mnth_") && AllDigits(y)
    ensures !Contains(prefix + "_yr_" + y + "_", "mnth_")
  {
    var b := "yr_" + y + "_";
    NoM(y, b);
    NoMatchInConcat(prefix + "_", b, "mnth_");
    assert prefix + "_yr_" + y + "_" == (prefix + "_") + b;
  }

  lemma NoM(y: string, b: string)
    requires AllDigits(y) && b == "yr_" + y + "_"
    ensures forall k :: 0 <= k < |b| ==> b[k] != 'm'
  {
    forall k | 0 <= k < |b| ensures b[k] != 'm' {
      if 3 <= k < 3 + |y| {
        assert b[k] == y[k - 3];
      }
    }
  }

  /** Nothing after the prefix spells "weekly" or "daily". */
  lemma NoResolutionWord(prefix: string, y: string, m: string)
    requires !Contains(prefix, "weekly") && !Contains(prefix, "daily") && AllDigits(y) && AllDigits(m)
    ensures var name := prefix + "_yr_" + y + "_mnth_" + m + ".nc";
      !Contains(name, "weekly") && !Contains(name, "daily")
  {
    var tail := "_yr_" + y + "_mnth_" + m + ".nc";
    forall k | 0 <= k < |tail| ensures tail[k] != 'w' && tail[k] != 'd' {
      if 4 <= k < 4 + |y| {
        assert tail[k] == y[k - 4];
      } else if 10 + |y| <= k < 10 + |y| + |m| {
        assert tail[k] == m[k - 10 - |y|];
      }
    }
    NoMatchWithoutFirstChar(tail, "weekly");
    NoMatchWithoutFirstChar(tail, "daily");
    NoMatchAcrossSeparator(prefix, tail, "weekly");
    NoMatchAcrossSeparator(prefix, tail, "daily");
    assert prefix + "_yr_" + y + "_mnth_" + m + ".nc" == prefix + tail;
  }

  /** Different months are saved under different names. */
  lemma NamesDistinct(prefix: string, y1: nat, m1: nat, y2: nat, m2: nat)
    requires ReadablePrefix(prefix)
    requires TargetName(prefix, y1, m1) == TargetName(prefix, y2, m2)
    ensures y1 == y2 && m1 == m2
  {
    NameRoundTrip(prefix, y1, m1);
    NameRoundTrip(prefix, y2, m2);
  }

  /** The default prefix can be read back. */
  lemma DefaultPrefixReadable()
    ensures ReadablePrefix("ERA_land")
  {
    assert "ERA_land" + "_" == "ERA_land_";
    NoMatchWithoutFirstChar("ERA_land_", "yr_");
    NoMatchWithoutFirstChar("ERA_land_", "mnth_");
    NoMatchWithoutFirstChar("ERA_land", "weekly");
    forall i | 0 <= i <= |"ERA_land"| - |"daily"| ensures !MatchAt("ERA_land", "daily", i) {
      assert "ERA_land"[i..i + 5][0] == "ERA_land"[i] != 'd';
    }
  }

  /** The name of March 2020 under the default prefix. */
  lemma DefaultName()
    ensures TargetName("ERA_land", 2020, 3) == "ERA_land_yr_2020_mnth_3.nc"
  {
    YearDigits2020();
    assert IntToString(3) == "3";
  }

  /** What parse_name makes of that name. */
  lemma DefaultNameParsed()
    ensures ParseName("ERA_land_yr_2020_mnth_3.nc") ==
      Some(FileInfo(2020, 3, Hourly, "ERA_land_yr_2020_mnth_3.nc"))
  {
    DefaultPrefixReadable();
    DefaultName();
    NameRoundTrip("ERA_land", 2020, 3);
  }

  lemma YearDigits2020()
    ensures NatToString(2020) == "2020"
  {
    assert NatToString(2) == "2";
    assert NatToString(20) == "20";
    assert NatToString(202) == "202";
  }

  /** A prefix ending in "yr" hides the year: the name is written but cannot be read back. */
  lemma PrefixEndingInYrUnreadable()
    ensures ParseName(TargetName("ERA_yr", 2020, 3)) == None
  {
    var name := TargetName("ERA_yr", 2020, 3);
    assert name[4..7] == "yr_";
    forall j | 0 <= j < 4 ensures !MatchAt(name, "yr_", j) {
      assert name[j] != 'y';
    }
    ParseNameNeedsYearDigits(name, 4);
  }

  // ---------------------------------------------------------------- month walks

  /** One call of downloadCDS, by year and month. */
  datatype Request = Request(year: int, month: int)

  /** Months from January of year 0 on, so that consecutive calendar months differ by one. */
  function Index(r: Request): int
  {
    12 * r.year + r.month - 1
  }

  /** The calendar month after r. */
  function Next(r: Request): Request
  {
    if r.month == 12 then Request(r.year + 1, 1) else Request(r.year, r.month + 1)
  }

  /** `for month in range(a, b)` within one year. */
  function MonthRange(year: int, a: int, b: int): (r: seq<Request>)
    ensures |r| == if a < b then b - a else 0
    ensures forall i :: 0 <= i < |r| ==> r[i] == Request(year, a + i)
    decreases b - a
  {
    if b <= a then [] else MonthRange(year, a, b - 1) + [Request(year, b - 1)]
  }

  /** The months downloadMultipleCDS asks for in one year of its year loop. */
  function YearMonths(monthStart: int, monthEnd: int, yearStart: int, yearEnd: int, year: int): seq<Request>
  {
    if year == yearStart then MonthRange(year, monthStart, 13)
    else if year == yearEnd then MonthRange(year, 1, monthEnd + 1)
    else MonthRange(year, 1, 13)
  }

  /** The months asked for by the years yearStart .. y - 1 of the year loop. */
  function YearsBefore(monthStart: int, monthEnd: int, yearStart: int, yearEnd: int, y: int): seq<Request>
    decreases y - yearStart
  {
    if y <= yearStart then []
    else
      YearsBefore(monthStart, monthEnd, yearStart, yearEnd, y - 1) +
      YearMonths(monthStart, monthEnd, yearStart, yearEnd, y - 1)
  }

  /** Every request downloadMultipleCDS issues, in order. */
  function MonthWalk(monthStart: int, monthEnd: int, yearStart: int, yearEnd: int): seq<Request>
  {
    if yearStart == yearEnd then MonthRange(yearStart, monthStart, monthEnd + 1)
    else YearsBefore(monthStart, monthEnd, yearStart, yearEnd, yearEnd + 1)
  }

  /** Within one year the walk is month_start .. month_end, ascending, and empty when they are reversed. */
  lemma SameYearWalk(monthStart: int, monthEnd: int, year: int)
    ensures var w := MonthWalk(monthStart, monthEnd, year, year);
      |w| == (if monthStart <= monthEnd then monthEnd - monthStart + 1 else 0)
      && forall i :: 0 <= i < |w| ==> w[i] == Request(year, monthStart + i)
  {
  }

  /** A start year after the end year asks for nothing. */
  lemma {:induction false} BackwardsWalkEmpty(monthStart: int, monthEnd: int, yearStart: int, yearEnd: int)
    requires yearStart > yearEnd
    ensures MonthWalk(monthStart, monthEnd, yearStart, yearEnd) == []
  {
    assert yearEnd + 1 <= yearStart;
  }

  /** The months of the years before y run on from the start month without a gap. */
  lemma {:induction false} YearsBeforeContiguous(monthStart: int, monthEnd: int, yearStart: int, yearEnd: int, y: int)
    requires yearStart < y <= yearEnd && 1 <= monthStart <= 12
    ensures var w := YearsBefore(monthStart, monthEnd, yearStart, yearEnd, y);
      |w| == 12 * (y - yearStart) - monthStart + 1
      && forall i :: 0 <= i < |w| ==>
        1 <= w[i].month <= 12 && Index(w[i]) == 12 * yearStart + monthStart - 1 + i
    decreases y - yearStart
  {
    var w := YearsBefore(monthStart, monthEnd, yearStart, yearEnd, y);
    var base := 12 * yearStart + monthStart - 1;
    if y == yearStart + 1 {
      assert YearsBefore(monthStart, monthEnd, yearStart, yearEnd, y - 1) == [];
      assert w == MonthRange(yearStart, monthStart, 13);
      MonthRangeCounts(yearStart, monthStart, 13);
    } else {
      YearsBeforeContiguous(monthStart, monthEnd, yearStart, yearEnd, y - 1);
      var w0 := YearsBefore(monthStart, monthEnd, yearStart, yearEnd, y - 1);
      var tail := MonthRange(y - 1, 1, 13);
      assert w == w0 + tail;
      MonthRangeCounts(y - 1, 1, 13);
      assert base + |w0| == 12 * (y - 1) + 1 - 1;
      CountsAppend(w0, tail, base);
    }
  }

  /** The months a .. b - 1 of one year count up by one from that year's month a. */
  lemma MonthRangeCounts(year: int, a: int, b: int)
    requires 1 <= a && b <= 13
    ensures var r := MonthRange(year, a, b);
      forall i :: 0 <= i < |r| ==> 1 <= r[i].month <= 12 && Index(r[i]) == 12 * year + a - 1 + i
  {
  }

  /** Two runs of consecutive month indices, the second picking up where the first stops, form one. */
  lemma CountsAppend(a: seq<Request>, b: seq<Request>, base: int)
    requires forall i :: 0 <= i < |a| ==> 1 <= a[i].month <= 12 && Index(a[i]) == base + i
    requires forall i :: 0 <= i < |b| ==> 1 <= b[i].month <= 12 && Index(b[i]) == base + |a| + i
    ensures forall i :: 0 <= i < |a + b| ==> 1 <= (a + b)[i].month <= 12 && Index((a + b)[i]) == base + i
  {
    forall i | 0 <= i < |a + b|
      ensures 1 <= (a + b)[i].month <= 12 && Index((a + b)[i]) == base + i
    {
      if i < |a| {
        assert (a + b)[i] == a[i];
      } else {
        assert (a + b)[i] == b[i - |a|];
      }
    }
  }

  /**
   * Across years, with months in 1..12, the walk is every calendar month
   * from (year_start, month_start) to (year_end, month_end), each once, in order.
   */
  lemma MultipleWalkContiguous(monthStart: int, monthEnd: int, yearStart: int, yearEnd: int)
    requires yearStart < yearEnd && 1 <= monthStart <= 12 && 1 <= monthEnd <= 12
    ensures var w := MonthWalk(monthStart, monthEnd, yearStart, yearEnd);
      |w| == 12 * (yearEnd - yearStart) + monthEnd - monthStart + 1
      && forall i :: 0 <= i < |w| ==>
        1 <= w[i].month <= 12 && Index(w[i]) == 12 * yearStart + monthStart - 1 + i
  {
    YearsBeforeContiguous(monthStart, monthEnd, yearStart, yearEnd, yearEnd);
    var w0 := YearsBefore(monthStart, monthEnd, yearStart, yearEnd, yearEnd);
    var tail := MonthRange(yearEnd, 1, monthEnd + 1);
    var w := MonthWalk(monthStart, monthEnd, yearStart, yearEnd);
    assert w == w0 + tail;
    MonthRangeCounts(yearEnd, 1, monthEnd + 1);
    var base := 12 * yearStart + monthStart - 1;
    assert base + |w0| == 12 * yearEnd + 1 - 1;
    CountsAppend(w0, tail, base);
  }

  /**
   * Requests with valid months whose indices count up by one from
   * (y0, m0) to (y1, m1) start and end there and are consecutive calendar months.
   */
  lemma ContiguousEnds(w: seq<Request>, y0: int, m0: int, y1: int, m1: int)
    requires 1 <= m0 <= 12 && 1 <= m1 <= 12 && 12 * y0 + m0 <= 12 * y1 + m1
    requires |w| == 12 * (y1 - y0) + m1 - m0 + 1
    requires forall i :: 0 <= i < |w| ==> 1 <= w[i].month <= 12 && Index(w[i]) == 12 * y0 + m0 - 1 + i
    ensures w != [] && w[0] == Request(y0, m0) && w[|w| - 1] == Request(y1, m1)
    ensures forall i :: 0 <= i < |w| - 1 ==> w[i + 1] == Next(w[i])
  {
    assert Index(w[0]) == 12 * y0 + m0 - 1;
    assert Index(w[|w| - 1]) == 12 * y1 + m1 - 1;
    forall i | 0 <= i < |w| - 1 ensures w[i + 1] == Next(w[i]) {
      assert Index(w[i + 1]) == Index(w[i]) + 1;
    }
  }

  /** The walk starts at (year_start, month_start), ends at (year_end, month_end) and steps one month at a time. */
  lemma MultipleWalkEnds(monthStart: int, monthEnd: int, yearStart: int, yearEnd: int)
    requires yearStart < yearEnd && 1 <= monthStart <= 12 && 1 <= monthEnd <= 12
    ensures var w := MonthWalk(monthStart, monthEnd, yearStart, yearEnd);
      w != [] && w[0] == Request(yearStart, monthStart) && w[|w| - 1] == Request(yearEnd, monthEnd)
      && forall i :: 0 <= i < |w| - 1 ==> w[i + 1] == Next(w[i])
  {
    MultipleWalkContiguous(monthStart, monthEnd, yearStart, yearEnd);
    ContiguousEnds(MonthWalk(monthStart, monthEnd, yearStart, yearEnd), yearStart, monthStart, yearEnd, monthEnd);
  }

  // ---------------------------------------------------------------- skip-if-present

  /** The file one request is saved under. */
  function PathOf(pathSave: string, prefix: string, r: Request): string
  {
    TargetPath(pathSave, prefix, r.year, r.month)
  }

  /** The saved files of a run of requests, in order. */
  function PathsOf(pathSave: string, prefix: string, reqs: seq<Request>): (ps: seq<string>)
    ensures |ps| == |reqs|
    ensures forall i :: 0 <= i < |reqs| ==> ps[i] == PathOf(pathSave, prefix, reqs[i])
  {
    seq(|reqs|, i requires 0 <= i < |reqs| => PathOf(pathSave, prefix, reqs[i]))
  }

  /** The files present after a run of downloads: every target the server delivers is added. */
  function FilesAfter(present: set<string>, unavailable: set<string>, paths: seq<string>): set<string>
  {
    present + (set p | p in paths && p !in unavailable)
  }

  /**
   * The retrievals a run of downloads attempts, in order: a target already
   * present is skipped; one the server delivers is present from then on.
   */
  function Retrieved(present: set<string>, unavailable: set<string>, paths: seq<string>): seq<string>
    decreases |paths|
  {
    if paths == [] then []
    else if paths[0] in present then Retrieved(present, unavailable, paths[1..])
    else [paths[0]] + Retrieved(present + (if paths[0] in unavailable then {} else {paths[0]}), unavailable, paths[1..])
  }

  /** A target occurs twice among the retrievals only if the server failed on it. */
  predicate RefetchedOnlyIfUnavailable(r: seq<string>, unavailable: set<string>)
  {
    forall i, j :: 0 <= i < j < |r| && r[i] == r[j] ==> r[i] in unavailable
  }

  /**
   * A run never retrieves a file that was already there, retrieves every
   * missing one, and fetches a file a second time only after the server failed on it.
   */
  lemma {:induction false} RetrievedSkipsPresent(present: set<string>, unavailable: set<string>, paths: seq<string>)
    ensures forall p :: p in Retrieved(present, unavailable, paths) ==> p in paths && p !in present
    ensures forall p :: p in paths && p !in present ==> p in Retrieved(present, unavailable, paths)
    ensures RefetchedOnlyIfUnavailable(Retrieved(present, unavailable, paths), unavailable)
    decreases |paths|
  {
    if paths != [] {
      var p, rest := paths[0], paths[1..];
      assert paths == [p] + rest;
      var r := Retrieved(present, unavailable, paths);
      if p in present {
        RetrievedSkipsPresent(present, unavailable, rest);
        forall q | q in paths && q !in present ensures q in rest {
          assert q != p;
        }
      } else {
        var next := present + (if p in unavailable then {} else {p});
        RetrievedSkipsPresent(next, unavailable, rest);
        var r1 := Retrieved(next, unavailable, rest);
        assert r == [p] + r1;
        forall i, j | 0 <= i < j < |r| && r[i] == r[j] ensures r[i] in unavailable {
          if i == 0 {
            assert r[0] == p;
            assert r[j] == r1[j - 1] && r1[j - 1] in r1;
            assert p !in next;
          } else {
            assert r[i] == r1[i - 1] && r[j] == r1[j - 1];
          }
        }
      }
    }
  }

  /** Requested months whose files are all present retrieve nothing. */
  lemma NothingMissingNothingRetrieved(present: set<string>, unavailable: set<string>, paths: seq<string>)
    requires forall p :: p in paths ==> p in present
    ensures Retrieved(present, unavailable, paths) == []
  {
    RetrievedSkipsPresent(present, unavailable, paths);
  }

  /** The folders present after a run: the target folder, once any request has been made. */
  function DirsAfter(dirs: set<string>, pathSave: string, reqs: seq<Request>): set<string>
  {
    if reqs == [] then dirs else dirs + {pathSave}
  }

  // ---------------------------------------------------------------- completeDataset

  /** A datetime: a date and the seconds since its midnight. */
  datatype Stamp = Stamp(date: Date, second: int)

  predicate ValidStamp(s: Stamp)
  {
    Valid(s.date) && 0 <= s.second < 86400
  }

  function Seconds(s: Stamp): int
    requires ValidStamp(s)
  {
    Ordinal(s.date) * 86400 + s.second
  }

  /** (later - earlier).days: whole days, rounded down as timedelta does. */
  function DaysBetween(later: Stamp, earlier: Stamp): (r: int)
    requires ValidStamp(later) && ValidStamp(earlier)
    ensures r * 86400 <= Seconds(later) - Seconds(earlier) < r * 86400 + 86400
  {
    (Seconds(later) - Seconds(earlier)) / 86400
  }

  /** Two stamps at the same time of day are as many days apart as their dates. */
  lemma DaysBetweenSameTime(later: Stamp, earlier: Stamp)
    requires ValidStamp(later) && ValidStamp(earlier) && later.second == earlier.second
    ensures DaysBetween(later, earlier) == Ordinal(later.date) - Ordinal(earlier.date)
  {
    var d := Ordinal(later.date) - Ordinal(earlier.date);
    assert Seconds(later) - Seconds(earlier) == d * 86400;
  }

  /** delete_file: the last timestamp is not on the last day of its month. */
  predicate LastMonthIncomplete(last: Stamp)
    requires ValidStamp(last)
  {
    last.date.day != DaysInMonth(last.date.year, last.date.month)
  }

  /** The last month is incomplete exactly when the day after the last timestamp is still in that month. */
  lemma IncompleteIffMonthGoesOn(last: Stamp)
    requires ValidStamp(last)
    ensures LastMonthIncomplete(last) <==> AddDays(last.date, 1).month == last.date.month
  {
    LastDayOfMonth(last.date);
  }

  /** The month number the code's loops stop at: the current month less floor(diff_threshold / 30), not wrapped into the year before. */
  function CutoffMonth(now: Date, threshold: int): int
  {
    now.month - threshold / 30
  }

  /** The months the top-up asks for as the code is written. */
  function RefreshAsWritten(year: int, month: int, now: Date, threshold: int): seq<Request>
  {
    if year == now.year then MonthRange(year, month, CutoffMonth(now, threshold) + 1)
    else
      MonthRange(year, month, 13) +
      (if now.month > 2 then MonthRange(now.year, 1, CutoffMonth(now, threshold) + 1) else [])
  }

  /** As written, a lag of more than a year asks only for the last file's year and the current one. */
  lemma RefreshAsWrittenSkipsYears(year: int, month: int, now: Date, threshold: int)
    requires year + 1 < now.year
    ensures var w := RefreshAsWritten(year, month, now, threshold);
      forall i :: 0 <= i < |w| ==> w[i].year == year || w[i].year == now.year
  {
    var w := RefreshAsWritten(year, month, now, threshold);
    var a := MonthRange(year, month, 13);
    var b := if now.month > 2 then MonthRange(now.year, 1, CutoffMonth(now, threshold) + 1) else [];
    assert w == a + b;
    forall i | 0 <= i < |w| ensures w[i].year == year || w[i].year == now.year {
      if i < |a| {
        assert w[i] == a[i];
      } else {
        assert w[i] == b[i - |a|];
      }
    }
  }

  /** Last file November 2019, now 15 June 2021, threshold 65: 2020 is never asked for. */
  lemma RefreshAsWrittenExample()
    ensures var w := RefreshAsWritten(2019, 11, Date(2021, 6, 15), 65);
      |w| == 6 && w[0] == Request(2019, 11) && w[1] == Request(2019, 12)
      && w[2] == Request(2021, 1) && w[5] == Request(2021, 4)
      && Request(2020, 1) !in w
  {
    RefreshAsWrittenSkipsYears(2019, 11, Date(2021, 6, 15), 65);
    var w := RefreshAsWritten(2019, 11, Date(2021, 6, 15), 65);
    assert w == MonthRange(2019, 11, 13) + MonthRange(2021, 1, 5);
  }

  /** The calendar month with month index k: the inverse of Index. */
  function FromIndex(k: int): (r: Request)
    ensures 1 <= r.month <= 12 && Index(r) == k
  {
    Request(k / 12, k % 12 + 1)
  }

  /** The cutoff as a month index: floor(diff_threshold / 30) months before the current month. */
  function CutoffIndex(now: Date, threshold: int): int
  {
    Index(Request(now.year, now.month)) - threshold / 30
  }

  /**
   * The top-up as intended: every calendar month from the last file's
   * month to the cutoff month, the walk downloadMultipleCDS makes, even
   * when the cutoff falls in an earlier year than the current one.
   */
  function RefreshWalk(year: int, month: int, now: Date, threshold: int): seq<Request>
  {
    var cutoff := FromIndex(CutoffIndex(now, threshold));
    MonthWalk(month, cutoff.month, year, cutoff.year)
  }

  /**
   * The intended top-up is the run of consecutive month indices from the
   * last file's month to the cutoff: empty when the last file's month is
   * past the cutoff, otherwise starting there, ending at the cutoff month
   * and stepping one calendar month at a time.
   */
  lemma RefreshWalkContiguous(year: int, month: int, now: Date, threshold: int)
    requires 1 <= month <= 12
    ensures var w := RefreshWalk(year, month, now, threshold);
      var first := Index(Request(year, month));
      var last := CutoffIndex(now, threshold);
      |w| == (if first <= last then last - first + 1 else 0)
      && forall i :: 0 <= i < |w| ==> 1 <= w[i].month <= 12 && Index(w[i]) == first + i
    ensures var w := RefreshWalk(year, month, now, threshold);
      w != [] ==>
        w[0] == Request(year, month) && w[|w| - 1] == FromIndex(CutoffIndex(now, threshold))
        && forall i :: 0 <= i < |w| - 1 ==> w[i + 1] == Next(w[i])
  {
    var cutoff := FromIndex(CutoffIndex(now, threshold));
    var w := RefreshWalk(year, month, now, threshold);
    assert w == MonthWalk(month, cutoff.month, year, cutoff.year);
    if cutoff.year < year {
      BackwardsWalkEmpty(month, cutoff.month, year, cutoff.year);
    } else if cutoff.year == year {
      assert w == MonthRange(year, month, cutoff.month + 1);
      MonthRangeCounts(year, month, cutoff.month + 1);
    } else {
      MultipleWalkContiguous(month, cutoff.month, year, cutoff.year);
    }
    if w != [] {
      ContiguousEnds(w, year, month, cutoff.year, cutoff.month);
    }
  }

  /** Last file November 2019, now 15 January 2021, threshold 65: November 2019 to November 2020, thirteen months. */
  lemma RefreshWalkExample()
    ensures var w := RefreshWalk(2019, 11, Date(2021, 1, 15), 65);
      |w| == 13 && w[0] == Request(2019, 11) && w[12] == Request(2020, 11)
  {
    var now := Date(2021, 1, 15);
    assert CutoffIndex(now, 65) == 12 * 2020 + 10;
    assert FromIndex(12 * 2020 + 10) == Request(2020, 11);
    RefreshWalkContiguous(2019, 11, now, 65);
  }

  /**
   * Both agree when the last file is from the current year and the cutoff
   * is not past December; a cutoff before January asks for nothing in both.
   */
  lemma RefreshAgreesSameYear(year: int, month: int, now: Date, threshold: int)
    requires year == now.year && 1 <= month && CutoffMonth(now, threshold) <= 12
    ensures RefreshAsWritten(year, month, now, threshold) == RefreshWalk(year, month, now, threshold)
  {
    var c := CutoffMonth(now, threshold);
    var cutoff := FromIndex(CutoffIndex(now, threshold));
    assert CutoffIndex(now, threshold) == 12 * year + c - 1;
    if c >= 1 {
      assert cutoff == Request(year, c);
    } else {
      assert cutoff.year < year;
      BackwardsWalkEmpty(month, cutoff.month, year, cutoff.year);
    }
  }

  /**
   * Both agree when the last file is from the year before, the current
   * month is past February and the cutoff is a month of the current year.
   */
  lemma {:induction false} RefreshAgreesNextYear(year: int, month: int, now: Date, threshold: int)
    requires year + 1 == now.year && now.month > 2 && 1 <= CutoffMonth(now, threshold) <= 12
    ensures RefreshAsWritten(year, month, now, threshold) == RefreshWalk(year, month, now, threshold)
  {
    var c := CutoffMonth(now, threshold);
    assert CutoffIndex(now, threshold) == 12 * now.year + c - 1;
    assert FromIndex(CutoffIndex(now, threshold)) == Request(now.year, c);
    assert YearsBefore(month, c, year, now.year, year) == [];
    assert YearsBefore(month, c, year, now.year, year + 1) == MonthRange(year, month, 13);
    assert YearsBefore(month, c, year, now.year, year + 2) == MonthRange(year, month, 13) + MonthRange(now.year, 1, c + 1);
  }

  /** One report row as requests: its year with each of its missing months, in order. */
  function RowRequests(year: int, months: seq<int>): (r: seq<Request>)
    ensures |r| == |months| && forall i :: 0 <= i < |r| ==> r[i] == Request(year, months[i])
  {
    if months == [] then [] else RowRequests(year, months[..|months| - 1]) + [Request(year, months[|months| - 1])]
  }

  /** The nested loop over the report: every row, every missing month of the row. */
  function MissingRequests(gaps: seq<Gap>): seq<Request>
  {
    if gaps == [] then []
    else MissingRequests(gaps[..|gaps| - 1]) + RowRequests(gaps[|gaps| - 1].year, gaps[|gaps| - 1].missing)
  }

  /** A request comes from the row of its year and is one of that row's months. */
  lemma {:induction false} MissingRequestsMembers(gaps: seq<Gap>, r: Request)
    ensures r in MissingRequests(gaps) <==> exists k :: 0 <= k < |gaps| && gaps[k].year == r.year && r.month in gaps[k].missing
  {
    if gaps != [] {
      var n := |gaps| - 1;
      var g0 := gaps[..n];
      MissingRequestsMembers(g0, r);
      var row := RowRequests(gaps[n].year, gaps[n].missing);
      assert MissingRequests(gaps) == MissingRequests(g0) + row;
      if r in row {
        var i :| 0 <= i < |row| && row[i] == r;
        assert gaps[n].year == r.year && r.month in gaps[n].missing;
      }
      if exists k :: 0 <= k < |gaps| && gaps[k].year == r.year && r.month in gaps[k].missing {
        var k :| 0 <= k < |gaps| && gaps[k].year == r.year && r.month in gaps[k].missing;
        if k < n {
          assert g0[k] == gaps[k];
        } else {
          var i :| 0 <= i < |gaps[n].missing| && gaps[n].missing[i] == r.month;
          assert row[i] == r;
        }
      }
    }
  }

  /** The order the missing months are requested in: by year, then by month. */
  predicate Before(a: Request, b: Request)
  {
    a.year < b.year || (a.year == b.year && a.month < b.month)
  }

  predicate StrictlyAscending(rs: seq<Request>)
  {
    forall i, j :: 0 <= i < j < |rs| ==> Before(rs[i], rs[j])
  }

  predicate MonthsAscending(ms: seq<int>)
  {
    forall i, j :: 0 <= i < j < |ms| ==> ms[i] < ms[j]
  }

  /** Rows in increasing year order with ascending months give requests in ascending order, each once. */
  lemma {:induction false} MissingRequestsAscending(gaps: seq<Gap>)
    requires YearsIncreasing(gaps)
    requires forall k :: 0 <= k < |gaps| ==> MonthsAscending(gaps[k].missing)
    ensures StrictlyAscending(MissingRequests(gaps))
  {
    if gaps != [] {
      var n := |gaps| - 1;
      var g0 := gaps[..n];
      assert YearsIncreasing(g0);
      MissingRequestsAscending(g0);
      var head := MissingRequests(g0);
      var row := RowRequests(gaps[n].year, gaps[n].missing);
      var rs := MissingRequests(gaps);
      assert rs == head + row;
      forall i, j | 0 <= i < j < |rs| ensures Before(rs[i], rs[j]) {
        if j < |head| {
          assert rs[i] == head[i] && rs[j] == head[j];
        } else if i >= |head| {
          assert rs[i] == row[i - |head|] && rs[j] == row[j - |head|];
        } else {
          assert rs[i] == head[i] && head[i] in head;
          MissingRequestsMembers(g0, head[i]);
          assert rs[j] == row[j - |head|];
        }
      }
    }
  }

  /** What completeDataset does, as data: the gap downloads, the file to remove, the top-up. */
  datatype Plan = Plan(missing: seq<Request>, remove: Option<string>, refresh: seq<Request>)

  /**
   * The plan for a folder whose sorted table is table, whose last file ends
   * at last, at time now.  Lag and completeness are judged on the last file.
   */
  function CompletePlan(pathSave: string, table: seq<FileInfo>, last: Stamp, now: Stamp, threshold: int): (p: Plan)
    requires EveryYearPresent(table) && ValidStamp(last) && ValidStamp(now)
    ensures p.remove.Some? <==> DaysBetween(now, last) > threshold && LastMonthIncomplete(last)
    ensures p.remove.Some? ==> p.remove.value == DatasetPath(pathSave, table[|table| - 1].filename)
    ensures DaysBetween(now, last) <= threshold ==> p.refresh == []
  {
    var report := GapReport(table);
    var lastFile := table[|table| - 1];
    var lag := DaysBetween(now, last);
    Plan(if report.Some? then MissingRequests(report.value) else [],
         if lag > threshold && LastMonthIncomplete(last) then Some(DatasetPath(pathSave, lastFile.filename)) else None,
         if lag > threshold then RefreshWalk(lastFile.year, lastFile.month, now.date, threshold) else [])
  }

  /**
   * Every month checkYears reports missing is requested, nothing else is,
   * and in ascending order, so each exactly once.
   */
  lemma PlanMissingExact(pathSave: string, table: seq<FileInfo>, last: Stamp, now: Stamp, threshold: int)
    requires EveryYearPresent(table) && ValidStamp(last) && ValidStamp(now)
    ensures var reqs := CompletePlan(pathSave, table, last, now, threshold).missing;
      (forall r :: r in reqs <==> MinYear(table) <= r.year <= MaxYear(table) && r.month in MissingOf(table, r.year))
      && StrictlyAscending(reqs)
  {
    var lo, hi := MinYear(table), MaxYear(table);
    var g := GapsThrough(table, lo, hi);
    PlanMissingFromGaps(pathSave, table, last, now, threshold);
    GapsRequestsAscending(table, lo, hi);
    GapsRequestsExact(table, lo, hi);
  }

  lemma GapsRequestsExact(table: seq<FileInfo>, lo: int, hi: int)
    requires EveryYearPresent(table)
    ensures forall r :: r in MissingRequests(GapsThrough(table, lo, hi)) <==> lo <= r.year <= hi && r.month in MissingOf(table, r.year)
  {
    forall r ensures r in MissingRequests(GapsThrough(table, lo, hi)) <==> lo <= r.year <= hi && r.month in MissingOf(table, r.year) {
      GapsRequestMember(table, lo, hi, r);
    }
  }

  /** The months requested first are those of checkYears' report, year by year. */
  lemma PlanMissingFromGaps(pathSave: string, table: seq<FileInfo>, last: Stamp, now: Stamp, threshold: int)
    requires EveryYearPresent(table) && ValidStamp(last) && ValidStamp(now)
    ensures CompletePlan(pathSave, table, last, now, threshold).missing ==
      MissingRequests(GapsThrough(table, MinYear(table), MaxYear(table)))
  {
    var g := GapsThrough(table, MinYear(table), MaxYear(table));
    if g == [] {
      assert GapReport(table) == None;
    } else {
      assert GapReport(table) == Some(g);
    }
  }

  /** The requests built from the gaps of years lo..hi come in ascending order. */
  lemma GapsRequestsAscending(table: seq<FileInfo>, lo: int, hi: int)
    requires EveryYearPresent(table)
    ensures StrictlyAscending(MissingRequests(GapsThrough(table, lo, hi)))
  {
    var g := GapsThrough(table, lo, hi);
    GapsRows(table, lo, hi);
    GapsIncreasing(table, lo, hi);
    forall k | 0 <= k < |g| ensures MonthsAscending(g[k].missing) {
      var months := MonthsOf(table, g[k].year);
      MissingMonthsAscending(MinOf(months), MaxOf(months), months);
    }
    MissingRequestsAscending(g);
  }

  /** A request is built from the gaps of years lo..hi exactly when its month is missing in its year. */
  lemma GapsRequestMember(table: seq<FileInfo>, lo: int, hi: int, r: Request)
    requires EveryYearPresent(table)
    ensures r in MissingRequests(GapsThrough(table, lo, hi)) <==> lo <= r.year <= hi && r.month in MissingOf(table, r.year)
  {
    var g := GapsThrough(table, lo, hi);
    GapsRows(table, lo, hi);
    MissingRequestsMembers(g, r);
    if lo <= r.year <= hi && r.month in MissingOf(table, r.year) {
      MissingOfSpec(table, r.year);
      GapsComplete(table, lo, hi, r.year);
      var k :| 0 <= k < |g| && g[k].year == r.year;
    }
  }

  // ---------------------------------------------------------------- the store

  /**
   * The download folder as the functions see it: the folders and files
   * that exist, and a log of the calls of downloadCDS, of the retrievals
   * sent to the server and of the files removed.
   */
  datatype Store = Store(dirs: set<string>, files: set<string>, calls: seq<Request>,
                         retrievals: seq<string>, removals: seq<string>)

  /**
   * One call of downloadCDS: the folder is made if missing and the call
   * logged; a present target is skipped; otherwise it is retrieved, and
   * exists afterwards unless the server fails on it (the failure is caught).
   */
  function Step(s: Store, unavailable: set<string>, pathSave: string, prefix: string, r: Request): Store
  {
    var t := PathOf(pathSave, prefix, r);
    var s1 := s.(dirs := s.dirs + {pathSave}, calls := s.calls + [r]);
    if t in s.files then s1
    else s1.(retrievals := s.retrievals + [t], files := s.files + (if t in unavailable then {} else {t}))
  }

  /** A run of calls, in order. */
  function Run(s: Store, unavailable: set<string>, pathSave: string, prefix: string, reqs: seq<Request>): Store
    decreases |reqs|
  {
    if reqs == [] then s else Run(Step(s, unavailable, pathSave, prefix, reqs[0]), unavailable, pathSave, prefix, reqs[1..])
  }

  /** A run followed by another is the joined run. */
  lemma {:induction false} RunConcat(s: Store, unavailable: set<string>, pathSave: string, prefix: string,
                                     a: seq<Request>, b: seq<Request>)
    ensures Run(s, unavailable, pathSave, prefix, a + b) ==
      Run(Run(s, unavailable, pathSave, prefix, a), unavailable, pathSave, prefix, b)
    decreases |a|
  {
    if a == [] {
      assert a + b == b;
    } else {
      assert (a + b)[0] == a[0] && (a + b)[1..] == a[1..] + b;
      RunConcat(Step(s, unavailable, pathSave, prefix, a[0]), unavailable, pathSave, prefix, a[1..], b);
    }
  }

  /** A run extended by one more call. */
  lemma RunSnoc(s: Store, unavailable: set<string>, pathSave: string, prefix: string, reqs: seq<Request>, r: Request)
    ensures Run(s, unavailable, pathSave, prefix, reqs + [r]) ==
      Step(Run(s, unavailable, pathSave, prefix, reqs), unavailable, pathSave, prefix, r)
  {
    RunConcat(s, unavailable, pathSave, prefix, reqs, [r]);
    assert [r][1..] == [];
  }

  /** One call is logged at the end of the log. */
  lemma StepCalls(s: Store, unavailable: set<string>, pathSave: string, prefix: string, r: Request)
    ensures Step(s, unavailable, pathSave, prefix, r).calls == s.calls + [r]
  {
  }

  /** One call removes nothing. */
  lemma StepRemovals(s: Store, unavailable: set<string>, pathSave: string, prefix: string, r: Request)
    ensures Step(s, unavailable, pathSave, prefix, r).removals == s.removals
  {
  }

  /** One call makes the target folder. */
  lemma StepDirs(s: Store, unavailable: set<string>, pathSave: string, prefix: string, r: Request)
    ensures Step(s, unavailable, pathSave, prefix, r).dirs == s.dirs + {pathSave}
  {
  }

  lemma {:induction false} RunCalls(s: Store, unavailable: set<string>, pathSave: string, prefix: string, reqs: seq<Request>)
    ensures Run(s, unavailable, pathSave, prefix, reqs).calls == s.calls + reqs
    decreases |reqs|
  {
    if reqs != [] {
      var s' := Step(s, unavailable, pathSave, prefix, reqs[0]);
      StepCalls(s, unavailable, pathSave, prefix, reqs[0]);
      RunCalls(s', unavailable, pathSave, prefix, reqs[1..]);
      assert reqs == [reqs[0]] + reqs[1..];
    }
  }

  lemma {:induction false} RunRemovals(s: Store, unavailable: set<string>, pathSave: string, prefix: string, reqs: seq<Request>)
    ensures Run(s, unavailable, pathSave, prefix, reqs).removals == s.removals
    decreases |reqs|
  {
    if reqs != [] {
      StepRemovals(s, unavailable, pathSave, prefix, reqs[0]);
      RunRemovals(Step(s, unavailable, pathSave, prefix, reqs[0]), unavailable, pathSave, prefix, reqs[1..]);
    }
  }

  lemma {:induction false} RunDirs(s: Store, unavailable: set<string>, pathSave: string, prefix: string, reqs: seq<Request>)
    ensures Run(s, unavailable, pathSave, prefix, reqs).dirs == DirsAfter(s.dirs, pathSave, reqs)
    decreases |reqs|
  {
    if reqs != [] {
      var s' := Step(s, unavailable, pathSave, prefix, reqs[0]);
      StepDirs(s, unavailable, pathSave, prefix, reqs[0]);
      RunDirs(s', unavailable, pathSave, prefix, reqs[1..]);
      assert DirsAfter(s'.dirs, pathSave, reqs[1..]) == DirsAfter(s.dirs, pathSave, reqs);
    }
  }

  /** Every call of a run is logged, in order, and nothing is removed. */
  lemma RunLogs(s: Store, unavailable: set<string>, pathSave: string, prefix: string, reqs: seq<Request>)
    ensures Run(s, unavailable, pathSave, prefix, reqs).calls == s.calls + reqs
    ensures Run(s, unavailable, pathSave, prefix, reqs).removals == s.removals
    ensures Run(s, unavailable, pathSave, prefix, reqs).dirs == DirsAfter(s.dirs, pathSave, reqs)
  {
    RunCalls(s, unavailable, pathSave, prefix, reqs);
    RunRemovals(s, unavailable, pathSave, prefix, reqs);
    RunDirs(s, unavailable, pathSave, prefix, reqs);
  }

  /** Exactly the delivered targets are added. */
  lemma {:induction false} RunFiles(s: Store, unavailable: set<string>, pathSave: string, prefix: string, reqs: seq<Request>)
    ensures Run(s, unavailable, pathSave, prefix, reqs).files == FilesAfter(s.files, unavailable, PathsOf(pathSave, prefix, reqs))
    decreases |reqs|
  {
    var ps := PathsOf(pathSave, prefix, reqs);
    if reqs == [] {
      assert FilesAfter(s.files, unavailable, ps) == s.files;
    } else {
      var t := PathOf(pathSave, prefix, reqs[0]);
      var s1 := Step(s, unavailable, pathSave, prefix, reqs[0]);
      RunFiles(s1, unavailable, pathSave, prefix, reqs[1..]);
      assert ps[0] == t && ps[1..] == PathsOf(pathSave, prefix, reqs[1..]);
      assert s1.files == s.files + (if t in unavailable then {} else {t});
      FilesAfterCons(s.files, unavailable, ps);
    }
  }

  lemma FilesAfterCons(present: set<string>, unavailable: set<string>, ps: seq<string>)
    requires ps != []
    ensures FilesAfter(present, unavailable, ps) ==
      FilesAfter(present + (if ps[0] in unavailable then {} else {ps[0]}), unavailable, ps[1..])
  {
    assert forall p :: p in ps <==> p == ps[0] || p in ps[1..];
  }

  /** The retrievals of a run are those Retrieved describes, in order. */
  lemma {:induction false} RunRetrievals(s: Store, unavailable: set<string>, pathSave: string, prefix: string, reqs: seq<Request>)
    ensures Run(s, unavailable, pathSave, prefix, reqs).retrievals ==
      s.retrievals + Retrieved(s.files, unavailable, PathsOf(pathSave, prefix, reqs))
    decreases |reqs|
  {
    if reqs != [] {
      var ps := PathsOf(pathSave, prefix, reqs);
      var t := PathOf(pathSave, prefix, reqs[0]);
      var s1 := Step(s, unavailable, pathSave, prefix, reqs[0]);
      RunRetrievals(s1, unavailable, pathSave, prefix, reqs[1..]);
      assert ps[0] == t && ps[1..] == PathsOf(pathSave, prefix, reqs[1..]);
      if t in s.files {
        assert s1.files == s.files && s1.retrievals == s.retrievals;
      } else {
        assert s1.retrievals == s.retrievals + [t];
      }
    }
  }

  /**
   * What a run leaves behind: every request logged, the folder made, the
   * retrievals Retrieved describes, and exactly the delivered targets added.
   */
  lemma RunEffect(s: Store, unavailable: set<string>, pathSave: string, prefix: string, reqs: seq<Request>)
    ensures Run(s, unavailable, pathSave, prefix, reqs) ==
      Store(DirsAfter(s.dirs, pathSave, reqs),
            FilesAfter(s.files, unavailable, PathsOf(pathSave, prefix, reqs)),
            s.calls + reqs,
            s.retrievals + Retrieved(s.files, unavailable, PathsOf(pathSave, prefix, reqs)),
            s.removals)
  {
    RunLogs(s, unavailable, pathSave, prefix, reqs);
    RunFiles(s, unavailable, pathSave, prefix, reqs);
    RunRetrievals(s, unavailable, pathSave, prefix, reqs);
  }

  /** The removal of the last file, when the plan asks for it. */
  function Removing(s: Store, victim: Option<string>): Store
  {
    if victim.Some? then s.(files := s.files - {victim.value}, removals := s.removals + [victim.value]) else s
  }

  /** completeDataset's effect: the gap downloads, the removal, the top-up, in that order. */
  function Completed(s: Store, unavailable: set<string>, pathSave: string, prefix: string, p: Plan): Store
  {
    Run(Removing(Run(s, unavailable, pathSave, prefix, p.missing), p.remove), unavailable, pathSave, prefix, p.refresh)
  }

  /**
   * The folder in which downloadCDS and its callers work.  Which targets
   * the server fails to deliver is fixed when the store is made.
   */
  class DataStore {
    var dirs: set<string>
    var files: set<string>
    var calls: seq<Request>
    var retrievals: seq<string>
    var removals: seq<string>
    const unavailable: set<string>

    constructor (existing: set<string>, folders: set<string>, failing: set<string>)
      ensures State() == Store(folders, existing, [], [], []) && unavailable == failing
    {
      dirs, files, unavailable := folders, existing, failing;
      calls, retrievals, removals := [], [], [];
    }

    function State(): Store
      reads this
    {
      Store(dirs, files, calls, retrievals, removals)
    }

    /** downloadCDS: make the folder, skip a present target, otherwise retrieve it. */
    method DownloadCDS(month: int, year: int, pathSave: string, prefix: string)
      modifies this
      ensures State() == Step(old(State()), unavailable, pathSave, prefix, Request(year, month))
    {
      if pathSave !in dirs {
        dirs := dirs + {pathSave};
      }
      calls := calls + [Request(year, month)];
      var target := WithSlash(pathSave) + TargetName(prefix, year, month);
      if target in files {
        return;
      }
      retrievals := retrievals + [target];
      if target !in unavailable {
        files := files + {target};
      }
    }

    /** `for mnth in range(a, b): downloadCDS(mnth, year, ...)`. */
    method DownloadMonths(year: int, a: int, b: int, pathSave: string, prefix: string)
      modifies this
      ensures State() == Run(old(State()), unavailable, pathSave, prefix, MonthRange(year, a, b))
    {
      var m := a;
      while m < b
        invariant a <= m && (m == a || m <= b)
        invariant State() == Run(old(State()), unavailable, pathSave, prefix, MonthRange(year, a, m))
        decreases b - m
      {
        DownloadCDS(m, year, pathSave, prefix);
        RunSnoc(old(State()), unavailable, pathSave, prefix, MonthRange(year, a, m), Request(year, m));
        m := m + 1;
      }
      assert MonthRange(year, a, m) == MonthRange(year, a, b);
    }

    /** One pass of downloadMultipleCDS's year loop. */
    method DownloadYear(monthStart: int, monthEnd: int, yearStart: int, yearEnd: int, year: int,
                        pathSave: string, prefix: string)
      modifies this
      ensures State() == Run(old(State()), unavailable, pathSave, prefix,
                             YearMonths(monthStart, monthEnd, yearStart, yearEnd, year))
    {
      if year == yearStart {
        DownloadMonths(year, monthStart, 13, pathSave, prefix);
      } else if year == yearEnd {
        DownloadMonths(year, 1, monthEnd + 1, pathSave, prefix);
      } else {
        DownloadMonths(year, 1, 13, pathSave, prefix);
      }
    }

    /** downloadMultipleCDS: one year, or a year loop from the start month to the end month. */
    method DownloadMultipleCDS(monthStart: int, monthEnd: int, yearStart: int, yearEnd: int,
                               pathSave: string, prefix: string)
      modifies this
      ensures State() == Run(old(State()), unavailable, pathSave, prefix, MonthWalk(monthStart, monthEnd, yearStart, yearEnd))
    {
      if yearStart == yearEnd {
        DownloadMonths(yearStart, monthStart, monthEnd + 1, pathSave, prefix);
      } else {
        var year := yearStart;
        while year < yearEnd + 1
          invariant yearStart <= year && (yearStart <= yearEnd ==> year <= yearEnd + 1)
          invariant yearStart > yearEnd ==> year == yearStart
          invariant State() == Run(old(State()), unavailable, pathSave, prefix,
                                   YearsBefore(monthStart, monthEnd, yearStart, yearEnd, year))
          decreases yearEnd + 1 - year
        {
          DownloadYear(monthStart, monthEnd, yearStart, yearEnd, year, pathSave, prefix);
          RunConcat(old(State()), unavailable, pathSave, prefix,
                    YearsBefore(monthStart, monthEnd, yearStart, yearEnd, year),
                    YearMonths(monthStart, monthEnd, yearStart, yearEnd, year));
          assert YearsBefore(monthStart, monthEnd, yearStart, yearEnd, year + 1) ==
            YearsBefore(monthStart, monthEnd, yearStart, yearEnd, year) +
            YearMonths(monthStart, monthEnd, yearStart, yearEnd, year);
          year := year + 1;
        }
        assert YearsBefore(monthStart, monthEnd, yearStart, yearEnd, year) ==
          YearsBefore(monthStart, monthEnd, yearStart, yearEnd, yearEnd + 1);
      }
    }

    /** The inner loop over one report row: each missing month of that year. */
    method DownloadRow(year: int, months: seq<int>, pathSave: string, prefix: string)
      modifies this
      ensures State() == Run(old(State()), unavailable, pathSave, prefix, RowRequests(year, months))
    {
      for i := 0 to |months|
        invariant State() == Run(old(State()), unavailable, pathSave, prefix, RowRequests(year, months[..i]))
      {
        DownloadCDS(months[i], year, pathSave, prefix);
        assert months[..i + 1][..i] == months[..i];
        RunSnoc(old(State()), unavailable, pathSave, prefix, RowRequests(year, months[..i]), Request(year, months[i]));
      }
      assert months[..|months|] == months;
    }

    /** The download loop of completeDataset over the rows checkYears reported. */
    method DownloadMissing(gaps: seq<Gap>, pathSave: string, prefix: string)
      modifies this
      ensures State() == Run(old(State()), unavailable, pathSave, prefix, MissingRequests(gaps))
    {
      for i := 0 to |gaps|
        invariant State() == Run(old(State()), unavailable, pathSave, prefix, MissingRequests(gaps[..i]))
      {
        DownloadRow(gaps[i].year, gaps[i].missing, pathSave, prefix);
        assert gaps[..i + 1][..i] == gaps[..i];
        RunConcat(old(State()), unavailable, pathSave, prefix, MissingRequests(gaps[..i]),
                  RowRequests(gaps[i].year, gaps[i].missing));
      }
      assert gaps[..|gaps|] == gaps;
    }

    /**
     * completeDataset, for the folder's sorted table, the last timestamp of
     * its last file and the current time: the steps of CompletePlan, in order.
     */
    method CompleteDataset(pathSave: string, prefix: string, table: seq<FileInfo>,
                           last: Stamp, now: Stamp, threshold: int)
      requires EveryYearPresent(table) && ValidStamp(last) && ValidStamp(now)
      modifies this
      ensures State() == Completed(old(State()), unavailable, pathSave, prefix, CompletePlan(pathSave, table, last, now, threshold))
    {
      var report := CheckYears(table);
      if report.Some? {
        DownloadMissing(report.value, pathSave, prefix);
      }
      var lastFile := table[|table| - 1];
      var path := DatasetPath(pathSave, lastFile.filename);
      var lag := DaysBetween(now, last);
      var deleteFile := LastMonthIncomplete(last);
      if lag > threshold {
        if deleteFile {
          files := files - {path};
          removals := removals + [path];
        }
        var cutoff := FromIndex(CutoffIndex(now.date, threshold));
        DownloadMultipleCDS(lastFile.month, cutoff.month, lastFile.year, cutoff.year, pathSave, prefix);
      }
    }
  }
}
