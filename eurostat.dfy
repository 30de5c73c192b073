/**
 * weekToDate: a Eurostat week code "<YYYY>W<ww>" turned into the date of
 * a Monday by datetime.strptime(code + "-1", "%YW%W-%w"), with any failure
 * caught and turned into None.  The week number follows the C/POSIX %W
 * convention (weeks start on Monday; days before the year's first Monday
 * are in week 0), which is not ISO 8601 week numbering.
 */
module Eurostat {
  import opened Wrappers
  import opened Text
  import opened Calendar

  /** datetime.MAXYEAR. */
  const MaxYear := 9999

  /** The fields strptime reads through %Y, %W and %w. */
  datatype WeekFields = WeekFields(year: int, week: int, weekday: int)

  /** What the %W directive matches: 5[0-3]|[0-4]\d|\d, and it must be followed by the '-'. */
  predicate WeekNumberToken(t: string)
  {
    || (|t| == 1 && IsDigit(t[0]))
    || (|t| == 2 && '0' <= t[0] <= '4' && IsDigit(t[1]))
    || (|t| == 2 && t[0] == '5' && '0' <= t[1] <= '3')
  }

  /**
   * The regular expression strptime builds for "%YW%W-%w", matched
   * case-insensitively and required to consume the whole string:
   * four digits, 'W' or 'w', the week number, '-', a digit 0 to 6.
   */
  function Strptime(s: string): Option<WeekFields>
  {
    if |s| >= 8 && AllDigits(s[..4]) && (s[4] == 'W' || s[4] == 'w')
       && WeekNumberToken(s[5..|s| - 2]) && s[|s| - 2] == '-' && '0' <= s[|s| - 1] <= '6'
    then Some(WeekFields(DigitsValue(s[..4]), DigitsValue(s[5..|s| - 2]), s[|s| - 1] as int - '0' as int))
    else None
  }

  /**
   * Day of the year (1 = 1 January; 0 or less reaches back into the
   * previous year) of the given weekday (Monday = 0) in the given %W week,
   * for a year whose 1 January has weekday firstWeekday.
   */
  function JulianFromWeek(firstWeekday: int, week: int, dayOfWeek: int): (r: int)
    requires 0 <= firstWeekday <= 6 && 0 <= dayOfWeek <= 6 && week >= 0
    ensures r >= -5
    ensures week >= 1 ==> r >= 1
  {
    var week0Length := (7 - firstWeekday) % 7;
    if week == 0 then 1 + dayOfWeek - firstWeekday
    else 1 + week0Length + 7 * (week - 1) + dayOfWeek
  }

  /** weekToDate(code): the Monday that the code names, or None. */
  function WeekToDate(code: string): Option<Date>
  {
    match Strptime(code + "-1")
    case None => None
    case Some(f) => DateOfFields(f)
  }

  /** How strptime turns year, %W week and %w weekday into a date; None where datetime raises. */
  function DateOfFields(f: WeekFields): Option<Date>
    requires 0 <= f.weekday <= 6 && f.week >= 0
  {
    // %w counts from Sunday = 0; weekday() counts from Monday = 0
    var dayOfWeek := if f.weekday == 0 then 6 else f.weekday - 1;
    if f.year < 1 then None   // date(0, 1, 1) is out of range
    else
      var julian := JulianFromWeek(Weekday(Date(f.year, 1, 1)), f.week, dayOfWeek);
      if julian <= 0 then
        if f.year - 1 < 1 then None
        else InRange(Date(f.year - 1, 1, 1), julian + DaysInYear(f.year - 1) - 1)
      else InRange(Date(f.year, 1, 1), julian - 1)
  }

  /** date.fromordinal(start.toordinal() + n), which raises past 31 December 9999. */
  function InRange(start: Date, n: nat): Option<Date>
    requires Valid(start)
  {
    var r := AddDays(start, n);
    if r.year > MaxYear then None else Some(r)
  }

  /** The shape of an accepted code, stated without the regular expression. */
  predicate WellFormedCode(code: string)
  {
    6 <= |code| <= 7 && AllDigits(code[..4]) && (code[4] == 'W' || code[4] == 'w')
    && AllDigits(code[5..]) && DigitsValue(code[5..]) <= 53
  }

  function CodeYear(code: string): int
    requires WellFormedCode(code)
  {
    DigitsValue(code[..4])
  }

  function CodeWeek(code: string): int
    requires WellFormedCode(code)
  {
    DigitsValue(code[5..])
  }

  lemma CodeYearBound(code: string)
    requires WellFormedCode(code)
    ensures CodeYear(code) <= MaxYear
  {
    DigitsValueBound(code[..4]);
  }

  /** The %W alternation accepts exactly the one- and two-digit numerals up to 53. */
  lemma WeekNumberTokenValue(t: string)
    ensures WeekNumberToken(t) <==> 1 <= |t| <= 2 && AllDigits(t) && DigitsValue(t) <= 53
  {
    if |t| == 1 && AllDigits(t) {
      assert t[..0] == [];
      assert DigitsValue(t) == t[0] as int - '0' as int;
    } else if |t| == 2 && AllDigits(t) {
      assert t[..1][..0] == [];
      assert DigitsValue(t[..1]) == t[0] as int - '0' as int;
      assert DigitsValue(t) == 10 * (t[0] as int - '0' as int) + (t[1] as int - '0' as int);
    }
  }

  /** strptime accepts code + "-1" exactly for well-formed codes, and then reads weekday 1. */
  lemma StrptimeAccepts(code: string)
    ensures Strptime(code + "-1").Some? <==> WellFormedCode(code)
    ensures WellFormedCode(code) ==>
      Strptime(code + "-1") == Some(WeekFields(CodeYear(code), CodeWeek(code), 1))
  {
    var s := code + "-1";
    if |s| >= 8 {
      assert s[..4] == code[..4];
      assert s[4] == code[4];
      assert s[5..|s| - 2] == code[5..];
      assert s[|s| - 2] == '-' && s[|s| - 1] == '1';
    }
    if |code| >= 5 {
      WeekNumberTokenValue(code[5..]);
    }
  }

  /** Everything that is not a well-formed code gives None (and nothing raises). */
  lemma MalformedIsNone(code: string)
    requires !WellFormedCode(code)
    ensures WeekToDate(code) == None
  {
    StrptimeAccepts(code);
  }

  /** InRange fails exactly past the last representable day. */
  lemma InRangeOrdinal(start: Date, n: nat)
    requires Valid(start) && start.year <= MaxYear
    ensures InRange(start, n).Some? <==> Ordinal(start) + n <= Ordinal(Date(MaxYear, 12, 31))
    ensures InRange(start, n).Some? ==> Ordinal(InRange(start, n).value) == Ordinal(start) + n
  {
    var r := AddDays(start, n);
    AddDaysOrdinal(start, n);
    OrdinalInYear(r);
    DaysBeforeNextYear(MaxYear);
    assert Ordinal(Date(MaxYear, 12, 31)) == DaysBeforeYear(MaxYear + 1);
    if r.year > MaxYear {
      DaysBeforeYearMonotone(MaxYear + 1, r.year);
    } else {
      DaysBeforeYearMonotone(r.year + 1, MaxYear + 1);
      DaysBeforeNextYear(r.year);
    }
  }

  /** The Monday a week code names, as a day ordinal: the %W rule. */
  function TargetOrdinal(y: int, w: int): int
    requires y >= 1
  {
    var jan1 := Date(y, 1, 1);
    if w == 0 then Ordinal(jan1) - Weekday(jan1)
    else Ordinal(jan1) + DaysToFirstMonday(y) + 7 * (w - 1)
  }

  /** 1 January of a representable year is on or before the last representable day. */
  lemma YearStartInRange(y: int)
    requires 1 <= y <= MaxYear
    ensures Ordinal(Date(y, 1, 1)) <= Ordinal(Date(MaxYear, 12, 31))
  {
    DaysBeforeNextYear(MaxYear);
    DaysBeforeYearMonotone(y, MaxYear);
  }

  /** Week 0 of a year that starts on a Monday is 1 January itself. */
  lemma WeekZeroOnJan1(y: int)
    requires 1 <= y <= MaxYear && Weekday(Date(y, 1, 1)) == 0
    ensures DateOfFields(WeekFields(y, 0, 1)).Some?
    ensures Valid(DateOfFields(WeekFields(y, 0, 1)).value)
    ensures Ordinal(DateOfFields(WeekFields(y, 0, 1)).value) == TargetOrdinal(y, 0)
  {
    var jan1 := Date(y, 1, 1);
    assert JulianFromWeek(0, 0, 0) == 1;
    assert DateOfFields(WeekFields(y, 0, 1)) == InRange(jan1, 0);
    YearStartInRange(y);
    InRangeOrdinal(jan1, 0);
  }

  /** When 1 January is not a Monday, week 0 is reached from 1 January of the year before. */
  lemma WeekZeroFields(y: int)
    requires 1 <= y <= MaxYear && Weekday(Date(y, 1, 1)) != 0
    ensures y >= 2
    ensures DateOfFields(WeekFields(y, 0, 1)) == InRange(Date(y - 1, 1, 1), DaysInYear(y - 1) - Weekday(Date(y, 1, 1)))
  {
    var fw := Weekday(Date(y, 1, 1));
    assert y != 1 by { assert Weekday(Date(1, 1, 1)) == 0; }
    assert 1 <= fw <= 6;
    var julian := JulianFromWeek(fw, 0, 0);
    assert julian == 1 - fw <= 0;
    assert julian + DaysInYear(y - 1) - 1 == DaysInYear(y - 1) - fw;
  }

  /** Otherwise week 0 begins on the last Monday of the year before. */
  lemma WeekZeroInPreviousYear(y: int)
    requires 1 <= y <= MaxYear && Weekday(Date(y, 1, 1)) != 0
    ensures DateOfFields(WeekFields(y, 0, 1)).Some?
    ensures Valid(DateOfFields(WeekFields(y, 0, 1)).value)
    ensures Ordinal(DateOfFields(WeekFields(y, 0, 1)).value) == TargetOrdinal(y, 0)
  {
    var jan1 := Date(y, 1, 1);
    var fw := Weekday(jan1);
    WeekZeroFields(y);
    var prev := Date(y - 1, 1, 1);
    var n := DaysInYear(y - 1) - fw;
    DaysBeforeNextYear(y - 1);
    assert Ordinal(prev) + n == Ordinal(jan1) - fw;
    YearStartInRange(y);
    InRangeOrdinal(prev, n);
  }

  /** Week 0 is the Monday on or before 1 January, in the previous year unless 1 January is a Monday. */
  lemma WeekZeroOrdinal(y: int)
    requires 1 <= y <= MaxYear
    ensures match DateOfFields(WeekFields(y, 0, 1))
            case Some(d) => Valid(d) && Ordinal(d) == TargetOrdinal(y, 0)
            case None => false
  {
    if Weekday(Date(y, 1, 1)) == 0 {
      WeekZeroOnJan1(y);
    } else {
      WeekZeroInPreviousYear(y);
    }
  }

  /** Week 0 lasts from 1 January to the first Monday: no days when 1 January is a Monday. */
  lemma WeekZeroLength(fw: int)
    requires 0 <= fw <= 6
    ensures (7 - fw) % 7 == if fw == 0 then 0 else 7 - fw
  {
  }

  /** Week w >= 1 is reached from 1 January by the days to the first Monday and w - 1 weeks. */
  lemma WeekNFields(y: int, w: int)
    requires 1 <= y <= MaxYear && 1 <= w
    ensures DateOfFields(WeekFields(y, w, 1)) == InRange(Date(y, 1, 1), DaysToFirstMonday(y) + 7 * (w - 1))
  {
    var fw := Weekday(Date(y, 1, 1));
    assert 0 <= fw <= 6;
    WeekZeroLength(fw);
    var julian := JulianFromWeek(fw, w, 0);
    assert julian == 1 + DaysToFirstMonday(y) + 7 * (w - 1) >= 1;
    assert julian - 1 == DaysToFirstMonday(y) + 7 * (w - 1);
  }

  /** Week w >= 1 is the first Monday plus w - 1 weeks, when that is still representable. */
  lemma WeekNOrdinal(y: int, w: int)
    requires 1 <= y <= MaxYear && 1 <= w
    ensures match DateOfFields(WeekFields(y, w, 1))
            case Some(d) => Valid(d) && Ordinal(d) == TargetOrdinal(y, w)
            case None => TargetOrdinal(y, w) > Ordinal(Date(MaxYear, 12, 31))
  {
    WeekNFields(y, w);
    InRangeOrdinal(Date(y, 1, 1), DaysToFirstMonday(y) + 7 * (w - 1));
  }

  /** weekToDate of a well-formed code is DateOfFields of what strptime reads from it. */
  lemma WellFormedFields(code: string)
    requires WellFormedCode(code)
    ensures WeekToDate(code) == DateOfFields(WeekFields(CodeYear(code), CodeWeek(code), 1))
  {
    StrptimeAccepts(code);
  }

  lemma {:induction false} DaysBeforeYearMonotone(a: int, b: int)
    requires 1 <= a <= b
    ensures DaysBeforeYear(a) <= DaysBeforeYear(b)
    decreases b - a
  {
    if a < b {
      DaysBeforeNextYear(a);
      DaysBeforeYearMonotone(a + 1, b);
    }
  }

  /** Monday arithmetic on day ordinals: the day fw days back, or d = (7 - fw) % 7 days on plus whole weeks. */
  lemma MondayArith(o: int, fw: int, d: int, w: int)
    requires fw == (o + 6) % 7 && w >= 0
    requires d == if fw == 0 then 0 else 7 - fw
    ensures (o - fw + 6) % 7 == 0
    ensures w >= 1 ==> (o + d + 7 * (w - 1) + 6) % 7 == 0
  {
    var q := (o + 6) / 7;
    assert o + 6 == 7 * q + fw;
    assert o - fw + 6 == 7 * q;
    if w >= 1 {
      if fw == 0 {
        assert o + d + 7 * (w - 1) + 6 == 7 * (q + w - 1);
      } else {
        assert o + d + 7 * (w - 1) + 6 == 7 * (q + w);
      }
    }
  }

  /** The %W rule always lands on a Monday. */
  lemma TargetIsMonday(y: int, w: int)
    requires y >= 1 && w >= 0
    ensures (TargetOrdinal(y, w) + 6) % 7 == 0
  {
    var jan1 := Date(y, 1, 1);
    MondayArith(Ordinal(jan1), Weekday(jan1), DaysToFirstMonday(y), w);
  }

  /** A well-formed code names the day TargetOrdinal gives, unless that is past 9999-12-31. */
  lemma WeekToDateOrdinal(code: string)
    requires WellFormedCode(code) && CodeYear(code) >= 1
    ensures match WeekToDate(code)
            case Some(d) => Valid(d) && Ordinal(d) == TargetOrdinal(CodeYear(code), CodeWeek(code))
            case None => TargetOrdinal(CodeYear(code), CodeWeek(code)) > Ordinal(Date(MaxYear, 12, 31))
  {
    WellFormedFields(code);
    CodeYearBound(code);
    if CodeWeek(code) == 0 {
      WeekZeroOrdinal(CodeYear(code));
    } else {
      WeekNOrdinal(CodeYear(code), CodeWeek(code));
    }
  }

  /** Every date weekToDate returns is a Monday. */
  lemma WeekToDateIsMonday(code: string)
    requires WeekToDate(code).Some?
    ensures Valid(WeekToDate(code).value) && Weekday(WeekToDate(code).value) == 0
  {
    StrptimeAccepts(code);
    WeekToDateOrdinal(code);
    TargetIsMonday(CodeYear(code), CodeWeek(code));
  }

  /** Year 0000 matches the format but is not a date: None. */
  lemma YearZeroIsNone(code: string)
    requires WellFormedCode(code) && CodeYear(code) == 0
    ensures WeekToDate(code) == None
  {
    WellFormedFields(code);
  }

  /** For week w >= 1 the result is the w-th Monday of the year: its first Monday plus w - 1 weeks. */
  lemma WeekIsNthMonday(code: string)
    requires WeekToDate(code).Some? && WellFormedCode(code) && CodeWeek(code) >= 1
    ensures var y := CodeYear(code);
            y >= 1 && Ordinal(WeekToDate(code).value) == Ordinal(FirstMonday(y)) + 7 * (CodeWeek(code) - 1)
  {
    WellFormedFields(code);
    var y := CodeYear(code);
    WeekToDateOrdinal(code);
    AddDaysOrdinal(Date(y, 1, 1), DaysToFirstMonday(y));
  }

  /** Codes for weeks w and w + 1 (w >= 1) of the same year name dates exactly 7 days apart. */
  lemma ConsecutiveWeeks(code1: string, code2: string)
    requires WellFormedCode(code1) && WellFormedCode(code2)
    requires CodeYear(code1) == CodeYear(code2) && CodeWeek(code1) >= 1
    requires CodeWeek(code2) == CodeWeek(code1) + 1
    requires WeekToDate(code1).Some? && WeekToDate(code2).Some?
    ensures Ordinal(WeekToDate(code2).value) == Ordinal(WeekToDate(code1).value) + 7
  {
    WeekIsNthMonday(code1);
    WeekIsNthMonday(code2);
  }

  /** Every well-formed code of a year 0001 to 9998 gives a date: None only for malformed input and the range ends. */
  lemma WellFormedIsSome(code: string)
    requires WellFormedCode(code) && 1 <= CodeYear(code) < MaxYear
    ensures WeekToDate(code).Some?
  {
    var y := CodeYear(code);
    WeekToDateOrdinal(code);
    DaysBeforeNextYear(y);
    DaysBeforeYearMonotone(y + 1, MaxYear);
  }

  /** 2020 began on a Wednesday, so week 05 is 3 February 2020 (ISO 8601 would give 27 January). */
  lemma Week2020W05()
    ensures WeekToDate("2020W05") == Some(Date(2020, 2, 3))
  {
    var code := "2020W05";
    Code2020W05();
    WellFormedFields(code);
    Fields2020W05();
  }

  lemma Code2020W05()
    ensures WellFormedCode("2020W05") && CodeYear("2020W05") == 2020 && CodeWeek("2020W05") == 5
  {
    var code := "2020W05";
    assert code[..4] == "2020" && code[5..] == "05";
    assert DigitsValue("2020") == 2020 by {
      assert "2020"[..3] == "202" && "202"[..2] == "20" && "20"[..1] == "2" && "2"[..0] == "";
    }
    assert DigitsValue("05") == 5 by {
      assert "05"[..1] == "0" && "0"[..0] == "";
    }
  }

  lemma Fields2020W05()
    ensures DateOfFields(WeekFields(2020, 5, 1)) == Some(Date(2020, 2, 3))
  {
    assert Ordinal(Date(2020, 1, 1)) == 737425;
    assert Weekday(Date(2020, 1, 1)) == 2;
    assert JulianFromWeek(2, 5, 0) == 34;
    assert AddDays(Date(2020, 2, 1), 2) == Date(2020, 2, 3);
    assert AddDays(Date(2020, 1, 1), 33) == Date(2020, 2, 3);
  }

  lemma NotAWeek()
    ensures WeekToDate("notaweek") == None
  {
    MalformedIsNone("notaweek");
  }

  /** Week 54 does not exist: the %W alternation cannot consume "54". */
  lemma Week54IsNone()
    ensures WeekToDate("2020W54") == None
  {
    var code := "2020W54";
    assert code[5..] == "54";
    assert DigitsValue("54") == 54 by {
      assert "54"[..1] == "5" && "5"[..0] == "";
    }
    MalformedIsNone(code);
  }
}
