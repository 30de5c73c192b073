/**
 * The proleptic Gregorian calendar as Python's datetime and calendar
 * modules compute it: day ordinals counted from 0001-01-01 (ordinal 1),
 * weekday() with Monday = 0, monthrange()'s number of days in a month.
 */
module Calendar {

  datatype Date = Date(year: int, month: int, day: int)

  predicate IsLeap(y: int)
  {
    y % 4 == 0 && (y % 100 != 0 || y % 400 == 0)
  }

  function DaysInYear(y: int): int
  {
    if IsLeap(y) then 366 else 365
  }

  /** calendar.monthrange(y, m)[1]. */
  function DaysInMonth(y: int, m: int): int
    requires 1 <= m <= 12
  {
    if m == 2 then (if IsLeap(y) then 29 else 28)
    else if m == 4 || m == 6 || m == 9 || m == 11 then 30
    else 31
  }

  predicate Valid(d: Date)
  {
    1 <= d.year && 1 <= d.month <= 12 && 1 <= d.day <= DaysInMonth(d.year, d.month)
  }

  function DaysBeforeYear(y: int): int
    requires y >= 1
  {
    var p := y - 1;
    365 * p + p / 4 - p / 100 + p / 400
  }

  function DaysBeforeMonth(y: int, m: int): int
    requires 1 <= m <= 12
  {
    [0, 31, 59, 90, 120, 151, 181, 212, 243, 273, 304, 334][m - 1]
      + (if m > 2 && IsLeap(y) then 1 else 0)
  }

  /** date.toordinal(). */
  function Ordinal(d: Date): int
    requires Valid(d)
  {
    DaysBeforeYear(d.year) + DaysBeforeMonth(d.year, d.month) + d.day
  }

  /** date.weekday(): Monday is 0, Sunday is 6. */
  function Weekday(d: Date): int
    requires Valid(d)
  {
    (Ordinal(d) + 6) % 7
  }

  function NextMonthStart(d: Date): (r: Date)
    requires Valid(d)
    ensures Valid(r)
  {
    if d.month == 12 then Date(d.year + 1, 1, 1) else Date(d.year, d.month + 1, 1)
  }

  /** d + timedelta(days=n). */
  function AddDays(d: Date, n: nat): (r: Date)
    requires Valid(d)
    ensures Valid(r)
    decreases n
  {
    var left := DaysInMonth(d.year, d.month) - d.day;
    if n <= left then Date(d.year, d.month, d.day + n)
    else AddDays(NextMonthStart(d), n - left - 1)
  }

  lemma DaysBeforeNextYear(y: int)
    requires y >= 1
    ensures DaysBeforeYear(y + 1) == DaysBeforeYear(y) + DaysInYear(y)
  {
    QuarterStep(y);
    CenturyStep(y);
    QuadCenturyStep(y);
    if y % 400 == 0 {
      QuadCenturyIsCentury(y);
    }
    if y % 100 == 0 {
      CenturyIsQuarter(y);
    }
  }

  /** Leap days counted up to year y grow by one exactly at multiples of 4, 100 and 400. */
  lemma QuarterStep(y: int)
    requires y >= 1
    ensures y / 4 - (y - 1) / 4 == if y % 4 == 0 then 1 else 0
  {
    var q, r := y / 4, y % 4;
    assert y == 4 * q + r && 0 <= r < 4;
    if r == 0 {
      assert y - 1 == 4 * (q - 1) + 3;
      assert (y - 1) / 4 == q - 1;
    } else {
      assert y - 1 == 4 * q + (r - 1);
      assert (y - 1) / 4 == q;
    }
  }

  lemma CenturyStep(y: int)
    requires y >= 1
    ensures y / 100 - (y - 1) / 100 == if y % 100 == 0 then 1 else 0
  {
    var q, r := y / 100, y % 100;
    assert y == 100 * q + r && 0 <= r < 100;
    if r == 0 {
      assert y - 1 == 100 * (q - 1) + 99;
      assert (y - 1) / 100 == q - 1;
    } else {
      assert y - 1 == 100 * q + (r - 1);
      assert (y - 1) / 100 == q;
    }
  }

  lemma QuadCenturyStep(y: int)
    requires y >= 1
    ensures y / 400 - (y - 1) / 400 == if y % 400 == 0 then 1 else 0
  {
    var q, r := y / 400, y % 400;
    assert y == 400 * q + r && 0 <= r < 400;
    if r == 0 {
      assert y - 1 == 400 * (q - 1) + 399;
      assert (y - 1) / 400 == q - 1;
    } else {
      assert y - 1 == 400 * q + (r - 1);
      assert (y - 1) / 400 == q;
    }
  }

  /** Multiples of 400 are multiples of 100. */
  lemma QuadCenturyIsCentury(y: int)
    requires y % 400 == 0
    ensures y % 100 == 0
  {
    var q := y / 400;
    assert y == 400 * q;
    assert y == 100 * (4 * q);
  }

  /** Multiples of 100 are multiples of 4. */
  lemma CenturyIsQuarter(y: int)
    requires y % 100 == 0
    ensures y % 4 == 0
  {
    var q := y / 100;
    assert y == 100 * q;
    assert y == 4 * (25 * q);
  }

  lemma ModShift(a: int, n: int)
    ensures (a + n) % 7 == (a % 7 + n) % 7
  {
    var q := a / 7;
    assert a == 7 * q + a % 7;
    assert (a + n) == 7 * q + (a % 7 + n);
  }

  lemma NextMonthStartOrdinal(d: Date)
    requires Valid(d)
    ensures Ordinal(NextMonthStart(d)) == Ordinal(d) + DaysInMonth(d.year, d.month) - d.day + 1
  {
    if d.month == 12 {
      DaysBeforeNextYear(d.year);
    }
  }

  /** A day's ordinal lies within its year. */
  lemma OrdinalInYear(d: Date)
    requires Valid(d)
    ensures DaysBeforeYear(d.year) < Ordinal(d) <= DaysBeforeYear(d.year) + DaysInYear(d.year)
  {
    assert DaysBeforeMonth(d.year, d.month) + DaysInMonth(d.year, d.month) <= DaysInYear(d.year);
  }

  /** Adding n days moves the ordinal by exactly n. */
  lemma {:induction false} AddDaysOrdinal(d: Date, n: nat)
    requires Valid(d)
    ensures Ordinal(AddDays(d, n)) == Ordinal(d) + n
    decreases n
  {
    var left := DaysInMonth(d.year, d.month) - d.day;
    if n > left {
      NextMonthStartOrdinal(d);
      AddDaysOrdinal(NextMonthStart(d), n - left - 1);
    }
  }

  /** Adding n days advances the weekday by n, modulo 7. */
  lemma AddDaysWeekday(d: Date, n: nat)
    requires Valid(d)
    ensures Weekday(AddDays(d, n)) == (Weekday(d) + n) % 7
  {
    AddDaysOrdinal(d, n);
    ModShift(Ordinal(d) + 6, n);
  }

  /** Days from 1 January of year y to its first Monday. */
  function DaysToFirstMonday(y: int): (k: int)
    requires y >= 1
    ensures 0 <= k <= 6
  {
    var w := Weekday(Date(y, 1, 1));
    if w == 0 then 0 else 7 - w
  }

  /** The first Monday of year y: 1 January when that is a Monday, else the next Monday. */
  function FirstMonday(y: int): (r: Date)
    requires y >= 1
    ensures Valid(r) && r == Date(y, 1, 1 + DaysToFirstMonday(y))
  {
    AddDays(Date(y, 1, 1), DaysToFirstMonday(y))
  }

  /** FirstMonday(y) is a Monday and no earlier day of year y is. */
  lemma FirstMondayIsFirst(y: int)
    requires y >= 1
    ensures Weekday(FirstMonday(y)) == 0
    ensures forall k: nat :: k < DaysToFirstMonday(y) ==> Weekday(AddDays(Date(y, 1, 1), k)) != 0
  {
    var jan1 := Date(y, 1, 1);
    var w, n := Weekday(jan1), DaysToFirstMonday(y);
    assert 0 <= w < 7 && n == (if w == 0 then 0 else 7 - w);
    MondayOffset(w, n, n);
    AddDaysWeekday(jan1, n);
    forall k: nat | k < n ensures Weekday(AddDays(jan1, k)) != 0 {
      MondayOffset(w, n, k);
      AddDaysWeekday(jan1, k);
    }
  }

  /** From weekday w, the first Monday is n days on: k days on, for k up to n, is a Monday exactly when k == n. */
  lemma MondayOffset(w: int, n: int, k: int)
    requires 0 <= w < 7 && n == (if w == 0 then 0 else 7 - w) && 0 <= k <= n
    ensures (w + k) % 7 == 0 <==> k == n
  {
    if k < n {
      assert 0 < w + k < 7;
    }
  }

  /** A month is complete at day d exactly when the next day falls in another month. */
  lemma LastDayOfMonth(d: Date)
    requires Valid(d)
    ensures d.day == DaysInMonth(d.year, d.month) <==> AddDays(d, 1).month != d.month
  {
  }
}
