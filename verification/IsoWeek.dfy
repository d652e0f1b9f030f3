/** ISO 8601 week dates: isoweek2j, date2isoweek and date2isoyear of pkg/sqlfn/pg_datetime_funcs.go,
    proved against the standard's own rule, that a week belongs to the year of its Thursday. */
module IsoWeek {
  import opened MachineInts
  import opened Calendar
  import opened JulianDay

  /** The Monday on or before a Julian day; day 0 was a Monday. */
  function MondayOf(jd: int): int {
    jd - jd % 7
  }

  /** Section 2.2.10 of ISO 8601: the week's year is the calendar year of its Thursday, and the week's
      number is that Thursday's place among the year's Thursdays. */
  function IsoYear(jd: int): int {
    DateOf(MondayOf(jd) + 3).year
  }

  function IsoWeekNumber(jd: int): int {
    (MondayOf(jd) + 3 - DayNumber(Date(IsoYear(jd), 1, 1))) / 7 + 1
  }

  /** The Monday of week 1: the week holding 4 January. */
  function WeekOne(year: int): int {
    MondayOf(DayNumber(Date(year, 1, 4)))
  }

  lemma YearOfDay(jd: int, y: int)
    ensures DateOf(jd).year == y <==> DayNumber(Date(y, 1, 1)) <= jd < DayNumber(Date(y + 1, 1, 1))
  {
    var d := DateOf(jd);
    DateOfIsRight(jd);
    DayNumberIsMonotone(d, Date(y, 1, 1));
    DayNumberIsMonotone(d, Date(y + 1, 1, 1));
  }

  lemma YearLength(y: int)
    ensures DayNumber(Date(y + 1, 1, 1)) - DayNumber(Date(y, 1, 1)) == (if IsLeap(y) then 366 else 365)
  {
    LeapYearStep(y);
  }

  /** The ISO year runs from its week 1 to the next, in 52 or 53 whole weeks. */
  lemma IsoYearSpan(jd: int, y: int)
    ensures IsoYear(jd) == y <==> WeekOne(y) <= jd < WeekOne(y + 1)
    ensures IsoYear(jd) == y ==> IsoWeekNumber(jd) == (jd - WeekOne(y)) / 7 + 1
    ensures WeekOne(y + 1) - WeekOne(y) == 364 || WeekOne(y + 1) - WeekOne(y) == 371
    ensures WeekOne(y) % 7 == 0
  {
    hide DayNumber, WeekOne, DateOf, IsLeap;
    var first, next := DayNumber(Date(y, 1, 1)), DayNumber(Date(y + 1, 1, 1));
    YearOfDay(MondayOf(jd) + 3, y);
    YearLength(y);
    WeekOneIsFirstThursday(y);
    WeekOneIsFirstThursday(y + 1);
    SpanArithmetic(jd, first, next, WeekOne(y), WeekOne(y + 1));
  }

  lemma SpanArithmetic(jd: int, first: int, next: int, w: int, v: int)
    requires next - first == 365 || next - first == 366
    requires first <= w + 3 < first + 7 && w % 7 == 0
    requires next <= v + 3 < next + 7 && v % 7 == 0
    ensures var m := jd - jd % 7;
      && (first <= m + 3 < next <==> w <= jd < v)
      && (w <= jd < v ==> (m + 3 - first) / 7 == (jd - w) / 7)
    ensures v - w == 364 || v - w == 371
  {
    var i, j, k := jd / 7, w / 7, v / 7;
    assert jd == 7 * i + jd % 7 && w == 7 * j && v == 7 * k;
    DivUnique(jd - w, 7, i - j, jd % 7);
    DivUnique(7 * i + 3 - first, 7, i - j, 7 * j + 3 - first);
  }

  lemma WeekOneIsFirstThursday(y: int)
    ensures DayNumber(Date(y, 1, 1)) <= WeekOne(y) + 3 < DayNumber(Date(y, 1, 1)) + 7
    ensures WeekOne(y) % 7 == 0
  {
    MondaysAreMultiples(DayNumber(Date(y, 1, 4)));
  }

  lemma MondaysAreMultiples(jd: int)
    ensures MondayOf(jd) == 7 * (jd / 7) && MondayOf(jd) % 7 == 0
  {
    DivUnique(MondayOf(jd), 7, jd / 7, 0);
  }

  /** Section 4.1.4: a week date names its Monday, and weeks run from 1 to 53. */
  lemma WeekDateNamesItsMonday(jd: int)
    ensures WeekOne(IsoYear(jd)) + (IsoWeekNumber(jd) - 1) * 7 == MondayOf(jd)
    ensures 1 <= IsoWeekNumber(jd) <= 53
  {
    var y := IsoYear(jd);
    IsoYearSpan(jd, y);
    WeekArithmetic(jd, WeekOne(y), WeekOne(y + 1));
  }

  lemma WeekArithmetic(jd: int, w: int, v: int)
    requires w <= jd < v <= w + 371 && w % 7 == 0
    ensures w + (jd - w) / 7 * 7 == jd - jd % 7 && 0 <= (jd - w) / 7 <= 52
  {
    var i, j := jd / 7, w / 7;
    assert jd == 7 * i + jd % 7 && w == 7 * j;
    DivUnique(jd - w, 7, i - j, jd % 7);
  }

  /** How the calendar years around a date lie against the ISO years around it: the first days of
      the years before, of and after the date, and the Mondays of their week 1. */
  ghost predicate YearFrame(jd: int, mon: int, a: int, b: int, c: int, w0: int, w1: int, w2: int) {
    && 365 <= b - a <= 366 && 365 <= c - b <= 366
    && b <= jd < c
    && (mon == 1 <==> jd < b + 31) && (mon == 12 <==> jd >= c - 31)
    && a <= w0 + 3 < a + 7 && b <= w1 + 3 < b + 7 && c <= w2 + 3 < c + 7
  }

  lemma FrameOf(d: Date)
    requires ValidDate(d)
    ensures YearFrame(DayNumber(d), d.month,
              DayNumber(Date(d.year - 1, 1, 1)), DayNumber(Date(d.year, 1, 1)), DayNumber(Date(d.year + 1, 1, 1)),
              WeekOne(d.year - 1), WeekOne(d.year), WeekOne(d.year + 1))
  {
    hide DayNumber, IsLeap, WeekOne;
    DayOfYear(d);
    YearLength(d.year - 1);
    WeekOneIsFirstThursday(d.year - 1);
    WeekOneIsFirstThursday(d.year);
    WeekOneIsFirstThursday(d.year + 1);
  }

  /** A date's ISO year is its own or a neighbour, decided by the Mondays around it. */
  lemma IsoYearNearby(d: Date)
    requires ValidDate(d)
    ensures var jd := DayNumber(d);
      && IsoYear(jd) == (if jd < WeekOne(d.year) then d.year - 1 else if jd < WeekOne(d.year + 1) then d.year else d.year + 1)
      && IsoWeekNumber(jd) == (jd - WeekOne(IsoYear(jd))) / 7 + 1
  {
    hide DayNumber, WeekOne, IsoYear, IsoWeekNumber, IsLeap;
    var jd := DayNumber(d);
    FrameOf(d);
    IsoYearSpan(jd, d.year - 1);
    IsoYearSpan(jd, d.year);
    IsoYearSpan(jd, d.year + 1);
    NearbyArithmetic(jd, d.month, DayNumber(Date(d.year - 1, 1, 1)), DayNumber(Date(d.year, 1, 1)), DayNumber(Date(d.year + 1, 1, 1)),
                     WeekOne(d.year - 1), WeekOne(d.year), WeekOne(d.year + 1));
    WeekOneIsFirstThursday(d.year + 2);
    YearLength(d.year + 1);
  }

  lemma NearbyArithmetic(jd: int, mon: int, a: int, b: int, c: int, w0: int, w1: int, w2: int)
    requires YearFrame(jd, mon, a, b, c, w0, w1, w2)
    ensures w0 <= jd < c && w0 < w1 < w2
    ensures jd < w1 ==> mon == 1 && 51 <= (jd - w0) / 7
    ensures jd >= w2 ==> mon == 12 && (jd - w2) / 7 == 0 && 51 <= (jd - w1) / 7
    ensures w1 <= jd < w2 ==> (mon == 1 ==> (jd - w1) / 7 < 51) && (mon == 12 ==> (jd - w1) / 7 > 0)
  {}

  /** Where week 52 or later falls in January its year is the one before, where week 1 falls in
      December its year is the one after, and otherwise it is the date's own year. */
  lemma MonthDecidesIsoYear(d: Date)
    requires ValidDate(d)
    ensures var jd := DayNumber(d); var w := IsoWeekNumber(jd);
      IsoYear(jd) == d.year - (if w >= 52 && d.month == 1 then 1 else 0) + (if w <= 1 && d.month == 12 then 1 else 0)
  {
    hide DayNumber, WeekOne, IsoYear, IsoWeekNumber, IsLeap;
    FrameOf(d);
    IsoYearNearby(d);
    NearbyArithmetic(DayNumber(d), d.month, DayNumber(Date(d.year - 1, 1, 1)), DayNumber(Date(d.year, 1, 1)),
                     DayNumber(Date(d.year + 1, 1, 1)), WeekOne(d.year - 1), WeekOne(d.year), WeekOne(d.year + 1));
  }

  // The source's operations.

  /** Day of the week of a Julian day, Sunday 0. */
  method J2day(jd: int32) returns (date: int32)
    ensures jd < MAX_INT32 ==> date == (jd + 1) % 7
  {
    var r: int := Rem(I32(jd + 1), 7);
    if r < 0 {
      r := r + 7;
    }
    date := r;
  }

  /** The years whose weeks, and whose neighbours' weeks, all have exact Julian days. */
  predicate IsoRange(year: int) {
    -4799 < year < JULIAN_MAX_YEAR
  }

  lemma IsoRangeDays(d: Date)
    requires IsoRange(d.year) && ValidDate(d)
    ensures DateHasDay(d.year, d.month) && I32(DayNumber(d)) == DayNumber(d)
    ensures forall y :: d.year - 1 <= y <= d.year + 1 ==> FourthIsExact(y)
  {
    DayNumberIsMonotone(Date(-4799, 1, 1), d);
    DayNumberIsMonotone(d, Date(5874898, 1, 4));
    forall y | d.year - 1 <= y <= d.year + 1
      ensures FourthIsExact(y)
    {
      DayNumberIsMonotone(Date(-4799, 1, 1), Date(y, 1, 4));
      DayNumberIsMonotone(Date(y, 1, 4), Date(5874898, 1, 4));
    }
  }

  /** date2j of a year's 4 January, and the arithmetic on it that follows, stay inside int32. */
  predicate FourthIsExact(y: int) {
    DateHasDay(y, 1) && -40000 <= DayNumber(Date(y, 1, 4)) <= 2147483600
  }

  /** The Monday of week 1 of a year, as the source computes it in every place it needs it. */
  method WeekOneMonday(year: int32) returns (monday: int32)
    requires FourthIsExact(year)
    ensures monday == WeekOne(year)
  {
    var day4 := Date2j(year, 1, 4);
    var day0 := J2day(I32(day4 - 1));
    monday := I32(day4 - day0);
  }

  /** The Monday so many weeks from week 1, wrapped to int32, and so exact for the weeks a year has. */
  method Isoweek2j(year: int32, week: int32) returns (jd: int32)
    requires IsoRange(year)
    ensures jd == I32(WeekOne(year) + (week - 1) * 7)
    ensures 0 <= week <= 53 ==> jd == WeekOne(year) + (week - 1) * 7
  {
    IsoRangeDays(Date(year, 1, 4));
    var monday := WeekOneMonday(year);
    WrapWeeks(week, monday);
    jd := I32(I32(I32(week - 1) * 7) + monday);
  }

  lemma WrapWeeks(week: int32, monday: int)
    ensures I32(I32(I32(week - 1) * 7) + monday) == I32((week - 1) * 7 + monday)
  {
    assert I32(I32(week - 1) * 7) == I32((week - 1) * 7);
    WrapIsCongruence((week - 1) * 7, monday);
  }

  method Date2isoweek(year: int32, mon: int32, mday: int32) returns (result: int32)
    requires IsoRange(year) && ValidDate(Date(year, mon, mday))
    ensures result == IsoWeekNumber(DayNumber(Date(year, mon, mday)))
  {
    hide DayNumber, WeekOne, IsoYear, IsoWeekNumber, IsLeap;
    IsoRangeDays(Date(year, mon, mday));
    IsoBranches(Date(year, mon, mday));
    var dayn: int := Date2j(year, mon, mday);
    var monday: int := WeekOneMonday(year);
    if dayn < monday {
      monday := WeekOneMonday(year - 1);
    }
    result := I32(Quo(dayn - monday, 7) + 1);
    if result >= 52 {
      monday := WeekOneMonday(year + 1);
      if dayn >= monday {
        result := I32(Quo(dayn - monday, 7) + 1);
      }
    }
  }

  method Date2isoyear(year0: int32, mon: int32, mday: int32) returns (year: int32)
    requires IsoRange(year0) && ValidDate(Date(year0, mon, mday))
    ensures year == IsoYear(DayNumber(Date(year0, mon, mday)))
  {
    year := year0;
    hide DayNumber, WeekOne, IsoYear, IsoWeekNumber, IsLeap;
    IsoRangeDays(Date(year, mon, mday));
    IsoBranches(Date(year, mon, mday));
    var dayn: int := Date2j(year, mon, mday);
    var monday: int := WeekOneMonday(year);
    if dayn < monday {
      monday := WeekOneMonday(year - 1);
      year := year - 1;
    }
    var result := I32(Quo(dayn - monday, 7) + 1);
    if result >= 52 {
      monday := WeekOneMonday(year + 1);
      if dayn >= monday {
        year := year + 1;
      }
    }
  }

  /** What the branches of the two functions find, for a date whose ISO year is the one before its
      own, its own, or the one after. */
  lemma IsoBranches(d: Date)
    requires ValidDate(d)
    ensures var jd := DayNumber(d); var w0 := WeekOne(d.year - 1); var w1 := WeekOne(d.year); var w2 := WeekOne(d.year + 1);
      && w0 <= jd <= w0 + 800 && w0 < w1 < w2
      && (jd < w1 ==> IsoYear(jd) == d.year - 1 && IsoWeekNumber(jd) == (jd - w0) / 7 + 1)
      && (w1 <= jd < w2 ==> IsoYear(jd) == d.year && IsoWeekNumber(jd) == (jd - w1) / 7 + 1)
      && (jd >= w2 ==> IsoYear(jd) == d.year + 1 && IsoWeekNumber(jd) == (jd - w2) / 7 + 1 && (jd - w1) / 7 >= 51)
  {
    hide DayNumber, WeekOne, IsoYear, IsoWeekNumber, IsLeap;
    IsoYearNearby(d);
    FrameOf(d);
    NearbyArithmetic(DayNumber(d), d.month, DayNumber(Date(d.year - 1, 1, 1)), DayNumber(Date(d.year, 1, 1)),
                     DayNumber(Date(d.year + 1, 1, 1)), WeekOne(d.year - 1), WeekOne(d.year), WeekOne(d.year + 1));
  }
}
