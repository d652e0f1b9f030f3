/** The proleptic Gregorian calendar of ISO 8601 (year 0 is 1 BC), defined from month lengths and
    leap years alone, and the Julian-day conversions of pkg/sqlfn/pg_datetime.go proved against it. */
module Calendar {
  import opened MachineInts

  datatype Date = Date(year: int, month: int, day: int)

  predicate IsLeap(y: int) {
    y % 4 == 0 && (y % 100 != 0 || y % 400 == 0)
  }

  function MonthLength(y: int, m: int): (n: int)
    requires 1 <= m <= 12
    ensures 28 <= n <= 31
  {
    if m == 2 then (if IsLeap(y) then 29 else 28)
    else if m == 4 || m == 6 || m == 9 || m == 11 then 30
    else 31
  }

  ghost predicate ValidDate(d: Date) {
    1 <= d.month <= 12 && 1 <= d.day <= MonthLength(d.year, d.month)
  }

  /** The day after a date: the calendar's own definition of order. */
  function NextDay(d: Date): Date
    requires 1 <= d.month <= 12
  {
    if d.day < MonthLength(d.year, d.month) then Date(d.year, d.month, d.day + 1)
    else if d.month < 12 then Date(d.year, d.month + 1, 1)
    else Date(d.year + 1, 1, 1)
  }

  // Julian day numbers.

  function LeapYearsTo(y: int): int {
    y / 4 - y / 100 + y / 400
  }

  function DaysBeforeMonth(y: int, m: int): int
    requires 1 <= m <= 12
  {
    var leap := if m > 2 && IsLeap(y) then 1 else 0;
    leap + (if m == 1 then 0 else if m == 2 then 31 else if m == 3 then 59 else if m == 4 then 90
            else if m == 5 then 120 else if m == 6 then 151 else if m == 7 then 181 else if m == 8 then 212
            else if m == 9 then 243 else if m == 10 then 273 else if m == 11 then 304 else 334)
  }

  /** How many days a date lies after 24 November 4714 BC, the date of day 0. */
  function DayNumber(d: Date): int
    requires 1 <= d.month <= 12
  {
    365 * d.year + LeapYearsTo(d.year - 1) + DaysBeforeMonth(d.year, d.month) + d.day + 1721060
  }

  /** DayNumber counts days: each day is one after the day before it, and the Postgres epoch
      2000-01-01 is Julian day 2451545. These two facts determine it on every date. */
  lemma DayNumberCountsDays(d: Date)
    requires ValidDate(d)
    ensures ValidDate(NextDay(d)) && DayNumber(NextDay(d)) == DayNumber(d) + 1
    ensures DayNumber(Date(2000, 1, 1)) == 2451545 && DayNumber(Date(-4713, 11, 24)) == 0
  {
    LeapYearStep(d.year);
  }

  lemma LeapYearStep(y: int)
    ensures LeapYearsTo(y) == LeapYearsTo(y - 1) + (if IsLeap(y) then 1 else 0)
  {
    DivStep4(y);
    DivStep100(y);
    DivStep400(y);
    MultiplesOf100(y);
  }

  lemma MultiplesOf100(y: int)
    ensures y % 400 == 0 ==> y % 100 == 0
    ensures y % 100 == 0 ==> y % 4 == 0
  {
    if y % 400 == 0 { DivUnique(y, 100, 4 * (y / 400), 0); }
    if y % 100 == 0 { DivUnique(y, 4, 25 * (y / 100), 0); }
  }

  lemma DivStep4(y: int)
    ensures y / 4 == (y - 1) / 4 + (if y % 4 == 0 then 1 else 0)
  {}

  lemma DivStep100(y: int)
    ensures y / 100 == (y - 1) / 100 + (if y % 100 == 0 then 1 else 0)
  {}

  lemma DivStep400(y: int)
    ensures y / 400 == (y - 1) / 400 + (if y % 400 == 0 then 1 else 0)
  {}

  // DayNumber is strictly increasing in (year, month, day), hence injective.

  ghost predicate Before(a: Date, b: Date) {
    a.year < b.year || (a.year == b.year && (a.month < b.month || (a.month == b.month && a.day < b.day)))
  }

  function YearStart(y: int): int {
    365 * y + LeapYearsTo(y - 1)
  }

  lemma {:induction false} YearsGrow(y: int, z: int)
    requires y < z
    ensures YearStart(z) >= YearStart(y) + (if IsLeap(y) then 366 else 365)
    decreases z - y
  {
    if z == y + 1 {
      LeapYearStep(y);
    } else {
      YearsGrow(y, z - 1);
      LeapYearStep(z - 1);
    }
  }

  lemma MonthsGrow(y: int, m: int, n: int)
    requires 1 <= m <= 12 && 1 <= n <= 12
    ensures m < n ==> DaysBeforeMonth(y, n) >= DaysBeforeMonth(y, m) + MonthLength(y, m)
    ensures 0 <= DaysBeforeMonth(y, m) && DaysBeforeMonth(y, m) + MonthLength(y, m) <= (if IsLeap(y) then 366 else 365)
  {}

  /** A date's place in its year, and which days fall in January and in December. */
  lemma DayOfYear(d: Date)
    requires ValidDate(d)
    ensures var first := DayNumber(Date(d.year, 1, 1)); var next := DayNumber(Date(d.year + 1, 1, 1)); var jd := DayNumber(d);
      && first <= jd < next && next - first == (if IsLeap(d.year) then 366 else 365)
      && (d.month == 1 <==> jd < first + 31) && (d.month == 12 <==> jd >= next - 31)
  {
    hide LeapYearsTo, IsLeap;
    LeapYearStep(d.year);
  }

  lemma BeforeMeansLess(a: Date, b: Date)
    requires ValidDate(a) && ValidDate(b) && Before(a, b)
    ensures DayNumber(a) < DayNumber(b)
  {
    MonthsGrow(a.year, a.month, b.month);
    MonthsGrow(b.year, b.month, b.month);
    if a.year < b.year {
      YearsGrow(a.year, b.year);
    }
  }

  lemma DayNumberIsMonotone(a: Date, b: Date)
    requires ValidDate(a) && ValidDate(b)
    ensures Before(a, b) <==> DayNumber(a) < DayNumber(b)
    ensures DayNumber(a) == DayNumber(b) ==> a == b
  {
    if Before(a, b) {
      BeforeMeansLess(a, b);
    } else if Before(b, a) {
      BeforeMeansLess(b, a);
    }
  }

  // The calendar in years that start on 1 March, so that a leap day ends its year.

  /** Days since 1 March of year -4800 of day e (from 0) of the March year numbered from -4800. */
  function MarchDay(year: int, e: int): int {
    365 * year + LeapYearsTo(year) + e
  }

  ghost predicate ValidMarch(year: int, e: int) {
    0 <= e <= 365 && (e == 365 ==> IsLeap(year + 1))
  }

  /** The date of day e of a March year. */
  function MarchDate(year: int, e: int): Date {
    var k := (5 * e + 2) / 153;
    Date(year - 4800 + (if k < 10 then 0 else 1), if k < 10 then k + 3 else k - 9, e - (153 * k + 2) / 5 + 1)
  }

  lemma LeapShift(y: int)
    ensures IsLeap(y - 4800) == IsLeap(y)
    ensures LeapYearsTo(y - 4800) == LeapYearsTo(y) - 1164
  {
    DivUnique(y - 4800, 4, y / 4 - 1200, y % 4);
    DivUnique(y - 4800, 100, y / 100 - 48, y % 100);
    DivUnique(y - 4800, 400, y / 400 - 12, y % 400);
  }

  /** Month k of a March year starts on day (153 k + 2) / 5 of it. */
  lemma MarchMonth(e: int) returns (k: int)
    requires 0 <= e <= 365
    ensures k == (5 * e + 2) / 153 && 0 <= k <= 11
    ensures (153 * k + 2) / 5 <= e < (153 * (k + 1) + 2) / 5
    ensures (153 * k + 2) / 5 == MarchMonthStart(k)
    ensures k < 11 ==> (153 * (k + 1) + 2) / 5 == MarchMonthStart(k + 1)
  {
    k := (5 * e + 2) / 153;
  }

  function MarchMonthStart(k: int): int
    requires 0 <= k <= 11
  {
    [0, 31, 61, 92, 122, 153, 184, 214, 245, 275, 306, 337][k]
  }

  lemma MarchDateIsRight(year: int, e: int)
    requires ValidMarch(year, e)
    ensures ValidDate(MarchDate(year, e)) && DayNumber(MarchDate(year, e)) == MarchDay(year, e) - 32044
  {
    hide IsLeap, LeapYearsTo;
    var k := MarchMonth(e);
    if k < 10 {
      LeapShift(year);
      LeapYearStep(year - 4800);
    } else {
      LeapShift(year);
      LeapShift(year + 1);
    }
  }

  /** The March year and day that a day count falls on. */
  function MarchYearOf(n: int): int {
    var r := n % 146097;
    var c := (4 * r + 3) / 146097;
    var t := r - 36524 * c;
    400 * (n / 146097) + 100 * c + (4 * t + 3) / 1461
  }

  /** The century, year and day that a day of a 400-year cycle falls in. */
  lemma CycleParts(r: int)
    requires 0 <= r < 146097
    ensures var c := (4 * r + 3) / 146097; var t := r - 36524 * c; var w := (4 * t + 3) / 1461; var e := t - 365 * w - w / 4;
      && 0 <= c <= 3 && 0 <= w <= 99 && 0 <= e <= 365
      && (e == 365 ==> w % 4 == 3 && (w == 99 ==> c == 3))
  {
    var c := (4 * r + 3) / 146097;
    var t := r - 36524 * c;
    assert 0 <= c <= 3 && 0 <= t <= 36524 && (t == 36524 ==> c == 3);
  }

  lemma MarchYearIsRight(n: int)
    ensures var y := MarchYearOf(n); var e := n - MarchDay(y, 0); ValidMarch(y, e)
  {
    var q, r := n / 146097, n % 146097;
    CycleParts(r);
    var c := (4 * r + 3) / 146097;
    var t := r - 36524 * c;
    var w := (4 * t + 3) / 1461;
    var y := 400 * q + 100 * c + w;
    MarchYearParts(q, c, w);
    var e := t - 365 * w - w / 4;
    assert n == MarchDay(y, 0) + e;
    if e == 365 {
      CenturyLeap(q, c, w);
    }
  }

  lemma MarchYearParts(q: int, c: int, w: int)
    requires 0 <= c <= 3 && 0 <= w <= 99
    ensures var y := 400 * q + 100 * c + w;
      y / 400 == q && y / 100 == 4 * q + c && y / 4 == 100 * q + 25 * c + w / 4 && y % 4 == w % 4
  {
    var y := 400 * q + 100 * c + w;
    DivUnique(y, 400, q, 100 * c + w);
    DivUnique(y, 100, 4 * q + c, w);
    DivUnique(y, 4, 100 * q + 25 * c + w / 4, w % 4);
  }

  lemma CenturyLeap(q: int, c: int, w: int)
    requires 0 <= c <= 3 && 0 <= w <= 99 && w % 4 == 3 && (w == 99 ==> c == 3)
    ensures IsLeap(400 * q + 100 * c + w + 1)
  {
    if w == 99 {
      DivUnique(400 * q + 100 * c + w + 1, 400, q + 1, 0);
      MultiplesOf100(400 * q + 100 * c + w + 1);
    } else {
      MarchYearParts(q, c, w + 1);
      DivUnique(400 * q + 100 * c + w + 1, 100, 4 * q + c, w + 1);
    }
  }

  /** The date of a Julian day, on every integer. */
  function DateOf(jd: int): Date {
    var y := MarchYearOf(jd + 32044);
    MarchDate(y, jd + 32044 - MarchDay(y, 0))
  }

  lemma MarchDayAdds(y: int, e: int)
    ensures MarchDay(y, e) == MarchDay(y, 0) + e
  {
  }

  lemma DateOfIsRight(jd: int)
    ensures ValidDate(DateOf(jd)) && DayNumber(DateOf(jd)) == jd
  {
    hide MarchYearOf, LeapYearsTo, IsLeap, MonthLength, DayNumber, MarchDate, MarchDay;
    var n := jd + 32044;
    var y := MarchYearOf(n);
    var e := n - MarchDay(y, 0);
    MarchYearIsRight(n);
    MarchDateIsRight(y, e);
    MarchDayAdds(y, e);
  }

  /** Dates and Julian days are in bijection. */
  lemma DateOfInvertsDayNumber(jd: int, d: Date)
    ensures ValidDate(DateOf(jd)) && DayNumber(DateOf(jd)) == jd
    ensures ValidDate(d) ==> DateOf(DayNumber(d)) == d
  {
    DateOfIsRight(jd);
    if ValidDate(d) {
      DateOfIsRight(DayNumber(d));
      DayNumberIsMonotone(d, DateOf(DayNumber(d)));
    }
  }
}
