/** date2j and j2date of pkg/sqlfn/pg_datetime.go, in their wrapping 32-bit arithmetic. */
module JulianDay {
  import opened MachineInts
  import opened Calendar

  const POSTGRES_EPOCH_JDATE := 2451545
  const JULIAN_MIN_YEAR := -4713
  const JULIAN_MIN_MONTH := 11
  const JULIAN_MAX_YEAR := 5874898
  const JULIAN_MAX_MONTH := 6

  predicate PgIsValidJulian(y: int, m: int, d: int) {
    && (y > JULIAN_MIN_YEAR || (y == JULIAN_MIN_YEAR && m >= JULIAN_MIN_MONTH))
    && (y < JULIAN_MAX_YEAR || (y == JULIAN_MAX_YEAR && m < JULIAN_MAX_MONTH))
  }

  /** Every real date that passes the check has a Julian day well inside int32; both ends are met. */
  lemma ValidJulianRange(d: Date)
    requires ValidDate(d) && PgIsValidJulian(d.year, d.month, d.day)
    ensures -23 <= DayNumber(d) <= 2147483644
    ensures DayNumber(Date(-4713, 11, 1)) == -23 && DayNumber(Date(5874898, 5, 31)) == 2147483644
  {
    DayNumberIsMonotone(d, Date(-4713, 11, 1));
    DayNumberIsMonotone(d, Date(5874898, 5, 31));
  }

  /** From 1 March -4800 the shifted year is not negative, and up to here the shift does not overflow. */
  predicate DateHasDay(year: int, month: int) {
    (year >= -4799 || (year == -4800 && month > 2)) && year <= MAX_INT32 - 4800
  }

  /** From 1 March -4800 on, and whatever the day, the result is the exact day
      wrapped to int32; so it is exact wherever the exact day fits, every real date that passes
      PgIsValidJulian among them. */
  method Date2j(year: int32, month: int32, d: int32) returns (julian: int32)
    ensures 1 <= month <= 12 && DateHasDay(year, month) ==>
              julian == I32(DayNumber(Date(year, month, d)))
  {
    hide DayNumber;
    var y: int, m: int := year, month;
    if m > 2 {
      m := I32(m + 1);
      y := I32(y + 4800);
    } else {
      m := I32(m + 13);
      y := I32(y + 4799);
    }
    var century := Quo(y, 100);
    var j: int := I32(I32(y * 365) - 32167);
    j := I32(j + I32(I32(Quo(y, 4) - century) + Quo(century, 4)));
    j := I32(j + I32(Quo(I32(7834 * m), 256) + d));
    julian := j;
    if 1 <= month <= 12 && DateHasDay(year, month) {
      Date2jArithmetic(year, month, d);
    }
  }

  lemma Date2jArithmetic(year: int, month: int, d: int)
    requires 1 <= month <= 12 && DateHasDay(year, month)
    ensures
      var y := if month > 2 then year + 4800 else year + 4799;
      var m := if month > 2 then month + 1 else month + 13;
      && 0 <= y <= MAX_INT32 && 0 <= 7834 * m <= MAX_INT32
      && I32(I32(I32(I32(y * 365) - 32167) + I32(I32(y / 4 - y / 100) + y / 100 / 4)) + I32(7834 * m / 256 + d))
         == I32(DayNumber(Date(year, month, d)))
  {
    var y := if month > 2 then year + 4800 else year + 4799;
    var m := if month > 2 then month + 1 else month + 13;
    var leaps := y / 4 - y / 100 + y / 100 / 4;
    assert 0 <= y / 4 - y / 100 && 0 <= leaps <= MAX_INT32;
    WrapSum(y * 365, leaps, 7834 * m / 256 + d);
    FormulaIsDayNumber(year, month, d);
    assert y * 365 - 32167 + leaps + (7834 * m / 256 + d) == DayNumber(Date(year, month, d));
  }

  lemma WrapIsCongruence(a: int, b: int)
    ensures I32(I32(a) + b) == I32(a + b) && I32(b + I32(a)) == I32(a + b)
  {
    var k := (a - MIN_INT32) / TWO_32;
    var c := a + b - MIN_INT32;
    DivUnique(c - TWO_32 * k, TWO_32, c / TWO_32 - k, c % TWO_32);
  }

  lemma WrapSum(a: int, leaps: int, b: int)
    ensures I32(I32(I32(I32(a) - 32167) + leaps) + I32(b)) == I32(a - 32167 + leaps + b)
  {
    WrapIsCongruence(a, -32167);
    WrapIsCongruence(a - 32167, leaps);
    WrapIsCongruence(a - 32167 + leaps, I32(b));
    WrapIsCongruence(b, a - 32167 + leaps);
  }

  /** The closed form date2j computes, before wrapping, is the day count of the calendar. */
  lemma FormulaIsDayNumber(year: int, month: int, d: int)
    requires 1 <= month <= 12 && DateHasDay(year, month)
    ensures var y := if month > 2 then year + 4800 else year + 4799;
      var m := if month > 2 then month + 1 else month + 13;
      365 * y - 32167 + y / 4 - y / 100 + y / 100 / 4 + 7834 * m / 256 + d == DayNumber(Date(year, month, d))
  {
    LeapShift(year + 4800);
    LeapShift(year + 4799);
    LeapYearStep(year);
    LeapYearStep(year + 4800);
    QuarterCentury(year + 4800);
    QuarterCentury(year + 4799);
  }

  lemma QuarterCentury(y: int)
    ensures y / 100 / 4 == y / 400
  {
    var c := y / 100;
    DivUnique(y, 400, c / 4, 100 * (c % 4) + y % 100);
  }

  /** The date of a Julian day. From day -32044 on, negative days included, the unsigned wrap-around
      is harmless and the result is the day's date. */
  method J2date(jd: int32) returns (year: int32, month: int32, day: int32)
    ensures jd >= -32044 ==> Date(year, month, day) == DateOf(jd)
  {
    var julian: int := U32(jd);
    julian := U32(julian + 32044);
    if jd >= -32044 {
      WrapBack(jd);
    }
    var y: int;
    y, julian := YearStep(julian);
    year := I32(y - 4800);
    month, day := MonthStep(julian);
  }

  /** The first half of j2date: the calendar year, and the day of the March year plus 123. */
  method YearStep(n: uint32) returns (y: int32, julian: uint32)
    ensures n <= MAX_INT32 + 32044 ==>
      var e := julian - 123; var y0 := MarchYearOf(n);
      0 <= y0 <= 5880000 && 0 <= e <= 365 && y == (if e < 306 then y0 else y0 + 1) && DateOf(n - 32044) == MarchDate(y0, e)
  {
    hide MarchYearOf, DateOf, MarchDate;
    var quad: int := n / 146097;
    var extra: int := U32((n - quad * 146097) * 4 + 3);
    var j: int := U32(n + (60 + quad * 3 + extra / 146097));
    ghost var y0, e0 := 0, 0;
    if n <= MAX_INT32 + 32044 {
      y0, e0 := MarchParts(n);
      FourYearCycle(y0, e0, j);
    }
    quad := j / 1461;
    j := j - quad * 1461;
    var yy: int := U32(j * 4) / 1461;
    if yy != 0 {
      julian := (j + 305) % 365 + 123;
    } else {
      julian := (j + 306) % 366 + 123;
    }
    y := I32(yy + I32(U32(quad * 4)));
  }

  /** The second half of j2date: month and day, by multiplication. */
  method MonthStep(julian: uint32) returns (month: int32, day: int32)
    ensures 123 <= julian <= 488 ==>
      var e := julian - 123; var first := MarchDate(4800, e);
      month == first.month && day == first.day
  {
    var quad := U32(julian * 2141) / 65536;
    day := I32(U32(julian - U32(7834 * quad) / 256));
    month := I32((quad + 10) % 12 + 1);
    if 123 <= julian <= 488 {
      MonthByMultiplication(julian - 123, julian);
    }
  }

  lemma WrapBack(jd: int)
    requires -32044 <= jd <= MAX_INT32
    ensures U32(U32(jd) + 32044) == jd + 32044
  {
    if jd < 0 {
      DivUnique(jd, TWO_32, -1, jd + TWO_32);
      DivUnique(jd + TWO_32 + 32044, TWO_32, 1, jd + 32044);
    }
  }

  /** The March year and day of an exact count n of days from 1 March -4800, and the count that the
      correction for centuries makes of them. */
  lemma MarchParts(n: int) returns (y: int, e: int)
    requires 0 <= n <= MAX_INT32 + 32044
    ensures y == MarchYearOf(n) && 0 <= y <= 5880000 && 0 <= e <= 365 && (e == 365 ==> (y + 1) % 4 == 0)
    ensures DateOf(n - 32044) == MarchDate(y, e)
    ensures n + (60 + n / 146097 * 3 + ((n - n / 146097 * 146097) * 4 + 3) / 146097) == 365 * y + y / 4 + e + 60
  {
    y := MarchYearOf(n);
    e := n - MarchDay(y, 0);
    MarchYearIsRight(n);
    CenturyCarry(n);
    LeapMarch(y);
  }

  lemma LeapMarch(y: int)
    ensures IsLeap(y + 1) ==> (y + 1) % 4 == 0
  {}

  /** The correction for centuries turns the count into one with a leap year every four years. */
  lemma CenturyCarry(n: int)
    requires 0 <= n
    ensures var quad := n / 146097; var y := MarchYearOf(n);
      n + (60 + quad * 3 + ((n - quad * 146097) * 4 + 3) / 146097) == 365 * y + y / 4 + (n - MarchDay(y, 0)) + 60
    ensures MarchYearOf(n) >= 0
  {
    var q, r := n / 146097, n % 146097;
    var c := (4 * r + 3) / 146097;
    var w := (4 * (r - 36524 * c) + 3) / 1461;
    assert 0 <= c <= 3 && 0 <= w <= 99;
    MarchYearParts(q, c, w);
  }

  /** In that count, the four-year cycle gives the calendar year and the day of the March year. */
  lemma FourYearCycle(y: int, e: int, j: int)
    requires 0 <= y <= 5880000 && 0 <= e <= 365 && (e == 365 ==> (y + 1) % 4 == 0)
    requires j == 365 * y + y / 4 + e + 60
    ensures
      var q := j / 1461;
      var r := j - q * 1461;
      var s := r * 4 / 1461;
      && 0 <= q <= 1480000 && 0 <= r <= 1460 && 0 <= s <= 3
      && s + q * 4 == (if e < 306 then y else y + 1)
      && e == (if s != 0 then (r + 305) % 365 else (r + 306) % 366)
  {
    var p, w := y / 4, y % 4;
    var t := 365 * w + e + 60;
    assert j == 1461 * p + t;
    if t < 1461 {
      DivUnique(j, 1461, p, t);
    } else {
      DivUnique(j, 1461, p + 1, t - 1461);
    }
  }

  lemma MonthByMultiplication(e: int, j: int)
    requires 0 <= e <= 365 && j == e + 123
    ensures var k := j * 2141 / 65536; var m := (5 * e + 2) / 153;
      && 0 <= m <= 11 && 4 <= k <= 15 && (m < 10 <==> e < 306)
      && 1 <= j - 7834 * k / 256 <= 31 && j - 7834 * k / 256 == e - (153 * m + 2) / 5 + 1
      && (k + 10) % 12 + 1 == (if m < 10 then m + 3 else m - 9)
  {
    var m := MarchMonth(e);
    var k := j * 2141 / 65536;
    assert k == m + 4;
  }

  /** The round trip of every real date the check admits, and of every Julian day from 0 up. */
  method DateRoundTrip(d: Date) returns (back: Date)
    requires ValidDate(d) && PgIsValidJulian(d.year, d.month, d.day)
    ensures back == d
  {
    ValidJulianRange(d);
    var jd := Date2j(d.year, d.month, d.day);
    var y, m, day := J2date(jd);
    back := Date(y, m, day);
    DateOfInvertsDayNumber(jd, d);
  }

  method JulianRoundTrip(jd: int32) returns (back: int32)
    requires jd >= -32044
    ensures back == jd
  {
    var y, m, day := J2date(jd);
    DateOfInvertsDayNumber(jd, Date(y, m, day));
    JulianYears(jd);
    back := Date2j(y, m, day);
  }

  /** The dates of the Julian days j2date handles lie in the years date2j handles. */
  lemma JulianYears(jd: int)
    requires -32044 <= jd <= MAX_INT32
    ensures -4800 <= DateOf(jd).year <= 5874898
    ensures DateOf(jd).year == -4800 ==> DateOf(jd).month >= 3
  {
    var d := DateOf(jd);
    DateOfIsRight(jd);
    DayNumberIsMonotone(d, Date(-4800, 3, 1));
    DayNumberIsMonotone(Date(5874898, 12, 31), d);
  }
}
