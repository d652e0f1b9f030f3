/** date_trunc on timestamps without a zone: truncTm and pgTimestampTrunc of
    pkg/sqlfn/pg_datetime_funcs.go. */
module DateTrunc {
  import opened MachineInts
  import opened Calendar
  import opened IsoWeek
  import opened JulianDay
  import opened Timestamps

  datatype Dtk =
    | Millennium | Century | Decade | Year | Quarter | Month | Day | Hour | Minute | Second
    | Week | Millisec | Microsec | OtherUnit

  /** The fall-through order of the units, coarsest first. */
  const STEPS: seq<Dtk> := [Millennium, Century, Decade, Year, Quarter, Month, Day, Hour, Minute, Second]

  // What a unit's boundaries are.

  ghost predicate IsMidnight(m: Moment) {
    m.hour == 0 && m.min == 0 && m.sec == 0 && m.fsec == 0
  }

  ghost predicate StartsMonth(m: Moment) {
    m.date.day == 1 && IsMidnight(m)
  }

  ghost predicate StartsYear(m: Moment) {
    m.date.month == 1 && StartsMonth(m)
  }

  /** Whether a moment is the first of its millennium, century, ..., second. Centuries and millennia
      start in years 1, 101, ... of the astronomical count, so 1 BC, year 0, ends one of each. */
  ghost predicate IsBoundary(u: Dtk, m: Moment)
    requires ValidMoment(m)
  {
    match u
    case Millennium => m.date.year % 1000 == 1 && StartsYear(m)
    case Century => m.date.year % 100 == 1 && StartsYear(m)
    case Decade => m.date.year % 10 == 0 && StartsYear(m)
    case Year => StartsYear(m)
    case Quarter => m.date.month % 3 == 1 && StartsMonth(m)
    case Month => StartsMonth(m)
    case Week => DayNumber(m.date) % 7 == 0 && IsMidnight(m)
    case Day => IsMidnight(m)
    case Hour => m.min == 0 && m.sec == 0 && m.fsec == 0
    case Minute => m.sec == 0 && m.fsec == 0
    case Second => m.fsec == 0
    case Millisec => m.fsec % 1000 == 0
    case Microsec => true
    case OtherUnit => true
  }

  /** The start of the unit a moment lies in. */
  function Truncated(u: Dtk, m: Moment): Moment
    requires ValidMoment(m)
  {
    var y := m.date.year;
    match u
    case Millennium => YearStart(y - (y - 1) % 1000)
    case Century => YearStart(y - (y - 1) % 100)
    case Decade => YearStart(y - y % 10)
    case Year => YearStart(y)
    case Quarter => Moment(Date(y, m.date.month - (m.date.month - 1) % 3, 1), 0, 0, 0, 0)
    case Month => Moment(Date(y, m.date.month, 1), 0, 0, 0, 0)
    case Week => Moment(DateOf(MondayOf(DayNumber(m.date))), 0, 0, 0, 0)
    case Day => Moment(m.date, 0, 0, 0, 0)
    case Hour => m.(min := 0, sec := 0, fsec := 0)
    case Minute => m.(sec := 0, fsec := 0)
    case Second => m.(fsec := 0)
    case Millisec => m.(fsec := m.fsec - m.fsec % 1000)
    case Microsec => m
    case OtherUnit => m
  }

  function YearStart(y: int): Moment {
    Moment(Date(y, 1, 1), 0, 0, 0, 0)
  }

  /** Truncation gives the greatest boundary not after the moment, in both eras. */
  lemma TruncatedIsGreatestBoundary(u: Dtk, m: Moment, g: Moment)
    requires ValidMoment(m) && u != OtherUnit
    ensures var t := Truncated(u, m); ValidMoment(t) && IsBoundary(u, t) && !Earlier(m, t)
    ensures ValidMoment(g) && IsBoundary(u, g) && !Earlier(m, g) ==> !Earlier(Truncated(u, m), g)
  {
    hide DayNumber, IsLeap, DateOf;
    match u
    case Week => WeekIsGreatest(m, g);
    case Millennium => YearIsGreatest(u, 1000, 1, m, g);
    case Century => YearIsGreatest(u, 100, 1, m, g);
    case Decade => YearIsGreatest(u, 10, 0, m, g);
    case Quarter => QuarterIsGreatest(m, g);
    case Year =>
    case Month =>
    case _ => TimeIsGreatest(u, m, g);
  }

  /** The time of day orders by hour, minute, second and fraction. */
  lemma TimeOrder(a: Moment, b: Moment)
    requires 0 <= a.min < 60 && 0 <= a.sec < 60 && 0 <= a.fsec < USECS_PER_SEC
    requires 0 <= b.min < 60 && 0 <= b.sec < 60 && 0 <= b.fsec < USECS_PER_SEC
    ensures TimeOfDay(a) <= TimeOfDay(b) <==>
      (a.hour < b.hour || (a.hour == b.hour && (a.min < b.min || (a.min == b.min &&
        (a.sec < b.sec || (a.sec == b.sec && a.fsec <= b.fsec))))))
  {}

  lemma TimeIsGreatest(u: Dtk, m: Moment, g: Moment)
    requires ValidMoment(m) && Rank(Day) <= Rank(u) <= Rank(Microsec)
    ensures var t := Truncated(u, m); ValidMoment(t) && IsBoundary(u, t) && !Earlier(m, t)
    ensures ValidMoment(g) && IsBoundary(u, g) && !Earlier(m, g) ==> !Earlier(Truncated(u, m), g)
  {
    hide DayNumber, IsLeap, DateOf, ValidDate, TimeOfDay;
    TimeOrder(Truncated(u, m), m);
    if ValidMoment(g) {
      TimeOrder(g, m);
      TimeOrder(g, Truncated(u, m));
    }
    if u == Millisec {
      FloorOfYears(m.fsec, g.fsec, 1000);
    }
  }

  lemma YearIsGreatest(u: Dtk, k: int, first: int, m: Moment, g: Moment)
    requires ValidMoment(m)
    requires (u == Millennium && k == 1000 && first == 1) || (u == Century && k == 100 && first == 1) || (u == Decade && k == 10 && first == 0)
    ensures var t := Truncated(u, m); ValidMoment(t) && IsBoundary(u, t) && !Earlier(m, t)
    ensures ValidMoment(g) && IsBoundary(u, g) && !Earlier(m, g) ==> !Earlier(Truncated(u, m), g)
  {
    hide DayNumber, IsLeap, DateOf;
    var y, z := m.date.year - first, g.date.year - first;
    FloorOfYears(y, z, k);
    assert Truncated(u, m) == YearStart(y - y % k + first);
  }

  lemma QuarterIsGreatest(m: Moment, g: Moment)
    requires ValidMoment(m)
    ensures var t := Truncated(Quarter, m); ValidMoment(t) && IsBoundary(Quarter, t) && !Earlier(m, t)
    ensures ValidMoment(g) && IsBoundary(Quarter, g) && !Earlier(m, g) ==> !Earlier(Truncated(Quarter, m), g)
  {
    hide DayNumber, IsLeap, DateOf;
    FloorOfYears(m.date.month - 1, g.date.month - 1, 3);
  }

  lemma FloorOfYears(y: int, z: int, k: int)
    requires k > 1
    ensures (y - y % k) % k == 0 && (y - y % k + 1) % k == 1
    ensures (z + 1) % k == 1 ==> z % k == 0
    ensures z % k == 0 && z <= y ==> z <= y - y % k
  {
    var q, p := y / k, z / k;
    DivUnique(y - y % k, k, q, 0);
    DivUnique(y - y % k + 1, k, q, 1);
    if (z + 1) % k == 1 {
      DivUnique(z, k, (z + 1) / k, 0);
    }
    assert z % k == 0 ==> z == k * p;
    assert k * p - k * q == k * (p - q);
    MultipleGrows(k, p - q);
  }

  lemma WeekIsGreatest(m: Moment, g: Moment)
    requires ValidMoment(m)
    ensures var t := Truncated(Week, m); ValidMoment(t) && IsBoundary(Week, t) && !Earlier(m, t)
    ensures ValidMoment(g) && IsBoundary(Week, g) && !Earlier(m, g) ==> !Earlier(Truncated(Week, m), g)
  {
    hide DayNumber, IsLeap, DateOf;
    var jd := DayNumber(m.date);
    MondaysAreMultiples(jd);
    DateOfIsRight(MondayOf(jd));
    DayNumberIsMonotone(m.date, DateOf(MondayOf(jd)));
    if ValidMoment(g) {
      DayNumberIsMonotone(g.date, m.date);
      DayNumberIsMonotone(DateOf(MondayOf(jd)), g.date);
    }
  }

  /** How coarse a unit is. Weeks cut across months, so they have a place only above days. */
  predicate CoarserThan(coarse: Dtk, fine: Dtk) {
    Rank(coarse) < Rank(fine) && fine != Week && fine != OtherUnit
  }

  function Rank(u: Dtk): nat {
    match u
    case Millennium => 0 case Century => 1 case Decade => 2 case Year => 3 case Quarter => 4 case Month => 5
    case Week => 6 case Day => 7 case Hour => 8 case Minute => 9 case Second => 10 case Millisec => 11
    case Microsec => 12 case OtherUnit => 13
  }

  /** The first nine years of a century belong to a decade that starts in the century before. */
  predicate DecadeStraddles(coarse: Dtk, fine: Dtk, year: int) {
    fine == Decade && ((coarse == Century && 1 <= year % 100 <= 9) || (coarse == Millennium && 1 <= year % 1000 <= 9))
  }

  /** Truncating to a finer unit first leaves a coarser truncation as it was, except that a decade
      first moves years 1 to 9 of a century into the century (and of a millennium, into the
      millennium) before. */
  lemma FinerFirstChangesNothing(coarse: Dtk, fine: Dtk, m: Moment)
    requires ValidMoment(m) && CoarserThan(coarse, fine)
    ensures Truncated(coarse, Truncated(fine, m)) == Truncated(coarse, m) <==> !DecadeStraddles(coarse, fine, m.date.year)
  {
    hide DayNumber, IsLeap, DateOf, Truncated, ValidMoment, IsBoundary, Earlier;
    TruncatedIsGreatestBoundary(fine, m, m);
    if Rank(coarse) <= Rank(Year) {
      YearsDecide(coarse, m, Truncated(fine, m));
      YearOfTruncated(fine, m);
      if fine == Decade {
        if coarse == Century { DecadeInYears(m.date.year, 100); }
        if coarse == Millennium { DecadeInYears(m.date.year, 1000); }
      } else if coarse == Millennium && fine == Century {
        CenturyInMillennium(m.date.year);
      }
    } else {
      BelowYears(coarse, fine, m);
    }
  }

  /** The first year of the millennium, century, decade or year that year y lies in. */
  function FirstYear(u: Dtk, y: int): int {
    match u
    case Millennium => y - (y - 1) % 1000
    case Century => y - (y - 1) % 100
    case Decade => y - y % 10
    case _ => y
  }

  /** From years up only the year of a moment matters. */
  lemma YearsDecide(u: Dtk, m: Moment, n: Moment)
    requires ValidMoment(m) && ValidMoment(n) && Rank(u) <= Rank(Year)
    ensures Truncated(u, n) == Truncated(u, m) <==> FirstYear(u, n.date.year) == FirstYear(u, m.date.year)
  {
  }

  lemma YearOfTruncated(u: Dtk, m: Moment)
    requires ValidMoment(m) && u != Week && u != OtherUnit
    ensures Truncated(u, m).date.year == FirstYear(u, m.date.year)
  {
    hide DayNumber, IsLeap, DateOf;
  }

  lemma BelowYears(coarse: Dtk, fine: Dtk, m: Moment)
    requires ValidMoment(m) && CoarserThan(coarse, fine) && Rank(coarse) > Rank(Year) && ValidMoment(Truncated(fine, m))
    ensures Truncated(coarse, Truncated(fine, m)) == Truncated(coarse, m)
  {
    hide DayNumber, IsLeap, DateOf;
  }

  lemma DecadeInYears(y: int, k: int)
    requires k == 100 || k == 1000
    ensures var d := y - y % 10;
      (d - (d - 1) % k == y - (y - 1) % k) <==> !(1 <= y % k <= 9)
  {
    var q, r := y / k, y % k;
    var t, s := r / 10, r % 10;
    assert y == k * q + 10 * t + s;
    DivUnique(y, 10, (k / 10) * q + t, s);
    var d := k * q + 10 * t;
    assert d == y - y % 10;
    if t > 0 {
      DivUnique(d - 1, k, q, 10 * t - 1);
    } else {
      DivUnique(d - 1, k, q - 1, k - 1);
    }
    if r > 0 {
      DivUnique(y - 1, k, q, r - 1);
    } else {
      DivUnique(y - 1, k, q - 1, k - 1);
    }
  }

  lemma CenturyInMillennium(y: int)
    ensures var c := y - (y - 1) % 100; c - (c - 1) % 1000 == y - (y - 1) % 1000
  {
    var z := y - 1;
    var q, r := z / 1000, z % 1000;
    DivUnique(z, 100, 10 * q + r / 100, r % 100);
    DivUnique(1000 * q + 100 * (r / 100), 1000, q, 100 * (r / 100));
  }

  /** The straddling decade, concretely: 2003 lies in the century of 2001, its decade starts in the
      century of 1901. */
  lemma DecadeThenCenturyDiffers()
    ensures Truncated(Century, YearStart(2003)) == YearStart(2001)
    ensures Truncated(Century, Truncated(Decade, YearStart(2003))) == YearStart(1901)
  {}

  // truncTm.

  function StartOf(val: Dtk): nat {
    match val
    case Millennium => 0 case Century => 1 case Decade => 2 case Year => 3 case Quarter => 4 case Month => 5
    case Day => 6 case Hour => 7 case Minute => 8 case Second => 9 case _ => 10
  }

  /** The truncating divisions round toward the start of the unit in both eras. */
  lemma YearCuts(y: int)
    ensures (if y > 0 then Quo(y + 999, 1000) * 1000 - 999 else -Quo(999 - (y - 1), 1000) * 1000 + 1) == y - (y - 1) % 1000
    ensures (if y > 0 then Quo(y + 99, 100) * 100 - 99 else -Quo(99 - (y - 1), 100) * 100 + 1) == y - (y - 1) % 100
    ensures (if y > 0 then Quo(y, 10) * 10 else -Quo(8 - (y - 1), 10) * 10) == y - y % 10
  {
    YearCutBy(y, 1000);
    YearCutBy(y, 100);
    if y <= 0 {
      DivUnique(9 - y, 10, -(y / 10), 9 - y % 10);
    }
  }

  lemma YearCutBy(y: int, k: int)
    requires k == 1000 || k == 100
    ensures (if y > 0 then Quo(y + k - 1, k) * k - k + 1 else -Quo(k - 1 - (y - 1), k) * k + 1) == y - (y - 1) % k
  {
    var q, r := (y - 1) / k, (y - 1) % k;
    if y > 0 {
      DivUnique(y + k - 1, k, q + 1, r);
    } else {
      DivUnique(k - 1 - (y - 1), k, -q, k - 1 - r);
    }
  }

  lemma CenturyStartsMillennium(y: int)
    ensures var c := y - (y - 1) % 1000; c - (c - 1) % 100 == c
  {
    DivUnique(y - 1 - (y - 1) % 1000, 100, 10 * ((y - 1) / 1000), 0);
  }

  /** The moments truncTm is given: what timestamp2tm unpacks. */
  ghost predicate Unpacked(m: Moment) {
    ValidMoment(m) && -4713 <= m.date.year <= 294277
  }

  /** Cuts a broken-down time back to the start of a unit, in place. redotz reports a cut to a day or
      coarser. */
  method TruncTm(val: Dtk, tm: PgTm, fsec: int64) returns (redotz: bool, ok: bool, fsec': int64)
    requires Unpacked(tm.At(fsec))
    modifies tm
    ensures ok <==> val != OtherUnit
    ensures ok ==> (redotz <==> Rank(val) <= Rank(Day))
    ensures tm.At(fsec') == Truncated(val, old(tm.At(fsec)))
  {
    hide DayNumber, IsLeap, DateOf, MonthLength;
    fsec' := fsec;
    redotz := false;
    match val
    case Week =>
      TruncWeek(tm);
      tm.hour, tm.min, tm.sec := 0, 0, 0;
      return true, true, 0;
    case OtherUnit =>
      return false, false, fsec;
    case Microsec =>
      return false, true, fsec;
    case Millisec =>
      fsec' := I64(Quo(fsec, 1000) * 1000);
      return false, true, fsec';
    case _ =>
      redotz, fsec' := FallThroughFrom(val, tm, fsec);
      return redotz, true, fsec';
  }

  /** The week case: the date becomes the Monday its week date names. The year to name it by is the
      date's own, moved by the week number and the month, which is its ISO year. */
  method TruncWeek(tm: PgTm)
    requires ValidDate(Date(tm.year, tm.mon, tm.mday)) && -4713 <= tm.year <= 294277
    modifies tm`year, tm`mon, tm`mday
    ensures Date(tm.year, tm.mon, tm.mday) == DateOf(MondayOf(DayNumber(old(Date(tm.year, tm.mon, tm.mday)))))
  {
    hide DayNumber, IsLeap, DateOf, MonthLength;
    ghost var d := Date(tm.year, tm.mon, tm.mday);
    MonthDecidesIsoYear(d);
    WeekDateNamesItsMonday(DayNumber(d));
    var woy := Date2isoweek(tm.year, tm.mon, tm.mday);
    if woy >= 52 && tm.mon == 1 {
      tm.year := I32(tm.year - 1);
    }
    if woy <= 1 && tm.mon == 12 {
      tm.year := I32(tm.year + 1);
    }
    var jd := Isoweek2j(tm.year, woy);
    MondayIsRecent(d);
    tm.year, tm.mon, tm.mday := J2date(jd);
  }

  lemma MondayIsRecent(d: Date)
    requires ValidDate(d) && d.year >= -4713
    ensures MondayOf(DayNumber(d)) >= -32044
  {
    hide DayNumber;
    DayNumberIsMonotone(Date(-4713, 1, 1), d);
    DaysAtTheEnds();
    StartOfRange();
  }

  lemma StartOfRange()
    ensures DayNumber(Date(-4713, 1, 1)) == -327
  {}

  /** Between the moment m and its truncation t: each field t's once the loop, from start, has passed
      its step. */
  ghost predicate PassedTo(start: nat, i: nat, m: Moment, t: Moment, now: Moment) {
    && now.date.year == (if start < i then t.date.year else m.date.year)
    && now.date.month == (if start < i && 3 < i then t.date.month else m.date.month)
    && now.date.day == (if start < i && 5 < i then t.date.day else m.date.day)
    && now.hour == (if start < i && 6 < i then t.hour else m.hour)
    && now.min == (if start < i && 7 < i then t.min else m.min)
    && now.sec == (if start < i && 8 < i then t.sec else m.sec)
    && now.fsec == (if start < i && 9 < i then t.fsec else m.fsec)
  }

  /** The year of a step that cuts years. */
  method CutYear(step: Dtk, y: int) returns (year: int32)
    requires (step == Millennium || step == Century || step == Decade) && -6000 <= y <= 300000
    ensures year == Truncated(step, YearStart(y)).date.year
    ensures y - 1000 < year <= y
  {
    hide DayNumber, IsLeap, DateOf, MonthLength;
    YearCuts(y);
    if step == Millennium {
      if y > 0 {
        year := I32(Quo(y + 999, 1000) * 1000 - 999);
      } else {
        year := I32(-Quo(999 - (y - 1), 1000) * 1000 + 1);
      }
    } else if step == Century {
      if y > 0 {
        year := I32(Quo(y + 99, 100) * 100 - 99);
      } else {
        year := I32(-Quo(99 - (y - 1), 100) * 100 + 1);
      }
    } else if y > 0 {
      year := I32(Quo(y, 10) * 10);
    } else {
      year := I32(-Quo(8 - (y - 1), 10) * 10);
    }
  }

  /** What truncation to a unit of the fall-through makes of each field. */
  lemma TruncatedFields(val: Dtk, m: Moment)
    requires ValidMoment(m) && StartOf(val) < 10
    ensures var t := Truncated(val, m); var s := StartOf(val);
      && t.date.year == (if s < 3 then Truncated(val, YearStart(m.date.year)).date.year else m.date.year)
      && t.date.month == (if s <= 3 then 1 else if s == 4 then 3 * Quo(m.date.month - 1, 3) + 1 else m.date.month)
      && t.date.day == (if s <= 5 then 1 else m.date.day)
      && t.hour == (if s <= 6 then 0 else m.hour)
      && t.min == (if s <= 7 then 0 else m.min)
      && t.sec == (if s <= 8 then 0 else m.sec)
      && t.fsec == 0
      && m.date.year - 1000 < t.date.year <= m.date.year
    ensures val == Millennium ==>
      var y := Truncated(val, m).date.year; Truncated(Century, YearStart(y)).date.year == y
  {
    hide DayNumber, IsLeap, DateOf;
    CenturyStartsMillennium(m.date.year);
  }

  /** The fall-through: every step from the unit down to seconds cuts its field. */
  method FallThroughFrom(val: Dtk, tm: PgTm, fsec: int64) returns (redotz: bool, fsec': int64)
    requires Unpacked(tm.At(fsec)) && StartOf(val) < 10
    modifies tm
    ensures tm.At(fsec') == Truncated(val, old(tm.At(fsec)))
    ensures redotz <==> StartOf(val) <= 6
  {
    hide Truncated, ValidMoment;
    ghost var m := tm.At(fsec);
    ghost var t := Truncated(val, m);
    TruncatedFields(val, m);
    redotz, fsec' := false, fsec;
    var start := StartOf(val);
    var i := start;
    while i < |STEPS|
      invariant start <= i <= |STEPS|
      invariant PassedTo(start, i, m, t, tm.At(fsec'))
      invariant redotz <==> start <= 6 < i
    {
      match STEPS[i] {
      case Millennium =>
        tm.year := CutYear(Millennium, tm.year);
      case Century =>
        tm.year := CutYear(Century, tm.year);
      case Decade =>
        if val != Millennium && val != Century {
          tm.year := CutYear(Decade, tm.year);
        }
      case Year =>
        tm.mon := 1;
      case Quarter =>
        tm.mon := I32(3 * Quo(tm.mon - 1, 3) + 1);
      case Month =>
        tm.mday := 1;
      case Day =>
        tm.hour := 0;
        redotz := true;
      case Hour =>
        tm.min := 0;
      case Minute =>
        tm.sec := 0;
      case Second =>
        fsec' := 0;
      case _ =>
      }
      i := i + 1;
    }
  }

  // pgTimestampTrunc.

  const DT_NOBEGIN := MIN_INT64
  const DT_NOEND := MAX_INT64

  datatype TruncResult = Value(t: int64) | OutOfRange | NotSupported

  /** Where truncation puts a timestamp, before any range check. */
  ghost function TruncatedAt(u: Dtk, t: int): int {
    MomentOfIsRight(t);
    TruncatedIsValid(u, MomentOf(t));
    Micros(Truncated(u, MomentOf(t)))
  }

  lemma TruncatedIsValid(u: Dtk, m: Moment)
    requires ValidMoment(m)
    ensures ValidMoment(Truncated(u, m))
  {
    if u != OtherUnit {
      TruncatedIsGreatestBoundary(u, m, m);
    }
  }

  ghost predicate BoundaryAt(u: Dtk, t: int) {
    MomentOfIsRight(t);
    IsBoundary(u, MomentOf(t))
  }

  /** date_trunc: an infinity is itself; any other timestamp gives its truncation, or a range error
      exactly where that is not a valid timestamp. */
  method PgTimestampTrunc(val: Dtk, ts: int64) returns (r: TruncResult)
    ensures ts == DT_NOBEGIN || ts == DT_NOEND ==> r == Value(ts)
    ensures PgIsValidTimestamp(ts) ==>
      r == if val == OtherUnit then NotSupported
           else if PgIsValidTimestamp(TruncatedAt(val, ts)) then Value(TruncatedAt(val, ts))
           else OutOfRange
  {
    hide Micros, MomentOf, ValidMoment, Truncated;
    if ts == DT_NOBEGIN || ts == DT_NOEND {
      return Value(ts);
    }
    var tm, fsec, ok := Timestamp2tm(ts);
    if !ok {
      return OutOfRange;
    }
    ghost var m := tm.At(fsec);
    MomentOfInvertsMicros(ts, m);
    TruncatedIsValid(val, m);
    UnpackedMoment(tm, fsec);
    var _, ok', fsec' := TruncTm(val, tm, fsec);
    if !ok' {
      return NotSupported;
    }
    var t, ok'' := Tm2timestamp(tm, fsec', NoZone);
    if !ok'' {
      return OutOfRange;
    }
    return Value(t);
  }

  lemma UnpackedMoment(tm: PgTm, fsec: int64)
    requires ValidMoment(tm.At(fsec)) && -4713 <= tm.year <= 294277
    ensures Unpacked(tm.At(fsec))
  {}

  /** A truncation is the greatest boundary of its unit not after the timestamp, so truncating again
      changes nothing. */
  lemma TruncationIsFloor(u: Dtk, t: int, b: int)
    requires u != OtherUnit
    ensures BoundaryAt(u, TruncatedAt(u, t)) && TruncatedAt(u, t) <= t
    ensures BoundaryAt(u, b) && b <= t ==> b <= TruncatedAt(u, t)
    ensures TruncatedAt(u, TruncatedAt(u, t)) == TruncatedAt(u, t)
  {
    FloorBound(u, t, b);
    var r := TruncatedAt(u, t);
    FloorBound(u, r, r);
  }

  lemma FloorBound(u: Dtk, t: int, b: int)
    requires u != OtherUnit
    ensures BoundaryAt(u, TruncatedAt(u, t)) && TruncatedAt(u, t) <= t
    ensures BoundaryAt(u, b) && b <= t ==> b <= TruncatedAt(u, t)
  {
    hide Micros, MomentOf, ValidMoment, Truncated, IsBoundary, Earlier;
    var m, g := MomentOf(t), MomentOf(b);
    MomentOfIsRight(t);
    MomentOfIsRight(b);
    TruncatedIsGreatestBoundary(u, m, g);
    var c := Truncated(u, m);
    MomentOfInvertsMicros(t, c);
    MicrosIsMonotone(m, c);
    MicrosIsMonotone(m, g);
    MicrosIsMonotone(c, g);
  }

  /** On timestamps: a finer truncation first leaves a coarser one as it was, but for the decade that
      straddles a century or a millennium. */
  lemma FinerFirstAt(coarse: Dtk, fine: Dtk, t: int)
    requires CoarserThan(coarse, fine)
    ensures TruncatedAt(coarse, TruncatedAt(fine, t)) == TruncatedAt(coarse, t)
        <==> !DecadeStraddles(coarse, fine, MomentOf(t).date.year)
  {
    hide Micros, MomentOf, ValidMoment, Truncated;
    var m := MomentOf(t);
    MomentOfIsRight(t);
    FinerFirstChangesNothing(coarse, fine, m);
    TruncatedIsValid(fine, m);
    TruncatedIsValid(coarse, m);
    var f := Truncated(fine, m);
    MomentOfInvertsMicros(t, f);
    TruncatedIsValid(coarse, f);
    MicrosIsMonotone(Truncated(coarse, f), Truncated(coarse, m));
  }
}
