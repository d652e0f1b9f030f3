/** Packing and unpacking of timestamps: dt2time, time2t, timestamp2tm and tm2timestamp of
    pkg/sqlfn/pg_datetime.go, for timestamps without a zone. */
module Timestamps {
  import opened MachineInts
  import opened Calendar
  import opened JulianDay

  const USECS_PER_DAY := 86400000000
  const USECS_PER_HOUR := 3600000000
  const USECS_PER_MINUTE := 60000000
  const USECS_PER_SEC := 1000000
  const MIN_TIMESTAMP := -211813488000000000
  const END_TIMESTAMP := 9223371331200000000

  predicate PgIsValidTimestamp(t: int) {
    MIN_TIMESTAMP <= t < END_TIMESTAMP
  }

  datatype Zone = NoZone | West(seconds: int32)

  /** A broken-down time: what struct pg_tm and the fraction beside it say. */
  datatype Moment = Moment(date: Date, hour: int, min: int, sec: int, fsec: int)

  ghost predicate ValidMoment(m: Moment) {
    ValidDate(m.date) && 0 <= m.hour < 24 && 0 <= m.min < 60 && 0 <= m.sec < 60 && 0 <= m.fsec < USECS_PER_SEC
  }

  function TimeOfDay(m: Moment): int {
    ((m.hour * 60 + m.min) * 60 + m.sec) * USECS_PER_SEC + m.fsec
  }

  /** A moment's distance from the start of 2000, with no wrap-around. */
  ghost function Micros(m: Moment): int
    requires ValidDate(m.date)
  {
    (DayNumber(m.date) - POSTGRES_EPOCH_JDATE) * USECS_PER_DAY + TimeOfDay(m)
  }

  /** The limits are the midnights of Julian day 0 and of the day the timestamp range ends. */
  lemma LimitsAreMidnights()
    ensures MIN_TIMESTAMP == (0 - POSTGRES_EPOCH_JDATE) * USECS_PER_DAY
    ensures END_TIMESTAMP == (109203528 - POSTGRES_EPOCH_JDATE) * USECS_PER_DAY
  {}

  lemma TimeOfDayRange(m: Moment)
    requires ValidMoment(m)
    ensures 0 <= TimeOfDay(m) < USECS_PER_DAY
  {}

  // struct pg_tm, which truncTm changes through a pointer.

  class PgTm {
    var sec: int32
    var min: int32
    var hour: int32
    var mday: int32
    var mon: int32
    var year: int32

    constructor (year: int32, mon: int32, mday: int32, hour: int32, min: int32, sec: int32)
      ensures At(0) == Moment(Date(year, mon, mday), hour, min, sec, 0)
    {
      this.year, this.mon, this.mday, this.hour, this.min, this.sec := year, mon, mday, hour, min, sec;
    }

    function At(fsec: int): Moment
      reads this
    {
      Moment(Date(year, mon, mday), hour, min, sec, fsec)
    }
  }

  /** For any time of day the parts are in range and recombine to it. */
  method Dt2time(jd: int64) returns (hour: int32, min: int32, sec: int32, fsec: int64)
    ensures 0 <= jd < USECS_PER_DAY ==>
      0 <= hour < 24 && 0 <= min < 60 && 0 <= sec < 60 && 0 <= fsec < USECS_PER_SEC
      && ((hour * 60 + min) * 60 + sec) * USECS_PER_SEC + fsec == jd
  {
    var t: int := jd;
    hour := I32(Quo(t, USECS_PER_HOUR));
    t := I64(t - hour * USECS_PER_HOUR);
    min := I32(Quo(t, USECS_PER_MINUTE));
    t := I64(t - min * USECS_PER_MINUTE);
    sec := I32(Quo(t, USECS_PER_SEC));
    fsec := I64(t - sec * USECS_PER_SEC);
  }

  function Time2t(hour: int, min: int, sec: int, fsec: int): int64 {
    I64(((hour * 60 + min) * 60 + sec) * USECS_PER_SEC + fsec)
  }

  /** The years int64 microseconds reach, from Julian day 0 on. */
  lemma TimestampYears(m: Moment)
    requires ValidMoment(m) && -POSTGRES_EPOCH_JDATE * USECS_PER_DAY <= Micros(m) <= MAX_INT64
    ensures -4713 <= m.date.year <= 294277
  {
    hide DayNumber, MonthLength;
    TimeOfDayRange(m);
    DayNumberIsMonotone(Date(-4713, 1, 1), m.date);
    DayNumberIsMonotone(m.date, Date(294278, 1, 1));
    DaysAtTheEnds();
  }

  lemma DaysAtTheEnds()
    ensures DayNumber(Date(-4713, 1, 1)) < 0 && DayNumber(Date(294278, 1, 1)) > 109203600
  {}

  /** Breaks a timestamp down. It succeeds exactly where the day is a Julian day int32 holds, which
      every valid timestamp is, and the moment it gives is the timestamp's own. */
  method Timestamp2tm(dt: int64) returns (tm: PgTm, fsec: int64, ok: bool)
    ensures fresh(tm)
    ensures ok <==> 0 <= dt / USECS_PER_DAY + POSTGRES_EPOCH_JDATE <= MAX_INT32
    ensures PgIsValidTimestamp(dt) ==> ok
    ensures ok ==> ValidMoment(tm.At(fsec)) && Micros(tm.At(fsec)) == dt && -4713 <= tm.year <= 294277
  {
    hide DayNumber, DateOf, MonthLength;
    var t: int := dt;
    var date: int := Quo(t, USECS_PER_DAY);
    if date != 0 {
      t := t - date * USECS_PER_DAY;
    }
    if t < 0 {
      t := t + USECS_PER_DAY;
      date := date - 1;
    }
    DivUnique(dt, USECS_PER_DAY, date, t);
    date := date + POSTGRES_EPOCH_JDATE;
    fsec := 0;
    if date < 0 || date > MAX_INT32 {
      tm := new PgTm(0, 0, 0, 0, 0, 0);
      return tm, 0, false;
    }
    var year, mon, mday := J2date(date);
    DateOfIsRight(date);
    var hour, min, sec;
    hour, min, sec, fsec := Dt2time(t);
    tm := new PgTm(year, mon, mday, hour, min, sec);
    ok := true;
    var m := tm.At(fsec);
    assert TimeOfDay(m) == t;
    TimestampYears(m);
  }

  /** A shift of at most a week, which every time zone's is, cannot bring a sum that overflowed back
      into range. */
  predicate ModestShift(tz: Zone) {
    tz.West? ==> -604800 <= tz.seconds <= 604800
  }

  function Shift(tz: Zone): int {
    match tz case NoZone => 0 case West(s) => s * USECS_PER_SEC
  }

  /** The shift as the source negates it, in 32 bits: every offset's own but the least's. */
  function NegatedShift(tz: Zone): (r: int)
    ensures tz.NoZone? || tz.seconds != MIN_INT32 ==> r == Shift(tz)
  {
    match tz case NoZone => 0 case West(s) => (var n: int := s; var east: int := I32(-n); -east * USECS_PER_SEC)
  }

  /** Packs a broken-down time. On a real date and time of day, with any offset, it succeeds exactly when
      the date passes the Julian check, the unshifted value fits int64 and the shifted one is a valid
      timestamp. With an offset of at most a week the last implies the others, so the tests for wrap-around
      neither miss one nor reject without need. */
  method Tm2timestamp(tm: PgTm, fsec: int64, tz: Zone) returns (result: int64, ok: bool)
    ensures ValidMoment(tm.At(fsec)) ==>
      var local := Micros(tm.At(fsec)); var exact := local + NegatedShift(tz);
      && (ok <==> PgIsValidJulian(tm.year, tm.mon, tm.mday) && local <= MAX_INT64 && PgIsValidTimestamp(exact))
      && (ok ==> result == exact)
    ensures ValidMoment(tm.At(fsec)) && ModestShift(tz) ==>
      var exact := Micros(tm.At(fsec)) + Shift(tz);
      (ok <==> PgIsValidTimestamp(exact)) && (ok ==> result == exact)
  {
    hide DayNumber, MonthLength, ValidDate, ValidMoment, PgIsValidJulian, ModestShift, Shift;
    ghost var valid := ValidMoment(tm.At(fsec));
    if valid && ModestShift(tz) { ModestShiftIsExact(tm.At(fsec), tz); }
    var r: int;
    r, ok := PackLocal(tm, fsec);
    if !ok {
      return 0, false;
    }
    if tz.West? {
      var west: int := tz.seconds;
      if valid { ShiftStaysExact(r, west); }
      r := I64(r - I64(I32(-west) * USECS_PER_SEC));
    }
    if !PgIsValidTimestamp(r) {
      return 0, false;
    }
    return r, true;
  }

  /** The value before any offset, with the two tests for wrap-around. */
  method PackLocal(tm: PgTm, fsec: int64) returns (result: int64, ok: bool)
    ensures ValidMoment(tm.At(fsec)) ==>
      var local := Micros(tm.At(fsec));
      && (ok <==> PgIsValidJulian(tm.year, tm.mon, tm.mday) && local <= MAX_INT64)
      && (ok ==> result == local && local > -2451569 * USECS_PER_DAY)
  {
    hide DayNumber, MonthLength, ValidDate, ValidMoment;
    ghost var valid := ValidMoment(tm.At(fsec));
    if valid { PackingRange(tm.At(fsec)); }
    if !PgIsValidJulian(tm.year, tm.mon, tm.mday) {
      return 0, false;
    }
    var jd := Date2j(tm.year, tm.mon, tm.mday);
    var date: int := jd - POSTGRES_EPOCH_JDATE;
    var t: int := Time2t(tm.hour, tm.min, tm.sec, fsec);
    var r: int := I64(I64(date * USECS_PER_DAY) + t);
    if valid { WrapTests(date, t); }
    assert valid ==> t == TimeOfDay(tm.At(fsec));
    if Quo(I64(r - t), USECS_PER_DAY) != date {
      return 0, false;
    }
    if (r < 0 && date > 0) || (r > 0 && date < -1) {
      return 0, false;
    }
    return r, true;
  }

  /** A shift of at most a week takes no date that fails the Julian check, and no value past int64, back into
      range. */
  lemma ModestShiftIsExact(m: Moment, tz: Zone)
    requires ValidMoment(m) && ModestShift(tz)
    ensures NegatedShift(tz) == Shift(tz)
    ensures PgIsValidTimestamp(Micros(m) + Shift(tz)) ==>
              PgIsValidJulian(m.date.year, m.date.month, m.date.day) && Micros(m) <= MAX_INT64
  {
    hide DayNumber, MonthLength, Micros;
    PackingRange(m);
  }

  lemma ShiftStaysExact(r: int64, west: int)
    requires MIN_INT32 <= west <= MAX_INT32 && r > -2451569 * USECS_PER_DAY
    ensures var s := I64(r - I64(I32(-west) * USECS_PER_SEC)); var exact := r - I32(-west) * USECS_PER_SEC;
      (PgIsValidTimestamp(s) <==> PgIsValidTimestamp(exact)) && (PgIsValidTimestamp(s) ==> s == exact)
  {}

  /** Where a real date fails the Julian check its timestamp is out of range by more than a week, and
      where it passes its Julian day is exact. */
  lemma PackingRange(m: Moment)
    requires ValidMoment(m)
    ensures var d := m.date;
      && (!PgIsValidJulian(d.year, d.month, d.day) ==>
            Micros(m) < MIN_TIMESTAMP - 604800 * USECS_PER_SEC || Micros(m) >= END_TIMESTAMP + 604800 * USECS_PER_SEC)
      && (PgIsValidJulian(d.year, d.month, d.day) ==>
            DateHasDay(d.year, d.month) && -23 <= DayNumber(d) <= MAX_INT32)
      && 1 <= d.month <= 12 && 0 <= TimeOfDay(m) < USECS_PER_DAY
  {
    hide DayNumber;
    TimeOfDayRange(m);
    DayNumberIsMonotone(m.date, Date(-4713, 11, 1));
    DayNumberIsMonotone(Date(5874898, 5, 31), m.date);
    EndsOfRange();
  }

  lemma EndsOfRange()
    ensures DayNumber(Date(-4713, 11, 1)) == -23 && DayNumber(Date(5874898, 5, 31)) == 2147483644
  {}

  /** The two tests fail exactly where date * day + t does not fit int64. */
  lemma WrapTests(date: int, t: int)
    requires -2451568 <= date <= MAX_INT32 && 0 <= t < USECS_PER_DAY
    ensures var exact := date * USECS_PER_DAY + t;
      var r := I64(I64(date * USECS_PER_DAY) + t);
      && (exact <= MAX_INT64 ==>
            r == exact && Quo(I64(r - t), USECS_PER_DAY) == date && !((r < 0 && date > 0) || (r > 0 && date < -1)))
      && (exact > MAX_INT64 ==>
            Quo(I64(r - t), USECS_PER_DAY) != date || (r < 0 && date > 0))
  {
    var x := date * USECS_PER_DAY;
    if x > MAX_INT64 {
      WrapBack64(x, t);
      assert date > 106751991;
    }
  }

  lemma WrapBack64(x: int, t: int)
    requires x > MAX_INT64
    ensures I64(I64(I64(x) + t) - t) == I64(x)
  {
    var a := I64(x) + t;
    var k := (a - MIN_INT64) / TWO_64;
    var c := I64(x) - MIN_INT64;
    assert I64(a) == a - TWO_64 * k;
    DivUnique(c - TWO_64 * k, TWO_64, -k, c);
  }

  /** Packing undoes unpacking on every valid timestamp. */
  method TimestampRoundTrip(dt: int64) returns (back: int64, ok: bool)
    requires PgIsValidTimestamp(dt)
    ensures ok && back == dt
  {
    var tm, fsec, _ := Timestamp2tm(dt);
    back, ok := Tm2timestamp(tm, fsec, NoZone);
  }

  // Micros orders moments as their fields do, so a timestamp has one moment.

  ghost predicate Earlier(a: Moment, b: Moment) {
    Before(a.date, b.date) || (a.date == b.date && TimeOfDay(a) < TimeOfDay(b))
  }

  lemma MicrosIsMonotone(a: Moment, b: Moment)
    requires ValidMoment(a) && ValidMoment(b)
    ensures Earlier(a, b) <==> Micros(a) < Micros(b)
    ensures Micros(a) == Micros(b) ==> a == b
  {
    hide DayNumber, MonthLength;
    TimeOfDayRange(a);
    TimeOfDayRange(b);
    DayNumberIsMonotone(a.date, b.date);
  }

  /** The moment of a timestamp, on every integer. */
  ghost function MomentOf(t: int): Moment {
    var time := t % USECS_PER_DAY;
    var seconds := time / USECS_PER_SEC;
    Moment(DateOf(t / USECS_PER_DAY + POSTGRES_EPOCH_JDATE),
           seconds / 3600, seconds / 60 % 60, seconds % 60, time % USECS_PER_SEC)
  }

  lemma MomentOfIsRight(t: int)
    ensures ValidMoment(MomentOf(t)) && Micros(MomentOf(t)) == t
  {
    hide DayNumber, DateOf, MonthLength;
    DateOfIsRight(t / USECS_PER_DAY + POSTGRES_EPOCH_JDATE);
    var seconds := t % USECS_PER_DAY / USECS_PER_SEC;
    DivUnique(seconds, 3600, seconds / 60 / 60, seconds / 60 % 60 * 60 + seconds % 60);
    assert TimeOfDay(MomentOf(t)) == t % USECS_PER_DAY;
  }

  /** Moments and timestamps are in bijection. */
  lemma MomentOfInvertsMicros(t: int, m: Moment)
    ensures ValidMoment(MomentOf(t)) && Micros(MomentOf(t)) == t
    ensures ValidMoment(m) ==> MomentOf(Micros(m)) == m
  {
    hide Micros, MomentOf, ValidMoment;
    MomentOfIsRight(t);
    if ValidMoment(m) {
      ValidHasMicros(m);
      MomentOfIsRight(Micros(m));
      MicrosIsMonotone(MomentOf(Micros(m)), m);
    }
  }

  lemma ValidHasMicros(m: Moment)
    requires ValidMoment(m)
    ensures ValidDate(m.date)
  {}

  /** Unpacking undoes packing: a moment whose timestamp is valid comes back field for field. */
  method MomentRoundTrip(m: Moment) returns (back: Moment)
    requires ValidMoment(m) && PgIsValidTimestamp(Micros(m))
    ensures back == m
  {
    TimestampYears(m);
    var tm := new PgTm(m.date.year, m.date.month, m.date.day, m.hour, m.min, m.sec);
    var dt, _ := Tm2timestamp(tm, m.fsec, NoZone);
    var tm', fsec', _ := Timestamp2tm(dt);
    back := tm'.At(fsec');
    MicrosIsMonotone(back, m);
  }
}
