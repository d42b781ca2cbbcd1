/** Broken-down UTC time: `toUtcTime`, `fillHMS` and `fromUtcTime` of base/timezone.cpp. */
module UtcTime {
  import opened CInt
  import opened Calendar

  const SECONDS_PER_DAY := 24 * 60 * 60

  /** `Date::kJulianDayOf1970_01_01`. */
  const JDN_OF_1970 := 2440588

  /** `struct tm`. */
  datatype Tm = Tm(sec: int, min: int, hour: int, mday: int, mon: int, year: int, wday: int, yday: int,
                   isDst: int, gmtOff: int, zone: string)

  const ZERO_TM := Tm(0, 0, 0, 0, 0, 0, 0, 0, 0, 0, "")

  /** The first second of the calendar's range, 1 March -4800. */
  const FIRST_SECOND := (FIRST_JDN - JDN_OF_1970) * SECONDS_PER_DAY

  /** The last day for which `getYearMonthDay` stays within 32 bits. */
  const LAST_JDN := (INT_MAX - 3) / 4 - 32044

  ghost predicate InUtcRange(t: int) {
    FIRST_SECOND <= t && t / SECONDS_PER_DAY + JDN_OF_1970 <= LAST_JDN
  }

  ghost predicate ValidFields(tm: Tm) {
    && 0 <= tm.sec < 60 && 0 <= tm.min < 60 && 0 <= tm.hour < 24
    && InRange(DateOf(tm))
  }

  ghost function DateOf(tm: Tm): YearMonthDay {
    YearMonthDay(tm.year + 1900, tm.mon + 1, tm.mday)
  }

  ghost predicate SameClock(a: Tm, b: Tm) {
    && a.sec == b.sec && a.min == b.min && a.hour == b.hour
    && a.mday == b.mday && a.mon == b.mon && a.year == b.year
  }

  // ------------------------------------------------------------ specification

  /** UTC fields by flooring: the day that contains `t`, and the time within it. */
  function UtcFields(t: int, yday: bool): Tm {
    var jdn := t / SECONDS_PER_DAY + JDN_OF_1970;
    var s := t % SECONDS_PER_DAY;
    var d := GetYearMonthDay(jdn);
    Tm(s % 60, s / 60 % 60, s / 3600, d.day, d.month - 1, d.year - 1900, WeekDay(jdn),
       if yday then jdn - GetJulianDayNumber(d.year, 1, 1) else 0, 0, 0, "GMT")
  }

  function FromUtcTime(utc: Tm): int {
    var secondsInDay := utc.hour * 3600 + utc.min * 60 + utc.sec;
    var days := GetJulianDayNumber(utc.year + 1900, utc.mon + 1, utc.mday) - JDN_OF_1970;
    days * SECONDS_PER_DAY + secondsInDay
  }

  // ------------------------------------------------------------------ the code

  method FillHMS(seconds: nat, utc: Tm) returns (r: Tm)
    ensures 0 <= r.sec < 60 && 0 <= r.min < 60 && r.hour * 3600 + r.min * 60 + r.sec == seconds
    ensures r == utc.(sec := r.sec, min := r.min, hour := r.hour)
  {
    r := utc.(sec := seconds % 60);
    var minutes := seconds / 60;
    r := r.(min := minutes % 60);
    r := r.(hour := minutes / 60);
  }

  /** Truncating division, a fix-up for negative remainders and two narrowing casts amount to flooring. */
  method ToUtcTime(secondsSinceEpoch: int, yday: bool) returns (utc: Tm)
    ensures InUtcRange(secondsSinceEpoch) ==> utc == UtcFields(secondsSinceEpoch, yday)
    ensures utc.isDst == 0 && utc.gmtOff == 0 && utc.zone == "GMT" && (!yday ==> utc.yday == 0)
  {
    hide GetYearMonthDay, GetJulianDayNumber, WeekDay, CDiv, CMod, ToInt32;
    utc := ZERO_TM.(zone := "GMT");
    var seconds := ToInt32(CMod(secondsSinceEpoch, SECONDS_PER_DAY));
    var days := ToInt32(CDiv(secondsSinceEpoch, SECONDS_PER_DAY));
    if seconds < 0 {
      seconds := seconds + SECONDS_PER_DAY;
      days := days - 1;
    }
    SplitSeconds(secondsSinceEpoch, seconds, days);
    utc := FillHMS(seconds, utc);
    var jdn := days + JDN_OF_1970;
    var ymd := GetYearMonthDay(jdn);
    utc := utc.(year := ymd.year - 1900);
    utc := utc.(mon := ymd.month - 1);
    utc := utc.(mday := ymd.day);
    utc := utc.(wday := WeekDay(jdn));
    if yday {
      utc := utc.(yday := jdn - GetJulianDayNumber(ymd.year, 1, 1));
    }
    ClockDigits(utc.hour, utc.min, utc.sec);
  }

  lemma SplitSeconds(t: int, seconds: int, days: int)
    requires var s := ToInt32(CMod(t, SECONDS_PER_DAY));
             var d := ToInt32(CDiv(t, SECONDS_PER_DAY));
             if s < 0 then seconds == s + SECONDS_PER_DAY && days == d - 1 else seconds == s && days == d
    ensures 0 <= seconds < SECONDS_PER_DAY
    ensures InUtcRange(t) ==> seconds == t % SECONDS_PER_DAY && days == t / SECONDS_PER_DAY
  {
    if t < 0 {
      FloorOfNegative(t, SECONDS_PER_DAY);
    }
  }

  /** The adjustment after truncating division gives the floor. */
  lemma FloorOfNegative(t: int, n: int)
    requires t < 0 < n
    ensures -n < CMod(t, n) <= 0
    ensures if CMod(t, n) < 0 then t % n == CMod(t, n) + n && t / n == CDiv(t, n) - 1
            else t % n == 0 && t / n == CDiv(t, n)
  {
    CModOfNegative(t, n);
    CDivOfNegative(t, n);
    hide CMod, CDiv;
    var q, r := (-t) / n, (-t) % n;
    Euclid(-t, n);
    NegatedProduct(n, q);
    if r == 0 {
      DivUnique(t, n, -q, 0);
    } else {
      DivUnique(t, n, -q - 1, n - r);
    }
  }

  lemma NegatedProduct(n: int, q: int)
    ensures n * (-q) == -(n * q) && n * (-q - 1) == -(n * q) - n
  {
  }

  lemma ClockDigits(h: nat, m: nat, s: nat)
    requires m < 60 && s < 60
    ensures var x := h * 3600 + m * 60 + s; x % 60 == s && x / 60 % 60 == m && x / 3600 == h
  {
    var x := h * 3600 + m * 60 + s;
    DivUnique(x, 60, h * 60 + m, s);
    DivUnique(h * 60 + m, 60, h, m);
    DivUnique(x, 3600, h, m * 60 + s);
  }

  // ---------------------------------------------------------------- properties

  /** The constant is the day number that base/date.cpp computes for it, and time 0 is the start of that day. */
  lemma EpochDay()
    ensures GetJulianDayNumber(1970, 1, 1) == JDN_OF_1970
    ensures FromUtcTime(Tm(0, 0, 0, 1, 0, 70, 4, 0, 0, 0, "GMT")) == 0
  {
    JdnIsMarchCount(YearMonthDay(1970, 1, 1));
    hide GetJulianDayNumber;
    EpochCount();
  }

  lemma EpochCount()
    ensures var d := YearMonthDay(1970, 1, 1); MarchCount(MarchYear(d), MarchMonth(d), 1) + FIRST_JDN == JDN_OF_1970
  {
  }

  /** `fromUtcTime` inverts `toUtcTime` on every second of the calendar's range, and the fields are valid. */
  lemma SecondsRoundTrip(t: int, yday: bool)
    requires t >= FIRST_SECOND
    ensures FromUtcTime(UtcFields(t, yday)) == t
    ensures ValidFields(UtcFields(t, yday))
  {
    hide GetYearMonthDay, GetJulianDayNumber;
    var jdn := t / SECONDS_PER_DAY + JDN_OF_1970;
    DayNumberRoundTrip(jdn);
    TimeOfDay(t % SECONDS_PER_DAY);
  }

  lemma TimeOfDay(s: nat)
    requires s < SECONDS_PER_DAY
    ensures s / 3600 * 3600 + s / 60 % 60 * 60 + s % 60 == s && s / 3600 < 24
  {
    var m := s / 60;
    Euclid(s, 60);
    Euclid(m, 60);
    DivUnique(s, 3600, m / 60, m % 60 * 60 + s % 60);
  }

  /** `toUtcTime` inverts `fromUtcTime` on every valid date and time. */
  lemma FieldsRoundTrip(tm: Tm, yday: bool)
    requires ValidFields(tm)
    ensures FromUtcTime(tm) >= FIRST_SECOND
    ensures SameClock(UtcFields(FromUtcTime(tm), yday), tm)
  {
    hide GetYearMonthDay, GetJulianDayNumber;
    var d := DateOf(tm);
    var n := Position(d);
    var s := tm.hour * 3600 + tm.min * 60 + tm.sec;
    DivUnique(FromUtcTime(tm), SECONDS_PER_DAY, n + FIRST_JDN - JDN_OF_1970, s);
    ClockDigits(tm.hour, tm.min, tm.sec);
    DateRoundTrip(d);
  }

  /** The first second of the first whole year, 1 January -4799. */
  const FIRST_WHOLE_YEAR := FIRST_SECOND + 306 * SECONDS_PER_DAY

  /** `tm_yday` is the distance from 1 January exactly from the year -4799 on. */
  lemma DayOfYearField(t: int)
    requires t >= FIRST_SECOND
    ensures var tm := UtcFields(t, true);
            tm.yday == DaysBeforeMonth(tm.year + 1900, tm.mon + 1) + tm.mday - 1 <==> t >= FIRST_WHOLE_YEAR
  {
    hide GetYearMonthDay, GetJulianDayNumber, WeekDay, DaysBeforeMonth, MonthLength;
    var jdn := t / SECONDS_PER_DAY + JDN_OF_1970;
    DayNumberRoundTrip(jdn);
    DayOfYear(GetYearMonthDay(jdn));
    YearOfDay(jdn);
    Euclid(t, SECONDS_PER_DAY);
  }

  lemma YearOfDay(jdn: int)
    requires jdn >= FIRST_JDN
    ensures GetYearMonthDay(jdn).year == -4800 <==> jdn < FIRST_JDN + 306
  {
    hide GetYearMonthDay, GetJulianDayNumber;
    DayNumberRoundTrip(jdn);
    DayNumberRoundTrip(FIRST_JDN + 306);
    FirstDayOfYear();
    StrictlyMonotone(GetYearMonthDay(jdn), YearMonthDay(-4799, 1, 1));
  }

  lemma FirstDayOfYear()
    ensures GetJulianDayNumber(-4799, 1, 1) == FIRST_JDN + 306
  {
  }

  /** The first second of the range is on 1 March, 60 days after 1 January, for which `tm_yday` says 59. */
  lemma YearDayTooSmall()
    ensures var tm := UtcFields(FIRST_SECOND, true);
            && (tm.year + 1900, tm.mon + 1, tm.mday) == (-4800, 3, 1)
            && tm.yday == 59 && DaysBeforeMonth(-4800, 3) == 60
  {
    FirstDay();
    hide GetYearMonthDay, GetJulianDayNumber, WeekDay;
    DivUnique(FIRST_SECOND, SECONDS_PER_DAY, FIRST_JDN - JDN_OF_1970, 0);
  }

  /** Which weekday a time falls on: a Thursday at time 0, and one further every 86400 seconds, at any distance. */
  lemma WeekDayOfTime(t: int, yday: bool)
    ensures UtcFields(0, yday).wday == 4
    ensures (UtcFields(t, yday).wday - 4 - t / SECONDS_PER_DAY) % 7 == 0
    ensures if t >= (-1 - JDN_OF_1970) * SECONDS_PER_DAY then 0 <= UtcFields(t, yday).wday <= 6
            else -6 <= UtcFields(t, yday).wday <= 0
  {
    EpochDay();
    hide GetYearMonthDay, GetJulianDayNumber, WeekDay;
    WeekDayIsCounted(t / SECONDS_PER_DAY + JDN_OF_1970);
    WeekDayIsCounted(JDN_OF_1970);
    Euclid(t, SECONDS_PER_DAY);
  }

  /** Valid fields are read as whole days counted from 1 March -4800 and the seconds of the day. */
  lemma SecondsAreCounted(tm: Tm, n: nat)
    requires ValidFields(tm) && DateOf(tm) == DateAfter(n)
    ensures FromUtcTime(tm) == FIRST_SECOND + n * SECONDS_PER_DAY + (tm.hour * 60 + tm.min) * 60 + tm.sec
  {
    hide GetJulianDayNumber;
    JdnCountsDays(n);
  }

  /** On Julian day -2, a Saturday, `tm_wday` is -1. */
  lemma WeekDayTooSmall()
    ensures UtcFields((-2 - JDN_OF_1970) * SECONDS_PER_DAY, false).wday == -1
  {
    hide GetYearMonthDay, GetJulianDayNumber;
    DivUnique((-2 - JDN_OF_1970) * SECONDS_PER_DAY, SECONDS_PER_DAY, -2 - JDN_OF_1970, 0);
  }

  lemma FirstDay()
    ensures GetYearMonthDay(FIRST_JDN) == FIRST_DAY && GetJulianDayNumber(-4800, 1, 1) == FIRST_JDN - 59
  {
    hide GetYearMonthDay, GetJulianDayNumber;
    DayNumberRoundTrip(FIRST_JDN);
    FirstOfYear(-4800);
  }

  /** `tm_wday` advances by one a day; it is a valid weekday exactly from Julian day -1 on, Sundays aside. */
  lemma WeekDayField(t: int, yday: bool)
    ensures 0 <= UtcFields(t, yday).wday <= 6 <==>
            t >= (-1 - JDN_OF_1970) * SECONDS_PER_DAY || (t / SECONDS_PER_DAY + JDN_OF_1970 + 1) % 7 == 0
    ensures t >= (-1 - JDN_OF_1970) * SECONDS_PER_DAY ==>
            UtcFields(t + SECONDS_PER_DAY, yday).wday == (UtcFields(t, yday).wday + 1) % 7
  {
    hide GetYearMonthDay, GetJulianDayNumber, CMod;
    WeekDayRange(t / SECONDS_PER_DAY + JDN_OF_1970);
    Euclid(t, SECONDS_PER_DAY);
    DivUnique(t + SECONDS_PER_DAY, SECONDS_PER_DAY, t / SECONDS_PER_DAY + 1, t % SECONDS_PER_DAY);
  }
}
