/** The Gregorian calendar of base/date.cpp: dates to Julian day numbers and back. */
module Calendar {
  import opened CInt

  datatype YearMonthDay = YearMonthDay(year: int, month: int, day: int)

  // ---------------------------------------------------------------- the code

  function GetJulianDayNumber(year: int, month: int, day: int): int {
    var a := CDiv(14 - month, 12);
    var y := year + 4800 - a;
    var m := month + 12 * a - 3;
    day + CDiv(153 * m + 2, 5) + y * 365 + CDiv(y, 4) - CDiv(y, 100) + CDiv(y, 400) - 32045
  }

  function GetYearMonthDay(julianDayNumber: int): YearMonthDay {
    var a := julianDayNumber + 32044;
    var b := CDiv(4 * a + 3, 146097);
    var c := a - CDiv(b * 146097, 4);
    var d := CDiv(4 * c + 3, 1461);
    var e := c - CDiv(1461 * d, 4);
    var m := CDiv(5 * e + 2, 153);
    YearMonthDay(b * 100 + d - 4800 + CDiv(m, 10), m + 3 - 12 * CDiv(m, 10), e - CDiv(153 * m + 2, 5) + 1)
  }

  function WeekDay(julianDayNumber: int): int {
    CMod(julianDayNumber + 1, 7)
  }

  // ------------------------------------- the calendar, by its own rules

  predicate IsLeap(year: int) {
    year % 4 == 0 && (year % 100 != 0 || year % 400 == 0)
  }

  function MonthLength(year: int, month: int): int {
    if month == 2 then (if IsLeap(year) then 29 else 28)
    else if month in {4, 6, 9, 11} then 30 else 31
  }

  ghost predicate ValidDate(d: YearMonthDay) {
    1 <= d.month <= 12 && 1 <= d.day <= MonthLength(d.year, d.month)
  }

  /** The first day the algorithms are meant for is 1 March -4800. */
  ghost predicate InRange(d: YearMonthDay) {
    ValidDate(d) && (d.year > -4800 || (d.year == -4800 && d.month >= 3))
  }

  const FIRST_DAY := YearMonthDay(-4800, 3, 1)
  const FIRST_JDN := -32044

  ghost function NextDay(d: YearMonthDay): YearMonthDay {
    if d.day < MonthLength(d.year, d.month) then d.(day := d.day + 1)
    else if d.month < 12 then YearMonthDay(d.year, d.month + 1, 1)
    else YearMonthDay(d.year + 1, 1, 1)
  }

  /** Naive day counting: the date `n` days after 1 March -4800. */
  ghost function DateAfter(n: nat): YearMonthDay {
    if n == 0 then FIRST_DAY else NextDay(DateAfter(n - 1))
  }

  ghost predicate Earlier(a: YearMonthDay, b: YearMonthDay) {
    a.year < b.year || (a.year == b.year && (a.month < b.month || (a.month == b.month && a.day < b.day)))
  }

  /** Days from 1 January to the first of `month`. */
  ghost function DaysBeforeMonth(year: int, month: int): int {
    if month <= 1 then 0 else DaysBeforeMonth(year, month - 1) + MonthLength(year, month - 1)
  }

  // -------------------------------------------------------------- day counting

  /** Days from 1 March -4800 to a day of month `m` (March is 0) of the `y`-th year that starts in March. */
  ghost function MarchCount(y: nat, m: nat, day: int): int {
    YearDays(y) + MonthDays(m) + day - 1
  }

  ghost function YearDays(y: nat): int {
    365 * y + y / 4 - y / 100 + y / 400
  }

  ghost function MonthDays(m: nat): int {
    (153 * m + 2) / 5
  }

  ghost function MarchYear(d: YearMonthDay): int {
    if d.month >= 3 then d.year + 4800 else d.year + 4799
  }

  ghost function MarchMonth(d: YearMonthDay): int {
    if d.month >= 3 then d.month - 3 else d.month + 9
  }

  lemma JdnIsMarchCount(d: YearMonthDay)
    requires InRange(d)
    ensures MarchYear(d) >= 0 && 0 <= MarchMonth(d) <= 11
    ensures GetJulianDayNumber(d.year, d.month, d.day) == MarchCount(MarchYear(d), MarchMonth(d), d.day) + FIRST_JDN
  {
  }

  lemma YearStart(y: nat)
    ensures YearDays(y + 1) == YearDays(y) + MonthDays(11) + MonthLength(y - 4799, 2)
  {
    hide IsLeap;
    StepDiv(y, 4);
    StepDiv(y, 100);
    StepDiv(y, 400);
    Divisibility(y + 1);
    LeapShift(y + 1);
    assert MonthDays(11) == 337;
    assert y + 1 - 4800 == y - 4799;
  }

  lemma MonthStart(year: int, month: int)
    requires 3 <= month <= 11 || month == 1
    ensures MonthDays((if month == 1 then 10 else month - 3) + 1) ==
            MonthDays(if month == 1 then 10 else month - 3) + MonthLength(year, month)
  {
  }

  lemma StepDiv(y: nat, k: int)
    requires k in {4, 100, 400}
    ensures (y + 1) / k == y / k + (if (y + 1) % k == 0 then 1 else 0)
  {
    if y % k == k - 1 {
      DivUnique(y + 1, k, y / k + 1, 0);
    } else {
      DivUnique(y + 1, k, y / k, y % k + 1);
    }
  }

  lemma Divisibility(y: nat)
    ensures y % 400 == 0 ==> y % 100 == 0
    ensures y % 100 == 0 ==> y % 4 == 0
  {
    if y % 400 == 0 {
      DivUnique(y, 100, 4 * (y / 400), 0);
    }
    if y % 100 == 0 {
      DivUnique(y, 4, 25 * (y / 100), 0);
    }
  }

  lemma LeapShift(y: nat)
    ensures IsLeap(y - 4800) <==> (y % 4 == 0 && (y % 100 != 0 || y % 400 == 0))
  {
    DivUnique(y - 4800, 4, y / 4 - 1200, y % 4);
    DivUnique(y - 4800, 100, y / 100 - 48, y % 100);
    DivUnique(y - 4800, 400, y / 400 - 12, y % 400);
  }

  lemma NextDayInRange(d: YearMonthDay)
    requires InRange(d)
    ensures InRange(NextDay(d)) && Earlier(d, NextDay(d))
  {
  }

  lemma NextDayIsNextCount(d: YearMonthDay)
    requires InRange(d)
    requires MarchYear(d) >= 0 && 0 <= MarchMonth(d) <= 11
    requires MarchYear(NextDay(d)) >= 0 && 0 <= MarchMonth(NextDay(d)) <= 11
    ensures var e := NextDay(d);
            MarchCount(MarchYear(e), MarchMonth(e), e.day) == MarchCount(MarchYear(d), MarchMonth(d), d.day) + 1
  {
    if d.day == MonthLength(d.year, d.month) {
      if d.month == 2 {
        YearStart(MarchYear(d));
      } else if d.month < 12 {
        MonthStart(d.year, d.month);
      }
    }
  }

  /** The next calendar day has the next day number. */
  lemma NextDayIsNextNumber(d: YearMonthDay)
    requires InRange(d)
    ensures var e := NextDay(d);
            GetJulianDayNumber(e.year, e.month, e.day) == GetJulianDayNumber(d.year, d.month, d.day) + 1
  {
    NextDayInRange(d);
    JdnIsMarchCount(d);
    JdnIsMarchCount(NextDay(d));
    NextDayIsNextCount(d);
  }

  /** `getJulianDayNumber` is naive day counting from 1 March -4800. */
  lemma {:induction false} JdnCountsDays(n: nat)
    ensures var d := DateAfter(n); InRange(d) && GetJulianDayNumber(d.year, d.month, d.day) == n + FIRST_JDN
  {
    if n > 0 {
      JdnCountsDays(n - 1);
      NextDayInRange(DateAfter(n - 1));
      NextDayIsNextNumber(DateAfter(n - 1));
    }
  }

  // ------------------------------------------------------------- the inverse

  /** Splitting a March-based year into century and year of century. */
  lemma CenturySplit(b: nat, r: nat)
    requires r < 100
    ensures YearDays(100 * b + r) == 36524 * b + b / 4 + 365 * r + r / 4
  {
    var y := 100 * b + r;
    DivUnique(y, 4, 25 * b + r / 4, r % 4);
    DivUnique(y, 100, b, r);
    DivUnique(y, 400, b / 4, 100 * (b % 4) + r);
  }

  /** A month's days stay inside the 365 or 366 days of its March-based year. */
  lemma DayInYear(d: YearMonthDay)
    requires InRange(d)
    ensures 0 <= MarchMonth(d) <= 11
    ensures 0 <= MonthDays(MarchMonth(d)) + d.day - 1 <= 365
    ensures MonthDays(MarchMonth(d)) + d.day - 1 == 365 ==> IsLeap(MarchYear(d) - 4799)
    ensures CDiv(5 * (MonthDays(MarchMonth(d)) + d.day - 1) + 2, 153) == MarchMonth(d)
  {
  }

  lemma CenturyDigit(b: nat, c: nat)
    requires 4 * c + 3 - b % 4 < 146097
    ensures var a := 36524 * b + b / 4 + c; CDiv(4 * a + 3, 146097) == b && a - CDiv(b * 146097, 4) == c
  {
    var x := 4 * (36524 * b + b / 4 + c) + 3;
    assert 4 * (b / 4) == b - b % 4;
    DivUnique(x, 146097, b, 4 * c + 3 - b % 4);
    DivUnique(b * 146097, 4, 36524 * b + b / 4, b % 4);
  }

  lemma YearDigit(r: nat, e: nat)
    requires 4 * e + 3 - r % 4 < 1461
    ensures var c := 365 * r + r / 4 + e; CDiv(4 * c + 3, 1461) == r && c - CDiv(1461 * r, 4) == e
  {
    var x := 4 * (365 * r + r / 4 + e) + 3;
    assert 4 * (r / 4) == r - r % 4;
    DivUnique(x, 1461, r, 4 * e + 3 - r % 4);
    DivUnique(1461 * r, 4, 365 * r + r / 4, r % 4);
  }

  lemma LeapDigits(b: nat, r: nat)
    requires r < 100 && IsLeap(100 * b + r - 4799)
    ensures r % 4 == 3 && (r == 99 ==> b % 4 == 3)
  {
    LeapShift(100 * b + r + 1);
    DivUnique(100 * b + r + 1, 4, 25 * b + (r + 1) / 4, (r + 1) % 4);
    if r == 99 {
      DivUnique(100 * b + 100, 100, b + 1, 0);
      DivUnique(100 * b + 100, 400, (b + 1) / 4, 100 * ((b + 1) % 4));
    }
  }

  /** `getYearMonthDay` with its quotients already known. */
  lemma Assemble(jdn: int, a: nat, b: nat, c: nat, d: nat, e: nat, m: nat)
    requires a == jdn + 32044
    requires b == CDiv(4 * a + 3, 146097) && c == a - CDiv(b * 146097, 4)
    requires d == CDiv(4 * c + 3, 1461) && e == c - CDiv(1461 * d, 4)
    requires m == CDiv(5 * e + 2, 153)
    ensures GetYearMonthDay(jdn) ==
            YearMonthDay(b * 100 + d - 4800 + CDiv(m, 10), m + 3 - 12 * CDiv(m, 10), e - CDiv(153 * m + 2, 5) + 1)
  {
  }

  /** Reading back day `e` of the March-based year `100 * b + r`. */
  lemma FromMarchCount(b: nat, r: nat, m: nat, e: nat)
    requires r < 100 && m <= 11 && e <= 365 && CDiv(5 * e + 2, 153) == m
    requires e == 365 ==> IsLeap(100 * b + r - 4799)
    ensures GetYearMonthDay(YearDays(100 * b + r) + e + FIRST_JDN) ==
            YearMonthDay(b * 100 + r - 4800 + CDiv(m, 10), m + 3 - 12 * CDiv(m, 10), e - CDiv(153 * m + 2, 5) + 1)
  {
    var c := 365 * r + r / 4 + e;
    CenturySplit(b, r);
    if e == 365 {
      LeapDigits(b, r);
    }
    var a := 36524 * b + b / 4 + c;
    CenturyDigit(b, c);
    YearDigit(r, e);
    Assemble(a + FIRST_JDN, a, b, c, r, e, m);
  }

  lemma MonthDigits(m: nat)
    requires m <= 11
    ensures CDiv(m, 10) == (if m < 10 then 0 else 1) && CDiv(153 * m + 2, 5) == MonthDays(m)
  {
  }

  lemma FromMarchDate(d: YearMonthDay, n: int)
    requires InRange(d) && MarchYear(d) >= 0 && 0 <= MarchMonth(d) <= 11
    requires n == MarchCount(MarchYear(d), MarchMonth(d), d.day)
    ensures GetYearMonthDay(n + FIRST_JDN) == d
  {
    hide CDiv;
    var y, m := MarchYear(d), MarchMonth(d);
    var b, r := y / 100, y % 100;
    assert y == 100 * b + r;
    DayInYear(d);
    MonthDigits(m);
    FromMarchCount(b, r, m, MonthDays(m) + d.day - 1);
  }

  /** Every date in range comes back from its day number. */
  lemma DateRoundTrip(d: YearMonthDay)
    requires InRange(d)
    ensures GetYearMonthDay(GetJulianDayNumber(d.year, d.month, d.day)) == d
  {
    hide CDiv;
    JdnIsMarchCount(d);
    FromMarchDate(d, GetJulianDayNumber(d.year, d.month, d.day) - FIRST_JDN);
  }

  /** Every day number from -32044 on comes back from its date, which is the one naive counting reaches. */
  lemma DayNumberRoundTrip(jdn: int)
    requires jdn >= FIRST_JDN
    ensures var d := GetYearMonthDay(jdn);
            InRange(d) && d == DateAfter(jdn - FIRST_JDN) && GetJulianDayNumber(d.year, d.month, d.day) == jdn
  {
    JdnCountsDays(jdn - FIRST_JDN);
    DateRoundTrip(DateAfter(jdn - FIRST_JDN));
  }

  /** Later dates have larger day numbers, and only they do. */
  lemma {:induction false} StrictlyMonotone(a: YearMonthDay, b: YearMonthDay)
    requires InRange(a) && InRange(b)
    ensures Earlier(a, b) <==> GetJulianDayNumber(a.year, a.month, a.day) < GetJulianDayNumber(b.year, b.month, b.day)
  {
    var i := Position(a);
    var j := Position(b);
    if i < j {
      EarlierByPosition(i, j);
    } else if j < i {
      EarlierByPosition(j, i);
    }
  }

  lemma Position(d: YearMonthDay) returns (n: nat)
    requires InRange(d)
    ensures d == DateAfter(n) && GetJulianDayNumber(d.year, d.month, d.day) == n + FIRST_JDN
  {
    JdnIsMarchCount(d);
    n := GetJulianDayNumber(d.year, d.month, d.day) - FIRST_JDN;
    JdnCountsDays(n);
    SameNumber(d, DateAfter(n));
  }

  lemma SameNumber(a: YearMonthDay, b: YearMonthDay)
    requires InRange(a) && InRange(b)
    requires GetJulianDayNumber(a.year, a.month, a.day) == GetJulianDayNumber(b.year, b.month, b.day)
    ensures a == b
  {
    DateRoundTrip(a);
    DateRoundTrip(b);
  }

  lemma {:induction false} EarlierByPosition(i: nat, j: nat)
    requires i < j
    ensures Earlier(DateAfter(i), DateAfter(j))
  {
    JdnCountsDays(j - 1);
    NextDayInRange(DateAfter(j - 1));
    if i < j - 1 {
      EarlierByPosition(i, j - 1);
    }
  }

  // --------------------------------------------------------- 32-bit arithmetic

  /** Every value `getYearMonthDay` computes on its way, in program order, fits the type `int`. */
  ghost predicate NoOverflow(jdn: int) {
    var a := jdn + 32044;
    var b := CDiv(4 * a + 3, 146097);
    var c := a - CDiv(b * 146097, 4);
    var d := CDiv(4 * c + 3, 1461);
    var e := c - CDiv(1461 * d, 4);
    var m := CDiv(5 * e + 2, 153);
    && FitsInt32(a) && FitsInt32(4 * a) && FitsInt32(4 * a + 3) && FitsInt32(b)
    && FitsInt32(b * 146097) && FitsInt32(CDiv(b * 146097, 4)) && FitsInt32(c)
    && FitsInt32(4 * c) && FitsInt32(4 * c + 3) && FitsInt32(d)
    && FitsInt32(1461 * d) && FitsInt32(CDiv(1461 * d, 4)) && FitsInt32(e)
    && FitsInt32(5 * e) && FitsInt32(5 * e + 2) && FitsInt32(m)
    && FitsInt32(153 * m) && FitsInt32(153 * m + 2) && FitsInt32(e - CDiv(153 * m + 2, 5) + 1)
    && FitsInt32(m + 3) && FitsInt32(12 * CDiv(m, 10)) && FitsInt32(m + 3 - 12 * CDiv(m, 10))
    && FitsInt32(b * 100) && FitsInt32(b * 100 + d) && FitsInt32(b * 100 + d - 4800)
    && FitsInt32(b * 100 + d - 4800 + CDiv(m, 10))
  }

  /** For day numbers in range, no intermediate leaves 32 bits exactly when `4 * (jdn + 32044) + 3` does not. */
  lemma NoOverflowExactly(jdn: int)
    requires jdn >= FIRST_JDN
    ensures NoOverflow(jdn) <==> 4 * (jdn + 32044) + 3 <= INT_MAX
  {
    hide CDiv;
    var a := jdn + 32044;
    if 4 * a + 3 <= INT_MAX {
      var b := CDiv(4 * a + 3, 146097);
      var c := a - CDiv(b * 146097, 4);
      var d := CDiv(4 * c + 3, 1461);
      Small(a);
      SmallDigits(c);
      SmallMonth(c - CDiv(1461 * d, 4));
    }
  }

  lemma SmallMonth(e: nat)
    requires e <= 366
    ensures var m := CDiv(5 * e + 2, 153); 0 <= m <= 12 && 0 <= CDiv(m, 10) <= 1 && 0 <= CDiv(153 * m + 2, 5) <= 367
  {
  }

  lemma Small(a: nat)
    ensures var b := CDiv(4 * a + 3, 146097); 0 <= b * 146097 <= 4 * a + 3 && 0 <= a - CDiv(b * 146097, 4) <= 36525
  {
  }

  lemma SmallDigits(c: nat)
    requires c <= 36525
    ensures var d := CDiv(4 * c + 3, 1461); 0 <= d <= 100 && 0 <= c - CDiv(1461 * d, 4) <= 366
  {
  }

  // ------------------------------------------------------ days within the year

  lemma DayOfYearMarch(d: YearMonthDay)
    requires InRange(d) && d.year > -4800
    ensures MarchYear(d) >= 0 && 0 <= MarchMonth(d) <= 11 && d.year + 4799 >= 0
    ensures MarchCount(MarchYear(d), MarchMonth(d), d.day) - MarchCount(d.year + 4799, 10, 1)
            == DaysBeforeMonth(d.year, d.month) + d.day - 1
  {
    BeforeMonth(d.year, d.month);
    if d.month >= 3 {
      YearStart(d.year + 4799);
    }
  }

  lemma FirstYearDays(d: YearMonthDay)
    requires InRange(d) && d.year == -4800
    ensures MarchYear(d) == 0 && 0 <= MarchMonth(d) <= 11
    ensures MarchCount(0, MarchMonth(d), d.day) + 60 == DaysBeforeMonth(d.year, d.month) + d.day - 1
  {
    BeforeMonth(d.year, d.month);
  }

  lemma FirstOfYear(year: int)
    requires year >= -4800
    ensures year == -4800 ==> GetJulianDayNumber(year, 1, 1) == FIRST_JDN - 59
    ensures year > -4800 ==> GetJulianDayNumber(year, 1, 1) == MarchCount(year + 4799, 10, 1) + FIRST_JDN
  {
    if year > -4800 {
      JdnIsMarchCount(YearMonthDay(year, 1, 1));
    }
  }

  /** The subtraction of `toUtcTime` gives the distance from 1 January, except in the year -4800. */
  lemma DayOfYear(d: YearMonthDay)
    requires InRange(d)
    ensures (GetJulianDayNumber(d.year, d.month, d.day) - GetJulianDayNumber(d.year, 1, 1)
             == DaysBeforeMonth(d.year, d.month) + d.day - 1) <==> d.year != -4800
  {
    hide GetJulianDayNumber;
    JdnIsMarchCount(d);
    FirstOfYear(d.year);
    if d.year > -4800 {
      DayOfYearMarch(d);
    } else {
      FirstYearDays(d);
    }
  }

  lemma BeforeMonth(year: int, month: int)
    requires 1 <= month <= 12
    ensures DaysBeforeMonth(year, month) ==
            if month < 3 then 31 * (month - 1) else 31 + MonthLength(year, 2) + MonthDays(month - 3)
  {
    if month > 1 {
      BeforeMonth(year, month - 1);
    }
  }

  /** `weekDay` is in [0, 6] exactly from day -1 on, apart from the earlier days it maps to 0. */
  lemma WeekDayRange(jdn: int)
    ensures 0 <= WeekDay(jdn) <= 6 <==> jdn >= -1 || (jdn + 1) % 7 == 0
    ensures jdn >= -1 ==> WeekDay(jdn + 1) == (WeekDay(jdn) + 1) % 7
  {
    if jdn < -1 {
      CModOfNegative(jdn + 1, 7);
      if (jdn + 1) % 7 == 0 {
        DivUnique(-(jdn + 1), 7, -((jdn + 1) / 7), 0);
      } else {
        DivUnique(-(jdn + 1), 7, -((jdn + 1) / 7) - 1, 7 - (jdn + 1) % 7);
      }
    }
  }

  /**
   * Weekdays count on from Thursday, 1 January 1970, forwards and backwards; from day -1 on they are 0 to 6, before it
   * the same days of the week as numbers from -6 to 0. This leaves one value for every day.
   */
  lemma WeekDayIsCounted(jdn: int)
    ensures (WeekDay(jdn) - 4 - (jdn - GetJulianDayNumber(1970, 1, 1))) % 7 == 0
    ensures if jdn >= -1 then 0 <= WeekDay(jdn) <= 6 else -6 <= WeekDay(jdn) <= 0
  {
    assert GetJulianDayNumber(1970, 1, 1) == 2440588 by { EpochNumber(); }
    hide GetJulianDayNumber;
    if jdn < -1 {
      CModOfNegative(jdn + 1, 7);
      Euclid(-(jdn + 1), 7);
      DivUnique(WeekDay(jdn) - 4 - (jdn - 2440588), 7, 348655 + (-(jdn + 1)) / 7, 0);
    } else {
      Euclid(jdn + 1, 7);
      DivUnique(WeekDay(jdn) - 4 - (jdn - 2440588), 7, 348655 - (jdn + 1) / 7, 0);
    }
  }

  lemma EpochNumber()
    ensures GetJulianDayNumber(1970, 1, 1) == 2440588
  {
    JdnIsMarchCount(YearMonthDay(1970, 1, 1));
  }
}
