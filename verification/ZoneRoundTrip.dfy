/** Local time and back: `toLocalTime` and `fromLocalTime` of base/timezone.cpp. */
module ZoneRoundTrip {
  import opened CInt
  import opened Calendar
  import opened UtcTime
  import opened Zone

  // ------------------------------------------------------------------ the code

  /** `::gmtime_r` is read as flooring UTC conversion. */
  function LocalTimeOf(data: Data, seconds: int): Tm
    requires IndicesInRange(data)
  {
    var local := LocaltimeAt(data, seconds, ByGmt);
    UtcFields(seconds + local.gmtOffset, true).(
      isDst := if local.isDst then 1 else 0,
      gmtOff := local.gmtOffset,
      zone := data.abbreviation[local.arrbIdx..])
  }

  /** `::timegm` is read as `fromUtcTime`. */
  function InstantOf(data: Data, localTm: Tm): int
    requires IndicesInRange(data)
  {
    var seconds := FromUtcTime(localTm);
    var local := LocaltimeAt(data, seconds, ByLocal);
    var tryTm := LocalTimeOf(data, seconds - local.gmtOffset);
    var shifted :=
      if localTm.isDst != 0 && tryTm.isDst == 0 && tryTm.hour == localTm.hour && tryTm.min == localTm.min
      then seconds - 3600 else seconds;
    shifted - local.gmtOffset
  }

  // ------------------------------------------------------- shape of the tables

  ghost function Offset(data: Data, i: int): int
    requires IndicesInRange(data) && -1 <= i < |data.transitions|
  {
    TypeOf(data, i).gmtOffset
  }

  ghost predicate IsDst(data: Data, i: int)
    requires IndicesInRange(data) && -1 <= i < |data.transitions|
  {
    TypeOf(data, i).isDst
  }

  /** What the file reader builds: local times are UTC times plus the new offset. */
  ghost predicate Consistent(data: Data) {
    && IndicesInRange(data)
    && (forall i :: 0 <= i < |data.transitions| ==>
          data.transitions[i].localtime == data.transitions[i].gmttime + Offset(data, i))
  }

  ghost predicate MoreThanAnHourApart(data: Data) {
    forall i, j :: 0 <= i < j < |data.transitions| ==> data.transitions[i].gmttime + 3600 < data.transitions[j].gmttime
  }

  /** Every time the offset decreases, daylight saving ends and the clock goes back by exactly an hour. */
  ghost predicate DecreasesEndDst(data: Data)
    requires IndicesInRange(data)
  {
    forall i :: 0 <= i < |data.transitions| && Offset(data, i) < Offset(data, i - 1) ==>
      IsDst(data, i - 1) && !IsDst(data, i) && Offset(data, i) == Offset(data, i - 1) - 3600
  }

  ghost predicate LocalTimesInRange(data: Data) {
    forall i :: 0 <= i < |data.transitions| ==> data.transitions[i].localtime >= FIRST_SECOND
  }

  ghost predicate RoundTrips(data: Data, t: int)
    requires IndicesInRange(data)
  {
    InstantOf(data, LocalTimeOf(data, t)) == t
  }

  // -------------------------------------------------------------------- proofs

  /** The offset in force at `t`, and the local time it gives. */
  ghost function LocalSeconds(data: Data, t: int): int
    requires IndicesInRange(data)
  {
    t + LocaltimeAt(data, t, ByGmt).gmtOffset
  }

  /** The clock shows the same hour and minute. */
  ghost predicate SameMinute(a: int, b: int) {
    a % SECONDS_PER_DAY / 60 == b % SECONDS_PER_DAY / 60
  }

  lemma HourAndMinute(a: int, b: int)
    ensures var x, y := UtcFields(a, true), UtcFields(b, true);
            x.hour == y.hour && x.min == y.min <==> SameMinute(a, b)
  {
    hide GetYearMonthDay, GetJulianDayNumber, WeekDay;
    HourOfMinute(a % SECONDS_PER_DAY);
    HourOfMinute(b % SECONDS_PER_DAY);
  }

  lemma HourOfMinute(s: nat)
    ensures s / 3600 * 60 + s / 60 % 60 == s / 60
  {
    Euclid(s, 60);
    Euclid(s / 60, 60);
    DivUnique(s, 3600, s / 60 / 60, s / 60 % 60 * 60 + s % 60);
  }

  /** `fromLocalTime(toLocalTime(t))` with the calendar cancelled out, whatever the three searches find. */
  lemma Cancelled(data: Data, t: int, i: int, j: int, k: int)
    requires IndicesInRange(data) && LocalSeconds(data, t) >= FIRST_SECOND
    requires i == Active(data.transitions, t, ByGmt)
    requires j == Active(data.transitions, t + Offset(data, i), ByLocal)
    requires k == Active(data.transitions, t + Offset(data, i) - Offset(data, j), ByGmt)
    ensures var moved := t + Offset(data, i) - Offset(data, j);
            InstantOf(data, LocalTimeOf(data, t)) == moved -
            (if IsDst(data, i) && !IsDst(data, k) && SameMinute(moved + Offset(data, k), t + Offset(data, i))
             then 3600 else 0)
  {
    hide UtcFields, FromUtcTime, SameMinute;
    SecondsRoundTrip(t + Offset(data, i), true);
    ClockOnly(LocalTimeOf(data, t), UtcFields(t + Offset(data, i), true));
    HourAndMinute(t + Offset(data, i) - Offset(data, j) + Offset(data, k), t + Offset(data, i));
  }

  lemma ClockOnly(a: Tm, b: Tm)
    requires SameClock(a, b)
    ensures FromUtcTime(a) == FromUtcTime(b)
  {
    hide GetJulianDayNumber;
  }

  lemma GmtSorted(data: Data)
    requires MoreThanAnHourApart(data)
    ensures StrictlySorted(data.transitions, ByGmt)
  {
  }

  /** With such tables the local keys are sorted too, so that the search is meaningful. */
  lemma LocalSorted(data: Data)
    requires Consistent(data) && MoreThanAnHourApart(data) && DecreasesEndDst(data)
    ensures StrictlySorted(data.transitions, ByLocal)
  {
    forall i, j | 0 <= i < j < |data.transitions|
      ensures data.transitions[i].localtime < data.transitions[j].localtime
    {
      LocalIncreases(data, i, j);
    }
  }

  lemma {:induction false} LocalIncreases(data: Data, i: nat, j: nat)
    requires Consistent(data) && MoreThanAnHourApart(data) && DecreasesEndDst(data)
    requires i < j < |data.transitions|
    ensures data.transitions[i].localtime < data.transitions[j].localtime
  {
    assert data.transitions[j - 1].gmttime + 3600 < data.transitions[j].gmttime;
    if i < j - 1 {
      LocalIncreases(data, i, j - 1);
    }
  }

  lemma ActiveAt(ts: seq<Transition>, q: int, comp: Comp, i: int)
    requires StrictlySorted(ts, comp) && -1 <= i < |ts|
    requires i >= 0 ==> Key(ts[i], comp) <= q
    requires i + 1 < |ts| ==> q < Key(ts[i + 1], comp)
    ensures Active(ts, q, comp) == i
  {
    ActiveIs(ts, q, comp, i);
  }

  /** Inside a repeated hour the local search finds the next transition, and so does the trial conversion. */
  lemma RepeatedHour(data: Data, t: int, i: int)
    requires Consistent(data) && MoreThanAnHourApart(data) && DecreasesEndDst(data)
    requires StrictlySorted(data.transitions, ByLocal) && StrictlySorted(data.transitions, ByGmt)
    requires -1 <= i && i + 1 < |data.transitions|
    requires t < data.transitions[i + 1].gmttime
    requires data.transitions[i + 1].localtime <= t + Offset(data, i)
    ensures Offset(data, i + 1) == Offset(data, i) - 3600 && IsDst(data, i) && !IsDst(data, i + 1)
    ensures Active(data.transitions, t + Offset(data, i), ByLocal) == i + 1
    ensures Active(data.transitions, t + 3600, ByGmt) == i + 1
  {
    hide Active, IndicesInRange, TypeOf;
    var ts := data.transitions;
    assert Offset(data, i + 1) == Offset(data, i) - 3600;
    if i + 2 < |ts| {
      assert ts[i + 1].gmttime + 3600 < ts[i + 2].gmttime;
      assert Offset(data, i + 2) >= Offset(data, i + 1);
    }
    ActiveAt(ts, t + Offset(data, i), ByLocal, i + 1);
    ActiveAt(ts, t + 3600, ByGmt, i + 1);
  }

  /** The heart of the round trip: which transition each of the three searches finds. */
  lemma Searches(data: Data, t: int) returns (i: int, j: int, k: int)
    requires Consistent(data) && MoreThanAnHourApart(data) && DecreasesEndDst(data)
    ensures i == Active(data.transitions, t, ByGmt)
    ensures j == Active(data.transitions, t + Offset(data, i), ByLocal)
    ensures k == Active(data.transitions, t + Offset(data, i) - Offset(data, j), ByGmt)
    ensures k == j
    ensures j == i || (j == i + 1 && Offset(data, j) == Offset(data, i) - 3600 && IsDst(data, i) && !IsDst(data, j))
  {
    hide Active;
    var ts := data.transitions;
    GmtSorted(data);
    LocalSorted(data);
    i := Active(ts, t, ByGmt);
    ActiveIsLast(ts, t, ByGmt);
    if i + 1 < |ts| && ts[i + 1].localtime <= t + Offset(data, i) {
      RepeatedHour(data, t, i);
      j := i + 1;
    } else {
      j := i;
      ActiveAt(ts, t + Offset(data, i), ByLocal, i);
    }
    k := j;
  }

  /** Every instant survives the trip to local time and back, both passes through a repeated hour included. */
  lemma DstRoundTrip(data: Data, t: int)
    requires Consistent(data) && MoreThanAnHourApart(data) && DecreasesEndDst(data)
    requires LocalSeconds(data, t) >= FIRST_SECOND
    ensures RoundTrips(data, t)
  {
    hide LocalTimeOf, InstantOf;
    var i, j, k := Searches(data, t);
    Cancelled(data, t, i, j, k);
  }

  /** A decrease of any other kind loses the instant whose local time is the transition's. */
  lemma OtherDecreaseLoses(data: Data, i: nat)
    requires Consistent(data) && LocalTimesInRange(data)
    requires StrictlySorted(data.transitions, ByGmt) && StrictlySorted(data.transitions, ByLocal)
    requires i < |data.transitions| && Offset(data, i) < Offset(data, i - 1)
    requires !(IsDst(data, i - 1) && !IsDst(data, i) && Offset(data, i) == Offset(data, i - 1) - 3600)
    ensures var t := data.transitions[i].localtime - Offset(data, i - 1);
            LocalSeconds(data, t) >= FIRST_SECOND && !RoundTrips(data, t)
  {
    hide LocalTimeOf, InstantOf, Active, IndicesInRange, TypeOf, SameMinute;
    var ts := data.transitions;
    var t := ts[i].localtime - Offset(data, i - 1);
    ActiveAt(ts, t, ByGmt, i - 1);
    ActiveAt(ts, ts[i].localtime, ByLocal, i);
    ActiveAt(ts, ts[i].gmttime, ByGmt, i);
    Cancelled(data, t, i - 1, i, i);
  }

  /**
   * Exactly which tables lose no instant: those whose only decreases end daylight saving by one hour.
   */
  lemma RoundTripsExactly(data: Data)
    requires Consistent(data) && MoreThanAnHourApart(data) && LocalTimesInRange(data)
    requires StrictlySorted(data.transitions, ByLocal)
    ensures (forall t :: LocalSeconds(data, t) >= FIRST_SECOND ==> RoundTrips(data, t)) <==> DecreasesEndDst(data)
  {
    hide RoundTrips, Active, LocalSeconds, IndicesInRange, TypeOf;
    hide MoreThanAnHourApart, LocalTimesInRange, StrictlySorted;
    GmtSorted(data);
    if DecreasesEndDst(data) {
      forall t | LocalSeconds(data, t) >= FIRST_SECOND ensures RoundTrips(data, t) {
        DstRoundTrip(data, t);
      }
    } else {
      var i :| 0 <= i < |data.transitions| && Offset(data, i) < Offset(data, i - 1)
               && !(IsDst(data, i - 1) && !IsDst(data, i) && Offset(data, i) == Offset(data, i - 1) - 3600);
      OtherDecreaseLoses(data, i);
    }
  }

  /**
   * Exactly which instants a table keeps, if its UTC and its local times are sorted: those whose local time is not yet
   * that of a later transition, and those that it turns into an hour back, out of daylight saving, by the clock.
   */
  lemma RoundTripsHere(data: Data, t: int) returns (i: int, j: int, k: int)
    requires Consistent(data) && LocalSeconds(data, t) >= FIRST_SECOND
    requires StrictlySorted(data.transitions, ByGmt) && StrictlySorted(data.transitions, ByLocal)
    ensures i == Active(data.transitions, t, ByGmt)
    ensures j == Active(data.transitions, t + Offset(data, i), ByLocal)
    ensures k == Active(data.transitions, t + Offset(data, i) - Offset(data, j), ByGmt)
    ensures i <= j <= k
    ensures RoundTrips(data, t) <==>
            i == j || (Offset(data, j) == Offset(data, i) - 3600 && IsDst(data, i) && !IsDst(data, k)
                       && SameMinute(t + 3600 + Offset(data, k), t + Offset(data, i)))
  {
    hide LocalTimeOf, InstantOf, Active, SameMinute, IndicesInRange, TypeOf;
    var ts := data.transitions;
    i := Active(ts, t, ByGmt);
    j := Active(ts, t + Offset(data, i), ByLocal);
    k := Active(ts, t + Offset(data, i) - Offset(data, j), ByGmt);
    ActiveIsLast(ts, t, ByGmt);
    ActiveIsLast(ts, t + Offset(data, i), ByLocal);
    ActiveIsLast(ts, t + Offset(data, i) - Offset(data, j), ByGmt);
    Cancelled(data, t, i, j, k);
    assert i >= 0 ==> ts[i].localtime <= t + Offset(data, i);
    assert j >= 0 ==> ts[j].gmttime <= t + Offset(data, i) - Offset(data, j);
  }

  /** Standard time an hour ahead of UTC until 1970, and on UTC from then on. */
  const MOVED_BACK := Data([Transition(0, 0, 1)], [Localtime(3600, false, 0), Localtime(0, false, 0)], "")

  /** The last hour before the move is lost: its first second comes back as the instant of the move. */
  lemma MoveBackLoses()
    ensures IndicesInRange(MOVED_BACK) && InstantOf(MOVED_BACK, LocalTimeOf(MOVED_BACK, -3600)) == 0
    ensures !RoundTrips(MOVED_BACK, -3600)
  {
    hide LocalTimeOf, InstantOf;
    var ts := MOVED_BACK.transitions;
    ActiveAt(ts, -3600, ByGmt, -1);
    ActiveAt(ts, 0, ByLocal, 0);
    ActiveAt(ts, 0, ByGmt, 0);
    Cancelled(MOVED_BACK, -3600, -1, 0, 0);
  }

  /** A local time carries its offset: taken off, the UTC time is back, whatever the table. */
  lemma OffsetIsCarried(data: Data, t: int)
    requires IndicesInRange(data) && LocalSeconds(data, t) >= FIRST_SECOND
    ensures var tm := LocalTimeOf(data, t);
            && FromUtcTime(tm) - tm.gmtOff == t
            && ValidFields(tm) && tm.isDst == if LocaltimeAt(data, t, ByGmt).isDst then 1 else 0
  {
    hide UtcFields, FromUtcTime;
    var tm := LocalTimeOf(data, t);
    SecondsRoundTrip(t + tm.gmtOff, true);
    ClockOnly(tm, UtcFields(t + tm.gmtOff, true));
  }

  /** A local time that the clock skips at transition `i` is read with the offset before it, so it falls behind it. */
  lemma SkippedTime(data: Data, i: nat, tm: Tm)
    requires Consistent(data) && StrictlySorted(data.transitions, ByLocal)
    requires i < |data.transitions| && tm.isDst == 0
    requires i > 0 ==> data.transitions[i - 1].localtime <= FromUtcTime(tm)
    requires data.transitions[i].gmttime + Offset(data, i - 1) <= FromUtcTime(tm) < data.transitions[i].localtime
    ensures InstantOf(data, tm) == FromUtcTime(tm) - Offset(data, i - 1) >= data.transitions[i].gmttime
  {
    hide FromUtcTime, LocalTimeOf, Active, IndicesInRange, TypeOf;
    ActiveAt(data.transitions, FromUtcTime(tm), ByLocal, i - 1);
  }

  // ---------------------------------------------- the methods, step by step

  /** `class TimeZone`, with its table in place of the pointer to it. */
  class TimeZone {
    const data: Data

    constructor (data: Data)
      ensures this.data == data
    {
      this.data := data;
    }

    method ToLocalTime(seconds: int) returns (localTime: Tm)
      requires IndicesInRange(data) && Sorted(data.transitions, ByGmt)
      ensures InUtcRange(LocalSeconds(data, seconds)) ==> localTime == LocalTimeOf(data, seconds)
    {
      hide UtcFields;
      var local := FindLocaltime(data, Transition(seconds, 0, 0), ByGmt);
      localTime := UtcTime.ToUtcTime(seconds + local.gmtOffset, true);
      localTime := localTime.(isDst := if local.isDst then 1 else 0);
      localTime := localTime.(gmtOff := local.gmtOffset);
      localTime := localTime.(zone := data.abbreviation[local.arrbIdx..]);
    }

    /** The trial conversion runs only for local times marked as daylight saving. */
    method FromLocalTime(localTm: Tm) returns (seconds: int)
      requires IndicesInRange(data) && Sorted(data.transitions, ByGmt) && Sorted(data.transitions, ByLocal)
      ensures var l := FromUtcTime(localTm);
              localTm.isDst == 0 || InUtcRange(LocalSeconds(data, l - LocaltimeAt(data, l, ByLocal).gmtOffset)) ==>
              seconds == InstantOf(data, localTm)
    {
      hide UtcFields, FromUtcTime;
      seconds := FromUtcTime(localTm);
      var local := FindLocaltime(data, Transition(0, seconds, 0), ByLocal);
      if localTm.isDst != 0 {
        var tryTm := ToLocalTime(seconds - local.gmtOffset);
        if tryTm.isDst == 0 && tryTm.hour == localTm.hour && tryTm.min == localTm.min {
          seconds := seconds - 3600;
        }
      }
      seconds := seconds - local.gmtOffset;
    }
  }
}
