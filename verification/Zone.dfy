/** Transition tables and their binary search: `findLocaltime` of base/timezone.cpp. */
module Zone {
  datatype Transition = Transition(gmttime: int, localtime: int, localtimeIdx: int)

  datatype Localtime = Localtime(gmtOffset: int, isDst: bool, arrbIdx: int)

  /** `TimeZone::Data`. */
  datatype Data = Data(transitions: seq<Transition>, localtimes: seq<Localtime>, abbreviation: string)

  /** The key that `Comp` compares: UTC time or local time. */
  datatype Comp = ByGmt | ByLocal

  function Key(tr: Transition, comp: Comp): int {
    if comp.ByGmt? then tr.gmttime else tr.localtime
  }

  ghost predicate Sorted(ts: seq<Transition>, comp: Comp) {
    forall i, j :: 0 <= i < j < |ts| ==> Key(ts[i], comp) <= Key(ts[j], comp)
  }

  ghost predicate StrictlySorted(ts: seq<Transition>, comp: Comp) {
    forall i, j :: 0 <= i < j < |ts| ==> Key(ts[i], comp) < Key(ts[j], comp)
  }

  /** Every index the code follows without a check stays inside its table. */
  predicate IndicesInRange(data: Data) {
    && |data.localtimes| > 0
    && (forall tr :: tr in data.transitions ==> 0 <= tr.localtimeIdx < |data.localtimes|)
    && (forall l :: l in data.localtimes ==> 0 <= l.arrbIdx <= |data.abbreviation|)
  }

  // ------------------------------------------------------------ specification

  /**
   * The transition in force at `q`, by looking back from the end: the last one whose key is at most `q`
   * (of several with key `q`, the first), or -1 before them all.
   */
  function Active(ts: seq<Transition>, q: int, comp: Comp): (i: int)
    ensures -1 <= i < |ts|
  {
    var last := |ts| - 1;
    if last < 0 then -1
    else if Key(ts[last], comp) < q then last
    else if Key(ts[last], comp) == q && (last == 0 || Key(ts[last - 1], comp) != q) then last
    else Active(ts[..last], q, comp)
  }

  function TypeOf(data: Data, i: int): Localtime
    requires IndicesInRange(data) && -1 <= i < |data.transitions|
  {
    if i < 0 then data.localtimes[0] else data.localtimes[data.transitions[i].localtimeIdx]
  }

  function LocaltimeAt(data: Data, q: int, comp: Comp): Localtime
    requires IndicesInRange(data)
  {
    TypeOf(data, Active(data.transitions, q, comp))
  }

  // ------------------------------------------------------------------ the code

  /** `std::lower_bound`: the first entry whose key is not below `q`. */
  method LowerBound(ts: seq<Transition>, q: int, comp: Comp) returns (k: nat)
    requires Sorted(ts, comp)
    ensures k <= |ts|
    ensures forall i :: 0 <= i < k ==> Key(ts[i], comp) < q
    ensures forall i :: k <= i < |ts| ==> q <= Key(ts[i], comp)
  {
    k := 0;
    var len := |ts|;
    while len > 0
      invariant 0 <= k && 0 <= len && k + len <= |ts|
      invariant forall i :: 0 <= i < k ==> Key(ts[i], comp) < q
      invariant forall i :: k + len <= i < |ts| ==> q <= Key(ts[i], comp)
    {
      var half := len / 2;
      var middle := k + half;
      if Key(ts[middle], comp) < q {
        k := middle + 1;
        len := len - half - 1;
      } else {
        len := half;
      }
    }
  }

  /** The binary search finds the transition in force, in both comparison modes; its own assert holds. */
  method FindLocaltime(data: Data, sentry: Transition, comp: Comp) returns (local: Localtime)
    requires IndicesInRange(data) && Sorted(data.transitions, comp)
    ensures local == LocaltimeAt(data, Key(sentry, comp), comp)
  {
    var ts, q := data.transitions, Key(sentry, comp);
    if |ts| == 0 || q < Key(ts[0], comp) {
      local := data.localtimes[0];
      ActiveIs(ts, q, comp, -1);
    } else {
      var transI := LowerBound(ts, q, comp);
      if transI != |ts| {
        if q != Key(ts[transI], comp) {
          assert transI != 0;
          transI := transI - 1;
        }
        local := data.localtimes[ts[transI].localtimeIdx];
        ActiveIs(ts, q, comp, transI);
      } else {
        local := data.localtimes[ts[|ts| - 1].localtimeIdx];
        ActiveIs(ts, q, comp, |ts| - 1);
      }
    }
  }

  // ---------------------------------------------------------------- properties

  ghost predicate InForce(ts: seq<Transition>, q: int, comp: Comp, i: int) {
    && -1 <= i < |ts|
    && (i >= 0 ==> Key(ts[i], comp) <= q)
    && (i >= 0 && Key(ts[i], comp) == q ==> forall j :: 0 <= j < i ==> Key(ts[j], comp) < q)
    && (i >= 0 && Key(ts[i], comp) < q ==> forall j :: i < j < |ts| ==> q < Key(ts[j], comp))
    && (i < 0 ==> forall j :: 0 <= j < |ts| ==> q < Key(ts[j], comp))
  }

  /** On a sorted table `Active` is pinned by where its key and its neighbours' keys lie. */
  lemma {:induction false} ActiveIs(ts: seq<Transition>, q: int, comp: Comp, i: int)
    requires Sorted(ts, comp) && InForce(ts, q, comp, i)
    ensures Active(ts, q, comp) == i
  {
    var last := |ts| - 1;
    if last >= 0 && i != last {
      assert Key(ts[last], comp) >= q;
      ActiveIs(ts[..last], q, comp, i);
    }
  }

  /** On a strictly sorted table it is the last transition at or before `q`. */
  lemma {:induction false} ActiveIsLast(ts: seq<Transition>, q: int, comp: Comp)
    requires StrictlySorted(ts, comp)
    ensures var i := Active(ts, q, comp);
            forall j :: 0 <= j < |ts| ==> (Key(ts[j], comp) <= q <==> j <= i)
  {
    var last := |ts| - 1;
    if last >= 0 && Key(ts[last], comp) > q {
      ActiveIsLast(ts[..last], q, comp);
    }
  }
}
