/**
 * Requests and their timers in Examples/Ver0.1: who points to whom, who deletes whom, and the queue of timers.
 * `R` and `T` are the identities of requests and timers; touching or deleting one that is gone counts as a fault.
 */
module TimerModel {
  const TIMER_TIME_OUT := 500

  datatype Link<X> = Null | To(id: X)

  datatype Timer<R> = Timer(deleted: bool, expires: nat, request: Link<R>)

  /**
   * `requests` maps each live request to its timer. `armed` are the requests that epoll watches, `pending` those of
   * the batch of events being handled, `handed` those given to the thread pool. The freed objects are history.
   */
  datatype State<R, T> = State(requests: map<R, Link<T>>, timers: map<T, Timer<R>>, queue: multiset<T>,
                               armed: set<R>, pending: seq<R>, handed: set<R>,
                               freedRequests: set<R>, freedTimers: set<T>, faults: nat)

  ghost function Init<R, T>(): State<R, T> {
    State(map[], map[], multiset{}, {}, [], {}, {}, {}, 0)
  }

  /** `Poll` reports watched requests, once each; `Sweep` is one round of the loop that looks at the queue. */
  datatype Event<R, T> =
    | Accept(request: R, timer: T, now: nat)
    | Poll(ready: seq<R>)
    | HandleError
    | HandleInput
    | Sweep(top: T, now: nat)

  ghost function Fault<R, T>(s: State<R, T>): State<R, T> {
    s.(faults := s.faults + 1)
  }

  /** `mytimer::clearReq`. */
  ghost function ClearReq<R, T>(s: State<R, T>, t: T): State<R, T> {
    if t !in s.timers then Fault(s)
    else s.(timers := s.timers[t := Timer(true, s.timers[t].expires, Null)])
  }

  /** `requestData::~requestData`. */
  ghost function DestroyRequest<R, T>(s: State<R, T>, r: R): State<R, T> {
    if r !in s.requests then Fault(s)
    else
      var u := if s.requests[r].To? then ClearReq(s, s.requests[r].id) else s;
      u.(requests := u.requests - {r}, armed := u.armed - {r}, freedRequests := u.freedRequests + {r})
  }

  lemma DestroyRequestIs<R, T>(s: State<R, T>, r: R)
    requires r in s.requests && (s.requests[r].To? ==> s.requests[r].id in s.timers)
    ensures DestroyRequest(s, r) ==
            s.(requests := s.requests - {r}, armed := s.armed - {r}, freedRequests := s.freedRequests + {r},
               timers := match s.requests[r]
                         case Null => s.timers
                         case To(t) => s.timers[t := Timer(true, s.timers[t].expires, Null)])
  {
  }

  /** `mytimer::~mytimer`. */
  ghost function DestroyTimer<R, T>(s: State<R, T>, t: T): State<R, T> {
    if t !in s.timers then Fault(s)
    else
      var u := if s.timers[t].request.To? then DestroyRequest(s, s.timers[t].request.id) else s;
      u.(timers := u.timers - {t}, freedTimers := u.freedTimers + {t})
  }

  /** `requestData::seperateTimer`. */
  ghost function SeparateTimer<R, T>(s: State<R, T>, r: R): State<R, T> {
    if r !in s.requests then Fault(s)
    else if s.requests[r].Null? then s
    else
      var u := ClearReq(s, s.requests[r].id);
      u.(requests := u.requests[r := Null])
  }

  ghost predicate IsNew<R, T>(s: State<R, T>, r: R, t: T) {
    r !in s.requests && r !in s.freedRequests && t !in s.timers && t !in s.freedTimers
  }

  /** A new connection: a request and its timer, watched and queued. */
  ghost function AcceptOne<R, T>(s: State<R, T>, r: R, t: T, now: nat): State<R, T> {
    s.(requests := s.requests[r := To(t)], timers := s.timers[t := Timer(false, now + TIMER_TIME_OUT, To(r))],
       queue := s.queue + multiset{t}, armed := s.armed + {r})
  }

  ghost predicate Distinct<R>(xs: seq<R>) {
    forall i, j :: 0 <= i < j < |xs| ==> xs[i] != xs[j]
  }

  ghost predicate IsTop<R, T>(s: State<R, T>, t: T) {
    t in s.queue && t in s.timers
    && forall u :: u in s.queue ==> u in s.timers && s.timers[t].expires <= s.timers[u].expires
  }

  ghost function Step<R, T>(s: State<R, T>, e: Event<R, T>): State<R, T> {
    match e
    case Accept(r, t, now) => if IsNew(s, r, t) then AcceptOne(s, r, t, now) else s
    case Poll(ready) =>
      if s.pending == [] && Distinct(ready) && (forall r :: r in ready ==> r in s.armed) then
        s.(pending := ready, armed := s.armed - (set r | r in ready))
      else s
    case HandleError =>
      if s.pending == [] then s else DestroyRequest(s.(pending := s.pending[1..]), s.pending[0])
    case HandleInput =>
      if s.pending == [] then s
      else
        var r := s.pending[0];
        SeparateTimer(s, r).(pending := s.pending[1..], handed := s.handed + {r})
    case Sweep(top, now) =>
      if s.pending == [] && IsTop(s, top) && (s.timers[top].deleted || now >= s.timers[top].expires) then
        DestroyTimer(Marked(s, top).(queue := s.queue - multiset{top}), top)
      else s
  }

  lemma SweepDestroys<R, T>(s: State<R, T>, top: T, now: nat)
    requires s.pending == [] && IsTop(s, top) && (s.timers[top].deleted || now >= s.timers[top].expires)
    ensures Step(s, Sweep(top, now)) == DestroyTimer(Marked(s, top).(queue := s.queue - multiset{top}), top)
  {
  }

  /** `mytimer::setDeleted`. */
  ghost function Marked<R, T>(s: State<R, T>, t: T): State<R, T>
    requires t in s.timers
  {
    s.(timers := s.timers[t := s.timers[t].(deleted := true)])
  }

  ghost function Run<R, T>(s: State<R, T>, es: seq<Event<R, T>>): State<R, T> {
    if es == [] then s else Step(Run(s, es[..|es| - 1]), es[|es| - 1])
  }

  /** A run of sweep rounds with no clock reading later than `now`. */
  ghost predicate Rounds<R, T>(es: seq<Event<R, T>>, now: nat) {
    forall e :: e in es ==> e.Sweep? && e.now <= now
  }

  lemma NoRounds<R, T>(s: State<R, T>)
    ensures Run(s, []) == s && forall n :: Rounds<R, T>([], n)
  {
  }

  lemma RunPush<R, T>(s: State<R, T>, es: seq<Event<R, T>>, e: Event<R, T>)
    ensures Run(s, es + [e]) == Step(Run(s, es), e)
  {
    assert (es + [e])[..|es|] == es;
  }

  lemma RunOne<R, T>(s: State<R, T>, e: Event<R, T>)
    ensures Run(s, [e]) == Step(s, e)
  {
    RunPush(s, [], e);
    assert [] + [e] == [e];
  }

  lemma {:induction false} RunOn<R, T>(s: State<R, T>, es: seq<Event<R, T>>, fs: seq<Event<R, T>>)
    ensures Run(s, es + fs) == Run(Run(s, es), fs)
  {
    hide Run, Step;
    if fs == [] {
      assert es + fs == es;
      NoRounds(Run(s, es));
    } else {
      var front, e := fs[..|fs| - 1], fs[|fs| - 1];
      RunOn(s, es, front);
      RunPush(s, es + front, e);
      RunPush(Run(s, es), front, e);
      assert fs == front + [e] && es + fs == es + front + [e];
    }
  }

  lemma AddRound<R, T>(s: State<R, T>, es: seq<Event<R, T>>, top: T, now: nat)
    ensures Run(s, es + [Sweep(top, now)]) == Step(Run(s, es), Sweep(top, now))
    ensures forall n :: n >= now && Rounds(es, n) ==> Rounds(es + [Sweep(top, now)], n)
  {
    RunPush(s, es, Sweep(top, now));
  }

  lemma RoundsLater<R, T>(es: seq<Event<R, T>>, now: nat)
    requires Rounds(es, now)
    ensures forall n :: n >= now ==> Rounds(es, n)
  {
  }

  // ---------------------------------------------------------------- invariants

  /** A request's timer points back to it, and a timer's request points back to it. */
  ghost predicate MutualInverses<R, T>(s: State<R, T>) {
    && (forall r :: r in s.requests && s.requests[r].To? ==>
          s.requests[r].id in s.timers && s.timers[s.requests[r].id].request == To(r))
    && (forall t :: t in s.timers && s.timers[t].request.To? ==>
          s.timers[t].request.id in s.requests && s.requests[s.timers[t].request.id] == To(t))
  }

  /** A timer is marked deleted exactly when it has no request. */
  ghost predicate DeletedMeansNoRequest<R, T>(s: State<R, T>) {
    forall t :: t in s.timers ==> (s.timers[t].deleted <==> s.timers[t].request.Null?)
  }

  /** Every live timer is in the queue exactly once, and nothing else is. */
  ghost predicate QueueIsTimers<R, T>(s: State<R, T>) {
    (forall t :: t in s.timers ==> s.queue[t] == 1) && (forall t :: t in s.queue ==> t in s.timers)
  }

  /** Freed objects are not live. */
  ghost predicate NothingTwice<R, T>(s: State<R, T>) {
    s.requests.Keys !! s.freedRequests && s.timers.Keys !! s.freedTimers
  }

  /** Only live requests with a timer can be reported, and no request twice. */
  ghost predicate EventsAreLive<R, T>(s: State<R, T>) {
    && (forall r :: r in s.armed ==> r in s.requests && s.requests[r].To? && r !in s.pending)
    && (forall r :: r in s.pending ==> r in s.requests && s.requests[r].To?)
    && Distinct(s.pending)
    && (forall r :: r in s.handed ==> r in s.requests && s.requests[r].Null?)
  }

  ghost predicate Invariant<R, T>(s: State<R, T>) {
    && s.faults == 0
    && MutualInverses(s) && DeletedMeansNoRequest(s) && QueueIsTimers(s) && NothingTwice(s) && EventsAreLive(s)
  }

  lemma AcceptKeeps<R, T>(s: State<R, T>, r: R, t: T, now: nat)
    requires Invariant(s) && IsNew(s, r, t)
    ensures Invariant(AcceptOne(s, r, t, now))
  {
  }

  lemma PollKeeps<R, T>(s: State<R, T>, ready: seq<R>)
    requires Invariant(s)
    ensures Invariant(Step(s, Poll(ready)))
  {
  }

  lemma TailIsDistinct<R>(xs: seq<R>)
    requires xs != [] && Distinct(xs)
    ensures Distinct(xs[1..]) && xs[0] !in xs[1..] && forall x :: x in xs[1..] ==> x in xs
  {
  }

  lemma HandleErrorKeeps<R, T>(s: State<R, T>)
    requires Invariant(s) && s.pending != []
    ensures Invariant(Step(s, HandleError))
  {
    hide Distinct, DestroyRequest;
    TailIsDistinct(s.pending);
    DestroyRequestIs(s.(pending := s.pending[1..]), s.pending[0]);
  }

  lemma SeparateTimerIs<R, T>(s: State<R, T>, r: R)
    requires r in s.requests && s.requests[r].To? && s.requests[r].id in s.timers
    ensures var t := s.requests[r].id;
            SeparateTimer(s, r) ==
            s.(requests := s.requests[r := Null], timers := s.timers[t := Timer(true, s.timers[t].expires, Null)])
  {
  }

  lemma HandleInputKeeps<R, T>(s: State<R, T>)
    requires Invariant(s) && s.pending != []
    ensures Invariant(Step(s, HandleInput))
  {
    hide Distinct, SeparateTimer;
    TailIsDistinct(s.pending);
    SeparateTimerIs(s, s.pending[0]);
  }

  lemma SweepKeeps<R, T>(s: State<R, T>, top: T, now: nat)
    requires Invariant(s)
    ensures Invariant(Step(s, Sweep(top, now)))
  {
    if Step(s, Sweep(top, now)) != s {
      hide Step, MutualInverses, DeletedMeansNoRequest, QueueIsTimers, NothingTwice, EventsAreLive;
      SweepIs(s, top, now);
      RemovalKeeps(s, top);
    }
  }

  /** The state without timer `top` and its request. */
  ghost function Removed<R, T>(s: State<R, T>, top: T): State<R, T>
    requires top in s.timers
  {
    var u := s.(timers := s.timers - {top}, queue := s.queue - multiset{top}, freedTimers := s.freedTimers + {top});
    match s.timers[top].request
    case Null => u
    case To(r) => u.(requests := s.requests - {r}, armed := s.armed - {r}, freedRequests := s.freedRequests + {r})
  }

  lemma RemovalKeeps<R, T>(s: State<R, T>, top: T)
    requires Invariant(s) && top in s.timers && s.pending == []
    ensures Invariant(Removed(s, top))
  {
    RemovalKeepsLinks(s, top);
    RemovalKeepsQueue(s, top);
    hide MutualInverses, DeletedMeansNoRequest, QueueIsTimers;
  }

  lemma RemovalKeepsLinks<R, T>(s: State<R, T>, top: T)
    requires MutualInverses(s) && DeletedMeansNoRequest(s) && top in s.timers
    ensures MutualInverses(Removed(s, top)) && DeletedMeansNoRequest(Removed(s, top))
  {
  }

  lemma RemovalKeepsQueue<R, T>(s: State<R, T>, top: T)
    requires QueueIsTimers(s) && top in s.timers
    ensures QueueIsTimers(Removed(s, top))
  {
  }

  /** A round that removes a timer removes its request too. */
  lemma SweepIs<R, T>(s: State<R, T>, top: T, now: nat)
    requires MutualInverses(s) && Step(s, Sweep(top, now)) != s
    ensures top in s.timers && top in s.queue && s.pending == []
    ensures Step(s, Sweep(top, now)) == Removed(s, top)
  {
    var d := s.timers[top].(deleted := true);
    assert s.timers[top := d] - {top} == s.timers - {top};
    assert s.timers[top := d][top := Timer(true, d.expires, Null)] - {top} == s.timers - {top};
  }

  lemma StepKeeps<R, T>(s: State<R, T>, e: Event<R, T>)
    requires Invariant(s)
    ensures Invariant(Step(s, e))
  {
    hide Invariant;
    match e
    case Accept(r, t, now) => if IsNew(s, r, t) { AcceptKeeps(s, r, t, now); }
    case Poll(ready) => PollKeeps(s, ready);
    case HandleError => if s.pending != [] { HandleErrorKeeps(s); }
    case HandleInput => if s.pending != [] { HandleInputKeeps(s); }
    case Sweep(top, now) => SweepKeeps(s, top, now);
  }

  /**
   * Over every run: links are mutual, no object is touched or deleted after it is gone, every queued timer is live
   * and queued once, and it is marked deleted exactly when it has no request.
   */
  lemma {:induction false} RunKeeps<R, T>(es: seq<Event<R, T>>)
    ensures Invariant(Run(Init(), es))
  {
    if es != [] {
      RunKeeps(es[..|es| - 1]);
      StepKeeps(Run(Init(), es[..|es| - 1]), es[|es| - 1]);
    }
  }

  lemma StepKeepsHanded<R, T>(s: State<R, T>, e: Event<R, T>)
    ensures s.handed <= Step(s, e).handed
  {
  }

  /** A request given to the thread pool is never deleted by the main loop. */
  lemma {:induction false} HandedSurvive<R, T>(es: seq<Event<R, T>>, fs: seq<Event<R, T>>, r: R)
    requires r in Run(Init(), es).handed
    ensures var s := Run(Init(), es + fs); r in s.handed && r in s.requests && r !in s.freedRequests
  {
    hide Run, Step, MutualInverses, DeletedMeansNoRequest, QueueIsTimers;
    RunKeeps(es + fs);
    if fs == [] {
      assert es + fs == es;
    } else {
      var front, e := fs[..|fs| - 1], fs[|fs| - 1];
      HandedSurvive(es, front, r);
      RunPush(Init(), es + front, e);
      StepKeepsHanded(Run(Init(), es + front), e);
      assert es + fs == es + front + [e];
    }
  }

  // -------------------------------------------------------------------- sweeps

  /** Where the sweep stops: at an empty queue, or at a live timer that has not expired. */
  ghost predicate Swept<R, T>(s: State<R, T>, now: nat) {
    || s.queue == multiset{}
    || exists t :: t in s.queue && IsTop(s, t) && !s.timers[t].deleted && now < s.timers[t].expires
  }

  lemma QueuedAreLive<R, T>(s: State<R, T>)
    requires Invariant(s)
    ensures forall t :: t in s.queue ==> t in s.timers
  {
  }

  lemma StopsAtTop<R, T>(s: State<R, T>, top: T, now: nat)
    requires IsTop(s, top) && !s.timers[top].deleted && now < s.timers[top].expires
    ensures Swept(s, now)
  {
  }

  lemma StopsWhenEmpty<R, T>(s: State<R, T>, now: nat)
    requires s.queue == multiset{}
    ensures Swept(s, now)
  {
  }

  /** After a sweep only timers that expire later are left: a deleted one is gone once it has expired. */
  lemma SweptLeavesLater<R, T>(s: State<R, T>, now: nat)
    requires Swept(s, now)
    ensures forall t :: t in s.queue ==> t in s.timers && s.timers[t].expires > now
  {
  }

  lemma SweepIsDue<R, T>(s: State<R, T>, top: T, now: nat)
    requires Step(s, Sweep(top, now)) != s
    ensures IsTop(s, top) && (s.timers[top].deleted || s.timers[top].expires <= now)
  {
  }

  ghost predicate OnlyDueGone<R, T>(s: State<R, T>, u: State<R, T>, now: nat)
    requires QueueIsTimers(s)
  {
    && (forall t :: t in u.queue ==> t in s.queue && t in u.timers && u.timers[t] == s.timers[t])
    && (forall t :: t in s.queue && t !in u.queue ==>
          t in u.freedTimers && (s.timers[t].deleted || s.timers[t].expires <= now))
    && (forall r :: r in s.requests && r !in u.requests ==> s.requests[r].To? && s.requests[r].id !in u.queue)
  }

  /** Deletion is lazy: what left the queue expires no later than anything that stayed, deleted or not. */
  ghost predicate InOrderOfExpiry<R, T>(s: State<R, T>, u: State<R, T>)
    requires QueueIsTimers(s)
  {
    forall t, v :: t in s.queue && t !in u.queue && v in u.queue ==>
      v in s.timers && s.timers[t].expires <= s.timers[v].expires
  }

  /** One more round after `m`. */
  lemma OneMoreRound<R, T>(s: State<R, T>, m: State<R, T>, top: T, now: nat, end: nat)
    requires Invariant(s) && Invariant(m) && now <= end
    requires OnlyDueGone(s, m, end) && InOrderOfExpiry(s, m) && m.queue <= s.queue
    ensures var u := Step(m, Sweep(top, now));
            && Invariant(u) && OnlyDueGone(s, u, end) && InOrderOfExpiry(s, u) && u.queue <= s.queue
  {
    SweepKeeps(m, top, now);
    if Step(m, Sweep(top, now)) != m {
      SweepIsDue(m, top, now);
      SweepIs(m, top, now);
      hide Step, Removed, OnlyDueGone, InOrderOfExpiry, MutualInverses, QueueIsTimers, Distinct, EventsAreLive, IsTop;
      TopIsThere(m, top);
      RemovedFits(s, m, top, end);
      RemovedKeepsOrder(s, m, top, end);
    }
  }

  lemma RemovedQueue<R, T>(m: State<R, T>, top: T)
    requires QueueIsTimers(m) && top in m.timers
    ensures Removed(m, top).queue <= m.queue
    ensures forall t :: t in Removed(m, top).queue <==> t in m.queue && t != top
  {
    assert m.queue[top] == 1;
  }

  lemma RemovedTimers<R, T>(m: State<R, T>, top: T)
    requires QueueIsTimers(m) && top in m.timers
    ensures var u := Removed(m, top);
            && (forall t :: t in m.timers && t != top ==> t in u.timers && u.timers[t] == m.timers[t])
            && u.freedTimers == m.freedTimers + {top}
            && (forall r :: r in m.requests && r !in u.requests ==> m.timers[top].request == To(r))
  {
  }

  lemma RemovedFits<R, T>(s: State<R, T>, m: State<R, T>, top: T, end: nat)
    requires QueueIsTimers(s) && QueueIsTimers(m) && MutualInverses(s) && top in m.queue && top in m.timers
    requires m.timers[top].deleted || m.timers[top].expires <= end
    requires OnlyDueGone(s, m, end) && m.queue <= s.queue
    ensures var u := Removed(m, top); OnlyDueGone(s, u, end) && u.queue <= s.queue
  {
    RemovedQueue(m, top);
    RemovedTimers(m, top);
    hide Removed;
  }

  lemma RemovedKeepsOrder<R, T>(s: State<R, T>, m: State<R, T>, top: T, end: nat)
    requires QueueIsTimers(s) && QueueIsTimers(m) && IsTop(m, top)
    requires OnlyDueGone(s, m, end) && InOrderOfExpiry(s, m)
    ensures InOrderOfExpiry(s, Removed(m, top))
  {
    RemovedQueue(m, top);
    hide Removed;
  }

  lemma TopIsThere<R, T>(m: State<R, T>, top: T)
    requires IsTop(m, top)
    ensures top in m.queue && top in m.timers
  {
  }

  lemma RunLast<R, T>(s: State<R, T>, es: seq<Event<R, T>>)
    requires es != []
    ensures Run(s, es) == Step(Run(s, es[..|es| - 1]), es[|es| - 1])
  {
  }

  lemma NoneGone<R, T>(s: State<R, T>, now: nat)
    requires Invariant(s)
    ensures OnlyDueGone(s, s, now) && InOrderOfExpiry(s, s) && Run(s, []) == s
  {
  }

  /**
   * A sweep, however many rounds it has, removes only timers that were deleted or had expired, and their requests, and
   * it removes them in the order of expiry: nothing that stays expires before what went.
   */
  lemma {:induction false} RoundsRemoveOnlyDue<R, T>(s: State<R, T>, es: seq<Event<R, T>>, now: nat)
    requires Invariant(s) && Rounds(es, now)
    ensures var u := Run(s, es);
            Invariant(u) && OnlyDueGone(s, u, now) && InOrderOfExpiry(s, u) && u.queue <= s.queue
  {
    if es == [] {
      NoneGone(s, now);
    } else {
      var front, e := es[..|es| - 1], es[|es| - 1];
      assert e in es;
      RoundsRemoveOnlyDue(s, front, now);
      RunLast(s, es);
      hide Run, Step, OnlyDueGone, InOrderOfExpiry;
      OneMoreRound(s, Run(s, front), e.top, e.now, now);
    }
  }
}
