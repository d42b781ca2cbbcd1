/** The main loop of Examples/Ver0.1/main.cpp on request and timer objects that point to each other. */
module TimerQueue {
  import M = TimerModel

  /** `gettimeofday` in milliseconds, assumed not to go back. */
  class Clock {
    var now: nat

    constructor ()
    {
      now := 0;
    }

    method Read() returns (t: nat)
      modifies this
      ensures t == now >= old(now)
    {
      var passed: int := *;
      if passed > 0 {
        now := now + passed;
      }
      t := now;
    }
  }

  /** `mytimer`. */
  class Timer {
    var deleted: bool
    var expires: nat
    var request: Request?

    constructor (request: Request, timeout: nat, now: nat)
      ensures !deleted && expires == now + timeout && this.request == request
    {
      deleted, expires, this.request := false, now + timeout, request;
    }

    method ClearReq()
      modifies this
      ensures request == null && deleted && expires == old(expires)
    {
      request := null;
      SetDeleted();
    }

    method SetDeleted()
      modifies this`deleted
      ensures deleted
    {
      deleted := true;
    }

    /** Marks an expired timer deleted; its request goes when the timer does. */
    method IsValid(clock: Clock) returns (valid: bool)
      modifies this`deleted, clock
      ensures clock.now >= old(clock.now)
      ensures valid <==> clock.now < expires
      ensures deleted <==> old(deleted) || !valid
    {
      var now := clock.Read();
      if now < expires {
        return true;
      }
      SetDeleted();
      valid := false;
    }
  }

  /** `requestData`, as far as timers are concerned. */
  class Request {
    var timer: Timer?

    constructor ()
      ensures timer == null
    {
      timer := null;
    }

    method AddTimer(t: Timer)
      modifies this
      ensures timer == if old(timer) == null then t else old(timer)
    {
      if timer == null {
        timer := t;
      }
    }

    /** Cuts the links in both directions; the timer stays queued, marked deleted. */
    method SeparateTimer()
      modifies this, timer
      ensures timer == null
      ensures old(timer) != null ==>
                old(timer).request == null && old(timer).deleted && old(timer).expires == old(timer.expires)
    {
      if timer != null {
        timer.ClearReq();
        timer := null;
      }
    }
  }

  /** One entry of what `epoll_wait` returns: the listening socket, or a request. */
  datatype Ready = Listener(arrivals: nat) | Ready(request: Request, error: bool)

  function RequestsOf(batch: seq<Ready>): seq<Request> {
    if batch == [] then []
    else (if batch[0].Ready? then [batch[0].request] else []) + RequestsOf(batch[1..])
  }

  lemma NextOf(batch: seq<Ready>, i: nat)
    requires i < |batch|
    ensures RequestsOf(batch[i..]) == (if batch[i].Ready? then [batch[i].request] else []) + RequestsOf(batch[i + 1..])
  {
    assert batch[i..][1..] == batch[i + 1..];
  }

  lemma NothingLeft()
    ensures RequestsOf([]) == []
  {
  }

  class Server {
    var queue: multiset<Timer>
    var armed: set<Request>  // what epoll watches
    var pending: seq<Request>  // the requests of the batch not yet handled
    var handed: set<Request>  // what the thread pool was given

    // The objects that exist, and those that have been deleted.
    ghost var requests: set<Request>
    ghost var timers: set<Timer>
    ghost var freedRequests: set<Request>
    ghost var freedTimers: set<Timer>

    static ghost function TimerOf(r: Request): M.Link<Timer>
      reads r
    {
      if r.timer == null then M.Null
      else
        var t: Timer := r.timer;
        M.To(t)
    }

    static ghost function Fields(t: Timer): M.Timer<Request>
      reads t
    {
      if t.request == null then M.Timer(t.deleted, t.expires, M.Null)
      else
        var r: Request := t.request;
        M.Timer(t.deleted, t.expires, M.To(r))
    }

    static ghost function Requests(rs: set<Request>): (m: map<Request, M.Link<Timer>>)
      reads rs
      ensures m.Keys == rs && forall r :: r in rs ==> m[r] == TimerOf(r)
    {
      map r | r in rs :: TimerOf(r)
    }

    static ghost function Timers(ts: set<Timer>): (m: map<Timer, M.Timer<Request>>)
      reads ts
      ensures m.Keys == ts && forall t :: t in ts ==> m[t] == Fields(t)
    {
      map t | t in ts :: Fields(t)
    }

    /** The objects as they point to each other. */
    ghost function View(): M.State<Request, Timer>
      reads this, requests, timers
    {
      M.State(Requests(requests), Timers(timers), queue, armed, pending, handed, freedRequests, freedTimers, 0)
    }

    static lemma RequestAdded(rs: set<Request>, r: Request)
      ensures Requests(rs + {r}) == Requests(rs)[r := TimerOf(r)]
    {
    }

    static lemma TimerGone(ts: set<Timer>, t: Timer)
      ensures Timers(ts - {t}) == Timers(ts) - {t}
    {
    }

    static lemma TimerAdded(ts: set<Timer>, t: Timer)
      ensures Timers(ts + {t}) == Timers(ts)[t := Fields(t)]
    {
    }

    constructor ()
      ensures View() == M.Init() && M.Invariant(View())
    {
      queue, armed, pending, handed := multiset{}, {}, [], {};
      requests, timers, freedRequests, freedTimers := {}, {}, {}, {};
    }

    // ----------------------------------------------------------- destructors

    /** `delete request`: the request is gone, and its timer is left without one, marked deleted. */
    method DestroyRequest(r: Request)
      requires r in requests && (r.timer != null ==> r.timer in timers)
      modifies this`requests, this`armed, this`freedRequests, r, r.timer
      ensures requests == old(requests) - {r} && freedRequests == old(freedRequests) + {r} && armed == old(armed) - {r}
      ensures old(r.timer) != null ==> old(r.timer).request == null && old(r.timer).deleted
      ensures View() == M.DestroyRequest(old(View()), r)
    {
      hide Requests, Timers, View, M.DestroyRequest;
      RequestAt(r);
      M.DestroyRequestIs(View(), r);
      if r.timer != null {
        CutTimer(r.timer);
      }
      RemoveRequest(r);
    }

    lemma RequestAt(r: Request)
      requires r in requests && (r.timer != null ==> r.timer in timers)
      ensures View().requests.Keys == requests && View().timers.Keys == timers
      ensures View().requests[r] == TimerOf(r)
      ensures r.timer != null ==> View().timers[r.timer] == Fields(r.timer)
    {
    }

    method CutTimer(t: Timer)
      requires t in timers
      modifies t
      ensures t.request == null && t.deleted
      ensures var s := old(View()); View() == s.(timers := s.timers[t := M.Timer(true, old(t.expires), M.Null)])
    {
      t.ClearReq();
      assert Requests(requests) == old(Requests(requests));
      assert Timers(timers) == old(Timers(timers))[t := Fields(t)];
    }

    method RemoveRequest(r: Request)
      requires r in requests
      modifies this`requests, this`armed, this`freedRequests, r
      ensures requests == old(requests) - {r} && freedRequests == old(freedRequests) + {r} && armed == old(armed) - {r}
      ensures var s := old(View());
              View() == s.(requests := s.requests - {r}, armed := s.armed - {r}, freedRequests := s.freedRequests + {r})
    {
      r.timer := null;
      armed := armed - {r};
      requests, freedRequests := requests - {r}, freedRequests + {r};
      assert Requests(requests) == old(Requests(requests)) - {r};
      assert Timers(timers) == old(Timers(timers));
    }

    /** `delete timer`: the timer is gone, and with it the request it still had. */
    method DestroyTimer(t: Timer)
      requires t in timers && (t.request != null ==> t.request in requests && t.request.timer == t)
      modifies this`requests, this`timers, this`armed, this`freedRequests, this`freedTimers, t, t.request
      ensures timers == old(timers) - {t} && freedTimers == old(freedTimers) + {t}
      ensures var gone := if old(t.request) == null then {} else {old(t.request)};
              && requests == old(requests) - gone && freedRequests == old(freedRequests) + gone
              && armed == old(armed) - gone
      ensures View() == M.DestroyTimer(old(View()), t)
    {
      hide Requests, Timers, M.DestroyRequest;
      ghost var before := View();
      assert before.timers[t] == Fields(t);
      if t.request != null {
        DestroyRequest(t.request);
      }
      RemoveTimer(t);
      assert View() == M.DestroyTimer(before, t);
    }

    ghost method RemoveTimer(t: Timer)
      requires t in timers
      modifies this`timers, this`freedTimers
      ensures timers == old(timers) - {t} && freedTimers == old(freedTimers) + {t}
      ensures var u := old(View()); View() == u.(timers := u.timers - {t}, freedTimers := u.freedTimers + {t})
    {
      hide Requests, Timers;
      ghost var u := View();
      TimerGone(timers, t);
      timers, freedTimers := timers - {t}, freedTimers + {t};
      assert Requests(requests) == u.requests && Timers(timers) == u.timers - {t};
    }

    // ------------------------------------------------------------- main loop

    /** One connection taken by `acceptConnection`: a watched request and a queued timer that point to each other. */
    method Accept(clock: Clock) returns (r: Request, t: Timer)
      requires M.Invariant(View())
      modifies this, clock
      ensures fresh(r) && fresh(t) && r.timer == t && t.request == r && !t.deleted
      ensures clock.now >= old(clock.now) && t.expires == clock.now + 500
      ensures requests == old(requests) + {r} && timers == old(timers) + {t} && queue == old(queue) + multiset{t}
      ensures armed == old(armed) + {r}
      ensures pending == old(pending) && handed == old(handed) && freedRequests == old(freedRequests)
      ensures M.Invariant(View()) && View() == M.Step(old(View()), M.Accept(r, t, clock.now))
    {
      hide M.Invariant, M.AcceptOne, Requests, Timers;
      r := new Request();
      var now := clock.Read();
      t := new Timer(r, M.TIMER_TIME_OUT, now);
      r.AddTimer(t);
      assert Requests(requests) == old(Requests(requests)) && Timers(timers) == old(Timers(timers));
      M.AcceptKeeps(View(), r, t, now);
      Register(r, t, now);
    }

    method Register(r: Request, t: Timer, ghost now: nat)
      requires M.IsNew(View(), r, t)
      requires r.timer == t && t.request == r && !t.deleted && t.expires == now + M.TIMER_TIME_OUT
      modifies this`armed, this`queue, this`requests, this`timers
      ensures requests == old(requests) + {r} && timers == old(timers) + {t} && queue == old(queue) + multiset{t}
      ensures armed == old(armed) + {r}
      ensures View() == M.AcceptOne(old(View()), r, t, now)
    {
      hide Requests, Timers;
      RequestAdded(requests, r);
      TimerAdded(timers, t);
      ghost var before := View();
      armed := armed + {r};
      queue := queue + multiset{t};
      requests, timers := requests + {r}, timers + {t};
      assert Requests(requests) == before.requests[r := M.To(t)];
      assert Timers(timers) == before.timers[t := M.Timer(false, now + M.TIMER_TIME_OUT, M.To(r))];
    }

    /** `epoll_wait`: watched requests, each reported once, and not watched until they are handled. */
    method Poll(ready: seq<Request>)
      requires M.Invariant(View()) && pending == []
      requires M.Distinct(ready) && forall r :: r in ready ==> r in armed
      modifies this`pending, this`armed
      ensures pending == ready && armed == old(armed) - (set r | r in ready)
      ensures M.Invariant(View()) && View() == M.Step(old(View()), M.Poll(ready))
    {
      hide M.Invariant, Requests, Timers;
      ghost var before := View();
      M.PollKeeps(before, ready);
      pending, armed := ready, armed - (set r | r in ready);
      assert View() == M.Step(before, M.Poll(ready));
    }

    method HandleError()
      requires M.Invariant(View()) && pending != []
      modifies this, requests, timers
      ensures M.Invariant(View()) && View() == M.Step(old(View()), M.HandleError)
      ensures pending == old(pending)[1..] && handed == old(handed) && queue == old(queue) && armed == old(armed)
      ensures requests == old(requests) - {old(pending)[0]} && timers == old(timers)
      ensures freedRequests == old(freedRequests) + {old(pending)[0]}
    {
      hide M.Invariant, Requests, Timers, M.DestroyRequest;
      ghost var before := View();
      M.HandleErrorKeeps(before);
      var request := pending[0];
      PendingIsLinked();
      pending := pending[1..];
      assert View() == before.(pending := pending);
      DestroyRequest(request);
      assert View() == M.Step(before, M.HandleError);
    }

    lemma PendingIsLinked()
      requires M.Invariant(View()) && pending != []
      ensures var r := pending[0];
              r in requests && r !in armed && r.timer != null && r.timer in timers && r.timer.request == r
    {
      assert View().requests[pending[0]] == TimerOf(pending[0]);
    }

    method HandleInput()
      requires M.Invariant(View()) && pending != []
      modifies this, requests, timers
      ensures M.Invariant(View()) && View() == M.Step(old(View()), M.HandleInput)
      ensures pending == old(pending)[1..] && handed == old(handed) + {old(pending)[0]} && queue == old(queue)
      ensures armed == old(armed)
      ensures requests == old(requests) && timers == old(timers) && freedRequests == old(freedRequests)
    {
      hide M.Invariant, Requests, Timers, M.SeparateTimer;
      ghost var before := View();
      M.HandleInputKeeps(before);
      var request := pending[0];
      PendingIsLinked();
      Separate(request);
      ghost var u := View();
      pending, handed := pending[1..], handed + {request};
      assert Requests(requests) == u.requests && Timers(timers) == u.timers;
      assert View() == M.Step(before, M.HandleInput);
    }

    method Separate(r: Request)
      requires r in requests && r.timer != null && r.timer in timers
      modifies r, r.timer
      ensures View() == M.SeparateTimer(old(View()), r)
    {
      ghost var t: Timer := r.timer;
      r.SeparateTimer();
      assert Timers(timers) == old(Timers(timers))[t := Fields(t)];
      assert Requests(requests) == old(Requests(requests))[r := TimerOf(r)];
    }

    /** `acceptConnection`: as many connections as there are. */
    method AcceptConnection(arrivals: nat, clock: Clock) returns (ghost es: seq<M.Event<Request, Timer>>)
      requires M.Invariant(View())
      modifies this, clock
      ensures M.Invariant(View()) && View() == M.Run(old(View()), es)
      ensures |queue| == |old(queue)| + arrivals && old(queue) <= queue
      ensures pending == old(pending) && handed == old(handed) && freedRequests == old(freedRequests)
      ensures old(requests) <= requests && old(timers) <= timers
      ensures fresh(requests - old(requests)) && fresh(timers - old(timers))
    {
      hide M.Invariant, M.Run, M.Step, Requests, Timers;
      ghost var before := View();
      es := [];
      M.NoRounds(before);
      for i := 0 to arrivals
        invariant M.Invariant(View()) && View() == M.Run(before, es)
        invariant |queue| == |old(queue)| + i && old(queue) <= queue
        invariant pending == old(pending) && handed == old(handed) && freedRequests == old(freedRequests)
        invariant old(requests) <= requests && old(timers) <= timers
        invariant fresh(requests - old(requests)) && fresh(timers - old(timers))
      {
        var r, t := Accept(clock);
        M.RunPush(before, es, M.Accept(r, t, clock.now));
        es := es + [M.Accept(r, t, clock.now)];
      }
    }

    /**
     * `handle_events` on one batch: connections are accepted where the listening socket comes up, each other request
     * is deleted if it came with an error, and otherwise handed to the thread pool without its timer.
     */
    method HandleEvents(batch: seq<Ready>, clock: Clock) returns (ghost es: seq<M.Event<Request, Timer>>)
      requires M.Invariant(View()) && pending == RequestsOf(batch)
      modifies this, requests, timers, clock
      ensures M.Invariant(View()) && View() == M.Run(old(View()), es) && pending == []
      ensures forall x :: x in batch && x.Ready? ==>
                if x.error then x.request in freedRequests && x.request !in requests
                else x.request in handed && x.request in requests && x.request.timer == null
      ensures old(queue) <= queue && fresh(requests - old(requests)) && fresh(timers - old(timers))
    {
      hide M.Invariant, M.Run, M.Step, Requests, Timers, RequestsOf;
      ghost var before := View();
      es := [];
      M.NoRounds(before);
      assert batch[0..] == batch;
      for i := 0 to |batch|
        invariant M.Invariant(View()) && View() == M.Run(before, es)
        invariant pending == RequestsOf(batch[i..]) && old(queue) <= queue
        invariant fresh(requests - old(requests)) && fresh(timers - old(timers))
        invariant forall k :: 0 <= k < i && batch[k].Ready? ==>
                    batch[k].request in if batch[k].error then freedRequests else handed
      {
        NextOf(batch, i);
        ghost var e;
        match batch[i] {
          case Listener(arrivals) =>
            e := AcceptConnection(arrivals, clock);
          case Ready(request, error) =>
            if error {
              e := [M.HandleError];
              M.RunOne(View(), M.HandleError);
              HandleError();
            } else {
              e := [M.HandleInput];
              M.RunOne(View(), M.HandleInput);
              HandleInput();
            }
        }
        M.RunOn(before, es, e);
        es := es + e;
      }
      assert batch[|batch|..] == [];
      NothingLeft();
      HandledAreSafe();
    }

    lemma HandledAreSafe()
      requires M.Invariant(View())
      ensures forall r :: r in handed ==> r in requests && r.timer == null
      ensures requests !! freedRequests
    {
      forall r | r in handed ensures r in requests && r.timer == null {
        assert r in View().requests && View().requests[r] == TimerOf(r);
      }
    }

    /**
     * `handle_expired_event`: a run of sweep rounds that ends, after which every queued timer expires later than the
     * last clock reading; what left the queue had been deleted or had expired, and is gone with its request.
     */
    method HandleExpired(clock: Clock) returns (ghost rounds: seq<M.Event<Request, Timer>>)
      requires M.Invariant(View()) && pending == []
      modifies this, requests, timers, clock
      ensures M.Invariant(View()) && View() == M.Run(old(View()), rounds) && M.Rounds(rounds, clock.now)
      ensures clock.now >= old(clock.now) && queue <= old(queue) && pending == []
      ensures forall t :: t in queue ==> t in timers && t.expires > clock.now
      ensures forall t :: t in old(queue) && t !in queue ==>
                t in freedTimers && (old(t.deleted) || old(t.expires) <= clock.now)
      ensures forall t, v :: t in old(queue) && t !in queue && v in queue ==> old(t.expires) <= v.expires
    {
      hide M.Run, M.Invariant, M.Rounds, M.Swept, Requests, Timers;
      ghost var before := View();
      QueuedAreHere();
      rounds := Sweep(clock);
      QueuedAreHere();
      M.SweptLeavesLater(View(), clock.now);
      M.RoundsRemoveOnlyDue(before, rounds, clock.now);
    }

    method Sweep(clock: Clock) returns (ghost rounds: seq<M.Event<Request, Timer>>)
      requires M.Invariant(View()) && pending == []
      modifies this, requests, timers, clock
      ensures M.Invariant(View()) && View() == M.Run(old(View()), rounds) && M.Rounds(rounds, clock.now)
      ensures clock.now >= old(clock.now) && M.Swept(View(), clock.now) && pending == []
    {
      hide M.Step, M.Run, M.Invariant, M.Rounds, M.Swept, M.IsTop, Requests, Timers;
      ghost var before := View();
      rounds := [];
      M.NoRounds(before);
      while queue != multiset{}
        invariant M.Invariant(View()) && pending == [] && clock.now >= old(clock.now)
        invariant View() == M.Run(before, rounds) && M.Rounds(rounds, clock.now)
        invariant requests <= old(requests) && timers <= old(timers)
        decreases |queue|
      {
        var top := Top();
        M.RoundsLater(rounds, clock.now);
        TopIsHere(top);
        var due := OneRound(top, clock);
        if !due {
          M.StopsAtTop(View(), top, clock.now);
          return;
        }
        M.AddRound(before, rounds, top, clock.now);
        rounds := rounds + [M.Sweep(top, clock.now)];
      }
      M.StopsWhenEmpty(View(), clock.now);
    }

    /** One round of the loop: the top of the queue goes if it is due. */
    method OneRound(top: Timer, clock: Clock) returns (due: bool)
      requires M.Invariant(View()) && pending == [] && M.IsTop(View(), top)
      modifies this, top, top.request, clock
      ensures clock.now >= old(clock.now) && M.Invariant(View()) && pending == []
      ensures requests <= old(requests) && timers <= old(timers)
      ensures due ==> View() == M.Step(old(View()), M.Sweep(top, clock.now)) && |queue| < |old(queue)|
      ensures !due ==> View() == old(View()) && !View().timers[top].deleted && clock.now < View().timers[top].expires
    {
      hide M.Invariant, M.Step, Requests, Timers;
      ghost var was := View();
      due := IsDue(top, clock);
      if due {
        PopAndDelete(top, was, clock.now);
      }
    }

    /** One round of `main`: what epoll reports is handled, then the timers are swept. */
    method Serve(batch: seq<Ready>, clock: Clock) returns (ghost es: seq<M.Event<Request, Timer>>)
      requires M.Invariant(View()) && pending == []
      requires M.Distinct(RequestsOf(batch)) && forall r :: r in RequestsOf(batch) ==> r in armed
      modifies this, requests, timers, clock
      ensures M.Invariant(View()) && View() == M.Run(old(View()), es) && pending == []
      ensures forall t :: t in queue ==> t in timers && t.expires > clock.now
    {
      hide M.Invariant, M.Run, M.Step, M.Rounds, M.Distinct, Requests, Timers, RequestsOf;
      ghost var before := View();
      M.RunOne(before, M.Poll(RequestsOf(batch)));
      Poll(RequestsOf(batch));
      ghost var handling := HandleEvents(batch, clock);
      ghost var sweeping := HandleExpired(clock);
      es := [M.Poll(RequestsOf(batch))] + handling + sweeping;
      M.RunOn(before, [M.Poll(RequestsOf(batch))], handling);
      M.RunOn(before, [M.Poll(RequestsOf(batch))] + handling, sweeping);
    }

    /** The priority queue's `top`: any timer that no other precedes. */
    method Top() returns (top: Timer)
      requires M.Invariant(View()) && queue != multiset{}
      ensures M.IsTop(View(), top)
    {
      hide M.Invariant, M.IsTop, Requests, Timers;
      top :| top in queue;
      var rest := queue - multiset{top};
      while rest != multiset{}
        invariant top in queue && rest <= queue
        invariant forall u :: u in queue && u !in rest ==> top.expires <= u.expires
        decreases |rest|
      {
        var u :| u in rest;
        rest := rest - multiset{u};
        if u.expires < top.expires {
          top := u;
        }
      }
      FirstToExpire(top);
    }

    lemma FirstToExpire(top: Timer)
      requires M.Invariant(View()) && top in queue && forall u :: u in queue ==> top.expires <= u.expires
      ensures M.IsTop(View(), top)
    {
      hide M.Invariant, Requests, Timers;
      QueuedAreHere();
    }

    lemma QueuedAreHere()
      requires M.Invariant(View())
      ensures forall t :: t in queue ==>
                t in timers && View().timers[t].deleted == t.deleted && View().timers[t].expires == t.expires
    {
      M.QueuedAreLive(View());
    }

    /** Deleted before, or expired, which marks it deleted. */
    method IsDue(top: Timer, clock: Clock) returns (due: bool)
      requires top in timers
      modifies top`deleted, clock
      ensures clock.now >= old(clock.now)
      ensures due ==> (old(top.deleted) || top.expires <= clock.now) && View() == M.Marked(old(View()), top)
      ensures !due ==> !top.deleted && clock.now < top.expires && View() == old(View())
    {
      if top.deleted {
        assert View() == M.Marked(View(), top);
        return true;
      }
      var valid := top.IsValid(clock);
      assert Timers(timers) == old(Timers(timers))[top := Fields(top)];
      due := !valid;
    }

    method PopAndDelete(top: Timer, ghost was: M.State<Request, Timer>, ghost now: nat)
      requires M.Invariant(was) && pending == [] && M.IsTop(was, top) && View() == M.Marked(was, top)
      requires was.timers[top].deleted || was.timers[top].expires <= now
      modifies this, top, top.request
      ensures M.Invariant(View()) && View() == M.Step(was, M.Sweep(top, now))
      ensures |queue| < |old(queue)| && pending == []
      ensures requests <= old(requests) && timers <= old(timers)
    {
      hide M.Invariant, M.Step, M.IsTop, M.Marked, Requests, Timers, M.DestroyTimer;
      M.SweepKeeps(was, top, now);
      MarkedIsLinked(was, top);
      M.SweepDestroys(was, top, now);
      ghost var marked := View();
      queue := queue - multiset{top};
      assert View() == marked.(queue := was.queue - multiset{top});
      DestroyTimer(top);
      assert View() == M.Step(was, M.Sweep(top, now));
    }

    lemma TopIsHere(top: Timer)
      requires M.Invariant(View()) && M.IsTop(View(), top)
      ensures top in timers && (top.request != null ==> top.request in requests)
    {
      assert View().timers[top] == Fields(top);
      if top.request != null {
        var r: Request := top.request;
        assert View().requests[r] == TimerOf(r);
      }
    }

    lemma MarkedIsLinked(was: M.State<Request, Timer>, top: Timer)
      requires M.Invariant(was) && M.IsTop(was, top) && View() == M.Marked(was, top)
      ensures top in timers && (top.request != null ==> top.request in requests && top.request.timer == top)
      ensures top in queue && queue == was.queue && pending == was.pending
    {
      assert View().timers[top] == Fields(top);
      if top.request != null {
        var r: Request := top.request;
        assert View().requests[r] == TimerOf(r);
      }
    }
  }
}
