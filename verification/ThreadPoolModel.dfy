/**
 * The protocol of Examples/Ver0.1/threadpool.cpp as a state machine: clients add tasks and destroy the pool,
 * workers take tasks, sleep on the condition and exit. Each event is one critical section or the end of a task.
 */
module ThreadPoolModel {
  const THREADPOOL_QUEUE_FULL := -3
  const THREADPOOL_SHUTDOWN := -4

  /** A `Ready` worker is about to take the mutex, also after it has been woken. */
  datatype Worker<T> = Ready | Asleep | Running(task: T) | Exited

  datatype Shutdown = Open | Immediate | Graceful

  /**
   * `stuck` means that the mutex was left locked. The last three fields are the history: tasks accepted,
   * tasks taken from the queue, tasks that have returned.
   */
  datatype State<T> = State(capacity: nat, queue: seq<T>, shutdown: Shutdown, workers: seq<Worker<T>>, stuck: bool,
                            accepted: seq<T>, dequeued: seq<T>, finished: seq<T>)

  /**
   * `Add` signals: `choice` is woken if it sleeps, otherwise the first sleeper. Further wake-ups, which the
   * condition variable permits at any time, are `Spurious`.
   */
  datatype Event<T> = Add(task: T, choice: nat) | Destroy(graceful: bool) | WorkerStep(i: nat) | Spurious(i: nat)

  function Init<T>(threads: nat, capacity: nat): State<T> {
    State(capacity, [], Open, seq(threads, i => Ready), false, [], [], [])
  }

  function AddResult<T>(s: State<T>): int {
    if |s.queue| == s.capacity then THREADPOOL_QUEUE_FULL
    else if s.shutdown != Open then THREADPOOL_SHUTDOWN
    else 0
  }

  function FirstAsleep<T>(ws: seq<Worker<T>>): (k: nat)
    ensures k <= |ws| && (forall i :: 0 <= i < k ==> !ws[i].Asleep?) && (k < |ws| ==> ws[k].Asleep?)
  {
    if ws == [] || ws[0].Asleep? then 0 else 1 + FirstAsleep(ws[1..])
  }

  function Wake<T>(ws: seq<Worker<T>>, i: nat): seq<Worker<T>> {
    if i < |ws| && ws[i].Asleep? then ws[i := Ready] else ws
  }

  function Signal<T>(ws: seq<Worker<T>>, choice: nat): seq<Worker<T>> {
    if choice < |ws| && ws[choice].Asleep? then Wake(ws, choice) else Wake(ws, FirstAsleep(ws))
  }

  function Broadcast<T>(ws: seq<Worker<T>>): seq<Worker<T>> {
    seq(|ws|, i requires 0 <= i < |ws| => if ws[i].Asleep? then Ready else ws[i])
  }

  /** One turn of worker `i`: its critical section, or the return of its task. */
  function Turn<T>(s: State<T>, i: nat): State<T>
    requires i < |s.workers|
  {
    match s.workers[i]
    case Asleep => s
    case Exited => s
    case Running(task) => s.(workers := s.workers[i := Ready], finished := s.finished + [task])
    case Ready =>
      if s.stuck then s
      else if s.queue == [] && s.shutdown.Open? then s.(workers := s.workers[i := Asleep])
      else if s.shutdown.Immediate? || (s.shutdown.Graceful? && s.queue == []) then
        s.(workers := s.workers[i := Exited])
      else
        assert s.queue != [];
        s.(queue := s.queue[1..], workers := s.workers[i := Running(s.queue[0])], dequeued := s.dequeued + [s.queue[0]])
  }

  function Step<T>(s: State<T>, e: Event<T>): State<T> {
    match e
    case Add(task, choice) =>
      if s.stuck || AddResult(s) != 0 then s
      else s.(queue := s.queue + [task], workers := Signal(s.workers, choice), accepted := s.accepted + [task])
    case Destroy(graceful) =>
      if s.stuck then s
      else if s.shutdown != Open then s.(stuck := true)
      else s.(shutdown := if graceful then Graceful else Immediate, workers := Broadcast(s.workers))
    case WorkerStep(i) => if i < |s.workers| then Turn(s, i) else s
    case Spurious(i) => s.(workers := Wake(s.workers, i))
  }

  /** Every list of events is a schedule; what a thread cannot do when its turn comes changes nothing. */
  function Run<T>(s: State<T>, es: seq<Event<T>>): State<T> {
    if es == [] then s else Step(Run(s, es[..|es| - 1]), es[|es| - 1])
  }

  // ---------------------------------------------------------------- invariants

  function InHand<T>(w: Worker<T>): multiset<T> {
    if w.Running? then multiset{w.task} else multiset{}
  }

  function RunningTasks<T>(ws: seq<Worker<T>>): multiset<T> {
    if ws == [] then multiset{}
    else RunningTasks(ws[1..]) + InHand(ws[0])
  }

  ghost predicate Awake<T>(w: Worker<T>) {
    w.Ready? || w.Running?
  }

  ghost predicate SomeAwake<T>(ws: seq<Worker<T>>) {
    exists i :: 0 <= i < |ws| && Awake(ws[i])
  }

  ghost predicate SomeExited<T>(ws: seq<Worker<T>>) {
    exists i :: 0 <= i < |ws| && ws[i].Exited?
  }

  ghost predicate AllExited<T>(ws: seq<Worker<T>>) {
    forall i :: 0 <= i < |ws| ==> ws[i].Exited?
  }

  ghost predicate SomeAsleep<T>(ws: seq<Worker<T>>) {
    exists i :: 0 <= i < |ws| && ws[i].Asleep?
  }

  /** Who may sleep or be gone, and that waiting tasks always have a worker that will come for them. */
  ghost predicate Protocol<T>(s: State<T>) {
    && |s.workers| > 0
    && |s.queue| <= s.capacity
    && (s.shutdown == Open ==> !SomeExited(s.workers) && !s.stuck)
    && (s.shutdown != Open ==> !SomeAsleep(s.workers))
    && (s.shutdown == Graceful && SomeExited(s.workers) ==> s.queue == [])
    && (s.shutdown != Immediate && s.queue != [] ==> SomeAwake(s.workers))
  }

  /** Tasks leave in the order they came, and each is with one worker or has returned. */
  ghost predicate Accounted<T>(s: State<T>) {
    && s.accepted == s.dequeued + s.queue
    && multiset(s.finished) + RunningTasks(s.workers) == multiset(s.dequeued)
  }

  lemma Balance<T>(f: multiset<T>, f': multiset<T>, r: multiset<T>, r': multiset<T>, d: multiset<T>, d': multiset<T>,
                   h: multiset<T>, h': multiset<T>)
    requires f + r == d && r' + h == r + h' && f' + h' + d == f + h + d'
    ensures f' + r' == d'
  {
    forall x: T ensures (f' + r')[x] == d'[x] {
      assert (f + r)[x] == d[x] && (r' + h)[x] == (r + h')[x] && (f' + h' + d)[x] == (f + h + d')[x];
    }
  }

  lemma Exchange<T>(a: multiset<T>, a': multiset<T>, h: multiset<T>, h': multiset<T>, c: multiset<T>)
    requires a' + h == a + h'
    ensures (a' + c) + h == (a + c) + h'
  {
    assert (a' + c) + h == (a' + h) + c;
    assert (a + c) + h' == (a + h') + c;
  }

  lemma {:induction false} RunningUpdate<T>(ws: seq<Worker<T>>, i: nat, w: Worker<T>)
    requires i < |ws|
    ensures RunningTasks(ws[i := w]) + InHand(ws[i])
            == RunningTasks(ws) + InHand(w)
  {
    hide InHand;
    if i == 0 {
      assert ws[i := w][1..] == ws[1..];
      assert RunningTasks(ws[i := w]) == RunningTasks(ws[1..]) + InHand(w);
    } else {
      assert ws[i := w][1..] == ws[1..][i - 1 := w] && ws[i := w][0] == ws[0];
      RunningUpdate(ws[1..], i - 1, w);
      Exchange(RunningTasks(ws[1..]), RunningTasks(ws[1..][i - 1 := w]), InHand(ws[i]), InHand(w), InHand(ws[0]));
    }
  }

  lemma {:induction false} NoneRunning<T>(ws: seq<Worker<T>>)
    requires forall i :: 0 <= i < |ws| ==> !ws[i].Running?
    ensures RunningTasks(ws) == multiset{}
  {
    if ws != [] {
      NoneRunning(ws[1..]);
    }
  }

  lemma {:induction false} BroadcastKeepsRunning<T>(ws: seq<Worker<T>>)
    ensures RunningTasks(Broadcast(ws)) == RunningTasks(ws)
  {
    if ws != [] {
      BroadcastKeepsRunning(ws[1..]);
      assert Broadcast(ws)[1..] == Broadcast(ws[1..]);
    }
  }

  lemma WakeKeepsRunning<T>(ws: seq<Worker<T>>, i: nat)
    ensures RunningTasks(Wake(ws, i)) == RunningTasks(ws)
  {
    if i < |ws| && ws[i].Asleep? {
      RunningUpdate(ws, i, Ready);
      assert RunningTasks(ws) + multiset{} == RunningTasks(ws);
      assert RunningTasks(Wake(ws, i)) + multiset{} == RunningTasks(Wake(ws, i));
    }
  }

  lemma Taken<T>(s: State<T>, i: nat)
    requires Accounted(s) && i < |s.workers| && s.workers[i].Ready? && s.queue != []
    ensures Accounted(s.(queue := s.queue[1..], workers := s.workers[i := Running(s.queue[0])],
                         dequeued := s.dequeued + [s.queue[0]]))
  {
    hide RunningTasks;
    var task := s.queue[0];
    RunningUpdate(s.workers, i, Running(task));
    assert s.dequeued + s.queue == (s.dequeued + [task]) + s.queue[1..];
    Balance(multiset(s.finished), multiset(s.finished), RunningTasks(s.workers),
            RunningTasks(s.workers[i := Running(task)]),
            multiset(s.dequeued), multiset(s.dequeued + [task]), multiset{}, multiset{task});
  }

  lemma Returned<T>(s: State<T>, i: nat)
    requires Accounted(s) && i < |s.workers| && s.workers[i].Running?
    ensures Accounted(s.(workers := s.workers[i := Ready], finished := s.finished + [s.workers[i].task]))
  {
    hide RunningTasks;
    var task := s.workers[i].task;
    RunningUpdate(s.workers, i, Ready);
    Balance(multiset(s.finished), multiset(s.finished + [task]), RunningTasks(s.workers),
            RunningTasks(s.workers[i := Ready]),
            multiset(s.dequeued), multiset(s.dequeued), multiset{task}, multiset{});
  }

  lemma Idle<T>(s: State<T>, i: nat, w: Worker<T>)
    requires Accounted(s) && i < |s.workers| && s.workers[i].Ready? && !w.Running?
    ensures Accounted(s.(workers := s.workers[i := w]))
  {
    hide RunningTasks;
    RunningUpdate(s.workers, i, w);
    assert RunningTasks(s.workers) + multiset{} == RunningTasks(s.workers);
    assert RunningTasks(s.workers[i := w]) + multiset{} == RunningTasks(s.workers[i := w]);
  }

  lemma TurnIsAccounted<T>(s: State<T>, i: nat)
    requires Accounted(s) && i < |s.workers|
    ensures Accounted(Turn(s, i))
  {
    hide Accounted;
    if s.workers[i].Running? {
      Returned(s, i);
    } else if s.workers[i].Ready? {
      Idle(s, i, Asleep);
      Idle(s, i, Exited);
      if s.queue != [] {
        Taken(s, i);
      }
    }
  }

  lemma StepIsAccounted<T>(s: State<T>, e: Event<T>)
    requires Accounted(s)
    ensures Accounted(Step(s, e))
  {
    hide RunningTasks, Turn;
    match e
    case Add(task, choice) =>
      WakeKeepsRunning(s.workers, choice);
      WakeKeepsRunning(s.workers, FirstAsleep(s.workers));
      assert s.dequeued + (s.queue + [task]) == (s.dequeued + s.queue) + [task];
    case Destroy(graceful) => BroadcastKeepsRunning(s.workers);
    case WorkerStep(i) => if i < |s.workers| { TurnIsAccounted(s, i); }
    case Spurious(i) => WakeKeepsRunning(s.workers, i);
  }

  lemma TurnKeepsProtocol<T>(s: State<T>, i: nat)
    requires Protocol(s) && i < |s.workers|
    ensures Protocol(Turn(s, i))
  {
    var t := Turn(s, i);
    if t.workers[i].Running? || t.workers[i].Ready? {
      assert Awake(t.workers[i]);
    }
    forall j | 0 <= j < |t.workers| && t.workers[j].Exited? && j != i ensures s.workers[j].Exited? {
    }
  }

  lemma SignalWakes<T>(ws: seq<Worker<T>>, choice: nat)
    requires SomeAwake(ws) || SomeAsleep(ws)
    ensures SomeAwake(Signal(ws, choice)) && |Signal(ws, choice)| == |ws|
    ensures SomeExited(Signal(ws, choice)) <==> SomeExited(ws)
    ensures !SomeAsleep(ws) ==> Signal(ws, choice) == ws
  {
    var k := if choice < |ws| && ws[choice].Asleep? then choice else FirstAsleep(ws);
    assert Signal(ws, choice) == Wake(ws, k);
    if k < |ws| {
      assert Awake(Wake(ws, k)[k]);
    }
    forall j | 0 <= j < |ws| ensures Wake(ws, k)[j].Exited? <==> ws[j].Exited? {
    }
  }

  lemma BroadcastWakes<T>(ws: seq<Worker<T>>)
    requires |ws| > 0 && !SomeExited(ws)
    ensures SomeAwake(Broadcast(ws)) && !SomeAsleep(Broadcast(ws)) && !SomeExited(Broadcast(ws))
  {
    assert Awake(Broadcast(ws)[0]);
  }

  lemma StepKeepsProtocol<T>(s: State<T>, e: Event<T>)
    requires Protocol(s)
    ensures Protocol(Step(s, e))
  {
    match e
    case Add(task, choice) =>
      if !s.stuck && AddResult(s) == 0 {
        assert SomeAwake(s.workers) || SomeAsleep(s.workers) by { assert Awake(s.workers[0]) || s.workers[0].Asleep?; }
        SignalWakes(s.workers, choice);
      }
    case Destroy(graceful) => if s.shutdown == Open { BroadcastWakes(s.workers); }
    case WorkerStep(i) => if i < |s.workers| { TurnKeepsProtocol(s, i); }
    case Spurious(i) =>
      if i < |s.workers| && s.workers[i].Asleep? {
        assert Awake(Wake(s.workers, i)[i]);
      }
  }

  lemma {:induction false} Reachable<T>(threads: nat, capacity: nat, es: seq<Event<T>>)
    requires threads > 0
    ensures var s := Run(Init(threads, capacity), es); Protocol(s) && Accounted(s)
  {
    if es == [] {
      NoneRunning(Init<T>(threads, capacity).workers);
    } else {
      Reachable(threads, capacity, es[..|es| - 1]);
      var s := Run(Init(threads, capacity), es[..|es| - 1]);
      StepKeepsProtocol(s, es[|es| - 1]);
      StepIsAccounted(s, es[|es| - 1]);
    }
  }

  // ------------------------------------------------------------------ results

  /** No lost wake-up: waiting tasks have a worker that is alive and not asleep; after shutdown nobody sleeps. */
  lemma NoLostWakeUp<T>(threads: nat, capacity: nat, es: seq<Event<T>>)
    requires threads > 0
    ensures var s := Run(Init(threads, capacity), es);
            && (s.shutdown != Immediate && s.queue != [] ==> SomeAwake(s.workers))
            && (s.shutdown != Open ==> !SomeAsleep(s.workers))
            && |s.queue| <= capacity
  {
    Reachable(threads, capacity, es);
    CapacityIsFixed(Init(threads, capacity), es);
  }

  lemma StepKeepsShape<T>(s: State<T>, e: Event<T>)
    ensures Step(s, e).capacity == s.capacity && |Step(s, e).workers| == |s.workers|
  {
  }

  lemma {:induction false} CapacityIsFixed<T>(s: State<T>, es: seq<Event<T>>)
    ensures Run(s, es).capacity == s.capacity && |Run(s, es).workers| == |s.workers|
  {
    if es != [] {
      CapacityIsFixed(s, es[..|es| - 1]);
      StepKeepsShape(Run(s, es[..|es| - 1]), es[|es| - 1]);
    }
  }

  lemma {:induction false} ShutdownIsFinal<T>(s: State<T>, es: seq<Event<T>>)
    requires s.shutdown != Open
    ensures Run(s, es).shutdown == s.shutdown && Run(s, es).accepted == s.accepted
  {
    if es != [] {
      ShutdownIsFinal(s, es[..|es| - 1]);
    }
  }

  /**
   * Under graceful shutdown, once any worker has exited, all accepted tasks have been taken in order of acceptance,
   * and however the run goes on no further task is accepted or taken.
   */
  lemma GracefulDrains<T>(threads: nat, capacity: nat, es: seq<Event<T>>, fs: seq<Event<T>>)
    requires threads > 0
    requires var s := Run(Init(threads, capacity), es); s.shutdown == Graceful && SomeExited(s.workers)
    ensures var s := Run(Init(threads, capacity), es);
            var t := Run(s, fs);
            s.dequeued == s.accepted && t.accepted == s.accepted && t.dequeued == s.accepted
  {
    var s := Run(Init(threads, capacity), es);
    Reachable(threads, capacity, es);
    ShutdownIsFinal(s, fs);
    Reachable(threads, capacity, es + fs);
    RunAppend(Init(threads, capacity), es, fs);
    StaysDrained(s, fs);
    assert s.dequeued + [] == s.dequeued && Run(s, fs).dequeued + [] == Run(s, fs).dequeued;
  }

  lemma {:induction false} StaysDrained<T>(s: State<T>, fs: seq<Event<T>>)
    requires s.shutdown == Graceful && s.queue == []
    ensures Run(s, fs).queue == []
  {
    if fs != [] {
      StaysDrained(s, fs[..|fs| - 1]);
      ShutdownIsFinal(s, fs[..|fs| - 1]);
    }
  }

  lemma {:induction false} RunAppend<T>(s: State<T>, es: seq<Event<T>>, fs: seq<Event<T>>)
    ensures Run(s, es + fs) == Run(Run(s, es), fs)
  {
    if fs == [] {
      assert es + fs == es;
    } else {
      assert (es + fs)[..|es + fs| - 1] == es + fs[..|fs| - 1];
      RunAppend(s, es, fs[..|fs| - 1]);
    }
  }

  /** When all workers have exited after a graceful shutdown, every accepted task has returned exactly once. */
  lemma GracefulRunsAll<T>(threads: nat, capacity: nat, es: seq<Event<T>>)
    requires threads > 0
    requires var s := Run(Init(threads, capacity), es); s.shutdown == Graceful && AllExited(s.workers)
    ensures var s := Run(Init(threads, capacity), es);
            s.dequeued == s.accepted && multiset(s.finished) == multiset(s.accepted)
  {
    var s := Run(Init(threads, capacity), es);
    Reachable(threads, capacity, es);
    NoneRunning(s.workers);
    assert s.workers[0].Exited?;
    assert s.dequeued + [] == s.dequeued;
  }

  // ---------------------------------------------------- adding and destroying

  /** What is refused changes nothing; a full queue comes before a shutdown as the reason. */
  lemma AddResults<T>(s: State<T>)
    ensures AddResult(s) == THREADPOOL_QUEUE_FULL <==> |s.queue| == s.capacity
    ensures AddResult(s) == THREADPOOL_SHUTDOWN <==> |s.queue| != s.capacity && s.shutdown != Open
    ensures AddResult(s) == 0 <==> |s.queue| != s.capacity && s.shutdown == Open
  {
  }

  /** A task is accepted, behind all others, exactly if there is room, the pool is open and the mutex is free. */
  lemma AcceptedExactly<T>(s: State<T>, task: T, choice: nat)
    ensures var t := Step(s, Add(task, choice));
            if !s.stuck && s.shutdown == Open && |s.queue| != s.capacity
            then t == s.(queue := s.queue + [task], accepted := s.accepted + [task], workers := t.workers)
            else t == s
  {
  }

  /** One signal wakes one worker, if any sleeps, and no other worker notices. */
  lemma SignalWakesOne<T>(ws: seq<Worker<T>>, choice: nat)
    ensures if SomeAsleep(ws) then exists i :: 0 <= i < |ws| && ws[i].Asleep? && Signal(ws, choice) == ws[i := Ready]
            else Signal(ws, choice) == ws
  {
    var k := if choice < |ws| && ws[choice].Asleep? then choice else FirstAsleep(ws);
    assert Signal(ws, choice) == Wake(ws, k);
  }

  ghost predicate IsAdds<T>(es: seq<Event<T>>, tasks: seq<T>) {
    |es| == |tasks| && forall i :: 0 <= i < |es| ==> es[i].Add? && es[i].task == tasks[i]
  }

  /** An open pool takes as many tasks as it has room for, with no turn of a worker in between, and not one more. */
  lemma {:induction false} AddsFillThePool<T>(s: State<T>, es: seq<Event<T>>, tasks: seq<T>)
    requires s.shutdown == Open && !s.stuck && |s.queue| <= s.capacity && IsAdds(es, tasks)
    ensures var room := s.capacity - |s.queue|;
            var t := Run(s, es);
            var taken := if |tasks| <= room then tasks else tasks[..room];
            && t.accepted == s.accepted + taken && t.queue == s.queue + taken
            && t.shutdown == Open && !t.stuck && t.capacity == s.capacity
  {
    hide Signal, AddResult;
    if es == [] {
      assert s.accepted + [] == s.accepted && s.queue + [] == s.queue;
    } else {
      var front, e := es[..|es| - 1], es[|es| - 1];
      var before := tasks[..|tasks| - 1];
      AddsFillThePool(s, front, before);
      AcceptedExactly(Run(s, front), e.task, e.choice);
      hide Step, Run;
      var room := s.capacity - |s.queue|;
      RunLast(s, es);
      if |tasks| <= room {
        assert tasks == before + [e.task];
        assert s.accepted + before + [e.task] == s.accepted + tasks && s.queue + before + [e.task] == s.queue + tasks;
      } else {
        assert tasks[..room] == (if |before| <= room then before else before[..room]);
      }
    }
  }

  lemma RunLast<T>(s: State<T>, es: seq<Event<T>>)
    requires es != []
    ensures Run(s, es) == Step(Run(s, es[..|es| - 1]), es[|es| - 1])
  {
  }

  /** The first destroy sets the kind of shutdown asked for and wakes everyone; tasks and histories stay. */
  lemma DestroyEffect<T>(s: State<T>, graceful: bool)
    requires s.shutdown == Open && !s.stuck
    ensures var t := Step(s, Destroy(graceful));
            && t == s.(shutdown := if graceful then Graceful else Immediate, workers := t.workers)
            && !SomeAsleep(t.workers) && |t.workers| == |s.workers|
            && forall i :: 0 <= i < |s.workers| && !s.workers[i].Asleep? ==> t.workers[i] == s.workers[i]
  {
  }

  /** After an immediate shutdown no task is taken any more, however many wait and whatever happens. */
  lemma {:induction false} ImmediateTakesNothing<T>(s: State<T>, fs: seq<Event<T>>)
    requires s.shutdown == Immediate
    ensures Run(s, fs).dequeued == s.dequeued && Run(s, fs).queue == s.queue && Run(s, fs).shutdown == Immediate
  {
    if fs != [] {
      ImmediateTakesNothing(s, fs[..|fs| - 1]);
    }
  }

  /** A task that has been taken returns, whatever becomes of the pool and its mutex. */
  lemma TakenReturns<T>(s: State<T>, i: nat)
    requires i < |s.workers| && s.workers[i].Running?
    ensures var t := Step(s, WorkerStep(i));
            t == s.(finished := s.finished + [s.workers[i].task], workers := s.workers[i := Ready])
  {
  }

  // ----------------------------------------------------------------- progress

  function Rank<T>(w: Worker<T>): nat {
    match w case Running(_) => 2 case Ready => 1 case _ => 0
  }

  function Ranks<T>(ws: seq<Worker<T>>): nat {
    if ws == [] then 0 else Rank(ws[0]) + Ranks(ws[1..])
  }

  /** The turns the workers still have to take before all sleep, or after shutdown before all have exited. */
  function Measure<T>(s: State<T>): nat {
    (if s.shutdown == Immediate then 0 else 2 * |s.queue|) + Ranks(s.workers)
  }

  /** The number of turns that workers take in a run, those of sleeping and exited workers not counted. */
  function Turns<T>(s: State<T>, es: seq<Event<T>>): nat {
    if es == [] then 0
    else
      var ws := Run(s, es[..|es| - 1]).workers;
      var e := es[|es| - 1];
      Turns(s, es[..|es| - 1]) + (if e.WorkerStep? && e.i < |ws| && Rank(ws[e.i]) > 0 then 1 else 0)
  }

  lemma {:induction false} RanksUpdate<T>(ws: seq<Worker<T>>, i: nat, w: Worker<T>)
    requires i < |ws|
    ensures Ranks(ws[i := w]) + Rank(ws[i]) == Ranks(ws) + Rank(w)
  {
    if i == 0 {
      assert ws[i := w][1..] == ws[1..];
    } else {
      assert ws[i := w][1..] == ws[1..][i - 1 := w];
      RanksUpdate(ws[1..], i - 1, w);
    }
  }

  lemma {:induction false} RankZero<T>(ws: seq<Worker<T>>)
    ensures Ranks(ws) == 0 <==> !SomeAwake(ws)
  {
    if ws != [] {
      RankZero(ws[1..]);
      if SomeAwake(ws[1..]) {
        var i :| 0 <= i < |ws[1..]| && Awake(ws[1..][i]);
        assert Awake(ws[i + 1]);
      }
      if SomeAwake(ws) && !Awake(ws[0]) {
        var i :| 0 <= i < |ws| && Awake(ws[i]);
        assert Awake(ws[1..][i - 1]);
      }
    }
  }

  /** Nothing but turns of the workers counts: the pool is being shut down, or no client and no stray wake-up comes. */
  ghost predicate OnlyTurns<T>(s: State<T>, es: seq<Event<T>>) {
    s.shutdown != Open || forall e :: e in es ==> e.WorkerStep?
  }

  /** Each turn of a worker that is awake takes one off the measure, and nothing else changes it. */
  lemma StepLowersMeasure<T>(s: State<T>, e: Event<T>)
    requires Protocol(s) && OnlyTurns(s, [e]) && !Step(s, e).stuck
    ensures Measure(s) ==
            Measure(Step(s, e))
            + (if e.WorkerStep? && e.i < |s.workers| && Rank(s.workers[e.i]) > 0 then 1 else 0)
    ensures Step(s, e).shutdown == s.shutdown && Step(s, e).accepted == s.accepted
  {
    if e.WorkerStep? {
      if e.i < |s.workers| {
        RanksUpdate(s.workers, e.i, Step(s, e).workers[e.i]);
      }
    } else {
      assert e in [e];
    }
  }

  lemma {:induction false} TurnsAreCounted<T>(s: State<T>, es: seq<Event<T>>)
    requires Protocol(s) && OnlyTurns(s, es) && !Run(s, es).stuck
    ensures Turns(s, es) + Measure(Run(s, es)) == Measure(s)
    ensures Protocol(Run(s, es)) && Run(s, es).shutdown == s.shutdown && Run(s, es).accepted == s.accepted
  {
    hide Step, Protocol, Measure, Rank;
    if es != [] {
      var front, e := es[..|es| - 1], es[|es| - 1];
      var t := Run(s, front);
      StuckStays(t, e);
      TurnsAreCounted(s, front);
      assert e in es;
      StepKeepsProtocol(t, e);
      StepLowersMeasure(t, e);
    }
  }

  lemma StuckStays<T>(s: State<T>, e: Event<T>)
    ensures s.stuck ==> Step(s, e).stuck
  {
  }

  /** Nothing left to do: no worker is awake, and unless shutdown was immediate no task waits. */
  lemma MeasureZero<T>(s: State<T>)
    requires Protocol(s)
    ensures Measure(s) == 0 <==> !SomeAwake(s.workers)
    ensures s.shutdown != Immediate && Measure(s) == 0 ==> s.queue == []
  {
    RankZero(s.workers);
  }

  lemma NobodyAwake<T>(s: State<T>)
    requires Protocol(s) && !SomeAwake(s.workers)
    ensures s.shutdown == Open ==> forall i :: 0 <= i < |s.workers| ==> s.workers[i].Asleep?
    ensures s.shutdown != Open ==> AllExited(s.workers)
    ensures RunningTasks(s.workers) == multiset{}
  {
    forall i | 0 <= i < |s.workers|
      ensures if s.shutdown == Open then s.workers[i].Asleep? else s.workers[i].Exited?
    {
      assert !Awake(s.workers[i]);
    }
    NoneRunning(s.workers);
  }

  /**
   * The joins in `threadpool_destroy` finish: with shutdown set and the mutex free, the workers have exactly `Measure`
   * turns left however they are scheduled; all have exited exactly when they have taken them, and until then some
   * worker is awake and none asleep.
   */
  lemma JoinsFinish<T>(threads: nat, capacity: nat, es: seq<Event<T>>, fs: seq<Event<T>>)
    requires threads > 0
    requires var s := Run(Init(threads, capacity), es); s.shutdown != Open && !Run(s, fs).stuck
    ensures var s := Run(Init(threads, capacity), es);
            var t := Run(s, fs);
            && Turns(s, fs) <= Measure(s)
            && (Turns(s, fs) == Measure(s) <==> AllExited(t.workers))
            && (!AllExited(t.workers) ==> SomeAwake(t.workers) && !SomeAsleep(t.workers))
  {
    hide Run, Turns, Measure, Accounted;
    var s := Run(Init(threads, capacity), es);
    var t := Run(s, fs);
    Reachable(threads, capacity, es);
    TurnsAreCounted(s, fs);
    MeasureZero(t);
    if !SomeAwake(t.workers) {
      NobodyAwake(t);
    }
  }

  /**
   * Left alone, an open pool works off its queue: the workers have exactly `Measure` turns to take, however they are
   * scheduled. Until then some worker is awake; when they have taken them, and only then, all sleep, and every
   * accepted task has been taken in order and has returned once.
   */
  lemma QueueIsWorkedOff<T>(threads: nat, capacity: nat, es: seq<Event<T>>, fs: seq<Event<T>>)
    requires threads > 0 && Run(Init(threads, capacity), es).shutdown == Open
    requires forall e :: e in fs ==> e.WorkerStep?
    ensures var s := Run(Init(threads, capacity), es);
            var t := Run(s, fs);
            && Turns(s, fs) <= Measure(s)
            && (Turns(s, fs) < Measure(s) <==> SomeAwake(t.workers))
            && (Turns(s, fs) == Measure(s) ==>
                  && (forall i :: 0 <= i < |t.workers| ==> t.workers[i].Asleep?)
                  && t.accepted == s.accepted && t.dequeued == s.accepted
                  && multiset(t.finished) == multiset(s.accepted))
  {
    hide Run, Turns, Measure, RunningTasks;
    var s := Run(Init(threads, capacity), es);
    var t := Run(s, fs);
    Reachable(threads, capacity, es);
    Reachable(threads, capacity, es + fs);
    RunAppend(Init(threads, capacity), es, fs);
    OpenIsNotStuck(threads, capacity, es, fs);
    TurnsAreCounted(s, fs);
    MeasureZero(t);
    if !SomeAwake(t.workers) {
      NobodyAwake(t);
      assert t.dequeued + [] == t.dequeued;
      assert multiset(t.finished) + multiset{} == multiset(t.finished);
    }
  }

  lemma {:induction false} OpenIsNotStuck<T>(threads: nat, capacity: nat, es: seq<Event<T>>, fs: seq<Event<T>>)
    requires threads > 0 && Run(Init(threads, capacity), es).shutdown == Open
    requires forall e :: e in fs ==> e.WorkerStep?
    ensures Run(Run(Init(threads, capacity), es), fs).shutdown == Open
    ensures !Run(Run(Init(threads, capacity), es), fs).stuck
  {
    var s := Run(Init(threads, capacity), es);
    if fs == [] {
      Reachable(threads, capacity, es);
    } else {
      assert fs[|fs| - 1] in fs;
      OpenIsNotStuck(threads, capacity, es, fs[..|fs| - 1]);
    }
  }

  // ------------------------------------------------------- a second destroy

  lemma StepIsFinal<T>(s: State<T>, e: Event<T>, i: nat)
    requires i < |s.workers|
    ensures |Step(s, e).workers| == |s.workers|
    ensures s.workers[i].Exited? ==> Step(s, e).workers[i].Exited?
    ensures s.stuck ==> Step(s, e).stuck && (!s.workers[i].Exited? ==> !Step(s, e).workers[i].Exited?)
  {
  }

  lemma {:induction false} StuckForever<T>(s: State<T>, fs: seq<Event<T>>, i: nat)
    requires s.stuck && i < |s.workers|
    ensures Run(s, fs).stuck && |Run(s, fs).workers| == |s.workers|
    ensures !s.workers[i].Exited? ==> !Run(s, fs).workers[i].Exited?
  {
    hide Step;
    if fs != [] {
      StuckForever(s, fs[..|fs| - 1], i);
      StepIsFinal(Run(s, fs[..|fs| - 1]), fs[|fs| - 1], i);
    }
  }

  /**
   * `threadpool_destroy` returns with the mutex locked if shutdown is already under way. From then on the workers
   * can all exit exactly when they have already done so.
   */
  lemma SecondDestroyBlocks<T>(s: State<T>, graceful: bool, fs: seq<Event<T>>)
    requires s.shutdown != Open && !s.stuck
    ensures AllExited(Run(Step(s, Destroy(graceful)), fs).workers) <==> AllExited(s.workers)
  {
    var t := Step(s, Destroy(graceful));
    CapacityIsFixed(t, fs);
    forall i: nat | i < |s.workers| ensures s.workers[i].Exited? <==> Run(t, fs).workers[i].Exited? {
      StuckForever(t, fs, i);
      ExitedForever(t, fs, i);
    }
  }

  /** With one worker and no task: the worker that is still to exit never does after a second destroy. */
  lemma SecondDestroyTooSoon(fs: seq<Event<int>>)
    ensures var s := Run(Init<int>(1, 1), [Destroy(true)]);
            && s.shutdown == Graceful && !s.stuck && !AllExited(s.workers)
            && !AllExited(Run(Step(s, Destroy(true)), fs).workers)
  {
    var es: seq<Event<int>> := [Destroy(true)];
    assert es[..0] == [];
    var s := Run(Init<int>(1, 1), es);
    assert s.workers[0].Ready?;
    SecondDestroyBlocks(s, true, fs);
  }

  lemma {:induction false} ExitedForever<T>(s: State<T>, fs: seq<Event<T>>, i: nat)
    requires i < |s.workers|
    ensures |Run(s, fs).workers| == |s.workers|
    ensures s.workers[i].Exited? ==> Run(s, fs).workers[i].Exited?
  {
    hide Step;
    if fs != [] {
      ExitedForever(s, fs[..|fs| - 1], i);
      StepIsFinal(Run(s, fs[..|fs| - 1]), fs[|fs| - 1], i);
    }
  }
}
