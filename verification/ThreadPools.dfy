/** The pool of Examples/Ver0.1/threadpool.cpp on its ring buffer, refining the state machine. */
module ThreadPools {
  import M = ThreadPoolModel
  import CInt

  const MAX_THREADS := 1024
  const MAX_QUEUE := 65535
  const THREADPOOL_GRACEFUL := 1
  const IMMEDIATE_SHUTDOWN := 1
  const GRACEFUL_SHUTDOWN := 2

  /** The index `i` places behind `head` in a ring of `n` slots. */
  ghost function Place(head: nat, i: nat, n: nat): nat
    requires n > 0
  {
    (head + i) % n
  }

  /** The `count` tasks that start at `head` in a ring of slots. */
  ghost function Ring<T>(slots: seq<T>, head: nat, count: nat): (r: seq<T>)
    requires head < |slots| && count <= |slots|
    ensures |r| == count
  {
    seq(count, i requires 0 <= i < count => slots[Place(head, i, |slots|)])
  }

  lemma Wraps(head: nat, i: nat, n: nat)
    requires head < n && i <= n
    ensures Place(head, i, n) == (if head + i < n then head + i else head + i - n)
  {
    if head + i < n {
      CInt.DivUnique(head + i, n, 0, head + i);
    } else if head + i < 2 * n {
      CInt.DivUnique(head + i, n, 1, head + i - n);
    }
  }

  lemma AllWrap(head: nat, n: nat)
    requires head < n
    ensures forall i: nat :: i <= n ==> Place(head, i, n) == (if head + i < n then head + i else head + i - n)
  {
    forall i: nat | i <= n ensures Place(head, i, n) == (if head + i < n then head + i else head + i - n) {
      Wraps(head, i, n);
    }
  }

  /** Writing behind the last task appends it, and touches no other. */
  lemma RingPush<T>(slots: seq<T>, head: nat, count: nat, task: T)
    requires head < |slots| && count < |slots|
    ensures Place(head, count, |slots|) < |slots|
    ensures Ring(slots[Place(head, count, |slots|) := task], head, count + 1) == Ring(slots, head, count) + [task]
  {
    hide Place;
    AllWrap(head, |slots|);
  }

  /** Advancing the head drops the first task. */
  lemma RingPop<T>(slots: seq<T>, head: nat, count: nat)
    requires head < |slots| && 0 < count <= |slots|
    ensures Place(head, 1, |slots|) < |slots|
    ensures slots[head] == Ring(slots, head, count)[0]
    ensures Ring(slots, Place(head, 1, |slots|), count - 1) == Ring(slots, head, count)[1..]
  {
    hide Place;
    AllWrap(head, |slots|);
    AllWrap(Place(head, 1, |slots|), |slots|);
  }

  lemma TailAfterPop(head: nat, count: nat, n: nat)
    requires head < n && 0 < count <= n
    ensures Place(Place(head, 1, n), count - 1, n) == Place(head, count, n)
  {
    Wraps(head, 1, n);
    Wraps(Place(head, 1, n), count - 1, n);
    Wraps(head, count, n);
  }

  lemma TailAfterPush(head: nat, count: nat, n: nat)
    requires head < n && count < n
    ensures Place(Place(head, count, n), 1, n) == Place(head, count + 1, n)
  {
    Wraps(head, count, n);
    Wraps(Place(head, count, n), 1, n);
    Wraps(head, count + 1, n);
  }

  /** `threadpool_t`; the workers are threads of their own, of which the model keeps where they are. */
  class ThreadPool<T(0)> {
    const queue: array<T>
    var head: nat
    var tail: nat
    var count: nat
    var shutdown: int
    var workers: seq<M.Worker<T>>
    var locked: bool  // the mutex has been left locked for good

    ghost var accepted: seq<T>
    ghost var dequeued: seq<T>
    ghost var finished: seq<T>

    ghost predicate Valid()
      reads this
    {
      && 0 < queue.Length && head < queue.Length && count <= queue.Length
      && tail == Place(head, count, queue.Length)
      && shutdown in {0, IMMEDIATE_SHUTDOWN, GRACEFUL_SHUTDOWN}
    }

    ghost function View(): M.State<T>
      requires Valid()
      reads this, queue
    {
      M.State(queue.Length, Ring(queue[..], head, count),
              if shutdown == 0 then M.Open else if shutdown == IMMEDIATE_SHUTDOWN then M.Immediate else M.Graceful,
              workers, locked, accepted, dequeued, finished)
    }

    constructor (threadCount: nat, queueSize: nat)
      requires 0 < threadCount <= MAX_THREADS && 0 < queueSize <= MAX_QUEUE
      ensures Valid() && fresh(queue) && View() == M.Init(threadCount, queueSize)
    {
      queue := new T[queueSize];
      head, tail, count, shutdown, locked := 0, 0, 0, 0, false;
      workers := seq(threadCount, i => M.Ready);
      accepted, dequeued, finished := [], [], [];
    }

    /**
     * `threadpool_create`: null for sizes out of bounds, or if the mutex, the condition variable or a thread cannot be
     * made; `made` counts the threads the system grants. A pool that is short of a thread is not handed out.
     */
    static method Create(threadCount: int, queueSize: int, locks: bool, made: nat) returns (pool: ThreadPool?<T>)
      ensures pool == null <==> threadCount <= 0 || threadCount > 1024 || queueSize <= 0 || queueSize > 65535
                                || !locks || made < threadCount
      ensures pool != null ==>
                pool.Valid() && fresh(pool) && fresh(pool.queue) && pool.View() == M.Init(threadCount, queueSize)
    {
      if threadCount <= 0 || threadCount > MAX_THREADS || queueSize <= 0 || queueSize > MAX_QUEUE {
        return null;
      }
      if !locks {
        return null;
      }
      var started := 0;
      while started < threadCount
        invariant started <= threadCount && started <= made
      {
        if started == made {
          return null;
        }
        started := started + 1;
      }
      pool := new ThreadPool(threadCount, queueSize);
    }

    /** `threadpool_add`; the condition variable picks the worker to wake by `choice`. */
    method Add(task: T, choice: nat) returns (err: int)
      requires Valid() && !locked
      modifies this, queue
      ensures Valid()
      ensures err == if old(count) == queue.Length then -3 else if old(shutdown) != 0 then -4 else 0
      ensures err == M.AddResult(old(View()))
      ensures View() == M.Step(old(View()), M.Add(task, choice))
    {
      err := 0;
      var next := (tail + 1) % queue.Length;
      if count == queue.Length {
        err := M.THREADPOOL_QUEUE_FULL;
      } else if shutdown != 0 {
        err := M.THREADPOOL_SHUTDOWN;
      } else {
        RingPush(queue[..], head, count, task);
        TailAfterPush(head, count, queue.Length);
        assert queue[..][tail := task] == queue[..tail] + [task] + queue[tail + 1..];
        queue[tail] := task;
        tail := next;
        count := count + 1;
        workers := M.Signal(workers, choice);
        accepted := accepted + [task];
      }
    }

    /** One turn of `threadpool_thread`: from taking the mutex to the wait, the exit or the task; or its return. */
    method WorkerStep(i: nat)
      requires Valid() && i < |workers|
      modifies this
      ensures Valid()
      ensures View() == M.Step(old(View()), M.WorkerStep(i))
    {
      match workers[i] {
        case Asleep =>
        case Exited =>
        case Running(task) =>
          workers := workers[i := M.Ready];
          finished := finished + [task];
        case Ready =>
          if locked {
            return;
          }
          if count == 0 && shutdown == 0 {
            workers := workers[i := M.Asleep];
          } else if shutdown == IMMEDIATE_SHUTDOWN || (shutdown == GRACEFUL_SHUTDOWN && count == 0) {
            workers := workers[i := M.Exited];
          } else {
            RingPop(queue[..], head, count);
            TailAfterPop(head, count, queue.Length);
            var task := queue[head];
            head := (head + 1) % queue.Length;
            count := count - 1;
            workers := workers[i := M.Running(task)];
            dequeued := dequeued + [task];
          }
      }
    }

    /** `threadpool_destroy` up to the joins. A repeated call leaves without unlocking the mutex. */
    method Destroy(flags: bv32) returns (err: int)
      requires Valid() && !locked
      modifies this
      ensures Valid()
      ensures err == if old(shutdown) != 0 then -4 else 0
      ensures shutdown == if old(shutdown) != 0 then old(shutdown)
                          else if flags & 1 != 0 then GRACEFUL_SHUTDOWN else IMMEDIATE_SHUTDOWN
      ensures View() == M.Step(old(View()), M.Destroy(flags & 1 != 0))
    {
      if shutdown != 0 {
        locked := true;
        return M.THREADPOOL_SHUTDOWN;
      }
      shutdown := if flags & 1 != 0 then GRACEFUL_SHUTDOWN else IMMEDIATE_SHUTDOWN;
      workers := M.Broadcast(workers);
      err := 0;
    }

    method SpuriousWakeUp(i: nat)
      requires Valid()
      modifies this`workers
      ensures Valid()
      ensures View() == M.Step(old(View()), M.Spurious(i))
    {
      workers := M.Wake(workers, i);
    }
  }
}
