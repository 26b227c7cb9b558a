/** The player's worker pool: a bounded circular queue of tasks shared by
    the worker threads under one mutex.  Threads are not modelled: every
    critical section (admitting a task, one worker iteration, the
    shutdown transition) is one atomic method on the pool. */
module ThreadPool {

  const MaxThreads := 100
  const MaxQueue := 1024

  // Error codes, all distinct and negative; success is 0.
  const Invalid := -1
  const LockFailure := -2
  const QueueFull := -3
  const ShuttingDown := -4
  const ThreadFailure := -5

  // Shutdown modes; 0 means the pool is running.
  const ImmediateShutdown := 1
  const LeisurelyShutdown := 2

  /** An opaque pointer: a function or an argument.  0 is NULL. */
  type Handle = nat
  const Null: Handle := 0

  /** A task: the function to run and the two arguments handed to it. */
  datatype Task = Task(run: Handle, inArg: Handle, outArg: Handle)

  /** A zero-filled queue slot. */
  const NoTask := Task(Null, Null, Null)

  /** One step of wrap-around: an index at or past the end of a queue of
      `size` slots moves back by the size. */
  function Wrap(x: int, size: int): int {
    if x < size then x else x - size
  }

  /** The size a queue grows to: twice the old size, capped at MaxQueue. */
  function GrownSize(size: nat): nat {
    if size * 2 > MaxQueue then MaxQueue else size * 2
  }

  /** The shape of a circular queue of `size` slots: the head indexes the
      first pending task, the tail the next free slot, `pending` tasks
      lie between them. */
  predicate RingShape(size: nat, head: nat, tail: nat, pending: nat)
  {
    && 0 < size
    && head < size && tail < size
    && pending <= size
    && tail == Wrap(head + pending, size)
  }

  /** The `count` tasks stored from slot `head` on, wrapping at the end. */
  ghost function RingOf(slots: seq<Task>, head: nat, count: nat): (r: seq<Task>)
    requires head < |slots| && count <= |slots|
    ensures |r| == count
  {
    seq(count, i requires 0 <= i < count => slots[Wrap(head + i, |slots|)])
  }

  /** Storing a task at the tail of a ring that is not full appends it. */
  lemma RingSnoc(slots: seq<Task>, head: nat, count: nat, t: Task)
    requires head < |slots| && count < |slots|
    ensures RingOf(slots[Wrap(head + count, |slots|) := t], head, count + 1) == RingOf(slots, head, count) + [t]
  {
    var after := slots[Wrap(head + count, |slots|) := t];
    var grown, old_ := RingOf(after, head, count + 1), RingOf(slots, head, count) + [t];
    forall i | 0 <= i <= count
      ensures grown[i] == old_[i]
    {
      if i < count {
        assert Wrap(head + i, |slots|) != Wrap(head + count, |slots|);
      }
    }
  }

  /** The C remainder of a value below twice the modulus is one step of
      wrap-around. */
  lemma ModOnce(x: nat, n: nat)
    requires 0 < n && x < 2 * n
    ensures x % n == Wrap(x, n)
  {
    if x >= n {
      assert x == (x - n) + n;
    }
  }

  /** Taking the task at the head drops the first pending task. */
  lemma RingTail(slots: seq<Task>, head: nat, count: nat)
    requires head < |slots| && 0 < count <= |slots|
    ensures 0 <= Wrap(head + 1, |slots|) < |slots|
    ensures RingOf(slots, Wrap(head + 1, |slots|), count - 1) == RingOf(slots, head, count)[1..]
  {
    var next := Wrap(head + 1, |slots|);
    var rest, whole := RingOf(slots, next, count - 1), RingOf(slots, head, count);
    forall i | 0 <= i < count - 1
      ensures rest[i] == whole[i + 1]
    {
      assert Wrap(next + i, |slots|) == Wrap(head + (i + 1), |slots|);
    }
  }

  /** Tasks stored in order from slot 0 form the ring from head 0. */
  lemma RingFromStart(slots: seq<Task>, count: nat, tasks: seq<Task>)
    requires 0 < |slots| && count <= |slots| && |tasks| == count && slots[..count] == tasks
    ensures RingOf(slots, 0, count) == tasks
  {
    forall i | 0 <= i < count
      ensures RingOf(slots, 0, count)[i] == tasks[i]
    {
      assert Wrap(0 + i, |slots|) == i;
    }
  }

  /** Whether a worker that woke up leaves its loop: on an immediate
      shutdown, or on any other shutdown once the queue is empty. */
  predicate Exits(shutdown: int, pending: nat)
  {
    shutdown == ImmediateShutdown || (shutdown != 0 && pending == 0)
  }

  /** The exit test as the worker loop writes it: only the leisurely mode
      waits for the queue to drain. */
  predicate ExitsAsWritten(shutdown: int, pending: nat): (r: bool)
    ensures r ==> Exits(shutdown, pending)
  {
    shutdown == ImmediateShutdown || (shutdown == LeisurelyShutdown && pending == 0)
  }

  /** The two exit tests agree on the running state and both shutdown
      modes, and a worker that stays in its loop under the corrected test
      always finds a task. */
  lemma ExitsAgree(shutdown: int, pending: nat)
    requires pending > 0 || shutdown != 0
    ensures shutdown in {0, ImmediateShutdown, LeisurelyShutdown} ==>
      (Exits(shutdown, pending) <==> ExitsAsWritten(shutdown, pending))
    ensures !Exits(shutdown, pending) ==> pending > 0
  {
  }

  /** A shutdown mode other than the two named ones (the destroy call
      stores its `flags` argument verbatim) wakes a worker on an empty
      queue, and the as-written test keeps it in the loop: it dequeues
      from an empty queue. */
  lemma WorkerDequeuesFromEmpty()
    ensures var shutdown, pending := 3, 0;
      && (pending > 0 || shutdown != 0)
      && !ExitsAsWritten(shutdown, pending)
      && Exits(shutdown, pending)
  {
  }

  /** A view of the queue as values: slots, head, tail, pending count. */
  datatype Queue = Queue(slots: seq<Task>, head: nat, tail: nat, pending: nat)
  {
    ghost predicate Ordered()
    {
      RingShape(|slots|, head, tail, pending)
    }

    ghost function Pending(): (r: seq<Task>)
      requires Ordered()
      ensures |r| == pending
    {
      RingOf(slots, head, pending)
    }
  }

  /** Admission as written when the queue grows: realloc keeps every slot
      where it was and appends uninitialised ones (`spare`), and the task
      is stored at the unchanged tail, which then advances modulo the new
      size. */
  function AddGrownAsWritten(q: Queue, newSize: nat, spare: Task, t: Task): (r: Queue)
    requires q.tail < |q.slots| <= newSize
    ensures |r.slots| == newSize && r.head == q.head && r.pending == q.pending + 1
    ensures r.slots[q.tail] == t
  {
    var grown := q.slots + seq(newSize - |q.slots|, _ => spare);
    Queue(grown[q.tail := t], q.head, (q.tail + 1) % newSize, q.pending + 1)
  }

  /** When growth fires on a queue whose head is not past its tail, the
      as-written admission still appends in order. */
  lemma GrownAsWrittenInOrder(q: Queue, newSize: nat, spare: Task, t: Task)
    requires q.Ordered() && q.pending == |q.slots| - 1 && |q.slots| < newSize
    requires q.head <= q.tail
    ensures AddGrownAsWritten(q, newSize, spare, t).Ordered()
    ensures AddGrownAsWritten(q, newSize, spare, t).Pending() == q.Pending() + [t]
  {
    var n := |q.slots|;
    var r := AddGrownAsWritten(q, newSize, spare, t);
    assert q.head == 0 && q.tail == n - 1;
    ModOnce(q.tail + 1, newSize);
    assert r.Ordered();
    var after, before := r.Pending(), q.Pending() + [t];
    forall i | 0 <= i < |after|
      ensures after[i] == before[i]
    {
      assert Wrap(0 + i, newSize) == i;
      if i < q.pending {
        assert Wrap(0 + i, n) == i;
      }
    }
  }

  /** When growth fires on a queue that has wrapped (head past tail), the
      as-written admission loses the queue order: two slots, head 1 and
      tail 0, grow to four; the new task lands in slot 0, but the ring
      from slot 1 reads the uninitialised slot 2 next. */
  lemma GrownAsWrittenLosesOrder()
    ensures var a, b, x := Task(1, 0, 0), Task(2, 0, 0), Task(3, 0, 0);
      var q := Queue([a, a], 1, 0, 1);
      var r := AddGrownAsWritten(q, 4, NoTask, b);
      && q.Ordered() && q.pending == |q.slots| - 1 && q.head > q.tail
      && !r.Ordered()
      && RingOf(r.slots, r.head, r.pending) != q.Pending() + [b]
  {
    var a, b := Task(1, 0, 0), Task(2, 0, 0);
    var q := Queue([a, a], 1, 0, 1);
    var r := AddGrownAsWritten(q, 4, NoTask, b);
    assert r.slots == [b, a, NoTask, NoTask];
    assert r.tail == 1 && Wrap(1 + 2, 4) == 3;
    assert Wrap(1 + 1, 4) == 2;
    assert RingOf(r.slots, r.head, r.pending)[1] == NoTask != b;
  }

  /** The pool context.  `queue` is the slot array (its length is the
      queue size), `started` counts the workers still in their loop. */
  class Pool {
    var queue: array<Task>
    var threadCount: nat
    var queueSize: nat
    var head: nat
    var tail: nat
    var pending: nat
    var shutdown: int
    var started: nat

    ghost predicate Valid()
      reads this
    {
      && queue.Length == queueSize <= MaxQueue
      && RingShape(queueSize, head, tail, pending)
      && started <= threadCount <= MaxThreads
    }

    /** The pending tasks, oldest first. */
    ghost function Pending(): (r: seq<Task>)
      reads this, queue
      requires Valid()
      ensures |r| == pending
    {
      RingOf(queue[..], head, pending)
    }

    /** The zero-filled context of threadpool_create with its queue. */
    constructor (size: nat)
      requires 0 < size <= MaxQueue
      ensures Valid() && Pending() == [] && fresh(queue)
      ensures queueSize == size && threadCount == 0 && started == 0 && shutdown == 0
      ensures head == 0 && tail == 0
    {
      queue := new Task[size](_ => NoTask);
      queueSize := size;
      threadCount, head, tail, pending, shutdown, started := 0, 0, 0, 0, 0, 0;
    }

    /** Reallocate the queue to `newSize` slots, moving the pending tasks
        to the front in order. */
    method Regrow(newSize: nat)
      requires Valid() && pending < newSize <= MaxQueue
      modifies this
      ensures Valid() && fresh(queue) && queueSize == newSize
      ensures head == 0 && tail == pending && pending == old(pending)
      ensures Pending() == old(Pending())
      ensures threadCount == old(threadCount) && shutdown == old(shutdown) && started == old(started)
    {
      ghost var tasks := Pending();
      var slots := new Task[newSize](_ => NoTask);
      var i := 0;
      while i < pending
        invariant i <= pending && slots[..i] == tasks[..i]
        modifies slots
      {
        slots[i] := queue[Wrap(head + i, queueSize)];
        i := i + 1;
      }
      assert slots[..pending] == tasks;
      RingFromStart(slots[..], pending, tasks);
      queue, queueSize, head, tail := slots, newSize, 0, pending;
    }

    /** threadpool_add, with growth that keeps the queue in order.  The
        mutex and signal outcomes are the boolean parameters; `reallocOk`
        says whether the reallocation succeeds. */
    method Add(task: Task, lockOk: bool, reallocOk: bool, signalOk: bool, unlockOk: bool) returns (err: int)
      requires Valid()
      modifies this, queue
      ensures Valid()
      ensures threadCount == old(threadCount) && shutdown == old(shutdown) && started == old(started)
      ensures err in {0, Invalid, LockFailure, QueueFull, ShuttingDown}
      ensures task.run == Null ==> err == Invalid
      ensures task.run != Null && !lockOk ==> err == LockFailure
      ensures task.run != Null && lockOk && (old(pending) == MaxQueue || old(pending) == old(queueSize)) ==> err == QueueFull
      ensures err in {Invalid, QueueFull} || (err == LockFailure && !lockOk) ==>
        unchanged(this) && Pending() == old(Pending())
      ensures queueSize == old(queueSize) || (queueSize == GrownSize(old(queueSize)) && fresh(queue))
      ensures task.run != Null && lockOk && old(pending) < old(queueSize) ==>
        (queue != old(queue) <==> old(pending) == old(queueSize) - 1 && reallocOk)
      ensures task.run != Null && lockOk && old(pending) < old(queueSize) && old(shutdown) != 0 ==>
        err == (if unlockOk then ShuttingDown else LockFailure) && Pending() == old(Pending())
      ensures task.run != Null && lockOk && old(pending) < old(queueSize) && old(shutdown) == 0 ==>
        err == (if signalOk && unlockOk then 0 else LockFailure) && Pending() == old(Pending()) + [task]
      ensures err == 0 ==> Pending() == old(Pending()) + [task]
    {
      if task.run == Null {
        return Invalid;
      }
      if !lockOk {
        return LockFailure;
      }
      if pending == MaxQueue || pending == queueSize {
        return QueueFull;
      }
      GrowIfNearlyFull(reallocOk);
      err := 0;
      if shutdown != 0 {
        err := ShuttingDown;
      } else {
        Enqueue(task);
        if !signalOk {
          err := LockFailure;
        }
      }
      if !unlockOk {
        err := LockFailure;
      }
    }

    /** The growth step of threadpool_add: with one free slot left, the
        queue is reallocated to twice its size, capped at MaxQueue.  The
        pending tasks move to the front so that the queue stays in order
        (see GrownAsWrittenLosesOrder for the slot-preserving growth). */
    method GrowIfNearlyFull(reallocOk: bool)
      requires Valid() && pending < queueSize
      modifies this
      ensures Valid() && Pending() == old(Pending()) && pending == old(pending) < queueSize
      ensures threadCount == old(threadCount) && shutdown == old(shutdown) && started == old(started)
      ensures old(pending) == old(queueSize) - 1 && reallocOk ==>
        fresh(queue) && queueSize == GrownSize(old(queueSize)) && head == 0 && tail == pending
      ensures !(old(pending) == old(queueSize) - 1 && reallocOk) ==> unchanged(this)
    {
      if pending == queueSize - 1 {
        var newSize := GrownSize(queueSize);
        if reallocOk {
          Regrow(newSize);
        }
      }
    }

    /** Store a task at the tail of a queue that is not full. */
    method Enqueue(task: Task)
      requires Valid() && pending < queueSize
      modifies this, queue
      ensures Valid() && Pending() == old(Pending()) + [task]
      ensures queue == old(queue) && queueSize == old(queueSize) && head == old(head)
      ensures tail == (old(tail) + 1) % queueSize && pending == old(pending) + 1
      ensures threadCount == old(threadCount) && shutdown == old(shutdown) && started == old(started)
    {
      RingSnoc(queue[..], head, pending, task);
      queue[tail] := task;
      ModOnce(tail + 1, queueSize);
      tail := (tail + 1) % queueSize;
      pending := pending + 1;
    }

    /** One iteration of the worker loop after its wait: the worker has
        been woken because a task is pending or the pool is shutting
        down.  It either leaves (and stops counting as started) or takes
        the task at the head. */
    method WorkerStep() returns (exited: bool, task: Task)
      requires Valid() && started > 0 && (pending > 0 || shutdown != 0)
      modifies this
      ensures Valid()
      ensures queue == old(queue) && queueSize == old(queueSize) && tail == old(tail)
      ensures shutdown == old(shutdown) && threadCount == old(threadCount)
      ensures exited <==> Exits(old(shutdown), old(pending))
      ensures exited ==> started == old(started) - 1 && head == old(head) && Pending() == old(Pending())
      ensures !exited ==> started == old(started) && old(pending) > 0
      ensures !exited ==> task == old(Pending())[0] && Pending() == old(Pending())[1..]
      ensures !exited ==> head == (old(head) + 1) % queueSize && pending == old(pending) - 1
    {
      if Exits(shutdown, pending) {
        started := started - 1;
        return true, NoTask;
      }
      task := queue[head];
      assert Wrap(head + 0, queueSize) == head;
      RingTail(queue[..], head, pending);
      ModOnce(head + 1, queueSize);
      head := (head + 1) % queueSize;
      pending := pending - 1;
      exited := false;
    }

    /** The critical section of threadpool_destroy: refuse when already
        shutting down, else store `flags` as the shutdown mode and wake
        the workers. */
    method BeginShutdown(flags: int, lockOk: bool, wakeOk: bool) returns (err: int)
      requires Valid()
      modifies this
      ensures Valid() && queue == old(queue) && Pending() == old(Pending())
      ensures queueSize == old(queueSize) && head == old(head) && tail == old(tail)
      ensures started == old(started) && threadCount == old(threadCount)
      ensures err in {0, LockFailure, ShuttingDown}
      ensures !lockOk ==> err == LockFailure && shutdown == old(shutdown)
      ensures lockOk && old(shutdown) != 0 ==> err == ShuttingDown && shutdown == old(shutdown)
      ensures lockOk && old(shutdown) == 0 ==> shutdown == flags && err == (if wakeOk then 0 else LockFailure)
    {
      if !lockOk {
        return LockFailure;
      }
      if shutdown != 0 {
        return ShuttingDown;
      }
      shutdown := flags;
      err := if wakeOk then 0 else LockFailure;
    }

    /** threadpool_destroy.  The joins wait for every worker to leave
        its loop; they are modelled by JoinWorkers, which runs the
        workers' remaining iterations and returns the tasks they take in
        `ran`.  `joinOk` says whether every join succeeds.  With `flags`
        0 no worker ever leaves and the joins would block; the model
        then runs no worker. */
    method Destroy(flags: int, lockOk: bool, wakeOk: bool, joinOk: bool) returns (err: int, ran: seq<Task>)
      requires Valid()
      modifies this
      ensures Valid() && queue == old(queue) && threadCount == old(threadCount)
      ensures err in {0, -1, LockFailure, ShuttingDown, ThreadFailure}
      ensures ran + Pending() == old(Pending())
      ensures !lockOk || old(shutdown) != 0 ==> shutdown == old(shutdown) && ran == [] && started == old(started)
      ensures !lockOk ==> err == LockFailure
      ensures lockOk && old(shutdown) != 0 ==> err == ShuttingDown
      ensures lockOk && old(shutdown) == 0 ==> shutdown == flags
      ensures lockOk && old(shutdown) == 0 && !wakeOk ==> err == LockFailure && ran == []
      ensures lockOk && old(shutdown) == 0 && wakeOk && flags != 0 ==>
        started == 0 && err == (if joinOk then 0 else ThreadFailure)
      ensures lockOk && old(shutdown) == 0 && wakeOk && flags == ImmediateShutdown ==> ran == []
      ensures lockOk && old(shutdown) == 0 && wakeOk && flags != 0 && flags != ImmediateShutdown && old(started) > 0 ==>
        ran == old(Pending()) && Pending() == []
      ensures lockOk && old(shutdown) == 0 && wakeOk && flags == 0 ==>
        ran == [] && started == old(started) &&
        err == (if !joinOk then ThreadFailure else if old(started) > 0 then -1 else 0)
    {
      ran := [];
      err := BeginShutdown(flags, lockOk, wakeOk);
      if err != 0 {
        return;
      }
      if shutdown != 0 {
        ran := JoinWorkers();
      }
      if !joinOk {
        err := ThreadFailure;
      } else {
        err := Free(this);
      }
    }

    /** The workers' remaining loop iterations once the pool is shutting
        down, run until every worker has left: an immediate shutdown
        leaves the queue as it is, any other drains it in order first
        (as long as there is a worker to do so). */
    method JoinWorkers() returns (ran: seq<Task>)
      requires Valid() && shutdown != 0
      modifies this
      ensures Valid() && queue == old(queue) && threadCount == old(threadCount) && shutdown == old(shutdown)
      ensures started == 0
      ensures ran + Pending() == old(Pending())
      ensures shutdown == ImmediateShutdown ==> ran == []
      ensures shutdown != ImmediateShutdown && old(started) > 0 ==> Pending() == []
    {
      ghost var tasks, workers := Pending(), started;
      ran := [];
      while started > 0
        invariant Valid() && queue == old(queue) && threadCount == old(threadCount) && shutdown == old(shutdown)
        invariant started <= workers && ran + Pending() == tasks
        invariant shutdown == ImmediateShutdown ==> ran == []
        invariant shutdown != ImmediateShutdown && started < workers ==> pending == 0
        decreases started, pending
      {
        ran := JoinStep(tasks, workers, ran);
      }
    }

    /** One worker iteration during JoinWorkers: the worker either leaves
        or takes the next task, which is appended to `ran`. */
    method JoinStep(ghost tasks: seq<Task>, ghost workers: nat, ran: seq<Task>) returns (ran': seq<Task>)
      requires Valid() && shutdown != 0 && 0 < started <= workers
      requires ran + Pending() == tasks
      requires shutdown == ImmediateShutdown ==> ran == []
      requires shutdown != ImmediateShutdown && started < workers ==> pending == 0
      modifies this
      ensures Valid() && queue == old(queue) && threadCount == old(threadCount) && shutdown == old(shutdown)
      ensures started <= workers && ran' + Pending() == tasks
      ensures shutdown == ImmediateShutdown ==> ran' == []
      ensures shutdown != ImmediateShutdown && started < workers ==> pending == 0
      ensures started < old(started) || (started == old(started) && pending < old(pending))
    {
      ghost var before := Pending();
      var exited, task := WorkerStep();
      if exited {
        ran' := ran;
      } else {
        assert before == [task] + Pending();
        ran' := ran + [task];
      }
    }
  }

  /** threadpool_free's guard: a missing pool, or one whose workers are
      still running, is not freed. */
  method Free(ctx: Pool?) returns (r: int)
    ensures r == 0 || r == -1
    ensures r == -1 <==> ctx == null || ctx.started > 0
  {
    if ctx == null || ctx.started > 0 {
      return -1;
    }
    return 0;
  }

  /** threadpool_create: check the parameters, allocate the context and
      queue (`allocOk`), then start the workers; only the first `spawnable`
      thread starts succeed.  A failed start is cleaned up by `RollBack`. */
  method Create(threadCount: int, queueSize: int, allocOk: bool, spawnable: nat) returns (ctx: Pool?)
    ensures ctx != null <==>
      && 0 < threadCount <= MaxThreads && 0 < queueSize <= MaxQueue
      && allocOk && threadCount <= spawnable
    ensures ctx != null ==> fresh(ctx) && ctx.Valid() && ctx.Pending() == []
    ensures ctx != null ==> ctx.queueSize == queueSize && ctx.threadCount == threadCount
    ensures ctx != null ==> ctx.started == threadCount && ctx.shutdown == 0
  {
    if threadCount <= 0 || threadCount > MaxThreads || queueSize <= 0 || queueSize > MaxQueue {
      return null;
    }
    if !allocOk {
      return null;
    }
    ctx := new Pool(queueSize);
    var i := 0;
    while i < threadCount
      invariant 0 <= i <= threadCount && i <= spawnable && fresh(ctx) && fresh(ctx.queue)
      invariant ctx.Valid() && ctx.Pending() == [] && ctx.queueSize == queueSize
      invariant ctx.threadCount == i && ctx.started == i && ctx.shutdown == 0
    {
      if i >= spawnable {
        var _ := RollBack(ctx);
        return null;
      }
      ctx.threadCount := ctx.threadCount + 1;
      ctx.started := ctx.started + 1;
      i := i + 1;
    }
  }

  /** The clean-up after a failed thread start, with the shutdown mode
      corrected to an immediate one: the workers already started leave
      their loops and are joined, and the pool is freed.  The source
      passes mode 0, under which they never leave (`DestroyZeroKeepsRunning`). */
  method RollBack(ctx: Pool) returns (err: int)
    requires ctx.Valid() && ctx.shutdown == 0
    modifies ctx
    ensures ctx.Valid() && ctx.started == 0 && ctx.shutdown == ImmediateShutdown
    ensures err == 0
  {
    var ran;
    err, ran := ctx.Destroy(ImmediateShutdown, true, true, true);
  }

  /** Destroying with `flags` 0, as threadpool_create does after a failed
      thread start, leaves the pool running: no woken worker leaves its
      loop, so it waits for tasks again. */
  lemma DestroyZeroKeepsRunning(pending: nat)
    ensures !Exits(0, pending) && !ExitsAsWritten(0, pending)
  {
  }
}
