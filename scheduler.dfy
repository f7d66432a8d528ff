/** The scheduler of pulse/state.ts: three deduplicating task tiers drained
    together, micro tier first, by one drain callback armed on the host's
    microtask queue. The microtask hop is the explicit method `Drain`, and
    what a task does when it runs is given by an `effect` parameter: the
    scheduling calls it makes and whether it then throws. */
module Scheduling {
  import opened Common

  /** A unit of deferred work, identified by reference identity. */
  datatype Task = Task(id: nat)

  datatype Tier = Micro | Normal | Batch

  /** One call `scheduleMicro(task)`, `schedule(task)` or
      `scheduleBatch(task)`. */
  datatype Request = Request(tier: Tier, task: Task)

  /** What a task does when the drain runs it: the scheduling calls it makes,
      in order, and whether it then throws. */
  datatype Effect = Effect(requests: seq<Request>, throws: bool)

  /** The contents of the three task sets, each in insertion order. */
  datatype Tiers = Tiers(micro: seq<Task>, normal: seq<Task>, batch: seq<Task>)

  const NoTasks := Tiers([], [], [])

  predicate WellFormed(ts: Tiers)
  {
    Distinct(ts.micro) && Distinct(ts.normal) && Distinct(ts.batch)
  }

  /** The order in which one drain runs the tasks it snapshots. */
  function DrainOrder(ts: Tiers): seq<Task>
  {
    ts.micro + ts.normal + ts.batch
  }

  /** Adding a task to its tier's set. */
  function Enqueue(ts: Tiers, r: Request): (ts': Tiers)
    ensures WellFormed(ts) ==> WellFormed(ts')
    ensures r.tier == Micro ==> ts'.normal == ts.normal && ts'.batch == ts.batch && r.task in ts'.micro
    ensures r.tier == Normal ==> ts'.micro == ts.micro && ts'.batch == ts.batch && r.task in ts'.normal
    ensures r.tier == Batch ==> ts'.micro == ts.micro && ts'.normal == ts.normal && r.task in ts'.batch
  {
    match r.tier
    case Micro => ts.(micro := SetAdd(ts.micro, r.task))
    case Normal => ts.(normal := SetAdd(ts.normal, r.task))
    case Batch => ts.(batch := SetAdd(ts.batch, r.task))
  }

  /** The tiers after the requests `rs` are made one after another. */
  function EnqueueAll(ts: Tiers, rs: seq<Request>): Tiers
    decreases |rs|
  {
    if rs == [] then ts else Enqueue(EnqueueAll(ts, rs[..|rs| - 1]), rs[|rs| - 1])
  }

  /** Every scheduling call made by running `tasks` in order. */
  function RequestsOf(tasks: seq<Task>, effect: Task -> Effect): seq<Request>
    decreases |tasks|
  {
    if tasks == [] then []
    else RequestsOf(tasks[..|tasks| - 1], effect) + effect(tasks[|tasks| - 1]).requests
  }

  /** The tasks among `tasks` whose exception the drain catches, in order. */
  function Failures(tasks: seq<Task>, effect: Task -> Effect): (r: seq<Task>)
    decreases |tasks|
  {
    if tasks == [] then []
    else
      var last := tasks[|tasks| - 1];
      Failures(tasks[..|tasks| - 1], effect) + (if effect(last).throws then [last] else [])
  }

  /** Each tier is a set: the tiers stay duplicate-free whatever is scheduled. */
  lemma {:induction false} EnqueueAllWellFormed(ts: Tiers, rs: seq<Request>)
    requires WellFormed(ts)
    ensures WellFormed(EnqueueAll(ts, rs))
    decreases |rs|
  {
    if rs != [] {
      EnqueueAllWellFormed(ts, rs[..|rs| - 1]);
    }
  }

  /** Scheduling the same task twice into the same tier before a drain leaves
      one copy of it. */
  lemma ScheduleTwiceKeepsOneCopy(ts: Tiers, r: Request)
    ensures Enqueue(Enqueue(ts, r), r) == Enqueue(ts, r)
  {
  }

  /** Making the requests `a` and then the requests `b`. */
  lemma {:induction false} EnqueueAllConcat(ts: Tiers, a: seq<Request>, b: seq<Request>)
    ensures EnqueueAll(ts, a + b) == EnqueueAll(EnqueueAll(ts, a), b)
    decreases |b|
  {
    if b == [] {
      assert a + b == a;
    } else {
      assert (a + b)[..|a + b| - 1] == a + b[..|b| - 1];
      EnqueueAllConcat(ts, a, b[..|b| - 1]);
    }
  }

  lemma {:induction false} RequestsOfConcat(a: seq<Task>, b: seq<Task>, effect: Task -> Effect)
    ensures RequestsOf(a + b, effect) == RequestsOf(a, effect) + RequestsOf(b, effect)
    decreases |b|
  {
    if b == [] {
      assert a + b == a;
    } else {
      assert (a + b)[..|a + b| - 1] == a + b[..|b| - 1];
      RequestsOfConcat(a, b[..|b| - 1], effect);
    }
  }

  lemma {:induction false} FailuresConcat(a: seq<Task>, b: seq<Task>, effect: Task -> Effect)
    ensures Failures(a + b, effect) == Failures(a, effect) + Failures(b, effect)
    decreases |b|
  {
    if b == [] {
      assert a + b == a;
    } else {
      assert (a + b)[..|a + b| - 1] == a + b[..|b| - 1];
      FailuresConcat(a, b[..|b| - 1], effect);
    }
  }

  /** The bookkeeping of one more step of a drain loop over `tasks`. */
  lemma RunOneMore(tasks: seq<Task>, i: nat, effect: Task -> Effect, ts: Tiers)
    requires i < |tasks|
    ensures tasks[..i + 1] == tasks[..i] + [tasks[i]]
    ensures RequestsOf(tasks[..i + 1], effect) == RequestsOf(tasks[..i], effect) + effect(tasks[i]).requests
    ensures Failures(tasks[..i + 1], effect) == Failures(tasks[..i], effect) + (if effect(tasks[i]).throws then [tasks[i]] else [])
    ensures EnqueueAll(ts, RequestsOf(tasks[..i + 1], effect)) ==
            EnqueueAll(EnqueueAll(ts, RequestsOf(tasks[..i], effect)), effect(tasks[i]).requests)
  {
    assert tasks[..i + 1][..i] == tasks[..i];
    EnqueueAllConcat(ts, RequestsOf(tasks[..i], effect), effect(tasks[i]).requests);
  }

  /** What running the three snapshots one after another adds up to. */
  lemma DrainBookkeeping(m: seq<Task>, t: seq<Task>, b: seq<Task>, effect: Task -> Effect)
    ensures RequestsOf(m + t + b, effect) == RequestsOf(m, effect) + RequestsOf(t, effect) + RequestsOf(b, effect)
    ensures Failures(m + t + b, effect) == Failures(m, effect) + Failures(t, effect) + Failures(b, effect)
    ensures EnqueueAll(NoTasks, RequestsOf(m + t + b, effect)) ==
            EnqueueAll(EnqueueAll(EnqueueAll(NoTasks, RequestsOf(m, effect)), RequestsOf(t, effect)), RequestsOf(b, effect))
  {
    RequestsOfConcat(m, t, effect);
    RequestsOfConcat(m + t, b, effect);
    FailuresConcat(m, t, effect);
    FailuresConcat(m + t, b, effect);
    EnqueueAllConcat(NoTasks, RequestsOf(m, effect), RequestsOf(t, effect));
    EnqueueAllConcat(NoTasks, RequestsOf(m, effect) + RequestsOf(t, effect), RequestsOf(b, effect));
  }

  lemma AppendThree<T>(s: seq<T>, a: seq<T>, b: seq<T>, c: seq<T>)
    ensures s + a + b + c == s + (a + b + c)
  {
  }

  /** A drain runs each task it snapshotted exactly once: the tiers are sets,
      so a task occurs in the drain order once per tier it was scheduled
      into. */
  lemma {:induction false} DrainRunsEachTaskOncePerTier(ts: Tiers, t: Task)
    requires WellFormed(ts)
    ensures multiset(DrainOrder(ts))[t] ==
            (if t in ts.micro then 1 else 0) + (if t in ts.normal then 1 else 0) + (if t in ts.batch then 1 else 0)
  {
    DistinctCount(ts.micro, t);
    DistinctCount(ts.normal, t);
    DistinctCount(ts.batch, t);
  }

  lemma {:induction false} DistinctCount(s: seq<Task>, t: Task)
    requires Distinct(s)
    ensures multiset(s)[t] == if t in s then 1 else 0
    decreases |s|
  {
    if s != [] {
      assert s == [s[0]] + s[1..];
      assert Distinct(s[1..]);
      DistinctCount(s[1..], t);
    }
  }

  class Scheduler {
    var micro: seq<Task>
    var normal: seq<Task>
    var batch: seq<Task>
    var isRunning: bool
    var isScheduled: bool
    /** Drain callbacks waiting in the host's microtask queue. */
    var armed: nat
    /** Every task the scheduler has started, in order. */
    var ran: seq<Task>
    /** Every task whose exception `runTaskSafe` caught, in order. */
    var failed: seq<Task>

    function Pending(): Tiers
      reads this
    {
      Tiers(micro, normal, batch)
    }

    /** The tiers are sets, and at most one drain is armed at a time: exactly
        when `isScheduled` is set. */
    ghost predicate Valid()
      reads this
    {
      WellFormed(Pending()) && armed <= 1 && (isScheduled <==> armed == 1)
    }

    constructor ()
      ensures Valid() && Pending() == NoTasks
      ensures !isRunning && !isScheduled && armed == 0
      ensures ran == [] && failed == []
    {
      micro, normal, batch := [], [], [];
      isRunning, isScheduled := false, false;
      armed := 0;
      ran, failed := [], [];
    }

    method Schedule(task: Task)
      requires Valid()
      modifies this
      ensures Valid() && isScheduled
      ensures Pending() == Enqueue(old(Pending()), Request(Normal, task))
      ensures armed == if old(isScheduled) then old(armed) else old(armed) + 1
      ensures isRunning == old(isRunning) && ran == old(ran) && failed == old(failed)
    {
      normal := SetAdd(normal, task);
      ScheduleRun();
    }

    method ScheduleMicro(task: Task)
      requires Valid()
      modifies this
      ensures Valid() && isScheduled
      ensures Pending() == Enqueue(old(Pending()), Request(Micro, task))
      ensures armed == if old(isScheduled) then old(armed) else old(armed) + 1
      ensures isRunning == old(isRunning) && ran == old(ran) && failed == old(failed)
    {
      micro := SetAdd(micro, task);
      ScheduleRun();
    }

    method ScheduleBatch(task: Task)
      requires Valid()
      modifies this
      ensures Valid() && isScheduled
      ensures Pending() == Enqueue(old(Pending()), Request(Batch, task))
      ensures armed == if old(isScheduled) then old(armed) else old(armed) + 1
      ensures isRunning == old(isRunning) && ran == old(ran) && failed == old(failed)
    {
      batch := SetAdd(batch, task);
      ScheduleRun();
    }

    /** Arms the drain callback unless one is already armed. */
    method ScheduleRun()
      requires armed <= 1 && (isScheduled <==> armed == 1)
      modifies this`isScheduled, this`armed
      ensures isScheduled && armed == 1
      ensures armed == if old(isScheduled) then old(armed) else old(armed) + 1
    {
      if isScheduled {
        return;
      }
      isScheduled := true;
      armed := armed + 1;
    }

    /** The armed callback runs: it clears `isScheduled` and drains. Tasks
        scheduled while the drain runs wait for the next drain, which they
        arm. */
    method Drain(effect: Task -> Effect)
      requires Valid() && armed > 0
      modifies this
      ensures Valid()
      ensures old(isRunning) ==>
        isRunning && !isScheduled && Pending() == old(Pending()) && ran == old(ran) && failed == old(failed)
      ensures !old(isRunning) ==>
        var order := DrainOrder(old(Pending()));
        !isRunning &&
        ran == old(ran) + order &&
        failed == old(failed) + Failures(order, effect) &&
        Pending() == EnqueueAll(NoTasks, RequestsOf(order, effect)) &&
        isScheduled == (RequestsOf(order, effect) != [])
    {
      armed := armed - 1;
      isScheduled := false;
      Run(effect);
    }

    /** Snapshots and clears all three tiers, then runs the snapshot: micro
        tasks, then normal tasks, then batch tasks. Ignored while a drain is
        already running. */
    method Run(effect: Task -> Effect)
      requires Valid()
      modifies this
      ensures Valid()
      ensures old(isRunning) ==>
        isRunning && isScheduled == old(isScheduled) && armed == old(armed) &&
        Pending() == old(Pending()) && ran == old(ran) && failed == old(failed)
      ensures !old(isRunning) ==>
        var order := DrainOrder(old(Pending()));
        !isRunning &&
        ran == old(ran) + order &&
        failed == old(failed) + Failures(order, effect) &&
        Pending() == EnqueueAll(NoTasks, RequestsOf(order, effect)) &&
        isScheduled == (old(isScheduled) || RequestsOf(order, effect) != [])
    {
      if isRunning {
        return;
      }
      isRunning := true;
      var microRun, taskRun, batchRun := micro, normal, batch;
      micro, normal, batch := [], [], [];
      RunSnapshot(microRun, taskRun, batchRun, effect);
      DrainBookkeeping(microRun, taskRun, batchRun, effect);
      AppendThree(old(ran), microRun, taskRun, batchRun);
      AppendThree(old(failed), Failures(microRun, effect), Failures(taskRun, effect), Failures(batchRun, effect));
      isRunning := false;
    }

    /** Runs the three snapshots in tier order, starting from empty tiers. */
    method RunSnapshot(microRun: seq<Task>, taskRun: seq<Task>, batchRun: seq<Task>, effect: Task -> Effect)
      requires Valid() && Pending() == NoTasks
      modifies this
      ensures Valid()
      ensures ran == old(ran) + microRun + taskRun + batchRun
      ensures failed == old(failed) + Failures(microRun, effect) + Failures(taskRun, effect) + Failures(batchRun, effect)
      ensures Pending() == EnqueueAll(EnqueueAll(EnqueueAll(NoTasks, RequestsOf(microRun, effect)), RequestsOf(taskRun, effect)), RequestsOf(batchRun, effect))
      ensures isScheduled == (old(isScheduled) || RequestsOf(microRun, effect) != [] || RequestsOf(taskRun, effect) != [] || RequestsOf(batchRun, effect) != [])
      ensures isRunning == old(isRunning)
    {
      RunEach(microRun, effect);
      RunEach(taskRun, effect);
      RunEach(batchRun, effect);
    }

    /** `tasks.forEach(task => this.runTaskSafe(task))`. */
    method RunEach(tasks: seq<Task>, effect: Task -> Effect)
      requires Valid()
      modifies this
      ensures Valid()
      ensures ran == old(ran) + tasks
      ensures failed == old(failed) + Failures(tasks, effect)
      ensures Pending() == EnqueueAll(old(Pending()), RequestsOf(tasks, effect))
      ensures isScheduled == (old(isScheduled) || RequestsOf(tasks, effect) != [])
      ensures isRunning == old(isRunning)
    {
      var i := 0;
      while i < |tasks|
        invariant 0 <= i <= |tasks|
        invariant Valid()
        invariant ran == old(ran) + tasks[..i]
        invariant failed == old(failed) + Failures(tasks[..i], effect)
        invariant Pending() == EnqueueAll(old(Pending()), RequestsOf(tasks[..i], effect))
        invariant isScheduled == (old(isScheduled) || RequestsOf(tasks[..i], effect) != [])
        invariant isRunning == old(isRunning)
      {
        RunTaskSafe(tasks[i], effect);
        RunOneMore(tasks, i, effect, old(Pending()));
        i := i + 1;
      }
      assert tasks[..i] == tasks;
    }

    /** A scheduling call the running task makes. */
    method Submit(r: Request)
      requires Valid()
      modifies this
      ensures Valid() && isScheduled
      ensures Pending() == Enqueue(old(Pending()), r)
      ensures isRunning == old(isRunning) && ran == old(ran) && failed == old(failed)
    {
      match r.tier {
        case Micro => ScheduleMicro(r.task);
        case Normal => Schedule(r.task);
        case Batch => ScheduleBatch(r.task);
      }
    }

    /** Runs one task; an exception it throws is caught and recorded, and
        does not stop the drain. */
    method RunTaskSafe(task: Task, effect: Task -> Effect)
      requires Valid()
      modifies this
      ensures Valid()
      ensures ran == old(ran) + [task]
      ensures failed == old(failed) + (if effect(task).throws then [task] else [])
      ensures Pending() == EnqueueAll(old(Pending()), effect(task).requests)
      ensures isScheduled == (old(isScheduled) || effect(task).requests != [])
      ensures isRunning == old(isRunning)
    {
      ran := ran + [task];
      var requests := effect(task).requests;
      var i := 0;
      while i < |requests|
        invariant 0 <= i <= |requests|
        invariant Valid()
        invariant ran == old(ran) + [task] && failed == old(failed)
        invariant Pending() == EnqueueAll(old(Pending()), requests[..i])
        invariant isScheduled == (old(isScheduled) || i > 0)
        invariant isRunning == old(isRunning)
      {
        Submit(requests[i]);
        assert requests[..i + 1][..i] == requests[..i];
        i := i + 1;
      }
      assert requests[..i] == requests;
      if effect(task).throws {
        failed := failed + [task];
      }
    }
  }

  /** A normal task, a micro task and a batch task, with the normal task
      scheduled twice: one drain runs the micro task first and the normal
      task once. The normal task throws after scheduling another task; the
      drain still runs the batch task, and the new task waits for the next
      drain, which is armed. */
  method DrainScenario() returns (ran: seq<Task>, failed: seq<Task>, next: Tiers, armedAgain: bool)
    ensures ran == [Task(2), Task(1), Task(3)]
    ensures failed == [Task(1)]
    ensures next == Tiers([], [Task(4)], [])
    ensures armedAgain
  {
    var s := ScenarioQueue();
    assert DrainOrder(s.Pending()) == [Task(2), Task(1), Task(3)];
    ScenarioEffect();
    s.Drain(ScenarioTask);
    ran, failed, next, armedAgain := s.ran, s.failed, s.Pending(), s.isScheduled;
  }

  /** The queue of `DrainScenario` before it drains: task 1 is kept once,
      task 2 goes to the micro tier and task 3 to the batch tier, and one
      drain is armed. */
  method ScenarioQueue() returns (s: Scheduler)
    ensures fresh(s) && s.Valid() && s.Pending() == Tiers([Task(2)], [Task(1)], [Task(3)])
    ensures s.ran == [] && s.failed == [] && !s.isRunning && s.armed == 1
  {
    ScenarioEnqueues();
    s := new Scheduler();
    s.Schedule(Task(1));
    s.ScheduleMicro(Task(2));
    s.Schedule(Task(1));
    s.ScheduleBatch(Task(3));
  }

  /** The four requests of `ScenarioQueue`, one after another. */
  lemma ScenarioEnqueues()
    ensures Enqueue(NoTasks, Request(Normal, Task(1))) == Tiers([], [Task(1)], [])
    ensures Enqueue(Tiers([], [Task(1)], []), Request(Micro, Task(2))) == Tiers([Task(2)], [Task(1)], [])
    ensures Enqueue(Tiers([Task(2)], [Task(1)], []), Request(Normal, Task(1))) == Tiers([Task(2)], [Task(1)], [])
    ensures Enqueue(Tiers([Task(2)], [Task(1)], []), Request(Batch, Task(3))) == Tiers([Task(2)], [Task(1)], [Task(3)])
  {
  }

  /** The tasks of `DrainScenario`: task 1 schedules task 4 and then throws. */
  function ScenarioTask(t: Task): Effect
  {
    if t == Task(1) then Effect([Request(Normal, Task(4))], true) else Effect([], false)
  }

  lemma ScenarioEffect()
    ensures RequestsOf([Task(2), Task(1), Task(3)], ScenarioTask) == [Request(Normal, Task(4))]
    ensures Failures([Task(2), Task(1), Task(3)], ScenarioTask) == [Task(1)]
    ensures EnqueueAll(NoTasks, [Request(Normal, Task(4))]) == Tiers([], [Task(4)], [])
  {
    assert [Task(2), Task(1), Task(3)][..2] == [Task(2), Task(1)];
    assert [Task(2), Task(1)][..1] == [Task(2)];
    assert [Request(Normal, Task(4))][..0] == [];
  }
}
