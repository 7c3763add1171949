/**
 The thread pool of 03_threads/thread_pool/thread_pool.c: `n` workers, any number of submitting
 threads and one controlling thread that calls thread_pool_wait_all and thread_pool_destroy.
 One step is one stay in the critical section, cut at each pthread_cond_wait. Workers waiting
 for work and submitters waiting for room share the condition variable cond_work.
 */
module ThreadPool {
  import opened CircularBuffer
  import opened CondVar

  const CAPACITY_PER_THREAD: nat := 10

  datatype Task = Task(func: nat, arg: nat)

  datatype Tid = Worker(i: nat) | Submitter(j: nat)

  /** A worker is at the lock or in a wait, runs a task outside the lock, or has returned. */
  datatype Job = Looping | Running(task: Task) | Exited

  /** Where the controlling thread is; `destroying` if wait_all was called by destroy. */
  datatype Control =
    | Outside
    | EmptyAsleep(destroying: bool)
    | EmptyAwake(destroying: bool)
    | Closing
    | Joining(joined: nat)

  /** What a call of thread_pool_submit by a thread returned. */
  datatype Return = Return(thread: nat, task: Task, code: int)

  datatype Pool = Pool(
    ring: Ring<Task>,
    shutdown: bool,
    work: Cond<Tid>,
    jobs: seq<Job>,
    pending: map<nat, Task>,     // argument of each blocked thread_pool_submit
    control: Control,
    log: seq<Return>,        // history: what every finished submit returned
    dequeued: seq<Task>,         // history: tasks in the order workers took them
    finished: multiset<Task>)    // history: tasks whose function has returned

  datatype Step =
    | Work(i: nat)
    | Finish(i: nat)
    | Submit(j: nat, task: Task, woken: set<Tid>)
    | Spurious(t: Tid)
    | WaitAll(destroying: bool)
    | SpuriousEmpty
    | Close
    | Join

  predicate Enabled(s: Pool, step: Step) {
    match step
    case Work(i) => i < |s.jobs| && s.jobs[i].Looping? && Worker(i) !in s.work.asleep
    case Finish(i) => i < |s.jobs| && s.jobs[i].Running?
    case Submit(j, task, woken) =>
      && Submitter(j) !in s.work.asleep
      && (Submitter(j) in s.work.awake ==> j in s.pending && s.pending[j] == task)
      && (!s.shutdown && s.ring.size < s.ring.Capacity() ==> MaySignal(s.work, woken))
    case Spurious(t) => t in s.work.asleep
    case WaitAll(d) => s.control == Outside || s.control == EmptyAwake(d)
    case SpuriousEmpty => s.control.EmptyAsleep?
    case Close => s.control.Closing?
    case Join => s.control.Joining? && s.control.joined < |s.jobs| && s.jobs[s.control.joined].Exited?
  }

  /** A worker takes the front task, waking everybody when the queue stops being full. */
  function Take(s: Pool, i: nat): Pool
    requires s.ring.Valid() && s.ring.size > 0 && i < |s.jobs|
  {
    var task, ring, left := s.ring.At(0), s.ring.Pop(), Leave(s.work, Worker(i));
    s.(ring := ring,
       work := if ring.size == ring.Capacity() - 1 then Broadcast(left) else left,
       jobs := s.jobs[i := Running(task)],
       dequeued := s.dequeued + [task],
       control := if ring.size == 0 && s.control.EmptyAsleep? then EmptyAwake(s.control.destroying)
                  else s.control)
  }

  function Accept(s: Pool, j: nat, task: Task, woken: set<Tid>): Pool
    requires s.ring.Valid() && s.ring.size < s.ring.Capacity()
  {
    s.(ring := s.ring.Push(task), work := Wake(Leave(s.work, Submitter(j)), woken),
       pending := s.pending - {j}, log := s.log + [Return(j, task, 0)])
  }

  function Next(s: Pool, step: Step): Pool
    requires s.ring.Valid() && Enabled(s, step)
  {
    match step
    case Work(i) =>
      if s.ring.size > 0 then Take(s, i)
      else if s.shutdown then s.(work := Leave(s.work, Worker(i)), jobs := s.jobs[i := Exited])
      else s.(work := Sleep(s.work, Worker(i)))
    case Finish(i) =>
      s.(jobs := s.jobs[i := Looping], finished := s.finished + multiset{s.jobs[i].task})
    case Submit(j, task, woken) =>
      if s.shutdown then
        s.(work := Leave(s.work, Submitter(j)), pending := s.pending - {j},
           log := s.log + [Return(j, task, -1)])
      else if s.ring.size >= s.ring.Capacity() then
        s.(work := Sleep(s.work, Submitter(j)), pending := s.pending[j := task])
      else
        Accept(s, j, task, woken)
    case Spurious(t) => s.(work := Wake(s.work, {t}))
    case WaitAll(d) =>
      if s.ring.size > 0 && !s.shutdown then s.(control := EmptyAsleep(d))
      else s.(control := if d then Closing else Outside)
    case SpuriousEmpty => s.(control := EmptyAwake(s.control.destroying))
    case Close => s.(shutdown := true, work := Broadcast(s.work), control := Joining(0))
    case Join => s.(control := Joining(s.control.joined + 1))
  }

  ghost predicate Initial(s: Pool, n: nat) {
    && s.ring.Capacity() == n * CAPACITY_PER_THREAD && s.ring.size == 0 && s.ring.front == 0
    && !s.shutdown && s.work == Cond({}, {}) && s.pending == map[] && s.control == Outside
    && |s.jobs| == n && (forall i :: 0 <= i < n ==> s.jobs[i].Looping?)
    && s.log == [] && s.dequeued == [] && s.finished == multiset{}
  }

  // ---------------------------------------------------------------- derived notions

  ghost function Workers(ts: set<Tid>): set<Tid> { set t | t in ts && t.Worker? }

  ghost function Submitters(ts: set<Tid>): set<Tid> { set t | t in ts && t.Submitter? }

  /** The tasks whose submit returned 0, in the order they were accepted. */
  ghost function Accepted(log: seq<Return>): seq<Task> {
    if log == [] then []
    else Accepted(log[..|log| - 1]) +
         (if log[|log| - 1].code == 0 then [log[|log| - 1].task] else [])
  }

  ghost function RunningTasks(jobs: seq<Job>): multiset<Task> {
    if jobs == [] then multiset{}
    else Load(jobs[0]) + RunningTasks(jobs[1..])
  }

  ghost function Unexited(jobs: seq<Job>): nat {
    if jobs == [] then 0 else (if jobs[0].Exited? then 0 else 1) + Unexited(jobs[1..])
  }

  lemma AcceptedAppend(log: seq<Return>, r: Return)
    ensures Accepted(log + [r]) == Accepted(log) + (if r.code == 0 then [r.task] else [])
  {
  }

  ghost function Load(job: Job): multiset<Task> {
    if job.Running? then multiset{job.task} else multiset{}
  }

  lemma Regroup(a: multiset<Task>, b: multiset<Task>, c: multiset<Task>)
    ensures (a + b) + c == a + (b + c)
    ensures (a + b) + c == (a + c) + b
    ensures (a + b) + c == (c + b) + a
  {
  }

  /** How the running tasks change, counted for one task. */
  lemma {:induction false} JobUpdate(jobs: seq<Job>, i: nat, job: Job, t: Task)
    requires i < |jobs|
    ensures RunningTasks(jobs[i := job])[t] + Load(jobs[i])[t] == RunningTasks(jobs)[t] + Load(job)[t]
  {
    var jobs', rest := jobs[i := job], jobs[1..];
    if i == 0 {
      assert jobs'[1..] == rest;
    } else {
      JobUpdate(rest, i - 1, job, t);
      assert jobs'[1..] == rest[i - 1 := job];
    }
  }

  lemma {:induction false} UnexitedUpdate(jobs: seq<Job>, i: nat, job: Job)
    requires i < |jobs|
    ensures Unexited(jobs[i := job]) + (if jobs[i].Exited? then 0 else 1)
            == Unexited(jobs) + (if job.Exited? then 0 else 1)
  {
    var jobs', rest := jobs[i := job], jobs[1..];
    if i == 0 {
      assert jobs'[1..] == rest;
    } else {
      UnexitedUpdate(rest, i - 1, job);
      assert jobs'[1..] == rest[i - 1 := job];
    }
  }

  lemma JobChanges(jobs: seq<Job>, i: nat, job: Job)
    requires i < |jobs|
    ensures !jobs[i].Running? && job.Running? ==>
              RunningTasks(jobs[i := job]) == RunningTasks(jobs) + multiset{job.task}
    ensures jobs[i].Running? && !job.Running? ==>
              RunningTasks(jobs) == RunningTasks(jobs[i := job]) + multiset{jobs[i].task}
    ensures !jobs[i].Running? && !job.Running? ==>
              RunningTasks(jobs[i := job]) == RunningTasks(jobs)
  {
    forall t
      ensures RunningTasks(jobs[i := job])[t] + Load(jobs[i])[t] == RunningTasks(jobs)[t] + Load(job)[t]
    {
      JobUpdate(jobs, i, job, t);
    }
  }

  lemma {:induction false} RunningBound(jobs: seq<Job>)
    ensures |RunningTasks(jobs)| <= |jobs|
    ensures (forall i :: 0 <= i < |jobs| ==> !jobs[i].Running?) ==> RunningTasks(jobs) == multiset{}
    ensures forall i :: 0 <= i < |jobs| && jobs[i].Running? ==> jobs[i].task in RunningTasks(jobs)
  {
    if jobs != [] {
      RunningBound(jobs[1..]);
      assert forall i :: 1 <= i < |jobs| ==> jobs[i] == jobs[1..][i - 1];
    }
  }

  // ---------------------------------------------------------------- the invariant

  ghost predicate Places(s: Pool) {
    && s.ring.Valid() && |s.jobs| >= 1
    && s.ring.Capacity() == |s.jobs| * CAPACITY_PER_THREAD
    && Consistent(s.work)
    && (forall t :: t in s.work.asleep + s.work.awake && t.Worker? ==>
          t.i < |s.jobs| && s.jobs[t.i].Looping?)
    && (forall j :: Submitter(j) in s.work.asleep + s.work.awake <==> j in s.pending)
  }

  /** Nobody sleeps on cond_work whom the next critical section would not wake in time. */
  ghost predicate Wakeups(s: Pool) {
    && (Submitters(s.work.asleep) != {} ==> s.ring.size == s.ring.Capacity())
    && (Workers(s.work.asleep) != {} ==> s.ring.size <= |Workers(s.work.awake)|)
    && (s.shutdown ==> s.work.asleep == {})
  }

  ghost predicate Phases(s: Pool) {
    && (s.control.EmptyAsleep? ==> s.ring.size > 0)
    && (s.shutdown <==> s.control.Joining?)
    && (forall i :: 0 <= i < |s.jobs| && s.jobs[i].Exited? ==> s.shutdown && s.ring.size == 0)
    && (s.control.Joining? ==>
          && s.control.joined <= |s.jobs|
          && forall i :: 0 <= i < s.control.joined ==> s.jobs[i].Exited?)
  }

  ghost predicate Ledger(s: Pool)
    requires s.ring.Valid()
  {
    && Accepted(s.log) == s.dequeued + Contents(s.ring)
    && multiset(s.dequeued) == s.finished + RunningTasks(s.jobs)
  }

  ghost predicate Inv(s: Pool) {
    Places(s) && Wakeups(s) && Phases(s) && Ledger(s)
  }

  lemma InitialInv(s: Pool, n: nat)
    requires n >= 1 && Initial(s, n)
    ensures Inv(s)
  {
    RunningBound(s.jobs);
    assert Workers({}) == {} && Submitters({}) == {};
  }

  lemma TakeKeeps(s: Pool, i: nat)
    requires Inv(s) && Enabled(s, Work(i)) && s.ring.size > 0
    ensures Inv(Take(s, i))
  {
    TakePlaces(s, i);
    TakeWakeups(s, i);
    TakeLedger(s, i);
    assert Phases(Take(s, i));
  }

  lemma TakePlaces(s: Pool, i: nat)
    requires Inv(s) && Enabled(s, Work(i)) && s.ring.size > 0
    ensures Places(Take(s, i))
  {
  }

  lemma TakeLedger(s: Pool, i: nat)
    requires s.ring.Valid() && Ledger(s) && s.ring.size > 0 && i < |s.jobs| && !s.jobs[i].Running?
    ensures Take(s, i).ring.Valid() && Ledger(Take(s, i))
  {
    var s', task := Take(s, i), s.ring.At(0);
    PopRemovesFirst(s.ring);
    assert s.dequeued + ([task] + Contents(s'.ring)) == (s.dequeued + [task]) + Contents(s'.ring);
    JobChanges(s.jobs, i, Running(task));
    assert multiset(s.dequeued + [task]) == multiset(s.dequeued) + multiset{task};
    Regroup(s.finished, RunningTasks(s.jobs), multiset{task});
  }

  lemma TakeWakeups(s: Pool, i: nat)
    requires Inv(s) && Enabled(s, Work(i)) && s.ring.size > 0
    ensures Wakeups(Take(s, i))
  {
    var s', w := Take(s, i), Worker(i);
    var left := Leave(s.work, w);
    if Submitters(s.work.asleep) != {} {
      assert s'.work.asleep == {};
    }
    if s'.work == left {
      if w in s.work.awake {
        assert Workers(s.work.awake) == Workers(left.awake) + {w};
      } else {
        assert left.awake == s.work.awake;
      }
    } else {
      assert s'.work.asleep == {};
    }
  }

  lemma AcceptWakeups(s: Pool, j: nat, task: Task, woken: set<Tid>)
    requires Inv(s) && Enabled(s, Submit(j, task, woken))
    requires !s.shutdown && s.ring.size < s.ring.Capacity()
    ensures Wakeups(Accept(s, j, task, woken))
  {
    // room in the queue means that every sleeper is a worker, so the signal cannot be stolen
    var s' := Accept(s, j, task, woken);
    OnlyWorkers(s.work.asleep);
    assert s'.work.asleep <= s.work.asleep;
    OnlyWorkers(s'.work.asleep);
    if s'.work.asleep != {} {
      AwakeGrows(s.work, j, woken);
    }
  }

  lemma OnlyWorkers(ts: set<Tid>)
    ensures Submitters(ts) == {} ==> Workers(ts) == ts
    ensures forall us :: us <= ts && Submitters(ts) == {} ==> Submitters(us) == {}
  {
    forall t | t in ts && Submitters(ts) == {} ensures t.Worker? {
      assert t.Submitter? ==> t in Submitters(ts);
    }
    forall us | us <= ts && Submitters(ts) == {} ensures Submitters(us) == {} {
      assert forall t :: t in Submitters(us) ==> t in Submitters(ts);
    }
  }

  lemma AwakeGrows(c: Cond<Tid>, j: nat, woken: set<Tid>)
    requires Consistent(c) && MaySignal(c, woken) && c.asleep != {} && Workers(c.asleep) == c.asleep
    ensures |Workers(Wake(Leave(c, Submitter(j)), woken).awake)| >= |Workers(c.awake)| + 1
  {
    assert forall t :: t in woken ==> t in Workers(c.asleep);
    assert Workers(Wake(Leave(c, Submitter(j)), woken).awake) == Workers(c.awake) + woken;
    assert Workers(c.awake) !! woken;
    assert |woken| >= 1;
  }

  lemma AcceptKeeps(s: Pool, j: nat, task: Task, woken: set<Tid>)
    requires Inv(s) && Enabled(s, Submit(j, task, woken))
    requires !s.shutdown && s.ring.size < s.ring.Capacity()
    ensures Inv(Accept(s, j, task, woken))
  {
    var s' := Accept(s, j, task, woken);
    PushAppends(s.ring, task);
    AcceptWakeups(s, j, task, woken);
    AcceptedAppend(s.log, Return(j, task, 0));
    assert s.dequeued + (Contents(s.ring) + [task]) == (s.dequeued + Contents(s.ring)) + [task];
    assert s'.work.asleep + s'.work.awake == (s.work.asleep + s.work.awake) - {Submitter(j)};
  }

  /** A worker that finds nothing to do exits after shutdown. */
  lemma ExitKeeps(s: Pool, i: nat)
    requires Inv(s) && Enabled(s, Work(i)) && s.ring.size == 0 && s.shutdown
    ensures Inv(Next(s, Work(i)))
  {
    var s' := Next(s, Work(i));
    JobChanges(s.jobs, i, Exited);
    assert s'.work.asleep + s'.work.awake == (s.work.asleep + s.work.awake) - {Worker(i)};
    assert Places(s') && Wakeups(s');
    assert Phases(s');
  }

  /** Before shutdown it sleeps. */
  lemma IdleKeeps(s: Pool, i: nat)
    requires Inv(s) && Enabled(s, Work(i)) && s.ring.size == 0 && !s.shutdown
    ensures Inv(Next(s, Work(i)))
  {
    var s' := Next(s, Work(i));
    assert s'.work.asleep + s'.work.awake == s.work.asleep + s.work.awake + {Worker(i)};
    assert Submitters(s'.work.asleep) == Submitters(s.work.asleep);
    assert Places(s') && Wakeups(s');
    assert Phases(s');
  }

  lemma FinishLedger(s: Pool, i: nat)
    requires s.ring.Valid() && Ledger(s) && Enabled(s, Finish(i))
    ensures Ledger(Next(s, Finish(i)))
  {
    JobChanges(s.jobs, i, Looping);
    Regroup(s.finished, RunningTasks(s.jobs[i := Looping]), multiset{s.jobs[i].task});
  }

  lemma FinishKeeps(s: Pool, i: nat)
    requires Inv(s) && Enabled(s, Finish(i))
    ensures Inv(Next(s, Finish(i)))
  {
    FinishLedger(s, i);
    FinishPlaces(s, i);
  }

  lemma FinishPlaces(s: Pool, i: nat)
    requires Places(s) && Wakeups(s) && Phases(s) && Enabled(s, Finish(i))
    ensures var s' := Next(s, Finish(i)); Places(s') && Wakeups(s') && Phases(s')
  {
    var s' := Next(s, Finish(i));
    assert s'.work == s.work && s'.ring == s.ring && s'.control == s.control;
    assert forall k :: 0 <= k < |s.jobs| && k != i ==> s'.jobs[k] == s.jobs[k];
  }

  /** A submit that does not enqueue: refused after shutdown, asleep on a full queue. */
  lemma SubmitWaitsKeeps(s: Pool, step: Step)
    requires Inv(s) && Enabled(s, step) && step.Submit?
    requires s.shutdown || s.ring.size >= s.ring.Capacity()
    ensures Inv(Next(s, step))
  {
    var s', t := Next(s, step), Submitter(step.j);
    if s.shutdown {
      AcceptedAppend(s.log, Return(step.j, step.task, -1));
      assert s'.work.asleep + s'.work.awake == (s.work.asleep + s.work.awake) - {t};
    } else {
      assert s'.work.asleep + s'.work.awake == s.work.asleep + s.work.awake + {t};
      assert Workers(s'.work.asleep) == Workers(s.work.asleep);
      assert Workers(s'.work.awake) == Workers(s.work.awake);
    }
  }

  lemma SpuriousKeeps(s: Pool, t: Tid)
    requires Inv(s) && Enabled(s, Spurious(t))
    ensures Inv(Next(s, Spurious(t)))
  {
    var s' := Next(s, Spurious(t));
    OneWakes(s.work, t);
    assert Places(s') && Phases(s');
  }

  /** Waking a sleeper takes it from one side to the other; nobody else moves. */
  lemma OneWakes(c: Cond<Tid>, t: Tid)
    requires Consistent(c) && t in c.asleep
    ensures var c' := Wake(c, {t});
            && Consistent(c')
            && c'.asleep + c'.awake == c.asleep + c.awake
            && (c'.asleep != {} ==> c.asleep != {})
            && (Submitters(c'.asleep) != {} ==> Submitters(c.asleep) != {})
            && (Workers(c'.asleep) != {} ==> Workers(c.asleep) != {})
            && |Workers(c'.awake)| >= |Workers(c.awake)|
  {
    var c' := Wake(c, {t});
    if u :| u in Submitters(c'.asleep) {
      assert u in Submitters(c.asleep);
    }
    if u :| u in Workers(c'.asleep) {
      assert u in Workers(c.asleep);
    }
    var more := if t.Worker? then {t} else {};
    assert Workers(c'.awake) == Workers(c.awake) + more;
    assert Workers(c.awake) !! more;
  }

  /** The controlling thread moves on and touches nothing else. */
  lemma ControlKeeps(s: Pool, step: Step)
    requires Inv(s) && Enabled(s, step)
    requires step.WaitAll? || step.SpuriousEmpty? || step.Join?
    ensures Inv(Next(s, step))
  {
    var s' := Next(s, step);
    assert s' == s.(control := s'.control);
    assert Phases(s');
    assert Places(s') && Wakeups(s') && Ledger(s');
  }

  lemma CloseKeeps(s: Pool)
    requires Inv(s) && Enabled(s, Close)
    ensures Inv(Next(s, Close))
  {
    var s' := Next(s, Close);
    assert s'.work.asleep == {} && s'.work.awake == s.work.asleep + s.work.awake;
    assert Places(s') && Wakeups(s');
    assert Phases(s') && Ledger(s');
  }

  lemma StepKeeps(s: Pool, step: Step)
    requires Inv(s) && Enabled(s, step)
    ensures Inv(Next(s, step)) && |Next(s, step).jobs| == |s.jobs|
  {
    match step
    case Work(i) =>
      if s.ring.size > 0 {
        TakeKeeps(s, i);
      } else if s.shutdown {
        ExitKeeps(s, i);
      } else {
        IdleKeeps(s, i);
      }
    case Finish(i) => FinishKeeps(s, i);
    case Submit(j, task, woken) =>
      if s.shutdown || s.ring.size >= s.ring.Capacity() {
        SubmitWaitsKeeps(s, step);
      } else {
        AcceptKeeps(s, j, task, woken);
      }
    case Spurious(t) => SpuriousKeeps(s, t);
    case WaitAll(_) => ControlKeeps(s, step);
    case SpuriousEmpty => ControlKeeps(s, step);
    case Close => CloseKeeps(s);
    case Join => ControlKeeps(s, step);
  }

  // ---------------------------------------------------------------- whole runs

  ghost predicate Feasible(s: Pool, steps: seq<Step>)
    decreases |steps|
  {
    || steps == []
    || (s.ring.Valid() && Enabled(s, steps[0]) && Feasible(Next(s, steps[0]), steps[1..]))
  }

  ghost function Run(s: Pool, steps: seq<Step>): Pool
    requires Feasible(s, steps)
    decreases |steps|
  {
    if steps == [] then s else Run(Next(s, steps[0]), steps[1..])
  }

  lemma {:induction false} RunKeeps(s: Pool, steps: seq<Step>)
    requires Inv(s) && Feasible(s, steps)
    ensures Inv(Run(s, steps)) && |Run(s, steps).jobs| == |s.jobs|
    decreases |steps|
  {
    if steps != [] {
      StepKeeps(s, steps[0]);
      RunKeeps(Next(s, steps[0]), steps[1..]);
    }
  }

  // ---------------------------------------------------------------- no wakeup is lost

  lemma {:induction false} WorkerCount(ts: set<Tid>, n: nat)
    requires forall t :: t in ts ==> t.Worker? && t.i < n
    ensures |ts| <= n
  {
    if n > 0 {
      WorkerCount(ts - {Worker(n - 1)}, n - 1);
      assert ts <= (ts - {Worker(n - 1)}) + {Worker(n - 1)};
      if Worker(n - 1) in ts {
        assert ts == (ts - {Worker(n - 1)}) + {Worker(n - 1)};
      } else {
        assert ts == ts - {Worker(n - 1)};
      }
    } else {
      assert ts == {};
    }
  }

  /** A worker that can take its next step without being woken by anybody. */
  ghost predicate Free(s: Pool, i: nat) {
    i < |s.jobs| && !s.jobs[i].Exited? && Worker(i) !in s.work.asleep
  }

  /**
   Sharing cond_work between workers and submitters never loses a wakeup. In every reachable
   state a sleeping submitter means a full queue and a sleeping worker that every queued task has
   a woken worker; so the two never sleep at once. A sleeping wait_all means queued tasks, and
   whenever tasks are queued or a submitter sleeps some worker is free to run.
   */
  lemma NoLostWakeup(init: Pool, n: nat, steps: seq<Step>)
    requires n >= 1 && Initial(init, n) && Feasible(init, steps)
    ensures var s := Run(init, steps);
            && (Submitters(s.work.asleep) != {} ==> s.ring.size == n * CAPACITY_PER_THREAD)
            && (Workers(s.work.asleep) != {} ==> s.ring.size <= |Workers(s.work.awake)|)
            && (Submitters(s.work.asleep) == {} || Workers(s.work.asleep) == {})
            && (s.control.EmptyAsleep? ==> s.ring.size > 0)
            && (s.ring.size > 0 || Submitters(s.work.asleep) != {} ==> exists i: nat :: Free(s, i))
  {
    InitialInv(init, n);
    RunKeeps(init, steps);
    var s := Run(init, steps);
    WorkerCount(Workers(s.work.awake), n);
    if s.ring.size > 0 {
      FreeWorker(s);
    }
  }

  lemma FreeWorker(s: Pool)
    requires Inv(s) && s.ring.size > 0
    ensures exists i: nat :: Free(s, i)
  {
    if Workers(s.work.asleep) != {} {
      assert Workers(s.work.awake) != {};
      var t :| t in Workers(s.work.awake);
      assert t in s.work.asleep + s.work.awake;
      assert Free(s, t.i);
    } else {
      assert Worker(0) !in Workers(s.work.asleep);
      assert Free(s, 0);
    }
  }

  // ---------------------------------------------------------------- what destroy guarantees

  /**
   Once thread_pool_destroy has joined every worker, the tasks run are exactly those whose submit
   returned 0, each once, and workers took them in the order they were accepted, however the
   submitters raced with the shutdown.
   */
  lemma DestroyRunsExactlyTheAccepted(init: Pool, n: nat, steps: seq<Step>)
    requires n >= 1 && Initial(init, n) && Feasible(init, steps)
    requires Run(init, steps).control == Joining(n)
    ensures var s := Run(init, steps);
            s.dequeued == Accepted(s.log) && s.finished == multiset(Accepted(s.log))
  {
    InitialInv(init, n);
    RunKeeps(init, steps);
    var s := Run(init, steps);
    assert s.jobs[0].Exited?;
    assert Contents(s.ring) == [];
    RunningBound(s.jobs);
    assert s.finished + multiset{} == s.finished;
  }

  // ---------------------------------------------------------------- what wait_all guarantees

  /**
   When wait_all returns, every task accepted before has been taken by a worker and at most one
   per worker is unfinished. "All tasks complete" holds exactly when no worker is running one.
   */
  lemma WaitAllReturns(init: Pool, n: nat, steps: seq<Step>, d: bool)
    requires n >= 1 && Initial(init, n) && Feasible(init, steps)
    requires Enabled(Run(init, steps), WaitAll(d))
    requires Run(init, steps).ring.Valid() && !Next(Run(init, steps), WaitAll(d)).control.EmptyAsleep?
    ensures var s := Run(init, steps);
            && s.dequeued == Accepted(s.log)
            && multiset(Accepted(s.log)) == s.finished + RunningTasks(s.jobs)
            && |RunningTasks(s.jobs)| <= n
            && (s.finished == multiset(Accepted(s.log)) <==>
                  forall i :: 0 <= i < |s.jobs| ==> !s.jobs[i].Running?)
  {
    InitialInv(init, n);
    RunKeeps(init, steps);
    var s := Run(init, steps);
    assert s.ring.size == 0 && Contents(s.ring) == [];
    RunningBound(s.jobs);
    if s.finished == s.finished + RunningTasks(s.jobs) {
      assert |RunningTasks(s.jobs)| == 0;
    }
  }

  lemma RunOfThree(s: Pool, a: Step, b: Step, c: Step)
    requires s.ring.Valid() && Enabled(s, a)
    requires Next(s, a).ring.Valid() && Enabled(Next(s, a), b)
    requires Next(Next(s, a), b).ring.Valid() && Enabled(Next(Next(s, a), b), c)
    ensures Feasible(s, [a, b, c]) && Run(s, [a, b, c]) == Next(Next(Next(s, a), b), c)
  {
    var s1, s2, s3 := Next(s, a), Next(Next(s, a), b), Next(Next(Next(s, a), b), c);
    assert [a, b, c][1..] == [b, c] && [b, c][1..] == [c] && [c][1..] == [];
    assert Feasible(s3, []) && Run(s3, []) == s3;
    assert Feasible(s2, [c]) && Run(s2, [c]) == s3;
    assert Feasible(s1, [b, c]) && Run(s1, [b, c]) == s3;
  }

  /** The header's promise that wait_all waits for completion fails already for one task. */
  lemma WaitAllMayReturnEarly(init: Pool, task: Task)
    requires Initial(init, 1)
    ensures var steps := [Submit(0, task, {}), Work(0), WaitAll(false)];
            && Feasible(init, steps)
            && Run(init, steps).control == Outside
            && Accepted(Run(init, steps).log) == [task]
            && task !in Run(init, steps).finished
  {
    InitialInv(init, 1);
    StepKeeps(init, Submit(0, task, {}));
    StepKeeps(Next(init, Submit(0, task, {})), Work(0));
    RunOfThree(init, Submit(0, task, {}), Work(0), WaitAll(false));
    AcceptedAppend([], Return(0, task, 0));
  }

  /** `cont` ends with the first step after which the controlling thread is out of the pool. */
  ghost predicate UntilReturn(s: Pool, cont: seq<Step>)
    requires Feasible(s, cont)
    decreases |cont|
  {
    && cont != []
    && var s' := Next(s, cont[0]);
       if s'.control == Outside then |cont| == 1 else UntilReturn(s', cont[1..])
  }

  /** One call of thread_pool_wait_all from start to return, with whatever the others do. */
  ghost predicate WaitAllCall(s: Pool, cont: seq<Step>) {
    && Feasible(s, cont)
    && cont != [] && cont[0] == WaitAll(false)
    && UntilReturn(s, cont)
  }

  ghost predicate Complete(s: Pool) { s.finished == multiset(Accepted(s.log)) }

  ghost predicate NoSubmits(cont: seq<Step>) { forall k :: 0 <= k < |cont| ==> !cont[k].Submit? }

  /** The wait_all under way in `s` returns too early although nothing is submitted meanwhile. */
  ghost predicate ReturnsEarly(s: Pool, cont: seq<Step>) {
    && Feasible(s, cont) && UntilReturn(s, cont) && NoSubmits(cont)
    && Run(s, cont).log == s.log && !Complete(Run(s, cont))
  }

  /** If every accepted task is complete, wait_all finds the queue empty and returns at once. */
  lemma CompleteReturnsAtOnce(s: Pool, cont: seq<Step>)
    requires Inv(s) && s.control == Outside && Complete(s) && WaitAllCall(s, cont)
    ensures cont == [WaitAll(false)] && Run(s, cont) == s
  {
    var taken, queued := s.dequeued, Contents(s.ring);
    assert multiset(taken + queued) == multiset(taken) + multiset(queued);
    assert |s.finished| == |s.finished| + |RunningTasks(s.jobs)| + |queued|;
    assert Next(s, WaitAll(false)) == s;
    assert cont[1..] == [];
  }

  lemma Unfinished(s: Pool, i: nat)
    requires Inv(s) && s.ring.size == 0 && i < |s.jobs| && s.jobs[i].Running?
    ensures !Complete(s)
  {
    RunningBound(s.jobs);
    assert Contents(s.ring) == [];
    assert |s.finished + RunningTasks(s.jobs)| > |s.finished|;
  }

  /** Prepending a step that does not end the call. */
  lemma CallGrows(s: Pool, step: Step, cont: seq<Step>)
    requires s.ring.Valid() && Enabled(s, step) && !step.Submit?
    requires Next(s, step).control != Outside && Next(s, step).log == s.log
    requires ReturnsEarly(Next(s, step), cont)
    ensures ReturnsEarly(s, [step] + cont)
  {
    assert ([step] + cont)[1..] == cont;
  }

  /** The free worker finishes the task it runs, or takes the next one. */
  function DrainStep(s: Pool, i: nat): Step
    requires i < |s.jobs|
  {
    if s.jobs[i].Running? then Finish(i) else Work(i)
  }

  lemma DrainStepKeeps(s: Pool, i: nat)
    requires Inv(s) && s.control == EmptyAsleep(false) && Free(s, i)
    ensures Enabled(s, DrainStep(s, i))
    ensures var s' := Next(s, DrainStep(s, i));
            && Inv(s') && s'.log == s.log && Free(s', i) && (s'.jobs[i].Running? <==> !s.jobs[i].Running?)
            && s'.ring.size == s.ring.size - (if s.jobs[i].Running? then 0 else 1)
            && s'.control == if s'.ring.size == 0 then EmptyAwake(false) else EmptyAsleep(false)
  {
    StepKeeps(s, DrainStep(s, i));
  }

  lemma LastHeld(s: Pool, i: nat)
    requires Inv(s) && s.control == EmptyAwake(false) && s.ring.size == 0
    requires i < |s.jobs| && s.jobs[i].Running?
    ensures ReturnsEarly(s, [WaitAll(false)])
  {
    Unfinished(s, i);
    assert [WaitAll(false)][1..] == [];
  }

  /** While wait_all sleeps, one worker can drain the queue and still run the last task at the return. */
  lemma {:induction false} DrainAndHold(s: Pool, i: nat) returns (cont: seq<Step>)
    requires Inv(s) && s.control == EmptyAsleep(false) && Free(s, i)
    ensures ReturnsEarly(s, cont)
    decreases s.ring.size, if s.jobs[i].Running? then 1 else 0
  {
    var step := DrainStep(s, i);
    DrainStepKeeps(s, i);
    var s' := Next(s, step);
    if s'.ring.size > 0 {
      cont := DrainAndHold(s', i);
    } else {
      LastHeld(s', i);
      cont := [WaitAll(false)];
    }
    CallGrows(s, step, cont);
    cont := [step] + cont;
  }

  lemma SomeoneUnfinished(s: Pool) returns (cont: seq<Step>)
    requires Inv(s) && s.control == Outside && !Complete(s)
    ensures WaitAllCall(s, cont) && ReturnsEarly(s, cont)
  {
    var step := WaitAll(false);
    var s' := Next(s, step);
    StepKeeps(s, step);
    if s.ring.size == 0 {
      cont := [step];
      assert cont[1..] == [];
    } else {
      FreeWorker(s');
      var i: nat :| Free(s', i);
      cont := DrainAndHold(s', i);
      CallGrows(s, step, cont);
      cont := [step] + cont;
    }
  }

  /**
   What a caller can rely on, in any reachable state: wait_all gives "all tasks complete" for sure
   exactly when they are complete before the call, and then it returns at once. Otherwise it may
   return, with no submit since the call, while a worker still runs an accepted task.
   */
  lemma WaitAllCompletesIff(init: Pool, n: nat, steps: seq<Step>)
    requires n >= 1 && Initial(init, n) && Feasible(init, steps) && Run(init, steps).control == Outside
    ensures var s := Run(init, steps);
            && (Complete(s) <==> forall cont :: WaitAllCall(s, cont) ==> Complete(Run(s, cont)))
            && (Complete(s) ==> forall cont :: WaitAllCall(s, cont) ==> cont == [WaitAll(false)])
            && (!Complete(s) ==> exists cont :: WaitAllCall(s, cont) && ReturnsEarly(s, cont))
  {
    InitialInv(init, n);
    RunKeeps(init, steps);
    var s := Run(init, steps);
    if Complete(s) {
      forall cont | WaitAllCall(s, cont) ensures Run(s, cont) == s && cont == [WaitAll(false)] {
        CompleteReturnsAtOnce(s, cont);
      }
    } else {
      var cont := SomeoneUnfinished(s);
    }
  }

  // ---------------------------------------------------------------- every call is accounted for

  /**
   Who waits, and for what: a worker exactly for a task while the pool runs, a submitter exactly
   for room while it runs, wait_all exactly for the queue to empty. A worker that does not wait
   takes the front task, or exits after shutdown.
   */
  lemma WaitsIff(s: Pool, step: Step)
    requires Inv(s) && Enabled(s, step)
    ensures var s', queued := Next(s, step), Contents(s.ring);
            match step
            case Work(i) =>
              && (Worker(i) in s'.work.asleep <==> queued == [] && !s.shutdown)
              && (s'.jobs[i].Exited? <==> queued == [] && s.shutdown)
              && (queued != [] ==> s'.jobs[i] == Running(queued[0]) && Contents(s'.ring) == queued[1..])
              && (queued == [] ==> Contents(s'.ring) == [])
            case Submit(j, task, _) =>
              && (Submitter(j) in s'.work.asleep <==> |queued| == s.ring.Capacity() && !s.shutdown)
              && Contents(s'.ring) == queued + (if |queued| < s.ring.Capacity() && !s.shutdown then [task] else [])
            case WaitAll(d) => s'.control == EmptyAsleep(d) <==> queued != [] && !s.shutdown
            case _ => Contents(s'.ring) == queued
  {
    match step
    case Work(i) =>
      if s.ring.size > 0 {
        PopRemovesFirst(s.ring);
      }
    case Submit(j, task, _) =>
      if s.ring.size < s.ring.Capacity() {
        PushAppends(s.ring, task);
      }
    case Finish(_) =>
    case Spurious(_) =>
    case WaitAll(_) =>
    case SpuriousEmpty =>
    case Close =>
    case Join =>
  }

  /** The task of a thread_pool_submit call that thread `j` begins with the step; a retry begins none. */
  ghost function Begins(s: Pool, step: Step, j: nat): seq<Task> {
    if step.Submit? && step.j == j && Submitter(j) !in s.work.asleep + s.work.awake then [step.task] else []
  }

  /** The tasks of all calls that thread `j` begins in the run, in order. */
  ghost function Submitted(s: Pool, steps: seq<Step>, j: nat): seq<Task>
    requires Feasible(s, steps)
    decreases |steps|
  {
    if steps == [] then [] else Begins(s, steps[0], j) + Submitted(Next(s, steps[0]), steps[1..], j)
  }

  /** The tasks of the calls of thread `j` that have returned, in order. */
  ghost function Returned(log: seq<Return>, j: nat): seq<Task> {
    if log == [] then []
    else Returned(log[..|log| - 1], j) + (if log[|log| - 1].thread == j then [log[|log| - 1].task] else [])
  }

  /** The task of the call in which thread `j` waits for room. */
  ghost function Waiting(s: Pool, j: nat): seq<Task> {
    if j in s.pending then [s.pending[j]] else []
  }

  ghost function Account(s: Pool, j: nat): seq<Task> { Returned(s.log, j) + Waiting(s, j) }

  lemma ReturnedAppend(log: seq<Return>, r: Return, j: nat)
    ensures Returned(log + [r], j) == Returned(log, j) + (if r.thread == j then [r.task] else [])
  {
    assert (log + [r])[..|log|] == log;
  }

  lemma Associate<T>(a: seq<T>, b: seq<T>, c: seq<T>)
    ensures (a + b) + c == a + (b + c)
  {
  }

  /** A submit step returns -1 after shutdown and 0 before, unless it waits for room. */
  lemma SubmitReturns(s: Pool, step: Step)
    requires Inv(s) && Enabled(s, step)
    ensures var s' := Next(s, step);
            s'.log == s.log + if step.Submit? && Submitter(step.j) !in s'.work.asleep
                              then [Return(step.j, step.task, if s.shutdown then -1 else 0)] else []
    ensures s.shutdown ==> Next(s, step).shutdown
    ensures step.Submit? ==> Next(s, step).shutdown == s.shutdown
  {
    WaitsIff(s, step);
  }

  /** The task of a submit step is that of the call under way, or of the one that begins. */
  lemma OwnTask(s: Pool, step: Step)
    requires Places(s) && Enabled(s, step) && step.Submit?
    ensures Waiting(s, step.j) + Begins(s, step, step.j) == [step.task]
  {
  }

  lemma WaitingOwn(s: Pool, step: Step)
    requires Inv(s) && Enabled(s, step) && step.Submit?
    ensures var s' := Next(s, step);
            Waiting(s', step.j) == if Submitter(step.j) in s'.work.asleep then [step.task] else []
  {
  }

  lemma WaitingOther(s: Pool, step: Step, j: nat)
    requires Inv(s) && Enabled(s, step) && (step.Submit? ==> step.j != j)
    ensures Waiting(Next(s, step), j) == Waiting(s, j)
  {
    if step.Submit? {
      SubmitPending(s, step);
    } else {
      OthersKeepPending(s, step);
    }
  }

  lemma SubmitPending(s: Pool, step: Step)
    requires s.ring.Valid() && Enabled(s, step) && step.Submit?
    ensures var pending' := Next(s, step).pending;
            pending' == s.pending - {step.j} || pending' == s.pending[step.j := step.task]
  {
  }

  lemma OthersKeepPending(s: Pool, step: Step)
    requires s.ring.Valid() && Enabled(s, step) && !step.Submit?
    ensures Next(s, step).pending == s.pending
  {
  }

  lemma AccountStep(s: Pool, step: Step, j: nat)
    requires Inv(s) && Enabled(s, step)
    ensures Account(Next(s, step), j) == Account(s, j) + Begins(s, step, j)
  {
    SubmitReturns(s, step);
    if step.Submit? {
      ReturnedAppend(s.log, Return(step.j, step.task, if s.shutdown then -1 else 0), j);
    }
    if step.Submit? && step.j == j {
      OwnTask(s, step);
      WaitingOwn(s, step);
      Associate(Returned(s.log, j), Waiting(s, j), Begins(s, step, j));
    } else {
      WaitingOther(s, step, j);
    }
  }

  lemma {:induction false} AccountRun(s: Pool, steps: seq<Step>, j: nat)
    requires Inv(s) && Feasible(s, steps)
    ensures Account(Run(s, steps), j) == Account(s, j) + Submitted(s, steps, j)
    decreases |steps|
  {
    if steps != [] {
      StepKeeps(s, steps[0]);
      AccountStep(s, steps[0], j);
      AccountRun(Next(s, steps[0]), steps[1..], j);
      Associate(Account(s, j), Begins(s, steps[0], j), Submitted(Next(s, steps[0]), steps[1..], j));
    }
  }

  /** What is logged between two states returned 0 if the pool still runs, -1 if it had shut down. */
  ghost predicate Coded(log: seq<Return>, down: bool, log': seq<Return>, down': bool) {
    && log <= log' && (down ==> down')
    && forall i :: |log| <= i < |log'| ==> CodeOk(log'[i].code, down, down')
  }

  predicate CodeOk(code: int, down: bool, down': bool) {
    (code == 0 || code == -1) && (!down' ==> code == 0) && (down ==> code == -1)
  }

  lemma CodedThen(a: seq<Return>, x: bool, b: seq<Return>, y: bool, c: seq<Return>, z: bool)
    requires Coded(a, x, b, y) && Coded(b, y, c, z)
    ensures Coded(a, x, c, z)
  {
    forall i | |a| <= i < |c| ensures CodeOk(c[i].code, x, z) {
      if i < |b| {
        assert c[i] == b[i];
      }
    }
  }

  lemma StepCodes(s: Pool, step: Step)
    requires Inv(s) && Enabled(s, step)
    ensures Coded(s.log, s.shutdown, Next(s, step).log, Next(s, step).shutdown)
  {
    SubmitReturns(s, step);
  }

  /** A submit that returns while the pool runs returns 0, one that returns after shutdown -1. */
  lemma {:induction false} ReturnCodes(s: Pool, steps: seq<Step>)
    requires Inv(s) && Feasible(s, steps)
    ensures Coded(s.log, s.shutdown, Run(s, steps).log, Run(s, steps).shutdown)
    decreases |steps|
  {
    if steps != [] {
      var s1 := Next(s, steps[0]);
      StepKeeps(s, steps[0]);
      StepCodes(s, steps[0]);
      ReturnCodes(s1, steps[1..]);
      CodedThen(s.log, s.shutdown, s1.log, s1.shutdown, Run(s, steps).log, Run(s, steps).shutdown);
    }
  }

  /**
   Over whole runs, read from the calls made: the tasks that a thread submits are, in order, those
   of its calls that have returned, each once, and the one with which it waits. A call returns
   nonzero only after shutdown, and 0 only before.
   */
  lemma SubmitsAccounted(init: Pool, n: nat, steps: seq<Step>, j: nat)
    requires n >= 1 && Initial(init, n) && Feasible(init, steps)
    ensures var s := Run(init, steps);
            && Returned(s.log, j) + Waiting(s, j) == Submitted(init, steps, j)
            && (Waiting(s, j) != [] <==> Submitter(j) in s.work.asleep + s.work.awake)
            && (forall i :: 0 <= i < |s.log| ==>
                  s.log[i].code == 0 || (s.log[i].code == -1 && s.shutdown))
            && (s.shutdown ==> forall more, i :: Feasible(s, more) && |s.log| <= i < |Run(s, more).log|
                                 ==> Run(s, more).log[i].code == -1)
  {
    InitialInv(init, n);
    RunKeeps(init, steps);
    AccountRun(init, steps, j);
    ReturnCodes(init, steps);
    assert Account(init, j) == [];
    var s := Run(init, steps);
    if s.shutdown {
      forall more, i | Feasible(s, more) && |s.log| <= i < |Run(s, more).log|
        ensures Run(s, more).log[i].code == -1
      {
        ReturnCodes(s, more);
      }
    }
  }

  // ---------------------------------------------------------------- shutdown terminates

  /** Workers that thread_pool_destroy has yet to join. */
  ghost function Unjoined(s: Pool): nat {
    if s.control.Joining? && s.control.joined <= |s.jobs| then |s.jobs| - s.control.joined else 0
  }

  ghost function Remaining(s: Pool): nat {
    2 * s.ring.size + |RunningTasks(s.jobs)| + Unexited(s.jobs) + Unjoined(s)
  }

  /** A step of a worker or a join. */
  predicate Ends(step: Step) { step.Work? || step.Finish? || step.Join? }

  lemma WorkProgress(s: Pool, i: nat)
    requires Inv(s) && s.shutdown && Enabled(s, Work(i))
    ensures Remaining(Next(s, Work(i))) < Remaining(s)
  {
    var job := Next(s, Work(i)).jobs[i];
    UnexitedUpdate(s.jobs, i, job);
    JobChanges(s.jobs, i, job);
  }

  lemma FinishProgress(s: Pool, i: nat)
    requires Inv(s) && Enabled(s, Finish(i))
    ensures Remaining(Next(s, Finish(i))) < Remaining(s)
  {
    UnexitedUpdate(s.jobs, i, Looping);
    JobChanges(s.jobs, i, Looping);
  }

  /**
   After shutdown nobody sleeps on cond_work and nothing is accepted; every step of a worker and
   every join brings destroy closer to its end and no other step takes it back.
   */
  lemma ShutdownStep(s: Pool, step: Step)
    requires Inv(s) && s.shutdown && Enabled(s, step)
    ensures var s' := Next(s, step);
            && s'.shutdown && s'.work.asleep == {}
            && Accepted(s'.log) == Accepted(s.log)
            && (if Ends(step) then Remaining(s') < Remaining(s) else Remaining(s') == Remaining(s))
  {
    StepKeeps(s, step);
    match step
    case Work(i) => WorkProgress(s, i);
    case Finish(i) => FinishProgress(s, i);
    case Submit(j, task, woken) => AcceptedAppend(s.log, Return(j, task, -1));
    case Spurious(_) =>
    case WaitAll(_) =>
    case SpuriousEmpty =>
    case Close =>
    case Join =>
  }

  ghost function EndingSteps(steps: seq<Step>): nat {
    if steps == [] then 0 else (if Ends(steps[0]) then 1 else 0) + EndingSteps(steps[1..])
  }

  /** What the joining thread waits for: the join itself, or the worker it is about to join. */
  ghost function NextEnd(s: Pool): Step
    requires s.control.Joining? && s.control.joined < |s.jobs|
  {
    var i := s.control.joined;
    if s.jobs[i].Exited? then Join else if s.jobs[i].Running? then Finish(i) else Work(i)
  }

  /**
   So all joins return: in any run after shutdown there are at most `Remaining` steps of workers
   and joins, and until the last worker is joined one of them can be taken.
   */
  lemma {:induction false} ShutdownTerminates(s: Pool, steps: seq<Step>)
    requires Inv(s) && s.shutdown && Feasible(s, steps)
    ensures EndingSteps(steps) + Remaining(Run(s, steps)) <= Remaining(s)
    ensures var s' := Run(s, steps);
            && s'.control.Joining? && s'.control.joined <= |s'.jobs|
            && (s'.control.joined < |s'.jobs| ==> Enabled(s', NextEnd(s')))
            && forall i :: 0 <= i < |s'.jobs| && !s'.jobs[i].Exited? ==>
                 Enabled(s', Work(i)) || Enabled(s', Finish(i))
    decreases |steps|
  {
    RunKeeps(s, steps);
    if steps != [] {
      StepKeeps(s, steps[0]);
      ShutdownStep(s, steps[0]);
      ShutdownTerminates(Next(s, steps[0]), steps[1..]);
    }
  }

  // How far destroy is from its end: the stage of the call, the work left, the tasks running, and
  // where the controlling thread waits.

  ghost function Stage(s: Pool): nat { if s.shutdown then 0 else if s.control.Closing? then 1 else 2 }

  ghost function WorkLeft(s: Pool): nat { if s.shutdown then Remaining(s) else s.ring.size }

  ghost function Place(s: Pool): nat {
    match s.control
    case EmptyAwake(destroying) => if destroying then 1 else 4
    case EmptyAsleep(destroying) => if destroying then 0 else 3
    case _ => 2
  }

  ghost predicate Nearer(s': Pool, s: Pool) {
    if Stage(s') != Stage(s) then Stage(s') < Stage(s)
    else if WorkLeft(s') != WorkLeft(s) then WorkLeft(s') < WorkLeft(s)
    else if |RunningTasks(s'.jobs)| != |RunningTasks(s.jobs)| then |RunningTasks(s'.jobs)| < |RunningTasks(s.jobs)|
    else Place(s') < Place(s)
  }

  /** A sleeping wait_all comes nearer by a worker that finishes its task or takes the next. */
  lemma DrainNearer(s: Pool) returns (step: Step)
    requires Inv(s) && s.control.EmptyAsleep?
    ensures Enabled(s, step) && Nearer(Next(s, step), s)
  {
    FreeWorker(s);
    var i: nat :| Free(s, i);
    step := DrainStep(s, i);
    if step.Finish? {
      JobChanges(s.jobs, i, Looping);
    }
  }

  lemma StepNearer(s: Pool) returns (step: Step)
    requires Inv(s) && s.control != Joining(|s.jobs|)
    ensures Enabled(s, step) && Nearer(Next(s, step), s)
  {
    match s.control
    case Joining(_) =>
      step := NextEnd(s);
      ShutdownTerminates(s, []);
      ShutdownStep(s, step);
    case Closing => step := Close;
    case EmptyAsleep(_) => step := DrainNearer(s);
    case EmptyAwake(destroying) => step := WaitAll(destroying);
    case Outside => step := WaitAll(true);
  }

  /** From every reachable state thread_pool_destroy can run to its end, whatever was under way. */
  lemma {:induction false} DestroyCanReturn(s: Pool) returns (steps: seq<Step>)
    requires Inv(s)
    ensures Feasible(s, steps) && Run(s, steps).control == Joining(|s.jobs|)
    decreases Stage(s), WorkLeft(s), |RunningTasks(s.jobs)|, Place(s)
  {
    if s.control == Joining(|s.jobs|) {
      steps := [];
    } else {
      var step := StepNearer(s);
      StepKeeps(s, step);
      var rest := DestroyCanReturn(Next(s, step));
      steps := [step] + rest;
      assert steps[1..] == rest;
    }
  }
}
