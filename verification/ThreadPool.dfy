/** The thread pool while it runs, as a step machine with one program counter per thread. A region
    under taskQueueMutex_ is one step, as is a notification or counter update outside it. */
module ThreadPool {

  /** A submitted task; a smaller priority number is more urgent. */
  datatype Task = Task(id: int, priority: int)

  datatype Config = Config(cached: bool, initThreads: nat, maxThreads: nat, maxQueue: nat)

  /** Where a worker is: before the lock, asleep on notEmpty_ (timed if it is an extra thread),
      notified but not yet running, past the pop but before it notifies notFull_, executing its
      task, or done but not yet counted as idle. */
  datatype WorkerPc =
    | Top
    | Asleep(timed: bool)
    | Woken(timed: bool)
    | Popped(task: Task)
    | Running(task: Task)
    | Finishing

  datatype Pool = Pool(
    cfg: Config,
    queue: set<Task>,
    size: int,
    workers: map<int, WorkerPc>,
    current: int,
    idle: int,
    waiters: map<int, bool>,
    accepted: set<Task>,
    dequeued: seq<Task>,
    finished: set<Task>)

  datatype Step =
    | Submit(submitter: int, task: Task, newThread: int)
    | SubmitWaits(submitter: int)
    | SubmitTimesOut(submitter: int)
    | WorkerSleeps(worker: int)
    | WorkerResleeps(worker: int)
    | WorkerTakes(worker: int, task: Task)
    | WorkerExits(worker: int)
    | NotifyNotFull(worker: int)
    | TaskEnds(worker: int)
    | WorkerIdles(worker: int)

  predicate IsIdle(pc: WorkerPc) {
    pc.Top? || pc.Asleep? || pc.Woken?
  }

  predicate Holds(pc: WorkerPc, task: Task) {
    (pc.Popped? || pc.Running?) && pc.task == task
  }

  function IdleWorkers(workers: map<int, WorkerPc>): set<int> {
    set w | w in workers && IsIdle(workers[w])
  }

  /** notify_all on notEmpty_. */
  function WakeAll(workers: map<int, WorkerPc>): (r: map<int, WorkerPc>)
    ensures r.Keys == workers.Keys
  {
    map w | w in workers :: if workers[w].Asleep? then Woken(workers[w].timed) else workers[w]
  }

  /** notify_all on notFull_. */
  function NotifyAll(waiters: map<int, bool>): map<int, bool> {
    map t | t in waiters :: true
  }

  function Ids(n: nat): (r: set<int>)
    ensures |r| == n
    ensures forall i :: i in r <==> 0 <= i < n
  {
    if n == 0 then {} else Ids(n - 1) + {n - 1}
  }

  /** Start creates the initial threads, as many as the maximum allows. */
  function Start(cfg: Config): Pool {
    var n := if cfg.initThreads <= cfg.maxThreads then cfg.initThreads else cfg.maxThreads;
    Pool(cfg, {}, 0, map i | i in Ids(n) :: Top, n, n, map[], {}, [], {})
  }

  /** Would a submission now create a thread? */
  predicate Grows(s: Pool) {
    s.cfg.cached && s.size + 1 > s.idle && s.current < s.cfg.maxThreads
  }

  /** The top of the priority queue: no queued task is more urgent. */
  predicate MostUrgent(queue: set<Task>, task: Task) {
    task in queue && forall other | other in queue :: task.priority <= other.priority
  }

  predicate Enabled(s: Pool, step: Step) {
    match step
    case Submit(_, task, thread) =>
      && s.size < s.cfg.maxQueue
      && (forall other | other in s.accepted :: other.id != task.id)
      && thread !in s.workers
    case SubmitWaits(_) => s.size >= s.cfg.maxQueue
    case SubmitTimesOut(t) => s.size >= s.cfg.maxQueue && t in s.waiters
    case WorkerSleeps(w) => w in s.workers && s.workers[w] == Top && s.size == 0
    case WorkerResleeps(w) => w in s.workers && s.workers[w].Woken? && s.size == 0
    case WorkerTakes(w, task) =>
      w in s.workers && IsIdle(s.workers[w]) && s.size > 0 && MostUrgent(s.queue, task)
    case WorkerExits(w) =>
      && w in s.workers && s.size == 0
      && (s.workers[w].Asleep? || s.workers[w].Woken?) && s.workers[w].timed
    case NotifyNotFull(w) => w in s.workers && s.workers[w].Popped?
    case TaskEnds(w) => w in s.workers && s.workers[w].Running?
    case WorkerIdles(w) => w in s.workers && s.workers[w].Finishing?
  }

  function Enqueue(s: Pool, submitter: int, task: Task, thread: int): Pool {
    var awake := WakeAll(s.workers);
    s.(queue := s.queue + {task},
       size := s.size + 1,
       accepted := s.accepted + {task},
       waiters := s.waiters - {submitter},
       workers := if Grows(s) then awake[thread := Top] else awake,
       current := if Grows(s) then s.current + 1 else s.current,
       idle := if Grows(s) then s.idle + 1 else s.idle)
  }

  function Apply(s: Pool, step: Step): Pool
    requires Enabled(s, step)
  {
    match step
    case Submit(t, task, thread) => Enqueue(s, t, task, thread)
    case SubmitWaits(t) => s.(waiters := s.waiters[t := false])
    case SubmitTimesOut(t) => s.(waiters := s.waiters - {t})
    case WorkerSleeps(w) =>
      s.(workers := s.workers[w := Asleep(s.cfg.cached && s.current > s.cfg.initThreads)])
    case WorkerResleeps(w) => s.(workers := s.workers[w := Asleep(s.workers[w].timed)])
    case WorkerTakes(w, task) =>
      s.(workers := s.workers[w := Popped(task)], idle := s.idle - 1,
         queue := s.queue - {task}, size := s.size - 1, dequeued := s.dequeued + [task])
    case WorkerExits(w) =>
      s.(workers := s.workers - {w}, current := s.current - 1, idle := s.idle - 1)
    case NotifyNotFull(w) =>
      s.(workers := s.workers[w := Running(s.workers[w].task)], waiters := NotifyAll(s.waiters))
    case TaskEnds(w) =>
      s.(workers := s.workers[w := Finishing], finished := s.finished + {s.workers[w].task})
    case WorkerIdles(w) => s.(workers := s.workers[w := Top], idle := s.idle + 1)
  }

  /** The schedule `steps` can be taken from s and ends in t. */
  predicate Reaches(s: Pool, steps: seq<Step>, t: Pool)
    decreases |steps|
  {
    if steps == [] then s == t
    else Enabled(s, steps[0]) && Reaches(Apply(s, steps[0]), steps[1..], t)
  }

  // ---- what every step keeps ----

  /** The three counters say what they are meant to say, and stay within their limits. */
  ghost predicate CountersExact(s: Pool) {
    && s.size == |s.queue| <= s.cfg.maxQueue
    && s.current == |s.workers| <= s.cfg.maxThreads
    && s.idle == |IdleWorkers(s.workers)|
  }

  ghost predicate Held(workers: map<int, WorkerPc>, task: Task) {
    exists w | w in workers :: Holds(workers[w], task)
  }

  /** Each accepted task is queued, held by exactly one worker, or finished, and never two of these. */
  ghost predicate Conserved(s: Pool) {
    && s.queue <= s.accepted && s.finished <= s.accepted && s.queue !! s.finished
    && (forall w, task | w in s.workers && Holds(s.workers[w], task) ::
          task in s.accepted && task !in s.queue && task !in s.finished)
    && (forall v, w, task |
          v in s.workers && w in s.workers && Holds(s.workers[v], task) && Holds(s.workers[w], task) ::
          v == w)
    && (forall task | task in s.accepted && task !in s.queue && task !in s.finished ::
          Held(s.workers, task))
    && (forall a, b | a in s.accepted && b in s.accepted && a.id == b.id :: a == b)
  }

  /** The dequeue log holds what has left the queue, each task once. */
  ghost predicate LogExact(s: Pool) {
    && (forall task :: task in s.dequeued <==> task in s.accepted && task !in s.queue)
    && (forall i, j | 0 <= i < j < |s.dequeued| :: s.dequeued[i] != s.dequeued[j])
  }

  /** No worker sleeps un-notified while there is work. */
  ghost predicate NobodySleepsOnWork(s: Pool) {
    s.queue != {} ==> forall w | w in s.workers :: !s.workers[w].Asleep?
  }

  /** No submitter sleeps un-notified while there is room, unless a worker that has just made
      room is about to notify. */
  ghost predicate NobodySleepsOnRoom(s: Pool) {
    s.size < s.cfg.maxQueue && (exists t | t in s.waiters :: !s.waiters[t]) ==>
      exists w | w in s.workers :: s.workers[w].Popped?
  }

  /** A cached pool gives every queued task an idle worker of its own, until it is at its maximum. */
  ghost predicate GrownToDemand(s: Pool) {
    s.cfg.cached ==> s.size <= s.idle || s.current == s.cfg.maxThreads
  }

  /** The configuration lets at least one worker exist whenever there is work. */
  ghost predicate CanServe(cfg: Config) {
    cfg.maxThreads >= 1 && (cfg.cached || cfg.initThreads >= 1)
  }

  ghost predicate Staffed(s: Pool) {
    && (!s.cfg.cached ==>
          && (CanServe(s.cfg) ==> s.workers != map[])
          && (forall w | w in s.workers && (s.workers[w].Asleep? || s.workers[w].Woken?) :: !s.workers[w].timed))
    && (s.cfg.cached && CanServe(s.cfg) && s.queue != {} ==> s.workers != map[])
  }

  ghost predicate Inv(s: Pool) {
    && CountersExact(s) && Conserved(s) && LogExact(s)
    && NobodySleepsOnWork(s) && NobodySleepsOnRoom(s) && GrownToDemand(s) && Staffed(s)
  }

  // ---- counting ----

  lemma WorkerChanges(workers: map<int, WorkerPc>, w: int, pc: WorkerPc)
    requires w in workers
    ensures |workers[w := pc]| == |workers|
    ensures IsIdle(workers[w]) && IsIdle(pc) ==> |IdleWorkers(workers[w := pc])| == |IdleWorkers(workers)|
    ensures IsIdle(workers[w]) && !IsIdle(pc) ==> |IdleWorkers(workers[w := pc])| == |IdleWorkers(workers)| - 1
    ensures !IsIdle(workers[w]) && IsIdle(pc) ==> |IdleWorkers(workers[w := pc])| == |IdleWorkers(workers)| + 1
    ensures !IsIdle(workers[w]) && !IsIdle(pc) ==> |IdleWorkers(workers[w := pc])| == |IdleWorkers(workers)|
  {
    assert workers[w := pc].Keys == workers.Keys;
    var before, after := IdleWorkers(workers), IdleWorkers(workers[w := pc]);
    if IsIdle(pc) {
      assert after == before + {w};
      if IsIdle(workers[w]) {
        assert after == before;
      }
    } else {
      assert after == before - {w};
      if !IsIdle(workers[w]) {
        assert after == before;
      }
    }
  }

  lemma WorkerJoins(workers: map<int, WorkerPc>, w: int)
    requires w !in workers
    ensures |workers[w := Top]| == |workers| + 1
    ensures |IdleWorkers(workers[w := Top])| == |IdleWorkers(workers)| + 1
  {
    assert workers[w := Top].Keys == workers.Keys + {w};
    assert IdleWorkers(workers[w := Top]) == IdleWorkers(workers) + {w};
  }

  lemma WorkerLeaves(workers: map<int, WorkerPc>, w: int)
    requires w in workers && IsIdle(workers[w])
    ensures |workers - {w}| == |workers| - 1
    ensures |IdleWorkers(workers - {w})| == |IdleWorkers(workers)| - 1
  {
    assert (workers - {w}).Keys == workers.Keys - {w};
    assert IdleWorkers(workers - {w}) == IdleWorkers(workers) - {w};
  }

  lemma WakingCounts(workers: map<int, WorkerPc>)
    ensures |WakeAll(workers)| == |workers|
    ensures IdleWorkers(WakeAll(workers)) == IdleWorkers(workers)
  {
    var awake := WakeAll(workers);
    assert |awake.Keys| == |workers.Keys|;
    forall w
      ensures w in IdleWorkers(awake) <==> w in IdleWorkers(workers)
    {
      if w in workers {
        assert IsIdle(awake[w]) <==> IsIdle(workers[w]);
      }
    }
  }

  lemma StepKeepsCounters(s: Pool, step: Step)
    requires Inv(s) && Enabled(s, step)
    ensures CountersExact(Apply(s, step))
  {
    match step
    case Submit(_, task, thread) =>
      WakingCounts(s.workers);
      WorkerJoins(WakeAll(s.workers), thread);
      assert task !in s.queue;
    case WorkerSleeps(w) => WorkerChanges(s.workers, w, Apply(s, step).workers[w]);
    case WorkerResleeps(w) => WorkerChanges(s.workers, w, Apply(s, step).workers[w]);
    case WorkerTakes(w, task) => WorkerChanges(s.workers, w, Popped(task));
    case WorkerExits(w) => WorkerLeaves(s.workers, w);
    case NotifyNotFull(w) => WorkerChanges(s.workers, w, Running(s.workers[w].task));
    case TaskEnds(w) => WorkerChanges(s.workers, w, Finishing);
    case WorkerIdles(w) => WorkerChanges(s.workers, w, Top);
    case _ =>
  }

  lemma StepKeepsTasks(s: Pool, step: Step)
    requires Conserved(s) && Enabled(s, step)
    ensures Conserved(Apply(s, step))
  {
    var s' := Apply(s, step);
    match step
    case Submit(_, task, _) => SubmitKeepsTasks(s, step);
    case WorkerTakes(w, task) => TakeKeepsTasks(s, w, task);
    case NotifyNotFull(w) => NotifyKeepsTasks(s, w);
    case TaskEnds(w) => EndKeepsTasks(s, w);
    case _ =>
      hide Conserved;
      HoldersUnchanged(s, s');
  }

  lemma TakeKeepsTasks(s: Pool, w: int, task: Task)
    requires Conserved(s) && Enabled(s, WorkerTakes(w, task))
    ensures Conserved(Apply(s, WorkerTakes(w, task)))
  {
    var s' := Apply(s, WorkerTakes(w, task));
    assert Holds(s'.workers[w], task);
    OthersHoldOn(s, s', w, task);
  }

  lemma NotifyKeepsTasks(s: Pool, w: int)
    requires Conserved(s) && Enabled(s, NotifyNotFull(w))
    ensures Conserved(Apply(s, NotifyNotFull(w)))
  {
    var s' := Apply(s, NotifyNotFull(w));
    assert Holds(s'.workers[w], s.workers[w].task);
    OthersHoldOn(s, s', w, s.workers[w].task);
  }

  lemma EndKeepsTasks(s: Pool, w: int)
    requires Conserved(s) && Enabled(s, TaskEnds(w))
    ensures Conserved(Apply(s, TaskEnds(w)))
  {
    OthersHoldOn(s, Apply(s, TaskEnds(w)), w, s.workers[w].task);
  }

  /** A step of worker w that only concerns the task t leaves every other task where it is held. */
  lemma OthersHoldOn(s: Pool, s': Pool, w: int, t: Task)
    requires w in s.workers && s'.workers.Keys == s.workers.Keys
    requires forall v | v in s.workers && v != w :: s'.workers[v] == s.workers[v]
    requires forall other | Holds(s.workers[w], other) :: other == t
    ensures forall other | Held(s.workers, other) && other != t :: Held(s'.workers, other)
  {
    forall other | Held(s.workers, other) && other != t
      ensures Held(s'.workers, other)
    {
      var v :| v in s.workers && Holds(s.workers[v], other);
      assert v != w;
      assert Holds(s'.workers[v], other);
    }
  }

  /** The same tasks are held by the same workers. */
  ghost predicate SameHolders(workers: map<int, WorkerPc>, workers': map<int, WorkerPc>) {
    && (forall w, task | w in workers && Holds(workers[w], task) ::
          w in workers' && Holds(workers'[w], task))
    && (forall w, task | w in workers' && Holds(workers'[w], task) ::
          w in workers && Holds(workers[w], task))
  }

  lemma SameHeld(workers: map<int, WorkerPc>, workers': map<int, WorkerPc>, task: Task)
    requires SameHolders(workers, workers')
    ensures Held(workers, task) ==> Held(workers', task)
  {
    if Held(workers, task) {
      var w :| w in workers && Holds(workers[w], task);
      assert Holds(workers'[w], task);
    }
  }

  /** A step in which nobody takes or gives up a task. */
  lemma HoldersUnchanged(s: Pool, s': Pool)
    requires Conserved(s)
    requires s'.queue == s.queue && s'.accepted == s.accepted && s'.finished == s.finished
    requires SameHolders(s.workers, s'.workers)
    ensures Conserved(s')
  {
    forall task | task in s.accepted && task !in s.queue && task !in s.finished
      ensures Held(s'.workers, task)
    {
      SameHeld(s.workers, s'.workers, task);
    }
  }

  lemma WakingKeepsHolders(workers: map<int, WorkerPc>, thread: int)
    requires thread !in workers
    ensures SameHolders(workers, WakeAll(workers))
    ensures SameHolders(workers, WakeAll(workers)[thread := Top])
  {
  }

  lemma SubmitKeepsTasks(s: Pool, step: Step)
    requires Conserved(s) && Enabled(s, step) && step.Submit?
    ensures Conserved(Apply(s, step))
  {
    var s' := Apply(s, step);
    WakingKeepsHolders(s.workers, step.newThread);
    QueueingConserves(s, s.(workers := s'.workers), step.task);
    assert Conserved(s.(workers := s'.workers, queue := s.queue + {step.task}, accepted := s.accepted + {step.task}));
  }

  lemma QueueingConserves(s: Pool, m: Pool, task: Task)
    requires Conserved(s)
    requires m == s.(workers := m.workers) && SameHolders(s.workers, m.workers)
    requires forall other | other in s.accepted :: other.id != task.id
    ensures Conserved(m.(queue := s.queue + {task}, accepted := s.accepted + {task}))
  {
    HoldersUnchanged(s, m);
    assert task !in s.accepted;
  }

  lemma StepKeepsLog(s: Pool, step: Step)
    requires Inv(s) && Enabled(s, step)
    ensures LogExact(Apply(s, step))
  {
    var s' := Apply(s, step);
    match step
    case Submit(_, task, _) => assert task !in s.dequeued;
    case WorkerTakes(_, task) =>
      assert task !in s.dequeued;
      forall other
        ensures other in s'.dequeued <==> other in s'.accepted && other !in s'.queue
      {
        assert other in s'.dequeued <==> other in s.dequeued || other == task;
      }
    case _ =>
  }

  lemma StepKeepsWorkersAwake(s: Pool, step: Step)
    requires CountersExact(s) && NobodySleepsOnWork(s) && Enabled(s, step)
    ensures NobodySleepsOnWork(Apply(s, step))
  {
    match step
    case WorkerSleeps(_) => assert s.queue == {};
    case WorkerResleeps(_) => assert s.queue == {};
    case WorkerExits(_) => assert s.queue == {};
    case WorkerTakes(w, task) =>
      hide CountersExact;
      assert s.queue != {};
    case Submit(t, task, thread) =>
      hide CountersExact;
      SubmitWakesAll(s, t, task, thread);
    case _ => hide CountersExact;
  }

  lemma SubmitWakesAll(s: Pool, submitter: int, task: Task, thread: int)
    ensures forall w | w in Enqueue(s, submitter, task, thread).workers ::
              !Enqueue(s, submitter, task, thread).workers[w].Asleep?
  {
  }

  lemma StepKeepsSubmittersAwake(s: Pool, step: Step)
    requires Inv(s) && Enabled(s, step)
    ensures NobodySleepsOnRoom(Apply(s, step))
  {
    var s' := Apply(s, step);
    if s'.size < s'.cfg.maxQueue && exists t | t in s'.waiters :: !s'.waiters[t] {
      var t :| t in s'.waiters && !s'.waiters[t];
      match step
      case WorkerTakes(w, task) => assert s'.workers[w].Popped?;
      case NotifyNotFull(_) => assert false;
      case SubmitWaits(_) => assert false;
      case SubmitTimesOut(_) => assert false;
      case _ =>
        assert t in s.waiters && !s.waiters[t];
        var w :| w in s.workers && s.workers[w].Popped?;
        assert w in s'.workers && s'.workers[w].Popped?;
    }
  }

  lemma StepKeepsGrowth(s: Pool, step: Step)
    requires Inv(s) && Enabled(s, step)
    ensures GrownToDemand(Apply(s, step))
  {
    if step.WorkerExits? {
      WorkerLeaves(s.workers, step.worker);
    }
  }

  lemma SubmitKeepsStaff(s: Pool, step: Step)
    requires Inv(s) && Enabled(s, step) && step.Submit?
    ensures Staffed(Apply(s, step))
  {
    var s' := Apply(s, step);
    if Grows(s) {
      assert step.newThread in s'.workers;
    } else {
      assert s'.workers == WakeAll(s.workers);
      if CanServe(s.cfg) {
        SomebodyIsThere(s);
        var w := SomeMember(s.workers.Keys);
        assert w in s'.workers;
      }
    }
  }

  /** If a submission creates no thread, some worker is there already. */
  lemma SomebodyIsThere(s: Pool)
    requires CountersExact(s) && Staffed(s) && CanServe(s.cfg) && !Grows(s)
    ensures s.workers != map[]
  {
    if s.cfg.cached && s.current < s.cfg.maxThreads {
      var w := SomeMember(IdleWorkers(s.workers));
    }
  }

  lemma SomeMember(ws: set<int>) returns (w: int)
    requires |ws| != 0
    ensures w in ws
  {
    if forall x :: x !in ws {
      assert false;
    }
    w :| w in ws;
  }

  lemma StepKeepsStaff(s: Pool, step: Step)
    requires Inv(s) && Enabled(s, step)
    ensures Staffed(Apply(s, step))
  {
    var s' := Apply(s, step);
    match step
    case Submit(_, _, _) => SubmitKeepsStaff(s, step);
    case WorkerExits(w) => assert s.cfg.cached;
    case WorkerSleeps(w) => assert w in s'.workers;
    case WorkerResleeps(w) => assert w in s'.workers;
    case WorkerTakes(w, _) => assert w in s'.workers;
    case NotifyNotFull(w) => assert w in s'.workers;
    case TaskEnds(w) => assert w in s'.workers;
    case WorkerIdles(w) => assert w in s'.workers;
    case _ =>
  }

  lemma StepKeepsInv(s: Pool, step: Step)
    requires Inv(s) && Enabled(s, step)
    ensures Inv(Apply(s, step))
  {
    StepKeepsCounters(s, step);
    StepKeepsTasks(s, step);
    StepKeepsLog(s, step);
    StepKeepsWorkersAwake(s, step);
    StepKeepsSubmittersAwake(s, step);
    StepKeepsGrowth(s, step);
    StepKeepsStaff(s, step);
  }

  lemma StartsCounted(cfg: Config)
    ensures CountersExact(Start(cfg))
    ensures Staffed(Start(cfg))
  {
    var s := Start(cfg);
    var n := if cfg.initThreads <= cfg.maxThreads then cfg.initThreads else cfg.maxThreads;
    assert s.workers.Keys == Ids(n);
    assert IdleWorkers(s.workers) == Ids(n);
    if CanServe(cfg) && !cfg.cached {
      assert 0 in s.workers;
    }
  }

  lemma StartsInv(cfg: Config)
    ensures Inv(Start(cfg))
  {
    StartsCounted(cfg);
    hide CountersExact, Staffed;
  }

  lemma {:induction false} RunKeepsInv(s: Pool, steps: seq<Step>, t: Pool)
    requires Inv(s) && Reaches(s, steps, t)
    ensures Inv(t) && t.cfg == s.cfg
    decreases |steps|
  {
    if steps != [] {
      StepKeepsInv(s, steps[0]);
      RunKeepsInv(Apply(s, steps[0]), steps[1..], t);
    }
  }

  // ---- whole runs ----

  /** Every schedule keeps the counters exact and within limits, and every accepted task in
      exactly one of queued, held by one worker, finished. */
  lemma PoolConserves(cfg: Config, steps: seq<Step>, t: Pool)
    requires Reaches(Start(cfg), steps, t)
    ensures t.size == |t.queue| <= cfg.maxQueue
    ensures t.current == |t.workers| <= cfg.maxThreads
    ensures t.idle == |IdleWorkers(t.workers)|
    ensures forall task | task in t.accepted ::
              (task in t.queue && task !in t.finished && !Held(t.workers, task))
              || (task !in t.queue && task in t.finished && !Held(t.workers, task))
              || (task !in t.queue && task !in t.finished && Held(t.workers, task))
    ensures forall v, w, task |
              v in t.workers && w in t.workers && Holds(t.workers[v], task) && Holds(t.workers[w], task) ::
              v == w
    ensures forall i, j | 0 <= i < j < |t.dequeued| :: t.dequeued[i] != t.dequeued[j]
  {
    StartsInv(cfg);
    RunKeepsInv(Start(cfg), steps, t);
  }

  /** Every schedule: nobody sleeps un-notified on work there is or on room there is, and a cached
      pool below its maximum has an idle worker for every queued task. */
  lemma NoLostNotification(cfg: Config, steps: seq<Step>, t: Pool)
    requires Reaches(Start(cfg), steps, t)
    ensures t.queue != {} ==> forall w | w in t.workers :: !t.workers[w].Asleep?
    ensures t.size < cfg.maxQueue && (exists u | u in t.waiters :: !t.waiters[u]) ==>
              exists w | w in t.workers :: t.workers[w].Popped?
    ensures cfg.cached && t.current < cfg.maxThreads ==> t.size <= t.idle
  {
    StartsInv(cfg);
    RunKeepsInv(Start(cfg), steps, t);
  }

  /** Queued work is always about to be picked up: some worker can take the most urgent task right
      now, or every live worker is busy with a task (and there is at least one). */
  lemma WorkIsPickedUp(cfg: Config, steps: seq<Step>, t: Pool)
    requires CanServe(cfg) && Reaches(Start(cfg), steps, t) && t.queue != {}
    ensures (exists w, task :: Enabled(t, WorkerTakes(w, task)))
            || (t.workers != map[] && t.idle == 0)
  {
    StartsInv(cfg);
    RunKeepsInv(Start(cfg), steps, t);
    if t.idle != 0 {
      var w := SomeMember(IdleWorkers(t.workers));
      var task := SomeMostUrgent(t.queue);
      assert Enabled(t, WorkerTakes(w, task));
    }
  }

  lemma {:induction false} SomeMostUrgent(queue: set<Task>) returns (task: Task)
    requires queue != {}
    ensures MostUrgent(queue, task)
    decreases |queue|
  {
    task :| task in queue;
    if queue != {task} {
      var rest := queue - {task};
      assert |rest| < |queue|;
      var best := SomeMostUrgent(rest);
      if best.priority < task.priority {
        task := best;
      }
    }
  }

  lemma NotStranded(cfg: Config, steps: seq<Step>, t: Pool)
    requires CanServe(cfg) || cfg.maxQueue == 0
    requires Reaches(Start(cfg), steps, t)
    ensures t.queue != {} ==> t.workers != map[]
  {
    StartsInv(cfg);
    RunKeepsInv(Start(cfg), steps, t);
  }

  ghost predicate NeverStrands(cfg: Config) {
    forall steps, t :: Reaches(Start(cfg), steps, t) && t.queue != {} ==> t.workers != map[]
  }

  /** The pool never strands a task in a queue without workers exactly when it is configured to
      hold workers at all, or to refuse all tasks. */
  lemma NeverStrandsExactly(cfg: Config)
    ensures NeverStrands(cfg) <==> CanServe(cfg) || cfg.maxQueue == 0
  {
    if CanServe(cfg) || cfg.maxQueue == 0 {
      forall steps, t | Reaches(Start(cfg), steps, t) && t.queue != {}
        ensures t.workers != map[]
      {
        NotStranded(cfg, steps, t);
      }
    } else {
      var steps, t := StrandedTask(cfg);
    }
  }

  /** Without workers, and without the right to create one, the first task is accepted and stays. */
  lemma StrandedTask(cfg: Config) returns (steps: seq<Step>, t: Pool)
    requires !CanServe(cfg) && cfg.maxQueue > 0
    ensures Reaches(Start(cfg), steps, t)
    ensures t.queue != {} && t.workers == map[]
  {
    var s := Start(cfg);
    assert s.workers == map[];
    var step := Submit(0, Task(0, 1), 0);
    t := Apply(s, step);
    steps := [step];
    assert Reaches(t, steps[1..], t);
    assert Task(0, 1) in t.queue;
    assert WakeAll(s.workers) == map[];
  }

  // ---- how many threads there are ----

  function Least(a: nat, b: nat): (m: nat)
    ensures m <= a && m <= b && (m == a || m == b)
  {
    if a <= b then a else b
  }

  /** A started pool has as many threads as asked for and allowed, all idle, and nothing to do. */
  lemma StartsWithItsThreads(cfg: Config)
    ensures |Start(cfg).workers| == Least(cfg.initThreads, cfg.maxThreads)
    ensures Start(cfg).current == Start(cfg).idle == Least(cfg.initThreads, cfg.maxThreads)
    ensures forall w | w in Start(cfg).workers :: Start(cfg).workers[w] == Top
    ensures Start(cfg).queue == Start(cfg).accepted == {} && Start(cfg).waiters == map[]
  {
    StartsCounted(cfg);
  }

  /** The threads of a fixed pool are never more nor fewer. */
  lemma {:induction false} FixedRunKeepsThreads(s: Pool, steps: seq<Step>, t: Pool)
    requires Inv(s) && Reaches(s, steps, t) && !s.cfg.cached
    ensures t.workers.Keys == s.workers.Keys && !t.cfg.cached
    decreases |steps|
  {
    if steps != [] {
      StepKeepsInv(s, steps[0]);
      FixedStepKeepsThreads(s, steps[0]);
      hide Inv, Apply;
      FixedRunKeepsThreads(Apply(s, steps[0]), steps[1..], t);
    }
  }

  lemma FixedStepKeepsThreads(s: Pool, step: Step)
    requires Staffed(s) && Enabled(s, step) && !s.cfg.cached
    ensures Apply(s, step).workers.Keys == s.workers.Keys && !Apply(s, step).cfg.cached
  {
  }

  /** In every schedule of a fixed pool there are exactly the threads it was started with. */
  lemma FixedPoolKeepsItsThreads(cfg: Config, steps: seq<Step>, t: Pool)
    requires Reaches(Start(cfg), steps, t) && !cfg.cached
    ensures |t.workers| == Least(cfg.initThreads, cfg.maxThreads)
  {
    StartsInv(cfg);
    StartsWithItsThreads(cfg);
    FixedRunKeepsThreads(Start(cfg), steps, t);
    assert |t.workers| == |t.workers.Keys| == |Start(cfg).workers.Keys|;
  }

  /** In every schedule, told from the threads and tasks there are: a submission adds a thread exactly to a
      cached pool below its maximum in which the new task makes more tasks than idle threads; and a worker
      that goes to sleep will give up after a while exactly if it is one of more than the initial number. */
  lemma GrowsAndShrinksExactly(cfg: Config, steps: seq<Step>, t: Pool, step: Step)
    requires Reaches(Start(cfg), steps, t) && Enabled(t, step)
    ensures step.Submit? ==>
              (step.newThread in Apply(t, step).workers <==>
                 cfg.cached && |t.queue| + 1 > |IdleWorkers(t.workers)| && |t.workers| < cfg.maxThreads)
    ensures step.WorkerSleeps? ==>
              (Apply(t, step).workers[step.worker].Asleep? && Apply(t, step).workers[step.worker].timed <==>
                 cfg.cached && |t.workers| > cfg.initThreads)
    ensures step.WorkerExits? ==> cfg.cached && t.queue == {} && !IsBusy(t.workers[step.worker])
  {
    StartsInv(cfg);
    RunKeepsInv(Start(cfg), steps, t);
  }

  /** Holds a task, or has just finished one. */
  predicate IsBusy(pc: WorkerPc) {
    pc.Popped? || pc.Running? || pc.Finishing?
  }

  // ---- priorities ----

  /** In the log, a comes before b. */
  ghost predicate Precedes(log: seq<Task>, a: Task, b: Task) {
    exists i, j :: 0 <= i < j < |log| && log[i] == a && log[j] == b
  }

  ghost predicate Ahead(s: Pool, a: Task, b: Task) {
    && a in s.accepted && b in s.accepted
    && (b !in s.queue ==> Precedes(s.dequeued, a, b))
  }

  lemma StepKeepsAhead(s: Pool, step: Step, a: Task, b: Task)
    requires Inv(s) && Enabled(s, step)
    requires Ahead(s, a, b) && a.priority < b.priority
    ensures Ahead(Apply(s, step), a, b)
  {
    var s' := Apply(s, step);
    if b !in s'.queue {
      if b in s.queue {
        assert step.WorkerTakes? && step.task == b;
        assert a !in s.queue;
        assert a in s.dequeued;
        var i :| 0 <= i < |s.dequeued| && s.dequeued[i] == a;
        assert s'.dequeued[i] == a && s'.dequeued[|s.dequeued|] == b;
      } else {
        var i, j :| 0 <= i < j < |s.dequeued| && s.dequeued[i] == a && s.dequeued[j] == b;
        assert s'.dequeued[i] == a && s'.dequeued[j] == b;
      }
    }
  }

  lemma {:induction false} RunKeepsAhead(s: Pool, steps: seq<Step>, t: Pool, a: Task, b: Task)
    requires Inv(s) && Reaches(s, steps, t)
    requires Ahead(s, a, b) && a.priority < b.priority
    ensures Inv(t) && Ahead(t, a, b)
    decreases |steps|
  {
    if steps != [] {
      StepKeepsInv(s, steps[0]);
      StepKeepsAhead(s, steps[0], a, b);
      RunKeepsAhead(Apply(s, steps[0]), steps[1..], t, a, b);
    }
  }

  /** Over whole runs: if two tasks are ever queued at the same moment, the more urgent one is
      dequeued first. */
  lemma MoreUrgentGoesFirst(cfg: Config, before: seq<Step>, s: Pool, steps: seq<Step>, t: Pool, a: Task, b: Task)
    requires Reaches(Start(cfg), before, s) && Reaches(s, steps, t)
    requires a in s.queue && b in s.queue && a.priority < b.priority
    ensures b in t.dequeued ==> Precedes(t.dequeued, a, b)
    ensures a in t.queue ==> b in t.queue
  {
    StartsInv(cfg);
    RunKeepsInv(Start(cfg), before, s);
    RunKeepsAhead(s, steps, t, a, b);
  }
}
