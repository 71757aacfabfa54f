/** The event loop's mailbox as a step machine: any number of producer threads hand work to the
    loop thread. A critical section or a system call is one step; everything else interleaves. */
module EventLoop {

  const COUNTER_MAX: nat := 0xFFFF_FFFF_FFFF_FFFE

  /** A queued functor. It is announced when the code path that queued it goes on to write the
      eventfd, which is every path but queueInLoop on the loop thread while it is looping. */
  datatype Job = Job(id: int, announced: bool)

  /** Where the loop thread is. */
  datatype LoopPc =
    | NotLooping
    | EarlyPushed
    | Polling
    | Dispatching(wakeReady: bool)
    | Emptying
    | Dispatched
    | RunningBatch

  datatype State = State(
    pc: LoopPc,
    pending: seq<Job>,
    batch: seq<Job>,
    executed: seq<Job>,
    counter: nat,
    writing: set<int>,
    history: seq<Job>,
    owed: nat)

  datatype Step =
    | ProducerPush(thread: int, id: int)
    | ProducerWrite(thread: int)
    | EarlyPush(id: int)
    | EarlyWrite
    | StartLoop
    | PollReturns(wakeReady: bool)
    | WakeupHandler
    | ReadCounter
    | CounterEmpty
    | HandlersDone
    | SwapPending
    | RunNext
    | BatchDone
    | LoopThreadPush(id: int)

  const INIT := State(NotLooping, [], [], [], 0, {}, [], 0)

  predicate Enabled(s: State, step: Step) {
    match step
    case ProducerPush(t, _) => t !in s.writing
    case ProducerWrite(t) => t in s.writing
    case EarlyPush(_) => s.pc == NotLooping
    case EarlyWrite => s.pc == EarlyPushed
    case StartLoop => s.pc == NotLooping
    case PollReturns(w) => s.pc == Polling && (w ==> s.counter > 0)
    case WakeupHandler => s.pc == Dispatching(true)
    case ReadCounter => s.pc == Emptying && s.counter > 0
    case CounterEmpty => s.pc == Emptying && s.counter == 0
    case HandlersDone => s.pc == Dispatching(false)
    case SwapPending => s.pc == Dispatched
    case RunNext => s.pc == RunningBatch && s.batch != []
    case BatchDone => s.pc == RunningBatch && s.batch == []
    case LoopThreadPush(_) => s.pc.Dispatching? || s.pc == RunningBatch
  }

  function Push(s: State, job: Job): State {
    s.(pending := s.pending + [job], history := s.history + [job])
  }

  /** Writing 1 to the eventfd; a full counter answers EAGAIN and stays as it is. */
  function Signal(counter: nat): nat {
    if counter >= COUNTER_MAX then counter else counter + 1
  }

  function Apply(s: State, step: Step): State
    requires Enabled(s, step)
  {
    match step
    case ProducerPush(t, id) => Push(s, Job(id, true)).(writing := s.writing + {t})
    case ProducerWrite(t) => s.(counter := Signal(s.counter), writing := s.writing - {t})
    case EarlyPush(id) => Push(s, Job(id, true)).(pc := EarlyPushed)
    case EarlyWrite => s.(counter := Signal(s.counter), pc := NotLooping)
    case StartLoop => s.(pc := Polling)
    case PollReturns(w) => s.(pc := Dispatching(w), owed := |s.history|)
    case WakeupHandler => s.(pc := Emptying)
    case ReadCounter => s.(counter := 0)
    case CounterEmpty => s.(pc := Dispatching(false))
    case HandlersDone => s.(pc := Dispatched)
    case SwapPending => s.(pc := RunningBatch, batch := s.pending, pending := [])
    case RunNext => s.(executed := s.executed + [s.batch[0]], batch := s.batch[1..])
    case BatchDone => s.(pc := Polling)
    case LoopThreadPush(id) => Push(s, Job(id, false))
  }

  /** The schedule `steps` can be taken from s and ends in t. */
  predicate Reaches(s: State, steps: seq<Step>, t: State)
    decreases |steps|
  {
    if steps == [] then s == t
    else Enabled(s, steps[0]) && Reaches(Apply(s, steps[0]), steps[1..], t)
  }

  /** Somebody will make epoll_wait return: the eventfd is readable, or a thread stands between
      its push and its write. */
  predicate WakeupDue(s: State) {
    s.counter > 0 || s.writing != {} || s.pc == EarlyPushed
  }

  predicate HasAnnounced(jobs: seq<Job>) {
    exists i :: 0 <= i < |jobs| && jobs[i].announced
  }

  /** Work is run in the order it was pushed; nothing is lost, doubled or reordered. */
  predicate InOrder(s: State) {
    s.executed + s.batch + s.pending == s.history
  }

  /** An announced job is never left behind a loop that is heading for, or blocked in, epoll_wait. */
  predicate NoLostWakeup(s: State) {
    s.pc in {NotLooping, EarlyPushed, Polling, RunningBatch} && HasAnnounced(s.pending) ==> WakeupDue(s)
  }

  /** All that was pushed before epoll_wait last returned is dealt with in that iteration. */
  predicate KeepsUp(s: State) {
    && s.owed <= |s.history|
    && (s.pc in {NotLooping, EarlyPushed} ==> s.owed == 0)
    && (s.pc != RunningBatch ==> s.batch == [])
    && (s.pc == RunningBatch ==> |s.executed| + |s.batch| >= s.owed)
    && (s.pc == Polling ==> |s.executed| >= s.owed)
  }

  predicate Inv(s: State) {
    InOrder(s) && NoLostWakeup(s) && KeepsUp(s) && s.counter <= COUNTER_MAX
  }

  lemma PushKeepsOrder(s: State, job: Job)
    requires InOrder(s)
    ensures InOrder(Push(s, job))
  {
    assert s.executed + s.batch + (s.pending + [job]) == s.executed + s.batch + s.pending + [job];
  }

  lemma StepKeepsOrder(s: State, step: Step)
    requires Inv(s) && Enabled(s, step)
    ensures InOrder(Apply(s, step))
  {
    match step
    case ProducerPush(t, id) => PushKeepsOrder(s, Job(id, true));
    case EarlyPush(id) => PushKeepsOrder(s, Job(id, true));
    case LoopThreadPush(id) => PushKeepsOrder(s, Job(id, false));
    case SwapPending =>
      assert s.executed + [] + s.pending == s.executed + s.pending + [];
    case RunNext =>
      assert s.batch == [s.batch[0]] + s.batch[1..];
      assert s.executed + s.batch == s.executed + [s.batch[0]] + s.batch[1..];
    case _ =>
  }

  lemma StepKeepsWakeup(s: State, step: Step)
    requires Inv(s) && Enabled(s, step)
    ensures NoLostWakeup(Apply(s, step))
  {
    var s' := Apply(s, step);
    match step
    case ProducerPush(t, _) => assert t in s'.writing;
    case LoopThreadPush(id) =>
      if HasAnnounced(s'.pending) {
        var i :| 0 <= i < |s'.pending| && s'.pending[i].announced;
        assert i < |s.pending| && s.pending[i].announced;
      }
    case _ =>
  }

  lemma StepKeepsInv(s: State, step: Step)
    requires Inv(s) && Enabled(s, step)
    ensures Inv(Apply(s, step))
    ensures s.history <= Apply(s, step).history
    ensures s.owed <= Apply(s, step).owed
  {
    StepKeepsOrder(s, step);
    StepKeepsWakeup(s, step);
  }

  lemma {:induction false} RunKeepsInv(s: State, steps: seq<Step>, t: State)
    requires Inv(s) && Reaches(s, steps, t)
    ensures Inv(t)
    ensures s.history <= t.history
    ensures s.owed <= t.owed
    decreases |steps|
  {
    if steps != [] {
      StepKeepsInv(s, steps[0]);
      RunKeepsInv(Apply(s, steps[0]), steps[1..], t);
    }
  }

  /** Every schedule: executed, then the rest of the batch, then pending is the push history. */
  lemma MailboxIsFifo(steps: seq<Step>, t: State)
    requires Reaches(INIT, steps, t)
    ensures t.executed + t.batch + t.pending == t.history
  {
    RunKeepsInv(INIT, steps, t);
  }

  /** Every schedule: if the loop is at epoll_wait with announced work pending, the eventfd is
      non-zero or some producer is between its push and its write. */
  lemma NoAnnouncedJobSleeps(steps: seq<Step>, t: State)
    requires Reaches(INIT, steps, t)
    requires t.pc == Polling && HasAnnounced(t.pending)
    ensures t.counter > 0 || t.writing != {}
    ensures t.writing == {} ==> Enabled(t, PollReturns(true))
  {
    RunKeepsInv(INIT, steps, t);
  }

  /** One trip round the loop suffices: whatever was pushed before epoll_wait returned has been
      executed, in order, by the time the loop polls again, whatever else happened meanwhile. */
  lemma IterationRunsEverythingPushedBefore(
    before: seq<Step>, s: State, ready: bool, steps: seq<Step>, t: State)
    requires Reaches(INIT, before, s)
    requires Enabled(s, PollReturns(ready))
    requires Reaches(Apply(s, PollReturns(ready)), steps, t) && t.pc == Polling
    ensures s.history <= t.executed
  {
    RunKeepsInv(INIT, before, s);
    StepKeepsInv(s, PollReturns(ready));
    RunKeepsInv(Apply(s, PollReturns(ready)), steps, t);
    assert t.history == t.executed + (t.batch + t.pending);
    assert t.executed == t.history[..|t.executed|];
  }

  // ---- the loop always gets back to epoll_wait ----

  /** Done by the loop thread itself on its way round. */
  predicate OnItsWay(step: Step) {
    step in {WakeupHandler, ReadCounter, CounterEmpty, HandlersDone, SwapPending, RunNext, BatchDone}
  }

  lemma GoOn(s: State, step: Step, steps: seq<Step>, t: State)
    requires Enabled(s, step) && Reaches(Apply(s, step), steps, t)
    ensures Reaches(s, [step] + steps, t)
  {
    hide Apply, Enabled;
    assert ([step] + steps)[1..] == steps;
  }

  /** How much the loop thread has to do before it polls again. */
  function Remaining(s: State): nat {
    match s.pc
    case RunningBatch => |s.batch| + 1
    case Dispatched => |s.pending| + 2
    case Dispatching(false) => |s.pending| + 3
    case Emptying => |s.pending| + (if s.counter > 0 then 5 else 4)
    case Dispatching(true) => |s.pending| + 6
    case _ => 0
  }

  /** From everywhere past epoll_wait the loop thread's own steps lead back to it, in a number of steps that
      is bounded by the work there is: emptying the eventfd ends, and so does the batch. */
  lemma {:induction false} PollsAgain(s: State) returns (steps: seq<Step>, t: State)
    requires s.pc.Dispatching? || s.pc in {Emptying, Dispatched, RunningBatch}
    ensures Reaches(s, steps, t) && t.pc == Polling && |steps| <= Remaining(s)
    ensures forall i | 0 <= i < |steps| :: OnItsWay(steps[i])
    ensures s.pc in {Dispatching(true), Emptying} ==> t.counter == 0
    ensures s.pc !in {Dispatching(true), Emptying} ==> t.counter == s.counter
    decreases Remaining(s)
  {
    var step := match s.pc
      case RunningBatch => if s.batch == [] then BatchDone else RunNext
      case Dispatched => SwapPending
      case Dispatching(ready) => if ready then WakeupHandler else HandlersDone
      case Emptying => if s.counter > 0 then ReadCounter else CounterEmpty
      case _ => StartLoop;
    var next := Apply(s, step);
    if step == BatchDone {
      steps, t := [], next;
    } else {
      steps, t := PollsAgain(next);
    }
    GoOn(s, step, steps, t);
    steps := [step] + steps;
  }

  // ---- work the loop thread queues for itself is the only work that can sleep ----

  function SelfPushes(ids: seq<int>): seq<Step> {
    seq(|ids|, i requires 0 <= i < |ids| => LoopThreadPush(ids[i]))
  }

  function SelfJobs(ids: seq<int>): seq<Job> {
    seq(|ids|, i requires 0 <= i < |ids| => Job(ids[i], false))
  }

  lemma {:induction false} RunsCompose(s: State, first: seq<Step>, t: State, second: seq<Step>, u: State)
    requires Reaches(s, first, t) && Reaches(t, second, u)
    ensures Reaches(s, first + second, u)
    decreases |first|
  {
    if first == [] {
      assert first + second == second;
    } else {
      RunsCompose(Apply(s, first[0]), first[1..], t, second, u);
      assert (first + second)[1..] == first[1..] + second;
    }
  }

  lemma {:induction false} SelfPushesRun(s: State, ids: seq<int>)
    requires s.pc == RunningBatch
    ensures Reaches(s, SelfPushes(ids),
                    s.(pending := s.pending + SelfJobs(ids), history := s.history + SelfJobs(ids)))
    decreases |ids|
  {
    if ids == [] {
      assert s.pending + [] == s.pending && s.history + [] == s.history;
    } else {
      var s' := Apply(s, LoopThreadPush(ids[0]));
      SelfPushesRun(s', ids[1..]);
      assert SelfPushes(ids)[1..] == SelfPushes(ids[1..]);
      assert SelfJobs(ids) == [Job(ids[0], false)] + SelfJobs(ids[1..]);
      assert s'.pending + SelfJobs(ids[1..]) == s.pending + SelfJobs(ids);
      assert s'.history + SelfJobs(ids[1..]) == s.history + SelfJobs(ids);
    }
  }

  /** Some schedule ends at epoll_wait with exactly these jobs pending and no wakeup on its way. */
  ghost predicate CanSleepOn(jobs: seq<Job>) {
    exists steps, t ::
      Reaches(INIT, steps, t) && t.pc == Polling && t.pending == jobs && !WakeupDue(t)
  }

  /** The loop can fall asleep on pending work exactly when all of that work was queued by the
      loop thread itself (then it waits for the next event or the ten-second timeout). */
  lemma SleepsExactlyOnOwnJobs(jobs: seq<Job>)
    ensures CanSleepOn(jobs) <==> forall i :: 0 <= i < |jobs| ==> !jobs[i].announced
  {
    if CanSleepOn(jobs) {
      var steps, t :| Reaches(INIT, steps, t) && t.pc == Polling && t.pending == jobs && !WakeupDue(t);
      RunKeepsInv(INIT, steps, t);
    }
    if forall i :: 0 <= i < |jobs| ==> !jobs[i].announced {
      var steps, t := FallsAsleepOn(jobs);
    }
  }

  /** An idle iteration whose handlers queue these jobs. */
  lemma FallsAsleepOn(jobs: seq<Job>) returns (steps: seq<Step>, t: State)
    requires forall i :: 0 <= i < |jobs| ==> !jobs[i].announced
    ensures Reaches(INIT, steps, t) && t.pc == Polling && t.pending == jobs && !WakeupDue(t)
  {
    var ids := seq(|jobs|, i requires 0 <= i < |jobs| => jobs[i].id);
    assert SelfJobs(ids) == jobs;
    var running := INIT.(pc := RunningBatch);
    IdleIteration(running);
    SelfPushesRun(running, ids);
    hide SelfJobs, SelfPushes;
    var full := running.(pending := running.pending + SelfJobs(ids), history := running.history + SelfJobs(ids));
    assert running.pending + jobs == jobs;
    t := full.(pc := Polling);
    assert Reaches(t, [], t);
    GoOn(full, BatchDone, [], t);
    hide Reaches, Apply, Enabled;
    RunsCompose(running, SelfPushes(ids), full, [BatchDone] + [], t);
    RunsCompose(INIT, TO_RUNNING, running, SelfPushes(ids) + ([BatchDone] + []), t);
    steps := TO_RUNNING + (SelfPushes(ids) + ([BatchDone] + []));
  }

  const TO_RUNNING: seq<Step> := [StartLoop, PollReturns(false), HandlersDone, SwapPending]

  lemma IdleIteration(running: State)
    requires running == INIT.(pc := RunningBatch)
    ensures Reaches(INIT, TO_RUNNING, running)
  {
    var s1 := Apply(INIT, StartLoop);
    var s2 := Apply(s1, PollReturns(false));
    var s3 := Apply(s2, HandlersDone);
    var s4 := Apply(s3, SwapPending);
    assert TO_RUNNING[1..] == [PollReturns(false), HandlersDone, SwapPending];
    assert TO_RUNNING[1..][1..] == [HandlersDone, SwapPending];
    assert [HandlersDone, SwapPending][1..] == [SwapPending];
    assert Reaches(s4, [SwapPending][1..], running);
    assert Reaches(s3, [SwapPending], running);
    assert Reaches(s2, [HandlersDone, SwapPending], running);
    assert Reaches(s1, TO_RUNNING[1..], running);
  }
}
