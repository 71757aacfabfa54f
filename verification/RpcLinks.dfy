/** The step machine of the whole system takes the steps of the parts: the client's search, the
    server's message callback and the worker pool. */
module RpcLinks {
  import opened Wrappers
  import opened Bytes
  import opened Frames
  import opened Streams
  import opened Rpc
  import opened RpcSystem
  import Client = RpcChannel
  import Server = RpcServer
  import Pool = ThreadPool

  // ---- the client's search ----

  /** Once bytes have been read, the client's decoding steps come to exactly what the search over the
      received bytes comes to. */
  lemma {:induction false} DecodingIsSearch(w: World, s: Sys) returns (steps: seq<Step>, t: Sys)
    requires s.phase == Scanning && s.calls != [] && s.sent != []
    ensures Reaches(w, s, steps, t) && forall i | 0 <= i < |steps| :: steps[i] == ClientDecodes
    ensures match SearchReply(w, s.clientIn, Last(s.sent).header.seqNo)
            case NotYet(rest) => t == s.(clientIn := rest, consumed := t.consumed, phase := Waiting)
            case Found(o, rest) => t == Finish(s.(clientIn := rest, consumed := t.consumed), o)
            case Broken(rest) => t == Finish(s.(clientIn := rest, consumed := t.consumed), Failed(UNKNOWN))
    decreases |s.clientIn|
  {
    hide DecodeOne, Judge;
    var next := Apply(w, s, ClientDecodes);
    if DecodeOne(s.clientIn).Frame? && !IsReplyTo(DecodeOne(s.clientIn).msg, Last(s.sent).header.seqNo) {
      FrameShrinks(s.clientIn);
      steps, t := DecodingIsSearch(w, next);
    } else {
      steps, t := [], next;
    }
    OneStep(w, s, ClientDecodes, steps, t);
    steps := [ClientDecodes] + steps;
  }

  /** Where the client stands in t, if a wait that began in s has come to this, having read so much. */
  ghost predicate StandsAt(s: Sys, wait: Client.Wait, read: nat, t: Sys) {
    && s.calls != [] && read <= |s.toClient| && t.sent == s.sent && t.toClient == s.toClient[read..]
    && match wait
       case Pending(rest) => t.phase == Waiting && t.clientIn == rest && t.calls == s.calls
       case Decided(o, rest) =>
         && t.phase == Idle && t.clientIn == rest
         && t.calls == s.calls[|s.calls| - 1 := Last(s.calls).(result := Some(o))]
  }

  function ReadBy(e: Client.PollEvent): seq<byte> {
    if e.Readable? then e.bytes else []
  }

  /** Whatever one round of the channel's wait meets and makes of it, the system's client can do. */
  lemma RoundIsSystemSteps(w: World, s: Sys, e: Client.PollEvent) returns (steps: seq<Step>, t: Sys)
    requires s.phase == Waiting && s.calls != [] && s.sent != [] && ReadBy(e) <= s.toClient
    ensures Reaches(w, s, steps, t)
    ensures StandsAt(s, Client.OnEvent(w, s.clientIn, e, Last(s.sent).header.seqNo), |ReadBy(e)|, t)
  {
    hide SearchReply, Judge, DecodeOne;
    match e {
      case Interrupted => steps, t := [], s;
      case NotReadable => steps, t := [], s;
      case PollFailed => steps, t := FailsWith(w, s, Failed(SYSTEM));
      case HungUp => steps, t := FailsWith(w, s, Closed);
      case ReadFails => steps, t := FailsWith(w, s, Closed);
      case Readable(bytes) =>
        if bytes == [] {
          steps, t := FailsWith(w, s, Closed);
        } else {
          steps, t := ReadsAndDecodes(w, s, bytes);
        }
    }
  }

  lemma FailsWith(w: World, s: Sys, o: Outcome) returns (steps: seq<Step>, t: Sys)
    requires s.phase == Waiting && s.calls != [] && (o == Closed || o == Failed(SYSTEM))
    ensures Reaches(w, s, steps, t) && StandsAt(s, Client.Decided(o, s.clientIn), 0, t)
  {
    t := Apply(w, s, ClientFails(o));
    SingleStep(w, s, ClientFails(o));
    steps := [ClientFails(o)];
  }

  lemma ReadsAndDecodes(w: World, s: Sys, bytes: seq<byte>) returns (steps: seq<Step>, t: Sys)
    requires s.phase == Waiting && s.calls != [] && s.sent != [] && [] < bytes <= s.toClient
    ensures Reaches(w, s, steps, t)
    ensures var found := SearchReply(w, s.clientIn + bytes, Last(s.sent).header.seqNo);
            StandsAt(s, Client.AfterSearch(found), |bytes|, t)
  {
    hide SearchReply, Judge, DecodeOne;
    var n := |bytes|;
    assert s.toClient[..n] == bytes;
    var s' := Apply(w, s, ClientReads(n));
    steps, t := DecodingIsSearch(w, s');
    hide Apply, Reaches;
    OneStep(w, s, ClientReads(n), steps, t);
    steps := [ClientReads(n)] + steps;
  }

  /** The channel's whole wait is a run of the system's client: reading from the wire just what the wait is
      said to have read, it comes to the same decision and leaves the same bytes, or is still waiting. */
  lemma {:induction false} WaitIsSystemRun(w: World, s: Sys, events: seq<Client.PollEvent>)
    returns (steps: seq<Step>, t: Sys, read: nat)
    requires s.phase == Waiting && s.calls != [] && s.sent != [] && Client.Delivered(events) <= s.toClient
    ensures Reaches(w, s, steps, t) && read <= |Client.Delivered(events)|
    ensures var wait := Client.Waited(w, s.clientIn, events, Last(s.sent).header.seqNo);
            StandsAt(s, wait, read, t) && (wait.Pending? ==> read == |Client.Delivered(events)|)
    decreases |events|
  {
    hide SearchReply, Judge, Client.OnEvent;
    if events == [] {
      steps, t, read := [], s, 0;
    } else {
      var front, e := events[..|events| - 1], events[|events| - 1];
      var before := Client.Delivered(front);
      assert Client.Delivered(events) == before + ReadBy(e);
      steps, t, read := WaitIsSystemRun(w, s, front);
      var wait := Client.Waited(w, s.clientIn, front, Last(s.sent).header.seqNo);
      if wait.Pending? {
        assert ReadBy(e) <= s.toClient[|before|..];
        var more, u := RoundIsSystemSteps(w, t, e);
        hide Reaches;
        RunsCompose(w, s, steps, t, more, u);
        assert s.toClient[|before|..][|ReadBy(e)|..] == s.toClient[|before| + |ReadBy(e)|..];
        steps, t, read := steps + more, u, |before| + |ReadBy(e)|;
      }
    }
  }

  // ---- the server's message callback ----

  /** Where the server stands after dispatching `seen`, having started from s0. */
  ghost predicate Dispatched(w: World, s0: Sys, seen: seq<Message>, accepts: Server.Verdicts, text: string, s: Sys) {
    && s.queued == s0.queued + multiset(Server.WithVerdict(seen, accepts, true))
    && s.serverOpen == s0.serverOpen
    && s.toClient == s0.toClient
       + (if s0.serverOpen then EncodeAll(Server.RefusalFrames(w, Server.WithVerdict(seen, accepts, false), text))
          else [])
  }

  lemma NothingDispatched(w: World, s: Sys, accepts: Server.Verdicts, text: string)
    ensures Dispatched(w, s, [], accepts, text, s)
  {
    assert s.toClient + [] == s.toClient;
  }

  lemma VerdictOneMore(seen: seq<Message>, m: Message, accepts: Server.Verdicts, wanted: bool)
    ensures Server.WithVerdict(seen + [m], accepts, wanted) ==
            if m.header.kind == REQUEST && accepts(Server.CountRequests(seen)) == wanted
            then Server.WithVerdict(seen, accepts, wanted) + [m] else Server.WithVerdict(seen, accepts, wanted)
  {
    assert (seen + [m])[..|seen|] == seen;
  }

  lemma RefusalsOneMore(w: World, refused: seq<Message>, m: Message, text: string)
    ensures EncodeAll(Server.RefusalFrames(w, refused + [m], text)) ==
            EncodeAll(Server.RefusalFrames(w, refused, text))
            + EncodeBytes(ResponseFrame(m.header.seqNo, w.serialize(Refusal(text))))
  {
    hide EncodeAll, EncodeBytes;
    var frame := ResponseFrame(m.header.seqNo, w.serialize(Refusal(text)));
    assert Server.RefusalFrames(w, refused + [m], text) == Server.RefusalFrames(w, refused, text) + [frame];
    EncodeAllAppend(Server.RefusalFrames(w, refused, text), frame);
  }

  lemma DispatchesOneMore(w: World, s0: Sys, seen: seq<Message>, accepts: Server.Verdicts, text: string, s: Sys)
    requires Dispatched(w, s0, seen, accepts, text, s) && DecodeOne(s.serverIn).Frame?
    ensures Dispatched(w, s0, seen + [DecodeOne(s.serverIn).msg], accepts, text,
                       Apply(w, s, ServerDecodes(accepts(Server.CountRequests(seen)), text)))
  {
    hide DecodeOne, EncodeBytes, EncodeAll, Server.WithVerdict, Server.RefusalFrames, Refusal, ResponseFrame;
    var m := DecodeOne(s.serverIn).msg;
    VerdictOneMore(seen, m, accepts, true);
    VerdictOneMore(seen, m, accepts, false);
    var refused := Server.WithVerdict(seen, accepts, false);
    RefusalsOneMore(w, refused, m, text);
    AppendAssociates(s0.toClient, EncodeAll(Server.RefusalFrames(w, refused, text)),
                     EncodeBytes(ResponseFrame(m.header.seqNo, w.serialize(Refusal(text)))));
  }

  /** The server's decoding steps, with the pool's verdict on every request, leave what one run of the
      message callback leaves: the same requests submitted, the same refusals on the wire, the same
      bytes unread, and the connection shut down after a codec error. */
  lemma DecodingIsDispatch(w: World, s: Sys, accepts: Server.Verdicts, text: string) returns (steps: seq<Step>, t: Sys)
    ensures Reaches(w, s, steps, t) && forall i | 0 <= i < |steps| :: steps[i].ServerDecodes?
    ensures var d := Drain(s.serverIn);
            && t.serverIn == d.rest && t.serverOpen == (s.serverOpen && d.error == None)
            && t.queued == s.queued + multiset(Server.WithVerdict(d.msgs, accepts, true))
            && t.toClient == s.toClient
               + (if s.serverOpen
                  then EncodeAll(Server.RefusalFrames(w, Server.WithVerdict(d.msgs, accepts, false), text)) else [])
  {
    hide Drain, DecodeOne, Server.WithVerdict, Server.RefusalFrames, EncodeAll, Apply;
    NothingDispatched(w, s, accepts, text);
    steps, t := DispatchRest(w, s, s, [], accepts, text);
  }

  lemma {:induction false} DispatchRest(w: World, s0: Sys, s: Sys, seen: seq<Message>,
                                        accepts: Server.Verdicts, text: string)
    returns (steps: seq<Step>, t: Sys)
    requires Dispatched(w, s0, seen, accepts, text, s) && Server.Resumes(s0.serverIn, seen, s.serverIn)
    ensures Reaches(w, s, steps, t) && forall i | 0 <= i < |steps| :: steps[i].ServerDecodes?
    ensures var d := Drain(s0.serverIn);
            && t.serverIn == d.rest && t.serverOpen == (s0.serverOpen && d.error == None)
            && Dispatched(w, s0, d.msgs, accepts, text, t.(serverOpen := s0.serverOpen))
    decreases |s.serverIn|
  {
    hide Drain, DecodeOne, Dispatched, Server.Resumes, EncodeBytes;
    var step := ServerDecodes(accepts(Server.CountRequests(seen)), text);
    var next := Apply(w, s, step);
    if DecodeOne(s.serverIn).Frame? {
      Server.ResumesAfter(s0.serverIn, seen, s.serverIn);
      DispatchesOneMore(w, s0, seen, accepts, text, s);
      steps, t := DispatchRest(w, s0, next, seen + [DecodeOne(s.serverIn).msg], accepts, text);
    } else {
      Server.StoppedIsDrained(s0.serverIn, seen, s.serverIn, DecodeOne(s.serverIn).Malformed?);
      DispatchedOpen(w, s0, seen, accepts, text, s, next);
      steps, t := [], next;
    }
    OneStep(w, s, step, steps, t);
    steps := [step] + steps;
  }

  lemma DispatchedOpen(w: World, s0: Sys, seen: seq<Message>, accepts: Server.Verdicts, text: string, s: Sys, next: Sys)
    requires Dispatched(w, s0, seen, accepts, text, s)
    requires next == s.(serverOpen := next.serverOpen)
    ensures s.serverOpen == s0.serverOpen
    ensures Dispatched(w, s0, seen, accepts, text, next.(serverOpen := s0.serverOpen))
  {
  }

  // ---- the worker pool ----

  type Jobs = Pool.Task -> Message

  /** The requests that some tasks stand for. */
  ghost function JobsOf(tasks: set<Pool.Task>, job: Jobs): multiset<Message> {
    if tasks == {} then multiset{}
    else
      var task :| task in tasks;
      JobsOf(tasks - {task}, job) + multiset{job(task)}
  }

  lemma {:induction false} JobsWithout(tasks: set<Pool.Task>, job: Jobs, task: Pool.Task)
    requires task in tasks
    ensures JobsOf(tasks, job) == JobsOf(tasks - {task}, job) + multiset{job(task)}
    decreases |tasks|
  {
    var first :| first in tasks && JobsOf(tasks, job) == JobsOf(tasks - {first}, job) + multiset{job(first)};
    if first != task {
      JobsWithout(tasks - {first}, job, task);
      JobsWithout(tasks - {task}, job, first);
      assert tasks - {first} - {task} == tasks - {task} - {first};
    }
  }

  /** The tasks that some worker is busy with. */
  function Underway(p: Pool.Pool): set<Pool.Task> {
    p.accepted - p.queue - p.finished
  }

  /** The pool holds what the system says is queued, and works on what it says is running. */
  ghost predicate Staffs(p: Pool.Pool, s: Sys, job: Jobs) {
    Pool.Inv(p) && s.queued == JobsOf(p.queue, job) && s.running == JobsOf(Underway(p), job)
  }

  /** What the services make of the tasks. */
  type Outcomes = Pool.Task -> ServiceResult

  /** The text of the exception that a submission throws when it has waited in vain. */
  const QUEUE_FULL := "ThreadPool: queue full, timed out"

  /** What the system does while the pool takes a step: a submission is the dispatch of a request, one that
      times out is its refusal, taking a task starts its handler, ending it finishes the handler; nothing
      else shows. */
  function Shown(p: Pool.Pool, step: Pool.Step, job: Jobs, outcome: Outcomes): Option<Step>
    requires Pool.Enabled(p, step)
  {
    match step
    case Submit(_, _, _) => Some(ServerDecodes(true, ""))
    case SubmitTimesOut(_) => Some(ServerDecodes(false, QUEUE_FULL))
    case WorkerTakes(_, task) => Some(WorkerStarts(job(task)))
    case TaskEnds(w) => Some(WorkerFinishes(job(p.workers[w].task), outcome(p.workers[w].task)))
    case _ => None
  }

  /** The server is about to decode a request. */
  predicate AtRequest(s: Sys) {
    DecodeOne(s.serverIn).Frame? && DecodeOne(s.serverIn).msg.header.kind == REQUEST
  }

  /** A submission is only made, or given up, for the request that the server decodes next. */
  ghost predicate Submits(s: Sys, step: Pool.Step, job: Jobs) {
    && (step.Submit? ==> AtRequest(s) && DecodeOne(s.serverIn).msg == job(step.task))
    && (step.SubmitTimesOut? ==> AtRequest(s))
  }

  lemma SubmitShows(p: Pool.Pool, step: Pool.Step, job: Jobs)
    requires Pool.Conserved(p) && Pool.Enabled(p, step) && step.Submit?
    ensures JobsOf(Pool.Apply(p, step).queue, job) == JobsOf(p.queue, job) + multiset{job(step.task)}
    ensures Underway(Pool.Apply(p, step)) == Underway(p)
  {
    hide JobsOf;
    var q := Pool.Apply(p, step);
    assert step.task !in p.accepted;
    JobsWithout(q.queue, job, step.task);
    assert q.queue - {step.task} == p.queue;
  }

  lemma TakeShows(p: Pool.Pool, step: Pool.Step, job: Jobs)
    requires Pool.Conserved(p) && Pool.Enabled(p, step) && step.WorkerTakes?
    ensures JobsOf(p.queue, job) == JobsOf(Pool.Apply(p, step).queue, job) + multiset{job(step.task)}
    ensures JobsOf(Underway(Pool.Apply(p, step)), job) == JobsOf(Underway(p), job) + multiset{job(step.task)}
  {
    hide JobsOf;
    var q := Pool.Apply(p, step);
    JobsWithout(p.queue, job, step.task);
    JobsWithout(Underway(q), job, step.task);
    assert Underway(q) - {step.task} == Underway(p);
  }

  lemma EndShows(p: Pool.Pool, step: Pool.Step, job: Jobs)
    requires Pool.Conserved(p) && Pool.Enabled(p, step) && step.TaskEnds?
    ensures Pool.Apply(p, step).queue == p.queue
    ensures JobsOf(Underway(p), job) ==
            JobsOf(Underway(Pool.Apply(p, step)), job) + multiset{job(p.workers[step.worker].task)}
  {
    hide JobsOf;
    var task := p.workers[step.worker].task;
    assert Pool.Holds(p.workers[step.worker], task);
    JobsWithout(Underway(p), job, task);
    assert Underway(p) - {task} == Underway(Pool.Apply(p, step));
  }

  lemma SubmitIsDispatch(p: Pool.Pool, s: Sys, step: Pool.Step, t: Sys, job: Jobs)
    requires Staffs(p, s, job) && Pool.Enabled(p, step) && step.Submit?
    requires t.queued == s.queued + multiset{job(step.task)} && t.running == s.running
    ensures Staffs(Pool.Apply(p, step), t, job)
  {
    Pool.StepKeepsInv(p, step);
    SubmitShows(p, step, job);
    hide Pool.Inv, Pool.Apply, JobsOf, Underway;
  }

  lemma TakeIsStart(p: Pool.Pool, s: Sys, step: Pool.Step, t: Sys, job: Jobs)
    requires Staffs(p, s, job) && Pool.Enabled(p, step) && step.WorkerTakes?
    requires t.queued == s.queued - multiset{job(step.task)} && t.running == s.running + multiset{job(step.task)}
    ensures Staffs(Pool.Apply(p, step), t, job)
  {
    Pool.StepKeepsInv(p, step);
    TakeShows(p, step, job);
    hide Pool.Inv, Pool.Apply, JobsOf, Underway;
  }

  lemma EndIsFinish(p: Pool.Pool, s: Sys, step: Pool.Step, t: Sys, job: Jobs)
    requires Staffs(p, s, job) && Pool.Enabled(p, step) && step.TaskEnds?
    requires t.queued == s.queued && t.running == s.running - multiset{job(p.workers[step.worker].task)}
    ensures Staffs(Pool.Apply(p, step), t, job)
  {
    Pool.StepKeepsInv(p, step);
    EndShows(p, step, job);
    hide Pool.Inv, Pool.Apply, JobsOf, Underway;
  }

  /** What a worker takes is queued, and what it ends is running. */
  lemma StaffedWork(p: Pool.Pool, s: Sys, step: Pool.Step, job: Jobs)
    requires Staffs(p, s, job) && Pool.Enabled(p, step)
    ensures step.WorkerTakes? ==> job(step.task) in s.queued
    ensures step.TaskEnds? ==> job(p.workers[step.worker].task) in s.running
  {
    if step.WorkerTakes? {
      TakeShows(p, step, job);
    } else if step.TaskEnds? {
      EndShows(p, step, job);
    }
    hide Pool.Inv, Pool.Apply, Pool.Enabled, JobsOf, Underway;
  }

  /** Every step of the pool is the step of the system that shows, or none. */
  lemma PoolStepIsSystemStep(w: World, p: Pool.Pool, s: Sys, step: Pool.Step, job: Jobs, outcome: Outcomes)
    requires Staffs(p, s, job) && Pool.Enabled(p, step) && Submits(s, step, job)
    ensures match Shown(p, step, job, outcome)
            case None => Staffs(Pool.Apply(p, step), s, job)
            case Some(shown) => Enabled(s, shown) && Staffs(Pool.Apply(p, step), Apply(w, s, shown), job)
  {
    hide Staffs, Apply, Pool.Apply, DecodeOne;
    StaffedWork(p, s, step, job);
    match step
    case Submit(_, task, _) =>
      DispatchShows(w, s, job(task));
      SubmitIsDispatch(p, s, step, Apply(w, s, ServerDecodes(true, "")), job);
    case SubmitTimesOut(_) =>
      RefusalShows(w, s);
      OthersStayStaffed(p, s, step, Apply(w, s, ServerDecodes(false, QUEUE_FULL)), job);
    case WorkerTakes(_, task) =>
      StartShows(w, s, job(task));
      TakeIsStart(p, s, step, Apply(w, s, WorkerStarts(job(task))), job);
    case TaskEnds(v) =>
      var m, result := job(p.workers[v].task), outcome(p.workers[v].task);
      FinishShows(w, s, m, result);
      EndIsFinish(p, s, step, Apply(w, s, WorkerFinishes(m, result)), job);
    case _ => OthersStayStaffed(p, s, step, s, job);
  }

  lemma OthersStayStaffed(p: Pool.Pool, s: Sys, step: Pool.Step, t: Sys, job: Jobs)
    requires Staffs(p, s, job) && Pool.Enabled(p, step) && !step.Submit? && !step.WorkerTakes? && !step.TaskEnds?
    requires t.queued == s.queued && t.running == s.running
    ensures Staffs(Pool.Apply(p, step), t, job)
  {
    Pool.StepKeepsInv(p, step);
    Unseen(p, step);
    hide Pool.Inv, Pool.Apply, JobsOf, Underway;
  }

  lemma DispatchShows(w: World, s: Sys, m: Message)
    requires DecodeOne(s.serverIn).Frame? && DecodeOne(s.serverIn).msg == m && m.header.kind == REQUEST
    ensures Apply(w, s, ServerDecodes(true, "")).queued == s.queued + multiset{m}
    ensures Apply(w, s, ServerDecodes(true, "")).running == s.running
  {
    hide DecodeOne;
  }

  lemma RefusalShows(w: World, s: Sys)
    requires AtRequest(s)
    ensures Apply(w, s, ServerDecodes(false, QUEUE_FULL)).queued == s.queued
    ensures Apply(w, s, ServerDecodes(false, QUEUE_FULL)).running == s.running
  {
    hide DecodeOne, EncodeBytes;
  }

  lemma StartShows(w: World, s: Sys, m: Message)
    requires m in s.queued
    ensures Apply(w, s, WorkerStarts(m)).queued == s.queued - multiset{m}
    ensures Apply(w, s, WorkerStarts(m)).running == s.running + multiset{m}
  {
  }

  lemma FinishShows(w: World, s: Sys, m: Message, result: ServiceResult)
    requires m in s.running
    ensures Apply(w, s, WorkerFinishes(m, result)).queued == s.queued
    ensures Apply(w, s, WorkerFinishes(m, result)).running == s.running - multiset{m}
  {
    hide EncodeBytes, Answer;
  }

  lemma Unseen(p: Pool.Pool, step: Pool.Step)
    requires Pool.Enabled(p, step) && !step.Submit? && !step.WorkerTakes? && !step.TaskEnds?
    ensures Pool.Apply(p, step).queue == p.queue && Underway(Pool.Apply(p, step)) == Underway(p)
  {
  }

  // ---- whole runs of pool and system together ----

  /** A step of the pool, with what it shows, or a step of the system that is none of the pool's. */
  datatype Move = OfPool(poolStep: Pool.Step) | OfSystem(step: Step)

  /** Neither submits a request to the pool, with whatever verdict, nor is done by one of its workers. */
  predicate NotThePools(s: Sys, step: Step) {
    !step.WorkerStarts? && !step.WorkerFinishes? && (step.ServerDecodes? ==> !AtRequest(s))
  }

  ghost predicate MayMove(p: Pool.Pool, s: Sys, m: Move, job: Jobs) {
    match m
    case OfPool(step) => Pool.Enabled(p, step) && Submits(s, step, job)
    case OfSystem(step) => Enabled(s, step) && NotThePools(s, step)
  }

  function PoolAfter(p: Pool.Pool, m: Move): Pool.Pool
    requires m.OfPool? ==> Pool.Enabled(p, m.poolStep)
  {
    if m.OfPool? then Pool.Apply(p, m.poolStep) else p
  }

  /** What the system does in a move. */
  function SystemSteps(p: Pool.Pool, m: Move, job: Jobs, outcome: Outcomes): seq<Step>
    requires m.OfPool? ==> Pool.Enabled(p, m.poolStep)
  {
    match m
    case OfSystem(step) => [step]
    case OfPool(step) =>
      match Shown(p, step, job, outcome)
      case None => []
      case Some(shown) => [shown]
  }

  lemma OthersShowNothing(w: World, s: Sys, step: Step)
    requires Enabled(s, step) && NotThePools(s, step)
    ensures Apply(w, s, step).queued == s.queued && Apply(w, s, step).running == s.running
  {
    hide DecodeOne, EncodeBytes, Judge, Answer;
  }

  lemma SingleStep(w: World, s: Sys, step: Step)
    requires Enabled(s, step)
    ensures Reaches(w, s, [step], Apply(w, s, step))
  {
    hide Apply, Enabled;
    assert Reaches(w, Apply(w, s, step), [step][1..], Apply(w, s, step));
  }

  /** A move of the two together keeps them in step. */
  lemma MoveKeepsStaffed(w: World, p: Pool.Pool, s: Sys, m: Move, job: Jobs, outcome: Outcomes) returns (t: Sys)
    requires Staffs(p, s, job) && MayMove(p, s, m, job)
    ensures Reaches(w, s, SystemSteps(p, m, job, outcome), t) && Staffs(PoolAfter(p, m), t, job)
  {
    hide Apply, Enabled, Pool.Apply, Pool.Enabled, Pool.Inv, JobsOf, NotThePools, Submits;
    match m
    case OfSystem(step) =>
      OthersShowNothing(w, s, step);
      SingleStep(w, s, step);
      t := Apply(w, s, step);
    case OfPool(step) =>
      PoolStepIsSystemStep(w, p, s, step, job, outcome);
      match Shown(p, step, job, outcome) {
        case None => t := s;
        case Some(shown) =>
          SingleStep(w, s, shown);
          t := Apply(w, s, shown);
      }
  }

  /** Pool and system, started together, move by move. */
  ghost predicate RunTogether(w: World, p: Pool.Pool, s: Sys, moves: seq<Move>, job: Jobs, outcome: Outcomes,
                              q: Pool.Pool, t: Sys)
    decreases |moves|
  {
    if moves == [] then p == q && s == t
    else
      && MayMove(p, s, moves[0], job)
      && exists s' ::
           && Reaches(w, s, SystemSteps(p, moves[0], job, outcome), s')
           && RunTogether(w, PoolAfter(p, moves[0]), s', moves[1..], job, outcome, q, t)
  }

  function PoolSteps(moves: seq<Move>): seq<Pool.Step> {
    if moves == [] then []
    else (if moves[0].OfPool? then [moves[0].poolStep] else []) + PoolSteps(moves[1..])
  }

  lemma {:induction false} RunsCompose(w: World, s: Sys, first: seq<Step>, t: Sys, second: seq<Step>, u: Sys)
    requires Reaches(w, s, first, t) && Reaches(w, t, second, u)
    ensures Reaches(w, s, first + second, u)
    decreases |first|
  {
    hide Apply, Enabled;
    if first == [] {
      assert first + second == second;
    } else {
      RunsCompose(w, Apply(w, s, first[0]), first[1..], t, second, u);
      assert (first + second)[1..] == first[1..] + second;
    }
  }

  lemma OneResult(w: World, s: Sys, steps: seq<Step>, t: Sys, u: Sys)
    requires |steps| <= 1 && Reaches(w, s, steps, t) && Reaches(w, s, steps, u)
    ensures t == u
  {
    hide Apply, Enabled;
    if steps != [] {
      assert steps[1..] == [];
    }
  }

  /** Whatever the two do together is a schedule of the pool and a schedule of the system, and at every
      end the system's queued requests are the pool's queued tasks and its running requests the tasks
      that workers hold. So all that is proved of either machine holds of both at once. */
  lemma {:induction false} RunTogetherStaysStaffed(
    w: World, p: Pool.Pool, s: Sys, moves: seq<Move>, job: Jobs, outcome: Outcomes, q: Pool.Pool, t: Sys)
    returns (steps: seq<Step>)
    requires Staffs(p, s, job) && RunTogether(w, p, s, moves, job, outcome, q, t)
    ensures Pool.Reaches(p, PoolSteps(moves), q) && Reaches(w, s, steps, t) && Staffs(q, t, job)
    decreases |moves|
  {
    hide Staffs, Apply, Enabled, Pool.Apply, Pool.Enabled, Submits, NotThePools, Shown;
    if moves == [] {
      steps := [];
    } else {
      var shown, p' := SystemSteps(p, moves[0], job, outcome), PoolAfter(p, moves[0]);
      var s' :| Reaches(w, s, shown, s') && RunTogether(w, p', s', moves[1..], job, outcome, q, t);
      var s'' := MoveKeepsStaffed(w, p, s, moves[0], job, outcome);
      OneResult(w, s, shown, s', s'');
      var rest := RunTogetherStaysStaffed(w, p', s', moves[1..], job, outcome, q, t);
      RunsCompose(w, s, shown, s', rest, t);
      steps := shown + rest;
      if moves[0].OfPool? {
        assert PoolSteps(moves)[1..] == PoolSteps(moves[1..]);
      } else {
        assert PoolSteps(moves) == PoolSteps(moves[1..]);
      }
    }
  }

  /** A pool that has just been started staffs a server that has just been started. */
  lemma StartsStaffed(cfg: Pool.Config, maxRetries: int, job: Jobs)
    ensures Staffs(Pool.Start(cfg), Init(maxRetries), job)
  {
    Pool.StartsInv(cfg);
    hide Pool.Inv;
  }

  /** From the start of both: the invariants of both machines hold together, and they agree on what is
      queued and what is running. */
  lemma PoolAndSystemAgree(w: World, cfg: Pool.Config, maxRetries: int, moves: seq<Move>, job: Jobs, outcome: Outcomes,
                           q: Pool.Pool, t: Sys) returns (steps: seq<Step>)
    requires RunTogether(w, Pool.Start(cfg), Init(maxRetries), moves, job, outcome, q, t)
    ensures Pool.Reaches(Pool.Start(cfg), PoolSteps(moves), q) && Reaches(w, Init(maxRetries), steps, t)
    ensures t.queued == JobsOf(q.queue, job) && t.running == JobsOf(Underway(q), job)
  {
    hide Pool.Start, Init, RunTogether;
    StartsStaffed(cfg, maxRetries, job);
    steps := RunTogetherStaysStaffed(w, Pool.Start(cfg), Init(maxRetries), moves, job, outcome, q, t);
  }

  // ---- refusals ----

  /** How many replies are refusals. */
  function Refusals(rs: seq<Reply>): nat {
    if rs == [] then 0 else Refusals(rs[..|rs| - 1]) + (if rs[|rs| - 1].handled then 0 else 1)
  }

  /** How many submissions gave up. */
  function TimeOuts(steps: seq<Pool.Step>): nat {
    if steps == [] then 0 else (if steps[0].SubmitTimesOut? then 1 else 0) + TimeOuts(steps[1..])
  }

  lemma SendRefuses(w: World, s: Sys, r: Reply)
    ensures Refusals(SendReply(w, s, r).answered) == Refusals(s.answered) + (if r.handled then 0 else 1)
  {
    hide EncodeBytes;
    assert (s.answered + [r])[..|s.answered|] == s.answered;
  }

  /** Only giving a request up adds a refusal. */
  predicate GivesUp(s: Sys, step: Step) {
    step.ServerDecodes? && !step.accepted && AtRequest(s)
  }

  lemma StepRefuses(w: World, s: Sys, step: Step)
    requires Enabled(s, step)
    ensures Refusals(Apply(w, s, step).answered) == Refusals(s.answered) + (if GivesUp(s, step) then 1 else 0)
  {
    hide DecodeOne, EncodeBytes, Answer, SendReply, Refusals;
    match step
    case ServerDecodes(_, text) =>
      if DecodeOne(s.serverIn).Frame? {
        var m, rest := DecodeOne(s.serverIn).msg, DecodeOne(s.serverIn).rest;
        SendRefuses(w, s.(serverIn := rest, decoded := s.decoded + 1), Reply(m, Refusal(text), false));
      }
    case WorkerFinishes(m, result) =>
      SendRefuses(w, s.(running := s.running - multiset{m}), Reply(m, Answer(w, m.body, result), true));
    case ServerReads(_) =>
    case WorkerStarts(_) =>
    case _ =>
      ClientFootprint(w, s, step);
      hide Apply;
  }

  lemma MoveRefuses(w: World, p: Pool.Pool, s: Sys, m: Move, job: Jobs, outcome: Outcomes, t: Sys)
    requires MayMove(p, s, m, job) && Reaches(w, s, SystemSteps(p, m, job, outcome), t)
    ensures Refusals(t.answered) ==
            Refusals(s.answered) + (if m.OfPool? && m.poolStep.SubmitTimesOut? then 1 else 0)
  {
    hide Apply, Pool.Enabled, Refusals, AtRequest;
    var steps := SystemSteps(p, m, job, outcome);
    if steps != [] {
      assert steps[1..] == [];
      StepRefuses(w, s, steps[0]);
    }
  }

  /** In every joint run, each refusal the server sends is a submission that gave up, and the other way
      round. */
  lemma {:induction false} RefusalsAreTimeOuts(
    w: World, p: Pool.Pool, s: Sys, moves: seq<Move>, job: Jobs, outcome: Outcomes, q: Pool.Pool, t: Sys)
    requires RunTogether(w, p, s, moves, job, outcome, q, t)
    ensures Refusals(t.answered) == Refusals(s.answered) + TimeOuts(PoolSteps(moves))
    decreases |moves|
  {
    hide Apply, Enabled, Pool.Apply, Pool.Enabled, Submits, NotThePools, Shown, Refusals, SystemSteps;
    if moves != [] {
      var shown, p' := SystemSteps(p, moves[0], job, outcome), PoolAfter(p, moves[0]);
      var s' :| Reaches(w, s, shown, s') && RunTogether(w, p', s', moves[1..], job, outcome, q, t);
      MoveRefuses(w, p, s, moves[0], job, outcome, s');
      RefusalsAreTimeOuts(w, p', s', moves[1..], job, outcome, q, t);
      if moves[0].OfPool? {
        assert PoolSteps(moves)[1..] == PoolSteps(moves[1..]);
      } else {
        assert PoolSteps(moves) == PoolSteps(moves[1..]);
      }
    }
  }

  lemma {:induction false} JobsCount(tasks: set<Pool.Task>, job: Jobs)
    ensures |JobsOf(tasks, job)| == |tasks|
    decreases |tasks|
  {
    if tasks != {} {
      var task :| task in tasks;
      JobsWithout(tasks, job, task);
      JobsCount(tasks - {task}, job);
    }
  }

  /** In every joint run from the start: a request is refused only while the queue is full, as many
      requests waiting in it as the configuration allows. */
  lemma RefusedOnlyWhenFull(w: World, cfg: Pool.Config, maxRetries: int, moves: seq<Move>, job: Jobs, outcome: Outcomes,
                            p: Pool.Pool, s: Sys, m: Move, t: Sys)
    requires RunTogether(w, Pool.Start(cfg), Init(maxRetries), moves, job, outcome, p, s)
    requires MayMove(p, s, m, job) && Reaches(w, s, SystemSteps(p, m, job, outcome), t)
    requires Refusals(t.answered) != Refusals(s.answered)
    ensures |p.queue| == cfg.maxQueue && |s.queued| == cfg.maxQueue
  {
    hide RunTogether, Refusals, Reaches, JobsOf, AtRequest, SystemSteps;
    MoveRefuses(w, p, s, m, job, outcome, t);
    StartsStaffed(cfg, maxRetries, job);
    var steps := RunTogetherStaysStaffed(w, Pool.Start(cfg), Init(maxRetries), moves, job, outcome, p, s);
    Pool.StartsInv(cfg);
    Pool.RunKeepsInv(Pool.Start(cfg), PoolSteps(moves), p);
    JobsCount(p.queue, job);
  }
}
