/** The synchronous client channel. The kernel's answers are given as scripts: what every send
    accepts, and what every poll and read on the socket reports. */
module RpcChannel {
  import opened Bytes
  import opened Frames
  import opened Streams
  import opened NetBuffer
  import opened Codec
  import opened Rpc

  /** What one round of the wait loop meets. A script that ends means that the deadline is reached. */
  datatype PollEvent =
    | Interrupted
    | PollFailed
    | HungUp
    | NotReadable
    | ReadFails
    | Readable(bytes: seq<byte>)

  /** What one call of send() does. */
  datatype SendEvent = SendInterrupted | SendError | Took(n: nat)

  datatype Script = Script(sends: seq<SendEvent>, polls: seq<PollEvent>)

  /** What the sends of a script take together, before an error, a send that takes nothing, or the end. */
  function TakenBy(sends: seq<SendEvent>): nat {
    if sends == [] then 0
    else
      match sends[0]
      case SendInterrupted => TakenBy(sends[1..])
      case SendError => 0
      case Took(n) => if n == 0 then 0 else n + TakenBy(sends[1..])
  }

  /** No send of these fails or takes nothing. */
  predicate Clean(sends: seq<SendEvent>) {
    forall i | 0 <= i < |sends| :: !sends[i].SendError? && sends[i] != Took(0)
  }

  function Sum(sends: seq<SendEvent>): nat {
    if sends == [] then 0 else (if sends[0].Took? then sends[0].n else 0) + Sum(sends[1..])
  }

  /** That is the sum of the longest clean front of the script. */
  lemma {:induction false} TakenIsSumOfCleanFront(sends: seq<SendEvent>) returns (k: nat)
    ensures k <= |sends| && Clean(sends[..k]) && TakenBy(sends) == Sum(sends[..k])
    ensures k < |sends| ==> sends[k].SendError? || sends[k] == Took(0)
    decreases |sends|
  {
    if sends == [] || sends[0].SendError? || sends[0] == Took(0) {
      k := 0;
    } else {
      var j := TakenIsSumOfCleanFront(sends[1..]);
      k := j + 1;
      assert sends[..k][1..] == sends[1..][..j];
      forall i | 0 <= i < k
        ensures !sends[..k][i].SendError? && sends[..k][i] != Took(0)
      {
        if i > 0 {
          assert sends[..k][i] == sends[1..][..j][i - 1];
        }
      }
      if k < |sends| {
        assert sends[k] == sends[1..][j];
      }
    }
  }

  /** The error code a caller finds on its controller. */
  function CodeOf(o: Outcome): int {
    match o
    case Ok(_) => OK
    case TimedOut => TIMEOUT
    case Closed => CLOSED
    case Failed(code) => code
  }

  /** The sequence number k steps after `start`, on a 64-bit counter. */
  function SeqAfter(start: u64, k: nat): u64 {
    (start + k) % WORD
  }

  lemma SeqAdvances(start: u64, k: nat)
    ensures SeqAfter(start, 0) == start
    ensures SeqAfter(SeqAfter(start, k), 1) == SeqAfter(start, k + 1)
  {
  }

  /** The frames of k attempts at one call, the first with sequence number `start`. */
  function AttemptFrames(start: u64, k: nat, envelope: seq<byte>): seq<Message> {
    seq(k, i requires 0 <= i < k => RequestFrame(SeqAfter(start, i), envelope))
  }

  lemma OneMoreAttempt(start: u64, k: nat, envelope: seq<byte>)
    ensures EncodeAll(AttemptFrames(start, k + 1, envelope)) ==
            EncodeAll(AttemptFrames(start, k, envelope)) + EncodeBytes(RequestFrame(SeqAfter(start, k), envelope))
  {
    hide EncodeAll, EncodeBytes;
    var m := RequestFrame(SeqAfter(start, k), envelope);
    assert AttemptFrames(start, k + 1, envelope) == AttemptFrames(start, k, envelope) + [m];
    EncodeAllAppend(AttemptFrames(start, k, envelope), m);
  }

  // ---- what a wait comes to ----

  /** How far a wait has come: no decision yet, or a decision; in both cases with these bytes unread. */
  datatype Wait = Pending(rest: seq<byte>) | Decided(outcome: Outcome, rest: seq<byte>)

  function AfterSearch(s: Search): Wait {
    match s
    case NotYet(rest) => Pending(rest)
    case Found(o, rest) => Decided(o, rest)
    case Broken(rest) => Decided(Failed(UNKNOWN), rest)
  }

  /** One round of the wait loop. Reading nothing from a readable socket means that the peer has closed. */
  function OnEvent(w: World, unread: seq<byte>, e: PollEvent, seqNo: u64): Wait {
    match e
    case Interrupted => Pending(unread)
    case NotReadable => Pending(unread)
    case PollFailed => Decided(Failed(SYSTEM), unread)
    case HungUp => Decided(Closed, unread)
    case ReadFails => Decided(Closed, unread)
    case Readable(bytes) =>
      if bytes == [] then Decided(Closed, unread) else AfterSearch(SearchReply(w, unread + bytes, seqNo))
  }

  function Waited(w: World, unread: seq<byte>, events: seq<PollEvent>, seqNo: u64): Wait {
    if events == [] then Pending(unread)
    else
      match Waited(w, unread, events[..|events| - 1], seqNo)
      case Pending(rest) => OnEvent(w, rest, events[|events| - 1], seqNo)
      case Decided(o, rest) => Decided(o, rest)
  }

  /** What one read delivers of the bytes there are: all of them, or as many as there is room for. */
  predicate Trims(e: PollEvent, p: PollEvent) {
    if p.Readable? then e.Readable? && e.bytes <= p.bytes && (e.bytes == p.bytes || |e.bytes| >= EXTRA_BUFFER)
    else e == p
  }

  predicate Happened(events: seq<PollEvent>, polls: seq<PollEvent>) {
    |events| <= |polls| && forall i | 0 <= i < |events| :: Trims(events[i], polls[i])
  }

  /** The wait for seqNo met these events, gave r and left these bytes unread. */
  ghost predicate WaitEnds(w: World, unread: seq<byte>, events: seq<PollEvent>, polls: seq<PollEvent>, seqNo: u64,
                           r: Outcome, rest: seq<byte>) {
    && Happened(events, polls)
    && match Waited(w, unread, events, seqNo)
       case Pending(left) => r == TimedOut && |events| == |polls| && rest == left
       case Decided(o, left) => r == o && rest == left
  }

  /** The bytes that the reads of a wait deliver. */
  function Delivered(events: seq<PollEvent>): seq<byte> {
    if events == [] then []
    else
      var e := events[|events| - 1];
      Delivered(events[..|events| - 1]) + (if e.Readable? then e.bytes else [])
  }

  /** Nothing but interruptions and reads that deliver something. */
  predicate Undisturbed(events: seq<PollEvent>) {
    forall i | 0 <= i < |events| ::
      events[i].Interrupted? || events[i].NotReadable? || (events[i].Readable? && events[i].bytes != [])
  }

  /** Searching, then receiving more and searching on, is searching the longer input. */
  lemma {:induction false} SearchResumes(w: World, s: seq<byte>, t: seq<byte>, seqNo: u64)
    ensures SearchReply(w, s + t, seqNo) ==
            match SearchReply(w, s, seqNo)
            case NotYet(rest) => SearchReply(w, rest + t, seqNo)
            case Found(o, rest) => Found(o, rest + t)
            case Broken(rest) => Broken(rest + t)
    decreases |s|
  {
    hide DecodeOne, Judge;
    DecodeIsStable(s, t);
    if DecodeOne(s).Frame? && !IsReplyTo(DecodeOne(s).msg, seqNo) {
      FrameShrinks(s);
      SearchResumes(w, DecodeOne(s).rest, t, seqNo);
    }
  }

  lemma {:induction false} NothingDelivered(w: World, unread: seq<byte>, events: seq<PollEvent>, seqNo: u64)
    requires Undisturbed(events) && Delivered(events) == []
    ensures Waited(w, unread, events, seqNo) == Pending(unread)
    decreases |events|
  {
    hide SearchReply;
    if events != [] {
      var front, e := events[..|events| - 1], events[|events| - 1];
      assert |Delivered(front)| <= |Delivered(events)|;
      NothingDelivered(w, unread, front, seqNo);
    }
  }

  /** What searching some bytes means for a wait. */
  predicate Agrees(found: Search, wait: Wait) {
    match found
    case NotYet(rest) => wait == Pending(rest)
    case Found(o, _) => wait.Decided? && wait.outcome == o
    case Broken(_) => wait.Decided? && wait.outcome == Failed(UNKNOWN)
  }

  /** However the bytes are cut into reads and whatever interrupts them, an undisturbed wait decides what
      searching everything at once decides: the first reply to seqNo, or the first codec error before one.
      This includes what earlier waits left unread, whole stale replies among it; it is looked at as soon
      as something new arrives, and not before. */
  lemma {:induction false} WaitIsSearch(w: World, unread: seq<byte>, events: seq<PollEvent>, seqNo: u64)
    requires Undisturbed(events)
    ensures Delivered(events) == [] ==> Waited(w, unread, events, seqNo) == Pending(unread)
    ensures Delivered(events) != [] ==>
              Agrees(SearchReply(w, unread + Delivered(events), seqNo), Waited(w, unread, events, seqNo))
    decreases |events|
  {
    hide SearchReply, Judge;
    if Delivered(events) == [] {
      NothingDelivered(w, unread, events, seqNo);
    } else {
      var front, e := events[..|events| - 1], events[|events| - 1];
      var more := if e.Readable? then e.bytes else [];
      if Delivered(front) == [] {
        NothingDelivered(w, unread, front, seqNo);
        assert [] + more == more;
      } else {
        WaitIsSearch(w, unread, front, seqNo);
        AppendAssociates(unread, Delivered(front), more);
        SearchResumes(w, unread + Delivered(front), more, seqNo);
        if !e.Readable? {
          assert unread + Delivered(front) + more == unread + Delivered(front);
        }
      }
    }
  }

  lemma {:induction false} DecisionsStay(w: World, unread: seq<byte>, events: seq<PollEvent>, more: seq<PollEvent>,
                                         seqNo: u64)
    requires Waited(w, unread, events, seqNo).Decided?
    ensures Waited(w, unread, events + more, seqNo) == Waited(w, unread, events, seqNo)
    decreases |more|
  {
    if more == [] {
      assert events + more == events;
    } else {
      DecisionsStay(w, unread, events, more[..|more| - 1], seqNo);
      assert (events + more)[..|events + more| - 1] == events + more[..|more| - 1];
    }
  }

  /** A wait that is disturbed at e. If what had arrived by then decides, it stands. Otherwise a hang-up, a
      failed read or an empty read ends it as closed, and a failed poll with code 1, whatever would have
      followed. */
  lemma DisturbanceEnds(w: World, unread: seq<byte>, front: seq<PollEvent>, e: PollEvent, back: seq<PollEvent>,
                        seqNo: u64)
    requires Undisturbed(front) && !Undisturbed([e])
    ensures var wait := Waited(w, unread, front + [e] + back, seqNo);
            var found := SearchReply(w, unread + Delivered(front), seqNo);
            && wait.Decided?
            && (Delivered(front) != [] && found.Found? ==> wait.outcome == found.outcome)
            && (Delivered(front) != [] && found.Broken? ==> wait.outcome == Failed(99))
            && (Delivered(front) == [] || found.NotYet? ==>
                  wait.outcome == if e == PollFailed then Failed(1) else Closed)
  {
    hide SearchReply, Judge;
    WaitIsSearch(w, unread, front, seqNo);
    assert (front + [e])[..|front|] == front;
    assert [e][0] == e;
    DecisionsStay(w, unread, front + [e], back, seqNo);
  }

  // ---- what several attempts come to ----

  function ScriptAt(scripts: seq<Script>, i: nat): Script {
    if i < |scripts| then scripts[i] else Script([], [])
  }

  /** The waits of consecutive attempts, each for its own sequence number, until one of them decides. */
  function AfterWaits(w: World, unread: seq<byte>, waits: seq<seq<PollEvent>>, start: u64): Wait {
    if waits == [] then Pending(unread)
    else
      var n := |waits| - 1;
      match AfterWaits(w, unread, waits[..n], start)
      case Pending(rest) => Waited(w, rest, waits[n], SeqAfter(start, n))
      case Decided(o, rest) => Decided(o, rest)
  }

  lemma OneMoreWait(w: World, unread: seq<byte>, waits: seq<seq<PollEvent>>, start: u64, events: seq<PollEvent>)
    requires AfterWaits(w, unread, waits, start).Pending?
    ensures AfterWaits(w, unread, waits + [events], start) ==
            Waited(w, AfterWaits(w, unread, waits, start).rest, events, SeqAfter(start, |waits|))
  {
    assert (waits + [events])[..|waits|] == waits;
  }

  /** Every wait followed its script, and all but the last waited until their time was up. */
  ghost predicate FollowsScripts(waits: seq<seq<PollEvent>>, scripts: seq<Script>, complete: nat) {
    && complete <= |waits|
    && (forall i | 0 <= i < |waits| :: Happened(waits[i], ScriptAt(scripts, i).polls))
    && (forall i | 0 <= i < complete :: |waits[i]| == |ScriptAt(scripts, i).polls|)
  }

  /** These waits all ended without a decision, with these bytes unread. */
  ghost predicate AllTimedOut(w: World, unread: seq<byte>, start: u64, scripts: seq<Script>,
                              waits: seq<seq<PollEvent>>, rest: seq<byte>) {
    FollowsScripts(waits, scripts, |waits|) && AfterWaits(w, unread, waits, start) == Pending(rest)
  }

  lemma {:induction false} DecisionsAreNoTimeouts(w: World, unread: seq<byte>, events: seq<PollEvent>, seqNo: u64)
    ensures Waited(w, unread, events, seqNo).Decided? ==> Waited(w, unread, events, seqNo).outcome != TimedOut
    decreases |events|
  {
    if events != [] {
      var front := events[..|events| - 1];
      DecisionsAreNoTimeouts(w, unread, front, seqNo);
      var before := Waited(w, unread, front, seqNo);
      if before.Pending? && events[|events| - 1].Readable? {
        FindsNoTimeout(w, before.rest + events[|events| - 1].bytes, seqNo);
      }
    }
  }

  lemma {:induction false} FindsNoTimeout(w: World, bytes: seq<byte>, seqNo: u64)
    ensures SearchReply(w, bytes, seqNo).Found? ==> SearchReply(w, bytes, seqNo).outcome != TimedOut
    decreases |bytes|
  {
    hide DecodeOne;
    if DecodeOne(bytes).Frame? {
      FrameShrinks(bytes);
      FindsNoTimeout(w, DecodeOne(bytes).rest, seqNo);
    }
  }

  /** A call that has made these waits: every attempt before the last one timed out, and r is what the
      last one came to (its wait, or the failure to send it). */
  ghost predicate CallEnds(w: World, unread: seq<byte>, start: u64, scripts: seq<Script>, waits: seq<seq<PollEvent>>,
                           attempts: nat, connected: bool, r: Outcome, rest: seq<byte>) {
    && |waits| == (if connected || attempts == 0 then attempts else attempts - 1)
    && FollowsScripts(waits, scripts, if attempts == 0 then 0 else attempts - 1)
    && (attempts > 0 ==> AfterWaits(w, unread, waits[..attempts - 1], start).Pending?)
    && match AfterWaits(w, unread, waits, start)
       case Pending(left) =>
         rest == left && r == (if attempts == 0 || !connected then Failed(SYSTEM) else TimedOut)
       case Decided(o, left) => rest == left && r == o
  }

  // ---- the objects ----

  class RpcController {
    var failed: bool
    var errorCode: int

    method Reset()
      modifies this
      ensures !failed && errorCode == OK
    {
      failed, errorCode := false, OK;
    }

    method SetFailed(code: int)
      modifies this
      ensures failed && errorCode == code
    {
      failed, errorCode := true, code;
    }
  }

  /** The completion callback a caller may hand in. */
  class Closure {
    var runs: nat

    constructor ()
      ensures runs == 0
    {
      runs := 0;
    }

    method Run()
      modifies this
      ensures runs == old(runs) + 1
    {
      runs := runs + 1;
    }
  }

  class Channel {
    const world: World
    const address: (string, u16)
    const maxRetries: int
    const input: Buffer
    var connected: bool
    var nextSeq: u64
    ghost var wire: seq<byte>
    ghost var received: seq<byte>
    ghost var seen: seq<Message>

    /** The messages decoded so far, then the unread bytes, are what the socket has delivered. */
    ghost predicate Valid()
      reads this, input, input.data
    {
      input.Valid() && EncodeAll(seen) + input.Contents() == received
    }

    /** The message seen last is the reply to the attempt made last, and it comes to o. */
    ghost predicate SettledBy(o: Outcome)
      reads this
    {
      && seen != [] && seen[|seen| - 1].header.kind == RESPONSE
      && SeqAfter(seen[|seen| - 1].header.seqNo, 1) == nextSeq
      && Judge(world, seen[|seen| - 1].body) == o
    }

    constructor (world: World, address: (string, u16), maxRetries: int)
      ensures Valid() && fresh(input) && fresh(input.data)
      ensures this.world == world && this.address == address && this.maxRetries == maxRetries
      ensures nextSeq == 1 && !connected && seen == [] && wire == []
    {
      this.world, this.address, this.maxRetries := world, address, maxRetries;
      input := new Buffer(INITIAL_SIZE);
      connected, nextSeq := false, 1;
      wire, received, seen := [], [], [];
    }

    /** Sends until everything is taken; a failure leaves a proper prefix on the wire. */
    method SendAll(data: seq<byte>, sends: seq<SendEvent>) returns (ok: bool)
      modifies this`wire
      ensures ok <==> TakenBy(sends) >= |data|
      ensures wire == old(wire) + (if ok then data else data[..TakenBy(sends)])
    {
      var sent, i := 0, 0;
      assert wire + data[..0] == wire;
      while sent < |data|
        invariant 0 <= sent <= |data| && 0 <= i <= |sends|
        invariant wire == old(wire) + data[..sent]
        invariant sent < |data| ==> TakenBy(sends) == sent + TakenBy(sends[i..])
        invariant sent == |data| ==> TakenBy(sends) >= |data|
        decreases |sends| - i
      {
        if i == |sends| {
          return false;
        }
        assert sends[i..][1..] == sends[i + 1..];
        match sends[i] {
          case SendInterrupted =>
          case SendError =>
            return false;
          case Took(n) =>
            if n == 0 {
              return false;
            }
            var m := if n <= |data| - sent then n else |data| - sent;
            wire := wire + data[sent..sent + m];
            assert data[..sent] + data[sent..sent + m] == data[..sent + m];
            sent := sent + m;
        }
        i := i + 1;
      }
      assert data[..sent] == data;
      ok := true;
    }

    method FailController(controller: RpcController?, o: Outcome)
      modifies controller
      ensures controller != null ==> controller.failed && controller.errorCode == CodeOf(o)
    {
      if controller != null {
        controller.SetFailed(CodeOf(o));
      }
    }

    /** The decoding loop of the wait: it stops at the reply to seqNo and drops everything before. */
    method Scan(seqNo: u64) returns (decided: bool, r: Outcome)
      requires Valid()
      modifies this`seen, input`readerIndex, input`writerIndex
      ensures Valid() && old(seen) <= seen
      ensures forall i | |old(seen)| <= i < |seen| - 1 :: !IsReplyTo(seen[i], seqNo)
      ensures match SearchReply(world, old(input.Contents()), seqNo)
              case Found(o, rest) => decided && r == o && input.Contents() == rest
              case Broken(rest) => decided && r == Failed(UNKNOWN) && input.Contents() == rest
              case NotYet(rest) => !decided && input.Contents() == rest
      ensures decided ==> r.Ok? || r.Failed?
      ensures !decided ==> forall i | |old(seen)| <= i < |seen| :: !IsReplyTo(seen[i], seqNo)
      ensures decided && r.Ok? ==>
                |seen| > |old(seen)| && IsReplyTo(seen[|seen| - 1], seqNo) && Judge(world, seen[|seen| - 1].body) == r
    {
      hide DecodeOne, EncodeAll, EncodeBytes, Judge;
      decided, r := false, TimedOut;
      ghost var target := SearchReply(world, input.Contents(), seqNo);
      while true
        invariant Valid() && old(seen) <= seen
        invariant forall i | |old(seen)| <= i < |seen| :: !IsReplyTo(seen[i], seqNo)
        invariant SearchReply(world, input.Contents(), seqNo) == target
        decreases |input.Contents()|
      {
        ghost var unread := input.Contents();
        var t := TryDecode(input);
        if t.Threw? {
          return true, Failed(UNKNOWN);
        }
        if t.Nothing? {
          return;
        }
        TakesOneFrame(unread, seen, received);
        seen := seen + [t.msg];
        if IsReplyTo(t.msg, seqNo) {
          return true, Judge(world, t.msg.body);
        }
      }
    }

    /** Reads and searches until the reply is there, the connection breaks, or the time is up. `events`
        is what the wait met. */
    method WaitResponse(seqNo: u64, polls: seq<PollEvent>, controller: RpcController?)
      returns (r: Outcome, ghost events: seq<PollEvent>)
      requires Valid()
      modifies this`seen, this`received, input, input.data, controller
      ensures Valid() && (input.data == old(input.data) || fresh(input.data))
      ensures WaitEnds(world, old(input.Contents()), events, polls, seqNo, r, input.Contents())
      ensures old(seen) <= seen
      ensures r.Ok? ==>
                |seen| > |old(seen)| && IsReplyTo(seen[|seen| - 1], seqNo) && Judge(world, seen[|seen| - 1].body) == r
      ensures forall i | |old(seen)| <= i < |seen| - 1 :: !IsReplyTo(seen[i], seqNo)
      ensures r == TimedOut ==> forall i | |old(seen)| <= i < |seen| :: !IsReplyTo(seen[i], seqNo)
      ensures controller != null && r.Ok? ==> controller.failed == old(controller.failed)
      ensures controller != null && !r.Ok? ==> controller.failed && controller.errorCode == CodeOf(r)
    {
      hide DecodeOne, EncodeAll, Judge, SearchReply, OnEvent;
      ghost var unread := input.Contents();
      events := [];
      for i := 0 to |polls|
        invariant Valid() && (input.data == old(input.data) || fresh(input.data))
        invariant |events| == i && Happened(events, polls)
        invariant Waited(world, unread, events, seqNo) == Pending(input.Contents())
        invariant old(seen) <= seen
        invariant forall k | |old(seen)| <= k < |seen| :: !IsReplyTo(seen[k], seqNo)
        invariant controller != null ==> controller.failed == old(controller.failed)
      {
        var decided;
        ghost var e;
        decided, r, e := WaitOnce(seqNo, polls[i]);
        assert (events + [e])[..i] == events;
        events := events + [e];
        if decided {
          if !r.Ok? {
            FailController(controller, r);
          }
          return;
        }
      }
      r := TimedOut;
      FailController(controller, r);
    }

    /** One round of the wait loop; `e` is what it met. */
    method WaitOnce(seqNo: u64, p: PollEvent) returns (decided: bool, r: Outcome, ghost e: PollEvent)
      requires Valid()
      modifies this`seen, this`received, input, input.data
      ensures Valid() && (input.data == old(input.data) || fresh(input.data))
      ensures Trims(e, p)
      ensures OnEvent(world, old(input.Contents()), e, seqNo) ==
              if decided then Decided(r, input.Contents()) else Pending(input.Contents())
      ensures old(seen) <= seen
      ensures forall i | |old(seen)| <= i < |seen| - 1 :: !IsReplyTo(seen[i], seqNo)
      ensures decided ==> r != TimedOut
      ensures !decided ==> forall i | |old(seen)| <= i < |seen| :: !IsReplyTo(seen[i], seqNo)
      ensures decided && r.Ok? ==>
                |seen| > |old(seen)| && IsReplyTo(seen[|seen| - 1], seqNo) && Judge(world, seen[|seen| - 1].body) == r
    {
      hide DecodeOne, EncodeAll, Judge, SearchReply;
      decided, r, e := false, TimedOut, p;
      match p
      case Interrupted =>
      case NotReadable =>
      case PollFailed => decided, r := true, Failed(SYSTEM);
      case HungUp => decided, r := true, Closed;
      case ReadFails => decided, r := true, Closed;
      case Readable(bytes) => decided, r, e := ReadAndScan(seqNo, bytes);
    }

    /** The socket is readable: what is there, up to the room in the buffer, is read and searched. */
    method ReadAndScan(seqNo: u64, bytes: seq<byte>) returns (decided: bool, r: Outcome, ghost e: PollEvent)
      requires Valid()
      modifies this`seen, this`received, input, input.data
      ensures Valid() && (input.data == old(input.data) || fresh(input.data))
      ensures Trims(e, Readable(bytes))
      ensures OnEvent(world, old(input.Contents()), e, seqNo) ==
              if decided then Decided(r, input.Contents()) else Pending(input.Contents())
      ensures old(seen) <= seen
      ensures forall i | |old(seen)| <= i < |seen| - 1 :: !IsReplyTo(seen[i], seqNo)
      ensures decided ==> r != TimedOut
      ensures !decided ==> forall i | |old(seen)| <= i < |seen| :: !IsReplyTo(seen[i], seqNo)
      ensures decided && r.Ok? ==>
                |seen| > |old(seen)| && IsReplyTo(seen[|seen| - 1], seqNo) && Judge(world, seen[|seen| - 1].body) == r
    {
      hide DecodeOne, EncodeAll, Judge, SearchReply;
      var n := Least(|bytes|, |bytes|, input.ReadCapacity());
      e := Readable(bytes[..n]);
      if n == 0 {
        return true, Closed, e;
      }
      ghost var unread := input.Contents();
      var _, _ := input.ReadFd(ReadBytes(bytes[..n]));
      AppendAssociates(EncodeAll(seen), unread, bytes[..n]);
      received := received + bytes[..n];
      decided, r := Scan(seqNo);
    }

    /** Encodes and sends one attempt. */
    method SendRequest(msg: Message, sends: seq<SendEvent>) returns (ok: bool)
      modifies this`wire
      ensures ok <==> TakenBy(sends) >= |EncodeBytes(msg)|
      ensures wire == old(wire) + (if ok then EncodeBytes(msg) else EncodeBytes(msg)[..TakenBy(sends)])
    {
      hide EncodeBytes;
      var out := new Buffer(INITIAL_SIZE);
      Encode(msg, out);
      assert out.Contents() == EncodeBytes(msg);
      var bytes := out.Peek(out.ReadableBytes());
      assert bytes == EncodeBytes(msg);
      ok := SendAll(bytes, sends);
    }

    /** A call: connect, then attempts with fresh sequence numbers until one does not time out or the
        retries are used up; the completion callback runs once whatever happens. `waits` is what the
        wait of each attempt met. */
    method CallMethod(envelope: seq<byte>, canConnect: bool, scripts: seq<Script>,
                      controller: RpcController?, done: Closure?)
      returns (r: Outcome, attempts: nat, ghost waits: seq<seq<PollEvent>>)
      requires Valid()
      modifies this, input, input.data, controller, done
      ensures Valid() && (input.data == old(input.data) || fresh(input.data))
      ensures done != null ==> done.runs == old(done.runs) + 1
      ensures attempts <= (if maxRetries < 0 then 0 else maxRetries + 1)
      ensures attempts > 0 <==> (canConnect || old(connected)) && maxRetries >= 0
      ensures connected <==>
                && (canConnect || old(connected))
                && (attempts > 0 ==> TakenBy(ScriptAt(scripts, attempts - 1).sends) >= 24 + |envelope|)
      ensures forall i | 0 <= i < attempts - 1 :: TakenBy(ScriptAt(scripts, i).sends) >= 24 + |envelope|
      ensures nextSeq == SeqAfter(old(nextSeq), attempts)
      ensures wire <= old(wire) + EncodeAll(AttemptFrames(old(nextSeq), attempts, envelope))
      ensures connected ==> wire == old(wire) + EncodeAll(AttemptFrames(old(nextSeq), attempts, envelope))
      ensures CallEnds(world, old(input.Contents()), old(nextSeq), scripts, waits, attempts, connected, r,
                       input.Contents())
      ensures r.Ok? ==> attempts > 0 && |seen| > |old(seen)| && SettledBy(r)
      ensures r == TimedOut ==> attempts == maxRetries + 1
      ensures controller != null && controller.failed ==>
                && (r == TimedOut ==> controller.errorCode == 3) && (r == Closed ==> controller.errorCode == 4)
                && (r.Failed? ==> controller.errorCode == r.code)
      ensures controller != null ==>
                (controller.failed <==> !r.Ok? && !(maxRetries < 0 && (canConnect || old(connected))))
      ensures controller != null && controller.failed ==> controller.errorCode == CodeOf(r)
    {
      hide EncodeAll, EncodeBytes, Judge, AttemptFrames, SeqAfter, CallEnds, TakenBy;
      if controller != null {
        controller.Reset();
      }
      attempts, waits := 0, [];
      SeqAdvances(nextSeq, 0);
      NoAttempts(nextSeq, envelope, wire);
      if !connected && !canConnect {
        r := Failed(SYSTEM);
        NoWaits(input.Contents(), nextSeq, scripts, false);
        FailController(controller, r);
      } else {
        connected := true;
        r, attempts, waits := AttemptLoop(envelope, scripts, controller);
      }
      if done != null {
        done.Run();
      }
    }

    method AttemptLoop(envelope: seq<byte>, scripts: seq<Script>, controller: RpcController?)
      returns (r: Outcome, attempts: nat, ghost waits: seq<seq<PollEvent>>)
      requires Valid() && connected
      requires controller != null ==> !controller.failed
      modifies this`connected, this`nextSeq, this`wire, this`received, this`seen, input, input.data, controller
      ensures Valid() && (input.data == old(input.data) || fresh(input.data))
      ensures attempts <= (if maxRetries < 0 then 0 else maxRetries + 1)
      ensures attempts > 0 <==> maxRetries >= 0
      ensures connected <==> (attempts > 0 ==> TakenBy(ScriptAt(scripts, attempts - 1).sends) >= 24 + |envelope|)
      ensures forall i | 0 <= i < attempts - 1 :: TakenBy(ScriptAt(scripts, i).sends) >= 24 + |envelope|
      ensures nextSeq == SeqAfter(old(nextSeq), attempts)
      ensures wire <= old(wire) + EncodeAll(AttemptFrames(old(nextSeq), attempts, envelope))
      ensures connected ==> wire == old(wire) + EncodeAll(AttemptFrames(old(nextSeq), attempts, envelope))
      ensures CallEnds(world, old(input.Contents()), old(nextSeq), scripts, waits, attempts, connected, r,
                       input.Contents())
      ensures r.Ok? ==> attempts > 0 && |seen| > |old(seen)| && SettledBy(r)
      ensures r == TimedOut ==> attempts == maxRetries + 1
      ensures controller != null ==> (controller.failed <==> !r.Ok? && maxRetries >= 0)
      ensures controller != null && controller.failed ==> controller.errorCode == CodeOf(r)
    {
      hide EncodeAll, EncodeBytes, Judge, AttemptFrames, SeqAfter, CallEnds, WaitEnds, AllTimedOut, TakenBy;
      ghost var start, wire0, unread := nextSeq, wire, input.Contents();
      SeqAdvances(start, 0);
      NoAttempts(start, envelope, wire0);
      NothingTimedOut(unread, start, scripts);
      r, attempts, waits := Failed(SYSTEM), 0, [];
      while attempts <= maxRetries
        invariant Valid() && connected && (input.data == old(input.data) || fresh(input.data))
        invariant 0 <= attempts <= (if maxRetries < 0 then 0 else maxRetries + 1)
        invariant nextSeq == SeqAfter(start, attempts)
        invariant wire == wire0 + EncodeAll(AttemptFrames(start, attempts, envelope))
        invariant |waits| == attempts && AllTimedOut(world, unread, start, scripts, waits, input.Contents())
        invariant old(seen) <= seen
        invariant forall i | 0 <= i < attempts :: TakenBy(ScriptAt(scripts, i).sends) >= 24 + |envelope|
        invariant r == if attempts == 0 then Failed(SYSTEM) else TimedOut
        invariant controller != null ==> (controller.failed <==> attempts > 0)
        invariant controller != null && controller.failed ==> controller.errorCode == TIMEOUT
        decreases maxRetries - attempts
      {
        ghost var seqNo, before := nextSeq, input.Contents();
        SeqAdvances(start, attempts);
        OneMoreAttempt(start, attempts, envelope);
        AppendAssociates(wire0, EncodeAll(AttemptFrames(start, attempts, envelope)),
                         EncodeBytes(RequestFrame(seqNo, envelope)));
        ghost var events;
        r, events := OneAttempt(envelope, ScriptAt(scripts, attempts), controller);
        NextAttemptEnds(unread, start, scripts, waits, before, events, connected, r, input.Contents());
        waits := if connected then waits + [events] else waits;
        attempts := attempts + 1;
        if r != TimedOut {
          return;
        }
      }
      TimeoutsEnd(unread, start, scripts, waits, input.Contents());
    }

    /** One attempt: a fresh sequence number, the frame, and the wait for its reply. */
    method OneAttempt(envelope: seq<byte>, script: Script, controller: RpcController?)
      returns (r: Outcome, ghost events: seq<PollEvent>)
      requires Valid() && connected
      modifies this`connected, this`nextSeq, this`wire, this`received, this`seen, input, input.data, controller
      ensures Valid() && (input.data == old(input.data) || fresh(input.data))
      ensures nextSeq == SeqAfter(old(nextSeq), 1)
      ensures connected <==> TakenBy(script.sends) >= 24 + |envelope|
      ensures wire <= old(wire) + EncodeBytes(RequestFrame(old(nextSeq), envelope))
      ensures connected ==> wire == old(wire) + EncodeBytes(RequestFrame(old(nextSeq), envelope))
      ensures !connected ==>
                wire == old(wire) + EncodeBytes(RequestFrame(old(nextSeq), envelope))[..TakenBy(script.sends)]
      ensures connected ==>
                WaitEnds(world, old(input.Contents()), events, script.polls, old(nextSeq), r, input.Contents())
      ensures !connected ==> r == Failed(SYSTEM) && input.Contents() == old(input.Contents())
      ensures old(seen) <= seen
      ensures r.Ok? ==> |seen| > |old(seen)| && SettledBy(r)
      ensures controller != null ==> (controller.failed <==> !r.Ok?)
      ensures controller != null && controller.failed ==> controller.errorCode == CodeOf(r)
    {
      hide EncodeAll, EncodeBytes, Judge, WaitEnds;
      events := [];
      if controller != null {
        controller.Reset();
      }
      var seqNo := nextSeq;
      nextSeq := (nextSeq + 1) % WORD;
      var ok := SendRequest(RequestFrame(seqNo, envelope), script.sends);
      if !ok {
        r := Failed(SYSTEM);
        FailController(controller, r);
        connected := false;
        return;
      }
      r, events := WaitResponse(seqNo, script.polls, controller);
    }

    lemma NoWaits(unread: seq<byte>, start: u64, scripts: seq<Script>, connected: bool)
      ensures CallEnds(world, unread, start, scripts, [], 0, connected, Failed(SYSTEM), unread)
    {
    }

    lemma NothingTimedOut(unread: seq<byte>, start: u64, scripts: seq<Script>)
      ensures AllTimedOut(world, unread, start, scripts, [], unread)
    {
    }

    /** The retries are used up, or there were none. */
    lemma TimeoutsEnd(unread: seq<byte>, start: u64, scripts: seq<Script>, waits: seq<seq<PollEvent>>, rest: seq<byte>)
      requires AllTimedOut(world, unread, start, scripts, waits, rest)
      ensures CallEnds(world, unread, start, scripts, waits, |waits|, true,
                       if waits == [] then Failed(SYSTEM) else TimedOut, rest)
    {
      hide Waited;
    }

    /** After attempts that all timed out, one more: it ends the call, or times out too. */
    lemma NextAttemptEnds(unread: seq<byte>, start: u64, scripts: seq<Script>, waits: seq<seq<PollEvent>>,
                          before: seq<byte>, events: seq<PollEvent>, connected: bool, r: Outcome, rest: seq<byte>)
      requires AllTimedOut(world, unread, start, scripts, waits, before)
      requires connected ==>
                 WaitEnds(world, before, events, ScriptAt(scripts, |waits|).polls, SeqAfter(start, |waits|), r, rest)
      requires !connected ==> r == Failed(SYSTEM) && rest == before
      ensures CallEnds(world, unread, start, scripts, if connected then waits + [events] else waits, |waits| + 1,
                       connected, r, rest)
      ensures r == TimedOut ==> connected && AllTimedOut(world, unread, start, scripts, waits + [events], rest)
    {
      hide Waited, SeqAfter, Happened, AfterWaits;
      if connected {
        OneMoreWait(world, unread, waits, start, events);
        DecisionsAreNoTimeouts(world, before, events, SeqAfter(start, |waits|));
        assert (waits + [events])[..|waits|] == waits;
      } else {
        assert waits[..|waits|] == waits;
      }
    }

    lemma NoAttempts(start: u64, envelope: seq<byte>, wire0: seq<byte>)
      ensures wire0 + EncodeAll(AttemptFrames(start, 0, envelope)) == wire0
    {
      assert AttemptFrames(start, 0, envelope) == [];
    }
  }

  /** Taking one frame off the unread bytes moves it to the messages seen. */
  lemma TakesOneFrame(unread: seq<byte>, seen: seq<Message>, received: seq<byte>)
    requires EncodeAll(seen) + unread == received && DecodeOne(unread).Frame?
    ensures EncodeAll(seen + [DecodeOne(unread).msg]) + DecodeOne(unread).rest == received
    ensures |DecodeOne(unread).rest| < |unread|
  {
    var m, rest := DecodeOne(unread).msg, DecodeOne(unread).rest;
    hide DecodeOne, EncodeAll, EncodeBytes;
    FrameShrinks(unread);
    ReencodesConsumedBytes(unread);
    EncodeAllAppend(seen, m);
    AppendAssociates(EncodeAll(seen), EncodeBytes(m), rest);
  }
}
