/** One client channel, one connection and one server, down to the bytes on the wire. Every
    interleaving of partial sends, reads of any size, timeouts, retries, pool scheduling and service
    results is a schedule of this step machine. */
module RpcSystem {
  import opened Wrappers
  import opened Bytes
  import opened Frames
  import opened Streams
  import opened Rpc

  /** A call: its serialized envelope and the attempts made for it, which are consecutive positions
      in the list of all requests sent. */
  datatype Call = Call(envelope: seq<byte>, first: nat, attempts: nat, result: Option<Outcome>)

  /** A reply the server has made; `handled` if handleRequest ran, otherwise submit was refused. */
  datatype Reply = Reply(request: Message, response: Response, handled: bool)

  datatype Phase = Idle | Ready | Sending | Waiting | Scanning | Shut

  datatype Sys = Sys(
    maxRetries: int,
    phase: Phase,
    nextSeq: u64,
    calls: seq<Call>,
    sent: seq<Message>,
    unsent: seq<byte>,
    toServer: seq<byte>,
    serverIn: seq<byte>,
    serverOpen: bool,
    decoded: nat,
    queued: multiset<Message>,
    running: multiset<Message>,
    answered: seq<Reply>,
    outgoing: seq<Reply>,
    toClient: seq<byte>,
    clientIn: seq<byte>,
    consumed: nat)

  function Init(maxRetries: int): Sys {
    Sys(maxRetries, Idle, 1, [], [], [], [], [], true, 0, multiset{}, multiset{}, [], [], [], [], 0)
  }

  datatype Step =
    | StartCall(envelope: seq<byte>)
    | Attempt
    | SendSome(n: nat)
    | SendFails
    | ClientReads(n: nat)
    | ClientDecodes
    | ClientTimesOut
    | ClientFails(outcome: Outcome)
    | ServerReads(n: nat)
    | ServerDecodes(accepted: bool, text: string)
    | WorkerStarts(request: Message)
    | WorkerFinishes(request: Message, result: ServiceResult)

  predicate Enabled(s: Sys, step: Step) {
    match step
    case StartCall(envelope) => s.phase == Idle && |envelope| < SERIALIZE_LIMIT
    case Attempt => s.phase == Ready && s.calls != []
    case SendSome(n) => s.phase == Sending && 0 < n <= |s.unsent|
    case SendFails => s.phase == Sending && s.calls != []
    case ClientReads(n) => s.phase == Waiting && 0 < n <= |s.toClient|
    case ClientDecodes => s.phase == Scanning && s.calls != [] && s.sent != []
    case ClientTimesOut => s.phase == Waiting && s.calls != []
    case ClientFails(o) => s.phase == Waiting && s.calls != [] && (o == Closed || o == Failed(SYSTEM))
    case ServerReads(n) => 0 < n <= |s.toServer|
    case ServerDecodes(_, _) => true
    case WorkerStarts(m) => m in s.queued
    case WorkerFinishes(m, _) => m in s.running
  }

  function Last<T>(xs: seq<T>): T
    requires xs != []
  {
    xs[|xs| - 1]
  }

  function Finish(s: Sys, outcome: Outcome): Sys
    requires s.calls != []
  {
    s.(calls := s.calls[|s.calls| - 1 := Last(s.calls).(result := Some(outcome))], phase := Idle)
  }

  function ReplyFrame(w: World, r: Reply): Message {
    ResponseFrame(r.request.header.seqNo, w.serialize(r.response))
  }

  /** The reply is handed to the connection, which drops it once it is shutting down. */
  function SendReply(w: World, s: Sys, r: Reply): Sys {
    if s.serverOpen then
      s.(answered := s.answered + [r], outgoing := s.outgoing + [r],
         toClient := s.toClient + EncodeBytes(ReplyFrame(w, r)))
    else s.(answered := s.answered + [r])
  }

  /** One iteration of the client's decoding loop. */
  function AfterClientDecodes(w: World, s: Sys): Sys
    requires s.calls != [] && s.sent != []
  {
    match DecodeOne(s.clientIn)
    case NeedMore => s.(phase := Waiting)
    case Malformed(_) => Finish(s, Failed(UNKNOWN))
    case Frame(m, rest) =>
      var s' := s.(clientIn := rest, consumed := s.consumed + 1);
      if IsReplyTo(m, Last(s.sent).header.seqNo) then Finish(s', Judge(w, m.body)) else s'
  }

  /** One iteration of the server's decoding loop. */
  function AfterServerDecodes(w: World, s: Sys, accepted: bool, text: string): Sys {
    match DecodeOne(s.serverIn)
    case NeedMore => s
    case Malformed(_) => s.(serverOpen := false)
    case Frame(m, rest) =>
      var s' := s.(serverIn := rest, decoded := s.decoded + 1);
      if m.header.kind != REQUEST then s'
      else if accepted then s'.(queued := s'.queued + multiset{m})
      else SendReply(w, s', Reply(m, Refusal(text), false))
  }

  function Apply(w: World, s: Sys, step: Step): Sys
    requires Enabled(s, step)
  {
    match step
    case StartCall(envelope) =>
      if s.maxRetries < 0 then s.(calls := s.calls + [Call(envelope, |s.sent|, 0, Some(Failed(SYSTEM)))])
      else s.(calls := s.calls + [Call(envelope, |s.sent|, 0, None)], phase := Ready)
    case Attempt =>
      var call := Last(s.calls);
      var m := RequestFrame(s.nextSeq, call.envelope);
      s.(calls := s.calls[|s.calls| - 1 := call.(attempts := call.attempts + 1)],
         nextSeq := (s.nextSeq + 1) % WORD, sent := s.sent + [m], unsent := EncodeBytes(m), phase := Sending)
    case SendSome(n) =>
      s.(toServer := s.toServer + s.unsent[..n], unsent := s.unsent[n..],
         phase := if n == |s.unsent| then Waiting else Sending)
    case SendFails => Finish(s, Failed(SYSTEM)).(phase := Shut)
    case ClientReads(n) =>
      s.(clientIn := s.clientIn + s.toClient[..n], toClient := s.toClient[n..], phase := Scanning)
    case ClientDecodes => AfterClientDecodes(w, s)
    case ClientTimesOut =>
      if Last(s.calls).attempts <= s.maxRetries then s.(phase := Ready) else Finish(s, TimedOut)
    case ClientFails(o) => Finish(s, o)
    case ServerReads(n) => s.(serverIn := s.serverIn + s.toServer[..n], toServer := s.toServer[n..])
    case ServerDecodes(accepted, text) => AfterServerDecodes(w, s, accepted, text)
    case WorkerStarts(m) => s.(queued := s.queued - multiset{m}, running := s.running + multiset{m})
    case WorkerFinishes(m, result) =>
      SendReply(w, s.(running := s.running - multiset{m}), Reply(m, Answer(w, m.body, result), true))
  }

  predicate Reaches(w: World, s: Sys, steps: seq<Step>, t: Sys)
    decreases |steps|
  {
    if steps == [] then s == t
    else Enabled(s, steps[0]) && Reaches(w, Apply(w, s, steps[0]), steps[1..], t)
  }

  // ---- what every step keeps ----

  function SeqOf(i: nat): u64 {
    (i + 1) % WORD
  }

  /** Attempt number i carries sequence number i + 1, and requests are below the protobuf limit. */
  ghost predicate Numbered(s: Sys) {
    && s.nextSeq == SeqOf(|s.sent|)
    && forall i | 0 <= i < |s.sent| ::
         s.sent[i] == RequestFrame(SeqOf(i), s.sent[i].body) && |s.sent[i].body| < SERIALIZE_LIMIT
  }

  /** The attempts of a call fill the positions from its first to `end`, repeat its envelope, and are
      no more than the channel allows. */
  ghost predicate Tile(call: Call, end: nat, sent: seq<Message>, maxRetries: int) {
    && call.first + call.attempts == end <= |sent|
    && call.attempts <= (if maxRetries < 0 then 0 else maxRetries + 1)
    && |call.envelope| < SERIALIZE_LIMIT
    && forall i | call.first <= i < end :: sent[i].body == call.envelope
  }

  function EndOf(s: Sys, c: nat): nat
    requires c < |s.calls|
  {
    if c + 1 < |s.calls| then s.calls[c + 1].first else |s.sent|
  }

  /** The attempts of the calls lie side by side, in the order of the calls. */
  ghost predicate Tiled(s: Sys) {
    forall c | 0 <= c < |s.calls| :: Tile(s.calls[c], EndOf(s, c), s.sent, s.maxRetries)
  }

  /** The phase says how far the last call has come. */
  ghost predicate PhaseFits(s: Sys) {
    && (s.phase in {Ready, Sending, Waiting, Scanning} ==> s.calls != [] && Last(s.calls).result == None)
    && (s.phase == Ready ==> Last(s.calls).attempts <= s.maxRetries)
    && (s.phase in {Sending, Waiting, Scanning} ==> Last(s.calls).attempts > 0)
  }

  /** The bytes on their way to the server are exactly the requests it has not decoded. */
  ghost predicate RequestsInOrder(s: Sys) {
    && s.decoded <= |s.sent|
    && s.serverIn + s.toServer + s.unsent == EncodeAll(s.sent[s.decoded..])
    && (s.unsent != [] ==> s.phase == Sending || s.phase == Shut)
  }

  function ReplyFrames(w: World, rs: seq<Reply>): (ms: seq<Message>)
    ensures |ms| == |rs|
  {
    seq(|rs|, i requires 0 <= i < |rs| => ReplyFrame(w, rs[i]))
  }

  /** The bytes on their way to the client are exactly the replies it has not decoded. */
  ghost predicate RepliesInOrder(w: World, s: Sys) {
    && s.consumed <= |s.outgoing|
    && s.clientIn + s.toClient == EncodeAll(ReplyFrames(w, s.outgoing)[s.consumed..])
    && (forall i | 0 <= i < |s.outgoing| :: s.outgoing[i] in s.answered)
    && (s.serverOpen ==> s.outgoing == s.answered)
  }

  function ReceivedAll(ms: seq<Message>): seq<Message> {
    seq(|ms|, i requires 0 <= i < |ms| => Received(ms[i]))
  }

  function RequestsOf(rs: seq<Reply>): seq<Message> {
    seq(|rs|, i requires 0 <= i < |rs| => rs[i].request)
  }

  /** Every decoded request is queued, running or answered, and counted once. */
  ghost predicate Conserved(s: Sys) {
    && s.decoded <= |s.sent|
    && multiset(ReceivedAll(s.sent[..s.decoded])) == s.queued + s.running + multiset(RequestsOf(s.answered))
  }

  /** A reply is the answer of its own request's handler, or the refusal of that request. */
  ghost predicate Genuine(w: World, r: Reply) {
    if r.handled then exists result :: r.response == Answer(w, r.request.body, result)
    else exists text :: r.response == Refusal(text)
  }

  ghost predicate AllGenuine(w: World, s: Sys) {
    forall i | 0 <= i < |s.answered| :: Genuine(w, s.answered[i])
  }

  /** A result that only a reply can bring: success, or a code other than the client's own two. */
  predicate FromReply(result: Option<Outcome>) {
    && result.Some?
    && (result.value.Ok? || (result.value.Failed? && result.value.code !in {SYSTEM, UNKNOWN}))
  }

  /** The client took r as the reply that decides the call: it answers the last attempt of the call. */
  ghost predicate Settles(w: World, s: Sys, call: Call, r: Reply) {
    && 0 < call.attempts && call.first + call.attempts <= |s.sent|
    && r.request == Received(s.sent[call.first + call.attempts - 1])
    && call.result == Some(Judge(w, w.serialize(r.response)))
    && (Fits(w, r.response) && call.result.value.Ok? ==>
          r.handled && call.result == Some(Ok(r.response.payload)) && r.response.code == OK)
    && (Fits(w, r.response) && call.result.value.Failed? ==>
          r.handled && call.result == Some(Failed(r.response.code)))
  }

  /** Every call that a reply has decided was settled by a reply to its own last attempt. */
  ghost predicate ResultsOwned(w: World, s: Sys) {
    |s.sent| < WORD ==>
      forall c | 0 <= c < |s.calls| && FromReply(s.calls[c].result) ::
        exists j | 0 <= j < |s.answered| :: Settles(w, s, s.calls[c], s.answered[j])
  }

  ghost predicate Inv(w: World, s: Sys) {
    && Numbered(s) && Tiled(s) && PhaseFits(s) && RequestsInOrder(s) && RepliesInOrder(w, s)
    && Conserved(s) && AllGenuine(w, s) && ResultsOwned(w, s)
  }

  // ---- framing ----

  /** A message that a peer can only read whole or reject. */
  ghost predicate Sendable(m: Message) {
    m.header.magic == MAGIC && m.header.version == PROTOCOL_VERSION && |m.body| < SERIALIZE_LIMIT
  }

  /** What is decoded from the front of a stream of frames, however much of it has arrived, is the
      first frame. */
  lemma DecodesFirstFrame(arrived: seq<byte>, underway: seq<byte>, ms: seq<Message>)
    requires arrived + underway == EncodeAll(ms) && DecodeOne(arrived).Frame?
    requires forall m | m in ms :: Sendable(m)
    ensures ms != [] && DecodeOne(arrived).msg == Received(ms[0])
    ensures DecodeOne(arrived).rest + underway == EncodeAll(ms[1..])
  {
    hide ParseHeader, EncodeBytes;
    DecodeIsStable(arrived, underway);
    assert ms != [] && ms[0] in ms;
    var m, tail := ms[0], EncodeAll(ms[1..]);
    assert EncodeAll(ms) == EncodeBytes(m) + tail;
    var s := EncodeBytes(m) + tail;
    assert s[..|s|] == s;
    if !Acceptable(m) {
      OversizeIsRejected(m, tail);
      assert false;
    }
    DecodeOfEncoding(m, tail);
  }

  // ---- the steps ----

  predicate OnServer(step: Step) {
    step.ServerReads? || step.ServerDecodes? || step.WorkerStarts? || step.WorkerFinishes?
  }

  lemma SendReplyFootprint(w: World, s: Sys, r: Reply)
    ensures var s' := SendReply(w, s, r);
            s' == s.(answered := s'.answered, outgoing := s'.outgoing, toClient := s'.toClient)
    ensures SendReply(w, s, r).answered == s.answered + [r]
  {
    hide EncodeBytes;
  }

  /** The server's steps leave the client's state alone. */
  lemma ServerFootprint(w: World, s: Sys, step: Step)
    requires Enabled(s, step) && OnServer(step)
    ensures var s' := Apply(w, s, step);
            && s'.phase == s.phase && s'.calls == s.calls && s'.clientIn == s.clientIn && s'.consumed == s.consumed
            && s'.unsent == s.unsent && s'.maxRetries == s.maxRetries && s'.sent == s.sent && s'.nextSeq == s.nextSeq
            && s.answered <= s'.answered
  {
    hide DecodeOne, EncodeBytes, Answer, Judge, SendReply;
    match step
    case ServerDecodes(_, text) =>
      if DecodeOne(s.serverIn).Frame? {
        var m, rest := DecodeOne(s.serverIn).msg, DecodeOne(s.serverIn).rest;
        SendReplyFootprint(w, s.(serverIn := rest, decoded := s.decoded + 1), Reply(m, Refusal(text), false));
      }
    case WorkerFinishes(m, result) =>
      SendReplyFootprint(w, s.(running := s.running - multiset{m}), Reply(m, Answer(w, m.body, result), true));
    case _ =>
  }

  /** The client's steps leave the server's state alone, and only an attempt adds a request. */
  lemma ClientFootprint(w: World, s: Sys, step: Step)
    requires Enabled(s, step) && !OnServer(step)
    ensures var s' := Apply(w, s, step);
            && s'.maxRetries == s.maxRetries && s.sent <= s'.sent
            && s'.answered == s.answered && s'.outgoing == s.outgoing
            && s'.queued == s.queued && s'.running == s.running && s'.decoded == s.decoded
            && (!step.Attempt? ==> s'.sent == s.sent && s'.nextSeq == s.nextSeq)
  {
    hide DecodeOne, EncodeBytes, Judge;
  }

  lemma StepKeepsNumbers(w: World, s: Sys, step: Step)
    requires Numbered(s) && Tiled(s) && Enabled(s, step)
    ensures Numbered(Apply(w, s, step))
  {
    hide DecodeOne, EncodeBytes;
    if step.Attempt? {
      assert Tile(Last(s.calls), EndOf(s, |s.calls| - 1), s.sent, s.maxRetries);
    } else if OnServer(step) {
      hide Apply;
      ServerFootprint(w, s, step);
    } else {
      hide Apply;
      ClientFootprint(w, s, step);
    }
  }

  lemma FinishKeepsTiles(s: Sys, outcome: Outcome)
    requires Tiled(s) && s.calls != []
    ensures Tiled(Finish(s, outcome))
  {
    var s' := Finish(s, outcome);
    forall c | 0 <= c < |s'.calls|
      ensures Tile(s'.calls[c], EndOf(s', c), s'.sent, s'.maxRetries)
    {
      assert Tile(s.calls[c], EndOf(s, c), s.sent, s.maxRetries);
    }
  }

  lemma StartKeepsTiles(s: Sys, call: Call, s': Sys)
    requires Tiled(s) && call.first == |s.sent| && call.attempts == 0 && |call.envelope| < SERIALIZE_LIMIT
    requires s'.calls == s.calls + [call] && s'.sent == s.sent && s'.maxRetries == s.maxRetries
    ensures Tiled(s')
  {
    forall c | 0 <= c < |s'.calls|
      ensures Tile(s'.calls[c], EndOf(s', c), s'.sent, s'.maxRetries)
    {
      if c < |s.calls| {
        assert Tile(s.calls[c], EndOf(s, c), s.sent, s.maxRetries);
      }
    }
  }

  lemma AttemptKeepsTiles(w: World, s: Sys)
    requires Tiled(s) && PhaseFits(s) && Enabled(s, Attempt)
    ensures Tiled(Apply(w, s, Attempt))
  {
    hide EncodeBytes;
    var s' := Apply(w, s, Attempt);
    forall c | 0 <= c < |s'.calls|
      ensures Tile(s'.calls[c], EndOf(s', c), s'.sent, s'.maxRetries)
    {
      assert Tile(s.calls[c], EndOf(s, c), s.sent, s.maxRetries);
    }
  }

  /** Steps that touch neither the calls nor the requests sent. */
  lemma OthersKeepTiles(s: Sys, s': Sys)
    requires Tiled(s) && s'.calls == s.calls && s'.sent == s.sent && s'.maxRetries == s.maxRetries
    ensures Tiled(s')
  {
    forall c | 0 <= c < |s'.calls|
      ensures Tile(s'.calls[c], EndOf(s', c), s'.sent, s'.maxRetries)
    {
      assert Tile(s.calls[c], EndOf(s, c), s.sent, s.maxRetries);
    }
  }

  lemma StepKeepsTiles(w: World, s: Sys, step: Step)
    requires Tiled(s) && PhaseFits(s) && Enabled(s, step)
    ensures Tiled(Apply(w, s, step))
  {
    hide DecodeOne, EncodeBytes, Answer, Judge, Tiled, PhaseFits;
    var s' := Apply(w, s, step);
    match step
    case StartCall(_) => StartKeepsTiles(s, Last(s'.calls), s');
    case Attempt => AttemptKeepsTiles(w, s);
    case SendFails =>
      FinishKeepsTiles(s, Failed(SYSTEM));
      OthersKeepTiles(Finish(s, Failed(SYSTEM)), s');
    case ClientTimesOut => FinishKeepsTiles(s, TimedOut); OthersKeepTiles(s, s.(phase := Ready));
    case ClientFails(o) => FinishKeepsTiles(s, o);
    case ClientDecodes => ClientDecodesKeepsTiles(w, s);
    case SendSome(_) => OthersKeepTiles(s, s');
    case ClientReads(_) => OthersKeepTiles(s, s');
    case _ =>
      hide Apply;
      ServerFootprint(w, s, step);
      OthersKeepTiles(s, s');
  }

  lemma ClientDecodesKeepsTiles(w: World, s: Sys)
    requires Tiled(s) && s.calls != [] && s.sent != []
    ensures Tiled(AfterClientDecodes(w, s))
  {
    hide DecodeOne, Judge, Tiled;
    match DecodeOne(s.clientIn)
    case NeedMore => OthersKeepTiles(s, s.(phase := Waiting));
    case Malformed(_) => FinishKeepsTiles(s, Failed(UNKNOWN));
    case Frame(m, rest) =>
      var s' := s.(clientIn := rest, consumed := s.consumed + 1);
      OthersKeepTiles(s, s');
      FinishKeepsTiles(s', Judge(w, m.body));
  }

  lemma StepKeepsPhase(w: World, s: Sys, step: Step)
    requires PhaseFits(s) && Enabled(s, step)
    ensures PhaseFits(Apply(w, s, step))
  {
    hide DecodeOne, EncodeBytes, Answer, Judge;
    if OnServer(step) {
      hide Apply;
      ServerFootprint(w, s, step);
    }
  }

  // ---- the request stream ----

  lemma NumberedAreSendable(s: Sys)
    requires Numbered(s) && s.decoded <= |s.sent|
    ensures forall m | m in s.sent[s.decoded..] :: Sendable(m)
  {
  }

  lemma AttemptKeepsRequests(w: World, s: Sys)
    requires RequestsInOrder(s) && Enabled(s, Attempt)
    ensures RequestsInOrder(Apply(w, s, Attempt))
  {
    hide EncodeBytes, EncodeAll;
    var s' := Apply(w, s, Attempt);
    var m := Last(s'.sent);
    assert s.unsent == [];
    assert s'.sent[s.decoded..] == s.sent[s.decoded..] + [m];
    EncodeAllAppend(s.sent[s.decoded..], m);
    assert s.serverIn + s.toServer + [] == s.serverIn + s.toServer;
  }

  /** The next message the server decodes is the next request the client sent. */
  lemma ServerDecodesNextRequest(s: Sys)
    requires Numbered(s) && RequestsInOrder(s) && DecodeOne(s.serverIn).Frame?
    ensures s.decoded < |s.sent|
    ensures DecodeOne(s.serverIn).msg == Received(s.sent[s.decoded])
    ensures DecodeOne(s.serverIn).msg.header.kind == REQUEST
    ensures DecodeOne(s.serverIn).rest + s.toServer + s.unsent == EncodeAll(s.sent[s.decoded + 1..])
  {
    hide EncodeBytes, EncodeAll, DecodeOne;
    NumberedAreSendable(s);
    AppendAssociates(s.serverIn, s.toServer, s.unsent);
    DecodesFirstFrame(s.serverIn, s.toServer + s.unsent, s.sent[s.decoded..]);
    AppendAssociates(DecodeOne(s.serverIn).rest, s.toServer, s.unsent);
    assert s.sent[s.decoded..][1..] == s.sent[s.decoded + 1..];
  }

  lemma ServerDecodesKeepsRequests(w: World, s: Sys, accepted: bool, text: string)
    requires Numbered(s) && RequestsInOrder(s)
    ensures RequestsInOrder(AfterServerDecodes(w, s, accepted, text))
  {
    hide EncodeBytes, EncodeAll, DecodeOne, Numbered;
    if DecodeOne(s.serverIn).Frame? {
      ServerDecodesNextRequest(s);
    }
  }

  lemma StepKeepsRequests(w: World, s: Sys, step: Step)
    requires Numbered(s) && RequestsInOrder(s) && Enabled(s, step)
    ensures RequestsInOrder(Apply(w, s, step))
  {
    hide EncodeBytes, EncodeAll, DecodeOne, Answer, Judge, Numbered;
    match step
    case Attempt => AttemptKeepsRequests(w, s);
    case SendSome(n) =>
      assert s.unsent == s.unsent[..n] + s.unsent[n..];
      assert s.serverIn + (s.toServer + s.unsent[..n]) + s.unsent[n..] == s.serverIn + s.toServer + s.unsent;
    case ServerReads(n) =>
      assert s.toServer == s.toServer[..n] + s.toServer[n..];
      assert (s.serverIn + s.toServer[..n]) + s.toServer[n..] == s.serverIn + s.toServer;
    case ServerDecodes(accepted, text) => ServerDecodesKeepsRequests(w, s, accepted, text);
    case _ =>
  }

  // ---- the reply stream ----

  lemma RepliesAreSendable(w: World, rs: seq<Reply>)
    requires Faithful(w)
    ensures forall m | m in ReplyFrames(w, rs) :: Sendable(m)
  {
    forall m | m in ReplyFrames(w, rs)
      ensures Sendable(m)
    {
      var i :| 0 <= i < |rs| && m == ReplyFrame(w, rs[i]);
      assert |w.serialize(rs[i].response)| < SERIALIZE_LIMIT;
    }
  }

  lemma SendKeepsReplies(w: World, s: Sys, r: Reply)
    requires RepliesInOrder(w, s)
    ensures RepliesInOrder(w, SendReply(w, s, r))
  {
    hide EncodeBytes, EncodeAll;
    var s' := SendReply(w, s, r);
    if s.serverOpen {
      var fs, m := ReplyFrames(w, s.outgoing), ReplyFrame(w, r);
      assert ReplyFrames(w, s'.outgoing) == fs + [m];
      assert (fs + [m])[s.consumed..] == fs[s.consumed..] + [m];
      EncodeAllAppend(fs[s.consumed..], m);
      AppendAssociates(s.clientIn, s.toClient, EncodeBytes(m));
    }
  }

  /** The next message the client decodes is the next reply the server sent. */
  lemma ClientDecodesNextReply(w: World, s: Sys)
    requires Faithful(w) && RepliesInOrder(w, s) && DecodeOne(s.clientIn).Frame?
    ensures s.consumed < |s.outgoing|
    ensures DecodeOne(s.clientIn).msg == Received(ReplyFrame(w, s.outgoing[s.consumed]))
    ensures DecodeOne(s.clientIn).rest + s.toClient == EncodeAll(ReplyFrames(w, s.outgoing)[s.consumed + 1..])
  {
    hide EncodeBytes, EncodeAll, DecodeOne;
    var fs := ReplyFrames(w, s.outgoing);
    RepliesAreSendable(w, s.outgoing);
    DecodesFirstFrame(s.clientIn, s.toClient, fs[s.consumed..]);
    assert fs[s.consumed..][1..] == fs[s.consumed + 1..];
    assert fs[s.consumed..][0] == fs[s.consumed];
  }

  lemma ClientDecodesKeepsReplies(w: World, s: Sys)
    requires Faithful(w) && RepliesInOrder(w, s) && s.calls != [] && s.sent != []
    ensures RepliesInOrder(w, AfterClientDecodes(w, s))
  {
    hide EncodeAll, DecodeOne, Judge, Faithful, ReplyFrames;
    if DecodeOne(s.clientIn).Frame? {
      ClientDecodesNextReply(w, s);
    }
  }

  lemma StepKeepsReplies(w: World, s: Sys, step: Step)
    requires Faithful(w) && RepliesInOrder(w, s) && Enabled(s, step)
    ensures RepliesInOrder(w, Apply(w, s, step))
  {
    hide EncodeBytes, EncodeAll, DecodeOne, Answer, Judge, Faithful, SendReply, ReplyFrames;
    match step
    case ClientReads(n) =>
      assert s.toClient == s.toClient[..n] + s.toClient[n..];
      assert (s.clientIn + s.toClient[..n]) + s.toClient[n..] == s.clientIn + s.toClient;
    case ClientDecodes => ClientDecodesKeepsReplies(w, s);
    case ServerDecodes(accepted, text) =>
      if DecodeOne(s.serverIn).Frame? {
        var m, rest := DecodeOne(s.serverIn).msg, DecodeOne(s.serverIn).rest;
        SendKeepsReplies(w, s.(serverIn := rest, decoded := s.decoded + 1), Reply(m, Refusal(text), false));
      }
    case WorkerFinishes(m, result) =>
      SendKeepsReplies(w, s.(running := s.running - multiset{m}), Reply(m, Answer(w, m.body, result), true));
    case _ =>
  }

  // ---- conservation of requests ----

  lemma SendConserves(w: World, s: Sys, r: Reply)
    ensures multiset(RequestsOf(SendReply(w, s, r).answered)) == multiset(RequestsOf(s.answered)) + multiset{r.request}
  {
    var rs := RequestsOf(s.answered);
    assert RequestsOf(s.answered + [r]) == rs + [r.request];
  }

  lemma ReceivedOneMore(ms: seq<Message>, n: nat)
    requires n < |ms|
    ensures multiset(ReceivedAll(ms[..n + 1])) == multiset(ReceivedAll(ms[..n])) + multiset{Received(ms[n])}
  {
    assert ReceivedAll(ms[..n + 1]) == ReceivedAll(ms[..n]) + [Received(ms[n])];
  }

  lemma OneMoreOnTheBooks(all: multiset<Message>, queued: multiset<Message>, running: multiset<Message>,
                          answered: multiset<Message>, m: Message)
    requires all == queued + running + answered
    ensures all + multiset{m} == (queued + multiset{m}) + running + answered
    ensures all + multiset{m} == queued + running + (answered + multiset{m})
  {
  }

  /** The next request has been decoded; it is queued, or refused with a reply. */
  lemma DispatchConserves(w: World, s: Sys, s': Sys, m: Message, text: string)
    requires Conserved(s) && s.decoded < |s.sent| && m == Received(s.sent[s.decoded])
    requires s' == s.(serverIn := s'.serverIn, decoded := s.decoded + 1)
    ensures Conserved(s'.(queued := s'.queued + multiset{m}))
    ensures Conserved(SendReply(w, s', Reply(m, Refusal(text), false)))
  {
    hide ReceivedAll, RequestsOf, SendReply, Received;
    var r := Reply(m, Refusal(text), false);
    ReceivedOneMore(s.sent, s.decoded);
    OneMoreOnTheBooks(multiset(ReceivedAll(s.sent[..s.decoded])), s.queued, s.running,
                      multiset(RequestsOf(s.answered)), m);
    SendConserves(w, s', r);
    SendReplyFootprint(w, s', r);
  }

  lemma ServerDecodesConserves(w: World, s: Sys, accepted: bool, text: string)
    requires Numbered(s) && RequestsInOrder(s) && Conserved(s)
    ensures Conserved(AfterServerDecodes(w, s, accepted, text))
  {
    hide DecodeOne, SendReply, Received, Conserved, Numbered, RequestsInOrder;
    if DecodeOne(s.serverIn).Frame? {
      ServerDecodesNextRequest(s);
      var m, rest := DecodeOne(s.serverIn).msg, DecodeOne(s.serverIn).rest;
      DispatchConserves(w, s, s.(serverIn := rest, decoded := s.decoded + 1), m, text);
    } else {
      OthersConserve(s, AfterServerDecodes(w, s, accepted, text));
    }
  }

  lemma WorkerFinishConserves(w: World, s: Sys, r: Reply)
    requires Conserved(s) && r.request in s.running
    ensures Conserved(SendReply(w, s.(running := s.running - multiset{r.request}), r))
  {
    hide EncodeBytes, ReceivedAll, RequestsOf;
    SendConserves(w, s.(running := s.running - multiset{r.request}), r);
    assert s.running == (s.running - multiset{r.request}) + multiset{r.request};
  }

  lemma WorkerStartConserves(s: Sys, m: Message)
    requires Conserved(s) && m in s.queued
    ensures Conserved(s.(queued := s.queued - multiset{m}, running := s.running + multiset{m}))
  {
    hide ReceivedAll, RequestsOf;
    assert s.queued + s.running == (s.queued - multiset{m}) + (s.running + multiset{m});
  }

  /** Steps that leave the server's books alone; the list of sent requests may grow. */
  lemma OthersConserve(s: Sys, s': Sys)
    requires Conserved(s)
    requires s.sent <= s'.sent && s'.decoded == s.decoded
    requires s'.queued == s.queued && s'.running == s.running && s'.answered == s.answered
    ensures Conserved(s')
  {
    hide ReceivedAll, RequestsOf;
    assert s'.sent[..s.decoded] == s.sent[..s.decoded];
  }

  lemma StepConserves(w: World, s: Sys, step: Step)
    requires Numbered(s) && RequestsInOrder(s) && Conserved(s) && Enabled(s, step)
    ensures Conserved(Apply(w, s, step))
  {
    hide EncodeBytes, EncodeAll, DecodeOne, Answer, Judge, Numbered, Conserved, RequestsInOrder;
    match step
    case ServerDecodes(accepted, text) => ServerDecodesConserves(w, s, accepted, text);
    case WorkerStarts(m) => WorkerStartConserves(s, m);
    case WorkerFinishes(m, result) => WorkerFinishConserves(w, s, Reply(m, Answer(w, m.body, result), true));
    case ServerReads(_) => OthersConserve(s, Apply(w, s, step));
    case _ =>
      ClientFootprint(w, s, step);
      hide Apply;
      OthersConserve(s, Apply(w, s, step));
  }

  // ---- replies are genuine ----

  lemma SendKeepsGenuine(w: World, s: Sys, r: Reply)
    requires AllGenuine(w, s) && Genuine(w, r)
    ensures AllGenuine(w, SendReply(w, s, r))
  {
    hide SendReply, Genuine;
    SendReplyFootprint(w, s, r);
  }

  lemma StepKeepsGenuine(w: World, s: Sys, step: Step)
    requires AllGenuine(w, s) && Enabled(s, step)
    ensures AllGenuine(w, Apply(w, s, step))
  {
    hide DecodeOne, Answer, Judge, SendReply;
    match step
    case ServerDecodes(accepted, text) =>
      if DecodeOne(s.serverIn).Frame? {
        var m, rest := DecodeOne(s.serverIn).msg, DecodeOne(s.serverIn).rest;
        SendKeepsGenuine(w, s.(serverIn := rest, decoded := s.decoded + 1), Reply(m, Refusal(text), false));
      }
    case WorkerFinishes(m, result) =>
      var r := Reply(m, Answer(w, m.body, result), true);
      assert Genuine(w, r);
      SendKeepsGenuine(w, s.(running := s.running - multiset{m}), r);
    case ServerReads(_) =>
    case WorkerStarts(_) =>
    case _ =>
      ClientFootprint(w, s, step);
      hide Apply;
  }

  // ---- results belong to their calls ----

  lemma RequestWasSent(s: Sys, j: nat) returns (i: nat)
    requires Conserved(s) && j < |s.answered|
    ensures i < |s.sent| && s.answered[j].request == Received(s.sent[i])
  {
    var books, all := RequestsOf(s.answered), ReceivedAll(s.sent[..s.decoded]);
    assert books[j] in multiset(books);
    assert books[j] in multiset(all);
    assert books[j] in all;
    i :| 0 <= i < |all| && all[i] == books[j];
  }

  /** Sequence numbers below the wrap identify attempts. */
  lemma SeqIdentifies(s: Sys, i: nat, k: nat)
    requires Numbered(s) && i < |s.sent| && k < |s.sent| && |s.sent| < WORD
    requires s.sent[i].header.seqNo == s.sent[k].header.seqNo
    ensures i == k
  {
    assert s.sent[i].header.seqNo == i + 1 && s.sent[k].header.seqNo == k + 1;
  }

  /** A reply with the outstanding sequence number is a reply to the outstanding attempt. */
  lemma MatchIsToLastAttempt(w: World, s: Sys) returns (r: Reply, j: nat)
    requires Faithful(w) && Inv(w, s) && s.sent != [] && |s.sent| < WORD
    requires DecodeOne(s.clientIn).Frame?
    requires IsReplyTo(DecodeOne(s.clientIn).msg, Last(s.sent).header.seqNo)
    ensures s.consumed < |s.outgoing| && r == s.outgoing[s.consumed]
    ensures j < |s.answered| && s.answered[j] == r
    ensures r.request == Received(Last(s.sent))
    ensures DecodeOne(s.clientIn).msg.body == w.serialize(r.response)
  {
    hide DecodeOne, EncodeAll, RequestsInOrder, ResultsOwned, AllGenuine, Tiled;
    ClientDecodesNextReply(w, s);
    r := s.outgoing[s.consumed];
    assert r in s.answered;
    j :| 0 <= j < |s.answered| && s.answered[j] == r;
    var i := RequestWasSent(s, j);
    SeqIdentifies(s, i, |s.sent| - 1);
  }

  /** A reply that matches the outstanding sequence number settles the call. */
  lemma MatchSettles(w: World, s: Sys, o: Outcome) returns (j: nat)
    requires Faithful(w) && Inv(w, s) && s.calls != [] && s.sent != [] && |s.sent| < WORD
    requires Last(s.calls).attempts > 0
    requires DecodeOne(s.clientIn).Frame?
    requires IsReplyTo(DecodeOne(s.clientIn).msg, Last(s.sent).header.seqNo)
    requires Judge(w, DecodeOne(s.clientIn).msg.body) == o && FromReply(Some(o))
    ensures j < |s.answered|
    ensures Settles(w, s, Last(s.calls).(result := Some(o)), s.answered[j])
  {
    hide DecodeOne, EncodeBytes, EncodeAll, Answer, ReplyFrames;
    hide RequestsInOrder, ResultsOwned, Conserved, Numbered;
    var r;
    r, j := MatchIsToLastAttempt(w, s);
    assert Fits(w, r.response) ==> w.parse(w.serialize(r.response)) == Some(r.response);
    assert Genuine(w, r);
    assert Tile(Last(s.calls), EndOf(s, |s.calls| - 1), s.sent, s.maxRetries);
  }

  /** Finished calls stay settled while the list of requests and of answers grows. */
  lemma OthersKeepResults(w: World, s: Sys, s': Sys)
    requires ResultsOwned(w, s) && s.sent <= s'.sent && s.answered <= s'.answered
    requires forall c | 0 <= c < |s'.calls| && FromReply(s'.calls[c].result) ::
               c < |s.calls| && s'.calls[c] == s.calls[c]
    ensures ResultsOwned(w, s')
  {
    if |s'.sent| < WORD {
      forall c | 0 <= c < |s'.calls| && FromReply(s'.calls[c].result)
        ensures exists j | 0 <= j < |s'.answered| :: Settles(w, s', s'.calls[c], s'.answered[j])
      {
        var j :| 0 <= j < |s.answered| && Settles(w, s, s.calls[c], s.answered[j]);
        assert Settles(w, s', s'.calls[c], s'.answered[j]);
      }
    }
  }

  lemma ClientDecodesKeepsResults(w: World, s: Sys)
    requires Faithful(w) && Inv(w, s) && Enabled(s, ClientDecodes)
    ensures ResultsOwned(w, AfterClientDecodes(w, s))
  {
    hide DecodeOne, Judge, Faithful;
    hide Numbered, Tiled, RequestsInOrder, RepliesInOrder, Conserved, AllGenuine, ResultsOwned;
    var s' := AfterClientDecodes(w, s);
    if DecodeOne(s.clientIn).Frame? && IsReplyTo(DecodeOne(s.clientIn).msg, Last(s.sent).header.seqNo)
       && FromReply(Some(Judge(w, DecodeOne(s.clientIn).msg.body))) {
      SettledByMatch(w, s, s');
    } else {
      OthersKeepResults(w, s, s');
    }
  }

  lemma SettledByMatch(w: World, s: Sys, s': Sys)
    requires Faithful(w) && Inv(w, s) && Enabled(s, ClientDecodes) && s' == AfterClientDecodes(w, s)
    requires DecodeOne(s.clientIn).Frame? && IsReplyTo(DecodeOne(s.clientIn).msg, Last(s.sent).header.seqNo)
    requires FromReply(Some(Judge(w, DecodeOne(s.clientIn).msg.body)))
    ensures ResultsOwned(w, s')
  {
    hide DecodeOne, Judge, Faithful, Numbered, Tiled, RequestsInOrder, RepliesInOrder, Conserved, AllGenuine;
    if |s.sent| < WORD {
      var last := |s.calls| - 1;
      var k := MatchSettles(w, s, Judge(w, DecodeOne(s.clientIn).msg.body));
      forall c | 0 <= c < |s'.calls| && FromReply(s'.calls[c].result)
        ensures exists j | 0 <= j < |s'.answered| :: Settles(w, s', s'.calls[c], s'.answered[j])
      {
        if c == last {
          assert Settles(w, s', s'.calls[c], s'.answered[k]);
        } else {
          var j :| 0 <= j < |s.answered| && Settles(w, s, s.calls[c], s.answered[j]);
          assert Settles(w, s', s'.calls[c], s'.answered[j]);
        }
      }
    }
  }

  lemma StepKeepsResults(w: World, s: Sys, step: Step)
    requires Faithful(w) && Inv(w, s) && Enabled(s, step)
    ensures ResultsOwned(w, Apply(w, s, step))
  {
    hide DecodeOne, EncodeBytes, Answer, Judge, Faithful;
    hide Numbered, Tiled, RequestsInOrder, RepliesInOrder, Conserved, AllGenuine, ResultsOwned;
    if step.ClientDecodes? {
      ClientDecodesKeepsResults(w, s);
    } else if OnServer(step) {
      hide Apply;
      ServerFootprint(w, s, step);
      OthersKeepResults(w, s, Apply(w, s, step));
    } else {
      OthersKeepResults(w, s, Apply(w, s, step));
    }
  }

  lemma StepKeepsInv(w: World, s: Sys, step: Step)
    requires Faithful(w) && Inv(w, s) && Enabled(s, step)
    ensures Inv(w, Apply(w, s, step))
  {
    hide Apply, Faithful;
    hide Numbered, Tiled, PhaseFits, RequestsInOrder, RepliesInOrder, Conserved, AllGenuine, ResultsOwned;
    StepKeepsNumbers(w, s, step);
    StepKeepsTiles(w, s, step);
    StepKeepsPhase(w, s, step);
    StepKeepsRequests(w, s, step);
    StepKeepsReplies(w, s, step);
    StepConserves(w, s, step);
    StepKeepsGenuine(w, s, step);
    StepKeepsResults(w, s, step);
  }

  lemma StartsInv(w: World, maxRetries: int)
    ensures Inv(w, Init(maxRetries))
  {
  }

  lemma {:induction false} RunKeepsInv(w: World, s: Sys, steps: seq<Step>, t: Sys)
    requires Faithful(w) && Inv(w, s) && Reaches(w, s, steps, t)
    ensures Inv(w, t) && t.maxRetries == s.maxRetries
    decreases |steps|
  {
    hide Faithful, Inv, Enabled;
    if steps != [] {
      StepKeepsInv(w, s, steps[0]);
      RunKeepsInv(w, Apply(w, s, steps[0]), steps[1..], t);
    }
  }

  // ---- whole runs ----

  /** A call never returns another call's answer. In every schedule with fewer than 2^64 attempts, a
      call that ends in success, or with an error code that is not one of the client's own two, was
      decided by the reply to the last attempt of that very call. If that reply fits in a protobuf
      message it is the handler's answer to the call's own envelope: a success delivers the payload the
      service computed, an error is the code the handler gave. */
  lemma CallGetsItsOwnAnswer(w: World, maxRetries: int, steps: seq<Step>, t: Sys, c: nat)
    returns (j: nat, result: ServiceResult)
    requires Faithful(w) && Reaches(w, Init(maxRetries), steps, t) && |t.sent| < WORD
    requires c < |t.calls| && FromReply(t.calls[c].result)
    ensures 0 < t.calls[c].attempts && t.calls[c].first + t.calls[c].attempts <= |t.sent|
    ensures j < |t.answered|
    ensures t.answered[j].request == Received(t.sent[t.calls[c].first + t.calls[c].attempts - 1])
    ensures t.answered[j].request.body == t.calls[c].envelope
    ensures t.calls[c].result.value == Judge(w, w.serialize(t.answered[j].response))
    ensures Fits(w, t.answered[j].response) ==>
              && t.answered[j].handled
              && t.answered[j].response == Answer(w, t.calls[c].envelope, result)
              && (t.calls[c].result.value.Failed? ==>
                    t.calls[c].result.value == Failed(Answer(w, t.calls[c].envelope, result).code))
              && (t.calls[c].result.value.Ok? ==>
                    && ReachesService(w, t.calls[c].envelope) && (result.Returns? || result.code == OK)
                    && t.calls[c].result.value == Ok(if result.Returns? then result.payload else []))
  {
    hide Reaches, Faithful, RequestsInOrder, RepliesInOrder, Conserved;
    StartsInv(w, maxRetries);
    RunKeepsInv(w, Init(maxRetries), steps, t);
    var call := t.calls[c];
    j :| 0 <= j < |t.answered| && Settles(w, t, call, t.answered[j]);
    assert Genuine(w, t.answered[j]);
    assert Tile(call, EndOf(t, c), t.sent, t.maxRetries);
    assert t.answered[j].request.body == call.envelope;
    result := Returns([]);
    if t.answered[j].handled {
      result :| t.answered[j].response == Answer(w, t.answered[j].request.body, result);
    }
  }

  /** A reply to any request but the outstanding one is dropped: it decides no call, and the client
      goes on looking. */
  lemma StaleReplyIsDropped(w: World, maxRetries: int, steps: seq<Step>, t: Sys)
    requires Faithful(w) && Reaches(w, Init(maxRetries), steps, t) && |t.sent| < WORD
    requires Enabled(t, ClientDecodes) && DecodeOne(t.clientIn).Frame?
    requires t.consumed < |t.outgoing| && t.outgoing[t.consumed].request != Received(Last(t.sent))
    ensures Apply(w, t, ClientDecodes).calls == t.calls
    ensures Apply(w, t, ClientDecodes).phase == Scanning
  {
    hide Reaches, DecodeOne, Judge, Inv, Faithful;
    StartsInv(w, maxRetries);
    RunKeepsInv(w, Init(maxRetries), steps, t);
    if IsReplyTo(DecodeOne(t.clientIn).msg, Last(t.sent).header.seqNo) {
      var r, j := MatchIsToLastAttempt(w, t);
    }
  }

  /** Reply conservation, in every schedule: the requests decoded so far are those queued, those
      running and those answered, each as often as it was decoded. */
  lemma EveryRequestIsAccountedFor(w: World, maxRetries: int, steps: seq<Step>, t: Sys)
    requires Faithful(w) && Reaches(w, Init(maxRetries), steps, t)
    ensures t.decoded <= |t.sent|
    ensures multiset(ReceivedAll(t.sent[..t.decoded])) == t.queued + t.running + multiset(RequestsOf(t.answered))
    ensures forall i | 0 <= i < |t.answered| :: Genuine(w, t.answered[i])
  {
    StartsInv(w, maxRetries);
    RunKeepsInv(w, Init(maxRetries), steps, t);
  }

  /** Once nothing is on its way to the server, queued or running, and the connection has not been shut
      down by a codec error, every attempt ever sent has had its reply put on the wire, exactly once. */
  lemma QuietServerHasAnsweredAll(w: World, maxRetries: int, steps: seq<Step>, t: Sys)
    requires Faithful(w) && Reaches(w, Init(maxRetries), steps, t)
    requires t.serverIn == [] && t.toServer == [] && t.unsent == []
    requires t.queued == multiset{} && t.running == multiset{} && t.serverOpen
    ensures multiset(ReceivedAll(t.sent)) == multiset(RequestsOf(t.outgoing))
  {
    hide Reaches, Faithful, EncodeBytes, Numbered, Tiled, AllGenuine, ResultsOwned;
    StartsInv(w, maxRetries);
    RunKeepsInv(w, Init(maxRetries), steps, t);
    assert EncodeAll(t.sent[t.decoded..]) == [];
    OnlyEmptyEncodesEmpty(t.sent[t.decoded..]);
    assert t.sent[..t.decoded] == t.sent;
  }

  lemma OnlyEmptyEncodesEmpty(ms: seq<Message>)
    requires EncodeAll(ms) == []
    ensures ms == []
  {
  }

  lemma {:induction false} DistinctCountsOnce<T>(xs: seq<T>, x: T)
    requires forall i, k | 0 <= i < k < |xs| :: xs[i] != xs[k]
    ensures multiset(xs)[x] <= 1
    decreases |xs|
  {
    if xs != [] {
      var front := xs[..|xs| - 1];
      assert xs == front + [xs[|xs| - 1]];
      DistinctCountsOnce(front, x);
      if x == xs[|xs| - 1] {
        assert x !in front;
        assert x !in multiset(front);
      }
    }
  }

  lemma RepeatCountsTwice<T>(xs: seq<T>, i: nat, k: nat)
    requires i < k < |xs| && xs[i] == xs[k]
    ensures multiset(xs)[xs[i]] >= 2
  {
    assert xs == xs[..k] + xs[k..];
    assert multiset(xs) == multiset(xs[..k]) + multiset(xs[k..]);
    assert xs[..k][i] in multiset(xs[..k]);
    assert xs[k..][0] in multiset(xs[k..]);
  }

  lemma AnsweredOnce(w: World, t: Sys, i: nat, k: nat)
    requires Inv(w, t) && |t.sent| < WORD
    requires i < k < |t.answered|
    ensures t.answered[i].request != t.answered[k].request
  {
    hide Inv;
    var books := RequestsOf(t.answered);
    AccountedOnce(w, t, books[i]);
    if books[i] == books[k] {
      RepeatCountsTwice(books, i, k);
    }
  }

  /** Below the wrap every attempt is in one place at most: queued, running or answered. */
  lemma AccountedOnce(w: World, t: Sys, m: Message)
    requires Inv(w, t) && |t.sent| < WORD
    ensures t.queued[m] + t.running[m] + multiset(RequestsOf(t.answered))[m] <= 1
  {
    hide RequestsInOrder, RepliesInOrder, AllGenuine, ResultsOwned, Tiled;
    var all := ReceivedAll(t.sent[..t.decoded]);
    forall a, b | 0 <= a < b < |all|
      ensures all[a] != all[b]
    {
      if all[a] == all[b] {
        SeqIdentifies(t, a, b);
      }
    }
    DistinctCountsOnce(all, m);
  }

  /** No request is answered twice, so each gets at most one reply, with its own sequence number. */
  lemma NoRequestIsAnsweredTwice(w: World, maxRetries: int, steps: seq<Step>, t: Sys)
    requires Faithful(w) && Reaches(w, Init(maxRetries), steps, t) && |t.sent| < WORD
    ensures forall i, k | 0 <= i < k < |t.answered| :: t.answered[i].request != t.answered[k].request
  {
    StartsInv(w, maxRetries);
    RunKeepsInv(w, Init(maxRetries), steps, t);
    forall i, k | 0 <= i < k < |t.answered|
      ensures t.answered[i].request != t.answered[k].request
    {
      AnsweredOnce(w, t, i, k);
    }
  }

  /** How often a schedule starts the handler of a request. */
  function Starts(steps: seq<Step>, m: Message): nat {
    if steps == [] then 0
    else (if steps[0] == WorkerStarts(m) then 1 else 0) + Starts(steps[1..], m)
  }

  /** How often the replies say that the handler of a request ran to its end. */
  function Ended(rs: seq<Reply>, m: Message): nat {
    if rs == [] then 0
    else
      var r := rs[|rs| - 1];
      Ended(rs[..|rs| - 1], m) + (if r.handled && r.request == m then 1 else 0)
  }

  lemma {:induction false} EndedAreAnswered(rs: seq<Reply>, m: Message)
    ensures Ended(rs, m) <= multiset(RequestsOf(rs))[m]
    decreases |rs|
  {
    if rs != [] {
      var front, r := rs[..|rs| - 1], rs[|rs| - 1];
      EndedAreAnswered(front, m);
      assert RequestsOf(rs) == RequestsOf(front) + [r.request];
    }
  }

  lemma SendEnds(w: World, s: Sys, r: Reply, m: Message)
    ensures Ended(SendReply(w, s, r).answered, m) ==
            Ended(s.answered, m) + (if r.handled && r.request == m then 1 else 0)
    ensures SendReply(w, s, r).running == s.running
  {
    hide EncodeBytes;
    assert (s.answered + [r])[..|s.answered|] == s.answered;
  }

  /** The handler runs of m so far, under way or ended. */
  function Begun(s: Sys, m: Message): nat {
    s.running[m] + Ended(s.answered, m)
  }

  lemma DecodingStartsNone(w: World, s: Sys, accepted: bool, text: string, m: Message)
    ensures Begun(Apply(w, s, ServerDecodes(accepted, text)), m) == Begun(s, m)
  {
    hide DecodeOne, EncodeBytes, SendReply;
    if DecodeOne(s.serverIn).Frame? {
      var q, rest := DecodeOne(s.serverIn).msg, DecodeOne(s.serverIn).rest;
      SendEnds(w, s.(serverIn := rest, decoded := s.decoded + 1), Reply(q, Refusal(text), false), m);
    }
  }

  lemma FinishingStartsNone(w: World, s: Sys, q: Message, result: ServiceResult, m: Message)
    requires q in s.running
    ensures Begun(Apply(w, s, WorkerFinishes(q, result)), m) == Begun(s, m)
  {
    hide EncodeBytes, Answer, SendReply;
    SendEnds(w, s.(running := s.running - multiset{q}), Reply(q, Answer(w, q.body, result), true), m);
  }

  lemma OthersStartNone(w: World, s: Sys, step: Step, m: Message)
    requires Enabled(s, step) && !step.ServerDecodes? && !step.WorkerFinishes?
    ensures Begun(Apply(w, s, step), m) == Begun(s, m) + (if step == WorkerStarts(m) then 1 else 0)
  {
    hide DecodeOne, EncodeBytes, Judge, Ended;
    if !OnServer(step) {
      ClientFootprint(w, s, step);
      hide Apply;
    }
  }

  /** A handler that has been started is running or has ended. */
  lemma StepStarts(w: World, s: Sys, step: Step, m: Message)
    requires Enabled(s, step)
    ensures Begun(Apply(w, s, step), m) == Begun(s, m) + (if step == WorkerStarts(m) then 1 else 0)
  {
    hide Apply, Begun;
    match step
    case ServerDecodes(accepted, text) => DecodingStartsNone(w, s, accepted, text, m);
    case WorkerFinishes(q, result) => FinishingStartsNone(w, s, q, result, m);
    case _ => OthersStartNone(w, s, step, m);
  }

  lemma {:induction false} RunStarts(w: World, s: Sys, steps: seq<Step>, t: Sys, m: Message)
    requires Reaches(w, s, steps, t)
    ensures Begun(t, m) == Begun(s, m) + Starts(steps, m)
    decreases |steps|
  {
    hide Apply, Enabled;
    if steps != [] {
      StepStarts(w, s, steps[0], m);
      RunStarts(w, Apply(w, s, steps[0]), steps[1..], t, m);
    }
  }

  /** How often a schedule starts the handler for one of the attempts from position lo up to hi. */
  function Executions(steps: seq<Step>, sent: seq<Message>, lo: nat, hi: nat): nat
    requires lo <= hi <= |sent|
    decreases hi - lo
  {
    if lo == hi then 0
    else Executions(steps, sent, lo, hi - 1) + Starts(steps, Received(sent[hi - 1]))
  }

  lemma {:induction false} OnePerAttempt(w: World, maxRetries: int, steps: seq<Step>, t: Sys, lo: nat, hi: nat)
    requires Reaches(w, Init(maxRetries), steps, t) && Inv(w, t) && |t.sent| < WORD && lo <= hi <= |t.sent|
    ensures Executions(steps, t.sent, lo, hi) <= hi - lo
    decreases hi - lo
  {
    hide Inv, Reaches;
    if lo < hi {
      OnePerAttempt(w, maxRetries, steps, t, lo, hi - 1);
      var m := Received(t.sent[hi - 1]);
      RunStarts(w, Init(maxRetries), steps, t, m);
      AccountedOnce(w, t, m);
      EndedAreAnswered(t.answered, m);
    }
  }

  /** At most maxRetries + 1 executions: in every schedule, whatever is delayed, retried or reordered,
      the handler is started at most that often for a call, runs that have not ended included. */
  lemma ExecutionsAreBounded(w: World, maxRetries: int, steps: seq<Step>, t: Sys, c: nat)
    requires Faithful(w) && Reaches(w, Init(maxRetries), steps, t) && |t.sent| < WORD
    requires c < |t.calls|
    ensures t.calls[c].first + t.calls[c].attempts <= |t.sent|
    ensures Executions(steps, t.sent, t.calls[c].first, t.calls[c].first + t.calls[c].attempts)
            <= if maxRetries < 0 then 0 else maxRetries + 1
  {
    hide Reaches, Faithful, Executions;
    hide Numbered, RequestsInOrder, RepliesInOrder, Conserved, AllGenuine, ResultsOwned;
    StartsInv(w, maxRetries);
    RunKeepsInv(w, Init(maxRetries), steps, t);
    assert Tile(t.calls[c], EndOf(t, c), t.sent, t.maxRetries);
    OnePerAttempt(w, maxRetries, steps, t, t.calls[c].first, t.calls[c].first + t.calls[c].attempts);
  }

  // ---- calls can succeed ----

  lemma OneStep(w: World, s: Sys, step: Step, steps: seq<Step>, t: Sys)
    requires Enabled(s, step) && Reaches(w, Apply(w, s, step), steps, t)
    ensures Reaches(w, s, [step] + steps, t)
  {
    hide Apply, Enabled;
    assert ([step] + steps)[1..] == steps;
  }

  lemma DecodesWhole(m: Message)
    requires Acceptable(m)
    ensures DecodeOne(EncodeBytes(m)) == Frame(Received(m), [])
  {
    hide DecodeOne, EncodeBytes;
    DecodeOfEncoding(m, []);
    assert EncodeBytes(m) + [] == EncodeBytes(m);
  }

  // ---- retries ----

  /** A call that has timed out has used up its attempts. */
  ghost predicate TimedOutLast(s: Sys) {
    forall c | 0 <= c < |s.calls| && s.calls[c].result == Some(TimedOut) :: s.calls[c].attempts == s.maxRetries + 1
  }

  lemma FinishKeepsTimedOut(s: Sys, outcome: Outcome)
    requires TimedOutLast(s) && s.calls != []
    requires outcome == TimedOut ==> Last(s.calls).attempts == s.maxRetries + 1
    ensures TimedOutLast(Finish(s, outcome))
  {
  }

  lemma ClientDecodesKeepsTimedOut(w: World, s: Sys)
    requires TimedOutLast(s) && Enabled(s, ClientDecodes)
    ensures TimedOutLast(Apply(w, s, ClientDecodes))
  {
    hide DecodeOne, Judge;
    if DecodeOne(s.clientIn).Frame? {
      var m, rest := DecodeOne(s.clientIn).msg, DecodeOne(s.clientIn).rest;
      FinishKeepsTimedOut(s.(clientIn := rest, consumed := s.consumed + 1), Judge(w, m.body));
    } else {
      FinishKeepsTimedOut(s, Failed(UNKNOWN));
    }
  }

  lemma StepKeepsTimedOut(w: World, s: Sys, step: Step)
    requires TimedOutLast(s) && Tiled(s) && PhaseFits(s) && Enabled(s, step)
    ensures TimedOutLast(Apply(w, s, step))
  {
    hide EncodeBytes, AfterClientDecodes, AfterServerDecodes, SendReply;
    if OnServer(step) {
      hide Apply;
      ServerFootprint(w, s, step);
    } else {
      match step
      case ClientDecodes => ClientDecodesKeepsTimedOut(w, s);
      case ClientTimesOut =>
        assert Tile(Last(s.calls), EndOf(s, |s.calls| - 1), s.sent, s.maxRetries);
        FinishKeepsTimedOut(s, if Last(s.calls).attempts > s.maxRetries then TimedOut else Closed);
      case SendFails => FinishKeepsTimedOut(s, Failed(SYSTEM));
      case ClientFails(o) => FinishKeepsTimedOut(s, o);
      case _ =>
    }
  }

  lemma {:induction false} RunKeepsTimedOut(w: World, s: Sys, steps: seq<Step>, t: Sys)
    requires Faithful(w) && Inv(w, s) && TimedOutLast(s) && Reaches(w, s, steps, t)
    ensures TimedOutLast(t) && t.maxRetries == s.maxRetries
    decreases |steps|
  {
    hide Faithful, Enabled, TimedOutLast;
    hide Numbered, Tiled, PhaseFits, RequestsInOrder, RepliesInOrder, Conserved, AllGenuine, ResultsOwned;
    if steps != [] {
      StepKeepsInv(w, s, steps[0]);
      StepKeepsTimedOut(w, s, steps[0]);
      hide Inv;
      RunKeepsInv(w, s, steps, t);
      RunKeepsTimedOut(w, Apply(w, s, steps[0]), steps[1..], t);
    }
  }

  /** No call gives up early: in every schedule, one that ends in a timeout has made all maxRetries + 1
      attempts. */
  lemma TimeoutMeansAllAttemptsMade(w: World, maxRetries: int, steps: seq<Step>, t: Sys, c: nat)
    requires Faithful(w) && Reaches(w, Init(maxRetries), steps, t)
    requires c < |t.calls| && t.calls[c].result == Some(TimedOut)
    ensures t.calls[c].attempts == maxRetries + 1
  {
    hide Reaches, Faithful, Inv;
    StartsInv(w, maxRetries);
    RunKeepsTimedOut(w, Init(maxRetries), steps, t);
  }

  /** How calls end without the wire: with negative retries at once and with code 1, no attempt made; and
      with code 1 when a send fails, which shuts the connection. */
  ghost predicate EndsOffWire(s: Sys) {
    && (s.maxRetries < 0 ==>
          s.phase == Idle && s.sent == []
          && forall c | 0 <= c < |s.calls| :: s.calls[c].result == Some(Failed(1)) && s.calls[c].attempts == 0)
    && (s.phase == Shut ==> s.calls != [] && Last(s.calls).result == Some(Failed(1)) && Last(s.calls).attempts > 0)
  }

  lemma StepKeepsEnds(w: World, s: Sys, step: Step)
    requires EndsOffWire(s) && PhaseFits(s) && Enabled(s, step)
    ensures EndsOffWire(Apply(w, s, step))
  {
    hide DecodeOne, EncodeBytes, Answer, Judge;
    if OnServer(step) {
      hide Apply;
      ServerFootprint(w, s, step);
    }
  }

  lemma {:induction false} RunKeepsEnds(w: World, s: Sys, steps: seq<Step>, t: Sys)
    requires Faithful(w) && Inv(w, s) && EndsOffWire(s) && Reaches(w, s, steps, t)
    ensures EndsOffWire(t)
    decreases |steps|
  {
    hide Faithful, Enabled, EndsOffWire;
    hide Numbered, Tiled, PhaseFits, RequestsInOrder, RepliesInOrder, Conserved, AllGenuine, ResultsOwned;
    if steps != [] {
      StepKeepsInv(w, s, steps[0]);
      StepKeepsEnds(w, s, steps[0]);
      hide Inv;
      RunKeepsEnds(w, Apply(w, s, steps[0]), steps[1..], t);
    }
  }

  /** In every schedule: with negative retries nothing is ever sent and every call ends with code 1; and a
      connection that has been shut was shut by a failed send, which ended its call with code 1. */
  lemma CallsThatNeverGetThrough(w: World, maxRetries: int, steps: seq<Step>, t: Sys)
    requires Faithful(w) && Reaches(w, Init(maxRetries), steps, t)
    ensures maxRetries < 0 ==> t.sent == [] && forall c | 0 <= c < |t.calls| :: t.calls[c].result == Some(Failed(1))
    ensures t.phase == Shut ==> t.calls != [] && Last(t.calls).result == Some(Failed(1))
  {
    hide Reaches, Faithful, Inv;
    StartsInv(w, maxRetries);
    RunKeepsEnds(w, Init(maxRetries), steps, t);
    RunKeepsInv(w, Init(maxRetries), steps, t);
  }

  lemma {:induction false} Joined(w: World, s: Sys, first: seq<Step>, t: Sys, second: seq<Step>, u: Sys)
    requires Reaches(w, s, first, t) && Reaches(w, t, second, u)
    ensures Reaches(w, s, first + second, u)
    decreases |first|
  {
    hide Apply, Enabled;
    if first == [] {
      assert first + second == second;
    } else {
      Joined(w, Apply(w, s, first[0]), first[1..], t, second, u);
      assert (first + second)[1..] == first[1..] + second;
    }
  }

  function CountTimeouts(steps: seq<Step>): nat {
    if steps == [] then 0 else (if steps[0].ClientTimesOut? then 1 else 0) + CountTimeouts(steps[1..])
  }

  lemma {:induction false} TimeoutsAdd(a: seq<Step>, b: seq<Step>)
    ensures CountTimeouts(a + b) == CountTimeouts(a) + CountTimeouts(b)
    decreases |a|
  {
    if a == [] {
      assert a + b == b;
    } else {
      assert (a + b)[1..] == a[1..] + b;
      TimeoutsAdd(a[1..], b);
    }
  }

  /** The requests of n attempts at the first call. */
  function Tries(envelope: seq<byte>, n: nat): (ms: seq<Message>)
    ensures |ms| == n
  {
    seq(n, i requires 0 <= i < n => RequestFrame(SeqOf(i), envelope))
  }

  lemma OneMoreTry(envelope: seq<byte>, n: nat)
    ensures Tries(envelope, n + 1) == Tries(envelope, n) + [RequestFrame(SeqOf(n), envelope)]
    ensures EncodeAll(Tries(envelope, n + 1)) ==
            EncodeAll(Tries(envelope, n)) + EncodeBytes(RequestFrame(SeqOf(n), envelope))
  {
    hide EncodeAll, EncodeBytes;
    var m := RequestFrame(SeqOf(n), envelope);
    assert Tries(envelope, n + 1) == Tries(envelope, n) + [m];
    EncodeAllAppend(Tries(envelope, n), m);
  }

  /** n attempts at the first call are on their way to the server, and nothing has come back. */
  function Tried(maxRetries: int, envelope: seq<byte>, n: nat, phase: Phase): Sys {
    Init(maxRetries).(phase := phase, nextSeq := SeqOf(n), calls := [Call(envelope, 0, n, None)],
                      sent := Tries(envelope, n), toServer := EncodeAll(Tries(envelope, n)))
  }

  /** One more attempt is sent whole. */
  lemma TryOnce(w: World, maxRetries: int, envelope: seq<byte>, n: nat) returns (steps: seq<Step>)
    ensures Reaches(w, Tried(maxRetries, envelope, n, Ready), steps, Tried(maxRetries, envelope, n + 1, Waiting))
    ensures CountTimeouts(steps) == 0
  {
    hide EncodeAll, EncodeBytes;
    var m := RequestFrame(SeqOf(n), envelope);
    OneMoreTry(envelope, n);
    var s0, t := Tried(maxRetries, envelope, n, Ready), Tried(maxRetries, envelope, n + 1, Waiting);
    var s1 := Apply(w, s0, Attempt);
    var all := SendSome(|EncodeBytes(m)|);
    assert Apply(w, s1, all) == t;
    assert Reaches(w, t, [], t);
    hide Reaches, Apply, Enabled;
    OneStep(w, s1, all, [], t);
    OneStep(w, s0, Attempt, [all] + [], t);
    steps := [Attempt] + ([all] + []);
    TimeoutsAdd([Attempt], [all] + []);
    TimeoutsAdd([all], []);
    assert [Attempt][1..] == [] && [all][1..] == [];
  }

  /** n attempts time out, one after the other, and the call goes on to the next. */
  lemma {:induction false} TriesTimeOut(w: World, maxRetries: int, envelope: seq<byte>, n: nat)
    returns (steps: seq<Step>)
    requires n <= maxRetries
    ensures Reaches(w, Tried(maxRetries, envelope, 0, Ready), steps, Tried(maxRetries, envelope, n, Ready))
    ensures CountTimeouts(steps) == n
  {
    if n == 0 {
      steps := [];
    } else {
      var before := TriesTimeOut(w, maxRetries, envelope, n - 1);
      var one := TryOnce(w, maxRetries, envelope, n - 1);
      var s, t := Tried(maxRetries, envelope, n, Waiting), Tried(maxRetries, envelope, n, Ready);
      hide EncodeAll, Tries;
      assert Apply(w, s, ClientTimesOut) == t;
      assert Reaches(w, t, [], t);
      hide Reaches, Apply, Enabled, Tried;
      OneStep(w, s, ClientTimesOut, [], t);
      var origin, middle := Tried(maxRetries, envelope, 0, Ready), Tried(maxRetries, envelope, n - 1, Ready);
      Joined(w, middle, one, s, [ClientTimesOut] + [], t);
      Joined(w, origin, before, middle, one + ([ClientTimesOut] + []), t);
      steps := before + (one + ([ClientTimesOut] + []));
      TimeoutsAdd(one, [ClientTimesOut] + []);
      TimeoutsAdd(before, one + ([ClientTimesOut] + []));
      assert ([ClientTimesOut] + [])[1..] == [];
    }
  }

  /** The replies to the first j of these attempts. */
  function Served(w: World, envelope: seq<byte>, j: nat, result: ServiceResult): (rs: seq<Reply>)
    ensures |rs| == j
  {
    seq(j, i requires 0 <= i < j =>
      Reply(Received(RequestFrame(SeqOf(i), envelope)), Answer(w, envelope, result), true))
  }

  /** The server has read and answered the first j of n attempts. */
  function Answered(w: World, maxRetries: int, envelope: seq<byte>, n: nat, j: nat, result: ServiceResult): Sys
    requires j <= n
  {
    Tried(maxRetries, envelope, n, Waiting).(
      toServer := EncodeAll(Tries(envelope, n)[j..]), decoded := j,
      answered := Served(w, envelope, j, result), outgoing := Served(w, envelope, j, result),
      toClient := EncodeAll(ReplyFrames(w, Served(w, envelope, j, result))))
  }

  lemma FirstOfRest(envelope: seq<byte>, n: nat, j: nat)
    requires j < n
    ensures EncodeAll(Tries(envelope, n)[j..]) ==
            EncodeBytes(RequestFrame(SeqOf(j), envelope)) + EncodeAll(Tries(envelope, n)[j + 1..])
  {
    var ms := Tries(envelope, n)[j..];
    hide EncodeBytes;
    assert ms[0] == RequestFrame(SeqOf(j), envelope) && ms[1..] == Tries(envelope, n)[j + 1..];
  }

  lemma OneMoreServed(w: World, envelope: seq<byte>, j: nat, result: ServiceResult)
    ensures var r := Reply(Received(RequestFrame(SeqOf(j), envelope)), Answer(w, envelope, result), true);
            && Served(w, envelope, j + 1, result) == Served(w, envelope, j, result) + [r]
            && EncodeAll(ReplyFrames(w, Served(w, envelope, j + 1, result))) ==
               EncodeAll(ReplyFrames(w, Served(w, envelope, j, result))) + EncodeBytes(ReplyFrame(w, r))
  {
    hide EncodeAll, EncodeBytes, Answer;
    var r := Reply(Received(RequestFrame(SeqOf(j), envelope)), Answer(w, envelope, result), true);
    var rs := Served(w, envelope, j, result);
    assert Served(w, envelope, j + 1, result) == rs + [r];
    assert ReplyFrames(w, rs + [r]) == ReplyFrames(w, rs) + [ReplyFrame(w, r)];
    EncodeAllAppend(ReplyFrames(w, rs), ReplyFrame(w, r));
  }

  /** The server reads, decodes, runs and answers the next attempt. */
  lemma ServeOnce(w: World, maxRetries: int, envelope: seq<byte>, n: nat, j: nat, result: ServiceResult)
    returns (steps: seq<Step>)
    requires j < n && |envelope| <= MAX_BODY_SIZE
    ensures Reaches(w, Answered(w, maxRetries, envelope, n, j, result), steps,
                    Answered(w, maxRetries, envelope, n, j + 1, result))
    ensures CountTimeouts(steps) == 0
  {
    hide EncodeAll, EncodeBytes, DecodeOne, Answer, Served, ReplyFrames, Tries;
    var q := RequestFrame(SeqOf(j), envelope);
    var m, size := Received(q), |EncodeBytes(q)|;
    FirstOfRest(envelope, n, j);
    OneMoreServed(w, envelope, j, result);
    DecodesWhole(q);
    var s0 := Answered(w, maxRetries, envelope, n, j, result);
    var s1 := Apply(w, s0, ServerReads(size));
    assert s1.serverIn == EncodeBytes(q) && s1.toServer == EncodeAll(Tries(envelope, n)[j + 1..]);
    var s2 := Apply(w, s1, ServerDecodes(true, ""));
    assert s2.queued == multiset{m};
    var s3 := Apply(w, s2, WorkerStarts(m));
    assert s3.queued == multiset{} && s3.running == multiset{m};
    var t := Apply(w, s3, WorkerFinishes(m, result));
    assert t.running == multiset{};
    assert t == Answered(w, maxRetries, envelope, n, j + 1, result);
    steps := FourSteps(w, s0, ServerReads(size), s1, ServerDecodes(true, ""), s2, WorkerStarts(m), s3,
                       WorkerFinishes(m, result), t);
  }

  lemma FourSteps(w: World, s0: Sys, a: Step, s1: Sys, b: Step, s2: Sys, c: Step, s3: Sys, d: Step, t: Sys)
    returns (steps: seq<Step>)
    requires Enabled(s0, a) && Apply(w, s0, a) == s1 && Enabled(s1, b) && Apply(w, s1, b) == s2
    requires Enabled(s2, c) && Apply(w, s2, c) == s3 && Enabled(s3, d) && Apply(w, s3, d) == t
    requires !a.ClientTimesOut? && !b.ClientTimesOut? && !c.ClientTimesOut? && !d.ClientTimesOut?
    ensures Reaches(w, s0, steps, t) && CountTimeouts(steps) == 0
  {
    assert Reaches(w, t, [], t);
    hide Reaches, Apply, Enabled;
    OneStep(w, s3, d, [], t);
    OneStep(w, s2, c, [d] + [], t);
    OneStep(w, s1, b, [c] + ([d] + []), t);
    OneStep(w, s0, a, [b] + ([c] + ([d] + [])), t);
    steps := [a] + ([b] + ([c] + ([d] + [])));
    TimeoutsAdd([a], [b] + ([c] + ([d] + [])));
    TimeoutsAdd([b], [c] + ([d] + []));
    TimeoutsAdd([c], [d] + []);
    TimeoutsAdd([d], []);
    assert [a][1..] == [] && [b][1..] == [] && [c][1..] == [] && [d][1..] == [];
  }

  lemma {:induction false} ServeAllTries(w: World, maxRetries: int, envelope: seq<byte>, n: nat, j: nat,
                                         result: ServiceResult)
    returns (steps: seq<Step>)
    requires j <= n && |envelope| <= MAX_BODY_SIZE
    ensures Reaches(w, Answered(w, maxRetries, envelope, n, 0, result), steps,
                    Answered(w, maxRetries, envelope, n, j, result))
    ensures CountTimeouts(steps) == 0
    decreases j
  {
    hide Answered, Apply, Enabled;
    if j == 0 {
      steps := [];
    } else {
      var before := ServeAllTries(w, maxRetries, envelope, n, j - 1, result);
      var one := ServeOnce(w, maxRetries, envelope, n, j - 1, result);
      hide Reaches;
      Joined(w, Answered(w, maxRetries, envelope, n, 0, result), before,
             Answered(w, maxRetries, envelope, n, j - 1, result), one, Answered(w, maxRetries, envelope, n, j, result));
      TimeoutsAdd(before, one);
      steps := before + one;
    }
  }

  /** The client has read all n replies and dropped the first j. */
  function Dropping(w: World, maxRetries: int, envelope: seq<byte>, n: nat, j: nat, result: ServiceResult): Sys
    requires j <= n
  {
    Answered(w, maxRetries, envelope, n, n, result).(
      phase := Scanning, toClient := [], consumed := j,
      clientIn := EncodeAll(ReplyFrames(w, Served(w, envelope, n, result))[j..]))
  }

  /** The replies from the j-th on, as they lie in the client's buffer. */
  function LeftOver(w: World, envelope: seq<byte>, n: nat, j: nat, result: ServiceResult): seq<byte>
    requires j <= n
  {
    EncodeAll(ReplyFrames(w, Served(w, envelope, n, result))[j..])
  }

  lemma NextReplyInLine(w: World, envelope: seq<byte>, n: nat, j: nat, result: ServiceResult)
    requires j < n && |w.serialize(Answer(w, envelope, result))| <= MAX_BODY_SIZE
    ensures var frame := ResponseFrame(SeqOf(j), w.serialize(Answer(w, envelope, result)));
            DecodeOne(LeftOver(w, envelope, n, j, result)) ==
            Frame(Received(frame), LeftOver(w, envelope, n, j + 1, result))
  {
    hide EncodeBytes, DecodeOne, Answer;
    var frame := ResponseFrame(SeqOf(j), w.serialize(Answer(w, envelope, result)));
    var frames := ReplyFrames(w, Served(w, envelope, n, result));
    assert frames[j] == frame;
    assert frames[j..][0] == frame && frames[j..][1..] == frames[j + 1..];
    assert EncodeAll(frames[j..]) == EncodeBytes(frame) + EncodeAll(frames[j + 1..]);
    DecodeOfEncoding(frame, EncodeAll(frames[j + 1..]));
  }

  lemma ClientDrops(w: World, s: Sys, m: Message, rest: seq<byte>)
    requires Enabled(s, ClientDecodes) && DecodeOne(s.clientIn) == Frame(m, rest)
    requires !IsReplyTo(m, Last(s.sent).header.seqNo)
    ensures Apply(w, s, ClientDecodes) == s.(clientIn := rest, consumed := s.consumed + 1)
  {
    hide DecodeOne, Judge;
  }

  lemma ClientTakes(w: World, s: Sys, m: Message, rest: seq<byte>)
    requires Enabled(s, ClientDecodes) && DecodeOne(s.clientIn) == Frame(m, rest)
    requires IsReplyTo(m, Last(s.sent).header.seqNo)
    ensures Apply(w, s, ClientDecodes) ==
            Finish(s.(clientIn := rest, consumed := s.consumed + 1), Judge(w, m.body))
  {
    hide DecodeOne, Judge;
  }

  lemma ReplyTells(a: u64, b: u64, body: seq<byte>)
    ensures IsReplyTo(Received(ResponseFrame(a, body)), b) <==> a == b
    ensures Received(ResponseFrame(a, body)).body == body
  {
  }

  lemma SmallSeq(i: nat)
    requires i + 1 < WORD
    ensures SeqOf(i) == i + 1
  {
  }

  lemma DroppingState(w: World, maxRetries: int, envelope: seq<byte>, n: nat, j: nat, result: ServiceResult)
    requires j < n
    ensures var s := Dropping(w, maxRetries, envelope, n, j, result);
            && Enabled(s, ClientDecodes) && s.clientIn == LeftOver(w, envelope, n, j, result) && s.consumed == j
            && Last(s.sent).header.seqNo == SeqOf(n - 1) && s.sent == Tries(envelope, n)
            && s.calls == [Call(envelope, 0, n, None)] && s.outgoing == Served(w, envelope, n, result)
            && Dropping(w, maxRetries, envelope, n, j + 1, result) ==
               s.(clientIn := LeftOver(w, envelope, n, j + 1, result), consumed := j + 1)
  {
    assert Last(Tries(envelope, n)) == RequestFrame(SeqOf(n - 1), envelope);
    hide EncodeAll, Answer, Served, Tries, SeqOf, ReplyFrames;
  }

  lemma DropsLateReply(w: World, maxRetries: int, envelope: seq<byte>, n: nat, j: nat, result: ServiceResult)
    requires j + 1 < n < WORD && |w.serialize(Answer(w, envelope, result))| <= MAX_BODY_SIZE
    ensures Enabled(Dropping(w, maxRetries, envelope, n, j, result), ClientDecodes)
    ensures Apply(w, Dropping(w, maxRetries, envelope, n, j, result), ClientDecodes) ==
            Dropping(w, maxRetries, envelope, n, j + 1, result)
  {
    DroppingState(w, maxRetries, envelope, n, j, result);
    NextReplyInLine(w, envelope, n, j, result);
    SmallSeq(j);
    SmallSeq(n - 1);
    hide DecodeOne, LeftOver, Answer, Served, Tries, SeqOf, Apply, Enabled, Dropping;
    hide ResponseFrame, Received, IsReplyTo;
    ReplyTells(SeqOf(j), SeqOf(n - 1), w.serialize(Answer(w, envelope, result)));
    var frame := ResponseFrame(SeqOf(j), w.serialize(Answer(w, envelope, result)));
    ClientDrops(w, Dropping(w, maxRetries, envelope, n, j, result), Received(frame),
                LeftOver(w, envelope, n, j + 1, result));
  }

  lemma TakesLastReply(w: World, maxRetries: int, envelope: seq<byte>, n: nat, result: ServiceResult) returns (t: Sys)
    requires 0 < n < WORD && |w.serialize(Answer(w, envelope, result))| <= MAX_BODY_SIZE
    ensures var s := Dropping(w, maxRetries, envelope, n, n - 1, result);
            Enabled(s, ClientDecodes) && t == Apply(w, s, ClientDecodes)
    ensures t.calls == [Call(envelope, 0, n, Some(Judge(w, w.serialize(Answer(w, envelope, result)))))]
    ensures t.consumed == n && t.outgoing == Served(w, envelope, n, result) && t.sent == Tries(envelope, n)
  {
    DroppingState(w, maxRetries, envelope, n, n - 1, result);
    NextReplyInLine(w, envelope, n, n - 1, result);
    hide DecodeOne, LeftOver, Answer, Judge, Served, Tries, SeqOf, Apply, Enabled, Dropping;
    hide ResponseFrame, Received, IsReplyTo;
    ReplyTells(SeqOf(n - 1), SeqOf(n - 1), w.serialize(Answer(w, envelope, result)));
    var frame := ResponseFrame(SeqOf(n - 1), w.serialize(Answer(w, envelope, result)));
    var s := Dropping(w, maxRetries, envelope, n, n - 1, result);
    ClientTakes(w, s, Received(frame), LeftOver(w, envelope, n, n, result));
    t := Apply(w, s, ClientDecodes);
  }

  /** Every late reply is dropped, and the one to the last attempt decides. */
  lemma {:induction false} DropLateReplies(w: World, maxRetries: int, envelope: seq<byte>, n: nat, j: nat,
                                           result: ServiceResult)
    returns (steps: seq<Step>, t: Sys)
    requires j < n < WORD && |w.serialize(Answer(w, envelope, result))| <= MAX_BODY_SIZE
    ensures Reaches(w, Dropping(w, maxRetries, envelope, n, j, result), steps, t) && CountTimeouts(steps) == 0
    ensures t.calls == [Call(envelope, 0, n, Some(Judge(w, w.serialize(Answer(w, envelope, result)))))]
    ensures t.consumed == n && t.outgoing == Served(w, envelope, n, result) && t.sent == Tries(envelope, n)
    decreases n - j
  {
    hide Answer, Judge, Served, Tries, Apply, Enabled, Dropping;
    var s := Dropping(w, maxRetries, envelope, n, j, result);
    if j == n - 1 {
      t := TakesLastReply(w, maxRetries, envelope, n, result);
      steps := [];
    } else {
      DropsLateReply(w, maxRetries, envelope, n, j, result);
      steps, t := DropLateReplies(w, maxRetries, envelope, n, j + 1, result);
    }
    OneStep(w, s, ClientDecodes, steps, t);
    TimeoutsAdd([ClientDecodes], steps);
    assert [ClientDecodes][1..] == [];
    steps := [ClientDecodes] + steps;
  }

  lemma JoinThree(w: World, s: Sys, a: seq<Step>, t: Sys, b: seq<Step>, u: Sys, c: seq<Step>, v: Sys)
    returns (steps: seq<Step>)
    requires Reaches(w, s, a, t) && Reaches(w, t, b, u) && Reaches(w, u, c, v)
    ensures Reaches(w, s, steps, v)
    ensures CountTimeouts(steps) == CountTimeouts(a) + CountTimeouts(b) + CountTimeouts(c)
  {
    hide Reaches, CountTimeouts;
    Joined(w, t, b, u, c, v);
    Joined(w, s, a, t, b + c, v);
    TimeoutsAdd(b, c);
    TimeoutsAdd(a, b + c);
    steps := a + (b + c);
  }

  /** Retrying works, however many attempts it takes: for every k up to maxRetries + 1 some schedule has the
      first k - 1 attempts time out, then delivers all their late replies before the one to attempt k; the
      late ones are dropped, and the call ends with what the service made of its k-th attempt. */
  lemma RetryCanComplete(w: World, maxRetries: int, envelope: seq<byte>, k: nat, result: ServiceResult)
    returns (steps: seq<Step>, t: Sys)
    requires 1 <= k <= maxRetries + 1 && k < WORD && |envelope| <= MAX_BODY_SIZE
    requires |w.serialize(Answer(w, envelope, result))| <= MAX_BODY_SIZE
    ensures Reaches(w, Init(maxRetries), steps, t) && CountTimeouts(steps) == k - 1
    ensures t.calls == [Call(envelope, 0, k, Some(Judge(w, w.serialize(Answer(w, envelope, result)))))]
    ensures t.consumed == |t.outgoing| == |t.sent| == k
    ensures forall i | 0 <= i < k ::
              t.sent[i] == RequestFrame(i + 1, envelope) && t.outgoing[i].request == Received(t.sent[i])
  {
    hide Answer, Judge;
    var late := TriesTimeOut(w, maxRetries, envelope, k - 1);
    var one := TryOnce(w, maxRetries, envelope, k - 1);
    var served := ServeAllTries(w, maxRetries, envelope, k, k, result);
    var dropped;
    dropped, t := DropLateReplies(w, maxRetries, envelope, k, 0, result);
    StartsTrying(w, maxRetries, envelope);
    NothingAnsweredYet(w, maxRetries, envelope, k, result);
    ReadsAllReplies(w, maxRetries, envelope, k, result);
    var n := |EncodeAll(ReplyFrames(w, Served(w, envelope, k, result)))|;
    hide Reaches, Tried, Answered, Dropping, Apply, Enabled, EncodeAll;
    var s1, s2 := Tried(maxRetries, envelope, 0, Ready), Tried(maxRetries, envelope, k - 1, Ready);
    var s3 := Answered(w, maxRetries, envelope, k, 0, result);
    var s4, s5 := Answered(w, maxRetries, envelope, k, k, result), Dropping(w, maxRetries, envelope, k, 0, result);
    assert [StartCall(envelope)][1..] == [] && [ClientReads(n)][1..] == [];
    var sending := JoinThree(w, Init(maxRetries), [StartCall(envelope)], s1, late, s2, one, s3);
    var receiving := JoinThree(w, s3, served, s4, [ClientReads(n)], s5, dropped, t);
    Joined(w, Init(maxRetries), sending, s3, receiving, t);
    TimeoutsAdd(sending, receiving);
    steps := sending + receiving;
    forall i | 0 <= i < k
      ensures SeqOf(i) == i + 1
    {
      SmallSeq(i);
    }
  }

  lemma StartsTrying(w: World, maxRetries: int, envelope: seq<byte>)
    requires maxRetries >= 0 && |envelope| < SERIALIZE_LIMIT
    ensures Reaches(w, Init(maxRetries), [StartCall(envelope)], Tried(maxRetries, envelope, 0, Ready))
  {
    var t := Tried(maxRetries, envelope, 0, Ready);
    assert Tries(envelope, 0) == [];
    assert Apply(w, Init(maxRetries), StartCall(envelope)) == t;
    assert Reaches(w, t, [StartCall(envelope)][1..], t);
  }

  lemma NothingAnsweredYet(w: World, maxRetries: int, envelope: seq<byte>, n: nat, result: ServiceResult)
    ensures Answered(w, maxRetries, envelope, n, 0, result) == Tried(maxRetries, envelope, n, Waiting)
  {
    assert Served(w, envelope, 0, result) == [] && ReplyFrames(w, []) == [];
    assert Tries(envelope, n)[0..] == Tries(envelope, n);
  }

  lemma ReadsAllReplies(w: World, maxRetries: int, envelope: seq<byte>, n: nat, result: ServiceResult)
    requires n > 0
    ensures var size := |EncodeAll(ReplyFrames(w, Served(w, envelope, n, result)))|;
            Reaches(w, Answered(w, maxRetries, envelope, n, n, result), [ClientReads(size)],
                    Dropping(w, maxRetries, envelope, n, 0, result))
  {
    hide EncodeBytes, Answer;
    var frames := ReplyFrames(w, Served(w, envelope, n, result));
    var s, t := Answered(w, maxRetries, envelope, n, n, result), Dropping(w, maxRetries, envelope, n, 0, result);
    var size := |EncodeAll(frames)|;
    assert |frames| == n && EncodeAll(frames) == EncodeBytes(frames[0]) + EncodeAll(frames[1..]);
    assert frames[0..] == frames;
    hide EncodeAll;
    assert [] + s.toClient[..size] == s.toClient && s.toClient[size..] == [];
    assert Apply(w, s, ClientReads(size)) == t;
    assert Reaches(w, t, [ClientReads(size)][1..], t);
  }

  /** A service that sets its controller failed with the success code is reported as a success. */
  lemma FailureWithCodeZeroLooksLikeSuccess() returns (steps: seq<Step>, t: Sys)
    ensures Faithful(SAMPLE_WORLD) && Fits(SAMPLE_WORLD, Answer(SAMPLE_WORLD, [], SetsFailed(OK, "")))
    ensures Reaches(SAMPLE_WORLD, Init(0), steps, t)
    ensures t.calls == [Call([], 0, 1, Some(Ok([])))]
  {
    hide Answer, Judge, ReachesService, Reaches;
    var result := SetsFailed(OK, "");
    FaithfulWorldExists(0, []);
    SampleAnswers([], result);
    SuccessIsServiceSuccess(SAMPLE_WORLD, [], result);
    hide Faithful;
    steps, t := RetryCanComplete(SAMPLE_WORLD, 0, [], 1, result);
  }
}
