/** What client and server agree on: envelopes, frames, how a request is answered and how a reply
    is judged. Protobuf and the services themselves are parameters. */
module Rpc {
  import opened Wrappers
  import opened Bytes
  import opened Frames
  import opened Streams

  const OK: int := 0
  const SYSTEM: int := 1
  const INVALID_ARGUMENT: int := 2
  const TIMEOUT: int := 3
  const CLOSED: int := 4
  const NO_SERVICE: int := 5
  const NO_METHOD: int := 6
  const UNKNOWN: int := 99

  /** Protobuf refuses to serialize 2 GB and more. */
  const SERIALIZE_LIMIT: nat := 0x8000_0000

  datatype Request = Request(fullName: string, payload: seq<byte>)
  datatype Response = Response(code: int, text: string, payload: seq<byte>)

  /** How a service method ends: it returns, or it marks the controller failed. */
  datatype ServiceResult = Returns(payload: seq<byte>) | SetsFailed(code: int, text: string)

  /** Serialization of the two envelopes (and the size a response needs), and the registered services:
      which exist, which methods they have, and which payloads those parse. */
  datatype World = World(
    parseRequest: seq<byte> -> Option<Request>,
    size: Response -> nat,
    serialize: Response -> seq<byte>,
    parse: seq<byte> -> Option<Response>,
    hasService: string -> bool,
    hasMethod: (string, string) -> bool,
    parsesPayload: (string, string, seq<byte>) -> bool,
    validReply: seq<byte> -> bool)

  predicate Fits(w: World, r: Response) {
    w.size(r) < SERIALIZE_LIMIT
  }

  /** What protobuf promises: what it writes stays below its limit, and a response that fits in it
      survives the trip. */
  ghost predicate Faithful(w: World) {
    forall r: Response ::
      |w.serialize(r)| < SERIALIZE_LIMIT && (Fits(w, r) ==> w.parse(w.serialize(r)) == Some(r))
  }

  /** A small serializer that keeps this promise: one octet for the code, then the payload. */
  function SampleSize(r: Response): nat {
    if 0 <= r.code < 256 && r.text == "" then 1 + |r.payload| else SERIALIZE_LIMIT
  }

  function SampleSerialize(r: Response): seq<byte> {
    if SampleSize(r) < SERIALIZE_LIMIT then [r.code] + r.payload else []
  }

  function SampleParse(b: seq<byte>): Option<Response> {
    if b == [] then None else Some(Response(b[0], "", b[1..]))
  }

  const SAMPLE_WORLD := World(
    _ => Some(Request("s.m", [])), SampleSize, SampleSerialize, SampleParse,
    _ => true, (_, _) => true, (_, _, _) => true, _ => true)

  /** The promise can be kept, by a world in which successes and failures of all sizes fit. */
  lemma FaithfulWorldExists(code: byte, payload: seq<byte>)
    requires 1 + |payload| < SERIALIZE_LIMIT
    ensures Faithful(SAMPLE_WORLD) && Fits(SAMPLE_WORLD, Response(code, "", payload))
  {
    forall r: Response
      ensures |SAMPLE_WORLD.serialize(r)| < SERIALIZE_LIMIT
      ensures Fits(SAMPLE_WORLD, r) ==> SAMPLE_WORLD.parse(SAMPLE_WORLD.serialize(r)) == Some(r)
    {
      if Fits(SAMPLE_WORLD, r) {
        assert ([r.code] + r.payload)[1..] == r.payload;
      }
    }
  }

  // ---- frames ----

  function RequestFrame(seqNo: u64, envelope: seq<byte>): Message {
    Message(Header(MAGIC, PROTOCOL_VERSION, REQUEST, 0, seqNo, 0, 0), envelope)
  }

  function ResponseFrame(seqNo: u64, envelope: seq<byte>): Message {
    Message(Header(MAGIC, PROTOCOL_VERSION, RESPONSE, 0, seqNo, 0, 0), envelope)
  }

  // ---- the server's side ----

  /** find_last_of('.'). */
  function LastDot(s: string): (at: int)
    ensures -1 <= at < |s|
    ensures at >= 0 ==> s[at] == '.'
    ensures forall i | at < i < |s| :: s[i] != '.'
  {
    if s == [] then -1
    else if s[|s| - 1] == '.' then |s| - 1
    else LastDot(s[..|s| - 1])
  }

  /** "package.Service.Method" cut at its last dot, if both parts are there. */
  function SplitName(fullName: string): Option<(string, string)> {
    var dot := LastDot(fullName);
    if dot <= 0 || dot + 1 >= |fullName| then None
    else Some((fullName[..dot], fullName[dot + 1..]))
  }

  lemma {:induction false} LastDotAt(front: string, back: string)
    requires '.' !in back
    ensures LastDot(front + "." + back) == |front|
    decreases |back|
  {
    var s := front + "." + back;
    if back != [] {
      assert s[|s| - 1] == back[|back| - 1];
      assert s[..|s| - 1] == front + "." + back[..|back| - 1];
      LastDotAt(front, back[..|back| - 1]);
    }
  }

  /** A full name splits into a service and a method exactly when it is the two joined by a dot, with
      neither part empty and no dot in the method. */
  lemma SplitsExactly(fullName: string, service: string, methodName: string)
    ensures SplitName(fullName) == Some((service, methodName)) <==>
            fullName == service + "." + methodName && service != "" && methodName != "" && '.' !in methodName
  {
    if fullName == service + "." + methodName && '.' !in methodName {
      LastDotAt(service, methodName);
      assert fullName[..|service|] == service && fullName[|service| + 1..] == methodName;
    }
    var dot := LastDot(fullName);
    if dot >= 0 {
      assert fullName == fullName[..dot] + "." + fullName[dot + 1..];
      assert '.' !in fullName[dot + 1..];
    }
  }

  /** Does handling this body reach the service method? */
  predicate ReachesService(w: World, body: seq<byte>) {
    var env := w.parseRequest(body);
    && env.Some?
    && var name := SplitName(env.value.fullName);
    && name.Some?
    && w.hasService(name.value.0) && w.hasMethod(name.value.0, name.value.1)
    && w.parsesPayload(name.value.0, name.value.1, env.value.payload)
  }

  /** The response every path of handleRequest sends; `result` matters only if the service runs. */
  function Answer(w: World, body: seq<byte>, result: ServiceResult): Response {
    match w.parseRequest(body)
    case None => Response(INVALID_ARGUMENT, "bad RpcRequest envelope", [])
    case Some(env) =>
      match SplitName(env.fullName)
      case None => Response(INVALID_ARGUMENT, "invalid method name: " + env.fullName, [])
      case Some((service, method_)) =>
        if !w.hasService(service) then Response(NO_SERVICE, "no such service: " + service, [])
        else if !w.hasMethod(service, method_) then Response(NO_METHOD, "no such method: " + method_, [])
        else if !w.parsesPayload(service, method_, env.payload) then
          Response(INVALID_ARGUMENT, "bad request payload", [])
        else
          match result
          case Returns(payload) => Response(OK, "", payload)
          case SetsFailed(code, text) => Response(code, text, [])
  }

  /** The reply when the pool does not take the request. */
  function Refusal(text: string): Response {
    Response(SYSTEM, text, [])
  }

  // ---- the client's side ----

  datatype Outcome = Ok(payload: seq<byte>) | TimedOut | Closed | Failed(code: int)

  predicate IsReplyTo(m: Message, seqNo: u64) {
    m.header.kind == RESPONSE && m.header.seqNo == seqNo
  }

  /** How the reply to the outstanding request decides the call. */
  function Judge(w: World, body: seq<byte>): (o: Outcome)
    ensures o.Ok? || o.Failed?
  {
    match w.parse(body)
    case None => Failed(UNKNOWN)
    case Some(resp) =>
      if resp.code != OK then Failed(resp.code)
      else if !w.validReply(resp.payload) then Failed(UNKNOWN)
      else Ok(resp.payload)
  }

  /** Looking through the received bytes for the reply to seqNo, dropping every other message. */
  datatype Search = NotYet(rest: seq<byte>) | Found(outcome: Outcome, rest: seq<byte>) | Broken(rest: seq<byte>)

  function SearchReply(w: World, bytes: seq<byte>, seqNo: u64): Search
    decreases |bytes|
  {
    match DecodeOne(bytes)
    case NeedMore => NotYet(bytes)
    case Malformed(_) => Broken(bytes)
    case Frame(m, rest) => if IsReplyTo(m, seqNo) then Found(Judge(w, m.body), rest) else SearchReply(w, rest, seqNo)
  }

  /** m is the first reply to seqNo in a list of messages. */
  predicate FirstReply(msgs: seq<Message>, i: nat, seqNo: u64) {
    i < |msgs| && IsReplyTo(msgs[i], seqNo) && forall j | 0 <= j < i :: !IsReplyTo(msgs[j], seqNo)
  }

  /** The search finds exactly the first reply to seqNo that the bytes decode to; every message
      before it is dropped and every byte after it is kept. */
  lemma {:induction false} SearchFindsFirstReply(w: World, bytes: seq<byte>, seqNo: u64) returns (i: nat)
    requires SearchReply(w, bytes, seqNo).Found?
    ensures FirstReply(Drain(bytes).msgs, i, seqNo)
    ensures SearchReply(w, bytes, seqNo).outcome == Judge(w, Drain(bytes).msgs[i].body)
    ensures bytes == EncodeAll(Drain(bytes).msgs[..i + 1]) + SearchReply(w, bytes, seqNo).rest
    decreases |bytes|
  {
    var m, tail := DecodeOne(bytes).msg, DecodeOne(bytes).rest;
    var later := Drain(tail).msgs;
    ReencodesConsumedBytes(bytes);
    if IsReplyTo(m, seqNo) {
      i := 0;
      EncodeOne(m);
      assert ([m] + later)[..1] == [m];
    } else {
      var j := SearchFindsFirstReply(w, tail, seqNo);
      i := j + 1;
      ShiftFirstReply(m, later, j, seqNo);
      EncodeAllCons(m, later[..i]);
      AppendAssociates(EncodeBytes(m), EncodeAll(later[..i]), SearchReply(w, tail, seqNo).rest);
    }
  }

  lemma ShiftFirstReply(m: Message, later: seq<Message>, j: nat, seqNo: u64)
    requires FirstReply(later, j, seqNo) && !IsReplyTo(m, seqNo)
    ensures FirstReply([m] + later, j + 1, seqNo)
    ensures ([m] + later)[..j + 2] == [m] + later[..j + 1]
    ensures ([m] + later)[j + 1] == later[j]
  {
  }

  /** Without a reply to seqNo the search drops every message there is, and stops as the decoding
      loop does: wanting more bytes, or at the first error. */
  lemma {:induction false} SearchDropsStaleReplies(w: World, bytes: seq<byte>, seqNo: u64)
    requires !SearchReply(w, bytes, seqNo).Found?
    ensures forall i | 0 <= i < |Drain(bytes).msgs| :: !IsReplyTo(Drain(bytes).msgs[i], seqNo)
    ensures SearchReply(w, bytes, seqNo).rest == Drain(bytes).rest
    ensures SearchReply(w, bytes, seqNo).Broken? <==> Drain(bytes).error.Some?
    decreases |bytes|
  {
    if DecodeOne(bytes).Frame? {
      SearchDropsStaleReplies(w, DecodeOne(bytes).rest, seqNo);
    }
  }

  lemma EncodeOne(m: Message)
    ensures EncodeAll([m]) == EncodeBytes(m)
  {
    EncodeAllCons(m, []);
    assert [m] + [] == [m];
  }

  // ---- what the two sides do together ----

  /** An answer reaches the caller as success exactly when the service ran and returned, or ran and
      "failed" with the success code, and the payload parses; then the caller gets that payload. */
  lemma SuccessIsServiceSuccess(w: World, body: seq<byte>, result: ServiceResult)
    requires Faithful(w) && Fits(w, Answer(w, body, result))
    ensures var outcome := Judge(w, w.serialize(Answer(w, body, result)));
            && (outcome.Ok? <==>
                  && ReachesService(w, body)
                  && (result.Returns? || result.code == OK)
                  && w.validReply(if result.Returns? then result.payload else []))
            && (outcome.Ok? ==> outcome.payload == (if result.Returns? then result.payload else []))
  {
    var resp := Answer(w, body, result);
    assert w.parse(w.serialize(resp)) == Some(resp);
  }

  /** What the caller of a request that never gets to its service is told: 2 for an envelope, a name or a
      payload that does not parse, 5 for an unknown service, 6 for an unknown method. A service that fails
      is told by its own code, and a full pool by 1. */
  lemma FailuresByStage(w: World, body: seq<byte>, result: ServiceResult, service: string, methodName: string)
    requires Faithful(w) && Fits(w, Answer(w, body, result))
    ensures var told := Judge(w, w.serialize(Answer(w, body, result)));
            match w.parseRequest(body)
            case None => told == Failed(2)
            case Some(request) =>
              && (SplitName(request.fullName) == None ==> told == Failed(2))
              && (IsName(request.fullName, service, methodName) ==>
                    if !w.hasService(service) then told == Failed(5)
                    else if !w.hasMethod(service, methodName) then told == Failed(6)
                    else if !w.parsesPayload(service, methodName, request.payload) then told == Failed(2)
                    else if result.SetsFailed? && result.code != 0 then told == Failed(result.code)
                    else told == if w.validReply(if result.Returns? then result.payload else [])
                                 then Ok(if result.Returns? then result.payload else []) else Failed(99))
  {
    var response := Answer(w, body, result);
    assert w.parse(w.serialize(response)) == Some(response);
    match w.parseRequest(body)
    case None =>
    case Some(request) => SplitsExactly(request.fullName, service, methodName);
  }

  /** "service.method", neither empty and no dot in the method. */
  predicate IsName(fullName: string, service: string, methodName: string) {
    fullName == service + "." + methodName && service != "" && methodName != "" && '.' !in methodName
  }

  /** A name fails to split exactly if it is no such name. */
  lemma NoNameExactly(fullName: string)
    ensures SplitName(fullName) == None <==> forall service, methodName :: !IsName(fullName, service, methodName)
  {
    if SplitName(fullName).Some? {
      SplitsExactly(fullName, SplitName(fullName).value.0, SplitName(fullName).value.1);
      assert IsName(fullName, SplitName(fullName).value.0, SplitName(fullName).value.1);
    } else {
      forall service, methodName
        ensures !IsName(fullName, service, methodName)
      {
        SplitsExactly(fullName, service, methodName);
      }
    }
  }

  /** The texts that go with the codes. */
  lemma TextsByStage(w: World, body: seq<byte>, result: ServiceResult, request: Request, service: string,
                     methodName: string)
    requires w.parseRequest(body) == Some(request) && IsName(request.fullName, service, methodName)
    ensures var text := Answer(w, body, result).text;
            if !w.hasService(service) then text == "no such service: " + service
            else if !w.hasMethod(service, methodName) then text == "no such method: " + methodName
            else if !w.parsesPayload(service, methodName, request.payload) then text == "bad request payload"
            else text == if result.SetsFailed? then result.text else ""
  {
    SplitsExactly(request.fullName, service, methodName);
  }

  lemma RefusalIsToldAsOne(w: World, text: string)
    requires Faithful(w) && Fits(w, Refusal(text))
    ensures Judge(w, w.serialize(Refusal(text))) == Failed(1)
  {
    assert w.parse(w.serialize(Refusal(text))) == Some(Refusal(text));
  }

  /** Requests and responses on the wire: type 1 and type 2, the sequence number at 8, the envelope behind
      the header. */
  lemma FramesOnTheWire(seqNo: u64, envelope: seq<byte>)
    ensures var s := EncodeBytes(RequestFrame(seqNo, envelope));
            s[4] == 1 && s[5] == 1 && Holds(s, 8, 8, seqNo) && s[24..] == envelope
    ensures var s := EncodeBytes(ResponseFrame(seqNo, envelope));
            s[4] == 1 && s[5] == 2 && Holds(s, 8, 8, seqNo) && s[24..] == envelope
  {
    EncodingIsLaidOut(RequestFrame(seqNo, envelope));
    EncodingIsLaidOut(ResponseFrame(seqNo, envelope));
    hide EncodeBytes, Holds;
  }

  /** In the sample world every request reaches its service. */
  lemma SampleAnswers(body: seq<byte>, result: ServiceResult)
    ensures ReachesService(SAMPLE_WORLD, body)
    ensures Answer(SAMPLE_WORLD, body, result) ==
            match result
            case Returns(payload) => Response(OK, "", payload)
            case SetsFailed(code, text) => Response(code, text, [])
  {
    SplitsExactly("s.m", "s", "m");
    hide SplitName;
  }
}
