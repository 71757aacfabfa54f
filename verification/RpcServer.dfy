/** The server object: decoding what a connection has received, submitting requests to the pool and
    answering them. */
module RpcServer {
  import opened Wrappers
  import opened Bytes
  import opened Frames
  import opened Streams
  import opened NetBuffer
  import opened Codec
  import opened Rpc

  /** The pool's verdicts: accepts(k) says whether it takes the k-th request of a batch. */
  type Verdicts = nat -> bool

  function CountRequests(msgs: seq<Message>): nat {
    if msgs == [] then 0
    else CountRequests(msgs[..|msgs| - 1]) + (if msgs[|msgs| - 1].header.kind == REQUEST then 1 else 0)
  }

  /** The requests whose verdict is `wanted`: those submitted, or those turned away. */
  function WithVerdict(msgs: seq<Message>, accepts: Verdicts, wanted: bool): seq<Message> {
    if msgs == [] then []
    else
      var front, m := msgs[..|msgs| - 1], msgs[|msgs| - 1];
      if m.header.kind == REQUEST && accepts(CountRequests(front)) == wanted
      then WithVerdict(front, accepts, wanted) + [m]
      else WithVerdict(front, accepts, wanted)
  }

  function RefusalFrames(w: World, refused: seq<Message>, text: string): seq<Message> {
    seq(|refused|, i requires 0 <= i < |refused| =>
      ResponseFrame(refused[i].header.seqNo, w.serialize(Refusal(text))))
  }

  lemma CountOneMore(msgs: seq<Message>, m: Message)
    ensures CountRequests(msgs + [m]) == CountRequests(msgs) + (if m.header.kind == REQUEST then 1 else 0)
  {
    assert (msgs + [m])[..|msgs|] == msgs;
  }

  /** The decoding loop has yielded `seen` and still has `unread` before it. */
  ghost predicate Resumes(all: seq<byte>, seen: seq<Message>, unread: seq<byte>) {
    var d := Drain(unread);
    Drain(all) == Drained(seen + d.msgs, d.rest, d.error)
  }

  ghost predicate Stopped(unread: seq<byte>, failed: bool) {
    !DecodeOne(unread).Frame? && failed == DecodeOne(unread).Malformed?
  }

  lemma ResumesAfter(all: seq<byte>, seen: seq<Message>, unread: seq<byte>)
    requires Resumes(all, seen, unread) && DecodeOne(unread).Frame?
    ensures Resumes(all, seen + [DecodeOne(unread).msg], DecodeOne(unread).rest)
    ensures |DecodeOne(unread).rest| < |unread|
  {
    hide DecodeOne;
    FrameShrinks(unread);
    AppendAssociates(seen, [DecodeOne(unread).msg], Drain(DecodeOne(unread).rest).msgs);
  }

  lemma StoppedIsDrained(all: seq<byte>, seen: seq<Message>, unread: seq<byte>, failed: bool)
    requires Resumes(all, seen, unread) && Stopped(unread, failed)
    ensures Drain(all).msgs == seen && Drain(all).rest == unread && (Drain(all).error == None <==> !failed)
  {
    hide DecodeOne;
    assert seen + [] == seen;
  }

  class Server {
    const world: World
    var submitted: seq<Message>
    var replies: seq<Message>
    var open: bool

    constructor (world: World)
      ensures this.world == world && submitted == [] && replies == [] && open
    {
      this.world := world;
      submitted, replies, open := [], [], true;
    }

    /** sendEnvelope: one response frame with the request's own sequence number; a connection that is
        shutting down drops it. */
    method SendEnvelope(seqNo: u64, response: Response)
      modifies this`replies
      ensures replies == if open then old(replies) + [ResponseFrame(seqNo, world.serialize(response))] else old(replies)
    {
      if open {
        replies := replies + [ResponseFrame(seqNo, world.serialize(response))];
      }
    }

    method SendError(seqNo: u64, code: int, text: string)
      modifies this`replies
      ensures replies ==
              if open then old(replies) + [ResponseFrame(seqNo, world.serialize(Response(code, text, [])))]
              else old(replies)
    {
      SendEnvelope(seqNo, Response(code, text, []));
    }

    /** Every path through the handler sends exactly one reply, under the request's sequence number,
        and what it says is Answer. */
    method HandleRequest(msg: Message, result: ServiceResult)
      modifies this`replies
      ensures open ==>
                replies == old(replies)
                           + [ResponseFrame(msg.header.seqNo, world.serialize(Answer(world, msg.body, result)))]
      ensures !open ==> replies == old(replies)
    {
      var seqNo := msg.header.seqNo;
      var env := world.parseRequest(msg.body);
      if env.None? {
        SendError(seqNo, INVALID_ARGUMENT, "bad RpcRequest envelope");
        return;
      }
      var fullName := env.value.fullName;
      var dot := LastDot(fullName);
      if dot < 0 || dot == 0 || dot + 1 >= |fullName| {
        SendError(seqNo, INVALID_ARGUMENT, "invalid method name: " + fullName);
        return;
      }
      var serviceName, methodName := fullName[..dot], fullName[dot + 1..];
      if !world.hasService(serviceName) {
        SendError(seqNo, NO_SERVICE, "no such service: " + serviceName);
        return;
      }
      if !world.hasMethod(serviceName, methodName) {
        SendError(seqNo, NO_METHOD, "no such method: " + methodName);
        return;
      }
      if !world.parsesPayload(serviceName, methodName, env.value.payload) {
        SendError(seqNo, INVALID_ARGUMENT, "bad request payload");
        return;
      }
      var response;
      match result {
        case SetsFailed(code, text) => response := Response(code, text, []);
        case Returns(payload) => response := Response(OK, "", payload);
      }
      SendEnvelope(seqNo, response);
    }

    /** The message callback: every complete message is decoded; requests are submitted, and those
        the pool refuses are answered at once; a codec error shuts the connection down. */
    method OnMessage(buf: Buffer, accepts: Verdicts, text: string)
      requires buf.Valid()
      modifies this`submitted, this`replies, this`open, buf`readerIndex, buf`writerIndex
      ensures buf.Valid()
      ensures var d := Drain(old(buf.Contents()));
              && buf.Contents() == d.rest
              && open == (old(open) && d.error == None)
              && submitted == old(submitted) + WithVerdict(d.msgs, accepts, true)
              && replies == old(replies)
                            + (if old(open) then RefusalFrames(world, WithVerdict(d.msgs, accepts, false), text)
                               else [])
    {
      hide DecodeOne, Drain, WithVerdict, RefusalFrames;
      var count, more, failed := 0, true, false;
      ghost var all, seen := buf.Contents(), [];
      ghost var oldSubmitted, oldReplies := submitted, replies;
      NothingBooked(accepts, text);
      while more
        invariant buf.Valid() && open == old(open)
        invariant count == CountRequests(seen)
        invariant Booked(seen, accepts, text, oldSubmitted, oldReplies)
        invariant Resumes(all, seen, buf.Contents())
        invariant !more ==> Stopped(buf.Contents(), failed)
        decreases more, |buf.Contents()|
      {
        ghost var unread := buf.Contents();
        var r := TryDecode(buf);
        if r.Decoded? {
          Dispatch(r.msg, accepts, count, text, seen, oldSubmitted, oldReplies);
          count := count + (if r.msg.header.kind == REQUEST then 1 else 0);
          ResumesAfter(all, seen, unread);
          CountOneMore(seen, r.msg);
          seen := seen + [r.msg];
        } else {
          more, failed := false, r.Threw?;
        }
      }
      StoppedIsDrained(all, seen, buf.Contents(), failed);
      if failed {
        open := false;
      }
    }

    /** What has been submitted and refused is what the messages seen so far call for. */
    ghost predicate Booked(seen: seq<Message>, accepts: Verdicts, text: string,
                           before: seq<Message>, repliesBefore: seq<Message>)
      reads this
    {
      && submitted == before + WithVerdict(seen, accepts, true)
      && replies == repliesBefore
                    + (if open then RefusalFrames(world, WithVerdict(seen, accepts, false), text) else [])
    }

    lemma NothingBooked(accepts: Verdicts, text: string)
      ensures Booked([], accepts, text, submitted, replies)
    {
      assert submitted + [] == submitted && replies + [] == replies;
    }

    /** One message of the batch: submitted, refused with an error reply, or ignored. */
    method Dispatch(msg: Message, accepts: Verdicts, count: nat, text: string,
                    ghost seen: seq<Message>, ghost before: seq<Message>, ghost repliesBefore: seq<Message>)
      requires count == CountRequests(seen)
      requires Booked(seen, accepts, text, before, repliesBefore)
      modifies this`submitted, this`replies
      ensures Booked(seen + [msg], accepts, text, before, repliesBefore)
    {
      assert (seen + [msg])[..|seen|] == seen;
      if msg.header.kind != REQUEST {
        return;
      }
      if accepts(count) {
        submitted := submitted + [msg];
      } else {
        SendError(msg.header.seqNo, SYSTEM, text);
        RefusedOneMore(WithVerdict(seen, accepts, false), msg, text);
      }
    }

    lemma RefusedOneMore(refused: seq<Message>, m: Message, text: string)
      ensures RefusalFrames(world, refused + [m], text) ==
              RefusalFrames(world, refused, text) + [ResponseFrame(m.header.seqNo, world.serialize(Refusal(text)))]
    {
    }
  }
}
