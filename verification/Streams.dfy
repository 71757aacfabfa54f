/** Reading a byte stream as messages: the loop that decodes until the decoder wants more. */
module Streams {
  import opened Wrappers
  import opened Bytes
  import opened Frames

  /** The outcome of one decoding loop: the messages it yields, the bytes it leaves unread and
      the error that ended it, if one did. */
  datatype Drained = Drained(msgs: seq<Message>, rest: seq<byte>, error: Option<CodecError>)

  function Drain(s: seq<byte>): Drained
    decreases |s|
  {
    match DecodeOne(s)
    case NeedMore => Drained([], s, None)
    case Malformed(e) => Drained([], s, Some(e))
    case Frame(m, rest) => var d := Drain(rest); Drained([m] + d.msgs, d.rest, d.error)
  }

  function Concat(chunks: seq<seq<byte>>): seq<byte> {
    if chunks == [] then [] else chunks[0] + Concat(chunks[1..])
  }

  /** The stream arrives in reads of any size and the decoding loop runs after each one. */
  function DrainReads(unread: seq<byte>, chunks: seq<seq<byte>>): Drained
    decreases chunks
  {
    if chunks == [] then Drained([], unread, Drain(unread).error)
    else
      var d := Drain(unread + chunks[0]);
      var e := DrainReads(d.rest, chunks[1..]);
      Drained(d.msgs + e.msgs, e.rest, if d.error.Some? then d.error else e.error)
  }

  /** More bytes never change what the decoder already decided. */
  lemma DecodeIsStable(s: seq<byte>, t: seq<byte>)
    ensures DecodeOne(s).Malformed? ==> DecodeOne(s + t) == DecodeOne(s)
    ensures DecodeOne(s).Frame? ==>
              DecodeOne(s + t) == Frame(DecodeOne(s).msg, DecodeOne(s).rest + t)
  {
    if |s| >= HEADER_SIZE {
      HeaderDependsOnPrefix(s, t);
      var n := HEADER_SIZE + ParseHeader(s).bodyLen;
      if n <= |s| {
        assert (s + t)[HEADER_SIZE..n] == s[HEADER_SIZE..n];
        assert (s + t)[n..] == s[n..] + t;
      }
    }
  }

  /** The loop always stops where the decoder cannot go on. */
  lemma {:induction false} DrainStops(s: seq<byte>)
    ensures !DecodeOne(Drain(s).rest).Frame?
    ensures Drain(Drain(s).rest) == Drained([], Drain(s).rest, Drain(s).error)
    ensures forall e :: Drain(s).error == Some(e) <==> DecodeOne(Drain(s).rest) == Malformed(e)
    decreases |s|
  {
    match DecodeOne(s)
    case Frame(_, rest) => DrainStops(rest);
    case _ =>
  }

  /** Nothing is lost or invented: the messages, encoded again, and the leftover are the input. */
  lemma {:induction false} DrainConservesBytes(s: seq<byte>)
    ensures EncodeAll(Drain(s).msgs) + Drain(s).rest == s
    ensures forall m | m in Drain(s).msgs :: Acceptable(m)
    decreases |s|
  {
    if DecodeOne(s).Frame? {
      var m, rest := DecodeOne(s).msg, DecodeOne(s).rest;
      DrainConservesBytes(rest);
      ReencodesConsumedBytes(s);
      EncodeAllCons(m, Drain(rest).msgs);
      AppendAssociates(EncodeBytes(m), EncodeAll(Drain(rest).msgs), Drain(rest).rest);
    }
  }

  /** A stream of acceptable messages followed by a half packet yields exactly those messages. */
  lemma {:induction false} DrainOfEncodings(ms: seq<Message>, tail: seq<byte>)
    requires forall m | m in ms :: Acceptable(m)
    requires DecodeOne(tail) == NeedMore
    ensures |Drain(EncodeAll(ms) + tail).msgs| == |ms|
    ensures forall i | 0 <= i < |ms| :: Drain(EncodeAll(ms) + tail).msgs[i] == Received(ms[i])
    ensures Drain(EncodeAll(ms) + tail).rest == tail && Drain(EncodeAll(ms) + tail).error == None
  {
    if ms == [] {
      assert EncodeAll(ms) + tail == tail;
    } else {
      DrainOfEncodings(ms[1..], tail);
      DecodeOfEncoding(ms[0], EncodeAll(ms[1..]) + tail);
      assert EncodeAll(ms) + tail == EncodeBytes(ms[0]) + (EncodeAll(ms[1..]) + tail);
    }
  }

  /** Draining, then receiving more and draining again, is draining the longer input. */
  lemma {:induction false} DrainResumes(s: seq<byte>, t: seq<byte>)
    ensures Drain(s).error == None ==>
              Drain(s + t) == Drained(Drain(s).msgs + Drain(Drain(s).rest + t).msgs,
                                      Drain(Drain(s).rest + t).rest,
                                      Drain(Drain(s).rest + t).error)
    ensures Drain(s).error.Some? ==>
              Drain(s + t) == Drained(Drain(s).msgs, Drain(s).rest + t, Drain(s).error)
    decreases |s|
  {
    DecodeIsStable(s, t);
    if DecodeOne(s).Frame? {
      var m, rest := DecodeOne(s).msg, DecodeOne(s).rest;
      DrainResumes(rest, t);
      AppendAssociates([m], Drain(rest).msgs, Drain(Drain(rest).rest + t).msgs);
    }
  }

  /** However the stream is cut into reads, draining after every read gives the messages, the
      leftover bytes and the first error of decoding the whole stream at once. */
  lemma {:induction false} ChunkingIsInvisible(unread: seq<byte>, chunks: seq<seq<byte>>)
    requires !DecodeOne(unread).Frame?
    ensures DrainReads(unread, chunks) == Drain(unread + Concat(chunks))
    decreases chunks
  {
    if chunks == [] {
      assert unread + Concat(chunks) == unread;
    } else {
      var d := Drain(unread + chunks[0]);
      DrainStops(unread + chunks[0]);
      ChunkingIsInvisible(d.rest, chunks[1..]);
      DrainResumes(unread + chunks[0], Concat(chunks[1..]));
      assert unread + Concat(chunks) == unread + chunks[0] + Concat(chunks[1..]);
      if d.error.Some? {
        DrainResumes(d.rest, Concat(chunks[1..]));
        assert d.msgs + [] == d.msgs;
      }
    }
  }

  /** An error is final: no later read yields a message, the error stays the same, and the
      offending bytes stay at the front of the buffer. */
  lemma {:induction false} ErrorIsSticky(s: seq<byte>, chunks: seq<seq<byte>>)
    requires Drain(s).error.Some?
    ensures var d := Drain(s);
            DrainReads(d.rest, chunks) == Drained([], d.rest + Concat(chunks), d.error)
  {
    var d := Drain(s);
    DrainStops(s);
    ChunkingIsInvisible(d.rest, chunks);
    DrainResumes(d.rest, Concat(chunks));
  }
}
