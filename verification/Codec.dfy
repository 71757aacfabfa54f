/** The codec working in place on a buffer, and the loops that drive it. */
module Codec {
  import opened Wrappers
  import opened Bytes
  import opened Frames
  import opened Streams
  import opened NetBuffer

  /** What tryDecode hands back: nothing yet, a message, or an exception. */
  datatype TryResult = Nothing | Decoded(msg: Message) | Threw(error: CodecError)

  /** Appends one field to the part of a frame that is already written. */
  method AppendField(out: Buffer, field: seq<byte>, ghost before: seq<byte>, ghost written: seq<byte>)
    requires out.Valid()
    requires out.Contents() == before + written
    modifies out, out.data
    ensures out.Valid() && (out.data == old(out.data) || fresh(out.data))
    ensures out.Contents() == before + (written + field)
  {
    out.Append(field);
    AppendAssociates(before, written, field);
  }

  method EncodeHeader(h: Header, length: nat, out: Buffer)
    requires out.Valid()
    modifies out, out.data
    ensures out.Valid() && (out.data == old(out.data) || fresh(out.data))
    ensures out.Contents() == old(out.Contents()) + HeaderBytes(h, length)
  {
    ghost var before := out.Contents();
    assert before + [] == before;
    var magic, flags, seqNo := BigEndian(h.magic, 4), BigEndian(h.flags, 2), BigEndian(h.seqNo, 8);
    var bodyLen, reserved := BigEndian(length % 0x1_0000_0000, 4), BigEndian(h.reserved, 4);
    AppendField(out, magic, before, []);
    AppendField(out, [h.version], before, [] + magic);
    AppendField(out, [h.kind], before, [] + magic + [h.version]);
    ghost var front := magic + [h.version, h.kind];
    assert [] + magic + [h.version] + [h.kind] == front;
    AppendField(out, flags, before, front);
    AppendField(out, seqNo, before, front + flags);
    AppendField(out, bodyLen, before, front + flags + seqNo);
    AppendField(out, reserved, before, front + flags + seqNo + bodyLen);
  }

  method Encode(msg: Message, out: Buffer)
    requires out.Valid()
    modifies out, out.data
    ensures out.Valid() && (out.data == old(out.data) || fresh(out.data))
    ensures out.Contents() == old(out.Contents()) + EncodeBytes(msg)
  {
    ghost var before := out.Contents();
    EncodeHeader(msg.header, |msg.body|, out);
    AppendField(out, msg.body, before, HeaderBytes(msg.header, |msg.body|));
  }

  /** A message is taken out of the buffer whole or nothing is touched. */
  method TryDecode(buf: Buffer) returns (r: TryResult)
    requires buf.Valid()
    modifies buf`readerIndex, buf`writerIndex
    ensures buf.Valid()
    ensures match DecodeOne(old(buf.Contents()))
            case NeedMore => r == Nothing && buf.Contents() == old(buf.Contents())
            case Malformed(e) => r == Threw(e) && buf.Contents() == old(buf.Contents())
            case Frame(m, rest) => r == Decoded(m) && buf.Contents() == rest
  {
    hide DecodeOne, ParseHeader;
    ghost var all := buf.Contents();
    if buf.ReadableBytes() < HEADER_SIZE {
      ShortInputNeedsMore(all);
      return Nothing;
    }
    var p := buf.Peek(HEADER_SIZE);
    var h := ParseHeader(p);
    DecodesByHeader(all, p);
    if h.magic != MAGIC {
      return Threw(InvalidMagic);
    }
    if h.version != PROTOCOL_VERSION {
      return Threw(UnsupportedVersion);
    }
    if h.bodyLen > MAX_BODY_SIZE {
      return Threw(BodyTooLong);
    }
    if buf.ReadableBytes() < HEADER_SIZE + h.bodyLen {
      return Nothing;
    }
    buf.Retrieve(HEADER_SIZE);
    assert buf.Contents() == all[HEADER_SIZE..];
    var body := buf.RetrieveAsString(h.bodyLen);
    assert body == all[HEADER_SIZE..HEADER_SIZE + h.bodyLen];
    assert buf.Contents() == all[HEADER_SIZE + h.bodyLen..];
    return Decoded(Message(h, body));
  }

  lemma ShortInputNeedsMore(s: seq<byte>)
    requires |s| < HEADER_SIZE
    ensures DecodeOne(s) == NeedMore
  {
  }

  /** The decoder's decisions, in terms of the header that is peeked at. */
  lemma DecodesByHeader(s: seq<byte>, p: seq<byte>)
    requires |s| >= HEADER_SIZE && p == s[..HEADER_SIZE]
    ensures var h, n := ParseHeader(p), HEADER_SIZE + ParseHeader(p).bodyLen;
            DecodeOne(s) ==
            if h.magic != MAGIC then Malformed(InvalidMagic)
            else if h.version != PROTOCOL_VERSION then Malformed(UnsupportedVersion)
            else if h.bodyLen > MAX_BODY_SIZE then Malformed(BodyTooLong)
            else if |s| < n then NeedMore
            else Frame(Message(h, s[HEADER_SIZE..n]), s[n..])
  {
    assert s == p + s[HEADER_SIZE..];
    HeaderDependsOnPrefix(p, s[HEADER_SIZE..]);
    hide ParseHeader;
  }

  /** The loop `while (msg = tryDecode(buffer))` of both the server and the client. */
  method DrainBuffer(buf: Buffer) returns (msgs: seq<Message>, error: Option<CodecError>)
    requires buf.Valid()
    modifies buf`readerIndex, buf`writerIndex
    ensures buf.Valid()
    ensures Drained(msgs, buf.Contents(), error) == Drain(old(buf.Contents()))
  {
    hide DecodeOne;
    msgs := [];
    var r := TryDecode(buf);
    while r.Decoded?
      invariant buf.Valid()
      invariant r == Nothing ==> Drained(msgs, buf.Contents(), None) == Drain(old(buf.Contents()))
      invariant r.Threw? ==> Drained(msgs, buf.Contents(), Some(r.error)) == Drain(old(buf.Contents()))
      invariant r.Decoded? ==>
                  var d := Drain(buf.Contents());
                  Drained(msgs + [r.msg] + d.msgs, d.rest, d.error) == Drain(old(buf.Contents()))
      decreases if r.Decoded? then 1 + |buf.Contents()| else 0
    {
      msgs := msgs + [r.msg];
      ghost var unread := buf.Contents();
      FrameShrinks(unread);
      r := TryDecode(buf);
      if r.Decoded? {
        AppendAssociates(msgs, [r.msg], Drain(buf.Contents()).msgs);
      } else {
        assert msgs + Drain(unread).msgs == msgs;
      }
    }
    error := if r.Threw? then Some(r.error) else None;
  }

  /** One readable event: read what the kernel has, then run the decoding loop. */
  method ReadAndDrain(buf: Buffer, chunk: seq<byte>)
    returns (msgs: seq<Message>, error: Option<CodecError>)
    requires buf.Valid()
    requires |chunk| <= buf.ReadCapacity()
    modifies buf, buf.data
    ensures buf.Valid() && (buf.data == old(buf.data) || fresh(buf.data))
    ensures Drained(msgs, buf.Contents(), error) == Drain(old(buf.Contents()) + chunk)
  {
    var _, _ := buf.ReadFd(ReadBytes(chunk));
    msgs, error := DrainBuffer(buf);
  }

  /** What reading one more chunk adds to a decoding that has come to a stop. */
  lemma DrainGrows(seen: seq<byte>, chunk: seq<byte>)
    ensures var d, e := Drain(seen), Drain(Drain(seen).rest + chunk);
            Drain(seen + chunk) == Drained(d.msgs + e.msgs, e.rest, if d.error.Some? then d.error else e.error)
  {
    var d := Drain(seen);
    DrainResumes(seen, chunk);
    DrainStops(seen);
    if d.error.Some? {
      DrainResumes(d.rest, chunk);
      assert d.msgs + [] == d.msgs;
    }
  }

  /** One more read on a connection that has already received `seen`. */
  method ReceiveChunk(buf: Buffer, chunk: seq<byte>, ghost seen: seq<byte>,
                      msgs: seq<Message>, error: Option<CodecError>)
    returns (msgs': seq<Message>, error': Option<CodecError>)
    requires buf.Valid()
    requires |chunk| <= buf.ReadCapacity()
    requires Drained(msgs, buf.Contents(), error) == Drain(seen)
    modifies buf, buf.data
    ensures buf.Valid() && (buf.data == old(buf.data) || fresh(buf.data))
    ensures Drained(msgs', buf.Contents(), error') == Drain(seen + chunk)
  {
    DrainGrows(seen, chunk);
    var more, failed := ReadAndDrain(buf, chunk);
    msgs', error' := msgs + more, if error.Some? then error else failed;
  }

  /** Reading a stream through the real buffer. The kernel decides how much every readv
      delivers (sizes), up to the room there is; the decoding loop runs after each one. */
  method ReceiveStream(buf: Buffer, stream: seq<byte>, sizes: seq<nat>)
    returns (msgs: seq<Message>, error: Option<CodecError>, delivered: nat)
    requires buf.Valid()
    requires DecodeOne(buf.Contents()) == NeedMore
    modifies buf, buf.data
    ensures buf.Valid() && (buf.data == old(buf.data) || fresh(buf.data))
    ensures delivered <= |stream|
    ensures Drained(msgs, buf.Contents(), error) == Drain(old(buf.Contents()) + stream[..delivered])
    ensures |sizes| >= |stream| && (forall k | 0 <= k < |sizes| :: sizes[k] > 0) ==> delivered == |stream|
  {
    hide ParseHeader;
    ghost var start := buf.Contents();
    msgs, error, delivered := [], None, 0;
    ghost var seen := start;
    assert start + stream[..0] == start;
    for i := 0 to |sizes|
      invariant buf.Valid() && (buf.data == old(buf.data) || fresh(buf.data))
      invariant delivered <= |stream|
      invariant (forall k | 0 <= k < |sizes| :: sizes[k] > 0) ==> delivered == |stream| || delivered >= i
      invariant seen == start + stream[..delivered]
      invariant Drained(msgs, buf.Contents(), error) == Drain(seen)
    {
      var n := Least(sizes[i], buf.ReadCapacity(), |stream| - delivered);
      var chunk := stream[delivered..delivered + n];
      msgs, error := ReceiveChunk(buf, chunk, seen, msgs, error);
      seen := seen + chunk;
      assert start + stream[..delivered] + chunk == start + stream[..delivered + n];
      delivered := delivered + n;
    }
  }

  function Least(a: nat, b: nat, c: nat): (m: nat)
    ensures m <= a && m <= b && m <= c && (m == a || m == b || m == c)
  {
    if a <= b && a <= c then a else if b <= c then b else c
  }
}
