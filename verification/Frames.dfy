/** The frame format: a 24-octet header followed by an opaque body. */
module Frames {
  import opened Bytes

  const MAGIC: u32 := 0x4D494E52
  const PROTOCOL_VERSION: u8 := 1
  const HEADER_SIZE: nat := 24
  const MAX_BODY_SIZE: nat := 64 * 1024 * 1024

  const REQUEST: u8 := 1
  const RESPONSE: u8 := 2

  datatype Header = Header(
    magic: u32, version: u8, kind: u8, flags: u16, seqNo: u64, bodyLen: u32, reserved: u32)

  datatype Message = Message(header: Header, body: seq<byte>)

  datatype CodecError = InvalidMagic | UnsupportedVersion | BodyTooLong

  /** What one call of the decoder finds at the front of the unread bytes. */
  datatype DecodeResult =
    | NeedMore
    | Frame(msg: Message, rest: seq<byte>)
    | Malformed(error: CodecError)

  /** The header as it is written: the length field is the body's own length truncated to
      32 bits, whatever the caller left in bodyLen. */
  function HeaderBytes(h: Header, length: nat): (s: seq<byte>)
    ensures |s| == HEADER_SIZE
  {
    BigEndian(h.magic, 4) + [h.version, h.kind] + BigEndian(h.flags, 2) + BigEndian(h.seqNo, 8)
    + BigEndian(length % 0x1_0000_0000, 4) + BigEndian(h.reserved, 4)
  }

  function EncodeBytes(m: Message): (s: seq<byte>)
    ensures |s| == HEADER_SIZE + |m.body|
  {
    HeaderBytes(m.header, |m.body|) + m.body
  }

  function FieldU16(s: seq<byte>, at: nat): u16
    requires at + 2 <= |s|
  {
    WritesBack(s[at..at + 2]);
    PowersOf256();
    FromBigEndian(s[at..at + 2])
  }

  function FieldU32(s: seq<byte>, at: nat): u32
    requires at + 4 <= |s|
  {
    WritesBack(s[at..at + 4]);
    PowersOf256();
    FromBigEndian(s[at..at + 4])
  }

  function FieldU64(s: seq<byte>, at: nat): u64
    requires at + 8 <= |s|
  {
    WritesBack(s[at..at + 8]);
    PowersOf256();
    FromBigEndian(s[at..at + 8])
  }

  function ParseHeader(s: seq<byte>): Header
    requires |s| >= HEADER_SIZE
  {
    Header(FieldU32(s, 0), s[4], s[5], FieldU16(s, 6), FieldU64(s, 8), FieldU32(s, 16), FieldU32(s, 20))
  }

  /** Everything the decoder decides, it decides from the 24 header octets and from how many
      bytes are there. */
  function DecodeOne(s: seq<byte>): DecodeResult {
    if |s| < HEADER_SIZE then NeedMore
    else
      var h := ParseHeader(s);
      if h.magic != MAGIC then Malformed(InvalidMagic)
      else if h.version != PROTOCOL_VERSION then Malformed(UnsupportedVersion)
      else if h.bodyLen > MAX_BODY_SIZE then Malformed(BodyTooLong)
      else if |s| < HEADER_SIZE + h.bodyLen then NeedMore
      else Frame(Message(h, s[HEADER_SIZE..HEADER_SIZE + h.bodyLen]), s[HEADER_SIZE + h.bodyLen..])
  }

  lemma FrameShrinks(s: seq<byte>)
    ensures DecodeOne(s).Frame? ==> |DecodeOne(s).rest| < |s|
  {
    hide ParseHeader;
  }

  /** A message a conforming peer accepts. */
  predicate Acceptable(m: Message) {
    m.header.magic == MAGIC && m.header.version == PROTOCOL_VERSION && |m.body| <= MAX_BODY_SIZE
  }

  /** What a message looks like after the trip: bodyLen is filled in. */
  function Received(m: Message): Message {
    m.(header := m.header.(bodyLen := |m.body| % 0x1_0000_0000))
  }

  // ---- header fields ----

  lemma HeaderReadsBack(h: Header, length: nat, tail: seq<byte>)
    ensures ParseHeader(HeaderBytes(h, length) + tail) == h.(bodyLen := length % 0x1_0000_0000)
  {
    hide BigEndian, FromBigEndian;
    var s := HeaderBytes(h, length) + tail;
    PowersOf256();
    ReadsBack(h.magic, 4);
    ReadsBack(h.flags, 2);
    ReadsBack(h.seqNo, 8);
    ReadsBack(length % 0x1_0000_0000, 4);
    ReadsBack(h.reserved, 4);
    assert s[0..4] == BigEndian(h.magic, 4);
    assert s[6..8] == BigEndian(h.flags, 2);
    assert s[8..16] == BigEndian(h.seqNo, 8);
    assert s[16..20] == BigEndian(length % 0x1_0000_0000, 4);
    assert s[20..24] == BigEndian(h.reserved, 4);
  }

  lemma HeaderWritesBack(s: seq<byte>)
    requires |s| >= HEADER_SIZE
    ensures HeaderBytes(ParseHeader(s), ParseHeader(s).bodyLen) == s[..HEADER_SIZE]
  {
    hide BigEndian, FromBigEndian;
    WritesBack(s[0..4]);
    WritesBack(s[6..8]);
    WritesBack(s[8..16]);
    WritesBack(s[16..20]);
    WritesBack(s[20..24]);
    assert s[..24] == s[0..4] + [s[4], s[5]] + s[6..8] + s[8..16] + s[16..20] + s[20..24];
  }

  /** Only the header octets and the total length matter to the header checks. */
  lemma HeaderDependsOnPrefix(s: seq<byte>, t: seq<byte>)
    requires |s| >= HEADER_SIZE
    ensures ParseHeader(s + t) == ParseHeader(s)
  {
    hide FromBigEndian;
    assert (s + t)[0..4] == s[0..4];
    assert (s + t)[6..8] == s[6..8];
    assert (s + t)[8..16] == s[8..16];
    assert (s + t)[16..20] == s[16..20];
    assert (s + t)[20..24] == s[20..24];
  }

  // ---- the two-way inverse ----

  lemma DecodeOfEncoding(m: Message, rest: seq<byte>)
    requires Acceptable(m)
    ensures DecodeOne(EncodeBytes(m) + rest) == Frame(Received(m), rest)
  {
    var head := HeaderBytes(m.header, |m.body|);
    AppendAssociates(head, m.body, rest);
    HeaderReadsBack(m.header, |m.body|, m.body + rest);
    DecodeAssembled(head, m.body, rest);
  }

  lemma DecodeAssembled(head: seq<byte>, body: seq<byte>, rest: seq<byte>)
    requires |head| == HEADER_SIZE
    requires var h := ParseHeader(head + (body + rest));
             h.magic == MAGIC && h.version == PROTOCOL_VERSION && h.bodyLen == |body| <= MAX_BODY_SIZE
    ensures DecodeOne(head + (body + rest)) == Frame(Message(ParseHeader(head + (body + rest)), body), rest)
  {
    var s := head + (body + rest);
    assert s[HEADER_SIZE..HEADER_SIZE + |body|] == body;
    assert s[HEADER_SIZE + |body|..] == rest;
  }

  /** Encoding then decoding gives the message back, and leaves exactly the bytes that follow it,
      for the acceptable messages and for no others: the encoder checks nothing, so a message
      with a foreign magic, another version or a body above 64 MB is written out but is never
      read back. */
  lemma RoundTripExactly(m: Message, rest: seq<byte>)
    ensures Acceptable(m) <==>
            DecodeOne(EncodeBytes(m) + rest) == Frame(Received(m), rest)
  {
    if Acceptable(m) {
      DecodeOfEncoding(m, rest);
    } else {
      var s := EncodeBytes(m) + rest;
      assert s == HeaderBytes(m.header, |m.body|) + (m.body + rest);
      HeaderReadsBack(m.header, |m.body|, m.body + rest);
    }
  }

  /** A message over the size limit whose length still fits in the header field poisons the
      stream: whatever follows it, the reader reports an error and consumes nothing. */
  lemma OversizeIsRejected(m: Message, rest: seq<byte>)
    requires m.header.magic == MAGIC && m.header.version == PROTOCOL_VERSION
    requires MAX_BODY_SIZE < |m.body| < 0x1_0000_0000
    ensures forall k :: HEADER_SIZE <= k <= |EncodeBytes(m) + rest| ==>
              DecodeOne((EncodeBytes(m) + rest)[..k]) == Malformed(BodyTooLong)
  {
    var s := EncodeBytes(m) + rest;
    forall k | HEADER_SIZE <= k <= |s|
      ensures DecodeOne(s[..k]) == Malformed(BodyTooLong)
    {
      assert s == HeaderBytes(m.header, |m.body|) + (m.body + rest);
      assert s[..k] == HeaderBytes(m.header, |m.body|) + (m.body + rest)[..k - HEADER_SIZE];
      HeaderReadsBack(m.header, |m.body|, (m.body + rest)[..k - HEADER_SIZE]);
    }
  }

  /** Re-encoding a decoded message reproduces, octet for octet, the bytes that were consumed. */
  lemma ReencodesConsumedBytes(s: seq<byte>)
    requires DecodeOne(s).Frame?
    ensures Acceptable(DecodeOne(s).msg)
    ensures EncodeBytes(DecodeOne(s).msg) + DecodeOne(s).rest == s
    ensures Received(DecodeOne(s).msg) == DecodeOne(s).msg
  {
    ReencodesFrame(s, ParseHeader(s));
  }

  lemma ReencodesFrame(s: seq<byte>, h: Header)
    requires HEADER_SIZE <= HEADER_SIZE + h.bodyLen <= |s| && h == ParseHeader(s)
    ensures EncodeBytes(Message(h, s[HEADER_SIZE..HEADER_SIZE + h.bodyLen])) + s[HEADER_SIZE + h.bodyLen..] == s
  {
    HeaderWritesBack(s);
    EncodedFrom(Message(h, s[HEADER_SIZE..HEADER_SIZE + h.bodyLen]), s[..HEADER_SIZE], h.bodyLen);
    Reassembles(s, HEADER_SIZE, HEADER_SIZE + h.bodyLen);
  }

  lemma EncodedFrom(m: Message, head: seq<byte>, length: u32)
    requires |m.body| == length && HeaderBytes(m.header, length) == head
    ensures EncodeBytes(m) == head + m.body
  {
  }

  lemma Reassembles(s: seq<byte>, i: nat, j: nat)
    requires i <= j <= |s|
    ensures s[..i] + s[i..j] + s[j..] == s
  {
  }

  /** A half packet is left alone: no proper prefix of an encoded message decodes. */
  lemma ProperPrefixNeedsMore(m: Message, k: nat)
    requires Acceptable(m)
    requires k < |EncodeBytes(m)|
    ensures DecodeOne(EncodeBytes(m)[..k]) == NeedMore
  {
    if k >= HEADER_SIZE {
      var s := EncodeBytes(m);
      assert s[..k] == HeaderBytes(m.header, |m.body|) + m.body[..k - HEADER_SIZE];
      HeaderReadsBack(m.header, |m.body|, m.body[..k - HEADER_SIZE]);
    }
  }

  /** Encoded messages form a prefix code: two different streams of acceptable messages never
      have the same bytes. */
  lemma {:induction false} StreamsAreUniquelyDecodable(ms: seq<Message>, ns: seq<Message>)
    requires forall m | m in ms :: Acceptable(m)
    requires forall n | n in ns :: Acceptable(n)
    requires EncodeAll(ms) == EncodeAll(ns)
    ensures |ms| == |ns|
    ensures forall i | 0 <= i < |ms| :: Received(ms[i]) == Received(ns[i])
  {
    if ms == [] {
      assert ns == [];
    } else if ns != [] {
      DecodeOfEncoding(ms[0], EncodeAll(ms[1..]));
      DecodeOfEncoding(ns[0], EncodeAll(ns[1..]));
      StreamsAreUniquelyDecodable(ms[1..], ns[1..]);
    }
  }

  /** The bytes of several messages sent one after the other. */
  function EncodeAll(ms: seq<Message>): seq<byte> {
    if ms == [] then [] else EncodeBytes(ms[0]) + EncodeAll(ms[1..])
  }

  lemma EncodeAllCons(m: Message, ms: seq<Message>)
    ensures EncodeAll([m] + ms) == EncodeBytes(m) + EncodeAll(ms)
  {
    assert ([m] + ms)[1..] == ms;
  }

  lemma {:induction false} EncodeAllAppend(ms: seq<Message>, m: Message)
    ensures EncodeAll(ms + [m]) == EncodeAll(ms) + EncodeBytes(m)
  {
    if ms == [] {
      EncodeAllCons(m, []);
      assert ms + [m] == [m] + [];
    } else {
      EncodeAllAppend(ms[1..], m);
      EncodeAllCons(ms[0], ms[1..] + [m]);
      assert ms + [m] == [ms[0]] + (ms[1..] + [m]);
      AppendAssociates(EncodeBytes(ms[0]), EncodeAll(ms[1..]), EncodeBytes(m));
    }
  }

  // ---- the wire format, octet by octet ----

  /** The i-th most significant of n octets of v. */
  function Octet(v: nat, n: nat, i: nat): byte
    requires i < n
  {
    (v / Pow256(n - 1 - i)) % 256
  }

  /** n octets from `off` on hold v, most significant first. */
  predicate Holds(s: seq<byte>, off: nat, n: nat, v: nat) {
    off + n <= |s| && forall i | 0 <= i < n :: s[off + i] == Octet(v, n, i)
  }

  lemma BigEndianHolds(s: seq<byte>, off: nat, n: nat, v: nat)
    requires off + n <= |s| && s[off..off + n] == BigEndian(v, n)
    ensures Holds(s, off, n, v)
  {
    hide BigEndian;
    forall i | 0 <= i < n
      ensures s[off + i] == Octet(v, n, i)
    {
      OctetAt(v, n, i);
      assert s[off + i] == s[off..off + n][i];
    }
  }

  /** The layout of a header, with the offsets of the protocol: magic 0, version 4, type 5, flags 6,
      sequence number 8, body length 16, reserved 20. */
  predicate Laid(s: seq<byte>, h: Header, length: nat) {
    && |s| >= 24
    && Holds(s, 0, 4, h.magic) && s[4] == h.version && s[5] == h.kind && Holds(s, 6, 2, h.flags)
    && Holds(s, 8, 8, h.seqNo) && Holds(s, 16, 4, length) && Holds(s, 20, 4, h.reserved)
  }

  lemma HeaderIsLaid(h: Header, length: nat, s: seq<byte>)
    requires |s| >= 24 && s[..24] == HeaderBytes(h, length)
    ensures Laid(s, h, length % 0x1_0000_0000)
  {
    hide BigEndian, Holds;
    var b := HeaderBytes(h, length);
    assert b[0..4] == BigEndian(h.magic, 4) && b[6..8] == BigEndian(h.flags, 2) && b[8..16] == BigEndian(h.seqNo, 8);
    assert b[16..20] == BigEndian(length % 0x1_0000_0000, 4) && b[20..24] == BigEndian(h.reserved, 4);
    assert s[0..4] == b[0..4] && s[6..8] == b[6..8] && s[8..16] == b[8..16];
    assert s[16..20] == b[16..20] && s[20..24] == b[20..24];
    assert s[4] == b[4] && s[5] == b[5];
    BigEndianHolds(s, 0, 4, h.magic);
    BigEndianHolds(s, 6, 2, h.flags);
    BigEndianHolds(s, 8, 8, h.seqNo);
    BigEndianHolds(s, 16, 4, length % 0x1_0000_0000);
    BigEndianHolds(s, 20, 4, h.reserved);
  }

  /** Every octet that encoding puts on the wire. */
  lemma EncodingIsLaidOut(m: Message)
    ensures |EncodeBytes(m)| == 24 + |m.body| && EncodeBytes(m)[24..] == m.body
    ensures Laid(EncodeBytes(m), m.header, |m.body| % 0x1_0000_0000)
  {
    hide HeaderBytes, Laid;
    assert EncodeBytes(m)[..24] == HeaderBytes(m.header, |m.body|);
    HeaderIsLaid(m.header, |m.body|, EncodeBytes(m));
  }

  /** Where the decoder finds the fields of the message it returns. */
  lemma DecodingReadsTheLayout(s: seq<byte>)
    requires DecodeOne(s).Frame?
    ensures var m, n := DecodeOne(s).msg, |DecodeOne(s).msg.body|;
            && Laid(s, m.header, m.header.bodyLen) && n == m.header.bodyLen
            && 24 + n <= |s| && m.body == s[24..24 + n] && DecodeOne(s).rest == s[24 + n..]
  {
    hide Laid;
    ParsedHeaderIsLaid(s);
    hide ParseHeader;
  }

  lemma ParsedHeaderIsLaid(s: seq<byte>)
    requires |s| >= HEADER_SIZE
    ensures Laid(s, ParseHeader(s), ParseHeader(s).bodyLen)
  {
    HeaderWritesBack(s);
    var h := ParseHeader(s);
    hide ParseHeader, HeaderBytes, Laid;
    HeaderIsLaid(h, h.bodyLen, s);
  }

  /** The four octets from `off` on as a number. */
  function Word(s: seq<byte>, off: nat): nat
    requires off + 4 <= |s|
  {
    0x100_0000 * (s[off] as int) + 0x1_0000 * (s[off + 1] as int) + 0x100 * (s[off + 2] as int) + s[off + 3]
  }

  lemma WordIsField(s: seq<byte>, off: nat)
    requires off + 4 <= |s|
    ensures FromBigEndian(s[off..off + 4]) == Word(s, off)
  {
    var t := s[off..off + 4];
    assert t[..3][..2] == t[..2] && t[..2][..1] == t[..1] && t[..1][..0] == [];
    assert FromBigEndian(t[..1]) == t[0];
    assert FromBigEndian(t[..2]) == 256 * (t[0] as int) + t[1];
    assert FromBigEndian(t[..3]) == 256 * FromBigEndian(t[..2]) + t[2];
  }

  /** What the decoder makes of any bytes, told from the octets alone: fewer than 24 say nothing; then the
      first four must spell 0x4D494E52, the fifth must be 1, and the length at 16 at most 64 MB; and the
      body must be there. */
  lemma DecodesByOctets(s: seq<byte>)
    ensures |s| < 24 ==> DecodeOne(s) == NeedMore
    ensures |s| >= 24 ==>
              && (DecodeOne(s) == Malformed(InvalidMagic) <==> s[0..4] != [0x4D, 0x49, 0x4E, 0x52])
              && (DecodeOne(s) == Malformed(UnsupportedVersion) <==>
                    s[0..4] == [0x4D, 0x49, 0x4E, 0x52] && s[4] != 1)
              && (DecodeOne(s) == Malformed(BodyTooLong) <==>
                    s[0..4] == [0x4D, 0x49, 0x4E, 0x52] && s[4] == 1 && Word(s, 16) > 67108864)
              && (DecodeOne(s).Frame? <==>
                    && s[0..4] == [0x4D, 0x49, 0x4E, 0x52] && s[4] == 1 && Word(s, 16) <= 67108864
                    && |s| >= 24 + Word(s, 16))
  {
    if |s| >= 24 {
      WordIsField(s, 0);
      WordIsField(s, 16);
      MagicSpelled(s);
      hide FromBigEndian, Word;
    }
  }

  lemma MagicSpelled(s: seq<byte>)
    requires |s| >= 4
    ensures Word(s, 0) == 0x4D494E52 <==> s[0..4] == [0x4D, 0x49, 0x4E, 0x52]
  {
    if s[0..4] == [0x4D, 0x49, 0x4E, 0x52] {
      assert s[0] == s[0..4][0] && s[1] == s[0..4][1] && s[2] == s[0..4][2] && s[3] == s[0..4][3];
    }
  }
}
