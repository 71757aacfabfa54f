/** The growable byte buffer with a read cursor and a write cursor. */
module NetBuffer {
  import opened Bytes

  const CHEAP_PREPEND: nat := 8
  const INITIAL_SIZE: nat := 1024
  const EXTRA_BUFFER: nat := 65536

  /** What one readv system call reports: an error, or the bytes the kernel delivered. */
  datatype ReadOutcome = ReadFailed(errno: int) | ReadBytes(bytes: seq<byte>)

  // ---- the abstract byte queue ----

  /** One use of a buffer: something appended, a read that failed or delivered bytes, or a request to
      take at most n bytes off the front. */
  datatype QueueOp = Put(bytes: seq<byte>) | Read(outcome: ReadOutcome) | Take(n: nat)

  function Incoming(op: QueueOp): seq<byte> {
    match op
    case Put(bytes) => bytes
    case Read(outcome) => if outcome.ReadBytes? then outcome.bytes else []
    case Take(_) => []
  }

  /** The queue after some uses. */
  function QueueAfter(q: seq<byte>, ops: seq<QueueOp>): seq<byte>
    decreases |ops|
  {
    if ops == [] then q
    else QueueAfter(if ops[0].Take? then q[Front(q, ops[0].n)..] else q + Incoming(ops[0]), ops[1..])
  }

  /** Everything taken off the front, in order. */
  function TakenFrom(q: seq<byte>, ops: seq<QueueOp>): seq<byte>
    decreases |ops|
  {
    if ops == [] then []
    else if ops[0].Take? then q[..Front(q, ops[0].n)] + TakenFrom(q[Front(q, ops[0].n)..], ops[1..])
    else TakenFrom(q + Incoming(ops[0]), ops[1..])
  }

  function AllIncoming(ops: seq<QueueOp>): seq<byte> {
    if ops == [] then [] else Incoming(ops[0]) + AllIncoming(ops[1..])
  }

  function Front(q: seq<byte>, n: nat): (k: nat)
    ensures k <= |q| && k <= n && (k == |q| || k == n)
  {
    if n <= |q| then n else |q|
  }

  /** First in, first out, and nothing lost: what was taken, then what is left, is what was there
      followed by all that came in. */
  lemma {:induction false} QueueConserves(q: seq<byte>, ops: seq<QueueOp>)
    ensures TakenFrom(q, ops) + QueueAfter(q, ops) == q + AllIncoming(ops)
    decreases |ops|
  {
    if ops == [] {
      assert q + [] == q;
    } else if ops[0].Take? {
      var k := Front(q, ops[0].n);
      QueueConserves(q[k..], ops[1..]);
      AppendAssociates(q[..k], TakenFrom(q[k..], ops[1..]), QueueAfter(q, ops));
      AppendAssociates(q[..k], q[k..], AllIncoming(ops[1..]));
      assert q[..k] + q[k..] == q;
      assert [] + AllIncoming(ops[1..]) == AllIncoming(ops[1..]);
    } else {
      QueueConserves(q + Incoming(ops[0]), ops[1..]);
      AppendAssociates(q, Incoming(ops[0]), AllIncoming(ops[1..]));
    }
  }

  class Buffer {
    var data: array<byte>
    var readerIndex: nat
    var writerIndex: nat

    ghost predicate Valid()
      reads this
    {
      CHEAP_PREPEND <= readerIndex <= writerIndex <= data.Length
    }

    /** The abstract queue of unread bytes. */
    ghost function Contents(): (s: seq<byte>)
      requires Valid()
      reads this, data
      ensures |s| == ReadableBytes()
    {
      data[readerIndex..writerIndex]
    }

    function ReadableBytes(): (n: nat)
      requires Valid()
      reads this
    {
      writerIndex - readerIndex
    }

    function WritableBytes(): (n: nat)
      requires Valid()
      reads this
    {
      data.Length - writerIndex
    }

    /** The most that one readv can deliver into the free space and the spill buffer. */
    function ReadCapacity(): (n: nat)
      requires Valid()
      reads this
      ensures n >= EXTRA_BUFFER == 65536
    {
      if WritableBytes() < EXTRA_BUFFER then WritableBytes() + EXTRA_BUFFER else WritableBytes()
    }

    constructor (initialSize: nat)
      ensures Valid() && fresh(data)
      ensures Contents() == []
      ensures WritableBytes() == initialSize
    {
      data := new byte[CHEAP_PREPEND + initialSize](_ => 0);
      readerIndex := CHEAP_PREPEND;
      writerIndex := CHEAP_PREPEND;
    }

    /** The first len unread bytes, without consuming them. */
    method Peek(len: nat) returns (s: seq<byte>)
      requires Valid()
      requires len <= ReadableBytes()
      ensures s == Contents()[..len]
    {
      s := data[readerIndex..readerIndex + len];
    }

    method Retrieve(len: nat)
      requires Valid()
      modifies this`readerIndex, this`writerIndex
      ensures Valid()
      ensures Contents() == if len < |old(Contents())| then old(Contents())[len..] else []
    {
      if len < ReadableBytes() {
        readerIndex := readerIndex + len;
      } else {
        RetrieveAll();
      }
    }

    method RetrieveAll()
      requires Valid()
      modifies this`readerIndex, this`writerIndex
      ensures Valid()
      ensures Contents() == []
      ensures readerIndex == CHEAP_PREPEND
    {
      readerIndex := CHEAP_PREPEND;
      writerIndex := CHEAP_PREPEND;
    }

    method RetrieveAsString(len: nat) returns (s: seq<byte>)
      requires Valid()
      modifies this`readerIndex, this`writerIndex
      ensures Valid()
      ensures s + Contents() == old(Contents())
      ensures |s| == if len <= |old(Contents())| then len else |old(Contents())|
    {
      var n := if len <= ReadableBytes() then len else ReadableBytes();
      s := data[readerIndex..readerIndex + n];
      Retrieve(n);
    }

    method RetrieveAllAsString() returns (s: seq<byte>)
      requires Valid()
      modifies this`readerIndex, this`writerIndex
      ensures Valid()
      ensures s == old(Contents()) && Contents() == []
    {
      s := RetrieveAsString(ReadableBytes());
    }

    /** Slides the unread bytes down to the prepend area; source and target may overlap. */
    method Compact()
      requires Valid()
      modifies this`readerIndex, this`writerIndex, data
      ensures Valid() && readerIndex == CHEAP_PREPEND
      ensures Contents() == old(Contents())
    {
      var a, r, readable := data, readerIndex, ReadableBytes();
      ghost var before := a[..];
      var i := 0;
      while i < readable
        invariant 0 <= i <= readable
        invariant a[CHEAP_PREPEND..CHEAP_PREPEND + i] == before[r..r + i]
        invariant forall k :: CHEAP_PREPEND + i <= k < a.Length ==> a[k] == before[k]
      {
        a[CHEAP_PREPEND + i] := a[r + i];
        i := i + 1;
      }
      readerIndex := CHEAP_PREPEND;
      writerIndex := CHEAP_PREPEND + readable;
    }

    /** The vector's resize: a larger block with the old bytes in front. */
    method Resize(size: nat)
      requires Valid()
      requires data.Length <= size
      modifies this`data
      ensures Valid() && fresh(data) && data.Length == size
      ensures Contents() == old(Contents())
    {
      var a, bigger := data, new byte[size](_ => 0);
      var i := 0;
      while i < a.Length
        invariant 0 <= i <= a.Length
        invariant forall k :: 0 <= k < i ==> bigger[k] == a[k]
      {
        bigger[i] := a[i];
        i := i + 1;
      }
      assert bigger[readerIndex..writerIndex] == a[readerIndex..writerIndex];
      data := bigger;
    }

    method EnsureWritableBytes(len: nat)
      requires Valid()
      modifies this, data
      ensures Valid() && (data == old(data) || fresh(data))
      ensures Contents() == old(Contents())
      ensures WritableBytes() >= len
      ensures old(WritableBytes()) >= len ==>
                data == old(data) && readerIndex == old(readerIndex) && writerIndex == old(writerIndex)
    {
      if WritableBytes() >= len {
        return;
      }
      Compact();
      if WritableBytes() < len {
        Resize(writerIndex + len);
      }
    }

    /** Stores bytes at the write cursor, where there is room for them. */
    method Store(bytes: seq<byte>)
      requires Valid()
      requires |bytes| <= WritableBytes()
      modifies this`writerIndex, data
      ensures Valid()
      ensures Contents() == old(Contents()) + bytes
      ensures writerIndex == old(writerIndex) + |bytes|
    {
      var a, w := data, writerIndex;
      ghost var before := a[..];
      var i := 0;
      while i < |bytes|
        invariant 0 <= i <= |bytes|
        invariant forall k :: 0 <= k < w ==> a[k] == before[k]
        invariant a[w..w + i] == bytes[..i]
      {
        a[w + i] := bytes[i];
        i := i + 1;
      }
      writerIndex := w + |bytes|;
      assert a[readerIndex..w] == before[readerIndex..w];
      assert a[readerIndex..writerIndex] == a[readerIndex..w] + a[w..writerIndex];
    }

    method Append(bytes: seq<byte>)
      requires Valid()
      modifies this, data
      ensures Valid() && (data == old(data) || fresh(data))
      ensures Contents() == old(Contents()) + bytes
    {
      EnsureWritableBytes(|bytes|);
      Store(bytes);
    }

    /** One scatter read: what fits goes straight into the free space, the rest lands in a stack
        buffer and is appended. */
    method ReadFd(outcome: ReadOutcome) returns (n: int, savedErrno: int)
      requires Valid()
      requires outcome.ReadBytes? ==> |outcome.bytes| <= ReadCapacity()
      modifies this, data
      ensures Valid() && (data == old(data) || fresh(data))
      ensures outcome.ReadFailed? ==>
                n == -1 && savedErrno == outcome.errno && Contents() == old(Contents())
      ensures outcome.ReadBytes? ==>
                n == |outcome.bytes| && Contents() == old(Contents()) + outcome.bytes
    {
      savedErrno := 0;
      match outcome
      case ReadFailed(errno) =>
        n := -1;
        savedErrno := errno;
      case ReadBytes(bytes) =>
        n := |bytes|;
        var writable := WritableBytes();
        if n <= writable {
          Store(bytes);
        } else {
          ghost var unread := Contents();
          Store(bytes[..writable]);
          assert writerIndex == data.Length;
          Append(bytes[writable..]);
          assert unread + bytes[..writable] + bytes[writable..] == unread + bytes;
        }
    }
  }

  /** Any sequence of uses, through compaction, growth and the spill buffer, behaves as the queue
      does; a read that delivers more than there is room for does not happen. */
  method UseBuffer(b: Buffer, ops: seq<QueueOp>) returns (taken: seq<byte>, done: nat)
    requires b.Valid()
    modifies b, b.data
    ensures b.Valid() && 8 <= b.readerIndex <= b.writerIndex <= b.data.Length
    ensures done <= |ops|
    ensures taken == TakenFrom(old(b.Contents()), ops[..done])
    ensures b.Contents() == QueueAfter(old(b.Contents()), ops[..done])
    ensures done < |ops| ==>
              ops[done].Read? && ops[done].outcome.ReadBytes? && |ops[done].outcome.bytes| > b.ReadCapacity()
  {
    taken, done := [], 0;
    ghost var start := b.Contents();
    while done < |ops|
      invariant b.Valid() && (b.data == old(b.data) || fresh(b.data))
      invariant done <= |ops|
      invariant taken == TakenFrom(start, ops[..done])
      invariant b.Contents() == QueueAfter(start, ops[..done])
    {
      UseOneMore(start, ops[..done], ops[done]);
      assert ops[..done + 1] == ops[..done] + [ops[done]];
      match ops[done] {
        case Put(bytes) => b.Append(bytes);
        case Take(n) =>
          var got := b.RetrieveAsString(n);
          taken := taken + got;
        case Read(outcome) =>
          if outcome.ReadBytes? && |outcome.bytes| > b.ReadCapacity() {
            return;
          }
          var _, _ := b.ReadFd(outcome);
      }
      done := done + 1;
    }
  }

  lemma {:induction false} UseOneMore(q: seq<byte>, ops: seq<QueueOp>, op: QueueOp)
    ensures var now := QueueAfter(q, ops);
            && QueueAfter(q, ops + [op]) == (if op.Take? then now[Front(now, op.n)..] else now + Incoming(op))
            && TakenFrom(q, ops + [op]) == TakenFrom(q, ops) + (if op.Take? then now[..Front(now, op.n)] else [])
    decreases |ops|
  {
    if ops == [] {
      assert ops + [op] == [op] && [op][1..] == [];
    } else {
      assert (ops + [op])[1..] == ops[1..] + [op];
      UseOneMore(if ops[0].Take? then q[Front(q, ops[0].n)..] else q + Incoming(ops[0]), ops[1..], op);
    }
  }
}
