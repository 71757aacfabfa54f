/** The output side of a TCP connection: partial writes, the epoll interest that resumes them, and
    the half-close. */
module Connection {
  import opened Wrappers
  import opened Bytes
  import opened NetBuffer

  datatype ConnState = Connecting | Connected | Disconnecting | Disconnected

  datatype Interest = Readable | Writable

  // ---- specification ----

  /** The connection as its peers see it. `accepted` is the concatenation of the messages taken by
      sendInLoop, `written` what the kernel has taken, `interest` what epoll watches for, `posted`
      tells that shutdown() has handed shutdownInLoop to the loop and it has not run yet. */
  datatype Conn = Conn(
    state: ConnState,
    written: seq<byte>,
    unsent: seq<byte>,
    accepted: seq<byte>,
    interest: set<Interest>,
    posted: bool,
    halfClosed: bool)

  /** One handler running on the loop thread, with what the kernel answers to its write (a count,
      or -1 for a failure such as EAGAIN). */
  datatype Op =
    | Establish
    | Send(msg: seq<byte>, n: int)
    | HandleWrite(n: int)
    | HandleClose
    | Destroy
    | Shutdown
    | ShutdownInLoop

  const FRESH := Conn(Connecting, [], [], [], {}, false, false)

  predicate LegalWrite(n: int, size: nat) {
    -1 <= n <= size
  }

  /** Once the sending direction is shut, every write fails. */
  predicate Enabled(c: Conn, op: Op) {
    match op
    case Establish => c.state == Connecting
    case Send(msg, n) => c.state != Connecting && LegalWrite(n, |msg|) && (c.halfClosed ==> n == -1)
    case HandleWrite(n) => LegalWrite(n, |c.unsent|) && (c.halfClosed ==> n == -1)
    case ShutdownInLoop => c.posted
    case _ => true
  }

  function Taken(n: int): nat {
    if n < 0 then 0 else n
  }

  function AfterSend(c: Conn, msg: seq<byte>, n: int): Conn
    requires LegalWrite(n, |msg|)
  {
    if c.state == Disconnected then c
    else
      var direct := if Writable !in c.interest && c.unsent == [] then Taken(n) else 0;
      c.(written := c.written + msg[..direct],
         unsent := c.unsent + msg[direct..],
         accepted := c.accepted + msg,
         interest := if direct < |msg| then c.interest + {Writable} else c.interest)
  }

  function AfterHandleWrite(c: Conn, n: int): Conn
    requires LegalWrite(n, |c.unsent|)
  {
    if Writable !in c.interest || n <= 0 then c
    else c.(written := c.written + c.unsent[..n], unsent := c.unsent[n..],
            interest := if n == |c.unsent| then c.interest - {Writable} else c.interest)
  }

  function Apply(c: Conn, op: Op): Conn
    requires Enabled(c, op)
  {
    match op
    case Establish => c.(state := Connected, interest := c.interest + {Readable})
    case Send(msg, n) => AfterSend(c, msg, n)
    case HandleWrite(n) => AfterHandleWrite(c, n)
    case HandleClose => c.(state := Disconnected, interest := {})
    case Destroy => if c.state == Connected then c.(state := Disconnected, interest := {}) else c
    case Shutdown => if c.state == Connected then c.(state := Disconnecting, posted := true) else c
    case ShutdownInLoop => c.(posted := false, halfClosed := c.halfClosed || Writable !in c.interest)
  }

  predicate Reaches(c: Conn, ops: seq<Op>, d: Conn)
    decreases |ops|
  {
    if ops == [] then c == d
    else Enabled(c, ops[0]) && Reaches(Apply(c, ops[0]), ops[1..], d)
  }

  predicate Inv(c: Conn) {
    && c.written + c.unsent == c.accepted
    && (c.state != Disconnected ==> (Writable in c.interest <==> c.unsent != []))
    && (c.state == Disconnected ==> c.interest == {})
    && (Readable in c.interest <==> c.state in {Connected, Disconnecting})
    && (c.posted || c.halfClosed ==> c.state in {Disconnecting, Disconnected})
    && !(c.posted && c.halfClosed)
  }

  lemma SendKeepsInv(c: Conn, msg: seq<byte>, n: int)
    requires Inv(c) && LegalWrite(n, |msg|)
    ensures Inv(AfterSend(c, msg, n))
  {
    var direct := if Writable !in c.interest && c.unsent == [] then Taken(n) else 0;
    assert msg == msg[..direct] + msg[direct..];
    if direct == 0 {
      assert c.written + msg[..0] == c.written;
      assert c.written + (c.unsent + msg) == c.accepted + msg;
    } else {
      assert c.written + msg[..direct] + msg[direct..] == c.written + msg;
    }
  }

  lemma StepKeepsInv(c: Conn, op: Op)
    requires Inv(c) && Enabled(c, op)
    ensures Inv(Apply(c, op))
  {
    match op
    case Send(msg, n) => SendKeepsInv(c, msg, n);
    case HandleWrite(n) =>
      if Writable in c.interest && n > 0 {
        assert c.unsent == c.unsent[..n] + c.unsent[n..];
        assert c.written + c.unsent[..n] + c.unsent[n..] == c.written + c.unsent;
      }
    case _ =>
  }

  lemma {:induction false} RunKeepsInv(c: Conn, ops: seq<Op>, d: Conn)
    requires Inv(c) && Reaches(c, ops, d)
    ensures Inv(d)
    decreases |ops|
  {
    if ops != [] {
      StepKeepsInv(c, ops[0]);
      RunKeepsInv(Apply(c, ops[0]), ops[1..], d);
    }
  }

  // ---- whole runs ----

  /** The messages a run accepts: those sent while the connection is not closed. */
  function AcceptedBy(c: Conn, ops: seq<Op>): seq<byte>
    decreases |ops|
  {
    if ops == [] || !Enabled(c, ops[0]) then []
    else (if ops[0].Send? && c.state != Disconnected then ops[0].msg else []) + AcceptedBy(Apply(c, ops[0]), ops[1..])
  }

  lemma {:induction false} AcceptedGrows(c: Conn, ops: seq<Op>, d: Conn)
    requires Reaches(c, ops, d)
    ensures d.accepted == c.accepted + AcceptedBy(c, ops)
    decreases |ops|
  {
    if ops == [] {
      assert c.accepted + [] == c.accepted;
    } else {
      var e := Apply(c, ops[0]);
      AcceptedGrows(e, ops[1..], d);
      var first := if ops[0].Send? && c.state != Disconnected then ops[0].msg else [];
      assert e.accepted == c.accepted + first;
      assert c.accepted + first + AcceptedBy(e, ops[1..]) == c.accepted + (first + AcceptedBy(e, ops[1..]));
    }
  }

  /** How many bytes the kernel says it takes in one handler. A send writes when everything accepted before
      has been written, the writable handler when something accepted has not; neither does on a closed
      connection. */
  function KernelTakes(c: Conn, op: Op): nat {
    match op
    case Send(_, n) => if c.state != Disconnected && |c.written| == |c.accepted| && n > 0 then n else 0
    case HandleWrite(n) => if c.state != Disconnected && |c.written| < |c.accepted| && n > 0 then n else 0
    case _ => 0
  }

  function KernelTook(c: Conn, ops: seq<Op>): nat
    decreases |ops|
  {
    if ops == [] || !Enabled(c, ops[0]) then 0
    else KernelTakes(c, ops[0]) + KernelTook(Apply(c, ops[0]), ops[1..])
  }

  lemma StepWrites(c: Conn, op: Op)
    requires Inv(c) && Enabled(c, op)
    ensures |Apply(c, op).written| == |c.written| + KernelTakes(c, op)
  {
    assert |c.written| + |c.unsent| == |c.accepted|;
  }

  lemma {:induction false} RunWrites(c: Conn, ops: seq<Op>, d: Conn)
    requires Inv(c) && Reaches(c, ops, d)
    ensures |d.written| == |c.written| + KernelTook(c, ops)
    decreases |ops|
  {
    hide Apply, Enabled, KernelTakes, Inv;
    if ops != [] {
      StepWrites(c, ops[0]);
      StepKeepsInv(c, ops[0]);
      RunWrites(Apply(c, ops[0]), ops[1..], d);
    }
  }

  /** The peer gets each accepted byte once: what counts as written is as long as the sum of the kernel's
      positive answers, and is the front of what was accepted. */
  lemma WrittenIsWhatTheKernelTook(ops: seq<Op>, d: Conn)
    requires Reaches(FRESH, ops, d)
    ensures |d.written| == KernelTook(FRESH, ops)
    ensures d.written <= AcceptedBy(FRESH, ops)
  {
    RunWrites(FRESH, ops, d);
    OutputIsConserved(ops, d);
  }

  /** Since the connection was established, nothing has closed it or begun to. */
  predicate Open(ops: seq<Op>) {
    exists i | 0 <= i < |ops| ::
      ops[i].Establish? && forall j | i < j < |ops| :: !(ops[j].Shutdown? || ops[j].HandleClose? || ops[j].Destroy?)
  }

  /** Neither established nor closed yet. */
  predicate Untouched(ops: seq<Op>) {
    forall i | 0 <= i < |ops| :: !ops[i].Establish? && !ops[i].HandleClose?
  }

  lemma {:induction false} OpenExactly(ops: seq<Op>)
    requires AfterAll(FRESH, ops).Some?
    ensures AfterAll(FRESH, ops).value.state == Connected <==> Open(ops)
    ensures AfterAll(FRESH, ops).value.state == Connecting <==> Untouched(ops)
    decreases |ops|
  {
    if ops != [] {
      var front, op := ops[..|ops| - 1], ops[|ops| - 1];
      OpenExactly(front);
      OpenContinues(front, op);
      assert front + [op] == ops;
    }
  }

  lemma OpenContinues(front: seq<Op>, op: Op)
    ensures Open(front + [op]) <==>
            op.Establish? || (Open(front) && !(op.Shutdown? || op.HandleClose? || op.Destroy?))
    ensures Untouched(front + [op]) <==> Untouched(front) && !op.Establish? && !op.HandleClose?
  {
    var ops := front + [op];
    if Open(front) && !(op.Shutdown? || op.HandleClose? || op.Destroy?) {
      var i :| 0 <= i < |front| && front[i].Establish?
               && forall j | i < j < |front| :: !(front[j].Shutdown? || front[j].HandleClose? || front[j].Destroy?);
      assert ops[i].Establish?;
    }
    if op.Establish? {
      assert ops[|front|].Establish?;
    }
    if Open(ops) && !op.Establish? {
      var i :| 0 <= i < |ops| && ops[i].Establish?
               && forall j | i < j < |ops| :: !(ops[j].Shutdown? || ops[j].HandleClose? || ops[j].Destroy?);
      assert front[i].Establish?;
      forall j | i < j < |front|
        ensures !(front[j].Shutdown? || front[j].HandleClose? || front[j].Destroy?)
      {
        assert ops[j] == front[j];
      }
      assert ops[|front|] == op;
    }
    if Untouched(ops) {
      assert ops[|front|] == op;
      forall i | 0 <= i < |front|
        ensures !front[i].Establish? && !front[i].HandleClose?
      {
        assert ops[i] == front[i];
      }
    }
  }

  /** Where a connection stands is told by which handlers ran: it is open from its establishment until a
      shutdown, a close or its destruction, and read from exactly while it is open or shutting down. */
  lemma OpenConnectionsAreRead(ops: seq<Op>)
    requires AfterAll(FRESH, ops).Some?
    ensures var d := AfterAll(FRESH, ops).value;
            && (d.state == Connected <==> Open(ops))
            && (Readable in d.interest <==> d.state in {Connected, Disconnecting})
  {
    OpenExactly(ops);
    AfterAllIsRun(FRESH, ops);
    RunKeepsInv(FRESH, ops, AfterAll(FRESH, ops).value);
  }

  /** Under any partial and failing writes: the bytes the kernel has taken, followed by the output
      buffer, are the accepted messages, in order; and until the connection is closed epoll watches
      for writability exactly while bytes are unsent. */
  lemma OutputIsConserved(ops: seq<Op>, d: Conn)
    requires Reaches(FRESH, ops, d)
    ensures d.written + d.unsent == AcceptedBy(FRESH, ops)
    ensures d.state != Disconnected ==> (Writable in d.interest <==> d.unsent != [])
  {
    RunKeepsInv(FRESH, ops, d);
    AcceptedGrows(FRESH, ops, d);
    assert FRESH.accepted + AcceptedBy(FRESH, ops) == AcceptedBy(FRESH, ops);
  }

  /** The posted shutdownInLoop would close the sending direction now. */
  predicate IssuesHalfClose(c: Conn) {
    c.posted && Apply(c, ShutdownInLoop).halfClosed
  }

  /** Until the connection is closed, a posted shutdown shuts the sending direction exactly when
      everything accepted has been written. */
  lemma HalfCloseIsClean(ops: seq<Op>, d: Conn)
    requires Reaches(FRESH, ops, d) && d.posted && d.state != Disconnected
    ensures IssuesHalfClose(d) <==> d.written == d.accepted
  {
    RunKeepsInv(FRESH, ops, d);
    if d.unsent == [] {
      assert d.written + [] == d.written;
    } else {
      assert |d.written| < |d.accepted|;
    }
  }

  ghost predicate HalfClosesOn(state: ConnState, leftover: seq<byte>) {
    exists ops, d :: Reaches(FRESH, ops, d) && d.state == state && d.unsent == leftover && IssuesHalfClose(d)
  }

  /** A half-close can cut off accepted bytes exactly when it runs after handleClose has dropped the
      write interest: the guard looks at the interest and not at the buffer. */
  lemma HalfCloseCutsOffExactly(state: ConnState, leftover: seq<byte>)
    requires leftover != []
    ensures HalfClosesOn(state, leftover) <==> state == Disconnected
  {
    if HalfClosesOn(state, leftover) {
      var ops, d :| Reaches(FRESH, ops, d) && d.state == state && d.unsent == leftover && IssuesHalfClose(d);
      RunKeepsInv(FRESH, ops, d);
    }
    if state == Disconnected {
      var ops, d := CloseOvertakesShutdown(leftover);
    }
  }

  /** The peer closes between shutdown() and the shutdownInLoop it posted. */
  lemma CloseOvertakesShutdown(leftover: seq<byte>) returns (ops: seq<Op>, d: Conn)
    requires leftover != []
    ensures Reaches(FRESH, ops, d) && d.state == Disconnected && d.unsent == leftover && IssuesHalfClose(d)
  {
    var c1 := Apply(FRESH, Establish);
    var c2 := Apply(c1, Send(leftover, -1));
    var c3 := Apply(c2, Shutdown);
    d := Apply(c3, HandleClose);
    ops := [Establish, Send(leftover, -1), Shutdown, HandleClose];
    assert ops[1..][1..] == [Shutdown, HandleClose] && ops[1..][1..][1..] == [HandleClose];
    assert Reaches(d, [HandleClose][1..], d);
    assert Reaches(c3, [HandleClose], d);
    assert Reaches(c2, [Shutdown, HandleClose], d);
    assert Reaches(c1, ops[1..], d);
  }

  /** The one shutdownInLoop of this connection has run. */
  predicate ShutdownSpent(c: Conn) {
    !c.posted && c.state in {Disconnecting, Disconnected}
  }

  lemma {:induction false} SpentShutdownIsFinal(c: Conn, ops: seq<Op>, d: Conn)
    requires ShutdownSpent(c) && Reaches(c, ops, d)
    ensures d.halfClosed == c.halfClosed
    decreases |ops|
  {
    if ops != [] {
      SpentShutdownIsFinal(Apply(c, ops[0]), ops[1..], d);
    }
  }

  /** A shutdown that finds bytes unsent on an open connection is lost for good: whatever happens
      afterwards, even once the buffer has drained, the sending direction ends up shut exactly when
      nothing was unsent, or the connection was closed, at the moment shutdownInLoop ran. */
  lemma HalfCloseHappensExactly(before: seq<Op>, c: Conn, after: seq<Op>, d: Conn)
    requires Reaches(FRESH, before, c) && c.posted
    requires Reaches(Apply(c, ShutdownInLoop), after, d)
    ensures d.halfClosed <==> c.unsent == [] || c.state == Disconnected
  {
    RunKeepsInv(FRESH, before, c);
    SpentShutdownIsFinal(Apply(c, ShutdownInLoop), after, d);
  }

  /** Bytes wait when shutdown() runs; they are written afterwards, and still nothing is shut. */
  lemma DrainedButNeverHalfClosed(msg: seq<byte>) returns (ops: seq<Op>, d: Conn)
    requires msg != []
    ensures Reaches(FRESH, ops, d) && d.state == Disconnecting
    ensures d.written == d.accepted == msg && d.unsent == [] && !d.posted && !d.halfClosed
  {
    var c1 := FRESH.(state := Connected, interest := {Readable});
    var c2 := c1.(unsent := msg, accepted := msg, interest := {Readable, Writable});
    var c3 := c2.(state := Disconnecting, posted := true);
    var c4 := c3.(posted := false);
    d := c4.(written := msg, unsent := [], interest := {Readable});
    WaitsWhole(c1, c2, msg);
    DrainsWhole(c4, d, msg);
    RunEndsWith(FRESH, [], FRESH, Establish);
    hide Reaches, AfterSend, AfterHandleWrite;
    RunEndsWith(FRESH, [] + [Establish], c1, Send(msg, -1));
    RunEndsWith(FRESH, [] + [Establish] + [Send(msg, -1)], c2, Shutdown);
    RunEndsWith(FRESH, [] + [Establish] + [Send(msg, -1)] + [Shutdown], c3, ShutdownInLoop);
    ops := [] + [Establish] + [Send(msg, -1)] + [Shutdown] + [ShutdownInLoop];
    RunEndsWith(FRESH, ops, c4, HandleWrite(|msg|));
    ops := ops + [HandleWrite(|msg|)];
  }

  lemma WaitsWhole(c: Conn, d: Conn, msg: seq<byte>)
    requires msg != [] && c.state in {Connected, Disconnecting}
    requires c.written == c.unsent == c.accepted == [] && c.interest == {Readable}
    requires d == c.(unsent := msg, accepted := msg, interest := {Readable, Writable})
    ensures AfterSend(c, msg, -1) == d
  {
    assert [] + msg[..0] == [] && [] + msg[0..] == msg && [] + msg == msg;
  }

  lemma DrainsWhole(c: Conn, d: Conn, msg: seq<byte>)
    requires msg != [] && c.written == [] && c.unsent == msg && c.interest == {Readable, Writable}
    requires d == c.(written := msg, unsent := [], interest := {Readable})
    ensures AfterHandleWrite(c, |msg|) == d
  {
    assert [] + msg[..|msg|] == msg && msg[|msg|..] == [];
  }

  /** No handler will ever write again: the connection is closed, or its sending direction is shut. */
  predicate Silent(c: Conn) {
    c.halfClosed || (c.state == Disconnected && c.interest == {})
  }

  lemma {:induction false} SilenceIsFinal(c: Conn, ops: seq<Op>, d: Conn)
    requires Silent(c) && Reaches(c, ops, d)
    ensures Silent(d) && d.written == c.written
    decreases |ops|
  {
    if ops != [] {
      assert ops[0].Send? ==> c.written + ops[0].msg[..0] == c.written;
      SilenceIsFinal(Apply(c, ops[0]), ops[1..], d);
    }
  }

  /** What is accepted once the sending direction is shut is never written: it piles up, and while the
      connection stays open epoll goes on watching for a write that can only fail. */
  lemma AcceptedAfterHalfCloseIsLost(before: seq<Op>, c: Conn, after: seq<Op>, d: Conn)
    requires Reaches(FRESH, before, c) && c.halfClosed && Reaches(c, after, d)
    ensures d.written == c.written && d.unsent == c.unsent + AcceptedBy(c, after)
    ensures d.state != Disconnected && AcceptedBy(c, after) != [] ==> Writable in d.interest
  {
    RunKeepsInv(FRESH, before, c);
    RunKeepsInv(c, after, d);
    SilenceIsFinal(c, after, d);
    AcceptedGrows(c, after, d);
    AppendAssociates(c.written, c.unsent, AcceptedBy(c, after));
    assert d.unsent == d.accepted[|d.written|..];
  }

  ghost predicate CanProgress(c: Conn) {
    exists ops, d :: Reaches(c, ops, d) && |d.written| > |c.written|
  }

  /** Accepted bytes that wait can still be written exactly if the connection has been neither closed nor
      half-closed. */
  lemma WaitingBytesCanGoExactly(before: seq<Op>, c: Conn)
    requires Reaches(FRESH, before, c) && c.unsent != []
    ensures CanProgress(c) <==> !c.halfClosed && c.state != Disconnected
  {
    RunKeepsInv(FRESH, before, c);
    if CanProgress(c) {
      var ops, d :| Reaches(c, ops, d) && |d.written| > |c.written|;
      if Silent(c) {
        SilenceIsFinal(c, ops, d);
      }
    }
    if !c.halfClosed && c.state != Disconnected {
      assert Reaches(c, [], c);
      RunEndsWith(c, [], c, HandleWrite(1));
    }
  }

  /** A reply that was posted while the connection was open runs after the half-close. */
  lemma LateReplyIsAcceptedAndLost(msg: seq<byte>) returns (ops: seq<Op>, d: Conn)
    requires msg != []
    ensures Reaches(FRESH, ops, d) && d.halfClosed && d.accepted == d.unsent == msg && !CanProgress(d)
  {
    var c1 := FRESH.(state := Connected, interest := {Readable});
    var c2 := c1.(state := Disconnecting, posted := true);
    var c3 := c2.(posted := false, halfClosed := true);
    d := c3.(unsent := msg, accepted := msg, interest := {Readable, Writable});
    WaitsWhole(c3, d, msg);
    RunEndsWith(FRESH, [], FRESH, Establish);
    hide Reaches, AfterSend;
    RunEndsWith(FRESH, [] + [Establish], c1, Shutdown);
    RunEndsWith(FRESH, [] + [Establish] + [Shutdown], c2, ShutdownInLoop);
    ops := [] + [Establish] + [Shutdown] + [ShutdownInLoop];
    RunEndsWith(FRESH, ops, c3, Send(msg, -1));
    ops := ops + [Send(msg, -1)];
    WaitingBytesCanGoExactly(ops, d);
  }

  // ---- the objects ----

  class Channel {
    const fd: int
    var events: set<Interest>

    constructor (fd: int)
      ensures this.fd == fd && events == {}
    {
      this.fd := fd;
      events := {};
    }
  }

  /** The poller's table, and the kernel's interest set it is meant to mirror. */
  class EpollPoller {
    var channels: map<int, Channel>
    ghost var kernel: map<int, set<Interest>>

    /** The kernel watches the registered channels for their own events; `changing` is a channel
        whose events have just been edited. */
    ghost predicate Mirrors(changing: Channel?)
      reads this, channels.Values
    {
      && channels.Keys == kernel.Keys
      && forall fd | fd in channels ::
           && channels[fd].fd == fd
           && (channels[fd] != changing ==> channels[fd].events != {} && kernel[fd] == channels[fd].events)
    }

    ghost function Watched(fd: int): set<Interest>
      reads this
    {
      if fd in kernel then kernel[fd] else {}
    }

    constructor ()
      ensures Mirrors(null) && channels == map[] && kernel == map[]
    {
      channels := map[];
      kernel := map[];
    }

    /** ADD, MOD or DEL, so that epoll watches exactly for the channel's events. */
    method UpdateChannel(ch: Channel)
      requires Mirrors(ch)
      requires ch.fd in channels ==> channels[ch.fd] == ch
      modifies this
      ensures Mirrors(null)
      ensures Watched(ch.fd) == ch.events
      ensures forall fd | fd != ch.fd :: Watched(fd) == old(Watched(fd))
      ensures ch.fd in channels <==> ch.events != {}
      ensures ch.fd in channels ==> channels[ch.fd] == ch
      ensures forall fd | fd != ch.fd :: fd in channels <==> fd in old(channels)
      ensures forall fd | fd != ch.fd && fd in channels :: channels[fd] == old(channels)[fd]
    {
      if ch.fd !in channels {
        if ch.events == {} {
          return;
        }
        channels := channels[ch.fd := ch];
        kernel := kernel[ch.fd := ch.events];
      } else if ch.events == {} {
        kernel := kernel - {ch.fd};
        channels := channels - {ch.fd};
      } else {
        kernel := kernel[ch.fd := ch.events];
      }
    }

    method RemoveChannel(ch: Channel)
      requires Mirrors(ch)
      requires ch.fd in channels ==> channels[ch.fd] == ch
      modifies this
      ensures Mirrors(null)
      ensures channels == old(channels) - {ch.fd} && kernel == old(kernel) - {ch.fd}
    {
      if ch.fd in channels {
        kernel := kernel - {ch.fd};
        channels := channels - {ch.fd};
      }
    }
  }

  class TcpConnection {
    var state: ConnState
    const output: Buffer
    const channel: Channel
    const poller: EpollPoller
    ghost var written: seq<byte>
    ghost var accepted: seq<byte>
    var posted: bool
    var halfClosed: bool

    ghost predicate Valid()
      reads this, output, channel, poller, poller.channels.Values
    {
      && output.Valid()
      && poller.Mirrors(null)
      && poller.Watched(channel.fd) == channel.events
      && (channel.fd in poller.channels ==> poller.channels[channel.fd] == channel)
    }

    /** What the specification sees of this object: the interest is the kernel's, not the cache. */
    ghost function View(): Conn
      requires output.Valid()
      reads this, output, output.data, poller, channel
    {
      Conn(state, written, output.Contents(), accepted, poller.Watched(channel.fd), posted, halfClosed)
    }

    /** The poller serves many connections; the others are watched as before. */
    twostate predicate LeavesOthers()
      reads poller
    {
      forall fd | fd != channel.fd ::
        && poller.Watched(fd) == old(poller.Watched(fd))
        && (fd in poller.channels <==> fd in old(poller.channels))
        && (fd in poller.channels ==> poller.channels[fd] == old(poller.channels)[fd])
    }

    constructor (fd: int, poller: EpollPoller)
      requires poller.Mirrors(null) && fd !in poller.channels
      ensures Valid() && View() == FRESH
      ensures this.poller == poller && channel.fd == fd
      ensures fresh(channel) && fresh(output) && fresh(output.data)
    {
      state := Connecting;
      output := new Buffer(INITIAL_SIZE);
      channel := new Channel(fd);
      this.poller := poller;
      written, accepted, posted, halfClosed := [], [], false, false;
    }

    /** enableReading, enableWriting, disableWriting and disableAll all end here. */
    method SetEvents(events: set<Interest>)
      requires Valid()
      modifies channel, poller
      ensures Valid()
      ensures View() == old(View()).(interest := events) && LeavesOthers()
    {
      channel.events := events;
      poller.UpdateChannel(channel);
    }

    method ConnectEstablished()
      requires Valid() && state == Connecting
      modifies this`state, channel, poller
      ensures Valid() && View() == Apply(old(View()), Establish) && LeavesOthers()
    {
      state := Connected;
      SetEvents(channel.events + {Readable});
    }

    method SendInLoop(message: seq<byte>, n: int)
      requires Valid() && state != Connecting && LegalWrite(n, |message|)
      modifies this, channel, poller, output, output.data
      ensures Valid() && (output.data == old(output.data) || fresh(output.data))
      ensures View() == AfterSend(old(View()), message, n) && LeavesOthers()
    {
      if state == Disconnected {
        return;
      }
      accepted := accepted + message;
      var taken := WriteDirectly(message, n);
      Enqueue(message[taken..]);
    }

    /** The fast path: one write, if nothing is waiting to be written. */
    method WriteDirectly(message: seq<byte>, n: int) returns (taken: nat)
      requires Valid() && LegalWrite(n, |message|)
      modifies this`written
      ensures Valid() && taken <= |message| && written == old(written) + message[..taken]
      ensures taken == if Writable !in channel.events && output.Contents() == [] then Taken(n) else 0
    {
      taken := 0;
      if Writable !in channel.events && output.ReadableBytes() == 0 && n >= 0 {
        taken := n;
      }
      written := written + message[..taken];
    }

    /** What the kernel did not take waits in the output buffer for the next writable event. */
    method Enqueue(left: seq<byte>)
      requires Valid()
      modifies channel, poller, output, output.data
      ensures Valid() && (output.data == old(output.data) || fresh(output.data))
      ensures View() == old(View()).(unsent := old(View()).unsent + left,
                                     interest := if left == [] then old(View()).interest
                                                 else old(View()).interest + {Writable})
      ensures LeavesOthers()
    {
      if |left| > 0 {
        output.Append(left);
        if Writable !in channel.events {
          SetEvents(channel.events + {Writable});
        } else {
          assert channel.events + {Writable} == channel.events;
        }
      } else {
        assert output.Contents() + left == output.Contents();
      }
    }

    method HandleWritable(n: int)
      requires Valid() && LegalWrite(n, output.ReadableBytes())
      modifies this, channel, poller, output`readerIndex, output`writerIndex
      ensures Valid() && View() == AfterHandleWrite(old(View()), n) && LeavesOthers()
    {
      if Writable !in channel.events {
        return;
      }
      if n > 0 {
        written := written + output.Contents()[..n];
        output.Retrieve(n);
        if output.ReadableBytes() == 0 {
          SetEvents(channel.events - {Writable});
        }
      }
    }

    method HandleClosed()
      requires Valid()
      modifies this`state, channel, poller
      ensures Valid() && View() == Apply(old(View()), HandleClose) && LeavesOthers()
    {
      SetEvents({});
      state := Disconnected;
    }

    method ConnectDestroyed()
      requires Valid()
      modifies this`state, channel, poller
      ensures Valid() && View() == Apply(old(View()), Destroy) && LeavesOthers()
    {
      if state == Connected {
        state := Disconnected;
        SetEvents({});
      }
    }

    method BeginShutdown()
      requires Valid()
      modifies this`state, this`posted
      ensures Valid() && View() == Apply(old(View()), Shutdown)
    {
      if state == Connected {
        state := Disconnecting;
        posted := true;
      }
    }

    method FinishShutdown()
      requires Valid() && posted
      modifies this`posted, this`halfClosed
      ensures Valid() && View() == Apply(old(View()), ShutdownInLoop)
    {
      posted := false;
      if Writable !in channel.events {
        halfClosed := true;
      }
    }

    /** Whichever handler runs, the connection does what its specification says. */
    method Perform(op: Op)
      requires Valid() && Enabled(View(), op)
      modifies this, channel, poller, output, output.data
      ensures Valid() && (output.data == old(output.data) || fresh(output.data))
      ensures View() == Apply(old(View()), op) && LeavesOthers()
    {
      hide AfterSend, AfterHandleWrite;
      match op
      case Establish => ConnectEstablished();
      case Send(msg, n) => SendInLoop(msg, n);
      case HandleWrite(n) => HandleWritable(n);
      case HandleClose => HandleClosed();
      case Destroy => ConnectDestroyed();
      case Shutdown => BeginShutdown();
      case ShutdownInLoop => FinishShutdown();
    }
  }

  // ---- many connections on one loop ----

  /** Two connections of one loop: they share the poller and nothing else. */
  ghost predicate Separate(a: TcpConnection, b: TcpConnection)
    reads a.output, b.output
  {
    && a != b && a.poller == b.poller
    && a.channel != b.channel && a.channel.fd != b.channel.fd
    && a.output != b.output && a.output.data != b.output.data
  }

  /** The connections of one loop, each valid, sharing nothing but the poller. */
  ghost predicate OnOneLoop(conns: seq<TcpConnection>, poller: EpollPoller)
    reads conns, poller, poller.channels.Values
    reads set c | c in conns :: c.output, set c | c in conns :: c.channel
  {
    && (forall i | 0 <= i < |conns| :: conns[i].poller == poller && conns[i].Valid())
    && (forall i, j | 0 <= i < j < |conns| :: Separate(conns[i], conns[j]))
  }

  /** The handlers that run for connection i, in order. */
  function OpsOf(turns: seq<(nat, Op)>, i: nat): seq<Op> {
    if turns == [] then []
    else
      var last := turns[|turns| - 1];
      OpsOf(turns[..|turns| - 1], i) + (if last.0 == i then [last.1] else [])
  }

  /** Where some handlers lead, if each of them may run. */
  function AfterAll(c: Conn, ops: seq<Op>): Option<Conn> {
    if ops == [] then Some(c)
    else
      var d := AfterAll(c, ops[..|ops| - 1]);
      if d.Some? && Enabled(d.value, ops[|ops| - 1]) then Some(Apply(d.value, ops[|ops| - 1])) else None
  }

  /** AfterAll is a run of the specification. */
  lemma {:induction false} AfterAllIsRun(c: Conn, ops: seq<Op>)
    requires AfterAll(c, ops).Some?
    ensures Reaches(c, ops, AfterAll(c, ops).value)
    decreases |ops|
  {
    if ops != [] {
      var front := ops[..|ops| - 1];
      AfterAllIsRun(c, front);
      RunEndsWith(c, front, AfterAll(c, front).value, ops[|ops| - 1]);
      assert front + [ops[|ops| - 1]] == ops;
    }
  }

  lemma {:induction false} RunEndsWith(c: Conn, ops: seq<Op>, d: Conn, op: Op)
    requires Reaches(c, ops, d) && Enabled(d, op)
    ensures Reaches(c, ops + [op], Apply(d, op))
    decreases |ops|
  {
    hide Apply, Enabled;
    if ops == [] {
      assert [] + [op] == [op] && Reaches(Apply(d, op), [op][1..], Apply(d, op));
    } else {
      RunEndsWith(Apply(c, ops[0]), ops[1..], d, op);
      assert (ops + [op])[1..] == ops[1..] + [op];
    }
  }

  lemma {:induction false} EarlierTurnsMayRun(c: Conn, turns: seq<(nat, Op)>, t: nat, i: nat)
    requires t <= |turns| && AfterAll(c, OpsOf(turns, i)).Some?
    ensures AfterAll(c, OpsOf(turns[..t], i)).Some?
    decreases |turns|
  {
    if t == |turns| {
      assert turns[..t] == turns;
    } else {
      var front, last := turns[..|turns| - 1], turns[|turns| - 1];
      if last.0 == i {
        assert OpsOf(turns, i)[..|OpsOf(turns, i)| - 1] == OpsOf(front, i);
      } else {
        assert OpsOf(turns, i) == OpsOf(front, i);
      }
      EarlierTurnsMayRun(c, front, t, i);
      assert front[..t] == turns[..t];
    }
  }

  /** One handler of one connection: the others do not notice. */
  method Turn(conns: seq<TcpConnection>, poller: EpollPoller, i: nat, op: Op)
    requires OnOneLoop(conns, poller) && i < |conns| && Enabled(conns[i].View(), op)
    modifies conns[i], conns[i].channel, poller, conns[i].output, conns[i].output.data
    ensures OnOneLoop(conns, poller)
    ensures conns[i].output.data == old(conns[i].output.data) || fresh(conns[i].output.data)
    ensures conns[i].View() == Apply(old(conns[i].View()), op)
    ensures forall j | 0 <= j < |conns| && j != i :: conns[j].View() == old(conns[j].View())
  {
    hide Apply;
    conns[i].Perform(op);
  }

  /** One more turn moves its own connection by one handler, and no other. */
  lemma OneMoreTurn(c: Conn, turns: seq<(nat, Op)>, t: nat, i: nat)
    requires t < |turns| && AfterAll(c, OpsOf(turns, i)).Some?
    ensures var now, next := AfterAll(c, OpsOf(turns[..t], i)), AfterAll(c, OpsOf(turns[..t + 1], i));
            && now.Some?
            && (turns[t].0 == i ==> Enabled(now.value, turns[t].1) && next == Some(Apply(now.value, turns[t].1)))
            && (turns[t].0 != i ==> next == now)
  {
    hide Apply, Enabled;
    EarlierTurnsMayRun(c, turns, t, i);
    EarlierTurnsMayRun(c, turns, t + 1, i);
    assert turns[..t + 1][..t] == turns[..t];
    var before, after := OpsOf(turns[..t], i), OpsOf(turns[..t + 1], i);
    if turns[t].0 == i {
      assert after[..|after| - 1] == before;
    } else {
      assert after == before;
    }
  }

  /** A loop serves any number of connections: however their handlers interleave, each connection goes
      exactly the way of its own handlers. */
  method ServeAll(conns: seq<TcpConnection>, poller: EpollPoller, turns: seq<(nat, Op)>, ghost starts: seq<Conn>)
    requires OnOneLoop(conns, poller) && |starts| == |conns|
    requires forall i | 0 <= i < |conns| :: starts[i] == conns[i].View() && AfterAll(starts[i], OpsOf(turns, i)).Some?
    requires forall t | 0 <= t < |turns| :: turns[t].0 < |conns|
    modifies conns, poller, set c | c in conns :: c.channel
    modifies set c | c in conns :: c.output, set c | c in conns :: c.output.data
    ensures OnOneLoop(conns, poller)
    ensures forall i | 0 <= i < |conns| :: AfterAll(starts[i], OpsOf(turns, i)) == Some(conns[i].View())
  {
    hide Apply, Enabled, AfterAll, OpsOf, TcpConnection.View;
    assert forall i | 0 <= i < |conns| :: AfterAll(starts[i], OpsOf(turns[..0], i)) == Some(conns[i].View()) by {
      Unmoved(starts, turns);
    }
    for t := 0 to |turns|
      invariant OnOneLoop(conns, poller)
      invariant forall i | 0 <= i < |conns| ::
                  conns[i].output.data == old(conns[i].output.data) || fresh(conns[i].output.data)
      invariant forall i | 0 <= i < |conns| :: AfterAll(starts[i], OpsOf(turns[..t], i)) == Some(conns[i].View())
    {
      forall i | 0 <= i < |conns|
        ensures var now := AfterAll(starts[i], OpsOf(turns[..t], i));
                var next := AfterAll(starts[i], OpsOf(turns[..t + 1], i));
                && now.Some?
                && (turns[t].0 == i ==> Enabled(now.value, turns[t].1) && next == Some(Apply(now.value, turns[t].1)))
                && (turns[t].0 != i ==> next == now)
      {
        OneMoreTurn(starts[i], turns, t, i);
      }
      Turn(conns, poller, turns[t].0, turns[t].1);
    }
    assert turns[..|turns|] == turns;
  }

  lemma Unmoved(starts: seq<Conn>, turns: seq<(nat, Op)>)
    ensures forall i | 0 <= i < |starts| :: AfterAll(starts[i], OpsOf(turns[..0], i)) == Some(starts[i])
  {
  }

  /** Accepting connections: each is new, and they share nothing but the poller. */
  method OpenAll(fds: seq<int>) returns (conns: seq<TcpConnection>, poller: EpollPoller)
    requires forall i, j | 0 <= i < j < |fds| :: fds[i] != fds[j]
    ensures fresh(poller) && OnOneLoop(conns, poller) && |conns| == |fds|
    ensures forall i | 0 <= i < |conns| :: AllNew(conns[i]) && conns[i].View() == FRESH && conns[i].channel.fd == fds[i]
  {
    hide TcpConnection.View;
    poller := new EpollPoller();
    conns := [];
    for n := 0 to |fds|
      invariant |conns| == n && poller.Mirrors(null) && poller.channels == map[] && OnOneLoop(conns, poller)
      invariant forall i | 0 <= i < n :: AllNew(conns[i]) && conns[i].View() == FRESH && conns[i].channel.fd == fds[i]
    {
      var c := new TcpConnection(fds[n], poller);
      conns := conns + [c];
    }
  }

  twostate predicate AllNew(new c: TcpConnection)
    reads c.output
  {
    fresh(c) && fresh(c.channel) && fresh(c.output) && fresh(c.output.data)
  }

  /** Whole sessions of any number of connections on one loop: under every interleaving of handlers and
      every partial or failing write, what each peer has been sent, then what waits in its buffer, is what
      its own sends were accepted for; and epoll watches a connection for writability exactly while bytes
      wait, until it is closed. */
  method Session(fds: seq<int>, turns: seq<(nat, Op)>) returns (conns: seq<TcpConnection>, poller: EpollPoller)
    requires forall i, j | 0 <= i < j < |fds| :: fds[i] != fds[j]
    requires forall t | 0 <= t < |turns| :: turns[t].0 < |fds|
    requires forall i | 0 <= i < |fds| :: AfterAll(FRESH, OpsOf(turns, i)).Some?
    ensures |conns| == |fds| && OnOneLoop(conns, poller)
    ensures forall i | 0 <= i < |conns| ::
              && conns[i].written + conns[i].output.Contents() == AcceptedBy(FRESH, OpsOf(turns, i))
              && |conns[i].written| == KernelTook(FRESH, OpsOf(turns, i))
              && (conns[i].state != Disconnected ==>
                    (Writable in poller.Watched(conns[i].channel.fd) <==> conns[i].output.Contents() != []))
  {
    hide AfterAll, OpsOf, Reaches, AcceptedBy, KernelTook;
    conns, poller := OpenAll(fds);
    ServeAll(conns, poller, turns, seq(|conns|, _ => FRESH));
    forall i | 0 <= i < |conns|
      ensures Conserves(conns[i].View(), OpsOf(turns, i))
    {
      RunConserves(OpsOf(turns, i));
    }
  }

  ghost predicate Conserves(d: Conn, ops: seq<Op>) {
    && d.written + d.unsent == AcceptedBy(FRESH, ops)
    && |d.written| == KernelTook(FRESH, ops)
    && (d.state != Disconnected ==> (Writable in d.interest <==> d.unsent != []))
  }

  lemma RunConserves(ops: seq<Op>)
    requires AfterAll(FRESH, ops).Some?
    ensures Conserves(AfterAll(FRESH, ops).value, ops)
  {
    AfterAllIsRun(FRESH, ops);
    OutputIsConserved(ops, AfterAll(FRESH, ops).value);
    WrittenIsWhatTheKernelTook(ops, AfterAll(FRESH, ops).value);
  }
}
