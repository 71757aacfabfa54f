/** The registry over whole timed histories: who is listed, and when the evictor matters. */
module RegistryTraces {
  import opened Wrappers
  import opened NodeKeys
  import opened NodeOrder
  import opened Registry

  datatype Event =
    | Register(svc: string, node: NodeInfo)
    | Unregister(svc: string, node: NodeInfo)
    | Heartbeat(svc: string, node: NodeInfo)
    | Discover(svc: string)
    | LiveCount(svc: string)
    | Tick

  /** An event and the clock value read under the registry's mutex. */
  datatype Timed = At(time: int, event: Event)

  type Trace = seq<Timed>

  datatype Answer = Ack | Beat(ok: bool) | Nodes(list: seq<NodeInfo>) | Count(n: nat)

  function Next(s: Services, e: Timed, timeout: int): Services {
    match e.event
    case Register(svc, node) => Registered(s, svc, node, e.time)
    case Unregister(svc, node) => Unregistered(s, svc, node)
    case Heartbeat(svc, node) => Refreshed(s, svc, node, e.time)
    case Discover(_) => Purged(s, e.time, timeout)
    case LiveCount(_) => s
    case Tick => Purged(s, e.time, timeout)
  }

  function LiveOf(s: Services, svc: string, now: int, timeout: int): ServiceMap {
    LiveNodes(NodesOf(s, svc), now, timeout)
  }

  ghost function AnswerTo(s: Services, e: Timed, timeout: int): Answer
    requires AllWellKeyed(s)
  {
    match e.event
    case Heartbeat(svc, node) => Beat(Known(s, svc, NodeKey(node)))
    case Discover(svc) =>
      KeysKeepNodesApart(LiveOf(s, svc, e.time, timeout));
      Nodes(Listing(NodeSet(LiveOf(s, svc, e.time, timeout))))
    case LiveCount(svc) => Count(|LiveOf(s, svc, e.time, timeout)|)
    case _ => Ack
  }

  function RunFrom(s: Services, tr: Trace, timeout: int): Services
    decreases |tr|
  {
    if tr == [] then s else RunFrom(Next(s, tr[0], timeout), tr[1..], timeout)
  }

  /** The registry after the first n events of a history that starts empty. */
  function StateAt(tr: Trace, n: nat, timeout: int): Services
    requires n <= |tr|
  {
    RunFrom(map[], tr[..n], timeout)
  }

  ghost predicate Monotone(tr: Trace) {
    forall i, j | 0 <= i < j < |tr| :: tr[i].time <= tr[j].time
  }

  lemma NextKeepsKeys(s: Services, e: Timed, timeout: int)
    requires AllWellKeyed(s)
    ensures AllWellKeyed(Next(s, e, timeout))
  {
  }

  lemma {:induction false} RunKeepsKeys(s: Services, tr: Trace, timeout: int)
    requires AllWellKeyed(s)
    ensures AllWellKeyed(RunFrom(s, tr, timeout))
    decreases |tr|
  {
    if tr != [] {
      NextKeepsKeys(s, tr[0], timeout);
      RunKeepsKeys(Next(s, tr[0], timeout), tr[1..], timeout);
    }
  }

  lemma {:induction false} RunSplits(s: Services, a: Trace, b: Trace, timeout: int)
    ensures RunFrom(s, a + b, timeout) == RunFrom(RunFrom(s, a, timeout), b, timeout)
    decreases |a|
  {
    if a == [] {
      assert a + b == b;
    } else {
      assert (a + b)[1..] == a[1..] + b;
      RunSplits(Next(s, a[0], timeout), a[1..], b, timeout);
    }
  }

  lemma StateStep(tr: Trace, n: nat, timeout: int)
    requires n < |tr|
    ensures StateAt(tr, n + 1, timeout) == Next(StateAt(tr, n, timeout), tr[n], timeout)
  {
    assert tr[..n + 1] == tr[..n] + [tr[n]];
    RunSplits(map[], tr[..n], [tr[n]], timeout);
    var s := StateAt(tr, n, timeout);
    assert RunFrom(Next(s, tr[n], timeout), [tr[n]][1..], timeout) == Next(s, tr[n], timeout);
  }

  // ---- one node of one service ----

  predicate Enrols(e: Event, svc: string, key: string) {
    e.Register? && e.svc == svc && NodeKey(e.node) == key
  }

  predicate Withdraws(e: Event, svc: string, key: string) {
    e.Unregister? && e.svc == svc && NodeKey(e.node) == key
  }

  predicate Beats(e: Event, svc: string, key: string) {
    e.Heartbeat? && e.svc == svc && NodeKey(e.node) == key
  }

  predicate Refreshes(e: Event, svc: string, key: string) {
    Enrols(e, svc, key) || Beats(e, svc, key)
  }

  /** Evictor ticks and every Discover, of whatever service, sweep the whole registry. */
  predicate Sweeps(e: Event) {
    e.Tick? || e.Discover?
  }

  /** What one event does to what is held for one node. */
  function NextLook(l: Option<Entry>, e: Timed, svc: string, key: string, timeout: int): Option<Entry> {
    if Enrols(e.event, svc, key) then Some(Entry(e.event.node, e.time))
    else if Withdraws(e.event, svc, key) then None
    else if Beats(e.event, svc, key) && l.Some? then Some(l.value.(lastHeartbeat := e.time))
    else if Sweeps(e.event) && l.Some? && !Fresh(l.value, e.time, timeout) then None
    else l
  }

  lemma LookAfterPurge(s: Services, now: int, timeout: int, svc: string, key: string)
    ensures Look(Purged(s, now, timeout), svc, key) ==
            if Known(s, svc, key) && Fresh(s[svc][key], now, timeout) then Some(s[svc][key]) else None
  {
    if Known(s, svc, key) && Fresh(s[svc][key], now, timeout) {
      assert key in LiveNodes(s[svc], now, timeout);
    }
  }

  lemma LookFollows(s: Services, e: Timed, timeout: int, svc: string, key: string)
    ensures Look(Next(s, e, timeout), svc, key) == NextLook(Look(s, svc, key), e, svc, key, timeout)
  {
    match e.event
    case Discover(_) => LookAfterPurge(s, e.time, timeout, svc, key);
    case Tick => LookAfterPurge(s, e.time, timeout, svc, key);
    case Unregister(_, node) =>
      if Known(s, svc, key) && key != NodeKey(node) {
        assert key in s[svc] - {NodeKey(node)};
      }
    case _ =>
  }

  // ---- the declarative lease ----

  /** The position of the last Register or Heartbeat of the node before position n, or -1. */
  function LastRefresh(tr: Trace, n: nat, svc: string, key: string): (r: int)
    requires n <= |tr|
    ensures -1 <= r < n
    ensures r >= 0 ==> Refreshes(tr[r].event, svc, key)
    ensures forall j | r < j < n :: !Refreshes(tr[j].event, svc, key)
  {
    if n == 0 then -1
    else if Refreshes(tr[n - 1].event, svc, key) then n - 1
    else LastRefresh(tr, n - 1, svc, key)
  }

  /** At position j the node's last refresh is not older than the timeout. */
  predicate FreshAt(tr: Trace, j: nat, svc: string, key: string, timeout: int)
    requires j < |tr|
  {
    var r := LastRefresh(tr, j, svc, key);
    r >= 0 && tr[j].time - tr[r].time <= timeout
  }

  /** The node was registered at position i, has not registered again or unregistered since, and no
      sweep since then found its last refresh too old. */
  predicate Leased(tr: Trace, n: nat, i: nat, svc: string, key: string, timeout: int)
    requires n <= |tr|
  {
    && i < n && Enrols(tr[i].event, svc, key)
    && forall j | i < j < n ::
         && !Enrols(tr[j].event, svc, key) && !Withdraws(tr[j].event, svc, key)
         && (Sweeps(tr[j].event) ==> FreshAt(tr, j, svc, key, timeout))
  }

  lemma {:induction false} LeaseIsHeld(tr: Trace, n: nat, i: nat, svc: string, key: string, timeout: int)
    requires n <= |tr| && Leased(tr, n, i, svc, key, timeout)
    ensures LastRefresh(tr, n, svc, key) >= i
    ensures Look(StateAt(tr, n, timeout), svc, key) ==
            Some(Entry(tr[i].event.node, tr[LastRefresh(tr, n, svc, key)].time))
    decreases n
  {
    StateStep(tr, n - 1, timeout);
    LookFollows(StateAt(tr, n - 1, timeout), tr[n - 1], timeout, svc, key);
    if i < n - 1 {
      LeaseIsHeld(tr, n - 1, i, svc, key, timeout);
    }
  }

  lemma {:induction false} HeldIsLeased(tr: Trace, n: nat, svc: string, key: string, timeout: int) returns (i: nat)
    requires n <= |tr| && Look(StateAt(tr, n, timeout), svc, key).Some?
    ensures Leased(tr, n, i, svc, key, timeout)
    decreases n
  {
    StateStep(tr, n - 1, timeout);
    LookFollows(StateAt(tr, n - 1, timeout), tr[n - 1], timeout, svc, key);
    if Enrols(tr[n - 1].event, svc, key) {
      i := n - 1;
    } else {
      i := HeldIsLeased(tr, n - 1, svc, key, timeout);
      LeaseIsHeld(tr, n - 1, i, svc, key, timeout);
    }
  }

  /** Lease exactness, on every history: at any position the registry holds a node exactly when it
      has an unbroken lease; the entry then carries the latest registration's data and the time of
      the latest refresh. */
  lemma LeaseExactness(tr: Trace, n: nat, svc: string, key: string, timeout: int)
    requires n <= |tr|
    ensures Known(StateAt(tr, n, timeout), svc, key) <==>
            exists i: nat :: Leased(tr, n, i, svc, key, timeout)
    ensures forall i: nat | Leased(tr, n, i, svc, key, timeout) ::
              Look(StateAt(tr, n, timeout), svc, key) ==
              Some(Entry(tr[i].event.node, tr[LastRefresh(tr, n, svc, key)].time))
  {
    forall i: nat | Leased(tr, n, i, svc, key, timeout)
      ensures LastRefresh(tr, n, svc, key) >= i
      ensures Look(StateAt(tr, n, timeout), svc, key) ==
              Some(Entry(tr[i].event.node, tr[LastRefresh(tr, n, svc, key)].time))
    {
      LeaseIsHeld(tr, n, i, svc, key, timeout);
    }
    if Known(StateAt(tr, n, timeout), svc, key) {
      var i := HeldIsLeased(tr, n, svc, key, timeout);
    }
  }

  /** What Discover answers at position n of a history. */
  ghost function DiscoverAt(tr: Trace, n: nat, timeout: int): (list: seq<NodeInfo>)
    requires n < |tr| && tr[n].event.Discover?
  {
    var s := StateAt(tr, n, timeout);
    RunKeepsKeys(map[], tr[..n], timeout);
    AnswerTo(s, tr[n], timeout).list
  }

  /** Discover, on every history: the answer is strictly sorted by host and port, and lists exactly
      the nodes that hold an unbroken lease refreshed within the timeout, each with the data of its
      latest registration. */
  lemma DiscoverExactness(tr: Trace, n: nat, timeout: int, node: NodeInfo)
    requires n < |tr| && tr[n].event.Discover?
    ensures StrictlySorted(DiscoverAt(tr, n, timeout))
    ensures node in DiscoverAt(tr, n, timeout) <==>
            exists i: nat :: Leased(tr, n, i, tr[n].event.svc, NodeKey(node), timeout)
                             && tr[i].event.node == node
                             && FreshAt(tr, n, tr[n].event.svc, NodeKey(node), timeout)
  {
    var svc, key := tr[n].event.svc, NodeKey(node);
    var s := StateAt(tr, n, timeout);
    RunKeepsKeys(map[], tr[..n], timeout);
    var live := LiveOf(s, svc, tr[n].time, timeout);
    KeysKeepNodesApart(live);
    assert node in DiscoverAt(tr, n, timeout) <==> node in NodeSet(live);
    LeaseExactness(tr, n, svc, key, timeout);
    if node in NodeSet(live) {
      var k :| k in live && live[k].node == node;
      assert k == key && Known(s, svc, key);
      var i: nat :| Leased(tr, n, i, svc, key, timeout);
      LeaseIsHeld(tr, n, i, svc, key, timeout);
    }
    if exists i: nat :: Leased(tr, n, i, svc, key, timeout) && tr[i].event.node == node
                        && FreshAt(tr, n, svc, key, timeout) {
      var i: nat :| Leased(tr, n, i, svc, key, timeout) && tr[i].event.node == node
                    && FreshAt(tr, n, svc, key, timeout);
      LeaseIsHeld(tr, n, i, svc, key, timeout);
      assert key in live && live[key].node == node;
    }
  }

  /** A node that keeps its heartbeats within the timeout is never missing: if it registered at i,
      has not unregistered or re-registered since, and each refresh came within the timeout of the
      one before, then Discover lists it as long as the last refresh is recent enough. */
  lemma PunctualNodeIsListed(tr: Trace, n: nat, i: nat, timeout: int, node: NodeInfo)
    requires Monotone(tr)
    requires i < n < |tr| && tr[n].event.Discover?
    requires tr[i].event == Register(tr[n].event.svc, node)
    requires forall j | i < j < n ::
               && !Enrols(tr[j].event, tr[n].event.svc, NodeKey(node))
               && !Withdraws(tr[j].event, tr[n].event.svc, NodeKey(node))
    requires forall j | i < j < n && Beats(tr[j].event, tr[n].event.svc, NodeKey(node)) ::
               FreshAt(tr, j, tr[n].event.svc, NodeKey(node), timeout)
    requires FreshAt(tr, n, tr[n].event.svc, NodeKey(node), timeout)
    ensures node in DiscoverAt(tr, n, timeout)
  {
    var svc, key := tr[n].event.svc, NodeKey(node);
    forall j | i < j < n
      ensures FreshAt(tr, j, svc, key, timeout)
    {
      FreshBetween(tr, n, i, j, svc, key, timeout);
    }
    assert Leased(tr, n, i, svc, key, timeout);
    DiscoverExactness(tr, n, timeout, node);
  }

  /** Between two refreshes that are close enough, the lease is fresh at every event. */
  lemma {:induction false} FreshBetween(tr: Trace, n: nat, i: nat, j: nat, svc: string, key: string, timeout: int)
    requires Monotone(tr)
    requires i < j <= n < |tr| && Enrols(tr[i].event, svc, key)
    requires forall k | i < k < n && Refreshes(tr[k].event, svc, key) :: FreshAt(tr, k, svc, key, timeout)
    requires FreshAt(tr, n, svc, key, timeout)
    ensures FreshAt(tr, j, svc, key, timeout)
    decreases n - j
  {
    if j < n && !Refreshes(tr[j].event, svc, key) {
      FreshBetween(tr, n, i, j + 1, svc, key, timeout);
      assert LastRefresh(tr, j + 1, svc, key) == LastRefresh(tr, j, svc, key);
    }
  }

  /** Once out of the registry, by eviction or otherwise, a node comes back only by registering. */
  lemma {:induction false} OnlyRegisterBringsBack(tr: Trace, m: nat, n: nat, svc: string, key: string, timeout: int)
    requires m <= n <= |tr|
    requires !Known(StateAt(tr, m, timeout), svc, key)
    requires forall j | m <= j < n :: !Enrols(tr[j].event, svc, key)
    ensures !Known(StateAt(tr, n, timeout), svc, key)
    decreases n - m
  {
    if m < n {
      OnlyRegisterBringsBack(tr, m, n - 1, svc, key, timeout);
      StateStep(tr, n - 1, timeout);
      LookFollows(StateAt(tr, n - 1, timeout), tr[n - 1], timeout, svc, key);
    }
  }

  /** The live count is the length of the list Discover would give at the same moment. */
  lemma CountAgreesWithDiscover(s: Services, svc: string, now: int, timeout: int)
    requires AllWellKeyed(s)
    ensures AnswerTo(s, At(now, LiveCount(svc)), timeout).n ==
            |AnswerTo(s, At(now, Discover(svc)), timeout).list|
  {
    var live := LiveOf(s, svc, now, timeout);
    KeysKeepNodesApart(live);
    NodeSetSize(live);
    ListingSize(Listing(NodeSet(live)), NodeSet(live));
  }

  // ---- does the evictor matter? ----

  /** The answers given to the callers of a history; an evictor tick has no caller. */
  ghost function Answers(s: Services, tr: Trace, timeout: int): seq<Answer>
    requires AllWellKeyed(s)
    decreases |tr|
  {
    if tr == [] then []
    else
      NextKeepsKeys(s, tr[0], timeout);
      var rest := Answers(Next(s, tr[0], timeout), tr[1..], timeout);
      if tr[0].event.Tick? then rest else [AnswerTo(s, tr[0], timeout)] + rest
  }

  /** The same history with the evictor switched off. */
  function Unticked(tr: Trace): Trace {
    if tr == [] then []
    else if tr[0].event.Tick? then Unticked(tr[1..])
    else [tr[0]] + Unticked(tr[1..])
  }

  /** A heartbeat for a node that is still on file although its lease has run out. */
  predicate LateBeat(s: Services, e: Timed, timeout: int) {
    && e.event.Heartbeat?
    && Known(s, e.event.svc, NodeKey(e.event.node))
    && !Fresh(s[e.event.svc][NodeKey(e.event.node)], e.time, timeout)
  }

  predicate NoLateBeat(s: Services, tr: Trace, timeout: int)
    decreases |tr|
  {
    tr == [] || (!LateBeat(s, tr[0], timeout) && NoLateBeat(Next(s, tr[0], timeout), tr[1..], timeout))
  }

  /** s is what is left of s' after some sweeps: it holds nothing else, and misses only what has
      run out by now. */
  ghost predicate SweptBy(s: Services, s': Services, now: int, timeout: int) {
    forall svc, key ::
      && (Look(s, svc, key).Some? ==> Look(s', svc, key) == Look(s, svc, key))
      && (Look(s', svc, key).Some? && Fresh(Look(s', svc, key).value, now, timeout) ==>
            Look(s, svc, key) == Look(s', svc, key))
  }

  lemma SameLive(s: Services, s': Services, svc: string, now: int, timeout: int)
    requires SweptBy(s, s', now, timeout)
    ensures LiveOf(s, svc, now, timeout) == LiveOf(s', svc, now, timeout)
  {
    var a, b := LiveOf(s, svc, now, timeout), LiveOf(s', svc, now, timeout);
    forall k
      ensures k in a <==> k in b
      ensures k in a ==> a[k] == b[k]
    {
      var l, l' := Look(s, svc, k), Look(s', svc, k);
      assert k in a <==> l.Some? && Fresh(l.value, now, timeout);
      assert k in b <==> l'.Some? && Fresh(l'.value, now, timeout);
    }
  }

  lemma SameAnswer(s: Services, s': Services, e: Timed, timeout: int)
    requires AllWellKeyed(s) && AllWellKeyed(s')
    requires SweptBy(s, s', e.time, timeout) && !LateBeat(s', e, timeout)
    ensures AnswerTo(s, e, timeout) == AnswerTo(s', e, timeout)
  {
    match e.event
    case Heartbeat(svc, node) =>
      var l, l' := Look(s, svc, NodeKey(node)), Look(s', svc, NodeKey(node));
      assert l.Some? <==> l'.Some?;
    case Discover(svc) => SameLive(s, s', svc, e.time, timeout);
    case LiveCount(svc) => SameLive(s, s', svc, e.time, timeout);
    case _ =>
  }

  lemma SweptByFollows(s: Services, s': Services, e: Timed, timeout: int)
    requires SweptBy(s, s', e.time, timeout) && !LateBeat(s', e, timeout)
    ensures SweptBy(Next(s, e, timeout), Next(s', e, timeout), e.time, timeout)
  {
    forall svc, key
      ensures var l, l' := Look(Next(s, e, timeout), svc, key), Look(Next(s', e, timeout), svc, key);
              && (l.Some? ==> l' == l)
              && (l'.Some? && Fresh(l'.value, e.time, timeout) ==> l == l')
    {
      LookFollows(s, e, timeout, svc, key);
      LookFollows(s', e, timeout, svc, key);
      var l, l' := Look(s, svc, key), Look(s', svc, key);
      assert l.Some? ==> l' == l;
    }
  }

  lemma SweptByTick(s: Services, s': Services, e: Timed, timeout: int)
    requires SweptBy(s, s', e.time, timeout) && e.event.Tick?
    ensures SweptBy(Next(s, e, timeout), s', e.time, timeout)
  {
    forall svc, key
      ensures var l, l' := Look(Next(s, e, timeout), svc, key), Look(s', svc, key);
              && (l.Some? ==> l' == l)
              && (l'.Some? && Fresh(l'.value, e.time, timeout) ==> l == l')
    {
      LookFollows(s, e, timeout, svc, key);
      var l, l' := Look(s, svc, key), Look(s', svc, key);
      assert l.Some? ==> l' == l;
    }
  }

  /** Time passing keeps the relation: leases only run out. */
  lemma SweptByLater(s: Services, s': Services, now: int, later: int, timeout: int)
    requires SweptBy(s, s', now, timeout) && now <= later
    ensures SweptBy(s, s', later, timeout)
  {
  }

  lemma {:induction false} TicksAreInvisibleFrom(s: Services, s': Services, now: int, tr: Trace, timeout: int)
    requires AllWellKeyed(s) && AllWellKeyed(s') && SweptBy(s, s', now, timeout)
    requires Monotone(tr) && (tr != [] ==> now <= tr[0].time)
    requires NoLateBeat(s', Unticked(tr), timeout)
    ensures Answers(s, tr, timeout) == Answers(s', Unticked(tr), timeout)
    decreases |tr|
  {
    if tr != [] {
      var e := tr[0];
      SweptByLater(s, s', now, e.time, timeout);
      NextKeepsKeys(s, e, timeout);
      if e.event.Tick? {
        SweptByTick(s, s', e, timeout);
        TicksAreInvisibleFrom(Next(s, e, timeout), s', e.time, tr[1..], timeout);
      } else {
        assert Unticked(tr)[0] == e && Unticked(tr)[1..] == Unticked(tr[1..]);
        NextKeepsKeys(s', e, timeout);
        SameAnswer(s, s', e, timeout);
        SweptByFollows(s, s', e, timeout);
        TicksAreInvisibleFrom(Next(s, e, timeout), Next(s', e, timeout), e.time, tr[1..], timeout);
      }
    }
  }

  lemma {:induction false} AnswersSplit(s: Services, a: Trace, b: Trace, timeout: int)
    requires AllWellKeyed(s)
    ensures AllWellKeyed(RunFrom(s, a, timeout))
    ensures Answers(s, a + b, timeout) ==
            Answers(s, a, timeout) + Answers(RunFrom(s, a, timeout), b, timeout)
    decreases |a|
  {
    RunKeepsKeys(s, a, timeout);
    if a == [] {
      assert a + b == b;
    } else {
      assert (a + b)[1..] == a[1..] + b;
      NextKeepsKeys(s, a[0], timeout);
      AnswersSplit(Next(s, a[0], timeout), a[1..], b, timeout);
    }
  }

  lemma {:induction false} FindLateBeat(s: Services, tr: Trace, timeout: int) returns (p: nat)
    requires !NoLateBeat(s, tr, timeout)
    ensures p < |tr| && LateBeat(RunFrom(s, tr[..p], timeout), tr[p], timeout)
    decreases |tr|
  {
    if LateBeat(s, tr[0], timeout) {
      p := 0;
    } else {
      var q := FindLateBeat(Next(s, tr[0], timeout), tr[1..], timeout);
      p := q + 1;
      assert tr[..p][1..] == tr[1..][..q];
    }
  }

  lemma {:induction false} UntickedSplit(a: Trace, b: Trace)
    ensures Unticked(a + b) == Unticked(a) + Unticked(b)
    decreases |a|
  {
    if a == [] {
      assert a + b == b;
    } else {
      assert (a + b)[1..] == a[1..] + b;
      UntickedSplit(a[1..], b);
    }
  }

  /** A sweep just before a late heartbeat turns its acceptance into a refusal. */
  lemma TickBeforeLateBeat(s: Services, tr: Trace, timeout: int)
    requires AllWellKeyed(s) && tr != [] && LateBeat(s, tr[0], timeout)
    ensures var ticked := [At(tr[0].time, Tick)] + tr;
            && |Answers(s, ticked, timeout)| > 0 && |Answers(s, tr, timeout)| > 0
            && Answers(s, ticked, timeout)[0] == Beat(false)
            && Answers(s, tr, timeout)[0] == Beat(true)
  {
    var tick := At(tr[0].time, Tick);
    var ticked := [tick] + tr;
    var swept := Next(s, tick, timeout);
    NextKeepsKeys(s, tick, timeout);
    assert ticked[1..] == tr;
    LookAfterPurge(s, tick.time, timeout, tr[0].event.svc, NodeKey(tr[0].event.node));
    assert AnswerTo(swept, tr[0], timeout) == Beat(false);
    assert Answers(s, ticked, timeout) == Answers(swept, tr, timeout);
  }

  /** However the evictor's ticks fall, the callers get the answers they would get without it. */
  ghost predicate EvictorInvisible(tr: Trace, timeout: int) {
    forall ticked: Trace | Monotone(ticked) && Unticked(ticked) == tr ::
      Answers(map[], ticked, timeout) == Answers(map[], tr, timeout)
  }

  /** The history with one tick at the time of event p, just before it. */
  function TickBefore(tr: Trace, p: nat): Trace
    requires p < |tr|
  {
    tr[..p] + ([At(tr[p].time, Tick)] + tr[p..])
  }

  lemma TickBeforeKeepsTime(tr: Trace, p: nat)
    requires p < |tr| && Monotone(tr)
    ensures Monotone(TickBefore(tr, p))
  {
    var ticked := TickBefore(tr, p);
    forall i, j | 0 <= i < j < |ticked|
      ensures ticked[i].time <= ticked[j].time
    {
      var i', j' := if i <= p then i else i - 1, if j <= p then j else j - 1;
      assert ticked[i].time == tr[i'].time && ticked[j].time == tr[j'].time;
    }
  }

  lemma TickBeforeKeepsEvents(tr: Trace, p: nat)
    requires p < |tr|
    ensures Unticked(TickBefore(tr, p)) == Unticked(tr)
  {
    var ticked := [At(tr[p].time, Tick)] + tr[p..];
    assert tr == tr[..p] + tr[p..] && ticked[1..] == tr[p..];
    UntickedSplit(tr[..p], tr[p..]);
    UntickedSplit(tr[..p], ticked);
  }

  lemma TickBeforeShows(tr: Trace, p: nat, timeout: int)
    requires p < |tr| && LateBeat(RunFrom(map[], tr[..p], timeout), tr[p], timeout)
    ensures Answers(map[], TickBefore(tr, p), timeout) != Answers(map[], tr, timeout)
  {
    var front, back := tr[..p], tr[p..];
    assert tr == front + back;
    AnswersSplit(map[], front, back, timeout);
    AnswersSplit(map[], front, [At(tr[p].time, Tick)] + back, timeout);
    TickBeforeLateBeat(RunFrom(map[], front, timeout), back, timeout);
    var n := |Answers(map[], front, timeout)|;
    assert Answers(map[], TickBefore(tr, p), timeout)[n] == Beat(false);
    assert Answers(map[], tr, timeout)[n] == Beat(true);
  }

  /** Eviction transparency: the placing of evictor ticks changes no answer of a history exactly when
      no heartbeat arrives for a node whose lease has run out but which is still on file. */
  lemma EvictorInvisibleExactly(tr: Trace, timeout: int)
    requires Monotone(tr) && Unticked(tr) == tr
    ensures EvictorInvisible(tr, timeout) <==> NoLateBeat(map[], tr, timeout)
  {
    if NoLateBeat(map[], tr, timeout) {
      forall ticked: Trace | Monotone(ticked) && Unticked(ticked) == tr
        ensures Answers(map[], ticked, timeout) == Answers(map[], tr, timeout)
      {
        TicksAreInvisibleFrom(map[], map[], if ticked == [] then 0 else ticked[0].time, ticked, timeout);
      }
    } else {
      var p := FindLateBeat(map[], tr, timeout);
      TickBeforeKeepsTime(tr, p);
      TickBeforeKeepsEvents(tr, p);
      TickBeforeShows(tr, p, timeout);
    }
  }

  /** A node registers at 0 and beats at 10 under a timeout of 5: accepted if the evictor has not run in
      between, refused if it has. */
  lemma LateHeartbeatShowsTheEvictor(node: NodeInfo, tr: Trace)
    requires tr == [At(0, Register("svc", node)), At(10, Heartbeat("svc", node))]
    ensures !EvictorInvisible(tr, 5)
  {
    assert tr[1..] == [tr[1]] && [tr[1]][1..] == [];
    assert Unticked(tr[1..]) == [tr[1]] + Unticked([]);
    assert Unticked(tr) == tr;
    var s := Next(map[], tr[0], 5);
    assert s["svc"][NodeKey(node)] == Entry(node, 0);
    assert LateBeat(s, tr[1], 5);
    EvictorInvisibleExactly(tr, 5);
  }

  // ---- the service object runs the histories ----

  method Serve(r: RegistryService, e: Timed) returns (a: Answer)
    requires r.Valid()
    modifies r`services
    ensures r.Valid()
    ensures r.services == Next(old(r.services), e, r.heartbeatTimeout)
    ensures a == AnswerTo(old(r.services), e, r.heartbeatTimeout)
  {
    a := Ack;
    match e.event
    case Register(svc, node) => r.Register(svc, node, e.time);
    case Unregister(svc, node) => r.Unregister(svc, node);
    case Heartbeat(svc, node) =>
      var ok := r.Heartbeat(svc, node, e.time);
      a := Beat(ok);
    case Discover(svc) =>
      ghost var live := LiveOf(r.services, svc, e.time, r.heartbeatTimeout);
      KeysKeepNodesApart(live);
      var list := r.Discover(svc, e.time);
      ListingIsUnique(list, Listing(NodeSet(live)), NodeSet(live));
      a := Nodes(list);
    case LiveCount(svc) =>
      var n := r.LiveNodeCount(svc, e.time);
      a := Count(n);
    case Tick => r.PurgeExpired(e.time);
  }

  /** Serving a whole history with the object gives the answers of the history. */
  method ServeAll(r: RegistryService, tr: Trace) returns (answers: seq<Answer>)
    requires r.Valid()
    modifies r`services
    ensures r.Valid()
    ensures r.services == RunFrom(old(r.services), tr, r.heartbeatTimeout)
    ensures answers == Answers(old(r.services), tr, r.heartbeatTimeout)
  {
    answers := [];
    ghost var start, timeout := r.services, r.heartbeatTimeout;
    for i := 0 to |tr|
      invariant r.Valid()
      invariant RunFrom(start, tr, timeout) == RunFrom(r.services, tr[i..], timeout)
      invariant Answers(start, tr, timeout) == answers + Answers(r.services, tr[i..], timeout)
    {
      ghost var before := r.services;
      var a := Serve(r, tr[i]);
      ghost var rest := Answers(r.services, tr[i + 1..], timeout);
      assert tr[i..][1..] == tr[i + 1..];
      if !tr[i].event.Tick? {
        assert answers + ([a] + rest) == (answers + [a]) + rest;
        answers := answers + [a];
      }
    }
  }
}
