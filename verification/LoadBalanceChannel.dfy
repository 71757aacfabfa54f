/** The balancing client: a refreshed node list, two ways to pick from it, and one failover. */
module LoadBalanceChannel {
  import opened Wrappers
  import opened Bytes
  import opened NetBuffer
  import opened NodeKeys
  import opened NodeOrder
  import opened LoadBalancer
  import opened HashRing
  import opened Rpc
  import opened RpcChannel
  import RegistryTraces

  datatype BalanceType = ByRoundRobin | ByConsistentHash

  /** What asking the registry gives: nothing if the call fails, else the list; and when. */
  datatype Discovery = Discovery(nodes: Option<seq<NodeInfo>>, at: int)

  /** What the network does during one call through a node's channel. */
  datatype Net = Net(canConnect: bool, scripts: seq<Script>)

  /** One call through the channel of a node: what it came to, and whether the controller shows a failure. */
  datatype Attempt = Attempt(key: string, outcome: Outcome, failed: bool)

  function KeysOf(nodes: seq<NodeInfo>): (keys: seq<string>)
    ensures |keys| == |nodes|
    ensures forall i | 0 <= i < |nodes| :: keys[i] == NodeKey(nodes[i])
  {
    seq(|nodes|, i requires 0 <= i < |nodes| => NodeKey(nodes[i]))
  }

  /** The key of the node that the k-th of several consecutive turns falls on. */
  function PickedKey(nodes: seq<NodeInfo>, start: u64, k: nat): string
    requires nodes != []
  {
    NodeKey(nodes[Pick(start, k, |nodes|)])
  }

  /** The list in use, and when the registry gave it. */
  datatype Known = Known(nodes: seq<NodeInfo>, at: int)

  /** A failed refresh keeps the old list. */
  function Told(k: Known, d: Discovery): Known {
    if d.nodes.Some? then Known(d.nodes.value, d.at) else k
  }

  /** A failure that another node may not share. */
  predicate Retryable(a: Attempt) {
    a.failed && CodeOf(a.outcome) in {CLOSED, SYSTEM, TIMEOUT}
  }

  ghost predicate DistinctKeys(nodes: seq<NodeInfo>) {
    forall i, j | 0 <= i < j < |nodes| :: NodeKey(nodes[i]) != NodeKey(nodes[j])
  }

  /** The attempts of one call: none without nodes; the first on a listed node; a second exactly without a
      callback, after a failure that another node may not share, and with more than one node before and
      after the list was refreshed; it then runs on a listed node other than the first. */
  ghost predicate AttemptsFit(before: seq<NodeInfo>, after: seq<NodeInfo>, tried: seq<Attempt>, hasDone: bool) {
    && |tried| <= 2
    && (|tried| == 0 <==> before == [])
    && (|tried| > 0 ==> tried[0].key in KeysOf(before))
    && (|tried| > 1 <==> !hasDone && |tried| > 0 && Retryable(tried[0]) && |before| > 1 && |after| > 1)
    && (|tried| > 1 && DistinctKeys(after) ==> tried[1].key in KeysOf(after) && tried[1].key != tried[0].key)
  }

  /** How a call that starts on the list k goes on, told from what the first attempt came to. With a
      controller and retries allowed there is a second attempt exactly after a timeout, a closed connection
      or the codes 1, 3 and 4, if there is another node to try; after anything else, a success or an error
      of the service's own, the call is over and the list stays. The list only ever changes to what the
      registry answered. */
  ghost predicate Follows(k: Known, d1: Discovery, d2: Discovery, tried: seq<Attempt>, reported: bool, hasDone: bool,
                          left: Known) {
    && (left == k || left == Told(k, d1) || left == Told(Told(k, d1), d2))
    && (reported ==>
          (|tried| > 1 <==>
             && !hasDone && |k.nodes| > 1 && |Told(k, d1).nodes| > 1
             && |tried| > 0 && tried[0].outcome in {TimedOut, Closed, Failed(1), Failed(3), Failed(4)}))
    && (|tried| > 0 && tried[0].outcome !in {TimedOut, Closed, Failed(1), Failed(3), Failed(4)} ==>
          |tried| == 1 && left == k)
  }

  lemma RetryableByOutcome(a: Attempt)
    requires a.failed ==> !a.outcome.Ok?
    ensures Retryable(a) <==> a.failed && a.outcome in {TimedOut, Closed, Failed(1), Failed(3), Failed(4)}
  {
  }

  lemma NoNodesNoAttempts(k: Known, d1: Discovery, d2: Discovery, reported: bool, hasDone: bool)
    requires k.nodes == []
    ensures AttemptsFit([], Told(k, d1).nodes, [], hasDone) && Follows(k, d1, d2, [], reported, hasDone, k)
  {
  }

  /** The lists that the registry's Discover gives have distinct keys. */
  lemma SortedListsHaveDistinctKeys(nodes: seq<NodeInfo>)
    requires StrictlySorted(nodes)
    ensures DistinctKeys(nodes)
  {
    forall i, j | 0 <= i < j < |nodes|
      ensures NodeKey(nodes[i]) != NodeKey(nodes[j])
    {
      NodeOrderTotal(nodes[i], nodes[j]);
      if NodeKey(nodes[i]) == NodeKey(nodes[j]) {
        NodeKeyIsInjective(nodes[i], nodes[j]);
      }
    }
  }

  /** On every history of the registry, what Discover answers is a list with distinct keys. */
  lemma DiscoveredKeysAreDistinct(tr: RegistryTraces.Trace, n: nat, timeout: int)
    requires n < |tr| && tr[n].event.Discover?
    ensures DistinctKeys(RegistryTraces.DiscoverAt(tr, n, timeout))
  {
    RegistryTraces.DiscoverExactness(tr, n, timeout, NodeInfo("", "", 0));
    SortedListsHaveDistinctKeys(RegistryTraces.DiscoverAt(tr, n, timeout));
  }

  method CollectKeys(nodes: seq<NodeInfo>) returns (keys: seq<string>)
    ensures keys == KeysOf(nodes)
  {
    hide NodeKey;
    keys := [];
    for i := 0 to |nodes|
      invariant keys == KeysOf(nodes)[..i]
    {
      keys := keys + [NodeKey(nodes[i])];
    }
  }

  /** The channels opened so far, one for every node that was called. `buffers` and `blocks` are what
      belongs to them. */
  class ChannelTable {
    const world: World
    const callRetries: int
    var channels: map<string, Channel>
    ghost var buffers: set<Buffer>
    ghost var blocks: set<array<byte>>

    /** The channel leads where its key says and is set up as configured. */
    ghost predicate Sound(key: string, c: Channel)
      reads this, c, buffers, blocks
    {
      && c.input in buffers && c.input.data in blocks && c.Valid()
      && c.address == AddressOf(key) && c.world == world && c.maxRetries == callRetries
    }

    /** Two channels share nothing. */
    ghost predicate Apart(c: Channel, d: Channel)
      reads c.input, d.input
    {
      c != d && c.input != d.input && c.input.data != d.input.data
    }

    ghost predicate Valid()
      reads this, channels.Values, buffers, blocks
    {
      && (forall k | k in channels :: Sound(k, channels[k]))
      && (forall j, k | j in channels && k in channels && j != k :: Apart(channels[j], channels[k]))
    }

    constructor (world: World, callRetries: int)
      ensures Valid() && channels == map[] && fresh(buffers) && fresh(blocks)
      ensures this.world == world && this.callRetries == callRetries
    {
      this.world, this.callRetries := world, callRetries;
      channels, buffers, blocks := map[], {}, {};
    }

    /** One connection per node, opened to the address the key spells. */
    method ChannelFor(key: string) returns (channel: Channel)
      requires Valid()
      modifies this
      ensures Valid() && fresh(buffers - old(buffers)) && fresh(blocks - old(blocks))
      ensures key in channels && channels[key] == channel && channel.address == AddressOf(key)
      ensures channel.input in buffers && channel.input.data in blocks
      ensures fresh(channels.Values - old(channels.Values))
      ensures key in old(channels) ==> channels == old(channels)
      ensures key !in old(channels) ==>
                && channels == old(channels)[key := channel] && fresh(channel)
                && channel.nextSeq == 1 && !channel.connected
    {
      hide Apart, Channel.Valid;
      if key in channels {
        assert Sound(key, channels[key]);
        return channels[key];
      }
      hide Valid;
      channel := Open(key);
    }

    method Open(key: string) returns (channel: Channel)
      requires Valid() && key !in channels
      modifies this
      ensures Valid() && fresh(buffers - old(buffers)) && fresh(blocks - old(blocks))
      ensures channels == old(channels)[key := channel] && channel.address == AddressOf(key)
      ensures channel.input in buffers && channel.input.data in blocks
      ensures fresh(channel) && channel.nextSeq == 1 && !channel.connected
    {
      hide AddressOf, Apart, Channel.Valid;
      var address := ReadAddress(key);
      channel := new Channel(world, address, callRetries);
      channels := channels[key := channel];
      buffers, blocks := buffers + {channel.input}, blocks + {channel.input.data};
      hide Valid;
      Joins(key, channel);
    }

    /** A new channel shares nothing with the ones there are. */
    twostate lemma Joins(key: string, new channel: Channel)
      requires old(Valid()) && key !in old(channels) && channels == old(channels)[key := channel]
      requires fresh(channel) && fresh(channel.input) && fresh(channel.input.data)
      requires old(buffers) <= buffers && old(blocks) <= blocks && Sound(key, channel)
      requires forall c | c in old(channels.Values) ::
                 unchanged(c) && unchanged(c.input) && unchanged(c.input.data)
      ensures Valid()
    {
      hide AddressOf, Channel.Valid;
      forall k | k in channels
        ensures Sound(k, channels[k])
      {
        if k != key {
          assert old(Sound(k, channels[k]));
        }
      }
      forall j, k | j in channels && k in channels && j != k
        ensures Apart(channels[j], channels[k])
      {
        if j != key && k != key {
          assert old(Apart(channels[j], channels[k]));
        }
      }
    }

    /** The text before the last colon, and the number behind it. */
    method ReadAddress(key: string) returns (address: (string, u16))
      ensures address == AddressOf(key)
    {
      var colon := LastColon(key);
      var host := if colon < 0 then key else key[..colon];
      address := (host, Atoi(key[colon + 1..]) % 0x1_0000);
    }

    /** One call through the channel of a node. The callback is the channel's to run. */
    method CallOn(key: string, envelope: seq<byte>, net: Net, controller: RpcController?, done: Closure?)
      returns (a: Attempt)
      requires Valid()
      modifies this, channels.Values, buffers, blocks, controller, done
      ensures Valid() && fresh(buffers - old(buffers)) && fresh(blocks - old(blocks))
      ensures fresh(channels.Values - old(channels.Values))
      ensures done != null ==> done.runs == old(done.runs) + 1
      ensures a.key == key && Reports(a, controller) && ShowsOn(a, controller != null)
    {
      hide Valid, Reports;
      var _ := ChannelFor(key);
      a := Through(key, envelope, net, controller, done);
    }

    method Through(key: string, envelope: seq<byte>, net: Net, controller: RpcController?, done: Closure?)
      returns (a: Attempt)
      requires Valid() && key in channels
      modifies this`blocks, channels[key], channels[key].input, channels[key].input.data, controller, done
      ensures Valid() && fresh(blocks - old(blocks))
      ensures done != null ==> done.runs == old(done.runs) + 1
      ensures a.key == key && Reports(a, controller) && ShowsOn(a, controller != null)
    {
      hide AddressOf, Judge, SearchReply, AttemptFrames, CallEnds, SeqAfter, Channel.Valid, Channel.SettledBy;
      var channel := channels[key];
      assert Sound(key, channel);
      var o, attempts, waits := channel.CallMethod(envelope, net.canConnect, net.scripts, controller, done);
      blocks := blocks + {channel.input.data};
      StaysValid(key);
      a := Attempt(key, o, controller != null && controller.failed);
    }

    /** A call through one channel leaves the others as they were. */
    twostate lemma StaysValid(key: string)
      requires old(Valid()) && channels == old(channels) && buffers == old(buffers) && old(blocks) <= blocks
      requires key in channels && Sound(key, channels[key])
      requires channels[key].input.data == old(channels[key].input.data) || fresh(channels[key].input.data)
      requires forall k | k in channels && k != key ::
                 unchanged(channels[k]) && unchanged(channels[k].input) && unchanged(channels[k].input.data)
      ensures Valid()
    {
      hide AddressOf, Channel.Valid;
      forall k | k in channels
        ensures Sound(k, channels[k])
      {
        assert old(Sound(k, channels[k]));
      }
    }

    /** Whether the attempt shows as failed: only on a controller, only if it did fail, and then always
        unless retries are negative. */
    ghost predicate ShowsOn(a: Attempt, hasController: bool) {
      && (a.failed ==> hasController && !a.outcome.Ok?)
      && (hasController && callRetries >= 0 ==> (a.failed <==> !a.outcome.Ok?))
    }

    /** What is left after an attempt: a success was settled by the reply of this very node, and the
        controller shows the outcome. */
    ghost predicate Reports(a: Attempt, controller: RpcController?)
      reads this, channels.Values, controller
    {
      && (a.outcome.Ok? ==>
            a.key in channels && channels[a.key].address == AddressOf(a.key) && channels[a.key].SettledBy(a.outcome))
      && (controller == null ==> !a.failed)
      && (controller != null ==>
            && controller.failed == a.failed
            && (a.failed ==> !a.outcome.Ok? && controller.errorCode == CodeOf(a.outcome))
            && (a.failed && a.outcome == TimedOut ==> controller.errorCode == 3)
            && (a.failed && a.outcome == Closed ==> controller.errorCode == 4)
            && (a.failed && a.outcome.Failed? ==> controller.errorCode == a.outcome.code)
            && (callRetries >= 0 ==> (a.failed <==> !a.outcome.Ok?)))
    }
  }

  class LoadBalanceChannel {
    const balance: BalanceType
    const refreshInterval: int
    const table: ChannelTable
    const roundRobin: RoundRobin
    const consistentHash: ConsistentHash
    var nodes: seq<NodeInfo>
    var lastRefresh: int
    var failedNodeKey: string

    /** Node list, round-robin count and ring agree. */
    ghost predicate Valid()
      reads this, roundRobin, consistentHash
    {
      && roundRobin.nodeCount == |nodes| < WORD
      && consistentHash.nodeKeys == KeysOf(nodes)
      && consistentHash.ring == Ring(consistentHash.hash, consistentHash.virtualNodesPerNode, KeysOf(nodes))
    }

    constructor (balance: BalanceType, refreshInterval: int, hash: Hash, replicas: nat, start: int,
                 world: World, callRetries: int)
      ensures Valid() && nodes == [] && fresh(roundRobin) && fresh(consistentHash)
      ensures table.Valid() && table.channels == map[] && fresh(table) && fresh(table.buffers) && fresh(table.blocks)
      ensures table.world == world && table.callRetries == callRetries
      ensures this.balance == balance && this.refreshInterval == refreshInterval
      ensures consistentHash.hash == hash && consistentHash.virtualNodesPerNode == replicas
    {
      this.balance, this.refreshInterval := balance, refreshInterval;
      table := new ChannelTable(world, callRetries);
      roundRobin := new RoundRobin();
      consistentHash := new ConsistentHash(hash, replicas);
      nodes, lastRefresh, failedNodeKey := [], start, "";
    }

    function List(): Known
      reads this`nodes, this`lastRefresh
    {
      Known(nodes, lastRefresh)
    }

    predicate NeedRefresh(now: int)
      reads this
    {
      nodes == [] || now - lastRefresh >= refreshInterval
    }

    method RefreshNodes(d: Discovery) returns (ok: bool)
      requires Valid()
      requires d.nodes.Some? ==> |d.nodes.value| < WORD
      modifies this`nodes, this`lastRefresh, roundRobin`nodeCount, consistentHash`ring, consistentHash`nodeKeys
      ensures Valid()
      ensures ok == d.nodes.Some? && List() == Told(old(List()), d)
    {
      if d.nodes.None? {
        return false;
      }
      hide NodeKey, Ring, AddressOf;
      nodes := d.nodes.value;
      var keys := CollectKeys(nodes);
      roundRobin.SetNodeCount(|nodes|);
      consistentHash.SetNodes(keys);
      lastRefresh := d.at;
      ok := true;
    }

    /** The first choice: the ring's owner of the request under consistent hashing, otherwise (and for
        an empty request) the next node in turn. */
    method SelectNodeKey(hashKey: string) returns (key: string)
      requires Valid()
      modifies roundRobin`index
      ensures Valid()
      ensures nodes == [] ==> key == ""
      ensures nodes != [] ==> key in KeysOf(nodes)
      ensures nodes != [] && balance == ByConsistentHash && hashKey != "" && consistentHash.virtualNodesPerNode > 0 ==>
                && consistentHash.ring != map[]
                && key == ServedBy(consistentHash.ring, consistentHash.hash(hashKey))
                && roundRobin.index == old(roundRobin.index)
      ensures nodes != [] && (balance == ByRoundRobin || hashKey == "") ==>
                key == NodeKey(nodes[Pick(old(roundRobin.index), 0, |nodes|)])
    {
      hide NodeKey, Ring, AddressOf, Pick, Decimal;
      if nodes == [] {
        return "";
      }
      SelectionIsListed(consistentHash.hash, consistentHash.virtualNodesPerNode, KeysOf(nodes),
                        consistentHash.hash(hashKey));
      if balance == ByConsistentHash && hashKey != "" {
        key := consistentHash.SelectNode(hashKey);
        if key != "" {
          return;
        }
        KeysAreNotEmpty(nodes);
      }
      key := NextInTurn(roundRobin.index, 0);
    }

    /** nodes_[roundRobin_.next() % nodes_.size()], the i-th such choice since the counter stood at start. */
    method NextInTurn(ghost start: u64, ghost i: nat) returns (key: string)
      requires Valid() && nodes != [] && roundRobin.index == (start + i) % WORD
      modifies roundRobin`index
      ensures Valid() && roundRobin.index == (start + i + 1) % WORD
      ensures Pick(start, i, |nodes|) < |nodes| && key == NodeKey(nodes[Pick(start, i, |nodes|)])
      ensures key in KeysOf(nodes)
    {
      hide NodeKey, Ring, AddressOf, Pick;
      PickContinues(start, i, roundRobin.index, |nodes|);
      var j := roundRobin.Next();
      RemUnique(j, |nodes|, 0, j);
      key := NodeKey(nodes[Rem(j, |nodes|)]);
      assert key == KeysOf(nodes)[j];
    }

    /** The second choice: in turn, the first node that is not the one that failed. Among distinct
        nodes there is always one, wherever the counter stands. */
    method SelectNodeKeyForRetry(failedKey: string) returns (key: string)
      requires Valid()
      modifies roundRobin`index
      ensures Valid()
      ensures nodes == [] ==> key == ""
      ensures nodes != [] ==> key in KeysOf(nodes) || key == failedKey
      ensures |nodes| >= 2 && DistinctKeys(nodes) ==> key in KeysOf(nodes) && key != failedKey
    {
      hide NodeKey, Ring, AddressOf, Pick, Decimal, DistinctKeys;
      if nodes == [] {
        return "";
      }
      ghost var start := roundRobin.index;
      for i := 0 to |nodes|
        invariant Valid() && roundRobin.index == (start + i) % WORD
        invariant forall k | 0 <= k < i :: PickedKey(nodes, start, k) == failedKey
      {
        key := NextInTurn(start, i);
        if key != failedKey {
          return;
        }
      }
      key := failedKey;
      if |nodes| >= 2 && DistinctKeys(nodes) {
        AllPicksOneKey(nodes, start, failedKey);
      }
    }

    /** A call with failover. `tried` are the calls made, in order. */
    method CallMethod(envelope: seq<byte>, hashKey: string, now: int, d0: Discovery, d1: Discovery, d2: Discovery,
                      first: Net, second: Net, controller: RpcController?, done: Closure?)
      returns (tried: seq<Attempt>)
      requires Valid() && table.Valid()
      requires d0.nodes.Some? ==> |d0.nodes.value| < WORD
      requires d1.nodes.Some? ==> |d1.nodes.value| < WORD
      requires d2.nodes.Some? ==> |d2.nodes.value| < WORD
      modifies this, roundRobin, consistentHash, table, table.channels.Values, table.buffers, table.blocks
      modifies controller, done
      ensures Valid() && table.Valid()
      ensures fresh(table.channels.Values - old(table.channels.Values))
      ensures fresh(table.buffers - old(table.buffers)) && fresh(table.blocks - old(table.blocks))
      ensures done != null ==> done.runs == old(done.runs) + 1
      ensures var k := if (old(nodes) == [] || now - old(lastRefresh) >= refreshInterval) && d0.nodes.Some?
                       then Known(d0.nodes.value, d0.at) else Known(old(nodes), old(lastRefresh));
              && AttemptsFit(k.nodes, Told(k, d1).nodes, tried, done != null)
              && Follows(k, d1, d2, tried, controller != null && table.callRetries >= 0, done != null, List())
      ensures if |tried| > 0 then table.Reports(tried[|tried| - 1], controller)
              else controller != null ==> controller.failed && controller.errorCode == NO_SERVICE
    {
      hide AttemptsFit, Follows, Valid, ChannelTable.Valid, ChannelTable.Reports;
      tried := [];
      if controller != null {
        controller.Reset();
      }
      EnsureNodes(now, d0);
      if nodes == [] {
        ReportNoService(controller, done);
        NoNodesNoAttempts(List(), d1, d2, controller != null && table.callRetries >= 0, done != null);
        return;
      }
      tried := TryNodes(envelope, hashKey, d1, d2, first, second, controller, done);
    }

    method EnsureNodes(now: int, d: Discovery)
      requires Valid()
      requires d.nodes.Some? ==> |d.nodes.value| < WORD
      modifies this`nodes, this`lastRefresh, roundRobin`nodeCount, consistentHash`ring, consistentHash`nodeKeys
      ensures Valid()
      ensures List() == if (old(nodes) == [] || now - old(lastRefresh) >= refreshInterval) && d.nodes.Some?
                        then Known(d.nodes.value, d.at) else Known(old(nodes), old(lastRefresh))
    {
      hide NodeKey, Ring;
      if NeedRefresh(now) {
        var _ := RefreshNodes(d);
      }
    }

    method ReportNoService(controller: RpcController?, done: Closure?)
      modifies controller, done
      ensures controller != null ==> controller.failed && controller.errorCode == NO_SERVICE
      ensures done != null ==> done.runs == old(done.runs) + 1
    {
      if controller != null {
        controller.SetFailed(NO_SERVICE);
      }
      if done != null {
        done.Run();
      }
    }

    /** The attempts, when there are nodes: the callback goes to every one of them, so with a callback
        there is only one. */
    method TryNodes(envelope: seq<byte>, hashKey: string, d1: Discovery, d2: Discovery,
                    first: Net, second: Net, controller: RpcController?, done: Closure?)
      returns (tried: seq<Attempt>)
      requires Valid() && table.Valid() && nodes != []
      requires d1.nodes.Some? ==> |d1.nodes.value| < WORD
      requires d2.nodes.Some? ==> |d2.nodes.value| < WORD
      modifies this, roundRobin, consistentHash, table, table.channels.Values, table.buffers, table.blocks
      modifies controller, done
      ensures Valid() && table.Valid()
      ensures fresh(table.channels.Values - old(table.channels.Values))
      ensures fresh(table.buffers - old(table.buffers)) && fresh(table.blocks - old(table.blocks))
      ensures done != null ==> done.runs == old(done.runs) + 1
      ensures tried != [] && AttemptsFit(old(nodes), Told(old(List()), d1).nodes, tried, done != null)
      ensures Follows(old(List()), d1, d2, tried, controller != null && table.callRetries >= 0, done != null, List())
      ensures table.Reports(tried[|tried| - 1], controller)
    {
      hide DistinctKeys, KeysOf, Retryable, Valid, ChannelTable.Valid, ChannelTable.Reports;
      var a := FirstAttempt(envelope, hashKey, first, controller, done);
      RetryableByOutcome(a);
      tried := [a];
      if !Retryable(a) || |nodes| <= 1 {
        return;
      }
      NoteFailure(a.key, d1);
      if |nodes| <= 1 || done != null {
        return;
      }
      var b := FailOver(envelope, d2, second, controller, done);
      tried := [a, b];
    }

    method FirstAttempt(envelope: seq<byte>, hashKey: string, net: Net, controller: RpcController?, done: Closure?)
      returns (a: Attempt)
      requires Valid() && table.Valid() && nodes != []
      modifies roundRobin`index, table, table.channels.Values, table.buffers, table.blocks, controller, done
      ensures Valid() && table.Valid() && a.key in KeysOf(nodes)
      ensures table.Reports(a, controller) && table.ShowsOn(a, controller != null)
      ensures fresh(table.channels.Values - old(table.channels.Values))
      ensures fresh(table.buffers - old(table.buffers)) && fresh(table.blocks - old(table.blocks))
      ensures done != null ==> done.runs == old(done.runs) + 1
    {
      hide NodeKey, Ring, Pick, KeysOf, ServedBy, ChannelTable.Valid, ChannelTable.Reports;
      var key := SelectNodeKey(hashKey);
      a := table.CallOn(key, envelope, net, controller, done);
    }

    /** The node may have gone: remember it and ask the registry again. */
    method NoteFailure(key: string, d: Discovery)
      requires Valid()
      requires d.nodes.Some? ==> |d.nodes.value| < WORD
      modifies this, roundRobin`nodeCount, consistentHash`ring, consistentHash`nodeKeys
      ensures Valid() && failedNodeKey == key && List() == Told(old(List()), d)
    {
      hide NodeKey, Ring;
      failedNodeKey := key;
      var _ := RefreshNodes(d);
    }

    /** The second attempt, on another node. */
    method FailOver(envelope: seq<byte>, d2: Discovery, second: Net, controller: RpcController?, done: Closure?)
      returns (b: Attempt)
      requires Valid() && table.Valid() && |nodes| > 1
      requires d2.nodes.Some? ==> |d2.nodes.value| < WORD
      modifies this, roundRobin, consistentHash, table, table.channels.Values, table.buffers, table.blocks
      modifies controller, done
      ensures Valid() && table.Valid() && List() == if Retryable(b) then Told(old(List()), d2) else old(List())
      ensures fresh(table.channels.Values - old(table.channels.Values))
      ensures fresh(table.buffers - old(table.buffers)) && fresh(table.blocks - old(table.blocks))
      ensures done != null ==> done.runs == old(done.runs) + 1
      ensures DistinctKeys(old(nodes)) ==> b.key in KeysOf(old(nodes)) && b.key != old(failedNodeKey)
      ensures table.Reports(b, controller)
    {
      hide DistinctKeys, KeysOf, Retryable, Valid, ChannelTable.Valid, ChannelTable.Reports;
      var key := SelectNodeKeyForRetry(failedNodeKey);
      b := table.CallOn(key, envelope, second, controller, done);
      if Retryable(b) {
        NoteFailure(key, d2);
      }
    }
  }

  /** What happens around one call. */
  datatype Plan = Plan(envelope: seq<byte>, hashKey: string, now: int, d0: Discovery, d1: Discovery, d2: Discovery,
                       first: Net, second: Net)

  ghost predicate Fitting(d: Discovery) {
    d.nodes.Some? ==> |d.nodes.value| < WORD
  }

  /** One of the discoveries around the first n calls gave this list at this time. */
  ghost predicate GivenBy(plans: seq<Plan>, n: nat, k: Known)
    requires n <= |plans|
  {
    exists i | 0 <= i < n :: Discovery(Some(k.nodes), k.at) in {plans[i].d0, plans[i].d1, plans[i].d2}
  }

  /** What the n-th call worked with: nothing, and then it made no attempt; or a list that the registry gave,
      which is younger than the refresh interval, or the answer to this call's own question, or as old as it
      is because that question failed. */
  ghost predicate WorkedWith(plans: seq<Plan>, n: nat, interval: int, tried: seq<Attempt>, k: Known)
    requires n < |plans|
  {
    && (tried == [] <==> k.nodes == [])
    && (tried != [] ==> tried[0].key in KeysOf(k.nodes) && GivenBy(plans, n + 1, k))
    && (tried != [] ==>
          plans[n].now - k.at < interval || plans[n].d0 == Discovery(Some(k.nodes), k.at) || plans[n].d0.nodes == None)
  }

  lemma StillGiven(plans: seq<Plan>, n: nat, k: Known, left: Known)
    requires n < |plans| && (k.nodes != [] ==> GivenBy(plans, n + 1, k))
    requires left == k || left == Told(k, plans[n].d1) || left == Told(Told(k, plans[n].d1), plans[n].d2)
    ensures left.nodes != [] ==> GivenBy(plans, n + 1, left)
  {
    if left != k {
      assert Discovery(Some(left.nodes), left.at) in {plans[n].d0, plans[n].d1, plans[n].d2};
    }
  }

  lemma WorksWith(plans: seq<Plan>, n: nat, interval: int, k0: Known, k: Known, tried: seq<Attempt>, hasDone: bool)
    requires n < |plans| && (k0.nodes != [] ==> GivenBy(plans, n, k0))
    requires var p := plans[n];
             k == if (k0.nodes == [] || p.now - k0.at >= interval) && p.d0.nodes.Some?
                  then Known(p.d0.nodes.value, p.d0.at) else k0
    requires AttemptsFit(k.nodes, Told(k, plans[n].d1).nodes, tried, hasDone)
    ensures k.nodes != [] ==> GivenBy(plans, n + 1, k)
    ensures WorkedWith(plans, n, interval, tried, k)
  {
    if k.nodes != [] {
      if k == k0 {
        var i :| 0 <= i < n && Discovery(Some(k.nodes), k.at) in {plans[i].d0, plans[i].d1, plans[i].d2};
      } else {
        assert Discovery(Some(k.nodes), k.at) in {plans[n].d0, plans[n].d1, plans[n].d2};
      }
    }
  }

  /** A client's whole life: it makes a balancing channel and any number of calls through it, whatever the
      registry and the network do. Node list, round-robin count and ring agree at the end, every channel is
      sound, the callback has run once for every call, and no call worked with a list it should not have. */
  method MakeCalls(balance: BalanceType, refreshInterval: int, hash: Hash, replicas: nat, start: int,
                   world: World, callRetries: int, plans: seq<Plan>, controller: RpcController?, done: Closure?)
    returns (lb: LoadBalanceChannel, calls: seq<seq<Attempt>>, ghost lists: seq<Known>)
    requires forall i | 0 <= i < |plans| :: Fitting(plans[i].d0) && Fitting(plans[i].d1) && Fitting(plans[i].d2)
    modifies controller, done
    ensures fresh(lb) && lb.Valid() && lb.table.Valid()
    ensures done != null ==> done.runs == old(done.runs) + |plans|
    ensures |calls| == |lists| == |plans|
    ensures forall n | 0 <= n < |plans| :: WorkedWith(plans, n, refreshInterval, calls[n], lists[n])
  {
    hide LoadBalanceChannel.Valid, ChannelTable.Valid, ChannelTable.Reports, AttemptsFit, WorkedWith, GivenBy;
    calls, lists := [], [];
    lb := new LoadBalanceChannel(balance, refreshInterval, hash, replicas, start, world, callRetries);
    for n := 0 to |plans|
      invariant lb.Valid() && lb.table.Valid()
      invariant fresh(lb.table.channels.Values) && fresh(lb.table.buffers) && fresh(lb.table.blocks)
      invariant done != null ==> done.runs == old(done.runs) + n
      invariant |calls| == |lists| == n && lb.refreshInterval == refreshInterval
      invariant lb.nodes != [] ==> GivenBy(plans, n, lb.List())
      invariant forall i | 0 <= i < n :: WorkedWith(plans, i, refreshInterval, calls[i], lists[i])
    {
      var p := plans[n];
      ghost var k0 := lb.List();
      ghost var k := if (k0.nodes == [] || p.now - k0.at >= refreshInterval) && p.d0.nodes.Some?
                     then Known(p.d0.nodes.value, p.d0.at) else k0;
      var tried := lb.CallMethod(p.envelope, p.hashKey, p.now, p.d0, p.d1, p.d2, p.first, p.second, controller, done);
      WorksWith(plans, n, refreshInterval, k0, k, tried, done != null);
      StillGiven(plans, n, k, lb.List());
      calls, lists := calls + [tried], lists + [k];
    }
  }

  lemma KeysAreNotEmpty(nodes: seq<NodeInfo>)
    ensures "" !in KeysOf(nodes)
  {
    forall i | 0 <= i < |nodes|
      ensures KeysOf(nodes)[i] != ""
    {
      assert |NodeKey(nodes[i])| > 0;
    }
  }

  /** Distinct nodes cannot all of n consecutive picks share one key. */
  lemma AllPicksOneKey(nodes: seq<NodeInfo>, start: u64, key: string)
    requires 2 <= |nodes| < WORD && DistinctKeys(nodes)
    ensures exists k | 0 <= k < |nodes| :: PickedKey(nodes, start, k) != key
  {
    var avoid := Pick(start, 0, |nodes|);
    var k := PicksVary(start, |nodes|, avoid);
    assert PickedKey(nodes, start, k) != PickedKey(nodes, start, 0);
  }
}
