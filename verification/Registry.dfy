/** The service registry: leases that are created, refreshed, given up, read and evicted. */
module Registry {
  import opened Wrappers
  import opened NodeKeys
  import opened NodeOrder

  datatype Entry = Entry(node: NodeInfo, lastHeartbeat: int)

  type ServiceMap = map<string, Entry>
  type Services = map<string, ServiceMap>

  predicate Fresh(e: Entry, now: int, timeout: int) {
    now - e.lastHeartbeat <= timeout
  }

  /** Entries are filed under their own key. */
  ghost predicate WellKeyed(nodes: ServiceMap) {
    forall k | k in nodes :: NodeKey(nodes[k].node) == k
  }

  ghost predicate AllWellKeyed(s: Services) {
    forall svc | svc in s :: WellKeyed(s[svc])
  }

  // ---- the transitions ----

  function NodesOf(s: Services, svc: string): ServiceMap {
    if svc in s then s[svc] else map[]
  }

  /** A service without nodes is not kept. */
  function WithNodes(s: Services, svc: string, nodes: ServiceMap): Services {
    if nodes == map[] then s - {svc} else s[svc := nodes]
  }

  function Registered(s: Services, svc: string, node: NodeInfo, now: int): Services {
    s[svc := NodesOf(s, svc)[NodeKey(node) := Entry(node, now)]]
  }

  function Unregistered(s: Services, svc: string, node: NodeInfo): Services {
    if svc in s then WithNodes(s, svc, s[svc] - {NodeKey(node)}) else s
  }

  predicate Known(s: Services, svc: string, key: string) {
    svc in s && key in s[svc]
  }

  function Refreshed(s: Services, svc: string, node: NodeInfo, now: int): Services {
    var k := NodeKey(node);
    if Known(s, svc, k) then s[svc := s[svc][k := s[svc][k].(lastHeartbeat := now)]] else s
  }

  function LiveNodes(nodes: ServiceMap, now: int, timeout: int): ServiceMap {
    map k | k in nodes && Fresh(nodes[k], now, timeout) :: nodes[k]
  }

  function Purged(s: Services, now: int, timeout: int): Services {
    map svc | svc in s && LiveNodes(s[svc], now, timeout) != map[] :: LiveNodes(s[svc], now, timeout)
  }

  /** What the registry holds for one node of one service. */
  function Look(s: Services, svc: string, key: string): Option<Entry> {
    if Known(s, svc, key) then Some(s[svc][key]) else None
  }

  function NodeSet(nodes: ServiceMap): set<NodeInfo> {
    set k | k in nodes :: nodes[k].node
  }

  /** Because keys determine addresses, the nodes of a service always have distinct addresses. */
  lemma KeysKeepNodesApart(nodes: ServiceMap)
    requires WellKeyed(nodes)
    ensures Distinct(NodeSet(nodes))
  {
    forall a, b | a in NodeSet(nodes) && b in NodeSet(nodes) && a.host == b.host && a.port == b.port
      ensures a == b
    {
      assert NodeKey(a) == NodeKey(b);
    }
  }

  /** Filed by key, a service has as many nodes as entries. */
  lemma {:induction false} NodeSetSize(nodes: ServiceMap)
    requires WellKeyed(nodes)
    ensures |NodeSet(nodes)| == |nodes|
    decreases |nodes|
  {
    if nodes == map[] {
      assert NodeSet(nodes) == {};
    } else {
      var k :| k in nodes;
      var rest := nodes - {k};
      assert |rest| == |nodes| - 1 by {
        assert rest.Keys == nodes.Keys - {k};
      }
      NodeSetSize(rest);
      var n := nodes[k].node;
      assert n !in NodeSet(rest);
      assert NodeSet(nodes) == NodeSet(rest) + {n} by {
        forall m
          ensures m in NodeSet(nodes) <==> m in NodeSet(rest) + {n}
        {
          if m in NodeSet(nodes) && m != n {
            var j :| j in nodes && nodes[j].node == m;
            assert j in rest;
          }
        }
      }
    }
  }

  /** The sweep is done with this service: its live entries are left, and it is gone without any. */
  ghost predicate Swept(before: Services, s: Services, svc: string, now: int, timeout: int) {
    var live := LiveNodes(NodesOf(before, svc), now, timeout);
    NodesOf(s, svc) == live && (svc in s <==> live != map[])
  }

  ghost predicate SweptExcept(before: Services, s: Services, left: set<string>, now: int, timeout: int) {
    && left <= before.Keys && s.Keys <= before.Keys
    && (forall svc | svc in left :: svc in s && s[svc] == before[svc])
    && (forall svc | svc in before && svc !in left :: Swept(before, s, svc, now, timeout))
  }

  lemma SweepOne(before: Services, s: Services, left: set<string>, svc: string, now: int, timeout: int)
    requires SweptExcept(before, s, left, now, timeout) && svc in left
    ensures SweptExcept(before, WithNodes(s, svc, LiveNodes(s[svc], now, timeout)), left - {svc}, now, timeout)
  {
    var s' := WithNodes(s, svc, LiveNodes(s[svc], now, timeout));
    forall other | other in before && other !in left - {svc}
      ensures Swept(before, s', other, now, timeout)
    {
      if other != svc {
        assert Swept(before, s, other, now, timeout);
        assert NodesOf(s', other) == NodesOf(s, other);
      }
    }
  }

  lemma SweptIsPurged(before: Services, s: Services, now: int, timeout: int)
    requires SweptExcept(before, s, {}, now, timeout)
    ensures s == Purged(before, now, timeout)
  {
    var p := Purged(before, now, timeout);
    forall svc
      ensures svc in s <==> svc in p
      ensures svc in s ==> s[svc] == p[svc]
    {
      if svc in before {
        assert Swept(before, s, svc, now, timeout);
      }
    }
  }

  lemma PurgingKeepsValid(s: Services, now: int, timeout: int)
    requires AllWellKeyed(s)
    ensures AllWellKeyed(Purged(s, now, timeout))
    ensures forall svc | svc in Purged(s, now, timeout) :: Purged(s, now, timeout)[svc] != map[]
  {
  }

  class RegistryService {
    var services: Services
    const heartbeatTimeout: int

    ghost predicate Valid()
      reads this
    {
      AllWellKeyed(services) && forall svc | svc in services :: services[svc] != map[]
    }

    constructor (heartbeatTimeout: int)
      ensures Valid() && services == map[] && this.heartbeatTimeout == heartbeatTimeout
    {
      this.heartbeatTimeout := heartbeatTimeout;
      services := map[];
    }

    /** The sweep over all services and nodes, in whatever order the tables are walked. */
    method PurgeExpired(now: int)
      requires Valid()
      modifies this`services
      ensures Valid()
      ensures services == Purged(old(services), now, heartbeatTimeout)
    {
      ghost var before := services;
      var left := services.Keys;
      while left != {}
        invariant SweptExcept(before, services, left, now, heartbeatTimeout)
        decreases left
      {
        var svc :| svc in left;
        SweepOne(before, services, left, svc, now, heartbeatTimeout);
        var nodes := SweepNodes(services[svc], now);
        services := WithNodes(services, svc, nodes);
        left := left - {svc};
      }
      SweptIsPurged(before, services, now, heartbeatTimeout);
      PurgingKeepsValid(before, now, heartbeatTimeout);
    }

    /** The inner loop of the sweep: stale entries are erased one by one. */
    method SweepNodes(nodes: ServiceMap, now: int) returns (live: ServiceMap)
      ensures live == LiveNodes(nodes, now, heartbeatTimeout)
    {
      live := nodes;
      var left := nodes.Keys;
      while left != {}
        invariant left <= nodes.Keys
        invariant live.Keys <= nodes.Keys
        invariant forall k | k in live :: live[k] == nodes[k]
        invariant forall k | k in left :: k in live
        invariant forall k | k in nodes.Keys - left :: k in live <==> Fresh(nodes[k], now, heartbeatTimeout)
        decreases left
      {
        var k :| k in left;
        if now - live[k].lastHeartbeat > heartbeatTimeout {
          live := live - {k};
        }
        left := left - {k};
      }
    }

    method Register(svc: string, node: NodeInfo, now: int)
      requires Valid()
      modifies this`services
      ensures Valid()
      ensures services == Registered(old(services), svc, node, now)
    {
      var nodes := if svc in services then services[svc] else map[];
      nodes := nodes[NodeKey(node) := Entry(node, now)];
      assert NodeKey(node) in nodes;
      services := services[svc := nodes];
    }

    method Unregister(svc: string, node: NodeInfo)
      requires Valid()
      modifies this`services
      ensures Valid()
      ensures services == Unregistered(old(services), svc, node)
    {
      if svc in services {
        var nodes := services[svc] - {NodeKey(node)};
        if nodes == map[] {
          services := services - {svc};
        } else {
          services := services[svc := nodes];
        }
      }
    }

    method Heartbeat(svc: string, node: NodeInfo, now: int) returns (ok: bool)
      requires Valid()
      modifies this`services
      ensures Valid()
      ensures ok <==> Known(old(services), svc, NodeKey(node))
      ensures services == Refreshed(old(services), svc, node, now)
    {
      var key := NodeKey(node);
      if svc !in services || key !in services[svc] {
        return false;
      }
      var entry := services[svc][key];
      services := services[svc := services[svc][key := entry.(lastHeartbeat := now)]];
      ok := true;
    }

    method Discover(svc: string, now: int) returns (list: seq<NodeInfo>)
      requires Valid()
      modifies this`services
      ensures Valid()
      ensures services == Purged(old(services), now, heartbeatTimeout)
      ensures IsListing(list, NodeSet(LiveNodes(NodesOf(old(services), svc), now, heartbeatTimeout)))
    {
      ghost var live := LiveNodes(NodesOf(services, svc), now, heartbeatTimeout);
      PurgeExpired(now);
      var nodes := NodesOf(services, svc);
      assert nodes == live;
      list := SortedNodes(nodes);
    }

    /** Collecting the nodes in table order and sorting them by host and port. */
    method SortedNodes(nodes: ServiceMap) returns (list: seq<NodeInfo>)
      requires WellKeyed(nodes)
      ensures IsListing(list, NodeSet(nodes))
    {
      list := [];
      var left, done := nodes.Keys, {};
      KeysKeepNodesApart(nodes);
      while left != {}
        invariant left <= nodes.Keys && done == nodes.Keys - left
        invariant IsListing(list, set k | k in done :: nodes[k].node)
        decreases left
      {
        var k :| k in left;
        ghost var listed := set j | j in done :: nodes[j].node;
        assert nodes[k].node !in listed;
        assert listed + {nodes[k].node} <= NodeSet(nodes);
        InsertExtendsListing(list, listed, nodes[k].node);
        list := Insert(list, nodes[k].node);
        left, done := left - {k}, done + {k};
        assert (set j | j in done :: nodes[j].node) == listed + {nodes[k].node};
      }
    }

    method LiveNodeCount(svc: string, now: int) returns (live: nat)
      requires Valid()
      ensures live == |LiveNodes(NodesOf(services, svc), now, heartbeatTimeout)|
    {
      if svc !in services {
        return 0;
      }
      live := 0;
      var nodes, left := services[svc], services[svc].Keys;
      ghost var counted: set<string> := {};
      while left != {}
        invariant left <= nodes.Keys
        invariant counted == set k | k in nodes.Keys - left && Fresh(nodes[k], now, heartbeatTimeout)
        invariant live == |counted|
        decreases left
      {
        var k :| k in left;
        left := left - {k};
        if now - nodes[k].lastHeartbeat <= heartbeatTimeout {
          live := live + 1;
          counted := counted + {k};
        }
      }
      assert counted == LiveNodes(nodes, now, heartbeatTimeout).Keys;
    }
  }
}
