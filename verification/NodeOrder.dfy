/** The order in which discovered nodes are listed: by host, then by port. */
module NodeOrder {
  import opened NodeKeys

  /** operator< of std::string. */
  predicate StringLess(a: string, b: string)
    decreases |a|
  {
    b != [] && (a == [] || a[0] < b[0] || (a[0] == b[0] && StringLess(a[1..], b[1..])))
  }

  /** operator< of std::pair<host, port>. */
  predicate NodeLess(a: NodeInfo, b: NodeInfo) {
    StringLess(a.host, b.host) || (!StringLess(b.host, a.host) && a.port < b.port)
  }

  lemma {:induction false} StringOrderTotal(a: string, b: string)
    ensures a == b <==> !StringLess(a, b) && !StringLess(b, a)
    ensures !(StringLess(a, b) && StringLess(b, a))
    decreases |a|
  {
    if a != [] && b != [] && a[0] == b[0] {
      StringOrderTotal(a[1..], b[1..]);
      assert a == [a[0]] + a[1..] && b == [b[0]] + b[1..];
    }
  }

  lemma {:induction false} StringOrderTransitive(a: string, b: string, c: string)
    requires StringLess(a, b) && StringLess(b, c)
    ensures StringLess(a, c)
    decreases |a|
  {
    if a != [] && a[0] == b[0] && b[0] == c[0] {
      StringOrderTransitive(a[1..], b[1..], c[1..]);
    }
  }

  /** NodeLess orders nodes strictly and totally, up to their names. */
  lemma NodeOrderTotal(a: NodeInfo, b: NodeInfo)
    ensures !NodeLess(a, b) && !NodeLess(b, a) <==> a.host == b.host && a.port == b.port
    ensures !(NodeLess(a, b) && NodeLess(b, a))
  {
    StringOrderTotal(a.host, b.host);
  }

  lemma NodeOrderTransitive(a: NodeInfo, b: NodeInfo, c: NodeInfo)
    requires NodeLess(a, b) && NodeLess(b, c)
    ensures NodeLess(a, c)
  {
    StringOrderTotal(a.host, b.host);
    StringOrderTotal(b.host, c.host);
    if StringLess(a.host, b.host) && StringLess(b.host, c.host) {
      StringOrderTransitive(a.host, b.host, c.host);
    }
    StringOrderTotal(a.host, c.host);
  }

  /** Strings go by the first character that differs; a string comes before its extensions. */
  lemma {:induction false} StringOrderIsLexicographic(a: string, b: string)
    ensures StringLess(a, b) <==>
            exists k | 0 <= k <= |a| && k <= |b| ::
              a[..k] == b[..k] && k < |b| && (k == |a| || a[k] < b[k])
    decreases |a|
  {
    forall k | 0 < k <= |a| && k <= |b| && a[..k] == b[..k]
      ensures a[0] == b[0]
    {
      assert a[0] == a[..k][0] && b[0] == b[..k][0];
    }
    if a != [] && b != [] && a[0] == b[0] {
      StringOrderIsLexicographic(a[1..], b[1..]);
      if StringLess(a, b) {
        var k :| 0 <= k <= |a[1..]| && k <= |b[1..]| && a[1..][..k] == b[1..][..k]
                 && k < |b[1..]| && (k == |a[1..]| || a[1..][k] < b[1..][k]);
        assert a[..k + 1] == [a[0]] + a[1..][..k] && b[..k + 1] == [b[0]] + b[1..][..k];
      }
      if exists k | 0 <= k <= |a| && k <= |b| :: a[..k] == b[..k] && k < |b| && (k == |a| || a[k] < b[k]) {
        var k :| 0 <= k <= |a| && k <= |b| && a[..k] == b[..k] && k < |b| && (k == |a| || a[k] < b[k]);
        assert k > 0;
        assert a[1..][..k - 1] == a[..k][1..] && b[1..][..k - 1] == b[..k][1..];
      }
    } else {
      assert a[..0] == b[..0];
    }
  }

  ghost predicate StrictlySorted(list: seq<NodeInfo>) {
    forall i, j | 0 <= i < j < |list| :: NodeLess(list[i], list[j])
  }

  /** list presents exactly these nodes, in order and without repetition. */
  ghost predicate IsListing(list: seq<NodeInfo>, nodes: set<NodeInfo>) {
    StrictlySorted(list) && forall n :: n in list <==> n in nodes
  }

  /** No two nodes share host and port. */
  ghost predicate Distinct(nodes: set<NodeInfo>) {
    forall a, b | a in nodes && b in nodes && a.host == b.host && a.port == b.port :: a == b
  }

  /** Where n goes in a sorted list; used by the insertion step below. */
  function Insert(list: seq<NodeInfo>, n: NodeInfo): seq<NodeInfo> {
    if list == [] then [n]
    else if NodeLess(n, list[0]) then [n] + list
    else [list[0]] + Insert(list[1..], n)
  }

  lemma {:induction false} InsertMembers(list: seq<NodeInfo>, n: NodeInfo)
    ensures forall m :: m in Insert(list, n) <==> m in list || m == n
    ensures |Insert(list, n)| == |list| + 1
  {
    if list != [] && !NodeLess(n, list[0]) {
      InsertMembers(list[1..], n);
      assert list == [list[0]] + list[1..];
    }
  }

  lemma {:induction false} InsertKeepsSorted(list: seq<NodeInfo>, n: NodeInfo)
    requires StrictlySorted(list)
    requires forall m | m in list :: m.host != n.host || m.port != n.port
    ensures StrictlySorted(Insert(list, n))
  {
    if list != [] {
      NodeOrderTotal(n, list[0]);
      if NodeLess(n, list[0]) {
        forall j | 0 <= j < |list|
          ensures NodeLess(n, list[j])
        {
          if j > 0 {
            NodeOrderTransitive(n, list[0], list[j]);
          }
        }
      } else {
        assert list[0] in list;
        InsertKeepsSorted(list[1..], n);
        InsertMembers(list[1..], n);
        var tail := Insert(list[1..], n);
        forall j | 0 <= j < |tail|
          ensures NodeLess(list[0], tail[j])
        {
          assert tail[j] in tail;
        }
      }
    }
  }

  /** Inserting one more distinct node gives the listing of the larger set. */
  lemma InsertExtendsListing(list: seq<NodeInfo>, nodes: set<NodeInfo>, n: NodeInfo)
    requires IsListing(list, nodes) && n !in nodes && Distinct(nodes + {n})
    ensures IsListing(Insert(list, n), nodes + {n})
  {
    InsertMembers(list, n);
    InsertKeepsSorted(list, n);
  }

  lemma SortedHasNoRepeats(list: seq<NodeInfo>)
    requires StrictlySorted(list)
    ensures forall i, j | 0 <= i < j < |list| :: list[i] != list[j]
  {
    forall i, j | 0 <= i < j < |list|
      ensures list[i] != list[j]
    {
      NodeOrderTotal(list[i], list[j]);
    }
  }

  /** A set of nodes has one listing only: the answer does not depend on the order in which the
      hash table happens to be walked. */
  lemma {:induction false} ListingIsUnique(a: seq<NodeInfo>, b: seq<NodeInfo>, nodes: set<NodeInfo>)
    requires IsListing(a, nodes) && IsListing(b, nodes)
    ensures a == b
    decreases |a|
  {
    ListingSize(a, nodes);
    ListingSize(b, nodes);
    if a != [] {
      assert a[0] in a && a[0] in b;
      assert b[0] in b && b[0] in a;
      var i :| 0 <= i < |b| && b[i] == a[0];
      var j :| 0 <= j < |a| && a[j] == b[0];
      NodeOrderTotal(a[0], b[0]);
      assert a[0] == b[0];
      TailIsListing(a, nodes);
      TailIsListing(b, nodes);
      ListingIsUnique(a[1..], b[1..], nodes - {a[0]});
      assert a == [a[0]] + a[1..] && b == [b[0]] + b[1..];
    }
  }

  lemma TailIsListing(list: seq<NodeInfo>, nodes: set<NodeInfo>)
    requires IsListing(list, nodes) && list != []
    ensures IsListing(list[1..], nodes - {list[0]})
  {
    SortedHasNoRepeats(list);
    assert list == [list[0]] + list[1..];
    forall n
      ensures n in list[1..] <==> n in nodes - {list[0]}
    {
      if n in list[1..] {
        var i :| 0 <= i < |list[1..]| && list[1..][i] == n;
        assert list[i + 1] == n;
        assert n in list;
      }
    }
  }

  lemma {:induction false} ListingExists(nodes: set<NodeInfo>) returns (list: seq<NodeInfo>)
    requires Distinct(nodes)
    ensures IsListing(list, nodes)
    decreases |nodes|
  {
    if nodes == {} {
      list := [];
    } else {
      var n :| n in nodes;
      var rest := nodes - {n};
      assert |rest| < |nodes| && rest + {n} == nodes;
      var front := ListingExists(rest);
      InsertExtendsListing(front, rest, n);
      list := Insert(front, n);
    }
  }

  /** The listing of a set of nodes with distinct addresses. */
  ghost function Listing(nodes: set<NodeInfo>): (list: seq<NodeInfo>)
    requires Distinct(nodes)
    ensures IsListing(list, nodes)
  {
    assert exists list :: IsListing(list, nodes) by {
      var list := ListingExists(nodes);
    }
    var list :| IsListing(list, nodes);
    list
  }

  /** Of two listed nodes the one with the smaller host comes first, and on one host the one with the
      smaller port. */
  lemma ListedByHostThenPort(list: seq<NodeInfo>, nodes: set<NodeInfo>, i: nat, j: nat)
    requires IsListing(list, nodes) && i < |list| && j < |list|
    ensures StringLess(list[i].host, list[j].host) ==> i < j
    ensures list[i].host == list[j].host && list[i].port < list[j].port ==> i < j
  {
    StringOrderTotal(list[i].host, list[j].host);
    NodeOrderTotal(list[i], list[j]);
    if j < i {
      assert NodeLess(list[j], list[i]);
    }
  }

  /** A listing has as many entries as the set has nodes. */
  lemma {:induction false} ListingSize(list: seq<NodeInfo>, nodes: set<NodeInfo>)
    requires IsListing(list, nodes)
    ensures |list| == |nodes|
    decreases |list|
  {
    if list == [] {
      assert forall n :: n !in nodes;
      assert nodes == {};
    } else {
      TailIsListing(list, nodes);
      ListingSize(list[1..], nodes - {list[0]});
      assert list[0] in nodes;
    }
  }
}
