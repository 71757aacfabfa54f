/** The consistent-hash ring with virtual nodes, for an arbitrary 64-bit hash function. */
module HashRing {
  import opened Bytes
  import opened NodeKeys

  type Hash = string -> u64

  function VirtualName(key: string, i: nat): string {
    key + "#" + Decimal(i)
  }

  /** The first `count` virtual nodes of a key, written over what is on the ring. */
  function AddPoints(hash: Hash, ring: map<u64, string>, key: string, count: nat): map<u64, string> {
    if count == 0 then ring
    else AddPoints(hash, ring, key, count - 1)[hash(VirtualName(key, count - 1)) := key]
  }

  /** The ring of a list of nodes, added one after the other. */
  function Ring(hash: Hash, replicas: nat, nodes: seq<string>): map<u64, string> {
    if nodes == [] then map[]
    else AddPoints(hash, Ring(hash, replicas, nodes[..|nodes| - 1]), nodes[|nodes| - 1], replicas)
  }

  /** std::map::lower_bound on the ring's points. */
  predicate IsLowerBound(points: set<u64>, h: u64, p: u64) {
    p in points && p >= h && forall q | q in points && q >= h :: p <= q
  }

  predicate IsFirst(points: set<u64>, p: u64) {
    p in points && forall q | q in points :: p <= q
  }

  /** How far clockwise a point lies from a hash value. */
  function Clockwise(h: u64, p: u64): nat {
    (p - h) % WORD
  }

  /** p is the point that serves a key hashing to h. */
  ghost predicate Nearest(points: set<u64>, h: u64, p: u64) {
    p in points && forall q | q in points :: Clockwise(h, p) <= Clockwise(h, q)
  }

  lemma {:induction false} FirstExists(points: set<u64>) returns (p: u64)
    requires points != {}
    ensures IsFirst(points, p)
    decreases |points|
  {
    p :| p in points;
    var rest := points - {p};
    assert points == rest + {p};
    if rest != {} {
      assert |rest| < |points|;
      var q := FirstExists(rest);
      if q < p {
        p := q;
      }
    }
  }

  lemma LowerBoundExists(points: set<u64>, h: u64, q0: u64) returns (p: u64)
    requires q0 in points && q0 >= h
    ensures IsLowerBound(points, h, p)
  {
    var above := set q | q in points && q >= h;
    assert q0 in above;
    p := FirstExists(above);
    assert p in above;
    forall q | q in points && q >= h
      ensures p <= q
    {
      assert q in above;
    }
  }

  /** lower_bound, or the first point when lower_bound is past the end, is the nearest clockwise. */
  lemma LookupIsNearest(points: set<u64>, h: u64, p: u64)
    requires IsLowerBound(points, h, p) || (IsFirst(points, p) && forall q | q in points :: q < h)
    ensures Nearest(points, h, p)
  {
  }

  lemma NearestExists(points: set<u64>, h: u64) returns (p: u64)
    requires points != {}
    ensures Nearest(points, h, p)
  {
    if exists q :: q in points && q >= h {
      var q :| q in points && q >= h;
      p := LowerBoundExists(points, h, q);
    } else {
      p := FirstExists(points);
    }
    LookupIsNearest(points, h, p);
  }

  lemma OnlyNearest(points: set<u64>, h: u64, p: u64)
    requires Nearest(points, h, p)
    ensures forall q | Nearest(points, h, q) :: q == p
  {
    forall q | Nearest(points, h, q)
      ensures q == p
    {
      assert Clockwise(h, p) == Clockwise(h, q);
    }
  }

  /** The simple specification of the ring: the owner of the point with the least clockwise
      distance from the hash. */
  ghost function ServedBy(ring: map<u64, string>, h: u64): (node: string)
    requires ring != map[]
    ensures forall p | Nearest(ring.Keys, h, p) :: node == ring[p]
  {
    var p := NearestPoint(ring.Keys, h);
    OnlyNearest(ring.Keys, h, p);
    ring[p]
  }

  ghost function NearestPoint(points: set<u64>, h: u64): (p: u64)
    requires points != {}
    ensures Nearest(points, h, p)
  {
    assert exists p :: Nearest(points, h, p) by {
      var p := NearestExists(points, h);
    }
    var p :| Nearest(points, h, p);
    p
  }

  class ConsistentHash {
    const hash: Hash
    const virtualNodesPerNode: nat
    var ring: map<u64, string>
    var nodeKeys: seq<string>

    constructor (hash: Hash, virtualNodesPerNode: nat)
      ensures this.hash == hash && this.virtualNodesPerNode == virtualNodesPerNode
      ensures ring == map[] && nodeKeys == []
    {
      this.hash, this.virtualNodesPerNode := hash, virtualNodesPerNode;
      ring, nodeKeys := map[], [];
    }

    method SetNodes(keys: seq<string>)
      modifies this`ring, this`nodeKeys
      ensures nodeKeys == keys
      ensures ring == Ring(hash, virtualNodesPerNode, keys)
    {
      ring := map[];
      nodeKeys := keys;
      var j := 0;
      while j < |keys|
        invariant 0 <= j <= |keys| && nodeKeys == keys
        invariant ring == Ring(hash, virtualNodesPerNode, keys[..j])
      {
        ghost var before := ring;
        var i := 0;
        while i < virtualNodesPerNode
          invariant 0 <= i <= virtualNodesPerNode && nodeKeys == keys
          invariant ring == AddPoints(hash, before, keys[j], i)
        {
          ring := ring[hash(VirtualName(keys[j], i)) := keys[j]];
          i := i + 1;
        }
        assert keys[..j + 1][..j] == keys[..j];
        j := j + 1;
      }
      assert keys[..j] == keys;
    }

    /** Lookup refines the simple rule: the owner of the point at the least clockwise distance. */
    method SelectNode(key: string) returns (node: string)
      ensures ring == map[] ==> node == ""
      ensures ring != map[] ==> node == ServedBy(ring, hash(key))
    {
      if |ring| == 0 {
        return "";
      }
      var h := hash(key);
      var p: u64;
      if exists q | q in ring.Keys :: q >= h {
        ghost var q :| q in ring.Keys && q >= h;
        ghost var _ := LowerBoundExists(ring.Keys, h, q);
        p :| p in ring.Keys && IsLowerBound(ring.Keys, h, p);
      } else {
        ghost var _ := FirstExists(ring.Keys);
        p :| p in ring.Keys && IsFirst(ring.Keys, p);
      }
      LookupIsNearest(ring.Keys, h, p);
      node := ring[p];
    }
  }

  // ---- who owns a point ----

  /** Some virtual node of the key hashes to p. */
  predicate Covers(hash: Hash, replicas: nat, key: string, p: u64) {
    exists i | 0 <= i < replicas :: hash(VirtualName(key, i)) == p
  }

  /** nodes[j] is the last listed node with a virtual node at p. */
  predicate LastToCover(hash: Hash, replicas: nat, nodes: seq<string>, j: nat, p: u64) {
    && j < |nodes| && Covers(hash, replicas, nodes[j], p)
    && forall k | j < k < |nodes| :: !Covers(hash, replicas, nodes[k], p)
  }

  lemma {:induction false} AddedPoint(hash: Hash, ring: map<u64, string>, key: string, count: nat, p: u64)
    ensures var r := AddPoints(hash, ring, key, count);
            && (p in r <==> p in ring || Covers(hash, count, key, p))
            && (Covers(hash, count, key, p) ==> r[p] == key)
            && (!Covers(hash, count, key, p) && p in ring ==> r[p] == ring[p])
  {
    if count > 0 {
      AddedPoint(hash, ring, key, count - 1, p);
      if Covers(hash, count - 1, key, p) {
        var i :| 0 <= i < count - 1 && hash(VirtualName(key, i)) == p;
        assert Covers(hash, count, key, p);
      } else if Covers(hash, count, key, p) {
        var i :| 0 <= i < count && hash(VirtualName(key, i)) == p;
        assert i == count - 1;
      }
    }
  }

  /** A point is on the ring exactly when some listed node has a virtual node there, and among
      colliding nodes the last listed one owns it. */
  lemma {:induction false} OwnerIsLastListed(hash: Hash, replicas: nat, nodes: seq<string>, p: u64)
    ensures p in Ring(hash, replicas, nodes) <==>
            exists j | 0 <= j < |nodes| :: Covers(hash, replicas, nodes[j], p)
    ensures p in Ring(hash, replicas, nodes) ==>
            exists j: nat :: LastToCover(hash, replicas, nodes, j, p) && Ring(hash, replicas, nodes)[p] == nodes[j]
  {
    if nodes != [] {
      var n := |nodes| - 1;
      var front := nodes[..n];
      OwnerIsLastListed(hash, replicas, front, p);
      AddedPoint(hash, Ring(hash, replicas, front), nodes[n], replicas, p);
      hide Covers, Ring;
      if Covers(hash, replicas, nodes[n], p) {
        assert LastToCover(hash, replicas, nodes, n, p);
      } else {
        OwnerCarriesOver(hash, replicas, nodes, front, p);
      }
    }
  }

  lemma OwnerCarriesOver(hash: Hash, replicas: nat, nodes: seq<string>, front: seq<string>, p: u64)
    requires nodes != [] && front == nodes[..|nodes| - 1] && !Covers(hash, replicas, nodes[|nodes| - 1], p)
    ensures (exists j | 0 <= j < |nodes| :: Covers(hash, replicas, nodes[j], p)) <==>
            (exists j | 0 <= j < |front| :: Covers(hash, replicas, front[j], p))
    ensures forall j: nat | LastToCover(hash, replicas, front, j, p) ::
              LastToCover(hash, replicas, nodes, j, p)
  {
    hide Covers;
    if exists j | 0 <= j < |nodes| :: Covers(hash, replicas, nodes[j], p) {
      var j :| 0 <= j < |nodes| && Covers(hash, replicas, nodes[j], p);
      assert Covers(hash, replicas, front[j], p);
    }
    if exists j | 0 <= j < |front| :: Covers(hash, replicas, front[j], p) {
      var j :| 0 <= j < |front| && Covers(hash, replicas, front[j], p);
      assert Covers(hash, replicas, nodes[j], p);
    }
  }

  lemma LastHash(front: string, digits: string)
    requires forall i | 0 <= i < |digits| :: IsDigit(digits[i])
    ensures var s := front + "#" + digits;
            s[|front|] == '#' && s[..|front|] == front && s[|front| + 1..] == digits
            && forall i | |front| < i < |s| :: s[i] != '#'
  {
  }

  /** No two virtual nodes have one name, of one node or of several. */
  lemma VirtualNamesDiffer(key: string, i: nat, key': string, i': nat)
    requires VirtualName(key, i) == VirtualName(key', i')
    ensures key == key' && i == i'
  {
    LastHash(key, Decimal(i));
    LastHash(key', Decimal(i'));
    assert |key| == |key'|;
    DecimalReadsBack(i);
    DecimalReadsBack(i');
  }

  /** The points on the ring are the hashes of "key#0", "key#1" and so on, for as many as there are replicas,
      of the listed keys, and no others. */
  lemma PointsAreHashes(hash: Hash, replicas: nat, nodes: seq<string>, p: u64)
    ensures p in Ring(hash, replicas, nodes) <==>
            exists j, i | 0 <= j < |nodes| && 0 <= i < replicas :: hash(nodes[j] + "#" + Decimal(i)) == p
  {
    OwnerIsLastListed(hash, replicas, nodes, p);
    if p in Ring(hash, replicas, nodes) {
      var j :| 0 <= j < |nodes| && Covers(hash, replicas, nodes[j], p);
      var i :| 0 <= i < replicas && hash(VirtualName(nodes[j], i)) == p;
      assert hash(nodes[j] + "#" + Decimal(i)) == p;
    }
    if exists j, i | 0 <= j < |nodes| && 0 <= i < replicas :: hash(nodes[j] + "#" + Decimal(i)) == p {
      var j, i :| 0 <= j < |nodes| && 0 <= i < replicas && hash(nodes[j] + "#" + Decimal(i)) == p;
      assert hash(VirtualName(nodes[j], i)) == p;
      assert Covers(hash, replicas, nodes[j], p);
    }
  }

  /** Every selection is one of the listed nodes; the ring is empty only without nodes or replicas. */
  lemma SelectionIsListed(hash: Hash, replicas: nat, nodes: seq<string>, h: u64)
    ensures Ring(hash, replicas, nodes) == map[] <==> nodes == [] || replicas == 0
    ensures Ring(hash, replicas, nodes) != map[] ==> ServedBy(Ring(hash, replicas, nodes), h) in nodes
  {
    var r := Ring(hash, replicas, nodes);
    if nodes != [] && replicas > 0 {
      var p := hash(VirtualName(nodes[0], 0));
      assert Covers(hash, replicas, nodes[0], p);
      OwnerIsLastListed(hash, replicas, nodes, p);
      assert p in r;
    }
    if r != map[] {
      var p := NearestPoint(r.Keys, h);
      OwnerIsLastListed(hash, replicas, nodes, p);
    }
  }

  // ---- minimal migration ----

  /** r' is r with points of x added or taken over, and nothing else. */
  ghost predicate OnlyAdds(r: map<u64, string>, r': map<u64, string>, x: string) {
    && r.Keys <= r'.Keys
    && forall p | p in r' && r'[p] != x :: p in r && r[p] == r'[p]
  }

  lemma AddPointsOnlyAdds(hash: Hash, r: map<u64, string>, x: string, replicas: nat)
    ensures OnlyAdds(r, AddPoints(hash, r, x, replicas), x)
  {
    var r' := AddPoints(hash, r, x, replicas);
    forall p | p in r || p in r'
      ensures p in r' && (r'[p] != x ==> p in r && r[p] == r'[p])
    {
      AddedPoint(hash, r, x, replicas, p);
    }
  }

  lemma AddPointsKeepsOnlyAdds(hash: Hash, r: map<u64, string>, r': map<u64, string>, x: string, y: string,
                               replicas: nat)
    requires OnlyAdds(r, r', x)
    ensures OnlyAdds(AddPoints(hash, r, y, replicas), AddPoints(hash, r', y, replicas), x)
  {
    var s, s' := AddPoints(hash, r, y, replicas), AddPoints(hash, r', y, replicas);
    forall p | p in s || p in s'
      ensures p in s' && (s'[p] != x ==> p in s && s[p] == s'[p])
    {
      AddedPoint(hash, r, y, replicas, p);
      AddedPoint(hash, r', y, replicas, p);
    }
  }

  lemma {:induction false} InsertionOnlyAdds(hash: Hash, replicas: nat, front: seq<string>, x: string,
                                             back: seq<string>)
    ensures OnlyAdds(Ring(hash, replicas, front + back), Ring(hash, replicas, front + [x] + back), x)
    decreases |back|
  {
    if back == [] {
      assert front + back == front && front + [x] + back == front + [x];
      assert (front + [x])[..|front|] == front;
      AddPointsOnlyAdds(hash, Ring(hash, replicas, front), x, replicas);
    } else {
      var n := |back| - 1;
      InsertionOnlyAdds(hash, replicas, front, x, back[..n]);
      assert (front + back)[..|front| + n] == front + back[..n];
      assert (front + [x] + back)[..|front| + 1 + n] == front + [x] + back[..n];
      AddPointsKeepsOnlyAdds(hash, Ring(hash, replicas, front + back[..n]),
                             Ring(hash, replicas, front + [x] + back[..n]), x, back[n], replicas);
    }
  }

  /** The list with every occurrence of x filtered out. */
  function Without(nodes: seq<string>, x: string): seq<string> {
    if nodes == [] then []
    else
      var front := Without(nodes[..|nodes| - 1], x);
      if nodes[|nodes| - 1] == x then front else front + [nodes[|nodes| - 1]]
  }

  lemma {:induction false} RemovalOnlyTakes(hash: Hash, replicas: nat, nodes: seq<string>, x: string)
    ensures OnlyAdds(Ring(hash, replicas, Without(nodes, x)), Ring(hash, replicas, nodes), x)
    decreases |nodes|
  {
    if nodes != [] {
      var n := |nodes| - 1;
      var front, y := nodes[..n], nodes[n];
      RemovalOnlyTakes(hash, replicas, front, x);
      var r, r' := Ring(hash, replicas, Without(front, x)), Ring(hash, replicas, front);
      if y == x {
        AddPointsOnlyAdds(hash, r', x, replicas);
      } else {
        assert (Without(front, x) + [y])[..|Without(front, x)|] == Without(front, x);
        AddPointsKeepsOnlyAdds(hash, r, r', x, y, replicas);
      }
    }
  }

  lemma ServiceMovesOnlyTo(r: map<u64, string>, r': map<u64, string>, x: string, h: u64)
    requires OnlyAdds(r, r', x) && r' != map[]
    ensures ServedBy(r', h) != x ==> r != map[] && ServedBy(r, h) == ServedBy(r', h)
  {
    var p := NearestPoint(r'.Keys, h);
    if r'[p] != x {
      assert p in r;
      assert Nearest(r.Keys, h, p);
    }
  }

  /** Taking a node out of the list moves no key that it did not own: every key served by another
      node stays where it is, collisions included, for any hash function. */
  lemma RemovalMovesOnlyItsKeys(hash: Hash, replicas: nat, nodes: seq<string>, x: string, h: u64)
    requires Ring(hash, replicas, nodes) != map[]
    requires ServedBy(Ring(hash, replicas, nodes), h) != x
    ensures Ring(hash, replicas, Without(nodes, x)) != map[]
    ensures ServedBy(Ring(hash, replicas, Without(nodes, x)), h) == ServedBy(Ring(hash, replicas, nodes), h)
  {
    RemovalOnlyTakes(hash, replicas, nodes, x);
    ServiceMovesOnlyTo(Ring(hash, replicas, Without(nodes, x)), Ring(hash, replicas, nodes), x, h);
  }

  /** Adding a node at any position of the list moves keys only onto that node. */
  lemma InsertionMovesKeysOnlyToIt(hash: Hash, replicas: nat, front: seq<string>, x: string, back: seq<string>, h: u64)
    requires Ring(hash, replicas, front + back) != map[]
    ensures Ring(hash, replicas, front + [x] + back) != map[]
    ensures var now := ServedBy(Ring(hash, replicas, front + [x] + back), h);
            now == x || now == ServedBy(Ring(hash, replicas, front + back), h)
  {
    InsertionOnlyAdds(hash, replicas, front, x, back);
    var r, r' := Ring(hash, replicas, front + back), Ring(hash, replicas, front + [x] + back);
    var p := NearestPoint(r.Keys, h);
    assert p in r';
    ServiceMovesOnlyTo(r, r', x, h);
  }
}
