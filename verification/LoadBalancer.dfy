/** The round-robin counter. */
module LoadBalancer {
  import opened Bytes

  // ---- round robin ----

  /** Remainder by the number of nodes. */
  function Rem(x: int, n: int): (r: int)
    requires n > 0
    ensures 0 <= r < n
  {
    x % n
  }

  /** The index handed out by the i-th of several consecutive calls of next(), the counter
      starting at `start` and wrapping at 2^64. */
  function Pick(start: u64, i: nat, n: nat): (r: nat)
    requires n > 0
    ensures r < n
  {
    Rem((start + i) % WORD, n)
  }

  lemma RemSplits(x: int, n: int) returns (q: int)
    requires n > 0
    ensures x == q * n + Rem(x, n)
  {
    q := x / n;
  }

  lemma RemUnique(x: int, n: int, q: int, r: int)
    requires n > 0 && x == q * n + r && 0 <= r < n
    ensures Rem(x, n) == r
  {
    hide Rem;
    var k := RemSplits(x, n);
    MultiplesDiffer(k, q, n);
    NoSmallMultiple(k - q, n);
  }

  lemma MultiplesDiffer(a: int, b: int, n: int)
    ensures (a - b) * n == a * n - b * n
  {
  }

  lemma RemShifts(x: int, q: int, n: int)
    requires n > 0
    ensures Rem(x + q * n, n) == Rem(x, n)
  {
    hide Rem;
    var k := RemSplits(x, n);
    MultiplesDiffer(k, -q, n);
    RemUnique(x + q * n, n, k + q, Rem(x, n));
  }

  /** The word counter of the i-th call. */
  lemma CounterContinues(start: u64, i: nat, index: u64)
    requires index == (start + i) % WORD
    ensures (index + 1) % WORD == (start + i + 1) % WORD
  {
  }

  lemma PickContinues(start: u64, i: nat, index: u64, n: nat)
    requires n > 0 && index == (start + i) % WORD
    ensures Pick(index, 0, n) == Pick(start, i, n)
    ensures (index + 1) % WORD == (start + i + 1) % WORD
  {
    hide Rem;
    CounterContinues(start, i, index);
  }

  class RoundRobin {
    var index: u64
    var nodeCount: u64

    constructor ()
      ensures index == 0 && nodeCount == 0
    {
      index, nodeCount := 0, 0;
    }

    method SetNodeCount(n: u64)
      modifies this`nodeCount
      ensures nodeCount == n
    {
      nodeCount := n;
    }

    method Next() returns (i: nat)
      modifies this`index
      ensures nodeCount == 0 ==> i == 0 && index == old(index)
      ensures nodeCount > 0 ==> i == Pick(old(index), 0, nodeCount) && i < nodeCount
      ensures nodeCount > 0 ==> i == old(index) % nodeCount
      ensures nodeCount > 0 ==> index == (old(index) + 1) % WORD
    {
      if nodeCount == 0 {
        return 0;
      }
      hide Rem;
      assert (index + 0) % WORD == index;
      i := Rem(index, nodeCount);
      index := (index + 1) % WORD;
    }
  }

  /** Among n consecutive calls exactly one hands out j. */
  ghost predicate HitOnce(start: u64, n: nat, j: nat)
    requires n > 0
  {
    exists i | 0 <= i < n ::
      Pick(start, i, n) == j && forall k | 0 <= k < n && Pick(start, k, n) == j :: k == i
  }

  /** n consecutive calls on n nodes hand out every index exactly once. */
  ghost predicate EachExactlyOnce(start: u64, n: nat)
    requires n > 0
  {
    forall j | 0 <= j < n :: HitOnce(start, n, j)
  }

  /** As long as nothing disturbs the residues, the i-th pick is (start + i) mod n. */
  lemma PickIsShift(start: u64, i: nat, n: nat)
    requires n > 0
    requires start + i < WORD || (Rem(WORD, n) == 0 && i < WORD)
    ensures Pick(start, i, n) == Rem(start + i, n)
  {
    hide Rem;
    if start + i >= WORD {
      var c := RemSplits(WORD, n);
      assert (start + i) % WORD == start + i - WORD;
      RemShifts(start + i - WORD, c, n);
    }
  }

  lemma ResiduesDistinct(start: int, i: nat, k: nat, n: nat)
    requires n > 0 && i < n && k < n
    requires Rem(start + i, n) == Rem(start + k, n)
    ensures i == k
  {
    hide Rem;
    var a := RemSplits(start + i, n);
    var b := RemSplits(start + k, n);
    MultiplesDiffer(a, b, n);
    NoSmallMultiple(a - b, n);
  }

  lemma ResidueHit(start: int, j: nat, n: nat)
    requires n > 0 && j < n
    ensures Rem(start + Rem(j - start, n), n) == j
  {
    hide Rem;
    var i := Rem(j - start, n);
    var q := RemSplits(j - start, n);
    MultiplesDiffer(0, q, n);
    RemUnique(start + i, n, -q, j);
  }

  lemma EvenWhenUndisturbed(start: u64, n: nat)
    requires 0 < n <= WORD
    requires start + n <= WORD || Rem(WORD, n) == 0
    ensures EachExactlyOnce(start, n)
  {
    hide Rem, Pick;
    forall j | 0 <= j < n
      ensures HitOnce(start, n, j)
    {
      var i := Rem(j - start, n);
      ResidueHit(start, j, n);
      PickIsShift(start, i, n);
      forall k | 0 <= k < n && Pick(start, k, n) == j
        ensures k == i
      {
        PickIsShift(start, k, n);
        ResiduesDistinct(start, k, i, n);
      }
    }
  }

  /** When the counter wraps inside the window and n does not divide 2^64, two of the n calls hand
      out the same index. */
  lemma RepeatsAcrossWrap(start: u64, n: nat) returns (i: nat, k: nat)
    requires 0 < n <= WORD
    requires start + n > WORD && Rem(WORD, n) != 0
    ensures i < n && k < n && i != k
    ensures Pick(start, i, n) == Pick(start, k, n)
  {
    hide Rem;
    var left, r := WORD - start, Rem(WORD, n);
    var c := RemSplits(WORD, n);
    if r >= left {
      i, k := 0, r;
      RemShifts(r - left, c, n);
      RemUnique(r - left, n, 0, r - left);
      assert (start + r) % WORD == r - left;
      assert (start + 0) % WORD == start;
    } else {
      i, k := left - r, left;
      RemShifts(0, c, n);
      assert (start + i) % WORD == c * n;
      assert (start + k) % WORD == 0;
    }
  }

  /** Round robin is even over any n consecutive calls exactly when the 64-bit counter does not wrap
      among them, or wraps without a jump because n divides 2^64. */
  lemma RoundRobinEvenExactly(start: u64, n: nat)
    requires 0 < n <= WORD
    ensures EachExactlyOnce(start, n) <==> start + n <= WORD || Rem(WORD, n) == 0
  {
    hide Rem, Pick;
    if start + n <= WORD || Rem(WORD, n) == 0 {
      EvenWhenUndisturbed(start, n);
    } else {
      var i, k := RepeatsAcrossWrap(start, n);
      var j := Pick(start, i, n);
      assert Pick(start, k, n) == j && !HitOnce(start, n, j);
    }
  }

  /** Three nodes, the counter at its last value: two of the next three calls go to one node. */
  lemma UnevenAtTheWrap()
    ensures !EachExactlyOnce(0xFFFF_FFFF_FFFF_FFFF, 3)
  {
    RoundRobinEvenExactly(0xFFFF_FFFF_FFFF_FFFF, 3);
  }

  lemma NeighboursDiffer(start: u64, i: nat, n: nat)
    requires 2 <= n && start + i + 1 < WORD
    ensures Pick(start, i, n) != Pick(start, i + 1, n)
  {
    hide Rem, Pick;
    PickIsShift(start, i, n);
    PickIsShift(start, i + 1, n);
    if Rem(start + i, n) == Rem(start + i + 1, n) {
      ResiduesDistinct(start + i, 0, 1, n);
    }
  }

  /** Whatever the counter, wrapping or not, n >= 2 consecutive calls do not all give one index. */
  lemma PicksVary(start: u64, n: nat, avoid: nat) returns (i: nat)
    requires 2 <= n <= WORD
    ensures i < n && Pick(start, i, n) != avoid
  {
    if start + 1 < WORD {
      hide Pick;
      NeighboursDiffer(start, 0, n);
      i := if Pick(start, 0, n) != avoid then 0 else 1;
    } else if n == 2 {
      assert Pick(start, 0, 2) == 1 && Pick(start, 1, 2) == 0;
      i := if avoid != 1 then 0 else 1;
    } else {
      hide Rem;
      RemUnique(0, n, 0, 0);
      RemUnique(1, n, 0, 1);
      assert Pick(start, 1, n) == 0 && Pick(start, 2, n) == 1;
      i := if avoid != 0 then 1 else 2;
    }
  }
}
