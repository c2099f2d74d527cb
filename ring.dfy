/** The ring the coordinator builds: the peers in the order they connected,
    each paired with the peer before it and the peer after it, wrapping
    around at both ends. */
module Ring {
  import opened Addresses

  /** The [left, right] pair the coordinator computes for position `i`, with
      the source's three branches: the first position, the last position, and
      the positions in between. */
  function Neighbours(addrs: seq<Address>, i: nat): (pair: seq<Address>)
    requires 2 <= |addrs| && i < |addrs|
    ensures |pair| == 2
  {
    if i == 0 then [addrs[|addrs| - 1], addrs[i + 1]]
    else if i == |addrs| - 1 then [addrs[i - 1], addrs[0]]
    else [addrs[i - 1], addrs[i + 1]]
  }

  /** The three branches agree with one modular formula: left is (i - 1) mod N,
      right is (i + 1) mod N. */
  lemma NeighboursByModulo(addrs: seq<Address>, i: nat)
    requires 2 <= |addrs| && i < |addrs|
    ensures Neighbours(addrs, i) == [addrs[(i - 1) % |addrs|], addrs[(i + 1) % |addrs|]]
  {
    var n := |addrs|;
    if i == 0 {
      assert (i - 1) % n == n - 1 by { assert i - 1 == -1 * n + (n - 1); }
    } else {
      assert (i - 1) % n == i - 1;
    }
    if i == n - 1 {
      assert (i + 1) % n == 0;
    } else {
      assert (i + 1) % n == i + 1;
    }
  }

  /** For three or more distinct peers the two neighbours differ from each
      other and from the peer itself; for exactly two they coincide. */
  lemma NeighboursDistinct(addrs: seq<Address>, i: nat)
    requires 2 <= |addrs| && i < |addrs| && Distinct(addrs)
    ensures 3 <= |addrs| ==> Neighbours(addrs, i)[0] != Neighbours(addrs, i)[1]
    ensures addrs[i] !in Neighbours(addrs, i)
    ensures |addrs| == 2 ==> Neighbours(addrs, i)[0] == Neighbours(addrs, i)[1]
  {
    var n := |addrs|;
    var pair := Neighbours(addrs, i);
    if i == 0 {
      assert pair == [addrs[n - 1], addrs[1]];
    } else if i == n - 1 {
      assert pair == [addrs[i - 1], addrs[0]];
    } else {
      assert pair == [addrs[i - 1], addrs[i + 1]];
    }
  }

  /** The pairs map after the loop has visited positions 0 .. k-1, starting
      from `m`: each visit stores the pair of that position under its address. */
  function AssignPairs(m: map<Address, seq<Address>>, addrs: seq<Address>, k: nat): (r: map<Address, seq<Address>>)
    requires 2 <= |addrs| && k <= |addrs|
  {
    if k == 0 then m else AssignPairs(m, addrs, k - 1)[addrs[k - 1] := Neighbours(addrs, k - 1)]
  }

  /** After visiting k positions the keys are exactly the old keys plus the
      visited addresses. */
  lemma {:induction false} AssignPairsKeys(m: map<Address, seq<Address>>, addrs: seq<Address>, k: nat)
    requires 2 <= |addrs| && k <= |addrs|
    ensures forall a :: a in AssignPairs(m, addrs, k) <==> a in m || a in addrs[..k]
  {
    if k > 0 {
      AssignPairsKeys(m, addrs, k - 1);
      assert addrs[..k] == addrs[..k - 1] + [addrs[k - 1]];
    }
  }

  /** A key the pass never visits keeps its old value. */
  lemma {:induction false} AssignPairsKeeps(m: map<Address, seq<Address>>, addrs: seq<Address>, k: nat, a: Address)
    requires 2 <= |addrs| && k <= |addrs|
    requires a in m && a !in addrs[..k]
    ensures a in AssignPairs(m, addrs, k) && AssignPairs(m, addrs, k)[a] == m[a]
  {
    if k > 0 {
      assert addrs[..k] == addrs[..k - 1] + [addrs[k - 1]];
      AssignPairsKeeps(m, addrs, k - 1, a);
    }
  }

  /** For distinct addresses each visited address maps to its own position's
      pair: no later visit overwrites it. */
  lemma {:induction false} AssignPairsVisited(m: map<Address, seq<Address>>, addrs: seq<Address>, k: nat, i: nat)
    requires 2 <= |addrs| && k <= |addrs| && Distinct(addrs) && i < k
    ensures addrs[i] in AssignPairs(m, addrs, k)
    ensures AssignPairs(m, addrs, k)[addrs[i]] == Neighbours(addrs, i)
  {
    if i < k - 1 {
      AssignPairsVisited(m, addrs, k - 1, i);
      assert addrs[i] != addrs[k - 1];
    }
  }

  /** What the pairs map holds after visiting k positions: exactly the old keys
      plus the visited addresses; for distinct addresses each visited address
      maps to its own position's pair, and every other key keeps its value. */
  lemma AssignPairsAt(m: map<Address, seq<Address>>, addrs: seq<Address>, k: nat)
    requires 2 <= |addrs| && k <= |addrs|
    ensures forall a :: a in AssignPairs(m, addrs, k) <==> a in m || a in addrs[..k]
    ensures Distinct(addrs) ==>
      forall i :: 0 <= i < k ==> AssignPairs(m, addrs, k)[addrs[i]] == Neighbours(addrs, i)
    ensures forall a :: a in m && a !in addrs[..k] ==> AssignPairs(m, addrs, k)[a] == m[a]
  {
    AssignPairsKeys(m, addrs, k);
    if Distinct(addrs) {
      forall i | 0 <= i < k
        ensures AssignPairs(m, addrs, k)[addrs[i]] == Neighbours(addrs, i)
      {
        AssignPairsVisited(m, addrs, k, i);
      }
    }
    forall a | a in m && a !in addrs[..k]
      ensures AssignPairs(m, addrs, k)[a] == m[a]
    {
      AssignPairsKeeps(m, addrs, k, a);
    }
  }

  /** The ring map of a complete pass over N distinct addresses. */
  function RingMap(m: map<Address, seq<Address>>, addrs: seq<Address>): (r: map<Address, seq<Address>>)
    requires 2 <= |addrs|
  {
    AssignPairs(m, addrs, |addrs|)
  }

  /** Every peer's stored pair is [addr((i - 1) mod N), addr((i + 1) mod N)],
      including the wrap cases at position 0 and position N - 1. */
  lemma RingPairAt(m: map<Address, seq<Address>>, addrs: seq<Address>, i: nat)
    requires 2 <= |addrs| && Distinct(addrs) && i < |addrs|
    ensures addrs[i] in RingMap(m, addrs)
    ensures RingMap(m, addrs)[addrs[i]] == [addrs[(i - 1) % |addrs|], addrs[(i + 1) % |addrs|]]
  {
    AssignPairsAt(m, addrs, |addrs|);
    assert addrs[..|addrs|] == addrs;
    NeighboursByModulo(addrs, i);
  }

  /** The two ends of the ring: the first peer is paired with [last, second],
      the last peer with [previous, first]. */
  lemma RingEnds(m: map<Address, seq<Address>>, addrs: seq<Address>)
    requires 2 <= |addrs| && Distinct(addrs)
    ensures addrs[0] in RingMap(m, addrs) && addrs[|addrs| - 1] in RingMap(m, addrs)
    ensures RingMap(m, addrs)[addrs[0]] == [addrs[|addrs| - 1], addrs[1]]
    ensures RingMap(m, addrs)[addrs[|addrs| - 1]] == [addrs[|addrs| - 2], addrs[0]]
  {
    AssignPairsAt(m, addrs, |addrs|);
    assert addrs[..|addrs|] == addrs;
  }

  /** Position of the right neighbour and of the left neighbour, with the wrap. */
  function After(i: nat, n: nat): (j: nat) { if i + 1 == n then 0 else i + 1 }
  function Before(i: nat, n: nat): (j: nat) requires 0 < n { if i == 0 then n - 1 else i - 1 }

  lemma RingPairIs(m: map<Address, seq<Address>>, addrs: seq<Address>, i: nat)
    requires 2 <= |addrs| && Distinct(addrs) && i < |addrs|
    ensures addrs[i] in RingMap(m, addrs)
    ensures RingMap(m, addrs)[addrs[i]] == [addrs[Before(i, |addrs|)], addrs[After(i, |addrs|)]]
  {
    AssignPairsAt(m, addrs, |addrs|);
    assert addrs[..|addrs|] == addrs;
  }

  /** Ring symmetry: peer j is peer i's right neighbour exactly when peer i is
      peer j's left neighbour, across the wrap at 0 / N - 1 as well. */
  lemma RingSymmetry(m: map<Address, seq<Address>>, addrs: seq<Address>, i: nat, j: nat)
    requires 2 <= |addrs| && Distinct(addrs) && i < |addrs| && j < |addrs|
    ensures addrs[i] in RingMap(m, addrs) && |RingMap(m, addrs)[addrs[i]]| == 2
    ensures addrs[j] in RingMap(m, addrs) && |RingMap(m, addrs)[addrs[j]]| == 2
    ensures RingMap(m, addrs)[addrs[i]][1] == addrs[j] <==> RingMap(m, addrs)[addrs[j]][0] == addrs[i]
  {
    var n := |addrs|;
    RingPairIs(m, addrs, i);
    RingPairIs(m, addrs, j);
    var r, l := After(i, n), Before(j, n);
    // Distinct addresses: equal addresses mean equal positions.
    assert addrs[r] == addrs[j] <==> r == j;
    assert addrs[l] == addrs[i] <==> l == i;
  }
}
