/** The two sides of the control channel and of the ring channel put
    together: what the coordinator's checks make of the peer's replies, and
    where the ring sends the token. */
module Protocol {
  import opened Addresses
  import opened Wire
  import opened Ring
  import opened Coordinator
  import opened Peer

  /** GET_PORT round trip: the coordinator's check yields exactly the port
      the peer was started with, and nothing when that port is None. */
  lemma PortRoundTrip(port: Option<int>, ready: bool, stats: Stats)
    ensures PortOf(ControlReply(Some(Coded(GetPort)), port, ready, stats)) == port
  {
  }

  /** GET_READY round trip: the coordinator's check yields the peer's
      readiness flag. */
  lemma ReadyRoundTrip(port: Option<int>, ready: bool, stats: Stats)
    ensures ReadyOf(ControlReply(Some(Coded(GetReady)), port, ready, stats)) == Some(ready)
  {
  }

  /** POST_BEGIN round trip: the peer's reply is accepted, so readyToStart is
      set on the coordinator's side. */
  lemma BeginRoundTrip(port: Option<int>, ready: bool, stats: Stats)
    ensures HasCode(ControlReply(Some(Coded(PostBegin)), port, ready, stats), BeginResponse)
  {
  }

  /** A POST_PAIRS that also carries a `mode` key is acknowledged. */
  lemma PairsWithModeRoundTrip(pair: seq<Address>, mode: Field<string>, first: Field<Address>,
                               port: Option<int>, ready: bool, stats: Stats)
    requires !mode.Absent?
    ensures TakesPairs(Some(PairsRequest(pair).(mode := mode, first := first)))
    ensures HasCode(
      ControlReply(Some(PairsRequest(pair).(mode := mode, first := first)), port, ready, stats),
      PostPairResponse)
  {
  }

  /** The POST_PAIRS request the coordinator builds has no `mode` key, so the
      peer neither takes the pairs nor replies, and no round trip of the
      coordinator's send_pairs is ever acknowledged. */
  lemma CoordinatorPairsUnanswered(pair: seq<Address>, port: Option<int>, ready: bool, stats: Stats)
    ensures !TakesPairs(Some(PairsRequest(pair)))
    ensures ControlReply(Some(PairsRequest(pair)), port, ready, stats) == None
    ensures !HasCode(ControlReply(Some(PairsRequest(pair)), port, ready, stats), PostPairResponse)
  {
  }

  /** Around a ring of three or more distinct peers the token keeps its
      direction: peer j, handed the token by its left neighbour, names its
      right neighbour as the next holder (and the other way round), and peer
      j is the left neighbour of that next holder. */
  lemma TokenKeepsDirection(m: map<Address, seq<Address>>, addrs: seq<Address>, j: nat)
    requires 3 <= |addrs| && Distinct(addrs) && j < |addrs|
    ensures addrs[j] in RingMap(m, addrs) && addrs[After(j, |addrs|)] in RingMap(m, addrs)
    ensures |RingMap(m, addrs)[addrs[After(j, |addrs|)]]| == 2
    ensures var nbrs := AppendNew([], RingMap(m, addrs)[addrs[j]]);
      var left, right := addrs[Before(j, |addrs|)], addrs[After(j, |addrs|)];
      OtherNeighbour(nbrs, left) == Some(right) && OtherNeighbour(nbrs, right) == Some(left)
    ensures RingMap(m, addrs)[addrs[After(j, |addrs|)]][0] == addrs[j]
  {
    var n := |addrs|;
    var left, right := addrs[Before(j, n)], addrs[After(j, n)];
    RingPairIs(m, addrs, j);
    RingPairIs(m, addrs, After(j, n));
    assert Before(After(j, n), n) == j;
    assert Before(j, n) != After(j, n);
    NeighboursOfPair(left, right);
    OtherNeighbourOfPair(left, right, left);
  }

  /** The same through the ring server: a POST_TOKEN that peer j receives
      from its left neighbour makes j the holder with its right neighbour
      next, and is answered. */
  lemma TokenFromLeftGoesRight(v: PeerView, m: map<Address, seq<Address>>, addrs: seq<Address>, j: nat,
                               senderHost: string, port: int)
    requires 3 <= |addrs| && Distinct(addrs) && j < |addrs|
    requires SenderKey(senderHost, port) == addrs[Before(j, |addrs|)]
    ensures addrs[j] in RingMap(m, addrs)
    ensures var nbrs := AppendNew([], RingMap(m, addrs)[addrs[j]]);
      var r := Serve(v, nbrs, senderHost, Some(Coded(PostToken).(port := Present(port))));
      r.after.token == Token(true, Some(addrs[After(j, |addrs|)])) &&
      r.served == Reply(Coded(PostTokenResponse))
  {
    TokenKeepsDirection(m, addrs, j);
  }

  /** In a ring of two peers each peer's pair names the other peer twice, so
      the peer has one neighbour, and a POST_TOKEN from it makes the handler
      raise: no key is left once the sender is removed. */
  lemma TwoPeerRingTokenRaises(m: map<Address, seq<Address>>, addrs: seq<Address>, j: nat)
    requires |addrs| == 2 && Distinct(addrs) && j < 2
    ensures addrs[j] in RingMap(m, addrs)
    ensures AppendNew([], RingMap(m, addrs)[addrs[j]]) == [addrs[1 - j]]
    ensures OtherNeighbour(AppendNew([], RingMap(m, addrs)[addrs[j]]), addrs[1 - j]) == None
  {
    RingPairIs(m, addrs, j);
    NeighboursOfPair(addrs[1 - j], addrs[1 - j]);
    OtherNeighbourOfPair(addrs[1 - j], addrs[1 - j], addrs[1 - j]);
  }
}
