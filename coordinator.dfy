/** The coordinator (manager.py): one `Connected` per accepted peer, which
    talks to that peer over the control channel, and the `Server`, which
    collects N peers, computes the ring and walks the stage machine
    INIT -> WAITING_READY -> READY. The GET_PORT, POST_PAIRS, POST_BEGIN and
    GET_READY round trips are modelled by the decoded response they receive,
    given as a parameter; `SendPairs` and `SendBegin` are fixed to the
    acknowledging reply that ends their retries. */
module Coordinator {
  import opened Addresses
  import opened Wire
  import opened Ring

  // ---------------------------------------------------------------------
  // Response checks of the *_request methods, with the I/O removed.

  /** The readiness a GET_READY round trip yields: the `ready` value of a
      GET_READY_RESPONSE that carries a non-null one, None for anything else. */
  function ReadyOf(response: Option<Message>): (r: Option<bool>)
    ensures r.Some? <==> HasCode(response, GetReadyResponse) && response.value.ready.Present?
    ensures r.Some? ==> response.value.ready == Present(r.value)
  {
    if HasCode(response, GetReadyResponse) && response.value.ready.Present?
    then Some(response.value.ready.value)
    else None
  }

  /** The port a GET_PORT round trip yields: the `port` of a GET_PORT_RESPONSE
      that carries a non-null one, None for anything else. */
  function PortOf(response: Option<Message>): (r: Option<int>)
    ensures r.Some? <==> HasCode(response, GetPortResponse) && response.value.port.Present?
    ensures r.Some? ==> response.value.port == Present(r.value)
  {
    if HasCode(response, GetPortResponse) && response.value.port.Present?
    then Some(response.value.port.value)
    else None
  }


  /** The POST_PAIRS request exactly as the coordinator builds it: a code and
      the pair, nothing else. */
  function PairsRequest(pair: seq<Address>): (m: Message) {
    Coded(PostPairs).(pairs := Present(pair))
  }

  /** Each check accepts nothing but its own response code: the begin
      acknowledgement does not pass for the pairs acknowledgement nor the
      other way round, a readiness or port response under another code yields
      nothing, a null response is rejected by every check, and a well-formed
      response hands back exactly its field. */
  lemma ChecksAcceptOnlyTheirCode(response: Option<Message>, code: string)
    ensures !HasCode(Some(Coded(BeginResponse)), PostPairResponse)
    ensures !HasCode(Some(Coded(PostPairResponse)), BeginResponse)
    ensures HasCode(response, GetPortResponse) ==> ReadyOf(response).None?
    ensures HasCode(response, GetReadyResponse) ==> PortOf(response).None?
    ensures HasCode(response, GetReadyResponse) && response.value.ready.Present? ==>
      ReadyOf(response) == Some(response.value.ready.value)
    ensures HasCode(response, GetPortResponse) && response.value.port.Present? ==>
      PortOf(response) == Some(response.value.port.value)
    ensures response.None? ==> ReadyOf(response).None? && PortOf(response).None? && !HasCode(response, code)
  {
  }

  /** One accepted peer as seen by the coordinator. */
  class Connected {
    const host: string
    var port: Option<int>
    var id: int
    var readyToStart: bool
    var pairs: seq<Address>

    constructor (id: int, host: string)
      ensures this.id == id && this.host == host
      ensures port == None && !readyToStart && pairs == []
    {
      this.id := id;
      this.host := host;
      port := None;
      readyToStart := false;
      pairs := [];
    }

    /** The peer's "host:port" text; "host:None" while the port is unknown. */
    function FullAddress(): (a: Address)
      reads this`port
    {
      AddressText(host, port)
    }

    method SetId(id: int)
      modifies this`id
      ensures this.id == id
    {
      this.id := id;
    }

    /** One GET_PORT round trip: the port is recorded, and true returned, only
      for a GET_PORT_RESPONSE with a non-null port; otherwise the port is
      left as it was. */
    method GetPortRequest(response: Option<Message>) returns (ok: bool)
      modifies this`port
      ensures ok <==> PortOf(response).Some?
      ensures port == if ok then PortOf(response) else old(port)
    {
      ok := false;
      if response.Some? && response.value.code == Present(GetPortResponse) && response.value.port.Present? {
        port := Some(response.value.port.value);
        ok := true;
      }
    }

    /** One POST_PAIRS round trip: readyToStart is set only on a
      POST_PAIR_RESPONSE. */
    method PostPairsRequest(response: Option<Message>) returns (ok: bool)
      modifies this`readyToStart
      ensures ok <==> HasCode(response, PostPairResponse)
      ensures readyToStart == (old(readyToStart) || ok)
    {
      ok := false;
      if response.Some? && response.value.code == Present(PostPairResponse) {
        readyToStart := true;
        ok := true;
      }
    }

    /** One POST_BEGIN round trip: readyToStart is set only on a
      BEGIN_RESPONSE. */
    method PostBeginRequest(response: Option<Message>) returns (ok: bool)
      modifies this`readyToStart
      ensures ok <==> HasCode(response, BeginResponse)
      ensures readyToStart == (old(readyToStart) || ok)
    {
      ok := false;
      if response.Some? && response.value.code == Present(BeginResponse) {
        readyToStart := true;
        ok := true;
      }
    }

    /** send_pairs: records the pair, then retries POST_PAIRS until the peer
      acknowledges; the round trip that ends the retries sets readyToStart. */
    method SendPairs(pair: seq<Address>)
      modifies this`pairs, this`readyToStart
      ensures pairs == pair && readyToStart
    {
      pairs := pair;
      var ok := PostPairsRequest(Some(Coded(PostPairResponse)));
    }

    /** send_begin: retries POST_BEGIN until the peer acknowledges. */
    method SendBegin()
      modifies this`readyToStart
      ensures readyToStart
    {
      var ok := PostBeginRequest(Some(Coded(BeginResponse)));
    }
  }

  /** The addresses of the connections, in connection order. */
  function AddressesOf(cs: seq<Connected>): (addrs: seq<Address>)
    reads cs
    ensures |addrs| == |cs|
  {
    seq(|cs|, i requires 0 <= i < |cs| reads cs => cs[i].FullAddress())
  }

  datatype Stage = Init | WaitingReady | Ready

  function StageRank(s: Stage): (rank: nat) {
    match s
    case Init => 0
    case WaitingReady => 1
    case Ready => 2
  }

  // ---------------------------------------------------------------------
  // The two flag passes of manager.py, as written and as intended.

  /** What a readiness pass leaves in its flag as the code is written: the
      flag is overwritten by every peer, so only the last answer counts. */
  predicate LastReady(answers: seq<bool>) {
    |answers| > 0 && answers[|answers| - 1]
  }

  /** What the readiness barrier is meant to establish: every peer is ready. */
  predicate AllReady(answers: seq<bool>) {
    forall i :: 0 <= i < |answers| ==> answers[i]
  }

  /** The stage after one iteration of the server loop, once all N peers are
      connected: INIT moves to WAITING_READY and, in the same iteration, the
      readiness pass may move it on to READY; READY stays READY. The stage
      never moves backwards, always leaves INIT, and reaches READY exactly
      when it was READY or the readiness pass ended with a true flag. */
  function StageAfter(s: Stage, answers: seq<bool>): (r: Stage)
    ensures StageRank(r) >= StageRank(s) && r != Init
    ensures r == Ready <==> s == Ready || LastReady(answers)
  {
    match s
    case Ready => Ready
    case _ => if LastReady(answers) then Ready else WaitingReady
  }

  /** The readiness pass as written (manager.py:154-156): the flag starts
      false and each peer's answer overwrites it. */
  method ReadinessPass(answers: seq<bool>) returns (flag: bool)
    ensures flag == LastReady(answers)
  {
    flag := false;
    var i := 0;
    while i < |answers|
      invariant 0 <= i <= |answers|
      invariant flag == (i > 0 && answers[i - 1])
    {
      flag := answers[i];
      i := i + 1;
    }
  }

  /** The readiness pass as intended: the flag is true after the pass exactly
      when every peer answered true. */
  method AllReadyPass(answers: seq<bool>) returns (flag: bool)
    ensures flag == AllReady(answers)
  {
    flag := true;
    var i := 0;
    while i < |answers|
      invariant 0 <= i <= |answers|
      invariant flag == AllReady(answers[..i])
    {
      assert answers[..i + 1] == answers[..i] + [answers[i]];
      flag := flag && answers[i];
      i := i + 1;
    }
    assert answers[..i] == answers;
  }

  /** With the flag overwritten, a first peer that is not ready is missed. */
  lemma ReadinessPassMissesEarlierPeer()
    ensures LastReady([false, true]) && !AllReady([false, true])
  {
    assert [false, true][0] == false;
  }

  /** The intended pass says ready only when the overwriting pass does too
      (but not conversely). */
  lemma AllReadyImpliesLastReady(answers: seq<bool>)
    requires |answers| > 0
    ensures AllReady(answers) ==> LastReady(answers)
  {
  }

  /** What one pass of the port wait leaves in its flag as the code is
      written (manager.py:119-122): the flag starts true and each connection
      overwrites it, so only the last connection's port counts. */
  predicate LastPortMissing(ports: seq<Option<int>>) {
    |ports| == 0 || ports[|ports| - 1].None?
  }

  /** What the port wait is meant to test: some connection has no port yet. */
  predicate AnyPortMissing(ports: seq<Option<int>>) {
    exists i :: 0 <= i < |ports| && ports[i].None?
  }

  /** The port wait stops while an earlier peer's port is still unknown. */
  lemma PortWaitMissesEarlierPeer()
    ensures !LastPortMissing([None, Some(9002)]) && AnyPortMissing([None, Some(9002)])
  {
    assert [None, Some(9002)][0].None?;
  }

  /** The ring computed after such an early exit pairs a peer with the text
      "host:None": when the first connection's port is still unknown, its key
      in the ring map is that text, and the second peer's left neighbour is
      that text too. */
  lemma EarlyExitAddressHasNoPort(m: map<Address, seq<Address>>, cs: seq<Connected>)
    requires 2 <= |cs| && cs[0].port.None? && Distinct(AddressesOf(cs))
    ensures cs[0].host + ":None" in RingMap(m, AddressesOf(cs))
    ensures AddressesOf(cs)[1] in RingMap(m, AddressesOf(cs))
    ensures |RingMap(m, AddressesOf(cs))[AddressesOf(cs)[1]]| == 2
    ensures RingMap(m, AddressesOf(cs))[AddressesOf(cs)[1]][0] == cs[0].host + ":None"
  {
    var addrs := AddressesOf(cs);
    assert addrs[0] == AddressText(cs[0].host, None);
    AddressTextParts(cs[0].host, None);
    RingPairIs(m, addrs, 0);
    RingPairIs(m, addrs, 1);
  }

  // ---------------------------------------------------------------------

  class Server {
    const maxConnections: nat
    var connections: seq<Connected>
    var pairs: map<Address, seq<Address>>
    var stage: Stage

    /** At most N connections, each a different object. */
    ghost predicate Valid()
      reads this
    {
      |connections| <= maxConnections &&
      forall i, j :: 0 <= i < j < |connections| ==> connections[i] != connections[j]
    }

    /** The ports of the connections, in connection order. */
    function Ports(): (ports: seq<Option<int>>)
      reads this, connections
      ensures |ports| == |connections|
    {
      seq(|connections|, i requires 0 <= i < |connections| reads this, connections => connections[i].port)
    }

    constructor (maxConnections: nat)
      ensures Valid() && this.maxConnections == maxConnections
      ensures connections == [] && pairs == map[] && stage == Init
    {
      this.maxConnections := maxConnections;
      connections := [];
      pairs := map[];
      stage := Init;
    }

    /** Accepting a peer appends a new connection whose id is its arrival
      index and whose port is not known yet. */
    method Accept(host: string) returns (c: Connected)
      requires Valid() && |connections| < maxConnections
      modifies this`connections
      ensures Valid() && fresh(c)
      ensures connections == old(connections) + [c]
      ensures c.id == old(|connections|) && c.host == host && c.port == None && !c.readyToStart && c.pairs == []
    {
      c := new Connected(|connections|, host);
      connections := connections + [c];
    }

    /** One pass of the port wait as written: the flag ends up saying whether
      the LAST connection's port is unknown. */
    method PortWaitPass() returns (flag: bool)
      ensures flag == LastPortMissing(Ports())
    {
      flag := true;
      var i := 0;
      while i < |connections|
        invariant 0 <= i <= |connections|
        invariant flag == (i == 0 || connections[i - 1].port.None?)
      {
        flag := connections[i].port.None?;
        i := i + 1;
      }
    }

    /** One pass of the port wait as intended: the flag says whether any
      connection's port is unknown. */
    method PortsPendingPass() returns (flag: bool)
      ensures flag == AnyPortMissing(Ports())
    {
      flag := false;
      var i := 0;
      while i < |connections|
        invariant 0 <= i <= |connections|
        invariant flag == exists k :: 0 <= k < i && connections[k].port.None?
      {
        flag := flag || connections[i].port.None?;
        i := i + 1;
      }
      assert forall k :: 0 <= k < |connections| ==> Ports()[k] == connections[k].port;
    }

    /** One visit of the calculate_pairs loop: connection i takes id i, and
      its address is mapped to the pair of position i, with the three
      branches for the first, the last and an inner position. `addrs` holds
      the connections' addresses, which no visit changes. */
    method AssignPosition(c: Connected, i: nat, addrs: seq<Address>)
      requires 2 <= |addrs| && i < |addrs|
      modifies this`pairs, c`id
      ensures c.id == i
      ensures pairs == old(pairs)[addrs[i] := Neighbours(addrs, i)]
    {
      var n := |addrs|;
      c.SetId(i);
      var pair;
      if i == 0 {
        pair := [addrs[n - 1], addrs[i + 1]];
      } else if i == n - 1 {
        pair := [addrs[i - 1], addrs[0]];
      } else {
        pair := [addrs[i - 1], addrs[i + 1]];
      }
      pairs := pairs[addrs[i] := pair];
    }

    /** calculate_pairs after the port wait: every connection's id becomes its
      index, and the pairs map is the ring over the connections' addresses,
      stored position by position. Nothing else about a connection changes. */
    method CalculatePairs()
      requires Valid() && 2 <= |connections|
      modifies this`pairs, connections`id
      ensures Valid()
      ensures pairs == RingMap(old(pairs), old(AddressesOf(connections)))
      ensures forall k :: 0 <= k < |connections| ==>
        connections[k].id == k &&
        connections[k].FullAddress() == old(AddressesOf(connections))[k] &&
        connections[k].port == old(connections[k].port) &&
        connections[k].pairs == old(connections[k].pairs) &&
        connections[k].readyToStart == old(connections[k].readyToStart)
    {
      var cs := connections;
      var addrs := AddressesOf(cs);
      var n := |cs|;
      var i := 0;
      while i < n
        invariant 0 <= i <= n
        invariant pairs == AssignPairs(old(pairs), addrs, i)
        invariant forall k :: 0 <= k < i ==> cs[k].id == k
      {
        AssignPosition(cs[i], i, addrs);
        i := i + 1;
      }
    }

    /** The send_pairs pass of the INIT branch: every peer is sent the pair
      stored under its address, and each send ends with an acknowledged round
      trip. */
    method SendAllPairs(ghost addrs: seq<Address>)
      requires |addrs| == |connections|
      requires forall k :: 0 <= k < |connections| ==>
        connections[k].FullAddress() == addrs[k] && addrs[k] in pairs
      modifies connections
      ensures forall k :: 0 <= k < |connections| ==>
        connections[k].id == old(connections[k].id) &&
        connections[k].port == old(connections[k].port) &&
        connections[k].pairs == pairs[addrs[k]] && connections[k].readyToStart
    {
      var cs := connections;
      var i := 0;
      while i < |cs|
        invariant 0 <= i <= |cs|
        invariant forall k :: 0 <= k < |cs| ==>
          cs[k].id == old(cs[k].id) && cs[k].port == old(cs[k].port) &&
          cs[k].FullAddress() == addrs[k] &&
          (k < i ==> cs[k].pairs == pairs[addrs[k]] && cs[k].readyToStart)
      {
        cs[i].SendPairs(pairs[cs[i].FullAddress()]);
        i := i + 1;
      }
    }

    /** The INIT branch of the server loop: compute the ring, send every peer
      its pair, and move to WAITING_READY. */
    method DistributePairs() returns (ghost addrs: seq<Address>)
      requires Valid() && stage == Init && 2 <= |connections|
      modifies this`pairs, this`stage, connections
      ensures Valid() && stage == WaitingReady
      ensures addrs == old(AddressesOf(connections))
      ensures pairs == RingMap(old(pairs), addrs)
      ensures forall k :: 0 <= k < |connections| ==>
        connections[k].id == k &&
        connections[k].port == old(connections[k].port) &&
        addrs[k] in pairs && connections[k].pairs == pairs[addrs[k]] &&
        connections[k].readyToStart
    {
      addrs := AddressesOf(connections);
      CalculatePairs();
      AssignPairsAt(old(pairs), addrs, |addrs|);
      assert addrs[..|addrs|] == addrs;
      SendAllPairs(addrs);
      stage := WaitingReady;
    }

    /** The WAITING_READY branch of the server loop, given each peer's
      readiness answer: if the pass ends with a true flag the stage becomes
      READY and every peer is sent the begin signal; otherwise nothing
      changes. */
    method AwaitReadiness(answers: seq<bool>)
      requires Valid() && stage == WaitingReady && |answers| == |connections|
      modifies this`stage, connections
      ensures Valid()
      ensures stage == if LastReady(answers) then Ready else WaitingReady
      ensures forall k :: 0 <= k < |connections| ==>
        connections[k].id == old(connections[k].id) &&
        connections[k].port == old(connections[k].port) &&
        connections[k].pairs == old(connections[k].pairs) &&
        connections[k].readyToStart == (LastReady(answers) || old(connections[k].readyToStart))
    {
      var flag := ReadinessPass(answers);
      if flag {
        stage := Ready;
        var cs := connections;
        var i := 0;
        while i < |cs|
          invariant 0 <= i <= |cs|
          invariant stage == Ready
          invariant forall k :: 0 <= k < |cs| ==>
            cs[k].id == old(cs[k].id) && cs[k].port == old(cs[k].port) &&
            cs[k].pairs == old(cs[k].pairs) &&
            cs[k].readyToStart == (k < i || old(cs[k].readyToStart))
        {
          cs[i].SendBegin();
          i := i + 1;
        }
      }
    }

    /** One iteration of the server loop once all N peers are connected,
      given each peer's readiness answer for the pass. INIT distributes the
      ring and moves to WAITING_READY; WAITING_READY (possibly reached in
      the same iteration) runs the readiness pass; READY does nothing. */
    method Step(answers: seq<bool>)
      requires Valid() && |connections| == maxConnections && 2 <= |connections|
      requires |answers| == |connections|
      modifies this`pairs, this`stage, connections
      ensures Valid()
      ensures stage == StageAfter(old(stage), answers)
      ensures old(stage) == Init ==>
        pairs == RingMap(old(pairs), old(AddressesOf(connections))) &&
        forall k :: 0 <= k < |connections| ==>
          connections[k].id == k &&
          connections[k].FullAddress() == old(AddressesOf(connections))[k] &&
          connections[k].FullAddress() in pairs &&
          connections[k].pairs == pairs[connections[k].FullAddress()] &&
          connections[k].readyToStart
      ensures old(stage) != Init ==>
        pairs == old(pairs) &&
        forall k :: 0 <= k < |connections| ==>
          connections[k].id == old(connections[k].id) &&
          connections[k].pairs == old(connections[k].pairs) &&
          connections[k].readyToStart == ((stage == Ready && old(stage) == WaitingReady) || old(connections[k].readyToStart))
      ensures forall k :: 0 <= k < |connections| ==> connections[k].port == old(connections[k].port)
    {
      if stage == Init {
        ghost var addrs := DistributePairs();
      }
      if stage == WaitingReady {
        AwaitReadiness(answers);
      }
    }
  }
}
