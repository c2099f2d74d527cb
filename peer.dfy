/** The peer (philosopher.py): the dining engine with its fork table, token
    and counters; the ring server that answers a neighbour's GET_FORK_STATUS
    and POST_TOKEN; and the manager client that answers the coordinator.
    The class-level globals of the source are the fields of `Philosopher`;
    each GET_FORK_STATUS round trip is replaced by the answer it receives,
    and the POST_TOKEN hand-over is fixed to the reply that ends its retries. */
module Peer {
  import opened Addresses
  import opened Wire

  // ---------------------------------------------------------------------
  // Values.

  /** The token a peer holds after eating, or before it is ever given one:
      not held, next holder "". */
  const NoHolder: Token := Token(false, Some(""))

  /** The peer's shared state, as one value. */
  datatype PeerView = PeerView(
    forks: map<Address, bool>,
    token: Token,
    state: DiningState,
    deadlocks: nat,
    meals: nat,
    sent: nat,
    received: nat)

  /** The statistics reported to the coordinator. */
  function StatsOf(v: PeerView): (st: Stats) {
    Stats(v.token, v.deadlocks, v.meals, v.sent, v.received)
  }

  /** The gating rule: a peer may take forks, count contention and eat when
      it holds the token, or when token mode is off. */
  predicate Entitled(token: Token, withToken: bool) {
    token.held || !withToken
  }

  /** The state that follows `s` in one iteration of the engine loop. */
  function Successor(s: DiningState): (next: DiningState) {
    match s
    case Thinking => Eating
    case Eating => Sleeping
    case Sleeping => Thinking
  }

  // ---------------------------------------------------------------------
  // The neighbour list built from the pairs the coordinator sent.

  /** `s` extended by the elements of `ps` not yet in it, in order: the key
      order of a dictionary into which `ps` is inserted after `s`. */
  function AppendNew(s: seq<Address>, ps: seq<Address>): (r: seq<Address>)
    decreases |ps|
  {
    if |ps| == 0 then s
    else
      var t := AppendNew(s, ps[..|ps| - 1]);
      if ps[|ps| - 1] in t then t else t + [ps[|ps| - 1]]
  }

  /** The keys keep `s` as a prefix, hold exactly the elements of `s` and
      `ps`, and stay duplicate-free. */
  lemma {:induction false} AppendNewProps(s: seq<Address>, ps: seq<Address>)
    ensures |s| <= |AppendNew(s, ps)| && AppendNew(s, ps)[..|s|] == s
    ensures forall a :: a in AppendNew(s, ps) <==> a in s || a in ps
    ensures Distinct(s) ==> Distinct(AppendNew(s, ps))
    decreases |ps|
  {
    if |ps| > 0 {
      var init := ps[..|ps| - 1];
      AppendNewProps(s, init);
      assert ps == init + [ps[|ps| - 1]];
      var t := AppendNew(s, init);
      if ps[|ps| - 1] !in t {
        assert (t + [ps[|ps| - 1]])[..|s|] == t[..|s|];
      }
    }
  }

  /** A pair of two different addresses gives two neighbours in the same
      order; a pair that names one address twice gives one neighbour. */
  lemma NeighboursOfPair(l: Address, r: Address)
    ensures l != r ==> AppendNew([], [l, r]) == [l, r]
    ensures l == r ==> AppendNew([], [l, r]) == [l]
  {
    assert [l][..0] == [];
    assert AppendNew([], [l]) == [l];
    assert [l, r][..1] == [l];
  }

  // ---------------------------------------------------------------------
  // The EATING pass, as a function of the state before it.

  /** The fork table after the claim loop has visited the first k
      neighbours: a neighbour's entry is set when it reports its fork free,
      the entry is still false, and the peer is entitled. */
  function Claimed(forks: map<Address, bool>, nbrs: seq<Address>, reports: seq<bool>, e: bool, k: nat): (r: map<Address, bool>)
    requires k <= |nbrs| == |reports|
    requires forall i :: 0 <= i < |nbrs| ==> nbrs[i] in forks
    ensures forall a :: a in r <==> a in forks
    ensures forall a :: a in forks && forks[a] ==> r[a]
  {
    if k == 0 then forks
    else
      var g := Claimed(forks, nbrs, reports, e, k - 1);
      if !reports[k - 1] && !g[nbrs[k - 1]] && e then g[nbrs[k - 1] := true] else g
  }

  /** The number of contentions counted among the first k neighbours: the
      neighbour reports its fork taken, our entry is false, and the peer is
      entitled. */
  function Contended(forks: map<Address, bool>, nbrs: seq<Address>, reports: seq<bool>, e: bool, k: nat): (r: nat)
    requires k <= |nbrs| == |reports|
    requires forall i :: 0 <= i < |nbrs| ==> nbrs[i] in forks
    ensures r <= k
  {
    if k == 0 then 0
    else Contended(forks, nbrs, reports, e, k - 1) + (if e && reports[k - 1] && !forks[nbrs[k - 1]] then 1 else 0)
  }

  /** For distinct neighbours, the entry of neighbour j after k visits: set
      if j was visited, reported its fork free and the peer is entitled,
      else as it was. Keys other than the neighbours keep their value. */
  lemma {:induction false} ClaimedAt(forks: map<Address, bool>, nbrs: seq<Address>, reports: seq<bool>, e: bool, k: nat, j: nat)
    requires k <= |nbrs| == |reports| && j < |nbrs| && Distinct(nbrs)
    requires forall i :: 0 <= i < |nbrs| ==> nbrs[i] in forks
    ensures Claimed(forks, nbrs, reports, e, k)[nbrs[j]] ==
      if j < k then forks[nbrs[j]] || (e && !reports[j]) else forks[nbrs[j]]
  {
    if k > 0 {
      ClaimedAt(forks, nbrs, reports, e, k - 1, j);
      if j != k - 1 {
        assert nbrs[j] != nbrs[k - 1];
      } else {
        ClaimedAt(forks, nbrs, reports, e, k - 1, k - 1);
      }
    }
  }

  /** A peer that is not entitled claims nothing. */
  lemma {:induction false} ClaimedNotEntitled(forks: map<Address, bool>, nbrs: seq<Address>, reports: seq<bool>, k: nat)
    requires k <= |nbrs| == |reports|
    requires forall i :: 0 <= i < |nbrs| ==> nbrs[i] in forks
    ensures Claimed(forks, nbrs, reports, false, k) == forks
  {
    if k > 0 {
      ClaimedNotEntitled(forks, nbrs, reports, k - 1);
    }
  }

  /** No contention at all is counted when the peer is not entitled. */
  lemma {:induction false} ContendedBound(forks: map<Address, bool>, nbrs: seq<Address>, reports: seq<bool>, e: bool, k: nat)
    requires k <= |nbrs| == |reports|
    requires forall i :: 0 <= i < |nbrs| ==> nbrs[i] in forks
    ensures !e ==> Contended(forks, nbrs, reports, e, k) == 0
  {
    if k > 0 {
      ContendedBound(forks, nbrs, reports, e, k - 1);
    }
  }

  /** Every entry of the table is true. */
  predicate AllHeld(forks: map<Address, bool>) {
    forall a :: a in forks ==> forks[a]
  }

  /** The table with every entry put back to false. */
  function Released(forks: map<Address, bool>): (r: map<Address, bool>)
    ensures r.Keys == forks.Keys && forall a :: a in r ==> !r[a]
  {
    map a | a in forks :: false
  }

  /** How an EATING pass ends: without a meal, with a meal (and the address
      the token was passed to, in token mode), or with the engine thread
      raising an exception. */
  datatype EatOutcome = NoMeal | Meal(passedTo: Option<Address>) | Raised

  datatype Outcome = Outcome(after: PeerView, outcome: EatOutcome)

  /** One EATING pass given each neighbour's reported fork status, in
      neighbour order: one GET_FORK_STATUS round trip per neighbour (claiming
      free forks and counting contentions), then a meal if every fork is held
      and the peer is entitled, then SLEEPING. The all-held test raises on an
      empty table, and passing the token to an address that is not a
      neighbour raises; both end the pass with `Raised`. */
  function EatingSpec(v: PeerView, nbrs: seq<Address>, withToken: bool, reports: seq<bool>): (r: Outcome)
    requires |nbrs| == |reports|
    requires forall i :: 0 <= i < |nbrs| ==> nbrs[i] in v.forks
  {
    MealSpec(Polled(v, nbrs, withToken, reports), nbrs, withToken)
  }

  /** The state after the claim loop: the claimed table, the contentions
      added to the deadlock counter, one round trip per neighbour. */
  function Polled(v: PeerView, nbrs: seq<Address>, withToken: bool, reports: seq<bool>): (r: PeerView)
    requires |nbrs| == |reports|
    requires forall i :: 0 <= i < |nbrs| ==> nbrs[i] in v.forks
    ensures r.forks.Keys == v.forks.Keys && (forall a :: a in v.forks && v.forks[a] ==> r.forks[a])
    ensures r.token == v.token && r.state == v.state && r.meals == v.meals
    ensures v.deadlocks <= r.deadlocks <= v.deadlocks + |nbrs|
    ensures r.sent == v.sent + |nbrs| && r.received == v.received + |nbrs|
  {
    var e := Entitled(v.token, withToken);
    v.(forks := Claimed(v.forks, nbrs, reports, e, |nbrs|),
       deadlocks := v.deadlocks + Contended(v.forks, nbrs, reports, e, |nbrs|),
       sent := v.sent + |nbrs|, received := v.received + |nbrs|)
  }

  /** The rest of the pass after the claim loop: the all-held test, the meal,
      the release of the forks and the hand-over of the token. */
  function MealSpec(p: PeerView, nbrs: seq<Address>, withToken: bool): (r: Outcome)
    ensures r.after.forks.Keys == p.forks.Keys && r.after.deadlocks == p.deadlocks
    ensures r.after.meals == p.meals + 1 <==> |p.forks| > 0 && AllHeld(p.forks) && Entitled(p.token, withToken)
    ensures r.after.meals == p.meals || r.after.meals == p.meals + 1
    ensures r.after.sent == p.sent + (if r.outcome.Meal? && r.outcome.passedTo.Some? then 1 else 0)
    ensures r.after.received - p.received == r.after.sent - p.sent
    ensures r.outcome.Meal? ==>
      r.after.token == NoHolder && r.after.state == Sleeping && forall a :: a in r.after.forks ==> !r.after.forks[a]
    ensures r.outcome == NoMeal ==> r.after == p.(state := Sleeping)
  {
    if |p.forks| == 0 then Outcome(p, Raised)
    else if !(AllHeld(p.forks) && Entitled(p.token, withToken)) then Outcome(p.(state := Sleeping), NoMeal)
    else
      var fed := p.(forks := Released(p.forks), meals := p.meals + 1);
      if !withToken then Outcome(fed.(token := NoHolder, state := Sleeping), Meal(None))
      else if p.token.next.Some? && p.token.next.value in nbrs then
        Outcome(fed.(token := NoHolder, state := Sleeping, sent := fed.sent + 1, received := fed.received + 1),
            Meal(p.token.next))
      else Outcome(fed, Raised)
  }

  /** A peer that is not entitled leaves the fork table, the deadlock and
      meal counters and the token as they were; only the round-trip counters
      and the state move. */
  lemma EatingNotEntitled(v: PeerView, nbrs: seq<Address>, withToken: bool, reports: seq<bool>)
    requires |nbrs| == |reports|
    requires forall i :: 0 <= i < |nbrs| ==> nbrs[i] in v.forks
    requires !Entitled(v.token, withToken)
    ensures var r := EatingSpec(v, nbrs, withToken, reports);
      r.after.forks == v.forks && r.after.deadlocks == v.deadlocks &&
      r.after.meals == v.meals && r.after.token == v.token &&
      !r.outcome.Meal?
  {
    ClaimedNotEntitled(v.forks, nbrs, reports, |nbrs|);
    ContendedBound(v.forks, nbrs, reports, false, |nbrs|);
  }

  /** The counters of one pass: deadlocks rise by at most one per neighbour,
      meals by at most one, and each round trip adds one sent and one
      received message. */
  lemma EatingCounters(v: PeerView, nbrs: seq<Address>, withToken: bool, reports: seq<bool>)
    requires |nbrs| == |reports|
    requires forall i :: 0 <= i < |nbrs| ==> nbrs[i] in v.forks
    ensures var r := EatingSpec(v, nbrs, withToken, reports);
      v.deadlocks <= r.after.deadlocks <= v.deadlocks + |nbrs| &&
      (r.after.meals == v.meals || r.after.meals == v.meals + 1) &&
      r.after.sent == r.after.received - v.received + v.sent &&
      r.after.sent == v.sent + |nbrs| + (if r.outcome.Meal? && r.outcome.passedTo.Some? then 1 else 0)
  {
  }

  /** A meal happens exactly when the table is non-empty, every fork is held
      after the claim loop, and the peer is entitled. After a meal every fork
      is released; unless the hand-over raises, the token is reset, and in
      token mode it was passed to the recorded next holder. */
  lemma EatingMeal(v: PeerView, nbrs: seq<Address>, withToken: bool, reports: seq<bool>)
    requires |nbrs| == |reports|
    requires forall i :: 0 <= i < |nbrs| ==> nbrs[i] in v.forks
    ensures var r := EatingSpec(v, nbrs, withToken, reports);
      var claimed := Claimed(v.forks, nbrs, reports, Entitled(v.token, withToken), |nbrs|);
      (r.after.meals == v.meals + 1 <==> |claimed| > 0 && AllHeld(claimed) && Entitled(v.token, withToken)) &&
      (r.after.meals == v.meals + 1 ==>
        r.after.forks.Keys == v.forks.Keys && (forall a :: a in r.after.forks ==> !r.after.forks[a]) &&
        (r.outcome != Raised ==> r.after.token == NoHolder && r.after.state == Sleeping) &&
        (withToken && r.outcome != Raised ==> r.outcome == Meal(v.token.next) && v.token.next.value in nbrs) &&
        (withToken && r.outcome == Raised ==> r.after.token == v.token && (v.token.next.None? || v.token.next.value !in nbrs)))
  {
  }

  /** A pass without a meal and without an exception resets nothing: the
      peer keeps every fork it claimed and its token into the next cycle,
      and only goes to sleep. */
  lemma EatingNoMeal(v: PeerView, nbrs: seq<Address>, withToken: bool, reports: seq<bool>)
    requires |nbrs| == |reports|
    requires forall i :: 0 <= i < |nbrs| ==> nbrs[i] in v.forks
    ensures var r := EatingSpec(v, nbrs, withToken, reports);
      r.outcome == NoMeal ==>
        r.after.forks == Claimed(v.forks, nbrs, reports, Entitled(v.token, withToken), |nbrs|) &&
        r.after.token == v.token && r.after.state == Sleeping
  {
  }

  /** One neighbour's entry across the claim loop: it ends true exactly when
      it was true or the neighbour reported its fork free while the peer was
      entitled; it is newly set only in that case. */
  lemma ForkClaimRule(v: PeerView, nbrs: seq<Address>, withToken: bool, reports: seq<bool>, j: nat)
    requires |nbrs| == |reports| && j < |nbrs| && Distinct(nbrs)
    requires forall i :: 0 <= i < |nbrs| ==> nbrs[i] in v.forks
    ensures var claimed := Claimed(v.forks, nbrs, reports, Entitled(v.token, withToken), |nbrs|);
      (claimed[nbrs[j]] && !v.forks[nbrs[j]]) <==>
        (!reports[j] && !v.forks[nbrs[j]] && Entitled(v.token, withToken))
  {
    ClaimedAt(v.forks, nbrs, reports, Entitled(v.token, withToken), |nbrs|, j);
  }

  // ---------------------------------------------------------------------
  // One iteration of the engine loop.

  function StepSpec(v: PeerView, nbrs: seq<Address>, withToken: bool, reports: seq<bool>): (r: Outcome)
    requires |nbrs| == |reports|
    requires forall i :: 0 <= i < |nbrs| ==> nbrs[i] in v.forks
  {
    match v.state
    case Thinking => Outcome(v.(state := Eating), NoMeal)
    case Eating => EatingSpec(v, nbrs, withToken, reports)
    case Sleeping => Outcome(v.(state := Thinking), NoMeal)
  }

  /** The engine cycles THINKING -> EATING -> SLEEPING -> THINKING, moving to
      SLEEPING after every EATING pass that does not raise, meal or no meal;
      meals and deadlocks never decrease. */
  lemma StepCycles(v: PeerView, nbrs: seq<Address>, withToken: bool, reports: seq<bool>)
    requires |nbrs| == |reports|
    requires forall i :: 0 <= i < |nbrs| ==> nbrs[i] in v.forks
    ensures var r := StepSpec(v, nbrs, withToken, reports);
      (r.outcome != Raised ==> r.after.state == Successor(v.state)) &&
      (r.outcome == Raised ==> v.state == Eating && r.after.state == Eating) &&
      v.meals <= r.after.meals && v.deadlocks <= r.after.deadlocks
  {
    if v.state == Eating {
      EatingCounters(v, nbrs, withToken, reports);
    }
  }

  // ---------------------------------------------------------------------
  // The ring server: answering a neighbour.

  /** The list of keys with the first occurrence of `x` removed. */
  function RemoveFirst(s: seq<Address>, x: Address): (r: seq<Address>)
    requires x in s
    ensures |r| == |s| - 1
    ensures forall a :: a in r ==> a in s
  {
    if s[0] == x then s[1..] else [s[0]] + RemoveFirst(s[1..], x)
  }

  /** Exactly one occurrence of `x` is removed and every other element
      stays. */
  lemma {:induction false} RemoveFirstMultiset(s: seq<Address>, x: Address)
    requires x in s
    ensures multiset(RemoveFirst(s, x)) == multiset(s) - multiset{x}
  {
    assert s == [s[0]] + s[1..];
    if s[0] != x {
      RemoveFirstMultiset(s[1..], x);
    }
  }

  /** The next token holder chosen on a POST_TOKEN from `sender`: the first
      key left once the sender is removed. None when the sender is not a key
      (the removal raises) or when no key is left (the indexing raises). */
  function OtherNeighbour(keys: seq<Address>, sender: Address): (r: Option<Address>)
    ensures r.Some? <==> sender in keys && |keys| >= 2
    ensures r.Some? ==> r.value in keys
  {
    if sender !in keys then None
    else
      var rest := RemoveFirst(keys, sender);
      if |rest| == 0 then None else Some(rest[0])
  }

  /** With two different neighbours the token goes on to the one it did not
      come from; with the same address twice there is one key and the
      handler raises; an unknown sender makes it raise too. */
  lemma OtherNeighbourOfPair(l: Address, r: Address, sender: Address)
    ensures l != r ==> OtherNeighbour([l, r], l) == Some(r) && OtherNeighbour([l, r], r) == Some(l)
    ensures OtherNeighbour([l], l) == None
    ensures sender != l && sender != r ==> OtherNeighbour([l, r], sender) == None
  {
    assert [l, r][1..] == [r];
    if l != r {
      assert [l, r][1..][0] == r;
    }
  }

  /** A chosen next holder is a key and, among distinct keys, not the
      sender. */
  lemma OtherNeighbourIsOther(keys: seq<Address>, sender: Address)
    requires Distinct(keys)
    ensures OtherNeighbour(keys, sender).Some? ==>
      OtherNeighbour(keys, sender).value in keys && OtherNeighbour(keys, sender).value != sender
  {
    if sender in keys {
      var rest := RemoveFirst(keys, sender);
      if |rest| > 0 {
        RemoveFirstDrops(keys, sender);
      }
    }
  }

  lemma {:induction false} RemoveFirstDrops(s: seq<Address>, x: Address)
    requires x in s && Distinct(s)
    ensures x !in RemoveFirst(s, x)
  {
    if s[0] != x {
      assert Distinct(s[1..]) by {
        forall i, j | 0 <= i < j < |s[1..]| ensures s[1..][i] != s[1..][j] {
          assert s[1..][i] == s[i + 1] && s[1..][j] == s[j + 1];
        }
      }
      RemoveFirstDrops(s[1..], x);
    } else {
      forall i | 0 <= i < |s[1..]| ensures s[1..][i] != x {
        assert s[1..][i] == s[i + 1] && s[0] == x;
      }
    }
  }

  /** What a ring-server connection sends back, if anything. */
  datatype Served = NoReply | Reply(msg: Message) | Crash

  datatype Handled = Handled(after: PeerView, served: Served)

  function ForkStatusResponse(withFork: bool, state: DiningState): (m: Message) {
    Coded(GetForkStatusResponse).(withFork := Present(withFork), state := Present(state))
  }

  /** The key under which the fork shared with a neighbour is stored: the
      connection's host and the port the request names. */
  function SenderKey(senderHost: string, port: int): (a: Address) {
    AddressText(senderHost, Some(port))
  }

  /** One request on a ring-server connection from `senderHost`. Every
      request counts as received. GET_FORK_STATUS with a port is answered
      with our entry for the sender and our state; POST_TOKEN with a port
      takes the token and records the other neighbour as its next holder.
      Both raise (`Crash`) when the sender is not in the table or, for the
      token, when no other key is left. */
  function Serve(v: PeerView, nbrs: seq<Address>, senderHost: string, request: Option<Message>): (r: Handled)
    ensures r.after.forks == v.forks && r.after.state == v.state
    ensures r.after.deadlocks == v.deadlocks && r.after.meals == v.meals
    ensures r.after.received == v.received + 1
    ensures r.after.sent == v.sent + (if r.served.Reply? then 1 else 0)
    ensures r.after.token != v.token ==>
      r.after.token.held && r.after.token.next.Some? && r.after.token.next.value in nbrs
  {
    var v1 := v.(received := v.received + 1);
    if request.None? || request.value.code.Absent? then Handled(v1, NoReply)
    else
      var m := request.value;
      if m.code == Present(GetForkStatus) && m.port.Present? then
        var key := SenderKey(senderHost, m.port.value);
        if key in v.forks then
          Handled(v1.(sent := v1.sent + 1), Reply(ForkStatusResponse(v.forks[key], v.state)))
        else Handled(v1, Crash)
      else if m.code == Present(PostToken) && m.port.Present? then
        var key := SenderKey(senderHost, m.port.value);
        match OtherNeighbour(nbrs, key)
        case Some(d) =>
          Handled(v1.(token := Token(true, Some(d)), sent := v1.sent + 1), Reply(Coded(PostTokenResponse)))
        case None => Handled(v1, Crash)
      else Handled(v1, NoReply)
  }

  /** A POST_TOKEN from one of two different neighbours hands the token on
      to the other one; a GET_FORK_STATUS from a neighbour reports our entry
      for it. */
  lemma ServeAnswers(v: PeerView, l: Address, r: Address, senderHost: string, port: int, request: Message)
    requires l != r && SenderKey(senderHost, port) == l
    requires request.code.Present? && request.port == Present(port)
    requires l in v.forks
    ensures request.code.value == PostToken ==>
      Serve(v, [l, r], senderHost, Some(request)) ==
        Handled(v.(received := v.received + 1, sent := v.sent + 1, token := Token(true, Some(r))),
                Reply(Coded(PostTokenResponse)))
    ensures request.code.value == GetForkStatus ==>
      Serve(v, [l, r], senderHost, Some(request)).served == Reply(ForkStatusResponse(v.forks[l], v.state))
  {
    OtherNeighbourOfPair(l, r, l);
  }

  // ---------------------------------------------------------------------
  // The manager client: answering the coordinator.

  /** The POST_PAIRS request is acted on only when it carries both a `pairs`
      and a `mode` key. */
  predicate TakesPairs(request: Option<Message>) {
    HasCode(request, PostPairs) && !request.value.pairs.Absent? && !request.value.mode.Absent?
  }

  /** The reply the manager client sends to a control request, if any. */
  function ControlReply(request: Option<Message>, port: Option<int>, ready: bool, stats: Stats): (r: Option<Message>)
    ensures r.Some? <==>
      HasCode(request, GetPort) || TakesPairs(request) || HasCode(request, GetReady) ||
      HasCode(request, PostBegin) || HasCode(request, GetStatusInfo) || HasCode(request, TimeToDie)
    ensures HasCode(request, GetPort) ==> HasCode(r, GetPortResponse) && r.value.port.Present? == port.Some?
    ensures HasCode(request, GetPort) ==> r.value.port == (if port.Some? then Present(port.value) else Null)
    ensures HasCode(request, GetReady) ==> HasCode(r, GetReadyResponse) && r.value.ready == Present(ready)
    ensures (HasCode(request, GetStatusInfo) || HasCode(request, TimeToDie)) ==> r.value.stats == Present(stats)
    ensures TakesPairs(request) ==> HasCode(r, PostPairResponse)
    ensures HasCode(request, PostBegin) ==> HasCode(r, BeginResponse)
    ensures HasCode(request, GetStatusInfo) ==> HasCode(r, GetStatusInfoResponse)
    ensures HasCode(request, TimeToDie) ==> HasCode(r, FinallyDeadResponse)
  {
    if request.None? || request.value.code.Absent? then None
    else
      var c := request.value.code;
      if c == Present(GetPort) then
        Some(Coded(GetPortResponse).(port := if port.Some? then Present(port.value) else Null))
      else if c == Present(PostPairs) && !request.value.pairs.Absent? && !request.value.mode.Absent? then
        Some(Coded(PostPairResponse))
      else if c == Present(GetReady) then Some(Coded(GetReadyResponse).(ready := Present(ready)))
      else if c == Present(PostBegin) then Some(Coded(BeginResponse))
      else if c == Present(GetStatusInfo) then Some(Coded(GetStatusInfoResponse).(stats := Present(stats)))
      else if c == Present(TimeToDie) then Some(Coded(FinallyDeadResponse).(stats := Present(stats)))
      else None
  }

  /** The claim loop of the EATING pass over the fork table: one
      GET_FORK_STATUS answer per neighbour, in neighbour order, with the
      local `deadlock` map that counts each neighbour at most once. */
  method PollNeighbours(forks: map<Address, bool>, nbrs: seq<Address>, reports: seq<bool>, entitled: bool)
    returns (table: map<Address, bool>, contended: nat)
    requires Distinct(nbrs) && |reports| == |nbrs|
    requires forall i :: 0 <= i < |nbrs| ==> nbrs[i] in forks
    ensures table == Claimed(forks, nbrs, reports, entitled, |nbrs|)
    ensures contended == Contended(forks, nbrs, reports, entitled, |nbrs|)
  {
    table := forks;
    contended := 0;
    var deadlock := map a | a in table :: false;
    var i := 0;
    while i < |nbrs|
      invariant 0 <= i <= |nbrs|
      invariant table == Claimed(forks, nbrs, reports, entitled, i)
      invariant contended == Contended(forks, nbrs, reports, entitled, i)
      invariant deadlock.Keys == forks.Keys
      invariant forall j :: i <= j < |nbrs| ==> !deadlock[nbrs[j]]
    {
      var p := nbrs[i];
      var forkState := reports[i];
      ClaimedAt(forks, nbrs, reports, entitled, i, i);
      if forkState && !table[p] && !deadlock[p] && entitled {
        deadlock := deadlock[p := true];
        contended := contended + 1;
      }
      if !forkState && !table[p] && entitled {
        table := table[p := true];
      }
      i := i + 1;
    }
  }

  /** The release loop after a meal: every key of the table, visited in key
      order, is put back to false. */
  method ReleaseForks(forks: map<Address, bool>, keys: seq<Address>) returns (table: map<Address, bool>)
    requires forall a :: a in forks ==> a in keys
    requires forall i :: 0 <= i < |keys| ==> keys[i] in forks
    ensures table == Released(forks)
  {
    table := forks;
    var i := 0;
    while i < |keys|
      invariant 0 <= i <= |keys|
      invariant table.Keys == forks.Keys
      invariant forall j :: 0 <= j < i ==> !table[keys[j]]
    {
      table := table[keys[i] := false];
      i := i + 1;
    }
    assert forall a :: a in table ==> !table[a];
  }

  // ---------------------------------------------------------------------
  // The peer's shared state.

  class Philosopher {
    var forks: map<Address, bool>
    var neighbours: seq<Address>
    var token: Token
    var state: DiningState
    var deadlocks: nat
    var meals: nat
    var messagesSent: nat
    var messagesReceived: nat
    var withToken: bool
    var timeToDie: bool

    /** The neighbours are the fork table's keys, in insertion order, each
      once. */
    ghost predicate Valid()
      reads this
    {
      Distinct(neighbours) && forall a :: a in forks <==> a in neighbours
    }

    function View(): (v: PeerView)
      reads this
    {
      PeerView(forks, token, state, deadlocks, meals, messagesSent, messagesReceived)
    }

    function Stats(): Stats
      reads this
    {
      StatsOf(View())
    }

    constructor ()
      ensures Valid() && neighbours == [] && forks == map[]
      ensures token == NoHolder && state == Thinking && withToken && !timeToDie
      ensures deadlocks == 0 && meals == 0 && messagesSent == 0 && messagesReceived == 0
    {
      forks := map[];
      neighbours := [];
      token := NoHolder;
      state := Thinking;
      deadlocks := 0;
      meals := 0;
      messagesSent := 0;
      messagesReceived := 0;
      withToken := true;
      timeToDie := false;
    }

    /** The set-up after the pairs arrive: every pair entry gets a false
      fork entry and becomes a neighbour (once). */
    method JoinRing(pairs: seq<Address>)
      requires Valid()
      modifies this`forks, this`neighbours
      ensures Valid()
      ensures neighbours == AppendNew(old(neighbours), pairs)
      ensures forall a :: a in forks <==> a in old(forks) || a in pairs
      ensures forall a :: a in forks ==> forks[a] == (if a in pairs then false else old(forks)[a])
    {
      var i := 0;
      while i < |pairs|
        invariant 0 <= i <= |pairs|
        invariant neighbours == AppendNew(old(neighbours), pairs[..i])
        invariant forall a :: a in forks <==> a in old(forks) || a in pairs[..i]
        invariant forall a :: a in forks ==> forks[a] == (if a in pairs[..i] then false else old(forks)[a])
      {
        var p := pairs[i];
        assert pairs[..i + 1] == pairs[..i] + [p];
        forks := forks[p := false];
        if p !in neighbours {
          neighbours := neighbours + [p];
        }
        i := i + 1;
      }
      assert pairs[..i] == pairs;
      AppendNewProps(old(neighbours), pairs);
    }

    /** The engine's set-up once the pairs have arrived: join the ring,
      then tell the coordinator this peer is ready. */
    method Setup(client: ManagerClient)
      requires Valid() && client.pairs.Some?
      modifies this`forks, this`neighbours, client`ready
      ensures Valid() && client.ready
      ensures neighbours == AppendNew(old(neighbours), client.pairs.value)
      ensures forall a :: a in forks <==> a in old(forks) || a in client.pairs.value
      ensures forall a :: a in forks ==> forks[a] == (if a in client.pairs.value then false else old(forks)[a])
    {
      JoinRing(client.pairs.value);
      client.ready := true;
    }

    /** The claim phase of the EATING pass: the fork table and the deadlock
      counter take the result of the claim loop, and each neighbour's
      GET_FORK_STATUS round trip counts one sent and one received message. */
    method ClaimForks(reports: seq<bool>)
      requires Distinct(neighbours) && |reports| == |neighbours|
      requires forall i :: 0 <= i < |neighbours| ==> neighbours[i] in forks
      modifies this`forks, this`deadlocks, this`messagesSent, this`messagesReceived
      ensures View() == Polled(old(View()), neighbours, withToken, reports)
    {
      var table, contended := PollNeighbours(forks, neighbours, reports, token.held || !withToken);
      forks := table;
      deadlocks := deadlocks + contended;
      messagesSent := messagesSent + |neighbours|;
      messagesReceived := messagesReceived + |neighbours|;
    }

    /** One EATING pass, proved against `EatingSpec`. */
    method EatingPass(reports: seq<bool>) returns (outcome: EatOutcome)
      requires Valid() && state == Eating && |reports| == |neighbours|
      modifies this`forks, this`token, this`state, this`deadlocks, this`meals
      modifies this`messagesSent, this`messagesReceived
      ensures Valid()
      ensures Outcome(View(), outcome) == EatingSpec(old(View()), neighbours, withToken, reports)
    {
      ghost var keys := forks.Keys;
      ClaimForks(reports);
      outcome := MealOrNot();
      assert forks.Keys == keys;
    }

    /** The end of the EATING pass: the all-held test over the table (which
      raises on an empty table), the meal, the release of the forks and, in
      token mode, the hand-over of the token, proved against `MealSpec`. */
    method MealOrNot() returns (outcome: EatOutcome)
      requires forall a :: a in forks ==> a in neighbours
      requires forall i :: 0 <= i < |neighbours| ==> neighbours[i] in forks
      modifies this`forks, this`token, this`state, this`meals
      modifies this`messagesSent, this`messagesReceived
      ensures forks.Keys == old(forks.Keys)
      ensures Outcome(View(), outcome) == MealSpec(old(View()), neighbours, withToken)
    {
      ghost var spec := MealSpec(View(), neighbours, withToken);
      if |forks| == 0 {
        // reduce() of an empty sequence raises
        return Raised;
      }
      if !(AllHeld(forks) && (token.held || !withToken)) {
        state := Sleeping;
        return NoMeal;
      }
      ghost var fed := View().(forks := Released(forks), meals := meals + 1);
      meals := meals + 1;
      forks := ReleaseForks(forks, neighbours);
      assert View() == fed;
      outcome := Meal(None);
      if withToken {
        if token.next.Some? && token.next.value in neighbours {
          // one successful POST_TOKEN round trip
          messagesSent := messagesSent + 1;
          messagesReceived := messagesReceived + 1;
          outcome := Meal(token.next);
          assert spec == Outcome(fed.(token := NoHolder, state := Sleeping, sent := fed.sent + 1, received := fed.received + 1), outcome);
        } else {
          // indexing the neighbour clients by the next holder raises
          return Raised;
        }
      }
      token := NoHolder;
      state := Sleeping;
      assert Outcome(View(), outcome) == spec;
    }

    /** One iteration of the engine loop, proved against `StepSpec`. */
    method Step(reports: seq<bool>) returns (outcome: EatOutcome)
      requires Valid() && !timeToDie && |reports| == |neighbours|
      modifies this`forks, this`token, this`state, this`deadlocks, this`meals
      modifies this`messagesSent, this`messagesReceived
      ensures Valid()
      ensures Outcome(View(), outcome) == StepSpec(old(View()), neighbours, withToken, reports)
    {
      match state
      case Thinking =>
        state := Eating;
        outcome := NoMeal;
      case Eating =>
        outcome := EatingPass(reports);
      case Sleeping =>
        state := Thinking;
        outcome := NoMeal;
    }

    /** One request on a ring-server connection, proved against `Serve`. */
    method ServeNeighbour(senderHost: string, request: Option<Message>) returns (served: Served)
      requires Valid() && !timeToDie
      modifies this`token, this`messagesSent, this`messagesReceived
      ensures Handled(View(), served) == Serve(old(View()), neighbours, senderHost, request)
    {
      messagesReceived := messagesReceived + 1;
      served := NoReply;
      if request.Some? && !request.value.code.Absent? {
        var m := request.value;
        if m.code == Present(GetForkStatus) && m.port.Present? {
          var key := SenderKey(senderHost, m.port.value);
          if key !in forks {
            return Crash;
          }
          messagesSent := messagesSent + 1;
          served := Reply(ForkStatusResponse(forks[key], state));
        }
        if m.code == Present(PostToken) && m.port.Present? {
          var key := SenderKey(senderHost, m.port.value);
          if key !in neighbours {
            return Crash;
          }
          var plist := RemoveFirst(neighbours, key);
          if |plist| == 0 {
            return Crash;
          }
          token := Token(true, Some(plist[0]));
          messagesSent := messagesSent + 1;
          served := Reply(Coded(PostTokenResponse));
        }
      }
    }
  }

  class ManagerClient {
    const port: Option<int>
    const peer: Philosopher
    var ready: bool
    var pairs: Option<seq<Address>>
    var begin: bool

    constructor (port: Option<int>, peer: Philosopher)
      ensures this.port == port && this.peer == peer
      ensures !ready && pairs.None? && !begin
    {
      this.port := port;
      this.peer := peer;
      ready := false;
      pairs := None;
      begin := false;
    }

    /** One control request from the coordinator. A POST_PAIRS carrying
      `pairs` and `mode` stores the pairs, seeds the token with `first` when
      that key is there, and switches token mode on exactly for "TOKEN";
      POST_BEGIN sets `begin`; TIME_TO_DIE stops the peer. */
    method HandleControl(request: Option<Message>) returns (reply: Option<Message>)
      requires !peer.timeToDie
      modifies this`pairs, this`begin, peer`token, peer`withToken, peer`timeToDie
      ensures reply == ControlReply(request, port, ready, old(peer.Stats()))
      ensures pairs == if TakesPairs(request) then AsOption(request.value.pairs) else old(pairs)
      ensures peer.token ==
        if TakesPairs(request) && !request.value.first.Absent? then Token(true, AsOption(request.value.first))
        else old(peer.token)
      ensures peer.withToken == if TakesPairs(request) then request.value.mode == Present(TokenMode) else old(peer.withToken)
      ensures begin == (old(begin) || HasCode(request, PostBegin))
      ensures peer.timeToDie == HasCode(request, TimeToDie)
    {
      reply := None;
      if request.Some? && !request.value.code.Absent? {
        var m := request.value;
        if m.code == Present(GetPort) {
          reply := Some(Coded(GetPortResponse).(port := if port.Some? then Present(port.value) else Null));
        } else if m.code == Present(PostPairs) && !m.pairs.Absent? && !m.mode.Absent? {
          pairs := AsOption(m.pairs);
          if !m.first.Absent? {
            peer.token := Token(true, AsOption(m.first));
          }
          peer.withToken := m.mode == Present(TokenMode);
          reply := Some(Coded(PostPairResponse));
        } else if m.code == Present(GetReady) {
          reply := Some(Coded(GetReadyResponse).(ready := Present(ready)));
        } else if m.code == Present(PostBegin) {
          begin := true;
          reply := Some(Coded(BeginResponse));
        } else if m.code == Present(GetStatusInfo) {
          reply := Some(Coded(GetStatusInfoResponse).(stats := Present(peer.Stats())));
        } else if m.code == Present(TimeToDie) {
          reply := Some(Coded(FinallyDeadResponse).(stats := Present(peer.Stats())));
          peer.timeToDie := true;
        }
      }
    }
  }
}
