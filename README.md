# Dining philosophers over sockets: a Dafny model

The system has two parts. A coordinator (`manager.py`) and N peers (`philosopher.py`) simulate the dining
philosophers around a ring.

**The coordinator** works in this order:
- It accepts N peers.
- It asks each one for its listening port.
- It computes a ring that maps each peer's `host:port` to its `[left, right]` neighbours.
- It sends each peer its pair.
- It polls the peers' readiness.
- It broadcasts the begin signal.

Its stage string moves from INIT to WAITING_READY to READY.

**Each peer** runs three pieces:
- **The manager client** answers the coordinator: GET_PORT, POST_PAIRS, GET_READY, POST_BEGIN, GET_STATUS_INFO and TIME_TO_DIE.
- **The ring server** answers a neighbour's GET_FORK_STATUS and POST_TOKEN.
- **The dining engine** cycles THINKING, EATING, SLEEPING. An EATING pass asks every neighbour for its fork status and
  updates the fork table and the deadlock counter. When every fork is held and the peer is entitled, it eats and
  releases the forks. In token mode it also hands the token to the recorded next holder. A peer is entitled when it
  holds the token or when token mode is off.

The model is split into six modules:
- `Addresses` (`addresses.dfy`): addresses as `host:port` text and the text of a Python integer or `None`.
- `Wire` (`wire.dfy`): the decoded JSON messages. Each key is absent, null or present, so both `'k' in d` and
  `d['k'] is not None` can be stated.
- `Ring` (`ring.dfy`): the pair computation as pure functions, and the ring lemmas.
- `Coordinator` (`coordinator.dfy`): the `Connected` and `Server` classes, with the response checks and the stage
  machine.
- `Peer` (`peer.dfy`): the `Philosopher` and `ManagerClient` classes. Their methods are proved against the pure
  functions `EatingSpec`, `StepSpec`, `Serve` and `ControlReply`.
- `Protocol` (`protocol.dfy`): both sides of each channel put together.

Most blocking round trips are replaced by the decoded answer they receive, which the model takes as a parameter:
- a peer's port and readiness answers;
- each neighbour's `withFork` report;
- the control request.

Three round trips take no parameter: `send_pairs`, `send_begin` and `pass_token`. Each is fixed to the acknowledging
reply that ends its retries (see "## Left out").

An exception raised by the source is an explicit outcome, `Raised` or `Crash`:
- a `KeyError` on an unknown sender or next holder;
- the `ValueError` of `list.remove`;
- the `IndexError` of `plist[0]`;
- the `TypeError` of `reduce` on an empty table.

### Behaviour of the code worth noting

- **Token direction.** The token keeps its direction around a ring of three or more peers; it does not alternate.
  A peer handed the token by its left neighbour names its right neighbour as the next holder, and it is itself the
  left neighbour of that next holder (`Protocol.TokenKeepsDirection`).
- **No RUNNING stage.** `manager.py` has no RUNNING stage and no status polling. The last stage is READY.
- **POST_PAIRS has no `mode`.** The coordinator's POST_PAIRS carries only `pairs`. The peer acts on POST_PAIRS only when
  `mode` is present too, so it never answers the coordinator's request (`Protocol.CoordinatorPairsUnanswered`).
- **Two-peer rings.** A ring of two peers is computed without error, and each peer's pair names the other peer
  twice. The model covers N ≥ 2 (`Ring.NeighboursDistinct`, `Protocol.TwoPeerRingTokenRaises`).

## Model

| member | source | states |
|---|---|---|
| Addresses.AddressTextParts | manager.py:29-30 | An address is the host, a colon and the port text. It is `host:None` exactly when the port is unknown, because a known port, negative or not, never prints as `None`. |
| Coordinator.ReadyOf | manager.py:38-46 | A GET_READY round trip yields a value exactly when the response has the GET_READY_RESPONSE code and a non-null `ready`, and that value is the `ready` field. |
| Coordinator.PortOf | manager.py:48-57 | A GET_PORT round trip yields a value exactly when the response has the GET_PORT_RESPONSE code and a non-null `port`, and that value is the `port` field. |
| Coordinator.ChecksAcceptOnlyTheirCode | manager.py:38-75 | The codes are told apart. BEGIN_RESPONSE does not acknowledge POST_PAIRS, and POST_PAIR_RESPONSE does not acknowledge POST_BEGIN. A port response yields no readiness and a readiness response yields no port. A well-formed response yields exactly its field. A null response is rejected by every check. |
| Coordinator.Connected.constructor | manager.py:9-16 | A new connection keeps its arrival id and client host. Its port is None, it is not ready to start, and it has no pair. |
| Coordinator.Connected.SetId | manager.py:20-21 | The id becomes the given position. |
| Coordinator.Connected.GetPortRequest | manager.py:48-57 | Returns true exactly for a GET_PORT_RESPONSE with a non-null port, and then records that port. Otherwise the port is left unchanged. |
| Coordinator.Connected.PostPairsRequest | manager.py:59-66 | Returns true exactly for a POST_PAIR_RESPONSE. readyToStart is set only then and is otherwise unchanged. |
| Coordinator.Connected.PostBeginRequest | manager.py:68-75 | Returns true exactly for a BEGIN_RESPONSE. readyToStart is set only then and is otherwise unchanged. |
| Coordinator.Connected.SendPairs | manager.py:77-80 | Records the pair. The acknowledged round trip that ends the retries leaves readyToStart set. |
| Coordinator.Connected.SendBegin | manager.py:82-84 | The acknowledged round trip that ends the retries leaves readyToStart set. |
| Coordinator.StageAfter | manager.py:143-161 | One server iteration never moves the stage backwards, and it always leaves INIT. It ends in READY exactly when the stage was READY or the readiness flag ended true. |
| Coordinator.ReadinessPass | manager.py:154-156 | The readiness flag after the pass, as written, equals the LAST peer's answer (false for no peers). |
| Coordinator.AllReadyPass | manager.py:154-156 | The corrected pass: the flag is true exactly when every peer answered ready. |
| Coordinator.ReadinessPassMissesEarlierPeer | manager.py:154-157 | With the answers [false, true], the as-written flag is true although the first peer is not ready. |
| Coordinator.AllReadyImpliesLastReady | manager.py:154-157 | For a non-empty pass, the corrected flag implies the as-written flag. |
| Coordinator.PortWaitMissesEarlierPeer | manager.py:119-122 | With the ports [None, 9002], one pass of the as-written wait says to stop although a port is still unknown. |
| Coordinator.EarlyExitAddressHasNoPort | manager.py:124-134 | If the first connection's port is still unknown when the ring is computed, the ring map has the key `host:None`, and the second peer's left neighbour is `host:None`. |
| Coordinator.Server.constructor | manager.py:101-114 | A new server has no connections, an empty pairs map, the stage INIT and the given N. |
| Coordinator.Server.Accept | manager.py:138-140 | Appends one new connection. Its id is its arrival index, its port is unknown, it is not ready and it has no pair. All connections stay distinct objects. |
| Coordinator.Server.PortWaitPass | manager.py:119-122 | One pass of the port wait, as written: the flag says whether the LAST connection's port is unknown. |
| Coordinator.Server.PortsPendingPass | manager.py:119-122 | The corrected pass: the flag says whether ANY connection's port is unknown. |
| Coordinator.Server.AssignPosition | manager.py:124-134 | One loop visit: connection i takes id i, and its address is mapped to the pair for position i, computed by the three branches for the first, last and inner positions. |
| Coordinator.Server.CalculatePairs | manager.py:124-134 | Every connection's id becomes its index. The pairs map becomes the ring over the connections' addresses. The ports, pairs and readiness of the connections are unchanged. |
| Coordinator.Server.SendAllPairs | manager.py:146-148 | Every connection receives the pair stored under its own address and ends ready to start. Ids and ports are unchanged. |
| Coordinator.Server.DistributePairs | manager.py:143-151 | The INIT branch: the ring is computed, every peer holds the pair stored under its address, ids equal positions, and the stage becomes WAITING_READY. |
| Coordinator.Server.AwaitReadiness | manager.py:153-161 | The stage becomes READY exactly when the last peer's answer is true, and then every peer has been sent the begin signal. Otherwise nothing changes. |
| Coordinator.Server.Step | manager.py:136-161 | One server-loop iteration with all N peers connected. The stage follows StageAfter. From INIT every peer holds its ring pair under its address and its id equals its index. From a later stage the pairs are untouched. Ports never change. |
| Ring.Neighbours | manager.py:126-134 | The pair for a position has exactly two entries, built by the three branches. NeighboursByModulo gives their values. |
| Ring.NeighboursByModulo | manager.py:124-134 | For N ≥ 2, the three branches give `[addr((i-1) mod N), addr((i+1) mod N)]`. |
| Ring.NeighboursDistinct | manager.py:124-134 | Among distinct addresses with N ≥ 3, the two neighbours differ and neither is the peer itself. With N = 2 both entries name the other peer. |
| Ring.AssignPairsAt | manager.py:124-134 | After k visits the map holds the original keys plus the first k addresses. A visited address maps to its position's pair, and an unvisited key keeps its value. |
| Ring.RingPairAt | manager.py:124-134 | After the loop, position i's address maps to its modular pair. |
| Ring.RingEnds | manager.py:126-131 | Position 0 maps to `[last, second]` and position N-1 maps to `[previous, first]`. |
| Ring.RingSymmetry | manager.py:124-134 | If peer j is peer i's right neighbour, then peer i is peer j's left neighbour, across the wrap as well. |
| Peer.Philosopher.constructor | philosopher.py:190-200 | The initial globals: an empty fork table, the token `(False, "")`, THINKING, zero counters, token mode on, and not dying. |
| Peer.ManagerClient.constructor | philosopher.py:12-19 | Not ready, no pairs and no begin signal, with the given port. |
| Peer.ControlReply | philosopher.py:37-74 | A reply is sent exactly for the six known requests, where POST_PAIRS also needs `pairs` and `mode`. GET_PORT carries the port's value (null when there is none), GET_READY carries the readiness, and the status and death replies carry the statistics. Each reply has the matching response code. |
| Peer.ManagerClient.HandleControl | philosopher.py:37-74 | The reply is ControlReply. POST_PAIRS with `pairs` and `mode` stores the pairs, seeds the token with `first` only when that key is present, and turns token mode on exactly for "TOKEN". POST_BEGIN sets begin. TIME_TO_DIE stops the peer. Nothing else changes. |
| Peer.AppendNewProps | philosopher.py:223-224 | Inserting the pair into the table keeps the earlier keys as a prefix. The keys are exactly the old keys and the pair's entries, and they stay duplicate-free. |
| Peer.NeighboursOfPair | philosopher.py:223-224 | Two different addresses give two neighbours in order. One address named twice gives one neighbour. |
| Peer.Philosopher.JoinRing | philosopher.py:223-224 | Every pair entry gets a false fork entry and becomes a neighbour once. Other keys keep their entries, and the neighbours stay exactly the table's keys. |
| Peer.Philosopher.Setup | philosopher.py:221-227 | Once the pairs have arrived, the peer joins the ring as JoinRing says and reports itself ready. |
| Peer.Claimed | philosopher.py:240-250 | The claim loop keeps the table's keys and never clears an entry. |
| Peer.Contended | philosopher.py:239-248 | Each pass counts at most one contention per visited neighbour. |
| Peer.ClaimedAt | philosopher.py:240-250 | After the claim loop, neighbour j's entry is true exactly when it was true, or when j reported its fork free and the peer is entitled. |
| Peer.ClaimedNotEntitled | philosopher.py:245-250 | A peer that is not entitled claims no fork. |
| Peer.ContendedBound | philosopher.py:245-248 | No contention is counted when the peer is not entitled. |
| Peer.Polled | philosopher.py:239-250 | After the claim loop the keys are unchanged and no held fork is lost. The token, state and meals are unchanged. DEADLOCKS rises by at most the number of neighbours. Sent and received each rise by exactly the number of neighbours. |
| Peer.MealSpec | philosopher.py:252-263 | MEALS rises by one exactly when the table is non-empty, all forks are held and the peer is entitled, and never by more. The keys and DEADLOCKS are unchanged. One extra message is sent and received exactly when the token is handed over. A meal that completes leaves every fork released, the token `(False, "")` and the state SLEEPING. A pass without a meal changes only the state, to SLEEPING. |
| Peer.PollNeighbours | philosopher.py:239-250 | The claim loop, with its local `deadlock` map, computes the claimed table and the number of contentions. |
| Peer.ReleaseForks | philosopher.py:255-256 | The reset loop keeps the keys and puts every entry back to false. |
| Peer.Philosopher.ClaimForks | philosopher.py:239-250 | The table and the deadlock counter take the claim loop's result. Each neighbour's round trip adds one sent and one received message (philosopher.py:156-166). |
| Peer.Philosopher.MealOrNot | philosopher.py:252-263 | After the claim loop: an empty table raises. Without all forks held and entitlement, the state becomes SLEEPING. Otherwise there is one meal and the forks are released. In token mode the token goes to a next holder that is a neighbour, or the pass raises. The token is then reset and the state becomes SLEEPING. |
| Peer.Philosopher.EatingPass | philosopher.py:237-263 | One EATING pass equals EatingSpec of the state before it, and the neighbours stay the table's keys. |
| Peer.EatingNotEntitled | philosopher.py:245-260 | When the peer is not entitled, the pass leaves the fork table, DEADLOCKS, MEALS and TOKEN unchanged, with no meal. |
| Peer.EatingCounters | philosopher.py:239-260 | DEADLOCKS rises by at most the number of neighbours, and MEALS by at most one. Sent and received grow together: exactly one per neighbour, plus one exactly when the pass ends with a meal that handed the token on. |
| Peer.EatingMeal | philosopher.py:252-260 | MEALS rises exactly when the claimed table is non-empty, all its entries are true and the peer is entitled. Then every entry is false. Unless the hand-over raises, the token is `(False, "")` and the state is SLEEPING. In token mode the token went to the recorded holder, and the pass raises exactly when that holder is not a neighbour. |
| Peer.EatingNoMeal | philosopher.py:249-263 | A pass where the peer does not eat and nothing raises keeps every fork it claimed and its token into the next cycle. The state becomes SLEEPING. |
| Peer.ForkClaimRule | philosopher.py:249-250 | An entry becomes newly true exactly when the neighbour reported its fork free, the entry was false, and the peer is entitled. |
| Peer.Philosopher.Step | philosopher.py:231-282 | One engine iteration equals StepSpec of the state before it. |
| Peer.StepCycles | philosopher.py:231-282 | THINKING goes to EATING. EATING goes to SLEEPING whether or not there was a meal, unless the pass raises. SLEEPING goes to THINKING. MEALS and DEADLOCKS never decrease. |
| Peer.RemoveFirst | philosopher.py:105-106 | Removing the sender's key leaves one key fewer, and every key left was a key before. |
| Peer.RemoveFirstMultiset | philosopher.py:105-106 | Exactly one occurrence of the sender's key is removed, and every other key stays. |
| Peer.OtherNeighbour | philosopher.py:105-107 | A next holder is chosen exactly when the sender is a key and there are at least two keys, and it is a key. |
| Peer.OtherNeighbourOfPair | philosopher.py:104-108 | With two different neighbours, a POST_TOKEN from one names the other. With one neighbour, or from an unknown sender, the handler raises. |
| Peer.OtherNeighbourIsOther | philosopher.py:105-107 | Among distinct keys, the chosen next holder is a key and is not the sender. |
| Peer.Serve | philosopher.py:91-111 | Every request counts as received, and a reply counts as sent. The fork table, state and meal and deadlock counters never change. A changed token is held, with a neighbour as next holder. |
| Peer.ServeAnswers | philosopher.py:98-111 | With two different neighbours, a POST_TOKEN from one makes the token held, names the other neighbour as next holder, and is answered. A GET_FORK_STATUS is answered with our entry for the sender and our state. |
| Peer.Philosopher.ServeNeighbour | philosopher.py:91-111 | One ring-server request equals Serve of the state before it. |
| Protocol.PortRoundTrip | philosopher.py:41-43 | The coordinator's port check, applied to the peer's GET_PORT reply, yields exactly the peer's port (None when it has none). |
| Protocol.ReadyRoundTrip | philosopher.py:52-54 | The coordinator's readiness check, applied to the peer's GET_READY reply, yields the peer's readiness. |
| Protocol.BeginRoundTrip | philosopher.py:55-57 | The peer's POST_BEGIN reply is acknowledged by the coordinator's check. |
| Protocol.PairsWithModeRoundTrip | philosopher.py:44-51 | A POST_PAIRS that also carries `mode` is taken by the peer and acknowledged by the coordinator. |
| Protocol.CoordinatorPairsUnanswered | manager.py:59-66 | The coordinator's own POST_PAIRS lacks `mode`. The peer neither takes it nor replies, so that round trip is never acknowledged. |
| Protocol.TokenKeepsDirection | philosopher.py:104-108 | In a ring of three or more distinct peers, a token from the left neighbour goes to the right neighbour and the other way round. The sender is the next holder's left neighbour. |
| Protocol.TokenFromLeftGoesRight | philosopher.py:104-111 | Through the ring server: a POST_TOKEN from peer j's left neighbour makes j hold the token with its right neighbour next, and is answered. |
| Protocol.TwoPeerRingTokenRaises | philosopher.py:104-107 | In a ring of two peers each peer has one neighbour, and a POST_TOKEN from it raises. |

## Left out

- Sockets, `connect`/`accept`/`send`/`recv`, JSON encoding and decoding, `argparse`, the `__main__` blocks and `print`. A decoded message is a parameter.
- Threads and the unsynchronised class-level globals shared between threads. Each handler and each engine iteration runs as one atomic step on the shared state.
- The retry loops of `Connected.run` around `get_port_request` (manager.py:91-92), `is_ready`, `with_fork`, `pass_token`, `send_pairs` and `send_begin` are left out. Each is modelled by the round trip that ends it. Whether they terminate is a liveness question.
- The port wait (manager.py:119-122) is not part of `Server.Step`. `DistributePairs` computes the ring from whatever ports are known, and does not require the wait to have ended. One pass of the wait is modelled on its own, as `Server.PortWaitPass`.
- Peer.Philosopher.Setup: requires that the pairs have arrived, which is what the engine's first wait (philosopher.py:221-222) waits for. The wait for the ring server to be ready is not modelled.
- Peer.Philosopher.Step: does not require the begin signal. The engine's wait for begin (philosopher.py:229-230) is not modelled, so the model allows an iteration before begin.
- Coordinator.Server.CalculatePairs: reads every address once before the loop, where the source calls `get_full_address` inside it. In this single-threaded model no port changes during the loop, so the values are the same.
- The race between the server thread and a `Connected.run` thread that is still in its GET_PORT retry (manager.py:91-92) is not modelled. After the early exit of the port wait (see "## Findings"), that thread can set the port (manager.py:54) during or after the ring computation. A peer keyed `host:None` then has a different `get_full_address()`, and the lookup at manager.py:147 raises `KeyError` in the server thread. The model keeps every port fixed from the wait until the pairs are sent.
- Coordinator.Connected.SendPairs: assumes the acknowledging reply that ends the retries. Against the peer in `philosopher.py` that reply never comes (`Protocol.CoordinatorPairsUnanswered`), so the real coordinator loops there forever.
- `sleep`/`randint` timing and the float millisecond conversion. They do not affect state.
- The `Connected.run` queue forwarding loop (manager.py:94-97), the peer's accept loop (philosopher.py:135-140), `get_addresses` and the getters.
- `PhilosopherClient` construction (philosopher.py:145-154). It splits a pair entry and calls `int` on the port text, so an entry `host:None` raises there. The model instead assumes that the address a client rebuilds from host and port equals the table key.
- The ring server builds the sender's key from the connection's host and the request's port. The model takes that host as a parameter.
- The `withFork` report is taken as a boolean. A null report would be falsy in the source.
- The peer's reported `state` is returned to the EATING pass but not used there, so it is not an input.
- Peer.PollNeighbours and Peer.ReleaseForks: both loops work on a copy of the fork table, and the method writes the copy back once the loop ends. With one thread this is the same as updating the table entry by entry.
- Coordinator.Server.Step: requires N ≥ 2 connections. With N = 1 the ring computation indexes out of range at manager.py:128, and with N = 0 the port wait never ends.
- Peer.Philosopher.Step: requires the neighbours to be exactly the table's keys, each once. This holds from `Setup` on. The source fills two dictionaries, `WITH_FORK` and the neighbour clients, from the same pair list (philosopher.py:223-225), so both have the same keys in the same order.
- The coordinator's killme flag is never set in `manager.py`, so the outer server loop never ends. Its N is fixed at 20 by `__main__` (manager.py:171), while the model keeps N as a parameter.

## Findings

Server.Step keeps the code's readiness pass, because the stage machine is modelled as written. The corrected passes are
proved beside the as-written ones.

| source | as written | input that shows it | evidently intended | confidence | as-written member | corrected member |
|---|---|---|---|---|---|---|
| manager.py:119-122 | Each connection overwrites the port-wait flag, so the wait ends as soon as the LAST connection's port is known. | ports [None, 9002]: the wait stops, and the first peer's address becomes `host:None` | Wait while ANY connection's port is unknown. | high; not executed | Coordinator.Server.PortWaitPass, Coordinator.PortWaitMissesEarlierPeer | Coordinator.Server.PortsPendingPass |
| manager.py:154-157 | Each peer's answer overwrites the readiness flag, so READY is reached when the LAST peer is ready. | readiness answers [false, true]: the flag is true | Move to READY only when EVERY peer is ready. | high; not executed | Coordinator.ReadinessPass, Coordinator.ReadinessPassMissesEarlierPeer | Coordinator.AllReadyPass |
