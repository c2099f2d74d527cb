/** Messages of the control channel (coordinator <-> peer) and of the ring
    channel (peer <-> neighbour). Each message is one JSON object; here it is
    the object after decoding, with one `Field` per key the protocol uses. A
    decoded message as a whole is an `Option<Message>`: `None` is a JSON null. */
module Wire {
  import opened Addresses

  /** One key of a decoded JSON object: not there, there with value null, or
      there with a value. `'k' in d` is `!Absent?`; `d['k'] is not None` is
      `Present?`. */
  datatype Field<+T> = Absent | Null | Present(value: T)

  datatype DiningState = Thinking | Eating | Sleeping

  /** A peer's belief about the token: whether it holds it, and the address it
      will hand it to (None stands for Python's None). */
  datatype Token = Token(held: bool, next: Option<Address>)

  /** The statistics a peer reports: token, deadlocks, meals, messagesSent,
      messagesReceived. */
  datatype Stats = Stats(token: Token, deadlocks: nat, meals: nat, messagesSent: nat, messagesReceived: nat)

  datatype Message = Message(
    code: Field<string>,
    port: Field<int>,
    ready: Field<bool>,
    pairs: Field<seq<Address>>,
    mode: Field<string>,
    first: Field<Address>,
    withFork: Field<bool>,
    state: Field<DiningState>,
    stats: Field<Stats>)

  // Message codes of the control channel.
  const GetPort: string := "GET_PORT"
  const GetPortResponse: string := "GET_PORT_RESPONSE"
  const PostPairs: string := "POST_PAIRS"
  const PostPairResponse: string := "POST_PAIR_RESPONSE"
  const GetReady: string := "GET_READY"
  const GetReadyResponse: string := "GET_READY_RESPONSE"
  const PostBegin: string := "POST_BEGIN"
  const BeginResponse: string := "BEGIN_RESPONSE"
  const GetStatusInfo: string := "GET_STATUS_INFO"
  const GetStatusInfoResponse: string := "GET_STATUS_INFO_RESPONSE"
  const TimeToDie: string := "TIME_TO_DIE"
  const FinallyDeadResponse: string := "FINALLY_DEAD_RESPONSE"

  // Message codes of the ring channel.
  const GetForkStatus: string := "GET_FORK_STATUS"
  const GetForkStatusResponse: string := "GET_FORK_STATUS_RESPONSE"
  const PostToken: string := "POST_TOKEN"
  const PostTokenResponse: string := "POST_TOKEN_RESPONSE"

  /** The mode value that switches token passing on. */
  const TokenMode: string := "TOKEN"

  /** A message that has only a `code` key. */
  function Coded(code: string): (m: Message) {
    Message(Present(code), Absent, Absent, Absent, Absent, Absent, Absent, Absent, Absent)
  }

  /** The decoded message is an object whose `code` is `code`. */
  predicate HasCode(m: Option<Message>, code: string) {
    m.Some? && m.value.code == Present(code)
  }

  /** A present value, or Python's None for a null one. */
  function AsOption<T>(f: Field<T>): (o: Option<T>)
    requires !f.Absent?
  {
    if f.Present? then Some(f.value) else None
  }
}
