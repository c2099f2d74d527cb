/** Peer identities. A peer is known on the wire by the text "host:port",
    built the way Python's '{}:{}'.format(host, port) builds it. */
module Addresses {

  type Address = string

  datatype Option<+T> = None | Some(value: T)

  /** The elements of `s` are pairwise different. */
  predicate Distinct<T(==)>(s: seq<T>) {
    forall i, j :: 0 <= i < j < |s| ==> s[i] != s[j]
  }

  function DigitChar(d: nat): char
    requires d < 10
  {
    "0123456789"[d]
  }

  /** Decimal text of a natural number, most significant digit first. */
  function NatText(n: nat): (t: string)
    ensures |t| > 0
    ensures forall k :: 0 <= k < |t| ==> '0' <= t[k] <= '9'
    decreases n
  {
    if n < 10 then [DigitChar(n)] else NatText(n / 10) + [DigitChar(n % 10)]
  }

  /** Python's str() of an integer. */
  function IntText(i: int): (t: string)
    ensures |t| > 0 && (t[0] == '-' || '0' <= t[0] <= '9')
  {
    if i < 0 then "-" + NatText(-i) else NatText(i)
  }

  /** The address text of a peer: host, a colon, and the port as Python formats
      it; a port that is still None is formatted as "None". */
  function AddressText(host: string, port: Option<int>): (a: Address) {
    host + ":" + (if port.Some? then IntText(port.value) else "None")
  }

  /** The address starts with the host and a colon, and it is the text
      "host:None" exactly when the port is unknown: a known port, negative
      or not, never prints as "None". */
  lemma AddressTextParts(host: string, port: Option<int>)
    ensures AddressText(host, port)[..|host|] == host && AddressText(host, port)[|host|] == ':'
    ensures port.None? <==> AddressText(host, port) == host + ":None"
  {
    var t := if port.Some? then IntText(port.value) else "None";
    assert AddressText(host, port) == host + ":" + t;
    assert (host + ":" + t)[|host| + 1] == t[0];
  }
}
