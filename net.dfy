/** The send side of the server's UDP socket, seen as an append-only log of `send_to` calls. */
module Net {
  import opened Protocol

  /** One `send_to` call: the destination, the packet whose encoding was sent, and whether the call succeeded. */
  datatype SendRecord = SendRecord(to: SocketAddr, packet: Packet, ok: bool)

  /**
   * The socket. Whether a send succeeds is up to the network, given as the oracle
   * `network`, which sees how many calls came before and the destination.
   */
  class Socket {
    const network: (nat, SocketAddr) -> bool
    var log: seq<SendRecord>

    constructor (network: (nat, SocketAddr) -> bool)
      ensures this.network == network && log == []
    {
      this.network := network;
      log := [];
    }

    /** `send_to`: one datagram to one address; the call is recorded whether or not it succeeds. */
    method SendTo(to: SocketAddr, packet: Packet) returns (ok: bool)
      modifies this
      ensures ok == network(|old(log)|, to)
      ensures log == old(log) + [SendRecord(to, packet, ok)]
    {
      ok := network(|log|, to);
      log := log + [SendRecord(to, packet, ok)];
    }
  }

  /** The (destination, packet) pairs of a stretch of the log, regardless of order. */
  function Targets(log: seq<SendRecord>): (m: multiset<(SocketAddr, Packet)>)
    ensures |m| == |log|
  {
    if log == [] then multiset{}
    else Targets(log[..|log| - 1]) + multiset{(log[|log| - 1].to, log[|log| - 1].packet)}
  }

  /** Splitting the log splits its targets. */
  lemma {:induction false} TargetsAppend(a: seq<SendRecord>, b: seq<SendRecord>)
    ensures Targets(a + b) == Targets(a) + Targets(b)
    decreases |b|
  {
    if b == [] {
      assert a + b == a;
    } else {
      var b' := b[..|b| - 1];
      assert (a + b)[..|a + b| - 1] == a + b';
      TargetsAppend(a, b');
    }
  }

  /** The records of a sequence of log stretches, one after the other. */
  function Flatten(chunks: seq<seq<SendRecord>>): (r: seq<SendRecord>)
  {
    if chunks == [] then [] else Flatten(chunks[..|chunks| - 1]) + chunks[|chunks| - 1]
  }

  /** Appending one more stretch to a log that is already a concatenation of stretches. */
  lemma FlattenSnoc(base: seq<SendRecord>, chunks: seq<seq<SendRecord>>, s: seq<SendRecord>)
    ensures base + Flatten(chunks + [s]) == base + Flatten(chunks) + s
  {
    assert (chunks + [s])[..|chunks|] == chunks;
  }
}
