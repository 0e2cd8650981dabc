/** The server's receive loop: every datagram becomes at most one event for the consumer thread. */
module Ingress {
  import opened Protocol
  import opened Registry

  /** The result of `serde_json::from_slice::<Packets>` on the received bytes. */
  datatype Decoded = Malformed | Parsed(packet: Packet)

  /** One `recv_from`: an error, or `size` bytes from `client` that decode to `decoded`. */
  datatype Incoming =
    | RecvError
    | Received(size: nat, client: SocketAddr, decoded: Decoded)

  /**
   * The event for a datagram of `size` bytes from `client`. An empty datagram is a
   * disconnect; otherwise only login and chat requests produce an event.
   */
  function Classify(size: nat, client: SocketAddr, decoded: Decoded): (r: Option<Message>)
    ensures r.Some? ==> r.value.addr == client
    ensures r.Some? <==> size == 0 || (decoded.Parsed? && (decoded.packet.LoginReq? || decoded.packet.ChatReq?))
    ensures r.Some? && r.value.Logout? <==> size == 0
  {
    if size == 0 then Some(Logout(client))
    else match decoded
      case Malformed => None
      case Parsed(LoginReq(name)) => Some(Login(client, name))
      case Parsed(ChatReq(contents)) => Some(Chat(client, contents))
      case Parsed(_) => None
  }

  /** Each kind of datagram, and the event it yields. */
  lemma ClassifyCases(size: nat, client: SocketAddr, decoded: Decoded)
    ensures size == 0 ==> Classify(size, client, decoded) == Some(Logout(client))
    ensures size > 0 && decoded.Malformed? ==> Classify(size, client, decoded) == None
    ensures size > 0 && decoded.Parsed? && decoded.packet.LoginReq? ==>
              Classify(size, client, decoded) == Some(Login(client, decoded.packet.name))
    ensures size > 0 && decoded.Parsed? && decoded.packet.ChatReq? ==>
              Classify(size, client, decoded) == Some(Chat(client, decoded.packet.contents))
    ensures size > 0 && decoded.Parsed? && (decoded.packet.ChatNotify? || decoded.packet.Ping?) ==>
              Classify(size, client, decoded) == None
  {
  }

  /** A datagram that yields `m`: an empty one for a logout, otherwise the matching request. */
  function Origin(m: Message): (x: Incoming)
    ensures x.Received? && x.client == m.addr
  {
    match m
    case Logout(a) => Received(0, a, Malformed)
    case Login(a, n) => Received(1, a, Parsed(LoginReq(n)))
    case Chat(a, c) => Received(1, a, Parsed(ChatReq(c)))
  }

  /** Every event the consumer understands can come off the wire, and carries its payload unchanged. */
  lemma ClassifyOrigin(m: Message)
    ensures var x := Origin(m); Classify(x.size, x.client, x.decoded) == Some(m)
  {
  }

  /** Two datagrams from one client that yield the same event carry the same payload. */
  lemma ClassifyInjective(s1: nat, s2: nat, client: SocketAddr, d1: Decoded, d2: Decoded)
    requires s1 > 0 && s2 > 0
    requires Classify(s1, client, d1).Some? && Classify(s1, client, d1) == Classify(s2, client, d2)
    ensures d1 == d2
  {
    assert d1.Parsed? && d2.Parsed?;
  }

  /** The events one `recv_from` pushes onto the channel: none or one. */
  function Accept(x: Incoming): (r: seq<Message>)
    ensures |r| <= 1
    ensures x.RecvError? ==> r == []
  {
    match x
    case RecvError => []
    case Received(size, client, decoded) =>
      match Classify(size, client, decoded)
      case None => []
      case Some(m) => [m]
  }

  /** The channel contents after a run of `recv_from` results, in receipt order. */
  function Events(xs: seq<Incoming>): (r: seq<Message>)
    ensures |r| <= |xs|
    decreases |xs|
  {
    if xs == [] then [] else Events(xs[..|xs| - 1]) + Accept(xs[|xs| - 1])
  }

  /** The channel is first-in first-out: later datagrams' events come after earlier ones'. */
  lemma {:induction false} EventsAppend(xs: seq<Incoming>, ys: seq<Incoming>)
    ensures Events(xs + ys) == Events(xs) + Events(ys)
    decreases |ys|
  {
    if ys == [] {
      assert xs + ys == xs;
    } else {
      var ys' := ys[..|ys| - 1];
      assert (xs + ys)[..|xs + ys| - 1] == xs + ys';
      EventsAppend(xs, ys');
    }
  }

  /** Every queued event names the client of some received datagram. */
  lemma {:induction false} EventsFromClients(xs: seq<Incoming>, k: int)
    requires 0 <= k < |Events(xs)|
    ensures exists i :: 0 <= i < |xs| && xs[i].Received? && xs[i].client == Events(xs)[k].addr
    decreases |xs|
  {
    var init := xs[..|xs| - 1];
    if k < |Events(init)| {
      EventsFromClients(init, k);
      var i :| 0 <= i < |init| && init[i].Received? && init[i].client == Events(init)[k].addr;
      assert xs[i] == init[i];
    } else {
      assert xs[|xs| - 1].Received?;
    }
  }

  /**
   * The receive loop over a finite run of `recv_from` results: receive errors and
   * undecodable datagrams are skipped, everything else goes onto the queue.
   */
  method Listen(incoming: seq<Incoming>) returns (queue: seq<Message>)
    ensures queue == Events(incoming)
  {
    queue := [];
    for i := 0 to |incoming|
      invariant queue == Events(incoming[..i])
    {
      assert incoming[..i + 1][..i] == incoming[..i];
      match incoming[i]
      case RecvError =>
        // reported; receive again
      case Received(size, client, decoded) =>
        var event := Classify(size, client, decoded);
        if event.Some? {
          queue := queue + [event.value];
        }
    }
    assert incoming[..|incoming|] == incoming;
  }

  /** An empty datagram from `a` ends its session, whatever came before. */
  lemma EmptyDatagramEndsSession(t: Table, xs: seq<Incoming>, a: SocketAddr, d: Decoded)
    ensures a !in Replay(t, Events(xs + [Received(0, a, d)]))
  {
    assert (xs + [Received(0, a, d)])[..|xs|] == xs;
    var es := Events(xs + [Received(0, a, d)]);
    assert es[..|es| - 1] == Events(xs);
  }

  /** A decodable login from `a` registers it under the requested name, whatever came before. */
  lemma LoginDatagramStartsSession(t: Table, xs: seq<Incoming>, size: nat, a: SocketAddr, n: string)
    requires size > 0
    ensures var r := Replay(t, Events(xs + [Received(size, a, Parsed(LoginReq(n)))]));
            a in r && r[a] == n
  {
    assert (xs + [Received(size, a, Parsed(LoginReq(n)))])[..|xs|] == xs;
    var es := Events(xs + [Received(size, a, Parsed(LoginReq(n)))]);
    assert es[..|es| - 1] == Events(xs);
  }
}
