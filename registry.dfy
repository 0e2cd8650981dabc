/** The server's session registry (`Users`) and the single consumer that applies events to it. */
module Registry {
  import opened Protocol
  import opened Net

  /** The contents of the `users` HashMap: client address to display name. */
  type Table = map<SocketAddr, string>

  /** The events the ingress loop hands to the consumer thread. */
  datatype Message =
    | Login(addr: SocketAddr, name: string)
    | Chat(addr: SocketAddr, contents: string)
    | Logout(addr: SocketAddr)

  /** One datagram carrying `p` to every address in `keys`, each exactly once. */
  function Fanout(keys: set<SocketAddr>, p: Packet): multiset<(SocketAddr, Packet)>
  {
    multiset(set a | a in keys :: (a, p))
  }

  lemma FanoutCount(keys: set<SocketAddr>, p: Packet, a: SocketAddr, q: Packet)
    ensures Fanout(keys, p)[(a, q)] == if a in keys && q == p then 1 else 0
  {
    if a in keys && q == p {
      assert (a, q) in set x | x in keys :: (x, p);
    }
  }

  lemma FanoutAdd(keys: set<SocketAddr>, a: SocketAddr, p: Packet)
    requires a !in keys
    ensures Fanout(keys + {a}, p) == Fanout(keys, p) + multiset{(a, p)}
  {
    forall x | true
      ensures Fanout(keys + {a}, p)[x] == (Fanout(keys, p) + multiset{(a, p)})[x]
    {
      FanoutCount(keys + {a}, p, x.0, x.1);
      FanoutCount(keys, p, x.0, x.1);
    }
  }

  lemma FanoutEmpty(p: Packet)
    ensures Fanout({}, p) == multiset{}
  {
    assert (set a: SocketAddr | a in {} :: (a, p)) == {};
  }

  /** A broadcast to `keys` costs exactly `|keys|` datagrams. */
  lemma {:induction false} FanoutSize(keys: set<SocketAddr>, p: Packet)
    ensures |Fanout(keys, p)| == |keys|
    decreases keys
  {
    if keys == {} {
      FanoutEmpty(p);
    } else {
      var a :| a in keys;
      FanoutSize(keys - {a}, p);
      FanoutAdd(keys - {a}, a, p);
      assert keys - {a} + {a} == keys;
    }
  }

  /** Sending to one more pending address extends the broadcast done so far by that address. */
  lemma BroadcastStep(keys: set<SocketAddr>, pending: set<SocketAddr>, p: Packet,
                      sent: seq<SendRecord>, record: SendRecord)
    requires pending <= keys && record.to in pending && record.packet == p
    requires Targets(sent) == Fanout(keys - pending, p)
    ensures Targets(sent + [record]) == Fanout(keys - (pending - {record.to}), p)
  {
    FanoutAdd(keys - pending, record.to, p);
    assert (keys - pending) + {record.to} == keys - (pending - {record.to});
    TargetsAppend(sent, [record]);
  }

  /**
   * The loop of `send`: one `send_to` per address in `keys`, in no particular order.
   * A failed send is only reported, so it does not stop the loop.
   */
  method Broadcast(socket: Socket, keys: set<SocketAddr>, packet: Packet)
    returns (ghost sent: seq<SendRecord>)
    modifies socket
    ensures socket.log == old(socket.log) + sent
    ensures Targets(sent) == Fanout(keys, packet)
  {
    sent := [];
    FanoutEmpty(packet);
    var pending := keys;
    while pending != {}
      invariant pending <= keys
      invariant socket.log == old(socket.log) + sent
      invariant Targets(sent) == Fanout(keys - pending, packet)
      decreases pending
    {
      var addr :| addr in pending;
      var ok := socket.SendTo(addr, packet);  // the outcome is only logged
      ghost var record := SendRecord(addr, packet, ok);
      BroadcastStep(keys, pending, packet, sent, record);
      sent := sent + [record];
      pending := pending - {addr};
    }
    assert keys - pending == keys;
  }

  /** The `Users` struct: owned by the consumer thread alone. */
  class Users {
    var users: Table

    constructor ()
      ensures users == map[]
    {
      users := map[];
    }

    /** `add_user`: a login at `addr` sets its name, overwriting any earlier one. */
    method AddUser(addr: SocketAddr, name: string)
      modifies this
      ensures users == old(users)[addr := name]
      ensures GetName(addr) == Some(name)
      ensures forall b :: b != addr ==> GetName(b) == old(GetName(b))
      ensures |users| == |old(users)| + (if addr in old(users) then 0 else 1)
    {
      users := users[addr := name];
    }

    /** `remove_user`: forget `addr`; nothing happens if it is not registered. */
    method RemoveUser(addr: SocketAddr)
      modifies this
      ensures users == old(users) - {addr}
      ensures GetName(addr) == None
      ensures forall b :: b != addr ==> GetName(b) == old(GetName(b))
      ensures addr !in old(users) ==> users == old(users)
    {
      users := users - {addr};
    }

    /** `get_name`: the stored name exactly when `addr` is registered. */
    function GetName(addr: SocketAddr): (r: Option<string>)
      reads this
      ensures r.Some? <==> addr in users
      ensures r.Some? ==> r.value == users[addr]
    {
      if addr in users then Some(users[addr]) else None
    }

    /**
     * `send`: relay `ChatNotify{name, contents}` to every registered address, the
     * sender included, in no particular order. An oversized notify is refused as a
     * whole; a failed `send_to` is only logged and the remaining sends still happen.
     */
    method Send(socket: Socket, name: string, contents: string, jsonLen: Packet -> nat)
      returns (ghost sent: seq<SendRecord>)
      modifies socket
      ensures socket.log == old(socket.log) + sent
      ensures Fits(jsonLen, ChatNotify(name, contents)) ==>
                Targets(sent) == Fanout(users.Keys, ChatNotify(name, contents))
      ensures !Fits(jsonLen, ChatNotify(name, contents)) ==> sent == []
    {
      var packet := ChatNotify(name, contents);
      sent := [];
      if Fits(jsonLen, packet) {
        sent := Broadcast(socket, users.Keys, packet);
      }
    }
  }

  /** Whether `m` is a login or logout of `a` (chat never changes the table). */
  predicate Touches(m: Message, a: SocketAddr)
  {
    !m.Chat? && m.addr == a
  }

  /** The table after one event: the dispatch `match`. */
  function Step(t: Table, m: Message): (r: Table)
    ensures m.Login? ==> m.addr in r && r[m.addr] == m.name
    ensures m.Logout? ==> m.addr !in r
    ensures forall b :: !Touches(m, b) ==> (b in r <==> b in t) && (b in t ==> r[b] == t[b])
  {
    match m
    case Login(a, n) => t[a := n]
    case Logout(a) => t - {a}
    case Chat(_, _) => t
  }

  /** The addresses that log in somewhere in `ms`. */
  function LoginAddrs(ms: seq<Message>): set<SocketAddr>
  {
    set j | 0 <= j < |ms| && ms[j].Login? :: ms[j].addr
  }

  /** The table after a sequence of events, processed in order. */
  function Replay(t: Table, ms: seq<Message>): Table
    decreases |ms|
  {
    if ms == [] then t else Step(Replay(t, ms[..|ms| - 1]), ms[|ms| - 1])
  }

  /** Only addresses that were there at the start or logged in on the way are registered. */
  lemma {:induction false} ReplayKeys(t: Table, ms: seq<Message>)
    ensures Replay(t, ms).Keys <= t.Keys + LoginAddrs(ms)
    decreases |ms|
  {
    if ms != [] {
      var init := ms[..|ms| - 1];
      ReplayKeys(t, init);
      forall a | a in LoginAddrs(init) ensures a in LoginAddrs(ms) {
        var j :| 0 <= j < |init| && init[j].Login? && init[j].addr == a;
        assert ms[j] == init[j];
      }
      assert ms[|ms| - 1].Login? ==> ms[|ms| - 1].addr in LoginAddrs(ms);
    }
  }

  /** The datagrams one event causes, with `t` the table when it is processed. */
  function Effect(t: Table, m: Message, jsonLen: Packet -> nat): (r: multiset<(SocketAddr, Packet)>)
    ensures m.Chat? && m.addr in t && Fits(jsonLen, ChatNotify(t[m.addr], m.contents)) ==>
              |r| == |t| && r[(m.addr, ChatNotify(t[m.addr], m.contents))] == 1
    ensures !(m.Chat? && m.addr in t && Fits(jsonLen, ChatNotify(t[m.addr], m.contents))) ==> r == multiset{}
  {
    match m
    case Chat(a, c) =>
      if a in t && Fits(jsonLen, ChatNotify(t[a], c)) then
        FanoutSize(t.Keys, ChatNotify(t[a], c));
        Fanout(t.Keys, ChatNotify(t[a], c))
      else multiset{}
    case _ => multiset{}
  }

  /**
   * `sent[i]` holds exactly the datagrams that `msgs[i]` causes, given the table
   * left by the events before it.
   */
  ghost predicate EventLog(msgs: seq<Message>, sent: seq<seq<SendRecord>>, jsonLen: Packet -> nat)
    decreases |msgs|
  {
    |sent| == |msgs| &&
    (msgs != [] ==>
      EventLog(msgs[..|msgs| - 1], sent[..|sent| - 1], jsonLen) &&
      Targets(sent[|sent| - 1]) == Effect(Replay(map[], msgs[..|msgs| - 1]), msgs[|msgs| - 1], jsonLen))
  }

  lemma EventLogSnoc(msgs: seq<Message>, sent: seq<seq<SendRecord>>, m: Message,
                     s: seq<SendRecord>, jsonLen: Packet -> nat)
    requires EventLog(msgs, sent, jsonLen)
    requires Targets(s) == Effect(Replay(map[], msgs), m, jsonLen)
    ensures EventLog(msgs + [m], sent + [s], jsonLen)
  {
    assert (msgs + [m])[..|msgs|] == msgs;
    assert (sent + [s])[..|sent|] == sent;
  }

  /** Reading `EventLog` event by event. */
  lemma {:induction false} EventLogAt(msgs: seq<Message>, sent: seq<seq<SendRecord>>, jsonLen: Packet -> nat, i: int)
    requires EventLog(msgs, sent, jsonLen) && 0 <= i < |msgs|
    ensures Targets(sent[i]) == Effect(Replay(map[], msgs[..i]), msgs[i], jsonLen)
    decreases |msgs|
  {
    if i < |msgs| - 1 {
      var init := msgs[..|msgs| - 1];
      EventLogAt(init, sent[..|sent| - 1], jsonLen, i);
      assert init[..i] == msgs[..i];
    }
  }

  lemma EventLogEach(msgs: seq<Message>, sent: seq<seq<SendRecord>>, jsonLen: Packet -> nat)
    requires EventLog(msgs, sent, jsonLen)
    ensures forall i :: 0 <= i < |msgs| ==>
              Targets(sent[i]) == Effect(Replay(map[], msgs[..i]), msgs[i], jsonLen)
  {
    forall i | 0 <= i < |msgs|
      ensures Targets(sent[i]) == Effect(Replay(map[], msgs[..i]), msgs[i], jsonLen)
    {
      EventLogAt(msgs, sent, jsonLen, i);
    }
  }

  /** One turn of the consumer loop. */
  method Handle(users: Users, socket: Socket, msg: Message, jsonLen: Packet -> nat)
    returns (ghost sent: seq<SendRecord>)
    modifies users, socket
    ensures users.users == Step(old(users.users), msg)
    ensures socket.log == old(socket.log) + sent
    ensures Targets(sent) == Effect(old(users.users), msg, jsonLen)
  {
    match msg
    case Login(addr, name) =>
      users.AddUser(addr, name);
      sent := [];
    case Logout(addr) =>
      users.RemoveUser(addr);
      sent := [];
    case Chat(addr, contents) =>
      var name := users.GetName(addr);
      if name.Some? {
        sent := users.Send(socket, name.value, contents, jsonLen);
      } else {
        sent := [];
      }
  }

  /**
   * The consumer thread: a fresh table, then every event in the order received.
   * `sent[i]` is the stretch of the socket log written while handling `msgs[i]`.
   */
  method Dispatch(socket: Socket, msgs: seq<Message>, jsonLen: Packet -> nat)
    returns (users: Users, ghost sent: seq<seq<SendRecord>>)
    modifies socket
    ensures fresh(users)
    ensures users.users == Replay(map[], msgs)
    ensures |sent| == |msgs| && socket.log == old(socket.log) + Flatten(sent)
    ensures EventLog(msgs, sent, jsonLen)
    ensures forall i :: 0 <= i < |msgs| ==>
              Targets(sent[i]) == Effect(Replay(map[], msgs[..i]), msgs[i], jsonLen)
  {
    users := new Users();
    sent := [];
    for i := 0 to |msgs|
      invariant fresh(users)
      invariant users.users == Replay(map[], msgs[..i])
      invariant |sent| == i && socket.log == old(socket.log) + Flatten(sent)
      invariant EventLog(msgs[..i], sent, jsonLen)
    {
      assert msgs[..i + 1][..i] == msgs[..i];
      assert msgs[..i + 1] == msgs[..i] + [msgs[i]];
      var s := Handle(users, socket, msgs[i], jsonLen);
      FlattenSnoc(old(socket.log), sent, s);
      EventLogSnoc(msgs[..i], sent, msgs[i], s, jsonLen);
      sent := sent + [s];
    }
    assert msgs[..|msgs|] == msgs;
    EventLogEach(msgs, sent, jsonLen);
  }

  // ---------------------------------------------------------------------------
  // What the table holds after a sequence of events

  /** Position `i` is the last login or logout of `a` in `ms`. */
  ghost predicate LastTouch(ms: seq<Message>, a: SocketAddr, i: int)
  {
    0 <= i < |ms| && Touches(ms[i], a) && forall j :: i < j < |ms| ==> !Touches(ms[j], a)
  }

  /** Position `i` is the last login of `a` in `ms`. */
  ghost predicate LastLogin(ms: seq<Message>, a: SocketAddr, i: int)
  {
    0 <= i < |ms| && ms[i].Login? && ms[i].addr == a &&
    forall j :: i < j < |ms| ==> !(ms[j].Login? && ms[j].addr == a)
  }

  /** Some logout of `a` comes after position `i`. */
  ghost predicate LoggedOutAfter(ms: seq<Message>, a: SocketAddr, i: int)
  {
    exists j :: 0 <= j < |ms| && i < j && ms[j] == Logout(a)
  }

  /** An event that neither logs `a` in nor out leaves `a`'s entry as it was. */
  lemma StepFrame(t: Table, m: Message, a: SocketAddr)
    requires !Touches(m, a)
    ensures a in Step(t, m) <==> a in t
    ensures a in t ==> Step(t, m)[a] == t[a]
  {
  }

  /** Chat events never change the table. */
  lemma ChatKeepsTable(t: Table, a: SocketAddr, c: string)
    ensures Step(t, Chat(a, c)) == t
  {
  }

  /** With no login or logout of `a`, its entry is the one it started with. */
  lemma {:induction false} ReplayUntouched(t: Table, ms: seq<Message>, a: SocketAddr)
    requires forall j :: 0 <= j < |ms| ==> !Touches(ms[j], a)
    ensures a in Replay(t, ms) <==> a in t
    ensures a in t ==> Replay(t, ms)[a] == t[a]
    decreases |ms|
  {
    if ms != [] {
      var init := ms[..|ms| - 1];
      ReplayUntouched(t, init, a);
      StepFrame(Replay(t, init), ms[|ms| - 1], a);
    }
  }

  /** The last login or logout of `a` alone decides `a`'s entry, whatever the starting table. */
  lemma {:induction false} ReplayLastTouch(t: Table, ms: seq<Message>, a: SocketAddr, i: int)
    requires LastTouch(ms, a, i)
    ensures a in Replay(t, ms) <==> ms[i].Login?
    ensures ms[i].Login? ==> Replay(t, ms)[a] == ms[i].name
    decreases |ms|
  {
    var init := ms[..|ms| - 1];
    if i < |ms| - 1 {
      assert LastTouch(init, a, i);
      ReplayLastTouch(t, init, a, i);
      StepFrame(Replay(t, init), ms[|ms| - 1], a);
    }
  }

  /** Either `a` is never logged in or out, or there is a last time it is. */
  lemma {:induction false} LastTouchExists(ms: seq<Message>, a: SocketAddr)
    ensures (forall j :: 0 <= j < |ms| ==> !Touches(ms[j], a)) || exists i :: LastTouch(ms, a, i)
    decreases |ms|
  {
    if ms != [] && !Touches(ms[|ms| - 1], a) {
      var init := ms[..|ms| - 1];
      LastTouchExists(init, a);
      if i :| LastTouch(init, a, i) {
        assert LastTouch(ms, a, i);
      }
    } else if ms != [] {
      assert LastTouch(ms, a, |ms| - 1);
    }
  }

  /**
   * Starting from the empty table, the registered addresses are exactly those whose
   * last login is not followed by a logout, each with the name from that last login.
   */
  lemma SessionTable(ms: seq<Message>, a: SocketAddr)
    ensures a in Replay(map[], ms) <==> exists i :: LastLogin(ms, a, i) && !LoggedOutAfter(ms, a, i)
    ensures forall i :: LastLogin(ms, a, i) && !LoggedOutAfter(ms, a, i) ==> Replay(map[], ms)[a] == ms[i].name
  {
    forall i | LastLogin(ms, a, i) && !LoggedOutAfter(ms, a, i)
      ensures a in Replay(map[], ms) && Replay(map[], ms)[a] == ms[i].name
    {
      forall j | i < j < |ms| ensures !Touches(ms[j], a) {
        assert ms[j] != Logout(a);
      }
      ReplayLastTouch(map[], ms, a, i);
    }
    if a in Replay(map[], ms) {
      LastTouchExists(ms, a);
      if k :| LastTouch(ms, a, k) {
        ReplayLastTouch(map[], ms, a, k);
        assert LastLogin(ms, a, k);
      } else {
        ReplayUntouched(map[], ms, a);
      }
    }
  }

  // ---------------------------------------------------------------------------
  // What a chat event sends

  /** A chat from an unregistered address sends nothing and changes nothing. */
  lemma UnregisteredChatIsIgnored(t: Table, a: SocketAddr, c: string, jsonLen: Packet -> nat)
    requires a !in t
    ensures Effect(t, Chat(a, c), jsonLen) == multiset{}
    ensures Step(t, Chat(a, c)) == t
  {
  }

  /** An oversized notify is never sent, to any recipient. */
  lemma OversizedChatIsDropped(t: Table, a: SocketAddr, c: string, jsonLen: Packet -> nat)
    requires a in t && !Fits(jsonLen, ChatNotify(t[a], c))
    ensures Effect(t, Chat(a, c), jsonLen) == multiset{}
  {
  }

  /** Logins and logouts send nothing. */
  lemma SessionEventsAreSilent(t: Table, m: Message, jsonLen: Packet -> nat)
    requires !m.Chat?
    ensures Effect(t, m, jsonLen) == multiset{}
  {
  }

  /**
   * A chat from a registered sender whose notify fits sends `ChatNotify{name, contents}`
   * exactly once to every registered address, the sender included, and nothing else.
   */
  lemma ChatReachesEveryone(t: Table, a: SocketAddr, c: string, jsonLen: Packet -> nat, b: SocketAddr, q: Packet)
    requires a in t && Fits(jsonLen, ChatNotify(t[a], c))
    ensures Effect(t, Chat(a, c), jsonLen)[(b, q)] == if b in t && q == ChatNotify(t[a], c) then 1 else 0
    ensures Effect(t, Chat(a, c), jsonLen)[(a, ChatNotify(t[a], c))] == 1
    ensures |Effect(t, Chat(a, c), jsonLen)| == |t|
  {
    FanoutCount(t.Keys, ChatNotify(t[a], c), b, q);
    FanoutCount(t.Keys, ChatNotify(t[a], c), a, ChatNotify(t[a], c));
    FanoutSize(t.Keys, ChatNotify(t[a], c));
  }

  /** Two logins, then a chat from the first: both clients receive the notify. */
  lemma TwoClientsScenario(a1: SocketAddr, a2: SocketAddr, jsonLen: Packet -> nat)
    requires a1 != a2 && Fits(jsonLen, ChatNotify("alice", "hi"))
    ensures var t := Replay(map[], [Login(a1, "alice"), Login(a2, "bob")]);
            Effect(t, Chat(a1, "hi"), jsonLen)
              == multiset{(a1, ChatNotify("alice", "hi")), (a2, ChatNotify("alice", "hi"))}
  {
    var ms := [Login(a1, "alice"), Login(a2, "bob")];
    assert ms[..1][..0] == [];
    assert Replay(map[], ms[..1]) == map[a1 := "alice"];
    var t := Replay(map[], ms);
    assert t == map[a1 := "alice", a2 := "bob"];
    var p := ChatNotify("alice", "hi");
    FanoutEmpty(p);
    FanoutAdd({}, a1, p);
    assert {a1} + {a2} == t.Keys;
    FanoutAdd({a1}, a2, p);
  }

  /** After a logout, a chat from that address reaches no one. */
  lemma LogoutThenChatScenario(t: Table, ms: seq<Message>, a: SocketAddr, c: string, jsonLen: Packet -> nat)
    ensures Effect(Replay(t, ms + [Logout(a)]), Chat(a, c), jsonLen) == multiset{}
  {
    assert (ms + [Logout(a)])[..|ms|] == ms;
  }
}
