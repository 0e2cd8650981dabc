# udp-chat server: session registry and dispatcher, modelled in Dafny

The udp-chat server keeps one table, `Users`, that maps each client's UDP address to the
display name it logged in with. One consumer thread owns this table. It takes events from
a channel one at a time, in order:

- `Login` sets the entry for the sender's address, overwriting any earlier name.
- `Logout` removes the entry; this is a no-op if the address is absent.
- `Chat` from a registered sender relays `ChatNotify{name, contents}` to every registered
  address, the sender included. The relay is refused as a whole when the encoded notify is
  not strictly smaller than `MAX_PACKET_SIZE` (2048 bytes). A failed `send_to` to one
  recipient is reported and the remaining sends still happen. A chat from an unregistered
  address does nothing.

The receive loop turns each datagram into at most one event:

- an empty datagram becomes `Logout`;
- an undecodable one is dropped;
- `LoginReq` becomes `Login` and `ChatReq` becomes `Chat`;
- other packet kinds are ignored.

Files and modules:

- `protocol.dfy`, module `Protocol`: the `Packets` enum, socket addresses and the size ceiling.
- `net.dfy`, module `Net`: the send side of the socket. It is an append-only log of
  `send_to` calls. Each record holds the destination, the packet and whether the call
  succeeded. An oracle function `network` decides that outcome from the number of earlier
  calls and the destination, so a destination can fail once and succeed later.
- `registry.dfy`, module `Registry`: the `Users` class and the `Message` events. The
  functions `Step` and `Replay` give the table after one event and after a sequence of
  events. `Effect` gives, as a multiset of (address, packet) pairs, what one event sends.
  `Handle` is one turn of the consumer loop and `Dispatch` is the whole consumer thread.
  The lemmas describe the table after any event sequence and what each chat sends.
- `ingress.dfy`, module `Ingress`: `Classify` (one datagram to at most one event), `Listen`
  (the receive loop over a finite run of `recv_from` results), and lemmas that follow
  datagrams all the way into the table.

Modelling choices:

- Socket addresses are IPv4 address and port only, because the server binds `0.0.0.0`
  (src/server.rs:60) and so only ever sees IPv4 peers.
- The JSON encoder is an abstract length `jsonLen: Packet -> nat`. It is passed to `Send`,
  `Handle` and `Dispatch`.
- The JSON decoder's result is an input (`Decoded`).
- HashMap iteration order is unspecified. So `Send` picks the next recipient
  nondeterministically, and its contract is stated as a multiset of (address, packet) pairs.
- `Dispatch` also returns, as a ghost value, the stretch of the socket log written for each
  event. Its contract says that the log is these stretches in event order, and that each
  stretch is exactly what `Effect` prescribes for the table as it stood at that event.

`Ping` is declared (src/lib.rs:10) and ignored on receipt (src/server.rs:122), so `Classify`
yields no event for it.

## Model

| member | source | states |
|---|---|---|
| `Net.Socket.SendTo` | src/server.rs:44-47 | one `send_to` appends exactly one record to the log; the call succeeds exactly when the network lets this call, the how-many-th it is, to that destination through |
| `Protocol.Fits` | src/server.rs:40 | a packet may be sent exactly when its encoding is strictly shorter than `MAX_PACKET_SIZE`, 2048 bytes (src/lib.rs:3) |
| `Registry.Users.constructor` | src/server.rs:14-18 | a new `Users` starts with no registered address |
| `Registry.Users.AddUser` | src/server.rs:20-22 | after `add_user(a, n)`, `get_name(a)` is `Some(n)`; every other address keeps its entry; the table grows by one only if `a` was absent, so a re-login overwrites and never duplicates |
| `Registry.Users.RemoveUser` | src/server.rs:24-26 | after `remove_user(a)`, `get_name(a)` is `None`; other entries are untouched; removing an absent address leaves the table unchanged |
| `Registry.Users.GetName` | src/server.rs:28-30 | reads the table without changing it; returns `Some` exactly when the address is a key, and then the stored name |
| `Registry.Users.Send` | src/server.rs:32-50 | if the encoded notify is under 2048 bytes, exactly one `ChatNotify{name, contents}` is sent to each registered address and to no other, whichever sends fail; otherwise nothing is sent; earlier log entries are untouched |
| `Registry.Broadcast` | src/server.rs:43-48 | the send loop issues exactly one `send_to` of the packet per address in the table, in unspecified order; a failed send does not stop the loop, because the contract holds whatever the network does |
| `Registry.Fanout` | src/server.rs:43-48 | the datagrams of one pass of the send loop, as an unordered multiset: one (address, packet) pair per key; its counts are stated by `FanoutCount` and its size by `FanoutSize` |
| `Registry.FanoutCount` | src/server.rs:43-44 | a broadcast holds each (address, packet) pair once if the address is registered and the packet is the notify, and zero times otherwise |
| `Registry.FanoutSize` | src/server.rs:43-48 | a broadcast to the table costs exactly as many datagrams as there are registered addresses |
| `Registry.Step` | src/server.rs:69-82 | a login sets the sender's entry to the given name; a logout removes the sender's entry; every address the event does not log in or out keeps its entry, so a chat changes nothing |
| `Registry.Replay` | src/server.rs:68-83 | the table after the `for msg in receiver` loop has applied each event in order; what it holds is stated by `SessionTable`, `ReplayLastTouch`, `ReplayUntouched` and `ReplayKeys` |
| `Registry.ReplayKeys` | src/server.rs:68-83 | after any event sequence, every registered address was registered at the start or logged in somewhere in the sequence |
| `Registry.Effect` | src/server.rs:76-81 | through `send` (src/server.rs:38-48), a chat from a registered sender whose notify fits sends exactly one datagram per registered address, one of them the notify to the sender itself; every other event, and a chat that is unregistered or oversized, sends nothing |
| `Registry.Handle` | src/server.rs:69-82 | one event moves the table to `Step` of it; a chat sends exactly `Effect` of the table before it; sends only append to the log |
| `Registry.Dispatch` | src/server.rs:65-83 | starting from an empty table, the table after the events is `Replay` of them; the socket log grows by one stretch per event, in event order, and each stretch is exactly what that event sends given the table at that point |
| `Registry.EventLogAt` | src/server.rs:68-83 | reads the per-event send log back one event at a time |
| `Registry.StepFrame` | src/server.rs:69-82 | an event that neither logs an address in nor out leaves that address's entry unchanged |
| `Registry.ChatKeepsTable` | src/server.rs:76-81 | a chat event never changes the table |
| `Registry.ReplayUntouched` | src/server.rs:68-83 | an address never logged in or out keeps its initial entry through any event sequence |
| `Registry.ReplayLastTouch` | src/server.rs:68-83 | from any starting table, the last login or logout of an address alone decides its entry: present with that login's name, or absent after a logout |
| `Registry.LastTouchExists` | src/server.rs:68-83 | every address is either never logged in or out, or has a last such event |
| `Registry.SessionTable` | src/server.rs:66-83 | from the empty table, an address is registered exactly when its last login is not followed by a logout, and it maps to the name from that last login |
| `Registry.UnregisteredChatIsIgnored` | src/server.rs:76-81 | a chat from an unregistered address sends nothing and leaves the table unchanged |
| `Registry.OversizedChatIsDropped` | src/server.rs:38-41 | a notify whose encoding is 2048 bytes or more is sent to no one |
| `Registry.SessionEventsAreSilent` | src/server.rs:70-75 | logins and logouts send nothing |
| `Registry.ChatReachesEveryone` | src/server.rs:76-81 | a chat from a registered sender whose notify fits reaches every registered address exactly once, the sender included, reaches no other address, and costs one datagram per registered address |
| `Registry.TwoClientsScenario` | src/server.rs:70-81 | after logins of alice and bob, a chat "hi" from alice sends `ChatNotify{"alice", "hi"}` to both of them and nothing else |
| `Registry.LogoutThenChatScenario` | src/server.rs:73-81 | after a logout, a chat from that address reaches no one |
| `Ingress.Classify` | src/server.rs:94-123 | an event is produced exactly for an empty datagram or a decoded login or chat request; it always carries the sender's address; it is a logout exactly when the datagram is empty |
| `Ingress.ClassifyCases` | src/server.rs:95-122 | empty gives `Logout(client)`; undecodable gives no event; `LoginReq{name}` gives `Login(client, name)`; `ChatReq{contents}` gives `Chat(client, contents)`; `ChatNotify` and `Ping` give none |
| `Ingress.Origin` | src/server.rs:95-121 | gives, for each event kind, a datagram from that event's address |
| `Ingress.ClassifyOrigin` | src/server.rs:95-121 | every event kind can be produced from some datagram, with its name or contents unchanged |
| `Ingress.ClassifyInjective` | src/server.rs:109-121 | two non-empty datagrams from one client that yield the same event decoded to the same packet |
| `Ingress.Accept` | src/server.rs:86-123 | one `recv_from` result queues at most one event, and a receive error queues none |
| `Ingress.Events` | src/server.rs:86-124 | a run of datagrams queues no more events than it has datagrams |
| `Ingress.EventsAppend` | src/server.rs:86-124 | events are queued in receipt order: the events of two runs, one after the other, are the first run's events followed by the second's |
| `Ingress.EventsFromClients` | src/server.rs:94-121 | every queued event names the sender of some received datagram |
| `Ingress.Listen` | src/server.rs:86-124 | the receive loop queues exactly `Events` of what it received, skipping receive errors and undecodable datagrams |
| `Ingress.EmptyDatagramEndsSession` | src/server.rs:95-99 | once an empty datagram from an address has been dispatched, that address is not registered, whatever came before |
| `Ingress.LoginDatagramStartsSession` | src/server.rs:111-116 | once a decodable login from an address has been dispatched, that address is registered under the requested name, whatever came before |

## Left out

- UDP socket binding, `recv_from` and the bytes sent by `send_to` are left out because they are I/O. Sends are a log of (address, packet, outcome) records; receives are a finite sequence of `Incoming` values.
- The thread spawn and the crossbeam channel are about concurrency, which is not modelled. The consumer is sequential processing of a finite event sequence, and the channel is the sequence built by `Listen`.
- `serde_json` encoding and decoding are a foreign library. The encoded length is the abstract `jsonLen`, the decode result is an input, and the encode/decode round trip is not modelled.
- The 2048-byte receive buffer, which truncates longer datagrams, is not modelled. Its effect reaches the server only through the decode result.
- `eprintln!` logging has no effect on state, so it is left out.
- The `unwrap()` panics on a closed channel are left out, because the consumer thread never closes it.
- Heartbeat, liveness timestamps, the timer tick, the eviction sweep and the probe are not in the code, so the model does not invent them.
- `src/client.rs` is not part of this model. It does terminal I/O and random name generation, and its size check repeats the server's.
