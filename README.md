# Chat matchmaking server — a Dafny model

This project models the core of a small websocket chat server written in Go
(`main.go`). Every connecting client gets a random ID of the form
`user_N`. The client is registered in a map from ID to user and appended to
a FIFO waiting list. The server then pairs waiting users two at a time from
the front of the list and tells each of them who its partner is. Each
client then runs a relay loop: every frame it sends is decoded as a JSON
chat message, forwarded to its current peer (if it has one) and echoed back
to the sender. The loop ends at the first failing read or write. When it
ends, the client is torn down: its peer, if any, is told, loses its peer
and goes back to the tail of the waiting list. The client's ID is then
deleted from the registry, and the first waiting-list entry with that ID is
spliced out.

The model has five modules:

- `Users` (`users.dfy`) holds the shared records:
  - the user, as a class with an immutable `id` and a mutable `peer` reference;
  - the chat message;
  - the payloads the server writes;
  - a `Delivery` (a payload written on a given user's connection).
- `Queue` (`queue.dfy`) is the waiting list's splice: remove the first
  entry carrying an ID, and prove that this is a splice at that entry's index.
- `Matchmaking` (`matchmaking.dfy`) is the shared state as a value
  `State(clients, waiting, peerOf)`. Its transitions are `Register`,
  `PairFront`, `Match`, `Join` and `Teardown`, together with the notices
  they write. It holds the consistency invariant `Inv` and the lemmas about
  all of these, including two whole scenarios.
- `Relay` (`relay.dfy`) covers one connection's relay loop:
  - `Step` handles one frame;
  - `Run` runs over a script of read outcomes;
  - `RelayLoop` is the imperative loop, proved equal to `Run`;
  - lemmas state the order and extent of what the loop writes.
- `ChatServer` (`server.dfy`) holds the server's shared state as a class.
  The registry and the waiting list are its fields, and the peer fields live
  in the user objects. Each locked section of the source is one method,
  proved against the matching transition through the abstraction `Abs()`.

The model follows the code wherever the code and the design intent differ:

- **Teardown is not idempotent.** `disconnectUser` never clears the
  departing user's own peer field. A second teardown of the same user would
  queue the former peer a second time (`TeardownTwiceRequeuesAgain`). The
  source calls it exactly once, from the deferred call in `handleMessages`.
- **A failed forward ends the sender's loop.** It does not tear down the
  peer whose connection failed.
- **Nothing rejects a repeated ID.** See Findings.
- **A teardown never re-runs matching.** The peer goes back on the list,
  but nothing pairs it until someone else connects. See Findings.
- **A malformed frame is forwarded, not dropped.** A frame that fails to
  decode, or has an empty type, is only logged. The decoder's zero or
  partly filled message is still forwarded to the peer, and the raw frame
  is echoed.

Both defects listed under Findings are modelled twice. The as-written
operations are `ConnectAsWritten`, `DisconnectUser`, `HandleMessages` and
`HandleWebSocketAsWritten`. The corrected ones are:

- `Connect` and `ConnectFirstFree`, which refuse a taken ID and draw the next candidate;
- `DisconnectAndMatch`, which matches again after a teardown;
- `HandleWebSocket`, the corrected whole connection, built on those two.

## Model

| member | source | states |
|---|---|---|
| Users.User.constructor | main.go:15-19 | a new user holds the drawn ID and has no peer |
| Queue.RemoveFirst | main.go:91-96 | no contract: the body is the teardown's search and splice, removing the first entry with the ID; `RemoveFirstSplices` states what it means |
| Matchmaking.Register | main.go:53-55 | no contract: the body is the registration transition (registry entry, tail of the list, no peer) |
| Matchmaking.PairFront | main.go:68-72 | no contract: the body is one round of matching (front two leave the list and point at each other) |
| Matchmaking.Match | main.go:67-76 | no contract: the body repeats `PairFront` while two or more wait; `MatchLeavesOdd`, `PairsFifo` and `MatchLinksPairs` state what it does |
| Matchmaking.MatchNotices | main.go:74-75 | no contract: the body lists the two "matched" notices of each round; `MatchNoticesFifo` states them by position |
| Matchmaking.Join | main.go:53-59 | no contract: the body is a connection's transition, registration then matching |
| Matchmaking.Teardown | main.go:83-97 | no contract: the body is the disconnect transition; `TeardownSplices` states it for any state |
| Matchmaking.TeardownNotices | main.go:84 | no contract: the body is the one "disconnected_peer" notice to the peer, if there is one |
| Matchmaking.Leave | main.go:79-99 | no contract: the body is teardown followed by matching, the corrected departure; `LeaveRematches` states what it keeps |
| Relay.Step | main.go:124-138 | no contract: the body is one pass of the relay loop over a received frame; `StepSpec` states it |
| Relay.Run | main.go:106-139 | no contract: the body runs `Step` over the reads until one stops the loop; the Run lemmas state its output |
| Queue.IndexOf | main.go:91-92 | the position of the first waiting entry whose ID matches, or the list length; no earlier entry matches |
| Queue.RemoveFirstSplices | main.go:91-96 | removing the first entry with an ID cuts the list at that entry's index and keeps the rest in order; with no such entry the list is unchanged |
| Queue.RemoveFirstAbsent | main.go:91-97 | when no waiting entry carries the ID, the splice loop leaves the list as it is |
| Queue.SpliceKeepsOthers | main.go:93 | splicing out one entry of a list without repeats removes exactly that user, keeps every other one and keeps the list free of repeats |
| Matchmaking.PairsFifo | main.go:67-72 | n waiting users form n/2 pairs, and pair k is entries 2k and 2k+1: strictly longest-waiting first |
| Matchmaking.MatchLeavesOdd | main.go:67-70 | matching leaves exactly the last n mod 2 users waiting and does not touch the registry |
| Matchmaking.MatchLinksPairs | main.go:67-72 | after matching, the two members of every pair point at each other; every other user's peer is unchanged |
| Matchmaking.MatchNoticesFifo | main.go:74-75 | matching n users writes exactly 2*(n/2) "matched" notices, one to each paired user and naming its partner, in pair order |
| Matchmaking.InvPairFront | main.go:68-72 | pairing the two front users keeps the consistency invariant |
| Matchmaking.InvMatch | main.go:63-77 | matching keeps the consistency invariant: peers are symmetric, waiting users are unpaired, registered and distinct, and every unpaired registered user waits |
| Matchmaking.InvRegister | main.go:53-57 | registering a new user under a free ID keeps the invariant |
| Matchmaking.InvJoin | main.go:53-59 | registering under a free ID and then matching keeps the invariant |
| Matchmaking.TeardownSplices | main.go:83-97 | for any state, teardown appends the peer (if any) with its peer cleared, deletes only the user's ID from the registry and splices only the first entry with that ID |
| Matchmaking.TeardownRequeuesPeer | main.go:83-88 | in a consistent state, the peer of a departing paired user ends with no peer, is still registered and waits at the tail behind everyone already waiting; the departing user is no longer registered |
| Matchmaking.TeardownLeavesQueue | main.go:90-97 | in a consistent state, a departing waiting user is spliced out of the list and every other waiting user keeps its place; no peer changes |
| Matchmaking.InvTeardown | main.go:79-99 | tearing down a registered user keeps the invariant |
| Matchmaking.PairedLeaveStrandsTwo | main.go:79-99 | as written, when a paired user leaves while one other user waits, two unpaired users are left waiting |
| Matchmaking.LeaveRematches | main.go:79-99 | corrected: a departure followed by matching keeps the invariant, leaves at most one user waiting and removes only the departing ID |
| Matchmaking.TeardownTwiceRequeuesAgain | main.go:83-86 | a second teardown of the same paired user queues its former peer again, so teardown is not idempotent |
| Matchmaking.ThreeThenFour | main.go:53-97 | three users connect: the first two are paired and the third waits; the first leaves and its peer waits behind the third; a fourth connects: the third and second are paired and the fourth waits |
| Matchmaking.DuplicateIdStrandsUser | main.go:48-97 | a second user drawing a taken ID breaks the invariant; when the first holder leaves, the second loses its registry entry and its list entry while still connected and unpaired |
| Relay.StepSpec | main.go:124-138 | per frame: with a peer, a forward is written exactly when it succeeds; with none, only the echo; the echo is written, and the loop goes on, exactly when the forward (if any) and the echo both succeed; the exit reason names the failed write |
| Relay.RelayLoop | main.go:106-139 | the loop writes exactly what `Run` writes over the script and ends for the same reason |
| Relay.RunEndsAtFirstFailure | main.go:106-139 | the loop handles frames until the first failed read, forward or echo and no further; every frame before the last one handled succeeded |
| Relay.RunUnpairedOnlyEchoes | main.go:131-138 | without a peer, the output is the echo of each handled frame, in read order, and nothing else |
| Relay.RunPairedForwardsInOrder | main.go:124-138 | with a peer, the output alternates forward and echo, frame by frame in read order; a failed forward writes nothing for its frame; a failed echo leaves only the forward |
| Relay.MalformedFrameStillRelayed | main.go:114-122 | a frame that fails to decode, or has an empty type, is handled exactly like a well-formed one |
| ChatServer.SpliceFirst | main.go:91-97 | the search-and-splice loop computes `RemoveFirst` and introduces no new entry |
| ChatServer.Server.constructor | main.go:29-30 | the server starts with an empty registry, an empty list and the invariant |
| ChatServer.Server.PairFrontTwo | main.go:68-72 | one round of matching: the two front users leave the list and point at each other |
| ChatServer.Server.MatchUsers | main.go:63-77 | the new state is `Match` of the old one; the notices are the pair-by-pair "matched" notices of the old list |
| ChatServer.Server.ConnectAsWritten | main.go:48-59 | as written: acknowledge, register under the ID whether or not it is taken, queue at the tail and match; the new state is `Join` of the old one |
| ChatServer.FirstFree | main.go:48 | the index of the first candidate ID not in the registry, or the number of candidates when all are taken |
| ChatServer.Server.Connect | main.go:48-59 | corrected registration: a taken ID is refused and nothing changes; otherwise the state is `Join` of the old one, the user is registered, the writes are the acknowledgement then the "matched" notices, and the invariant is kept |
| ChatServer.Server.ConnectFirstFree | main.go:48-59 | corrected registration with redrawing: the first free candidate ID is used, with `Connect`'s state and writes; when all are taken nothing changes |
| ChatServer.Server.ReleasePeer | main.go:83-88 | the peer, if any, is told, loses its peer and is queued at the tail |
| ChatServer.Server.DisconnectUser | main.go:79-99 | the new state is `Teardown` of the old one, the notices are its notice to the peer, and a registered user's teardown keeps the invariant |
| ChatServer.Server.DisconnectAndMatch | main.go:79-99 | corrected departure: the new state is `Leave` of the old one; the writes are the teardown notice then the "matched" notices; a registered user's departure keeps the invariant and leaves at most one user waiting |
| ChatServer.Server.HandleMessages | main.go:101-139 | the relay loop's writes and exit reason are `Run`'s, followed by the teardown's notice; the state ends as `Teardown` of the state at the start |
| ChatServer.Server.HandleMessagesRematching | main.go:101-139 | the relay loop's writes and exit reason are `Run`'s, followed by the corrected departure's writes; the state ends as `Leave` of the state at the start |
| ChatServer.Server.HandleWebSocketAsWritten | main.go:41-61 | as written: a failed upgrade changes nothing; otherwise the state ends as `Teardown` after `Join` under the given ID, and the writes are the acknowledgement, the "matched" notices, the relay's writes and the teardown notice |
| ChatServer.Server.HandleWebSocket | main.go:41-61 | corrected: a failed upgrade, or all candidates taken, changes nothing and writes nothing; otherwise the user holds the first free candidate, the state ends as `Leave` after `Join`, the writes are the acknowledgement, the "matched" notices, the relay's writes, the teardown notice and the "matched" notices of the rematch; the invariant is kept |

## Left out

- WebSocket I/O is not modelled byte by byte. A read is modelled as a frame or a failure, and each write outcome is a flag on the frame.
- Delivered payloads are modelled as values. The JSON encoding of notices and forwarded messages is not part of this model.
- JSON decoding is not modelled. Each frame carries the decoder's result as an input: the decoded message, which is what gets forwarded, and a success flag, which only decides whether "invalid message format" would be logged.
- Random ID generation (`rand.Intn(1000)`) is not modelled. The as-written connection takes the drawn ID as a parameter. The corrected one takes the sequence of draws as a parameter.
- ChatServer.Server.HandleWebSocket: the draws are finite. When every candidate is taken, the connection is left with nothing registered and nothing written. A generator that draws again indefinitely is not modelled.
- Locking and concurrency are not modelled:
  - Each locked section is one atomic method.
  - There is no interleaving between connections.
  - The relay loop sees the peer the user has when it starts. In the source it re-reads `user.Peer` on every frame, so another connection's teardown can change the peer mid-loop.
- Logging, the `/debug` endpoint, `main` and the unused `mu_messages` mutex are not modelled.
- Write errors on notices are ignored, as in the source. Notices are always recorded as written.
- The connection object is represented by the `User` object itself.
- ChatServer.Server.MatchUsers: its contract does not restate that the invariant is kept. That follows from `Matchmaking.InvMatch` applied to its stated new state, which is how `Connect` and `DisconnectAndMatch` use it.

## Findings

| source | as written | input that shows it | evidently intended | confidence | as-written member | corrected member |
|---|---|---|---|---|---|---|
| main.go:48-55 with main.go:90-93 | a new connection is registered under a random ID from 1000 values without checking whether the ID is taken; teardown then deletes by ID | `a1` is paired with `b`; `a2` draws `a1`'s ID and waits; `a1` disconnects: the registry entry and the waiting entry for the ID, both `a2`'s, are removed, and `a2` stays connected but unregistered and never matched again (`Matchmaking.DuplicateIdStrandsUser`) | a taken ID is not reused: registration refuses it so another can be drawn, and one user's teardown never removes another | not executed | ChatServer.Server.ConnectAsWritten | ChatServer.Server.Connect |
| main.go:79-99 with main.go:101-104 | a teardown requeues the peer but never runs matching | `u1` is paired with `u2` and `u3` waits; `u1` disconnects: `u3` and `u2` both wait unpaired until a fourth user connects (`Matchmaking.PairedLeaveStrandsTwo`, `Matchmaking.ThreeThenFour`) | matching runs after every event that queues a user, so a departure leaves at most one user waiting | not executed | ChatServer.Server.DisconnectUser | ChatServer.Server.DisconnectAndMatch |
