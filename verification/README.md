# Room chat relay — Dafny model

This project models the WebSocket relay server of a small room-based chat
system. Clients open a connection and send a `join` frame naming a room and a
display name. After that they send `chat` frames. The server relays each chat
as `{text, name}` to every other connection in the same room.

The server keeps one mutable list, the registry of `{socket, room, name}`
entries. Four handlers act on it:

- **join** appends an entry.
- **chat** finds the sender's first entry and sends to every entry in its room
  that belongs to another socket.
- **close** removes every entry of the socket.
- **error** only logs.

A frame that fails to decode is logged and dropped.

The model (all files under this directory):

- `seqs.dfy` (module `Seqs`): the two array operations the handlers use.
  `Filter` is JavaScript `filter`. `FindFirst` is JavaScript `findIndex`,
  with `None` in place of -1; the handler's `find` is `Relay.FindSender`,
  the entry at that position. Each comes with lemmas that pin it down
  completely: `FilterIndices` and `FilterByIndices` give order and
  one-per-match.
- `relay.dfy` (module `Relay`): the `User` entry, the registry as
  `seq<User>`, the decoded `Frame` (`Join | Chat | Other | Malformed`), the
  transport `Event`, and the outgoing `Delivery`. It also has one function per
  handler and the pure step function
  `Step(registry, conn, event) -> (registry', deliveries)`.
- `traces.dfy` (module `Traces`): `Run` composes `Step` over a sequence of
  events tagged with their connection. It holds lemmas over arbitrary traces,
  plus the worked scenarios.

Connection handles are `nat` ids. The server's `send` calls are not
performed. They are returned, in sending order, as `Delivery(to, payload)`
values.

Behaviour of the code that the model keeps as written:

- A second `join` from the same socket appends a second entry and does not
  replace the first (server/src/index.ts:29). `find` therefore keeps
  returning the first entry, so the sender keeps the name and room of its
  first join (`JoinKeepsFirstIdentity`). A socket that joined a room twice
  gets each chat there twice (`ChatCopiesPerEntry`, `ScenarioDuplicateJoin`).
- The error handler only logs (server/src/index.ts:59-61). The model's
  `Errored` event changes nothing (`InertEvents`); only `Closed` removes
  entries.
- The registry is a list and may hold several entries per socket.

## Model

| member | source | states |
|---|---|---|
| Seqs.Filter | server/src/index.ts:46-48 | every kept element is accepted by the predicate and comes from the input; the result is no longer than the input |
| Seqs.FilterIndices | server/src/index.ts:46-48 | the accepted positions are listed in strictly ascending order, and a position is listed exactly when the predicate accepts its element |
| Seqs.FilterByIndices | server/src/index.ts:46-48 | the k-th kept element is the element at the k-th accepted position, so filtering keeps order and keeps one copy per accepted element |
| Seqs.FilterKeeps | server/src/index.ts:47 | every accepted element of the input appears in the filtered result |
| Seqs.FilterIdempotent | server/src/index.ts:56 | filtering a second time with the same predicate changes nothing |
| Seqs.FindFirst | server/src/index.ts:35 | nothing is found iff no element is accepted; otherwise the found position is accepted and no earlier position is |
| Relay.AddUser | server/src/index.ts:27-30 | a join adds exactly one entry `{conn, roomId, name}` at the end and leaves every existing entry in place (no dedup, no overwrite) |
| Relay.FindSender | server/src/index.ts:35-36 | the sender lookup fails iff the socket has no entry; otherwise it returns the socket's first entry in registry order |
| Relay.Address | server/src/index.ts:48 | one send of the payload per target entry, to that entry's socket, in target order |
| Relay.ChatDeliveries | server/src/index.ts:34-49 | a chat from a socket with no entry sends nothing; otherwise every payload is `{text: message, name: first entry's name}`, no delivery goes back to the sender, and every recipient has an entry in the sender's room |
| Relay.RemoveConn | server/src/index.ts:55-57 | after close the socket owns no entry, and every remaining entry was in the registry before |
| Relay.Step | server/src/index.ts:22-61 | a chat never changes the registry; only a chat from a socket with an entry sends anything; only a join grows the registry, by exactly one entry |
| Relay.JoinKeepsFirstIdentity | server/src/index.ts:27-36 | after a second join the sender lookup still returns the first entry; after a first join it returns the new entry |
| Relay.JoinThenClose | server/src/index.ts:29-56 | a close right after a join leaves the same registry as closing without that join |
| Relay.ChatFanOut | server/src/index.ts:38-48 | the k-th delivery goes to the k-th entry in registry order whose room is the sender's and whose socket is not the sender's |
| Relay.ChatReachesEveryPeer | server/src/index.ts:46-48 | every entry in the sender's room owned by another socket receives the payload |
| Relay.ChatCopiesPerEntry | server/src/index.ts:46-48 | a socket other than the sender receives as many copies as it has entries in the sender's room |
| Relay.CloseKeepsOthers | server/src/index.ts:56 | every entry of another socket survives a close |
| Relay.CloseAbsentIsNoOp | server/src/index.ts:56 | closing a socket with no entry leaves the registry unchanged |
| Relay.CloseIdempotent | server/src/index.ts:56 | closing twice gives the same registry as closing once |
| Relay.CloseKeepsOrder | server/src/index.ts:56 | the surviving entries are exactly the entries of other sockets, in their original order |
| Relay.CloseCommutes | server/src/index.ts:55-57 | closing two sockets gives the same registry in either order |
| Relay.InertEvents | server/src/index.ts:22-61 | an error event, an unrecognised frame type and a malformed frame leave the registry unchanged and send nothing |
| Traces.Run | server/src/index.ts:22-61 | events are handled one at a time, left to right; the registry grows by at most one entry per join in the trace |
| Traces.RunSnoc | server/src/index.ts:22-61 | one more event extends a run by one `Step`: its registry replaces the old one and its sends are appended after all earlier sends |
| Traces.StepKeepsAbsent | server/src/index.ts:22-61 | an event that is not a join from a socket cannot give that socket an entry |
| Traces.EntriesComeFromJoins | server/src/index.ts:27-31 | after any run, every entry was in the initial registry or was created by a join in the trace with exactly that socket, room and name |
| Traces.ClosedStaysGone | server/src/index.ts:55-57 | after a socket's close it owns no entry for the rest of the run unless it joins again |
| Traces.SilentWithoutJoin | server/src/index.ts:35-36 | a socket that starts without an entry and never joins never gets one, and none of its events sends anything |
| Traces.RedundantTerminal | server/src/index.ts:55-61 | a second close, or an error, right after a close changes neither the registry nor the frames sent |
| Traces.ScenarioSameRoom | server/src/index.ts:27-48 | two sockets join one room and the first chats: only the second receives `{text, name of the first}` |
| Traces.ScenarioOtherRoom | server/src/index.ts:27-48 | two sockets join different rooms and the first chats: nothing is sent |
| Traces.ScenarioDuplicateJoin | server/src/index.ts:27-48 | a socket that joined a room twice receives each chat there twice, and its own chats carry its first name |

## Left out

- Transport: the `ws` server, the listen port read from the environment, and the `send` calls themselves (server/src/index.ts:2-7, 17). Sends are returned as `Delivery` values instead.
- Send failure: a `send` that throws part-way through the broadcast would skip the remaining recipients through the surrounding `catch`. The model assumes every send returns, because send failure is transport behaviour.
- JSON parsing and serialisation are library calls. Decoding is represented by the `Frame` value it produces. `Malformed` stands for every frame whose parsing or field access throws, and `Other` stands for any other `type`. The fields are assumed to be strings. A missing `roomId`, `name` or `message` would be stored or sent as `undefined`, and the model does not represent that.
- Logging (`console.log`, `console.error`) has no effect on state and is not modelled.
- Concurrency: Node handles one event at a time, so a sequential `Step` and `Run` are exact.
- The connection callback itself (server/src/index.ts:19-20) only attaches handlers and logs. A fresh socket is simply an id with no entry.
- The browser client (client/src/App.tsx) is UI code and is not part of this model. That includes its trim and empty checks before sending `join` and `chat`.
