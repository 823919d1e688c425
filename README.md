# MessagingService: WebSocket registry, broadcast fan-out and message ingestion

A Dafny model of the two pieces of logic in the MessagingService web application:

- **`WebSocketHandler`** (module `Handler`, file `websocket_handler.dfy`). It keeps a registry
  from generated session id to WebSocket. `Handle` admits a session with insert-if-absent
  semantics, runs its receive loop, and removes the id once the loop is over. `ReceiveLoop`
  reads frames while the socket is Open. It answers a Close frame with `CloseAsync` and ends
  quietly when a receive fails. `Broadcast` encodes a text message once. It queues one send
  of those bytes to every registered session whose socket is Open, removes every session
  whose socket is not, and swallows send failures.
- **`MessageController`** (module `Controller`, file `message_controller.dfy`). `PostMessage`
  refuses content that is null, empty or longer than 128 UTF-16 code units. Otherwise it
  builds a `Message`, persists it through the repository and then broadcasts its serialised
  form. `GetMessages` passes a date range to the repository and returns its answer.

`common.dfy` (module `Common`) holds the shared value types. A .NET `string` is a sequence of
UTF-16 code units, so `Length` counts code units as .NET does.

The receive loop and the broadcast are imperative, as in the source. Sockets are objects whose
`state` the receive loop changes, and the registry holds references to them.
`WebSocketHandler` is a class with a `sockets` map field that `TryAdd` and `TryRemove`
reassign. `ReceiveLoop` is a `while` loop driven by the socket's state. It is proved equal to
the function `Watch`, and the lemmas on `Watch` carry its properties. `FanOut` is the
broadcast's loop over the registry. It is proved against the functions `Targets` and
`Reaped`, which split the registry into send targets and reaped ids. The repository and the
handler share a ghost call log (`CallLog`, in `common.dfy`). `AddMessage` and `Broadcast` each
append their own call to it, so the log shows in which order they were called and with what.
`PostMessage` is proved equal to the function `PostMessageSpec` on that log, and the lemmas on
`PostMessageSpec` state the validation bound and the order of the calls.

Nondeterminism and outside behaviour are parameters:

- the generated `Guid` is `id`;
- `DateTime.UtcNow` is `now`;
- the frames a client sends are a finite script of `ReceiveEvent`s;
- which sends fault is `sendFails`;
- whether the database throws is `persistFails`.

Three behaviours of the code that the contracts make explicit:

- `TryAdd` does not replace an entry whose id is already registered; a colliding id keeps
  the old socket (`WebSocketHandler.cs:21`).
- A send that faults does not remove its session (`WebSocketHandler.cs:89-97`). Only sessions
  whose socket is not Open when the loop reaches them are removed.
- The broadcast enumerates the live dictionary and removes entries while it iterates
  (`WebSocketHandler.cs:70`). It takes no snapshot. Run sequentially, as here, that is the
  same as iterating the registry contents at call time.

Two consequences of the code as written are visible in the contracts:

- If a generated id collides with a registered one, `TryAdd` keeps the old socket. The
  `finally` block then removes that id, which evicts the other session's entry (`Handle`,
  `finished ==> sockets == old(sockets) - {id}`).
- The controller never assigns `Message.Id`. The INSERT leaves `id` to the database
  (`MessageRepository.cs:22`), which the model renders as the repository's `nextId` counter,
  but the id is not written back into the controller's object. So the stored row carries
  the database's id, and a range query reads it back (`MessageRepository.cs:48`), while the
  broadcast payload carries the `Id` a new `Message` starts with (`UnsetId`).

## Model

| member | source | states |
|---|---|---|
| `Handler.WebSocketHandler.TryAdd` | MessagingService/Services/WebSocketHandler.cs:21 | Inserts only when the id is absent and reports whether it did; an id already present keeps its existing socket |
| `Handler.WebSocketHandler.TryRemove` | MessagingService/Services/WebSocketHandler.cs:34 | Removes the id when present and reports whether it was; removing an absent id leaves the registry as it was |
| `Handler.WebSocketHandler.ReceiveLoop` | MessagingService/Services/WebSocketHandler.cs:39-59 | The loop's outcome and the socket's final state are exactly those of `Watch` on the socket's initial state and the frames; only the socket changes, never the registry |
| `Handler.WatchEndsIff` | MessagingService/Services/WebSocketHandler.cs:44-58 | The loop leaves the Open state if and only if the socket was not Open to begin with or a Close frame or failed receive arrives |
| `Handler.WatchStopsAtFirstEnd` | MessagingService/Services/WebSocketHandler.cs:44-58 | On an Open socket the loop consumes the frames up to the first Close frame or failed receive; it calls `CloseAsync` once exactly when that frame is Close and leaves through the catch exactly when the receive failed |
| `Handler.WatchBounds` | MessagingService/Services/WebSocketHandler.cs:44-58 | `CloseAsync` is called at most once, never after a failed receive; a loop still Open has consumed every frame, all of them data frames, and called nothing |
| `Handler.WebSocketHandler.Handle` | MessagingService/Services/WebSocketHandler.cs:18-37 | Once the receive loop is over, the session id is absent and no other id was removed; it ends exactly when a Close frame or failed receive arrives or the socket was not Open; while the loop still waits, the id is registered with insert-if-absent semantics |
| `Handler.WebSocketHandler.Broadcast` | MessagingService/Services/WebSocketHandler.cs:62-98 | A null or empty message sends nothing and leaves the registry unchanged; otherwise each Open session gets exactly one send, there are no other sends, every send carries the same bytes encoded once from the message to the registered socket, exactly the non-Open sessions are removed, Open ones stay even when their send faults, a fault only sets the logged flag, and the call, with its text, is appended to the call log |
| `Handler.WebSocketHandler.FanOut` | MessagingService/Services/WebSocketHandler.cs:70-87 | The loop queues one send of the bytes to each Open session and none to any other, and removes exactly the sessions that are not Open |
| `Handler.BroadcastPartition` | MessagingService/Services/WebSocketHandler.cs:73-86 | Every registered session is either a send target or reaped, never both; with every socket Open, all N sessions are targets |
| `Handler.BroadcastTwiceReapsNothing` | MessagingService/Services/WebSocketHandler.cs:82-86 | A second broadcast with no state change in between removes nothing and sends to the same sessions |
| `Handler.DistinctSendsCount` | MessagingService/Services/WebSocketHandler.cs:70-81 | Sends that go to distinct sessions are exactly as many as the sessions they reach |
| `Controller.RejectsInvalidContent` | MessagingService/Controllers/MessageController.cs:36-39 | The response is BadRequest if and only if the content is null, empty or longer than 128 code units, and then neither the repository nor the broadcast is called |
| `Controller.AcceptedPersistsThenBroadcasts` | MessagingService/Controllers/MessageController.cs:41-60 | Content of 1 to 128 code units leads to one `AddMessageAsync` of a message with the input's content and sequence number stamped `now`, then one broadcast of that message's serialised payload, then Ok |
| `Controller.PersistFailureSkipsBroadcast` | MessagingService/Controllers/MessageController.cs:48 | When the repository throws, the action fails exactly for valid content; valid content is handed to `AddMessageAsync` exactly once and nothing is broadcast, invalid content calls nothing |
| `Controller.PersistPrecedesBroadcast` | MessagingService/Controllers/MessageController.cs:48-58 | Every broadcast comes after the persisting of the very message it serialises; neither `AddMessageAsync` nor the broadcast is called more than once; a broadcast happens exactly when the response is Ok |
| `Controller.PayloadDeterminesMessage` | MessagingService/Controllers/MessageController.cs:51-57 | The broadcast payload carries Id, Content, CreatedAt and SequenceNumber, so it determines the message it was built from |
| `Controller.MessageController.PostMessage` | MessagingService/Controllers/MessageController.cs:34-61 | The response, and the calls the repository and the handler themselves record in the shared log, in order and with their arguments, are those of `PostMessageSpec`; the repository gains the new message, under its next database id, exactly when the response is Ok; the registry changes as one broadcast of the serialised payload dictates, and not at all otherwise |
| `Controller.MessageController.GetMessages` | MessagingService/Controllers/MessageController.cs:72-76 | The range goes to the repository unchanged, recorded in its query log, and the repository's answer is returned as Ok |
| `Controller.Repository.AddMessage` | MessagingService/DAL/MessageRepository.cs:17-28 | Records the call with its message in the call log; unless the database throws, stores the message's content, timestamp and sequence number under the next database id, and keeps the stored ids distinct; a failed insert stores nothing |
| `Controller.AppendFreshId` | MessagingService/DAL/MessageRepository.cs:22 | A row stamped with the next id of the sequence keeps every stored id distinct |
| `Controller.Repository.GetMessages` | MessagingService/DAL/MessageRepository.cs:32-56 | Answers with the stored rows created between `from` and `to`, ordered by creation time; the rows are unchanged and the range is recorded in the query log |
| `Controller.Between` | MessagingService/DAL/MessageRepository.cs:38 | The answer holds the stored messages created between `from` and `to` inclusive, each exactly as often as it is stored, and no other |
| `Controller.InsertByCreation` | MessagingService/DAL/MessageRepository.cs:38 | Placing a row into rows ordered by creation time keeps them ordered, adds one row, and puts the new row or the old first row at the front |
| `Controller.InsertByCreationPermutes` | MessagingService/DAL/MessageRepository.cs:38 | Insertion loses no row and adds only the new one |
| `Controller.OrderByCreation` | MessagingService/DAL/MessageRepository.cs:38 | `ORDER BY created_at` yields the same rows, as a multiset, in ascending order of creation time |
| `Controller.SortedByCreationPairwise` | MessagingService/DAL/MessageRepository.cs:38 | In an ordered answer every row is created no earlier than every row before it |
| `Controller.RangeQueryAnswer` | MessagingService/DAL/MessageRepository.cs:38 | The range query's answer is ordered by creation time, no longer than the stored rows, and holds each row created in the range exactly as often as it is stored, and no other |

## Left out

- Concurrency: `Task.WhenAll`, the interleaving of a suspended `HandleAsync` with broadcasts, and `ConcurrentDictionary`'s thread-safety. Every operation runs as one sequential step.
- `Handle` runs the receive loop up to the end of the frames it is given. A session whose frames run out stays registered, with `finished` false. Its later end is what a call with the longer script describes; it is not a separate step.
- The transport: the upgrade (`MessagingService/Program.cs` is not part of this model), the 4 KB receive buffer, keep-alive, and delivery of the bytes by `SendAsync`. A `CloseAsync` that throws would be caught by the same handler as a failed receive; it is not modelled separately.
- The catch block of `HandleAsync` (`WebSocketHandler.cs:28-31`): `ReceiveLoopAsync` catches every exception itself, so in the model nothing reaches that block.
- UTF-8 encoding, JSON serialisation and the round-trip date format are library calls. They are the const function fields `encode` and `serialize`, with no properties assumed.
- `Controller.MessageController.PostMessage`: the registry is stated to shrink only when the serialised payload is non-empty. A JSON object is never empty, but the model assumes nothing about `serialize`.
- Logging: every `ILogger` call. The only trace kept is the broadcast's `failureLogged` flag.
- The repository's SQL and Npgsql I/O. `Repository` is an in-memory stand-in whose id counter plays the database's id sequence, starting at 1.
- `Controller.OrderByCreation`: rows created at the same instant keep their stored order. PostgreSQL's `ORDER BY created_at` leaves the order of such ties unspecified, so the model picks one of the orders the database may return.
- `Controller.MessageController.GetMessages`: the range query is assumed never to fail. In the source a database error in `GetMessagesAsync` propagates out of the action (`MessageController.cs:74`), and no Ok answer is given.
- `Controller.Repository.AddMessage`: the database's id sequence is not consumed by a failed insert in the model. In PostgreSQL a failed INSERT may still consume a sequence value, so ids may have gaps; they stay distinct either way.
- The `Message` and `MessageInput` datatypes mirror the fields the controller and the repository use. `Models/Message.cs` and the file declaring `MessageInputModel` were not consulted, so the field types are assumed: `Id` and `SequenceNumber` are unbounded integers rather than 32-bit ones, `CreatedAt` is a tick count, and the `Id` of a new message is taken to be the `int` default, 0.
- ASP.NET model binding, including the automatic 400 for a missing request body. The model starts from a bound `MessageInput`.
