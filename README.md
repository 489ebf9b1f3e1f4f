# Chat rooms over htmx: hub and stores, in Dafny

This project models the three sequential cores of a small Go chat-room server:

- the **websocket broadcast hub** (`Hub.run` in the handlers package). It keeps a
  set of client connections and reacts to three events. *Register* inserts a
  connection. *Unregister* removes and closes it, but only if it is present.
  *Broadcast* writes the message to every client and evicts and closes each
  client whose write fails, without stopping early. The only messages sent are
  `"new-room"` and `"new-chat"`;
- the **chat store** (`ChatStore` in the models package). It has a primary map
  from chat ID to chat and a secondary index from room ID to that room's chats
  in insertion order;
- the **room store** (`RoomStore`). It is a map from room ID to room with add,
  update-if-present and delete-if-present.

Each core is a class with the source's fields, and each mutating method is
proved against a pure specification on values:

- `Handlers.Hub` has `clients`, plus a log of `Close` calls and a log of
  attempted writes. `Step` runs one event. Its specification is
  `Handlers.Apply` on `HubState`.
- `Chats.ChatStore` has the maps `chats` and `chatsByRoom`. Its specification
  is the value type `Chats.Store` with `Add`, `Delete` and `DeleteRoom`.
- `Rooms.RoomStore` has the map `rooms`. Its methods state the new map
  directly.

Lemmas on these specifications state what the source promises: partial-failure
isolation, exactly-once writes, no double close, insertion order, and the
consistency of the chat store's two structures.

Modelling choices:

- A write failure is an input oracle. `Step(ev, failing)` treats the write to
  `c` as failing exactly when `c in failing`.
- Go leaves map iteration order unspecified. The broadcast loop picks clients
  with `:|`, and `Step` returns the order it visited them in. The specification
  `Deliver` is a fold over that order.
- Go stores `*Chat` and `*Room` pointers. No code mutates a stored record, so
  the model stores values. IDs and `CreatedAt` are opaque values.
- The read-write mutex of each store is not modelled. Each method is one atomic
  step.
- `AddChat` with a reused ID is modelled exactly: `chats[ID]` is overwritten and
  a second index entry is appended. The consistency invariant
  `Chats.Store.Consistent` is preserved by `Add` only for a fresh ID.
  `ReusedIdLeavesStaleEntry` shows what goes wrong otherwise. The HTTP handlers
  always use a fresh UUID (internal/handlers/handlers.go:237).
- No double close holds under one condition. `Handlers.Sound` says the close
  log has no duplicates and no client has been closed. Every step keeps it,
  provided no already-closed connection is registered again
  (`Handlers.Admissible`). The upgrade path registers a new connection each
  time.

## Model

| member | source | states |
|---|---|---|
| `Handlers.Hub.constructor` | internal/handlers/handlers.go:21-26 | The hub starts with no clients, nothing closed and nothing written, so the no-double-close invariant `Sound` holds from construction on. |
| `Handlers.Hub.Step` | internal/handlers/handlers.go:28-48 | One event of the `select` loop. The new state is `Apply` of the old one. For a broadcast, the returned visiting order lists every old client exactly once. If the hub was sound and the event is admissible, it stays sound. |
| `Handlers.DeliverClients` | internal/handlers/handlers.go:39-45 | The broadcast loop removes from the client set exactly the visited connections whose write failed. |
| `Handlers.DeliverCloses` | internal/handlers/handlers.go:41-44 | The broadcast loop appends exactly the failed visited connections to the close log, in visiting order. |
| `Handlers.DeliverWrites` | internal/handlers/handlers.go:39-40 | The broadcast loop appends one write attempt per visited connection to the write log, in visiting order. |
| `Handlers.AttemptsAt` | internal/handlers/handlers.go:39-41 | The i-th attempt goes to the i-th visited connection and carries the message. It succeeds exactly when that connection is not failing. |
| `Handlers.BroadcastOutcome` | internal/handlers/handlers.go:38-45 | A broadcast writes the given message exactly once to every client present when the event arrived, and to no other connection. Afterwards the clients are the old clients minus the failing ones. Exactly the failing clients are closed, once each. Earlier log entries are kept. |
| `Handlers.BroadcastIsolation` | internal/handlers/handlers.go:39-45 | Partial-failure isolation: the message reaches exactly the clients whose write does not fail, whatever else fails and in whatever order the clients are visited. |
| `Handlers.BroadcastWithoutFailures` | internal/handlers/handlers.go:38-40 | With no failing write, N clients receive exactly N successful writes, one each. Clients and closes are unchanged. |
| `Handlers.RegisterIdempotent` | internal/handlers/handlers.go:31-32 | Register adds the connection and changes nothing else. Registering a client that is already present leaves the state unchanged. |
| `Handlers.UnregisterClosesIfPresent` | internal/handlers/handlers.go:33-37 | Unregister of a client removes it and closes it exactly once more. Unregister of a non-client changes nothing and closes nothing. |
| `Handlers.StepKeepsSound` | internal/handlers/handlers.go:31-45 | Every event keeps the close log free of duplicates and keeps every closed connection out of the client set, unless a closed connection is registered again. |
| `Handlers.EvictThenUnregisterClosesOnce` | internal/handlers/handlers.go:33-45 | A client evicted by a failed write, then unregistered by its reader goroutine (handlers.go:69-71), is closed exactly once in total. The membership check turns the unregister into a no-op. |
| `Handlers.EndToEnd` | internal/handlers/handlers.go:31-45 | Register(A), Register(B), Broadcast("new-room"): both receive it. Then Unregister(A), Broadcast("new-chat"): only B receives it, and A is closed once. |
| `Chats.ChatStore.constructor` | internal/models/chat.go:26-31 | A new chat store has both maps empty. |
| `Chats.ChatStore.GetChats` | internal/models/chat.go:34-43 | Returns every stored chat exactly once. The result has as many entries as there are stored chats, with distinct IDs, each equal to the chat stored under its ID. |
| `Chats.ChatStore.GetChat` | internal/models/chat.go:46-52 | Yields the chat stored under the ID when it is present, and nothing (Go's `(nil, false)`) otherwise. Under the key invariant, the chat it yields carries the ID. `AddThenGet` states how it reads after an add. |
| `Chats.ChatStore.GetChatsByRoom` | internal/models/chat.go:55-63 | An unknown room yields the empty list. Otherwise it yields the room's index entries, and under the index invariant each belongs to the room and is the chat stored under its ID. `AddAllInsertionOrder` states that the entries are in insertion order, and `DeleteRoomEffect` that the list is empty after the room's chats are deleted. |
| `Chats.ChatStore.AddChat` | internal/models/chat.go:66-72 | The new store is `Add` of the old one. The key invariant is kept. Consistency is kept when the ID is fresh. |
| `Chats.ChatStore.DeleteChat` | internal/models/chat.go:75-98 | Returns true exactly when the ID was stored. The new store is `Delete` of the old one, where the search loop stops at the first entry with the ID. Both invariants are kept. |
| `Chats.ChatStore.DeleteChatsByRoom` | internal/models/chat.go:101-115 | The new store is `DeleteRoom` of the old one: the room's listed IDs go first, then the room's index. Both invariants are kept. |
| `Chats.FirstIndexOf` | internal/models/chat.go:89-95 | The search loop stops at the first entry carrying the ID, or at the end of the list when there is none. |
| `Chats.RemoveFirstSplices` | internal/models/chat.go:89-95 | Splicing out the first matching entry at index i gives the recursive reference `RemoveFirst`. The other entries keep their order. |
| `Chats.RemoveFirstAbsent` | internal/models/chat.go:89-95 | When no entry carries the ID, the room's list is left as it is. |
| `Chats.AddThenGet` | internal/models/chat.go:66-72 | After `AddChat(c)`, `GetChat(c.ID)` returns c, and every other ID reads as before. |
| `Chats.AddAppends` | internal/models/chat.go:55-72 | After `AddChat(c)`, the list of c's room is the old list with c appended at the end. Every other room's list is unchanged. |
| `Chats.AddAllInsertionOrder` | internal/models/chat.go:55-72 | After any sequence of adds, a room's list is its old list followed by exactly the added chats of that room, in insertion order. |
| `Chats.DeleteAbsent` | internal/models/chat.go:79-82 | Deleting an absent ID leaves both maps unchanged. |
| `Chats.DeletePresent` | internal/models/chat.go:85-97 | Deleting a present ID removes it from `chats`. It removes exactly the first entry with that ID from the chat's room list, as `RemoveFirst` defines. Other rooms' lists are unchanged. |
| `Chats.DeleteRoomEffect` | internal/models/chat.go:106-114 | After `DeleteChatsByRoom(r)`, r lists nothing and none of r's former chat IDs is stored. Other rooms' lists are unchanged, and chats whose IDs r did not list are kept. |
| `Chats.AddKeepsConsistent` | internal/models/chat.go:70-71 | Adding a chat with a fresh ID keeps the primary map and the room index consistent. |
| `Chats.DeleteIsSplice` | internal/models/chat.go:85-95 | In a consistent store, deleting a stored chat splices out the one index entry that lists it. |
| `Chats.DeleteKeepsConsistent` | internal/models/chat.go:85-95 | Deleting a chat keeps the primary map and the room index consistent. |
| `Chats.DeleteRoomKeepsConsistent` | internal/models/chat.go:106-114 | Deleting a room's chats keeps the primary map and the room index consistent. |
| `Chats.ConsistentListsOnce` | internal/models/chat.go:18-21 | In a consistent store, every stored chat appears exactly once in its own room's list and in no other room's list. |
| `Chats.ReusedIdLeavesStaleEntry` | internal/models/chat.go:66-97 | Adding two chats with the same ID stores only the second but indexes both. Deleting that ID then leaves a stale index entry, so the store is no longer consistent. |
| `Rooms.RoomStore.constructor` | internal/models/room.go:22-26 | A new room store is empty. |
| `Rooms.RoomStore.GetRooms` | internal/models/room.go:29-38 | Returns every stored room exactly once. The result has as many entries as there are rooms, with distinct IDs, each equal to the room stored under its ID. |
| `Rooms.RoomStore.GetRoom` | internal/models/room.go:41-47 | Yields the stored room when the ID is present. An unknown ID yields nothing, Go's `(nil, false)`. |
| `Rooms.RoomStore.AddRoom` | internal/models/room.go:50-55 | Stores the room under its ID, overwriting any earlier room there, so `GetRoom` then returns it. Every other ID reads as before. |
| `Rooms.RoomStore.UpdateRoom` | internal/models/room.go:58-68 | Returns true exactly when the ID is present. If so, it replaces that entry and keeps the set of IDs. If not, the store is unchanged. All other rooms are untouched. |
| `Rooms.RoomStore.DeleteRoom` | internal/models/room.go:71-81 | Returns true exactly when the ID was present and removes only that ID. When the ID is absent it changes nothing. Other rooms are untouched. |

## Left out

- The goroutine, the three unbuffered channels and the `select` of `Hub.run` are not modelled (internal/handlers/handlers.go:29-30). Each received event is one call of `Step`. The second `go hub.run()` that `StartHub` would start beside the one in `SetupRoutes` (internal/handlers/handlers.go:97, 118) is concurrency and is not modelled. The model assumes one coordinating loop.
- The reader goroutine and its `ReadMessage` loop are I/O (internal/handlers/handlers.go:68-78). Only their effect, an `Unregister` event, is modelled. The websocket `Upgrader` is a foreign library.
- `WriteMessage` and `Close` are abstract. A write's outcome is the `failing` input, and a close is an entry in the close log.
- A write that never returns is not modelled. The source sets no write deadline (internal/handlers/handlers.go:40), so one stalled peer would block the broadcast loop, every later client in it and every later event. The channels are unbuffered (internal/handlers/handlers.go:23-25), so the sends at lines 66, 70, 191 and 247 also block until the loop receives. `BroadcastIsolation` and `BroadcastOutcome` cover writes that return, with success or with an error.
- The payload is a `string`, not a byte slice. The two payloads are ASCII literals, so nothing depends on the encoding.
- The gin HTTP handlers, template rendering, form binding, `uuid.New()`, `time.Now()`, the `main` wiring with its sample data, the embedded static files and the cache middleware are outside this model.
- The `sync.RWMutex` of each store is not modelled. Each store method is one atomic step.
