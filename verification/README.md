# ChatSocket listener registries, modelled in Dafny

`ChatSocket` is the browser-side event dispatcher of a small chat application. It wraps one
WebSocket. Callers register listeners on three channels: a user joined, a user left, and a new
message arrived. Each inbound frame is routed on its `type` field to the listeners of the
matching channel. This project models the part of that class that is not I/O:

- the three listener registries;
- the add and remove operations on each registry;
- `disconnect`'s clearing of the registries;
- the routing in `onMessage`.

It proves the behaviour the class promises its callers.

Files:

- `registry.dfy` (module `Registry`): one registry as a `seq<Listener>`. A `Listener` is the
  record `{id, f}`. The handler `f` is an opaque closure, so the model keeps only a `tag: nat`
  naming it. The file holds the filter-by-id used by every remove (`Without`), the count of
  records carrying an id (`Occurrences`, read off the multiset of ids), and the left-to-right
  filter pass as a method with a loop (`FilterOut`).
- `chatsocket.dfy` (module `ChatSocket`): the socket state. It holds the endpoint address and
  one registry per `Channel` (`Join`, `Leave`, `Message`). The file defines construction (`New`),
  `Add`, `Remove` (new state plus the returned count), `Disconnect`, and `Dispatch`. `Dispatch`
  maps a parsed `Frame` to the sequence of handler invocations (`Call`s) that `onMessage`
  performs. The three `addOn*Callback` methods are one `Add` with a `Channel` argument. The three
  `removeOn*Callback` methods are likewise one `Remove`.
- `session.dfy` (module `Session`): a client's calls and the inbound frames, run in order
  (`Step`, `Run`). It holds the lemmas that relate several calls.

Two points about the routing are modelled exactly as the code has them:

- A `message` frame only logs. It never calls the handlers registered through
  `addOnNewMessageCallback`, even though that registry is maintained by add, remove and
  disconnect.
- A frame whose `type` is anything other than `join`, `leave` or `message` is ignored.

The frame's `type` field is called `kind` in the model, because `type` is a Dafny keyword.

## Model

| member | source | states |
|---|---|---|
| `ChatSocket.New` | static/scripts/chatsocket.ts:23-29 | A new socket keeps the given address, and all three registries are empty. |
| `ChatSocket.Add` | static/scripts/chatsocket.ts:83-105 | Adding to a channel appends the record at the end: that registry grows by one, its earlier records are unchanged, and the other two registries and the address are untouched. The three add methods are the channel argument. |
| `ChatSocket.Remove` | static/scripts/chatsocket.ts:87-111 | The channel's registry becomes exactly the records whose id differs from the argument. The returned count is the number of records whose id matched. The count is 0 exactly when the socket is unchanged. The other registries are untouched. The three remove methods are the channel argument. |
| `ChatSocket.Disconnect` | static/scripts/chatsocket.ts:40-43 | Whatever the registries held, all three are empty afterwards; the address is kept. |
| `ChatSocket.Notify` | static/scripts/chatsocket.ts:64-66 | A `for...of` over a registry calls each handler once, in registration order, with the frame's data. |
| `ChatSocket.Dispatch` | static/scripts/chatsocket.ts:60-74 | A `join` frame calls every join handler once, in order, with the frame's data. A `leave` frame does the same over the leave registry. A `message` frame or any other type calls nothing. No message handler is ever called. |
| `Registry.Without` | static/scripts/chatsocket.ts:89 | The filter keeps a record exactly when it was in the registry and its id differs from the argument. It never grows the registry, and no kept record carries the removed id. |
| `Registry.WithoutCount` | static/scripts/chatsocket.ts:88-90 | The remove's return value, old length minus new length, equals the number of records carrying the id. |
| `Registry.WithoutConcat` | static/scripts/chatsocket.ts:89 | Filtering preserves relative order: filtering a concatenation is the concatenation of the filtered parts. |
| `Registry.WithoutSingle` | static/scripts/chatsocket.ts:89 | A single record is kept exactly when its id differs from the argument. |
| `Registry.WithoutUnchangedIffAbsent` | static/scripts/chatsocket.ts:87-91 | Filtering leaves the registry unchanged if and only if no record carries the id. |
| `Registry.AbsentIffNoOccurrences` | static/scripts/chatsocket.ts:88-90 | No record carries the id if and only if the id's count is 0. |
| `Registry.WithoutIdempotent` | static/scripts/chatsocket.ts:87-91 | After one remove, a second filter of the same id changes nothing and finds no records to remove. |
| `Registry.FilterOut` | static/scripts/chatsocket.ts:87-91 | The left-to-right pass of `Array.prototype.filter` yields exactly `Without`. The count it returns, old length minus new length, is the number of matching records. |
| `Session.RunAdds` | static/scripts/chatsocket.ts:83-85 | A run of adds on one channel appends the records in call order and leaves the other registries untouched. |
| `Session.AddsThenRemove` | static/scripts/chatsocket.ts:83-91 | Start from a fresh socket, add any records to a channel, then remove one id. The registry then holds the non-matching records in registration order. The remove returns the number of matches, and the other registries stay empty. |
| `Session.AddsThenRemoveCount` | static/scripts/chatsocket.ts:83-91 | On a channel that already holds records, adding more and then removing one id returns the matches among the old records plus the matches among the added ones. |
| `Session.IsolatedChannels` | static/scripts/chatsocket.ts:83-111 | A run that adds to and removes from one channel only, and receives frames, never changes another channel's registry. |
| `Session.FramesLeaveStateAlone` | static/scripts/chatsocket.ts:60-74 | Handling any sequence of frames changes no registry. Each frame's invocations are those it causes on the starting state. |
| `Session.AddThenRemove` | static/scripts/chatsocket.ts:83-91 | Add a record whose id is not yet registered on that channel, then remove that id. The socket is restored exactly, and the remove returns 1. |
| `Session.RemoveTwice` | static/scripts/chatsocket.ts:87-91 | Remove is idempotent: a second remove of the same id returns 0 and changes nothing. |
| `Session.RemoveAbsent` | static/scripts/chatsocket.ts:87-91 | A remove returns 0 and leaves the socket unchanged if and only if no record on that channel carries the id. |
| `Session.SharedIdRemovedTogether` | static/scripts/chatsocket.ts:83-91 | Two join listeners registered under one id are both removed by a single remove, which returns 2. |
| `Session.DisconnectIsFresh` | static/scripts/chatsocket.ts:23-43 | A disconnected socket has the same registries and address as a freshly constructed one, and disconnecting twice leaves the same registries as disconnecting once. The transport handle is not part of the model. |
| `Session.SilentAfterDisconnect` | static/scripts/chatsocket.ts:40-74 | After a disconnect, no frame invokes any handler until listeners are registered again. |
| `Session.DispatchAfterAdd` | static/scripts/chatsocket.ts:63-66 | A newly added join listener is called last by the next `join` frame, after the handlers already registered. Frames of every other type invoke what they did before. |
| `Session.MessageFramesInvokeNothing` | static/scripts/chatsocket.ts:71-73 | A `message` frame invokes no handler, however many message listeners are registered. |

## Left out

- WebSocket construction, the transport hooks installed by `connect`, `send`, and `socket.close()` in `disconnect` (static/scripts/chatsocket.ts:31-38, 45, 48-50). These are browser I/O with no logic of their own.
- Whether `connect` was called. The model does not track it. Frames arrive only after `connect` has installed the message hook (static/scripts/chatsocket.ts:36). On a socket that never connected, `this.socket` is still undefined: it is declared without an initialiser at line 18 and only assigned at line 32. On such a socket, `disconnect` clears the three registries (lines 41-43) and then throws a TypeError at line 45. `Disconnect` and the session's `Close` model only the clearing. The throw is not modelled.
- Records are stored by reference. The add methods push the caller's own object (static/scripts/chatsocket.ts:84, 94, 104). The remove filter reads `cb.id` when it runs (line 89), and dispatch reads `callback.f` when the frame arrives (lines 65 and 69). A caller that changes a record's `id` or `f` after adding it therefore changes what a later remove matches and what a later frame calls. The model instead treats each record as an immutable `(id, tag)` value, fixed when it is added.
- The `console.log` diagnostics in `onOpen`, `onError`, `onClose` and the `message` branch. They are observability only; the `message` branch is modelled as invoking nothing.
- `JSON.parse` of the event data (static/scripts/chatsocket.ts:61). It is a foreign library call. `Dispatch` takes an already-parsed `Frame`, and parse failures are not modelled. A frame that parses to `null` also throws, when line 63 reads its `type`. That failure is not modelled either: such a frame invokes no handler and changes no registry. The frame's `data` is modelled as a string, which is the only payload the handlers expect.
- Handler bodies, their side effects, and exceptions thrown during dispatch. Handlers are opaque closures: a `Call` records which handler would be called and with what argument. A handler that throws would cut the trace short, and that is not modelled.
- A registry mutated from inside a handler while `for...of` iterates over it. The outcome depends on host iteration semantics: remove reassigns the array, while add pushes onto the live one. `Dispatch` reads the registry as it was when the frame arrived.
- Calling `connect` twice, which replaces the transport handle without closing the old one. This concerns the transport resource, not the registries.
