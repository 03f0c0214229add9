# libsl WebSocket connection registry in Dafny

This project models the WebSocket connection registry of libsl (`libsl/src/ws.c`).
The C module keeps two process-wide variables:

- the list `wsl` of live `struct ws_conn` records, each holding an accepted `websock_conn` handle and an immutable `enum ws_type` category;
- the nullable factory pointer `ws` created by `websock_alloc`.

The C module has five operations:

- `sl_ws_init` empties the list and allocates the factory.
- `sl_ws_open` allocates a record, attempts the WebSocket accept, and links the record only if the accept succeeds.
- `sl_ws_send_str` sends a text frame to every member of one category.
- `close_handler` runs `conn_destroy` through `mem_deref`. It releases the handle and unlinks the entry.
- `sl_ws_close` destroys every entry, reading `le->next` before freeing the current one. It then releases the factory if it is set.

In the model, the two globals become one immutable `Registry` value: a sequence of `Conn(id, conn, kind)` entries in list order, plus an optional factory. Each operation is a pure function that returns the next registry and a trace of `Event`s. The broadcast list walk is also written as a method with a loop.

Foreign calls become parameters that hold their outcome:

- `mem_zalloc`: `Option<RecId>`, where `None` is NULL.
- `websock_accept` and `websock_alloc`: `Attempt<T>`, which is either `Done(value)` or `Failed(err)` with a nonzero code.

Effects on the outside world are recorded as events:

- `Accepted`: a handle was accepted.
- `Sent`: a text frame was sent.
- `ConnReleased`: `mem_deref(ws_conn->c)`.
- `RecordFreed`: the record itself was freed.
- `FactoryReleased`: `mem_deref(ws)`.

Files:

- `ws_types.dfy` (module `WsTypes`): the data model and the registry invariant `Valid`. `Valid` means record ids are unique, handles are unique, and a factory exists whenever a connection does.
- `ws.dfy` (module `Ws`): the operations.
- `ws_properties.dfy` (module `WsProperties`): properties over all inputs.
- `ws_session.dfy` (module `WsSession`): schedules of calls, and one complete example session.

Notes on the code's behaviour:

- Broadcast visits members in list order.
- `sl_ws_open` itself returns `ENOMEM` when the record allocation fails. When the accept fails, it passes on `websock_accept`'s code unchanged, and that code may also be `ENOMEM`.
- `sl_ws_init` returns `websock_alloc`'s error code.

## Model

| member | source | states |
|---|---|---|
| Ws.ConnDestroy | libsl/src/ws.c:14-19 | Destroying a linked record keeps the factory. It removes exactly one entry: the first one carrying that record. All other entries stay in order, so the list shrinks by one. The trace is that entry's handle release followed by the record's release. |
| Ws.CloseHandler | libsl/src/ws.c:22-28 | The close callback destroys the record. The factory is kept and the list shrinks by exactly one. The trace is one release of that record's handle, then the record's release. That the result does not depend on the error code is stated by `WsProperties.CloseRemovesExactlyOne`. |
| Ws.Open | libsl/src/ws.c:31-54 | If allocation fails, the result is ENOMEM and nothing changes. If the accept fails, its own code is returned, the list is unchanged and only the record is freed. The result is 0 exactly when both allocation and accept succeed. Then a single entry with the requested category and the accepted handle is added at the tail, and earlier entries are untouched. A record is linked afterwards iff it was linked before or it is the newly accepted one. |
| Ws.Broadcast | libsl/src/ws.c:57-67 | The sends owed to a list are all text sends of the given string to handles of list members. There are at most as many as there are members. |
| Ws.SendStr | libsl/src/ws.c:57-68 | The list walk emits exactly the sends `Broadcast` specifies, in list order. It takes the registry by value, so the list is not modified. |
| Ws.Init | libsl/src/ws.c:71-79 | Initialisation requires an unset registry. Afterwards the list is empty and nothing is emitted. The factory is set iff the returned code is 0. A failed allocation's code is returned, and a successful one installs that factory. |
| Ws.Drain | libsl/src/ws.c:84-91 | The shutdown loop ends with an empty list and the factory untouched. Its trace has two events per entry. Every event releases a member's handle or frees a member's record. `WsProperties.DrainInListOrder` states which event comes at each position. |
| Ws.Shutdown | libsl/src/ws.c:82-97 | Shutdown always returns 0 and ends with an empty list and a NULL factory. When a factory was set, the last event releases it. |
| WsProperties.CloseRemovesExactlyOne | libsl/src/ws.c:14-28 | When record ids are unique, the close callback unlinks that record and no other. Every other record stays linked and records stay unique. The removed entry is the only one missing from the multiset of entries, and the result does not depend on the error code. |
| WsProperties.CloseHandlerPreservesValid | libsl/src/ws.c:14-28 | The close callback keeps the registry invariant. |
| WsProperties.OpenPreservesValid | libsl/src/ws.c:31-54 | `sl_ws_open` keeps the registry invariant if its collaborators behave: a fresh record, a fresh handle, and an accept that fails when there is no factory. |
| WsProperties.OpenThenCloseRestores | libsl/src/ws.c:14-54 | Closing a connection right after it was opened gives back the original registry. It releases exactly that handle and that record. |
| WsProperties.BroadcastTargetsExactlyMatching | libsl/src/ws.c:57-67 | A broadcast sends the string to a handle iff some member with that handle has the requested category. |
| WsProperties.BroadcastOncePerMember | libsl/src/ws.c:57-67 | With unique handles, every member of the requested category receives exactly one copy and every other member receives none. |
| WsProperties.BroadcastExample | libsl/src/ws.c:57-67 | With members A:cat1, B:cat2 and C:cat1, a broadcast to cat1 reaches A and then C. |
| WsProperties.ConsDestroyedInOrder | libsl/src/ws.c:84-91 | Destroying a head entry and then an in-order teardown of the rest is an in-order teardown of the whole list. |
| WsProperties.DrainUnfold | libsl/src/ws.c:84-91 | One turn of the shutdown loop destroys the head entry. The saved `le->next` becomes the head of what remains. |
| WsProperties.DrainIsTeardown | libsl/src/ws.c:84-91 | The shutdown loop's trace equals the reference teardown of the list: for each entry from the head, its handle release and then its record release. |
| WsProperties.TeardownInOrder | libsl/src/ws.c:84-91 | The reference teardown destroys the k-th entry at positions 2k and 2k+1 and does nothing else. |
| WsProperties.DrainInListOrder | libsl/src/ws.c:84-91 | The shutdown loop destroys entries in list order. For the k-th entry, its handle is released and then its record. |
| WsProperties.OrderedReleasesOnlyMembers | libsl/src/ws.c:84-91 | An in-order teardown releases only handles and records of list members. |
| WsProperties.OrderedReleasesEachOnce | libsl/src/ws.c:84-91 | With unique records and handles, an in-order teardown releases each handle exactly once and frees each record exactly once. |
| WsProperties.ShutdownReleasesEachOnce | libsl/src/ws.c:82-96 | With a valid registry, `sl_ws_close` releases every member's handle and record exactly once. It releases no handle or record of a non-member. |
| WsProperties.ShutdownReleasesFactoryLast | libsl/src/ws.c:93-94 | A factory release can only be the last event of shutdown, after every connection has been destroyed. It happens iff a factory was set, and it releases that factory. |
| WsProperties.ShutdownTwiceIsNoop | libsl/src/ws.c:93-96 | A second `sl_ws_close` emits nothing, changes nothing and returns 0. |
| WsProperties.ShutdownThenInitIsValid | libsl/src/ws.c:71-97 | After shutdown the registry invariant holds, and initialising again keeps it. |
| WsSession.RunKeepsValidAndCounts | libsl/src/ws.c:22-54 | Take any schedule of opens, close callbacks and broadcasts whose calls are each admissible at their turn. The invariant holds at the end, and the number of live connections equals the initial count plus successful opens minus close callbacks. |
| WsSession.Session | libsl/src/ws.c:22-97 | Init, then open one cat-a and one cat-b connection. A cat-a broadcast reaches only the first. After the first closes, a cat-a broadcast reaches nobody. Shutdown then releases the second handle and record, then the factory, and leaves the registry unset. |

## Left out

- The WebSocket/HTTP handshake inside `websock_accept` is foreign code. It appears only as its outcome (a handle or a nonzero code).
- `websock_accept` fails on a NULL factory: libre returns EINVAL there. That behaviour is foreign code, so it enters only as an assumption of `WsProperties.OpenPreservesValid` and `WsSession.Admissible`.
- After a failed accept, `ws_conn->c` stays NULL, so `conn_destroy` releases no handle. This relies on `websock_accept` writing its handle only on success, which is also foreign code.
- The `recvh` message handler is passed straight to `websock_accept` and never called by this module.
- Frame encoding and the `"%s"` formatting in `websock_send` are not modelled. A `Sent` event carries the string verbatim.
- Send failures are ignored by the code (libsl/src/ws.c:66), so delivery success is not modelled.
- libre's reference counting in `mem_deref` is modelled as a single owner. Each record, handle and factory has exactly one reference, as the code implies, so dropping it runs the destructor at once.
- The intrusive `struct le` pointer surgery of `list_append`/`list_unlink` is modelled as sequence append and removal by position.
- Event-loop scheduling and asynchronous delivery of the close callback are runtime behaviour. Each callback is modelled as one atomic step.
- `Ws.CloseHandler` requires its record to be linked. The transport calls the close handler at most once per accepted connection; calling it for a released record would be a use-after-free in the C code, and the model does not give that a meaning.
- Double initialisation is undefined in the code. `Ws.Init` therefore requires an unset registry (empty list, NULL factory).
- The members of `enum ws_type` are not modelled. `WsType` is an abstract type with equality only.
- Pointer values are modelled as unbounded naturals (`RecId`, `Handle`, `FactoryId`). `ENOMEM` is the Linux value 12.
- `sl_ws_open` writes the category into the record only after a successful accept. Before that the zeroed record carries category 0, but it is never linked in that state, so the model does not represent it.
