/*******************************************************************************
 *  Data model of the WebSocket connection registry of libsl (src/ws.c).
 *
 *  The C module keeps two process-wide variables: the intrusive list `wsl` of
 *  live `struct ws_conn` records and the nullable factory pointer `ws`. Here
 *  both live in one immutable `Registry` value, and every effect the module
 *  has on the outside world (handles accepted, frames sent, objects released)
 *  is recorded as an `Event` in a trace.
 *******************************************************************************/

module WsTypes {

  /** `enum ws_type`: the category a connection is tagged with. The registry
      only ever compares two categories for equality. */
  type WsType(==)

  /** Address of a `struct ws_conn` record returned by `mem_zalloc`. */
  type RecId = nat

  /** A `struct websock_conn *` produced by a successful `websock_accept`. */
  type Handle = nat

  /** The `struct websock *` produced by a successful `websock_alloc`. */
  type FactoryId = nat

  /** The errno value `sl_ws_open` returns when the record cannot be allocated
      (ENOMEM on Linux). */
  const ENOMEM: int := 12

  /** A nonzero error code: what a failing libre call returns. */
  type Errno = e: int | e != 0 witness ENOMEM

  datatype Option<+T> = None | Some(value: T)

  /** The outcome of a foreign call that either produces a value or fails
      with a nonzero error code (`websock_accept`, `websock_alloc`). */
  datatype Attempt<+T> = Done(value: T) | Failed(err: Errno)

  /** One live `struct ws_conn`: its identity, the accepted handle `c` and
      the category `type` it was opened with. */
  datatype Conn = Conn(id: RecId, conn: Handle, kind: WsType)

  /** The module's global state: the list `wsl` in list order and the
      factory `ws` (None is the NULL pointer). */
  datatype Registry = Registry(conns: seq<Conn>, factory: Option<FactoryId>)

  /** An observable effect of the registry on its collaborators. */
  datatype Event =
    | Accepted(rec: RecId, conn: Handle)   // websock_accept handed out `conn`
    | Sent(conn: Handle, text: string)     // websock_send of a text frame
    | ConnReleased(conn: Handle)           // mem_deref(ws_conn->c)
    | RecordFreed(rec: RecId)              // the ws_conn record itself freed
    | FactoryReleased(factory: FactoryId)  // mem_deref(ws)

  /** The effect of an operation that returns nothing. */
  datatype Step = Step(next: Registry, trace: seq<Event>)

  /** The effect of an operation that returns an `int` error code. */
  datatype Outcome = Outcome(next: Registry, trace: seq<Event>, err: int)

  /** The state before `sl_ws_init`: `wsl` is a zeroed static list and `ws`
      is NULL; `sl_ws_close` returns to it. */
  const Unset: Registry := Registry([], None)

  /** Record `id` is linked into the list. */
  predicate Linked(conns: seq<Conn>, id: RecId) {
    exists i :: 0 <= i < |conns| && conns[i].id == id
  }

  /** Handle `h` belongs to some linked record. */
  predicate HasHandle(conns: seq<Conn>, h: Handle) {
    exists i :: 0 <= i < |conns| && conns[i].conn == h
  }

  /** Every record is linked at most once (an intrusive `struct le` sits in
      at most one list position). */
  predicate DistinctIds(conns: seq<Conn>) {
    forall i, j :: 0 <= i < j < |conns| ==> conns[i].id != conns[j].id
  }

  /** No two records share an accepted handle. */
  predicate DistinctHandles(conns: seq<Conn>) {
    forall i, j :: 0 <= i < j < |conns| ==> conns[i].conn != conns[j].conn
  }

  /** The registry invariant: records and handles are unique, and the factory
      exists whenever some connection does. */
  predicate Valid(reg: Registry) {
    && DistinctIds(reg.conns)
    && DistinctHandles(reg.conns)
    && (reg.conns != [] ==> reg.factory.Some?)
  }
}
