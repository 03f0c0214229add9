/*******************************************************************************
 *  Sequences of registry calls as the event loop delivers them, one at a
 *  time, between `sl_ws_init` and `sl_ws_close`.
 *******************************************************************************/

module WsSession {
  import opened WsTypes
  import opened Ws
  import opened WsProperties

  /** One call into the registry between initialisation and shutdown. */
  datatype Call =
    | OpenCall(kind: WsType, alloc: Option<RecId>, accept: Attempt<Handle>)
    | CloseCall(err: int, id: RecId)
    | SendCall(kind: WsType, text: string)

  /** What the collaborators guarantee about a call in state `reg`: the
      allocator never hands out a live record, the transport never hands out
      a handle in use and refuses to accept without a factory, and the close
      callback only fires for a linked connection. */
  predicate Admissible(reg: Registry, call: Call) {
    match call
    case OpenCall(_, alloc, accept) =>
      && (alloc.Some? ==> !Linked(reg.conns, alloc.value))
      && (accept.Done? ==> !HasHandle(reg.conns, accept.value))
      && (reg.factory.None? ==> accept.Failed?)
    case CloseCall(_, id) => Linked(reg.conns, id)
    case SendCall(_, _) => true
  }

  /** The state after one admissible call. */
  function Apply(reg: Registry, call: Call): Registry
    requires Admissible(reg, call)
  {
    match call
    case OpenCall(kind, alloc, accept) => Open(reg, kind, alloc, accept).next
    case CloseCall(err, id) => CloseHandler(reg, err, id).next
    case SendCall(_, _) => reg
  }

  /** The state after a whole schedule, or None when some call in it is not
      admissible at its turn. */
  function Run(reg: Registry, calls: seq<Call>): Option<Registry>
    decreases |calls|
  {
    if calls == [] then Some(reg)
    else if !Admissible(reg, calls[0]) then None
    else Run(Apply(reg, calls[0]), calls[1..])
  }

  /** Number of opens in `calls` whose allocation and handshake succeed. */
  function Accepts(calls: seq<Call>): nat {
    if calls == [] then 0
    else (if calls[0].OpenCall? && calls[0].alloc.Some? && calls[0].accept.Done? then 1 else 0)
         + Accepts(calls[1..])
  }

  /** Number of close callbacks in `calls`. */
  function Closes(calls: seq<Call>): nat {
    if calls == [] then 0
    else (if calls[0].CloseCall? then 1 else 0) + Closes(calls[1..])
  }

  /** At the end of every admissible schedule the registry invariant holds,
      and the number of live connections is the initial number plus the
      successful opens minus the close callbacks. */
  lemma {:induction false} RunKeepsValidAndCounts(reg: Registry, calls: seq<Call>)
    requires Valid(reg) && Run(reg, calls).Some?
    decreases |calls|
    ensures Valid(Run(reg, calls).value)
    ensures |Run(reg, calls).value.conns| == |reg.conns| + Accepts(calls) - Closes(calls)
  {
    if calls != [] {
      var call := calls[0];
      match call {
        case OpenCall(kind, alloc, accept) =>
          OpenPreservesValid(reg, kind, alloc, accept);
        case CloseCall(err, id) =>
          CloseHandlerPreservesValid(reg, err, id);
        case SendCall(_, _) =>
      }
      RunKeepsValidAndCounts(Apply(reg, call), calls[1..]);
    }
  }

  /** Initialise; open a connection of category `a` and one of category `b`;
      a broadcast to `a` reaches only the first; after the first closes, a
      broadcast to `a` reaches nobody; shutdown then releases the second
      connection and the factory, and leaves the list empty. */
  lemma Session(a: WsType, b: WsType, f: FactoryId)
    requires a != b
    ensures var r0 := Init(Unset, Done(f));
            var o1 := Open(r0.next, a, Some(1), Done(10));
            var o2 := Open(o1.next, b, Some(2), Done(20));
            var c1 := CloseHandler(o2.next, 0, 1);
            var sd := Shutdown(c1.next);
            && r0.err == 0 && o1.err == 0 && o2.err == 0
            && Broadcast(o2.next.conns, a, "hello") == [Sent(10, "hello")]
            && Broadcast(c1.next.conns, a, "hello") == []
            && sd.trace == [ConnReleased(20), RecordFreed(2), FactoryReleased(f)]
            && sd.next == Unset
  {
    var r0 := Init(Unset, Done(f));
    var o1 := Open(r0.next, a, Some(1), Done(10));
    var o2 := Open(o1.next, b, Some(2), Done(20));
    assert o2.next.conns == [Conn(1, 10, a), Conn(2, 20, b)];
    var c1 := CloseHandler(o2.next, 0, 1);
    assert IndexOf(o2.next.conns, 1) == 0;
    assert c1.next == Registry([Conn(2, 20, b)], Some(f));
    var d := Drain(c1.next);
    assert ConnDestroy(c1.next, 2).next == Registry([], Some(f));
    assert d.trace == [ConnReleased(20), RecordFreed(2)];
  }
}
