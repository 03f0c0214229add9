/*******************************************************************************
 *  The operations of libsl's WebSocket registry (src/ws.c), one function or
 *  method per C function. Foreign calls (`mem_zalloc`, `websock_accept`,
 *  `websock_alloc`) appear as parameters holding their outcome; releases and
 *  sends appear as events in the returned trace.
 *******************************************************************************/

module Ws {
  import opened WsTypes

  /** The list position of record `id`: the first entry that carries it. */
  function IndexOf(conns: seq<Conn>, id: RecId): (i: nat)
    requires Linked(conns, id)
    ensures i < |conns| && conns[i].id == id
    ensures forall j :: 0 <= j < i ==> conns[j].id != id
  {
    if conns[0].id == id then 0
    else
      LinkedTail(conns, id);
      IndexOf(conns[1..], id) + 1
  }

  lemma LinkedTail(conns: seq<Conn>, id: RecId)
    requires Linked(conns, id) && conns[0].id != id
    ensures Linked(conns[1..], id)
  {
    var k :| 0 <= k < |conns| && conns[k].id == id;
    assert conns[1..][k - 1].id == id;
  }

  lemma LinkedAppend(conns: seq<Conn>, c: Conn, x: RecId)
    ensures Linked(conns + [c], x) <==> Linked(conns, x) || c.id == x
  {
    if Linked(conns, x) {
      var k :| 0 <= k < |conns| && conns[k].id == x;
      assert (conns + [c])[k].id == x;
    }
    if c.id == x {
      assert (conns + [c])[|conns|].id == x;
    }
    if Linked(conns + [c], x) && c.id != x {
      var k :| 0 <= k < |conns| + 1 && (conns + [c])[k].id == x;
      assert conns[k].id == x;
    }
  }

  /** `conn_destroy`, run when the last reference to a linked record goes:
      release the accepted handle, unlink the entry, free the record. */
  function ConnDestroy(reg: Registry, id: RecId): (s: Step)
    requires Linked(reg.conns, id)
    ensures s.next.factory == reg.factory
    ensures |s.next.conns| == |reg.conns| - 1
    ensures exists i :: && 0 <= i < |reg.conns| && reg.conns[i].id == id
                        && (forall j :: 0 <= j < i ==> reg.conns[j].id != id)
                        && s.next.conns == reg.conns[..i] + reg.conns[i + 1..]
                        && s.trace == [ConnReleased(reg.conns[i].conn), RecordFreed(id)]
  {
    var i := IndexOf(reg.conns, id);
    Step(Registry(reg.conns[..i] + reg.conns[i + 1..], reg.factory),
         [ConnReleased(reg.conns[i].conn), RecordFreed(id)])
  }

  /** `close_handler`: the transport reports that connection `id` closed.
      The error code is ignored; the record's last reference is dropped. */
  function CloseHandler(reg: Registry, err: int, id: RecId): (s: Step)
    requires Linked(reg.conns, id)
    ensures s.next.factory == reg.factory
    ensures |s.next.conns| == |reg.conns| - 1
    ensures exists i :: 0 <= i < |reg.conns| && reg.conns[i].id == id
                        && s.trace == [ConnReleased(reg.conns[i].conn), RecordFreed(id)]
  {
    ConnDestroy(reg, id)
  }

  /** `sl_ws_open`: allocate a record (`alloc`, None when `mem_zalloc`
      returns NULL) and try the handshake (`accept`). Only an accepted
      connection is appended to the list; a failed record is freed before
      it is ever linked, and its error code is returned. */
  function Open(reg: Registry, kind: WsType, alloc: Option<RecId>, accept: Attempt<Handle>): (r: Outcome)
    ensures r.next.factory == reg.factory
    ensures alloc.None? ==> r.err == ENOMEM && r.trace == []
    ensures alloc.Some? && accept.Failed? ==> r.err == accept.err && r.trace == [RecordFreed(alloc.value)]
    ensures r.err == 0 <==> alloc.Some? && accept.Done?
    ensures r.err != 0 ==> r.next == reg
    ensures r.err == 0 ==>
              && r.next.conns == reg.conns + [Conn(alloc.value, accept.value, kind)]
              && r.trace == [Accepted(alloc.value, accept.value)]
    ensures |r.next.conns| == |reg.conns| + (if r.err == 0 then 1 else 0)
    ensures forall x: RecId :: Linked(r.next.conns, x) <==> Linked(reg.conns, x) || (r.err == 0 && alloc == Some(x))
  {
    match alloc
    case None => Outcome(reg, [], ENOMEM)
    case Some(id) =>
      match accept
      // websock_accept leaves `ws_conn->c` NULL on failure, so conn_destroy
      // releases no handle, and unlinking a never-linked entry does nothing.
      case Failed(e) => Outcome(reg, [RecordFreed(id)], e)
      case Done(h) =>
        var c := Conn(id, h, kind);
        assert forall x: RecId :: Linked(reg.conns + [c], x) <==> Linked(reg.conns, x) || x == id by {
          forall x: RecId
            ensures Linked(reg.conns + [c], x) <==> Linked(reg.conns, x) || x == id
          {
            LinkedAppend(reg.conns, c, x);
          }
        }
        Outcome(reg.(conns := reg.conns + [c]), [Accepted(id, h)], 0)
  }

  /** The text frames `sl_ws_send_str(kind, str)` is to emit: one per list
      member of category `kind`, in list order. */
  function Broadcast(conns: seq<Conn>, kind: WsType, str: string): (sent: seq<Event>)
    ensures |sent| <= |conns|
    ensures forall e :: e in sent ==> e.Sent? && e.text == str && HasHandle(conns, e.conn)
  {
    if conns == [] then []
    else
      var head := if conns[0].kind == kind then [Sent(conns[0].conn, str)] else [];
      var rest := Broadcast(conns[1..], kind, str);
      assert forall e :: e in rest ==> HasHandle(conns, e.conn) by {
        forall e | e in rest
          ensures HasHandle(conns, e.conn)
        {
          var k :| 0 <= k < |conns[1..]| && conns[1..][k].conn == e.conn;
          assert conns[k + 1].conn == e.conn;
        }
      }
      head + rest
  }

  /** `sl_ws_send_str`: walk the list and send `str` to every member whose
      category is `kind`. Send failures are ignored and the list is not
      modified. */
  method SendStr(reg: Registry, kind: WsType, str: string) returns (sent: seq<Event>)
    ensures sent == Broadcast(reg.conns, kind, str)
  {
    sent := [];
    var le := reg.conns;
    while le != []
      invariant sent + Broadcast(le, kind, str) == Broadcast(reg.conns, kind, str)
      decreases |le|
    {
      var wsConn := le[0];
      if wsConn.kind == kind {
        sent := sent + [Sent(wsConn.conn, str)];
      }
      le := le[1..];
    }
  }

  /** `sl_ws_init`: empty the list and allocate the factory. The factory is
      set exactly when `websock_alloc` succeeds, whose code is returned.
      Calling it twice without an intervening shutdown is undefined. */
  function Init(reg: Registry, alloc: Attempt<FactoryId>): (r: Outcome)
    requires reg.conns == [] && reg.factory.None?
    ensures r.next.conns == [] && r.trace == []
    ensures r.err == 0 <==> r.next.factory.Some?
    ensures alloc.Failed? ==> r.err == alloc.err
    ensures alloc.Done? ==> r.next.factory == Some(alloc.value)
  {
    match alloc
    case Done(f) => Outcome(Registry([], Some(f)), [], 0)
    case Failed(e) => Outcome(Registry([], None), [], e)
  }

  /** The loop of `sl_ws_close`: the next entry is read before the current
      one is destroyed, and destroying it unlinks it, so the saved next entry
      is the new head. Every entry is destroyed, in list order. */
  function Drain(reg: Registry): (s: Step)
    ensures s.next == Registry([], reg.factory)
    ensures |s.trace| == 2 * |reg.conns|
    ensures forall e :: e in s.trace ==>
              || (e.ConnReleased? && HasHandle(reg.conns, e.conn))
              || (e.RecordFreed? && Linked(reg.conns, e.rec))
    decreases |reg.conns|
  {
    if reg.conns == [] then Step(reg, [])
    else
      var d := ConnDestroy(reg, reg.conns[0].id);
      assert IndexOf(reg.conns, reg.conns[0].id) == 0;
      assert d.next.conns == reg.conns[1..];
      var rest := Drain(d.next);
      TailMembers(reg.conns);
      Step(rest.next, d.trace + rest.trace)
  }

  /** A handle or record of the tail of the list belongs to the list. */
  lemma TailMembers(conns: seq<Conn>)
    requires conns != []
    ensures forall h :: HasHandle(conns[1..], h) ==> HasHandle(conns, h)
    ensures forall x :: Linked(conns[1..], x) ==> Linked(conns, x)
  {
    forall h | HasHandle(conns[1..], h)
      ensures HasHandle(conns, h)
    {
      var k :| 0 <= k < |conns[1..]| && conns[1..][k].conn == h;
      assert conns[k + 1].conn == h;
    }
    forall x | Linked(conns[1..], x)
      ensures Linked(conns, x)
    {
      var k :| 0 <= k < |conns[1..]| && conns[1..][k].id == x;
      assert conns[k + 1].id == x;
    }
  }

  /** `sl_ws_close`: drain the list, then release the factory if it is set
      and reset it to NULL. Always returns 0. */
  function Shutdown(reg: Registry): (r: Outcome)
    ensures r.next == Unset && r.err == 0
    ensures |r.trace| == 2 * |reg.conns| + (if reg.factory.Some? then 1 else 0)
    ensures reg.factory.Some? ==> r.trace[|r.trace| - 1] == FactoryReleased(reg.factory.value)
  {
    var d := Drain(reg);
    match reg.factory
    case None => Outcome(d.next, d.trace, 0)
    case Some(f) => Outcome(Unset, d.trace + [FactoryReleased(f)], 0)
  }
}
