/*******************************************************************************
 *  Properties of the registry operations in module Ws: what membership,
 *  broadcast, teardown and shutdown promise over all inputs.
 *******************************************************************************/

module WsProperties {
  import opened WsTypes
  import opened Ws

  /** Some member with handle `h` is of category `kind`. */
  predicate Targets(conns: seq<Conn>, kind: WsType, h: Handle) {
    exists i :: 0 <= i < |conns| && conns[i].conn == h && conns[i].kind == kind
  }

  // ---------------------------------------------------------------------------
  // Open and per-connection teardown
  // ---------------------------------------------------------------------------

  /** With unique records, the close callback unlinks exactly the entry of
      `id`: it is gone, every other record is still linked, the remaining
      entries keep their order, and the result does not depend on `err`. */
  lemma CloseRemovesExactlyOne(reg: Registry, err: int, id: RecId)
    requires DistinctIds(reg.conns) && Linked(reg.conns, id)
    ensures var s := CloseHandler(reg, err, id);
            && !Linked(s.next.conns, id)
            && (forall x: RecId :: x != id ==> (Linked(s.next.conns, x) <==> Linked(reg.conns, x)))
            && DistinctIds(s.next.conns)
            && (forall e: int :: CloseHandler(reg, e, id) == s)
            && exists i :: && 0 <= i < |reg.conns| && reg.conns[i].id == id
                           && s.next.conns == reg.conns[..i] + reg.conns[i + 1..]
                           && multiset(s.next.conns) + multiset{reg.conns[i]} == multiset(reg.conns)
  {
    var s := CloseHandler(reg, err, id);
    var i := IndexOf(reg.conns, id);
    var cs := reg.conns;
    assert s.next.conns == cs[..i] + cs[i + 1..];
    assert cs == cs[..i] + [cs[i]] + cs[i + 1..];
    RemoveAtKeepsOthers(cs, i);
  }

  /** Removing position `i` from a list of unique records keeps every other
      record and drops record `cs[i].id`. */
  lemma RemoveAtKeepsOthers(cs: seq<Conn>, i: nat)
    requires DistinctIds(cs) && i < |cs|
    ensures var r := cs[..i] + cs[i + 1..];
            && DistinctIds(r)
            && !Linked(r, cs[i].id)
            && (forall x: RecId :: x != cs[i].id ==> (Linked(r, x) <==> Linked(cs, x)))
  {
    var r := cs[..i] + cs[i + 1..];
    assert forall k :: 0 <= k < |r| ==> r[k] == (if k < i then cs[k] else cs[k + 1]);
    forall x: RecId | x != cs[i].id
      ensures Linked(r, x) <==> Linked(cs, x)
    {
      if Linked(cs, x) {
        var k :| 0 <= k < |cs| && cs[k].id == x;
        if k < i { assert r[k].id == x; } else { assert r[k - 1].id == x; }
      }
    }
  }

  /** The same removal also keeps handles unique. */
  lemma RemoveAtKeepsHandlesDistinct(cs: seq<Conn>, i: nat)
    requires DistinctHandles(cs) && i < |cs|
    ensures DistinctHandles(cs[..i] + cs[i + 1..])
  {
    var r := cs[..i] + cs[i + 1..];
    assert forall k :: 0 <= k < |r| ==> r[k] == (if k < i then cs[k] else cs[k + 1]);
  }

  /** The close callback keeps the registry invariant. */
  lemma CloseHandlerPreservesValid(reg: Registry, err: int, id: RecId)
    requires Valid(reg) && Linked(reg.conns, id)
    ensures Valid(CloseHandler(reg, err, id).next)
  {
    var i := IndexOf(reg.conns, id);
    RemoveAtKeepsOthers(reg.conns, i);
    RemoveAtKeepsHandlesDistinct(reg.conns, i);
  }

  /** Open keeps the registry invariant, given what its collaborators
      guarantee: `mem_zalloc` never returns a live record, an accepted handle
      is not already in use, and `websock_accept` refuses a NULL factory. */
  lemma OpenPreservesValid(reg: Registry, kind: WsType, alloc: Option<RecId>, accept: Attempt<Handle>)
    requires Valid(reg)
    requires alloc.Some? ==> !Linked(reg.conns, alloc.value)
    requires accept.Done? ==> !HasHandle(reg.conns, accept.value)
    requires reg.factory.None? ==> accept.Failed?
    ensures Valid(Open(reg, kind, alloc, accept).next)
  {
    var r := Open(reg, kind, alloc, accept);
    if r.err == 0 {
      var cs := r.next.conns;
      assert cs == reg.conns + [Conn(alloc.value, accept.value, kind)];
      forall i, j | 0 <= i < j < |cs|
        ensures cs[i].id != cs[j].id && cs[i].conn != cs[j].conn
      {
        if j == |reg.conns| {
          assert reg.conns[i].id == cs[i].id;
          assert reg.conns[i].conn == cs[i].conn;
        }
      }
    }
  }

  /** Closing a connection right after opening it undoes the open: the list
      is back to what it was, and exactly that handle and record are
      released. */
  lemma OpenThenCloseRestores(reg: Registry, kind: WsType, id: RecId, h: Handle, err: int)
    requires !Linked(reg.conns, id)
    ensures var o := Open(reg, kind, Some(id), Done(h));
            && o.err == 0
            && Linked(o.next.conns, id)
            && CloseHandler(o.next, err, id) == Step(reg, [ConnReleased(h), RecordFreed(id)])
  {
    var o := Open(reg, kind, Some(id), Done(h));
    var cs := o.next.conns;
    assert cs == reg.conns + [Conn(id, h, kind)];
    assert cs[|reg.conns|].id == id;
    var i := IndexOf(cs, id);
    assert cs[..i] == reg.conns;
  }

  // ---------------------------------------------------------------------------
  // Broadcast
  // ---------------------------------------------------------------------------

  /** A broadcast sends `str` to a handle exactly when that handle belongs to
      a member of the requested category, and sends nothing else. */
  lemma {:induction false} BroadcastTargetsExactlyMatching(conns: seq<Conn>, kind: WsType, str: string, h: Handle)
    ensures Sent(h, str) in Broadcast(conns, kind, str) <==> Targets(conns, kind, h)
  {
    if conns != [] {
      BroadcastTargetsExactlyMatching(conns[1..], kind, str, h);
      if Targets(conns[1..], kind, h) {
        var k :| 0 <= k < |conns[1..]| && conns[1..][k].conn == h && conns[1..][k].kind == kind;
        assert conns[k + 1].conn == h && conns[k + 1].kind == kind;
      }
      if Targets(conns, kind, h) && !(conns[0].conn == h && conns[0].kind == kind) {
        var k :| 0 <= k < |conns| && conns[k].conn == h && conns[k].kind == kind;
        assert conns[1..][k - 1].conn == h;
      }
    }
  }

  /** With unique handles, each member receives exactly one copy of the text
      when its category matches and none otherwise. */
  lemma {:induction false} BroadcastOncePerMember(conns: seq<Conn>, kind: WsType, str: string)
    requires DistinctHandles(conns)
    ensures forall i :: 0 <= i < |conns| ==>
              multiset(Broadcast(conns, kind, str))[Sent(conns[i].conn, str)]
                == (if conns[i].kind == kind then 1 else 0)
  {
    if conns != [] {
      var tail := conns[1..];
      assert DistinctHandles(tail) by {
        forall i, j | 0 <= i < j < |tail| ensures tail[i].conn != tail[j].conn {
          assert tail[i] == conns[i + 1] && tail[j] == conns[j + 1];
        }
      }
      BroadcastOncePerMember(tail, kind, str);
      var head := if conns[0].kind == kind then [Sent(conns[0].conn, str)] else [];
      var rest := Broadcast(tail, kind, str);
      assert Broadcast(conns, kind, str) == head + rest;
      forall i | 0 <= i < |conns|
        ensures multiset(head + rest)[Sent(conns[i].conn, str)] == (if conns[i].kind == kind then 1 else 0)
      {
        var e := Sent(conns[i].conn, str);
        if i == 0 {
          assert multiset(rest)[e] == 0;
        } else {
          assert tail[i - 1] == conns[i];
          assert multiset(head)[e] == 0;
        }
      }
    }
  }

  /** The list walk of `sl_ws_send_str` against the example of two members
      of one category around a member of another. */
  lemma BroadcastExample(a: WsType, b: WsType)
    requires a != b
    ensures Broadcast([Conn(1, 10, a), Conn(2, 20, b), Conn(3, 30, a)], a, "ping")
              == [Sent(10, "ping"), Sent(30, "ping")]
  {
    var cs := [Conn(1, 10, a), Conn(2, 20, b), Conn(3, 30, a)];
    assert cs[1..][1..][1..] == [];
    assert Broadcast(cs[1..][1..], a, "ping") == [Sent(30, "ping")];
    assert Broadcast(cs[1..], a, "ping") == [Sent(30, "ping")];
  }

  // ---------------------------------------------------------------------------
  // Shutdown
  // ---------------------------------------------------------------------------

  /** Position `k` of trace `t` holds the destruction of entry `cs[k]`: its
      handle release followed by its record release. */
  predicate Destroyed(t: seq<Event>, cs: seq<Conn>, k: nat)
    requires k < |cs| && |t| == 2 * |cs|
  {
    t[2 * k] == ConnReleased(cs[k].conn) && t[2 * k + 1] == RecordFreed(cs[k].id)
  }

  /** Trace `t` destroys the entries of `cs` one after another, in list
      order, and does nothing else. */
  predicate DestroyedInOrder(t: seq<Event>, cs: seq<Conn>) {
    |t| == 2 * |cs| && forall k :: 0 <= k < |cs| ==> Destroyed(t, cs, k)
  }

  lemma ConsDestroyedInOrder(c: Conn, tail: seq<Conn>, rest: seq<Event>)
    requires DestroyedInOrder(rest, tail)
    ensures DestroyedInOrder([ConnReleased(c.conn), RecordFreed(c.id)] + rest, [c] + tail)
  {
    var t := [ConnReleased(c.conn), RecordFreed(c.id)] + rest;
    var cs := [c] + tail;
    forall k | 0 <= k < |cs|
      ensures Destroyed(t, cs, k)
    {
      if k > 0 {
        assert Destroyed(rest, tail, k - 1);
        assert cs[k] == tail[k - 1];
      }
    }
  }

  /** One turn of the shutdown loop destroys the head entry, and the entry
      read as `le->next` before that is the head of what remains. */
  lemma DrainUnfold(reg: Registry)
    requires reg.conns != []
    ensures var tail := Registry(reg.conns[1..], reg.factory);
            && ConnDestroy(reg, reg.conns[0].id) == Step(tail, [ConnReleased(reg.conns[0].conn), RecordFreed(reg.conns[0].id)])
            && Drain(reg).trace == [ConnReleased(reg.conns[0].conn), RecordFreed(reg.conns[0].id)] + Drain(tail).trace
  {
    assert IndexOf(reg.conns, reg.conns[0].id) == 0;
  }

  /** Reference trace for tearing down `cs` from the head: each entry's
      handle release, then its record release. */
  function Teardown(cs: seq<Conn>): seq<Event> {
    if cs == [] then []
    else [ConnReleased(cs[0].conn), RecordFreed(cs[0].id)] + Teardown(cs[1..])
  }

  /** The shutdown loop emits exactly the reference teardown of the list. */
  lemma {:induction false} DrainIsTeardown(reg: Registry)
    decreases |reg.conns|
    ensures Drain(reg).trace == Teardown(reg.conns)
  {
    if reg.conns != [] {
      DrainUnfold(reg);
      DrainIsTeardown(Registry(reg.conns[1..], reg.factory));
    }
  }

  /** The reference teardown destroys the entries one after another. */
  lemma {:induction false} TeardownInOrder(cs: seq<Conn>)
    decreases |cs|
    ensures DestroyedInOrder(Teardown(cs), cs)
  {
    if cs != [] {
      TeardownInOrder(cs[1..]);
      ConsDestroyedInOrder(cs[0], cs[1..], Teardown(cs[1..]));
      assert [cs[0]] + cs[1..] == cs;
    }
  }

  /** The shutdown loop destroys the entries in list order: for the k-th
      entry its handle release and then its record release. */
  lemma DrainInListOrder(reg: Registry)
    ensures DestroyedInOrder(Drain(reg).trace, reg.conns)
  {
    DrainIsTeardown(reg);
    TeardownInOrder(reg.conns);
  }

  /** A trace that destroys `cs` in order releases only members' handles and
      records. */
  lemma OrderedReleasesOnlyMembers(t: seq<Event>, cs: seq<Conn>)
    requires DestroyedInOrder(t, cs)
    ensures forall e :: e in t ==>
              || (e.ConnReleased? && HasHandle(cs, e.conn))
              || (e.RecordFreed? && Linked(cs, e.rec))
  {
    forall e | e in t
      ensures || (e.ConnReleased? && HasHandle(cs, e.conn))
              || (e.RecordFreed? && Linked(cs, e.rec))
    {
      var j :| 0 <= j < |t| && t[j] == e;
      var k := j / 2;
      assert Destroyed(t, cs, k);
      if j == 2 * k {
        assert e == ConnReleased(cs[k].conn);
      } else {
        assert j == 2 * k + 1;
        assert e == RecordFreed(cs[k].id);
      }
    }
  }

  /** With unique records and handles, a trace that destroys `cs` in order
      releases every handle exactly once and frees every record exactly
      once. */
  lemma {:induction false} OrderedReleasesEachOnce(t: seq<Event>, cs: seq<Conn>)
    requires DestroyedInOrder(t, cs) && DistinctIds(cs) && DistinctHandles(cs)
    decreases |cs|
    ensures forall k :: 0 <= k < |cs| ==>
              && multiset(t)[ConnReleased(cs[k].conn)] == 1
              && multiset(t)[RecordFreed(cs[k].id)] == 1
  {
    if cs != [] {
      var tail := cs[1..];
      var rest := t[2..];
      assert Destroyed(t, cs, 0);
      assert t == [ConnReleased(cs[0].conn), RecordFreed(cs[0].id)] + rest;
      assert DestroyedInOrder(rest, tail) by {
        forall k | 0 <= k < |tail|
          ensures Destroyed(rest, tail, k)
        {
          assert Destroyed(t, cs, k + 1);
          assert tail[k] == cs[k + 1];
        }
      }
      assert DistinctIds(tail) && DistinctHandles(tail) by {
        forall i, j | 0 <= i < j < |tail|
          ensures tail[i].id != tail[j].id && tail[i].conn != tail[j].conn
        {
          assert tail[i] == cs[i + 1] && tail[j] == cs[j + 1];
        }
      }
      OrderedReleasesEachOnce(rest, tail);
      OrderedReleasesOnlyMembers(rest, tail);
      forall k | 0 <= k < |cs|
        ensures && multiset(t)[ConnReleased(cs[k].conn)] == 1
                && multiset(t)[RecordFreed(cs[k].id)] == 1
      {
        if k > 0 {
          assert tail[k - 1] == cs[k];
        }
      }
    }
  }

  /** `sl_ws_close` releases each member's handle and record exactly once and
      releases no handle or record that is not a member. */
  lemma ShutdownReleasesEachOnce(reg: Registry)
    requires Valid(reg)
    ensures var t := Shutdown(reg).trace;
            && (forall k :: 0 <= k < |reg.conns| ==>
                  && multiset(t)[ConnReleased(reg.conns[k].conn)] == 1
                  && multiset(t)[RecordFreed(reg.conns[k].id)] == 1)
            && (forall e :: e in t && e.ConnReleased? ==> HasHandle(reg.conns, e.conn))
            && (forall e :: e in t && e.RecordFreed? ==> Linked(reg.conns, e.rec))
  {
    DrainInListOrder(reg);
    OrderedReleasesEachOnce(Drain(reg).trace, reg.conns);
    OrderedReleasesOnlyMembers(Drain(reg).trace, reg.conns);
  }

  /** The factory is released only after every connection has been
      destroyed: a factory release can only be the last event of the
      shutdown trace, it is there exactly when a factory was set, and it
      releases that factory. */
  lemma ShutdownReleasesFactoryLast(reg: Registry)
    ensures var t := Shutdown(reg).trace;
            && (forall i :: 0 <= i < |t| && t[i].FactoryReleased? ==>
                  i == |t| - 1 && reg.factory == Some(t[i].factory))
            && (reg.factory.Some? <==> exists i :: 0 <= i < |t| && t[i].FactoryReleased?)
  {
    var t := Shutdown(reg).trace;
    var d := Drain(reg).trace;
    DrainInListOrder(reg);
    OrderedReleasesOnlyMembers(d, reg.conns);
    assert forall j :: 0 <= j < |d| ==> !t[j].FactoryReleased? by {
      forall j | 0 <= j < |d|
        ensures !t[j].FactoryReleased?
      {
        assert t[j] == d[j];
        assert d[j] in d;
      }
    }
    if reg.factory.Some? {
      assert t[|t| - 1].FactoryReleased?;
    }
  }

  /** A second `sl_ws_close` finds nothing to do: it emits no event and
      leaves the state as it is. */
  lemma ShutdownTwiceIsNoop(reg: Registry)
    ensures var s := Shutdown(reg);
            Shutdown(s.next) == Outcome(s.next, [], 0)
  {
  }

  /** After `sl_ws_close` the invariant holds and `sl_ws_init` may be called
      again; a successful `sl_ws_init` establishes the invariant. */
  lemma ShutdownThenInitIsValid(reg: Registry, alloc: Attempt<FactoryId>)
    ensures var s := Shutdown(reg);
            && Valid(s.next)
            && Valid(Init(s.next, alloc).next)
  {
  }
}
