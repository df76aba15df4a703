/** The HTTP and WebSocket connection registries of one server and what a tick does to them. */
module ServerRegistry {
  import opened Bytes
  import Drain = GracefulDrain

  /** Calls to the application that come in pairs. */
  datatype Callback = NewWs(id: nat) | CloseWs(id: nat)

  /** What the application and the network decide about one connection during a tick. */
  datatype RequestKind = UpgradeRequest | BadUpgrade | PlainRequest(close: bool)
  datatype HttpEvent = HttpEvent(io: Drain.Io, kind: RequestKind)
  datatype UpgradeEvent = HandshakeFails | HandshakeWorks(close: bool)
  datatype WsEvent = WsMessage(close: bool) | WsBlocks | WsFails
  datatype UserOp = AddConn | RemoveConn(id: nat) | CloseConn(id: nat) | WriteTo(id: nat, streamOk: bool)
    | RemoveWs(id: nat)

  datatype Environment = Environment(accepted: nat, http: nat -> HttpEvent, upgrade: nat -> UpgradeEvent,
                                     ws: nat -> WsEvent, user: seq<UserOp>)

  /** Each callback at most once, and a close only behind its open. */
  ghost predicate LogOk(log: seq<Callback>) {
    && (forall i, j :: 0 <= i < j < |log| ==> log[i] != log[j])
    && (forall j :: 0 <= j < |log| && log[j].CloseWs? ==> NewWs(log[j].id) in log[..j])
  }

  lemma LogOpens(log: seq<Callback>, id: nat)
    requires LogOk(log) && NewWs(id) !in log
    ensures LogOk(log + [NewWs(id)])
  {
    var log' := log + [NewWs(id)];
    forall j | 0 <= j < |log'| && log'[j].CloseWs?
      ensures NewWs(log'[j].id) in log'[..j]
    {
      assert log'[..j] == log[..j];
    }
  }

  lemma LogCloses(log: seq<Callback>, id: nat)
    requires LogOk(log) && NewWs(id) in log && CloseWs(id) !in log
    ensures LogOk(log + [CloseWs(id)])
  {
    var log' := log + [CloseWs(id)];
    forall j | 0 <= j < |log'| && log'[j].CloseWs?
      ensures NewWs(log'[j].id) in log'[..j]
    {
      assert log'[..j] == if j == |log| then log else log[..j];
    }
  }

  class HttpWsServer {
    var connSeq: nat
    var conns: map<nat, Drain.Conn>     // HttpServerConns
    var pending: seq<nat>               // ids waiting for their upgrade
    var ws: set<nat>                    // WsServerConns
    ghost var log: seq<Callback>

    /** What holds between any two steps of any run. */
    ghost predicate Valid()
      reads this
    {
      && (forall id :: id in conns ==> id < connSeq && id !in ws && NewWs(id) !in log)
      && (forall id :: id in ws ==> id < connSeq && NewWs(id) in log && CloseWs(id) !in log)
      && (forall c :: c in log ==> c.id < connSeq)
      && (forall id :: id in conns ==> conns[id].responses <= conns[id].requests)
      && LogOk(log)
    }

    constructor ()
      ensures Valid() && connSeq == 0 && conns == map[] && ws == {} && pending == [] && log == []
    {
      connSeq, conns, pending, ws, log := 0, map[], [], {}, [];
    }

    /** A new connection gets an id that was never used, not even by a connection that is gone. */
    method AddConnection()
      requires Valid()
      modifies this`connSeq, this`conns
      ensures Valid() && connSeq == old(connSeq) + 1
      ensures conns == old(conns)[old(connSeq) := Drain.NEW]
      ensures old(connSeq) !in old(conns) && old(connSeq) !in ws && NewWs(old(connSeq)) !in log
    {
      conns := conns[connSeq := Drain.NEW];
      connSeq := connSeq + 1;
    }

    /** Every accepted socket gets a connection. */
    method TickAccept(accepted: nat)
      requires Valid()
      modifies this`connSeq, this`conns
      ensures Valid() && connSeq == old(connSeq) + accepted
      ensures forall id :: id in conns <==> id in old(conns) || old(connSeq) <= id < connSeq
      ensures forall id :: id in conns ==> conns[id] == if id < old(connSeq) then old(conns)[id] else Drain.NEW
    {
      for i := 0 to accepted
        invariant Valid() && connSeq == old(connSeq) + i
        invariant forall id :: id in conns <==> id in old(conns) || old(connSeq) <= id < connSeq
        invariant forall id :: id in conns ==> conns[id] == if id < old(connSeq) then old(conns)[id] else Drain.NEW
      {
        AddConnection();
      }
    }

    /** Reads one request of one connection and lets the application decide about it. */
    method ReadOne(id: nat, event: HttpEvent) returns (failed: bool)
      requires Valid() && id in conns
      modifies this`conns, this`pending
      ensures Valid()
      ensures conns == old(conns)[id := AfterRead(old(conns)[id], event)]
      ensures pending == old(pending) + (if Upgrades(old(conns)[id], event) then [id] else [])
      ensures failed == ReadFails(old(conns)[id], event)
    {
      hide LogOk;
      assert pending + [] == pending;
      var (out, conn) := Drain.ReadRequest(conns[id], event.io);
      failed := out == Drain.ReadError;
      if out == Drain.GotRequest {
        if event.kind == UpgradeRequest {
          pending := pending + [id];
        } else if event.kind == BadUpgrade || event.kind == PlainRequest(true) {
          conn := Drain.Step(conn, Drain.TryClose);
        }
      }
      conns := conns[id := conn];
    }

    /** One request per connection, in id order; connections whose read fails are removed afterwards. */
    method TickRead(events: nat -> HttpEvent)
      requires Valid() && pending == []
      modifies this`conns, this`pending
      ensures Valid()
      ensures forall id :: id in conns <==> id in old(conns) && !ReadFails(old(conns)[id], events(id))
      ensures forall id :: id in conns ==> conns[id] == AfterRead(old(conns)[id], events(id))
      ensures forall id :: id in pending <==> id in conns && Upgrades(old(conns)[id], events(id))
      ensures Ascending(pending)
    {
      hide LogOk, AfterRead, Upgrades, ReadFails, ReadSoFar;
      var remove: set<nat> := {};
      var id := 0;
      NothingRead(conns, events);
      while id < connSeq
        invariant id <= connSeq && Valid() && ReadSoFar(old(conns), conns, pending, remove, events, id)
      {
        ghost var before, earlier := conns, pending;
        if id in conns {
          var failed := ReadOne(id, events(id));
          ReadSoFarStep(old(conns), before, earlier, remove, events, id);
          remove := remove + (if failed then {id} else {});
        } else {
          ReadSoFarSkip(old(conns), conns, pending, remove, events, id);
        }
        id := id + 1;
      }
      AllRead(old(conns), conns, pending, remove, events, id);
      conns := conns - remove;
    }

    /** Hands one connection over to the WebSocket registry. */
    method UpgradeOne(id: nat, event: UpgradeEvent)
      requires Valid() && id in conns
      modifies this`conns, this`ws, this`log
      ensures Valid()
      ensures conns == old(conns) - {id}
      ensures ws == old(ws) + (if event == HandshakeWorks(false) then {id} else {})
      ensures log == old(log) + (if event.HandshakeWorks? then [NewWs(id)] else [])
    {
      LogOpens(log, id);
      hide LogOk;
      assert log + [] == log;
      conns := conns - {id};
      if event.HandshakeWorks? {
        ws := ws + {id};
        log := log + [NewWs(id)];
        if event.close {
          ws := ws - {id};
        }
      }
    }

    /** Turns the pending connections into WebSockets, last one first. */
    method TransformConns(events: nat -> UpgradeEvent)
      requires Valid()
      modifies this`conns, this`pending, this`ws, this`log
      ensures Valid() && pending == [] && old(log) <= log
      ensures forall id :: id in conns <==> id in old(conns) && id !in old(pending)
      ensures forall id :: id in conns ==> conns[id] == old(conns)[id]
      ensures forall id :: id in ws <==>
        id in old(ws) || (id in old(pending) && id in old(conns) && events(id) == HandshakeWorks(false))
      ensures forall id :: NewWs(id) in log <==>
        NewWs(id) in old(log) || (id in old(pending) && id in old(conns) && events(id).HandshakeWorks?)
      ensures forall id :: CloseWs(id) in log <==> CloseWs(id) in old(log)
      ensures Ascending(old(pending)) ==> Descending(log[|old(log)|..])
    {
      hide LogOk, Descending, Ascending;
      NothingOpened(log, pending);
      ghost var done: set<nat> := {};
      while pending != []
        invariant Valid() && old(log) <= log && pending <= old(pending)
        invariant forall id :: id in old(pending) <==> id in pending || id in done
        invariant forall id :: id in conns <==> id in old(conns) && id !in done
        invariant forall id :: id in conns ==> conns[id] == old(conns)[id]
        invariant forall id :: id in ws <==>
          id in old(ws) || (id in done && id in old(conns) && events(id) == HandshakeWorks(false))
        invariant forall id :: NewWs(id) in log <==>
          NewWs(id) in old(log) || (id in done && id in old(conns) && events(id).HandshakeWorks?)
        invariant forall id :: CloseWs(id) in log <==> CloseWs(id) in old(log)
        invariant Ascending(old(pending)) ==> OpenedAbove(log[|old(log)|..], pending)
        decreases |pending|
      {
        var n := |pending| - 1;
        var id := pending[n];
        OpenedNext(log, |old(log)|, pending);
        assert pending == pending[..n] + [id];
        pending := pending[..n];
        done := done + {id};
        ghost var before := log;
        assert before + [] == before;
        if id in conns {
          UpgradeOne(id, events(id));
        }
      }
    }

    /** Reads every WebSocket once, in id order; the failed and the finished ones are closed afterwards. */
    method TickReadWs(events: nat -> WsEvent)
      requires Valid()
      modifies this`ws, this`log
      ensures Valid() && old(log) <= log
      ensures forall id :: id in ws <==> id in old(ws) && !Ends(events(id))
      ensures forall id :: CloseWs(id) in log <==> CloseWs(id) in old(log) || (id in old(ws) && Ends(events(id)))
      ensures forall id :: id in old(ws) ==>
        match events(id)
        case WsMessage(close) => id in ws <==> !close
        case WsBlocks => id in ws
        case WsFails => id !in ws
      ensures forall id :: NewWs(id) in log <==> NewWs(id) in old(log)
      ensures exists ids :: Ascending(ids) && log == old(log) + Closes(ids)
    {
      hide LogOk;
      var id := 0;
      var remove: seq<nat> := [];
      while id < connSeq
        invariant id <= connSeq && Valid()
        invariant forall k :: k in remove <==> k < id && k in ws && Ends(events(k))
        invariant Ascending(remove) && forall i :: 0 <= i < |remove| ==> remove[i] < id
      {
        if id in ws && Ends(events(id)) {
          remove := remove + [id];
        }
        id := id + 1;
      }
      CloseAll(remove);
      ClosedIds(remove);
    }

    /** Closes these WebSockets in this order. */
    method CloseAll(ids: seq<nat>)
      requires Valid() && Ascending(ids) && forall id :: id in ids ==> id in ws
      modifies this`ws, this`log
      ensures Valid() && log == old(log) + Closes(ids)
      ensures forall id :: id in ws <==> id in old(ws) && id !in ids
    {
      hide LogOk;
      for i := 0 to |ids|
        invariant Valid() && log == old(log) + Closes(ids[..i])
        invariant forall id :: id in ws <==> id in old(ws) && id !in ids[..i]
      {
        assert ids[..i + 1] == ids[..i] + [ids[i]];
        CloseOne(ids[i]);
      }
      assert ids[..|ids|] == ids;
    }

    method CloseOne(id: nat)
      requires Valid() && id in ws
      modifies this`ws, this`log
      ensures Valid() && ws == old(ws) - {id} && log == old(log) + [CloseWs(id)]
    {
      LogCloses(log, id);
      hide LogOk;
      ws := ws - {id};
      log := log + [CloseWs(id)];
    }

    /** One thing the application does to the registries in its own tick. */
    method Apply(op: UserOp)
      requires Valid()
      modifies this`connSeq, this`conns, this`ws
      ensures Valid() && connSeq == old(connSeq) + (if op.AddConn? then 1 else 0)
      ensures ws == if op.RemoveWs? then old(ws) - {op.id} else old(ws)
      ensures conns ==
        match op
        case AddConn => old(conns)[old(connSeq) := Drain.NEW]
        case RemoveConn(id) => old(conns) - {id}
        case CloseConn(id) => if id in old(conns) then old(conns)[id := Drain.Step(old(conns)[id], Drain.TryClose)]
          else old(conns)
        case WriteTo(id, ok) => if id in old(conns) then old(conns)[id := Drain.WriteResponse(old(conns)[id], ok).1]
          else old(conns)
        case RemoveWs(id) => old(conns)
    {
      hide LogOk;
      match op
      case AddConn => AddConnection();
      case RemoveConn(id) => conns := conns - {id};
      case CloseConn(id) =>
        if id in conns {
          conns := conns[id := Drain.Step(conns[id], Drain.TryClose)];
        }
      case WriteTo(id, streamOk) =>
        if id in conns {
          conns := conns[id := Drain.WriteResponse(conns[id], streamOk).1];
        }
      case RemoveWs(id) => ws := ws - {id};
    }

    /** The library's own part of a tick: accept, read, upgrade, read WebSockets. */
    method TickConnections(env: Environment)
      requires Valid() && pending == []
      modifies this
      ensures Valid() && pending == [] && old(log) <= log && connSeq == old(connSeq) + env.accepted
      ensures forall id :: id in old(conns) ==>
        (id in conns <==> !ReadFails(old(conns)[id], env.http(id)) && !Upgrades(old(conns)[id], env.http(id)))
      ensures forall id :: id in conns && id in old(conns) ==> conns[id] == AfterRead(old(conns)[id], env.http(id))
      ensures forall id :: id in old(conns) ==>
        (id in ws <==>
          Upgrades(old(conns)[id], env.http(id)) && env.upgrade(id) == HandshakeWorks(false) && !Ends(env.ws(id)))
      ensures forall id :: id in old(ws) ==>
        (id in ws <==> !Ends(env.ws(id))) && (CloseWs(id) in log <==> Ends(env.ws(id)))
      ensures forall id: nat :: id < old(connSeq) ==> Lookup(conns, id) == AfterLibrary(Lookup(old(conns), id), id, env)
      ensures forall id: nat :: old(connSeq) <= id < connSeq ==>
        && Lookup(conns, id) == AfterLibrary(Some(Drain.NEW), id, env)
        && (id in ws <==>
          Upgrades(Drain.NEW, env.http(id)) && env.upgrade(id) == HandshakeWorks(false) && !Ends(env.ws(id)))
    {
      hide LogOk, AfterRead, Upgrades, ReadFails, Ends;
      TickAccept(env.accepted);
      ReadSucceeded(conns, env.http);
      TickRead(env.http);
      TransformConns(env.upgrade);
      TickReadWs(env.ws);
    }

    /** One round of the server loop keeps the registry safe, whatever the network and the application do. */
    method Tick(env: Environment)
      requires Valid() && pending == []
      modifies this
      ensures Valid() && pending == []
      ensures old(log) <= log && old(connSeq) <= connSeq
      ensures forall id: nat :: id < old(connSeq) ==> Lookup(conns, id) == AfterTick(Lookup(old(conns), id), id, env)
      ensures forall id: nat :: old(connSeq) <= id < old(connSeq) + env.accepted ==>
        Lookup(conns, id) == AfterTick(Some(Drain.NEW), id, env)
    {
      hide LogOk, AfterLibrary;
      TickConnections(env);
      ghost var read := conns;
      for i := 0 to |env.user|
        invariant Valid() && pending == [] && old(log) <= log && old(connSeq) + env.accepted <= connSeq
        invariant forall id: nat :: id < old(connSeq) + env.accepted ==>
          Lookup(conns, id) == AfterOps(Lookup(read, id), id, env.user[..i])
      {
        assert env.user[..i + 1][..i] == env.user[..i];
        Apply(env.user[i]);
      }
      assert env.user[..|env.user|] == env.user;
    }

    /** Any number of ticks: connections leave, stay and change as their own events say. */
    method RunTicks(environments: seq<Environment>)
      requires Valid() && pending == []
      modifies this
      ensures Valid() && pending == [] && old(log) <= log && old(connSeq) <= connSeq
      ensures forall id: nat :: id < old(connSeq) ==>
        Lookup(conns, id) == AfterTicks(Lookup(old(conns), id), id, environments)
    {
      hide LogOk, AfterTick;
      for k := 0 to |environments|
        invariant Valid() && pending == [] && old(log) <= log && old(connSeq) <= connSeq
        invariant forall id: nat :: id < old(connSeq) ==>
          Lookup(conns, id) == AfterTicks(Lookup(old(conns), id), id, environments[..k])
      {
        assert environments[..k + 1][..k] == environments[..k];
        Tick(environments[k]);
      }
      assert environments[..|environments|] == environments;
    }

    /**
     * Any run of the server from its start: every id opens at most once, closes at most once, and only
     * behind its open.
     */
    method Serve(environments: seq<Environment>)
      requires Valid() && connSeq == 0 && pending == []
      modifies this
      ensures Valid() && pending == []
      ensures forall i, j :: 0 <= i < |log| && 0 <= j < |log| && log[i] == log[j] ==> i == j
      ensures forall j :: 0 <= j < |log| && log[j].CloseWs? ==> exists i :: 0 <= i < j && log[i] == NewWs(log[j].id)
      ensures conns.Keys !! ws && forall id :: id in conns || id in ws ==> id < connSeq
    {
      RunTicks(environments);
    }
  }

  /** The connections below `id` were read: their new states, those to upgrade and those to remove. */
  ghost predicate ReadSoFar(before: map<nat, Drain.Conn>, now: map<nat, Drain.Conn>, pending: seq<nat>,
                            remove: set<nat>,
                            events: nat -> HttpEvent, id: nat) {
    && now.Keys == before.Keys
    && (forall k :: k in before ==> now[k] == if k < id then AfterRead(before[k], events(k)) else before[k])
    && (forall k :: k in remove <==> k in before && k < id && ReadFails(before[k], events(k)))
    && (forall k :: k in pending <==> k in before && k < id && Upgrades(before[k], events(k)))
    && Ascending(pending) && (forall i :: 0 <= i < |pending| ==> pending[i] < id)
  }

  lemma NothingRead(conns: map<nat, Drain.Conn>, events: nat -> HttpEvent)
    ensures ReadSoFar(conns, conns, [], {}, events, 0)
  {
  }

  lemma ReadSoFarStep(before: map<nat, Drain.Conn>, now: map<nat, Drain.Conn>, pending: seq<nat>, remove: set<nat>,
                      events: nat -> HttpEvent, id: nat)
    requires ReadSoFar(before, now, pending, remove, events, id) && id in now
    ensures var c := now[id];
      ReadSoFar(before, now[id := AfterRead(c, events(id))], pending + (if Upgrades(c, events(id)) then [id] else []),
                remove + (if ReadFails(c, events(id)) then {id} else {}), events, id + 1)
  {
    hide AfterRead, Upgrades, ReadFails;
    var pending' := pending + (if Upgrades(now[id], events(id)) then [id] else []);
    assert forall k :: k in pending' <==> k in pending || (k == id && Upgrades(now[id], events(id)));
  }

  lemma ReadSoFarSkip(before: map<nat, Drain.Conn>, now: map<nat, Drain.Conn>, pending: seq<nat>, remove: set<nat>,
                      events: nat -> HttpEvent, id: nat)
    requires ReadSoFar(before, now, pending, remove, events, id) && id !in now
    ensures ReadSoFar(before, now, pending, remove, events, id + 1)
  {
    hide AfterRead, Upgrades, ReadFails;
  }

  /** With every id read and the failed connections gone, this is what a read round did. */
  lemma AllRead(before: map<nat, Drain.Conn>, now: map<nat, Drain.Conn>, pending: seq<nat>, remove: set<nat>,
                events: nat -> HttpEvent, id: nat)
    requires ReadSoFar(before, now, pending, remove, events, id) && forall k :: k in before ==> k < id
    ensures var left := now - remove;
      && (forall k :: k in left <==> k in before && !ReadFails(before[k], events(k)))
      && (forall k :: k in left ==> left[k] == AfterRead(before[k], events(k)))
      && (forall k :: k in pending <==> k in left && Upgrades(before[k], events(k)))
      && Ascending(pending)
  {
    ReadSucceeded(before, events);
    hide AfterRead, Upgrades, ReadFails;
  }

  predicate Ascending(ids: seq<nat>) {
    forall i, j :: 0 <= i < j < |ids| ==> ids[i] < ids[j]
  }

  predicate Descending(log: seq<Callback>) {
    forall i, j :: 0 <= i < j < |log| ==> log[i].id > log[j].id
  }

  function Closes(ids: seq<nat>): seq<Callback> {
    seq(|ids|, i requires 0 <= i < |ids| => CloseWs(ids[i]))
  }

  lemma ClosedIds(ids: seq<nat>)
    ensures forall id :: CloseWs(id) in Closes(ids) <==> id in ids
    ensures forall id :: NewWs(id) !in Closes(ids)
  {
    forall id | id in ids
      ensures CloseWs(id) in Closes(ids)
    {
      var i :| 0 <= i < |ids| && ids[i] == id;
      assert Closes(ids)[i] == CloseWs(id);
    }
  }

  /** What was opened so far, and what is still to be opened: ids only go down. */
  predicate OpenedAbove(news: seq<Callback>, pending: seq<nat>) {
    && Descending(news) && Ascending(pending)
    && forall i, k :: 0 <= i < |news| && 0 <= k < |pending| ==> news[i].id > pending[k]
  }

  lemma NothingOpened(log: seq<Callback>, pending: seq<nat>)
    ensures Ascending(pending) ==> OpenedAbove(log[|log|..], pending)
  {
  }

  lemma OpenedNext(log: seq<Callback>, from: nat, pending: seq<nat>)
    requires from <= |log| && pending != []
    ensures var n := |pending| - 1;
      var log' := log + [NewWs(pending[n])];
      OpenedAbove(log[from..], pending) ==>
        OpenedAbove(log[from..], pending[..n]) && OpenedAbove(log'[from..], pending[..n])
  {
    assert (log + [NewWs(pending[|pending| - 1])])[from..] == log[from..] + [NewWs(pending[|pending| - 1])];
  }

  predicate Ends(e: WsEvent) {
    e.WsFails? || e == WsMessage(true)
  }

  /** What the application and the network decide about one connection in one read. */
  lemma ReadDecides(c: Drain.Conn, e: HttpEvent)
    requires !c.closed
    ensures ReadFails(c, e) <==> e.io == Drain.FlushFails || e.io == Drain.ReadFails
    ensures Upgrades(c, e) <==> e.io == Drain.RequestArrives && e.kind == UpgradeRequest
    ensures AfterRead(c, e) == if e.io != Drain.RequestArrives then c else
      match e.kind
      case UpgradeRequest => Drain.Conn(false, c.requests + 1, c.responses)
      case BadUpgrade => Drain.Conn(true, c.requests + 1, c.responses)
      case PlainRequest(close) => Drain.Conn(close, c.requests + 1, c.responses)
  {
  }

  lemma ReadSucceeded(conns: map<nat, Drain.Conn>, events: nat -> HttpEvent)
    ensures forall id :: id in conns && Upgrades(conns[id], events(id)) ==> !ReadFails(conns[id], events(id))
  {
  }

  ghost predicate ReadFails(c: Drain.Conn, e: HttpEvent) {
    Drain.ReadRequest(c, e.io).0 == Drain.ReadError
  }

  ghost predicate Upgrades(c: Drain.Conn, e: HttpEvent) {
    Drain.ReadRequest(c, e.io).0 == Drain.GotRequest && e.kind == UpgradeRequest
  }

  ghost function AfterRead(c: Drain.Conn, e: HttpEvent): Drain.Conn {
    var (out, c') := Drain.ReadRequest(c, e.io);
    if out == Drain.GotRequest && (e.kind == BadUpgrade || e.kind == PlainRequest(true))
      then Drain.Step(c', Drain.TryClose)
    else c'
  }

  // ---- One connection over many ticks ----

  function Lookup(conns: map<nat, Drain.Conn>, id: nat): Option<Drain.Conn> {
    if id in conns then Some(conns[id]) else None
  }

  /** What the library's part of a tick leaves of connection `id` in the HTTP registry. */
  ghost function AfterLibrary(c: Option<Drain.Conn>, id: nat, env: Environment): Option<Drain.Conn> {
    if c.None? || ReadFails(c.value, env.http(id)) || Upgrades(c.value, env.http(id)) then None
    else Some(AfterRead(c.value, env.http(id)))
  }

  function AfterOp(c: Option<Drain.Conn>, id: nat, op: UserOp): Option<Drain.Conn> {
    if c.None? then None
    else
      match op
      case RemoveConn(k) => if k == id then None else c
      case CloseConn(k) => if k == id then Some(Drain.Step(c.value, Drain.TryClose)) else c
      case WriteTo(k, ok) => if k == id then Some(Drain.WriteResponse(c.value, ok).1) else c
      case _ => c
  }

  function AfterOps(c: Option<Drain.Conn>, id: nat, ops: seq<UserOp>): Option<Drain.Conn> {
    if ops == [] then c else AfterOp(AfterOps(c, id, ops[..|ops| - 1]), id, ops[|ops| - 1])
  }

  ghost function AfterTick(c: Option<Drain.Conn>, id: nat, env: Environment): Option<Drain.Conn> {
    AfterOps(AfterLibrary(c, id, env), id, env.user)
  }

  ghost function AfterTicks(c: Option<Drain.Conn>, id: nat, environments: seq<Environment>): Option<Drain.Conn> {
    if environments == [] then c
    else
      var n := |environments| - 1;
      AfterTick(AfterTicks(c, id, environments[..n]), id, environments[n])
  }

  /** How many responses to connection `id` the stream takes. */
  function WritesIn(id: nat, ops: seq<UserOp>): nat {
    if ops == [] then 0
    else WritesIn(id, ops[..|ops| - 1]) + (if ops[|ops| - 1] == WriteTo(id, true) then 1 else 0)
  }

  function Writes(id: nat, environments: seq<Environment>): nat {
    if environments == [] then 0
    else
      var n := |environments| - 1;
      Writes(id, environments[..n]) + WritesIn(id, environments[n].user)
  }

  /** No flush of the connection fails and the application does not take it away. */
  predicate Undisturbed(id: nat, environments: seq<Environment>) {
    forall k :: 0 <= k < |environments| ==>
      environments[k].http(id).io != Drain.FlushFails && RemoveConn(id) !in environments[k].user
  }

  function Answer(c: Drain.Conn, writes: nat): Drain.Conn {
    c.(responses := if c.responses + writes < c.requests then c.responses + writes else c.requests)
  }

  /**
   * A connection that was told to close, over any ticks: it stays exactly as long as the reads so
   * far found a request unanswered, that is, it is gone if and only if all its responses were written
   * before the last tick. It takes no further request, and while it is there every response counts.
   */
  lemma {:induction false} ClosedConnDrains(c: Drain.Conn, id: nat, environments: seq<Environment>)
    requires c.closed && c.responses <= c.requests && Undisturbed(id, environments)
    ensures var n := |environments|;
      AfterTicks(Some(c), id, environments) ==
        if n == 0 || c.responses + Writes(id, environments[..n - 1]) < c.requests
        then Some(Answer(c, Writes(id, environments))) else None
  {
    var n := |environments|;
    if n > 0 {
      var init, env := environments[..n - 1], environments[n - 1];
      assert forall k :: 0 <= k < n - 1 ==> init[k] == environments[k];
      ClosedConnDrains(c, id, init);
      var before := AfterTicks(Some(c), id, init);
      if before.Some? {
        ClosedConnRead(before.value, id, env);
        if before.value.responses < before.value.requests {
          ClosedConnOps(before.value, id, env.user);
        } else {
          GoneStaysGone(id, env.user);
        }
      } else {
        GoneStaysGone(id, env.user);
        WritesGrow(id, init);
      }
    }
  }

  /** Nothing fails, and the application neither upgrades nor closes nor removes the connection. */
  predicate Unharmed(id: nat, environments: seq<Environment>) {
    forall k :: 0 <= k < |environments| ==>
      && environments[k].http(id).io != Drain.FlushFails && environments[k].http(id).io != Drain.ReadFails
      && environments[k].http(id).kind == PlainRequest(false)
      && RemoveConn(id) !in environments[k].user && CloseConn(id) !in environments[k].user
  }

  /** How many requests of connection `id` arrive. */
  function Arrivals(id: nat, environments: seq<Environment>): nat {
    if environments == [] then 0
    else
      var n := |environments| - 1;
      Arrivals(id, environments[..n]) + (if environments[n].http(id).io == Drain.RequestArrives then 1 else 0)
  }

  /** An open connection stays, idle or not, and takes every request that arrives. */
  lemma {:induction false} OpenConnStays(c: Drain.Conn, id: nat, environments: seq<Environment>)
    requires !c.closed && Unharmed(id, environments)
    ensures var d := AfterTicks(Some(c), id, environments);
      d.Some? && !d.value.closed && d.value.requests == c.requests + Arrivals(id, environments)
  {
    var n := |environments|;
    if n > 0 {
      var init, env := environments[..n - 1], environments[n - 1];
      assert forall k :: 0 <= k < n - 1 ==> init[k] == environments[k];
      OpenConnStays(c, id, init);
      var before := AfterTicks(Some(c), id, init).value;
      ReadDecides(before, env.http(id));
      OpenConnOps(AfterRead(before, env.http(id)), id, env.user);
    }
  }

  lemma {:induction false} OpenConnOps(c: Drain.Conn, id: nat, ops: seq<UserOp>)
    requires !c.closed && RemoveConn(id) !in ops && CloseConn(id) !in ops
    ensures var d := AfterOps(Some(c), id, ops); d.Some? && !d.value.closed && d.value.requests == c.requests
  {
    if ops != [] {
      OpenConnOps(c, id, ops[..|ops| - 1]);
      assert ops[|ops| - 1] in ops;
    }
  }

  lemma ClosedConnRead(c: Drain.Conn, id: nat, env: Environment)
    requires c.closed && c.responses <= c.requests && env.http(id).io != Drain.FlushFails
    ensures AfterLibrary(Some(c), id, env) == if c.responses < c.requests then Some(c) else None
  {
  }

  lemma {:induction false} ClosedConnOps(c: Drain.Conn, id: nat, ops: seq<UserOp>)
    requires c.closed && c.responses <= c.requests && RemoveConn(id) !in ops
    ensures AfterOps(Some(c), id, ops) == Some(Answer(c, WritesIn(id, ops)))
  {
    if ops != [] {
      ClosedConnOps(c, id, ops[..|ops| - 1]);
      assert ops[|ops| - 1] in ops;
    }
  }

  lemma {:induction false} GoneStaysGone(id: nat, ops: seq<UserOp>)
    ensures AfterOps(None, id, ops) == None
  {
    if ops != [] {
      GoneStaysGone(id, ops[..|ops| - 1]);
    }
  }

  lemma WritesGrow(id: nat, environments: seq<Environment>)
    ensures environments != [] ==> Writes(id, environments[..|environments| - 1]) <= Writes(id, environments)
  {
  }
}
