/** `HttpClient::send`: pooled connections, retried when a reused one turns out to be closed. */
module HttpClient {
  import opened Bytes
  import opened Buffers
  import opened ConnPool
  import opened ResponseFraming
  import ResponseReader

  const HEADER_BUFFER: nat := 8096
  const MAX_READS: nat := 100000

  /** How one exchange on a connection ends. */
  datatype Exchange = Responds(response: Response) | ClosedEarly | Breaks | Panics

  /**
   * What a connection has before it: the bytes not delivered yet, those of them that will be buffered with the
   * first head, and how the reads will go.
   */
  datatype Ahead = Outlook(unread: bytes, seen: bytes, schedule: seq<ReadEvent>)

  /** A connection whose reads block until there is something. */
  class HttpConnBlockingClient {
    const stream: Stream
    const reader: ResponseReader.Reader

    constructor (stream: Stream)
      ensures this.stream == stream && Between()
      ensures fresh(reader) && fresh(reader.header) && fresh(reader.header.buf)
      ensures Unread() == stream.incoming
      ensures HeadSeen() == Buffered([], stream.incoming, stream.schedule, HEADER_BUFFER)
    {
      this.stream := stream;
      reader := new ResponseReader.Reader(HEADER_BUFFER);
      new;
      assert [] + [] + stream.incoming == stream.incoming;
    }

    ghost function Parts(): set<object> {
      {this, stream, reader, reader.header, reader.header.buf}
    }

    /** The connection is between two responses: nothing of the next one has been taken. */
    ghost predicate Between()
      reads reader, reader.header
    {
      && reader.state == ResponseReader.Empty && reader.taken == []
      && reader.header.Valid() && reader.header.cap == HEADER_BUFFER
    }

    ghost function Unread(): bytes
      requires reader.header.Valid()
      reads reader, reader.header, reader.header.buf, stream
    {
      reader.Undelivered(stream)
    }

    /** What is buffered when the head of the next response is found, or when there is nothing more to come. */
    ghost function HeadSeen(): bytes
      requires reader.header.Valid()
      reads reader, reader.header, reader.header.buf, stream
    {
      Buffered(reader.header.Contents(), stream.incoming, stream.schedule, reader.header.cap)
    }

    /** What the connection starts an exchange with. */
    ghost function Ahead(): Ahead
      requires reader.header.Valid()
      reads reader, reader.header, reader.header.buf, stream
    {
      Outlook(Unread(), HeadSeen(), stream.schedule)
    }

    lemma BetweenIsValid()
      requires Between()
      ensures reader.Valid() && reader.StateObjects() == {}
    {
    }

    /** Enough reads were tried to give up. */
    predicate Exhausted(before: seq<ReadEvent>)
      reads stream
    {
      stream.schedule == [] || |stream.schedule| + MAX_READS <= |before|
    }

    /**
     * Writes the request, then reads until there is a response: it is the next one of the stream, chunked
     * if a line was buffered with its head, and the connection is between responses again. The connection
     * counts as closed only if a read found it so, if the head does not fit, or if nothing came for too long.
     */
    method Exchange(msg: bytes, writes: bool) returns (result: Exchange)
      requires Between()
      modifies stream, reader, reader.header, reader.header.buf
      ensures result.Responds? ==>
        Between() && Delivers(old(HeadSeen()), old(Unread()), result.response, Unread())
      ensures result.ClosedEarly? ==>
        || Ended(old(stream.schedule), stream.schedule) || Exhausted(old(stream.schedule))
        || ResponseReader.HeadTooLarge(HEADER_BUFFER, old(Unread()))
      ensures Ended(old(stream.schedule), stream.schedule) ==> result.ClosedEarly?
      ensures result.Breaks? ==> !writes || Frame(old(Unread())) == BadHead
      ensures result.Panics? ==>
        var u := old(Unread()); ResponseReader.IllegalSoFar(u, |u| - |stream.incoming|)
      ensures stream.sent == old(stream.sent) + (if writes then msg else [])
    {
      hide CallStep, ResponseReader.Reader.Valid, ResponseReader.HeadTooLarge, ResponseReader.IllegalSoFar, Frame;
      hide Delivers, Used, Ended, Buffered, ResponseReader.EmptyBodyIff, ResponseReader.Reader.NoneHeld;
      assert stream.sent + [] == stream.sent;
      UsedNone(stream.schedule);
      if !writes {
        return Breaks;
      }
      ghost var u, seen := Unread(), HeadSeen();
      BetweenIsValid();
      stream.sent := stream.sent + msg;
      ghost var schedule := stream.schedule;
      for i := 0 to MAX_READS
        invariant reader.Valid() && stream !in reader.StateObjects() && fresh(reader.StateObjects())
        invariant reader.header.Valid() && reader.header.cap == HEADER_BUFFER && Unread() == u
        invariant stream.sent == old(stream.sent) + msg
        invariant Used(schedule, stream.schedule) && !Ended(schedule, stream.schedule)
        invariant stream.schedule == [] || |stream.schedule| + i <= |schedule|
        invariant if reader.state.Empty? then HeadSeen() == seen else ProbeOf(seen, u, reader.probe)
      {
        ghost var before, empty, next := stream.schedule, reader.state.Empty?, reader.Seen(stream);
        if empty {
          SeenIsNext();
        }
        var out := reader.ReadFrom(stream);
        ReadsJoin(schedule, before, stream.schedule);
        CallMeans(HEADER_BUFFER, u, Call(out, Unread(), reader.probe));
        if empty && out.NotYet? && reader.state.Empty? {
          StillEmpty(next, u);
          assert seen == Buffered(next, u[|next|..], Tail(before), HEADER_BUFFER);
          assert HeadSeen() == Buffered(next, stream.incoming, stream.schedule, HEADER_BUFFER);
        }
        match out {
          case Got(response) =>
            BetweenAgain();
            DeliveredAs(HEADER_BUFFER, seen, u, response, Unread(), reader.probe);
            return Responds(response);
          case Failure(e) =>
            return if e.ReadEOF? then ClosedEarly else if e.Panicked? then Panics else Breaks;
          case NotYet =>
        }
      }
      result := ClosedEarly;
    }

    /** Looking one read ahead. */
    lemma SeenIsNext()
      requires reader.Valid() && reader.state.Empty?
      ensures reader.Seen(stream) <= Unread()
      ensures BufferedFrom(HeadSeen(), reader.Seen(stream), Unread(), stream.schedule, reader.header.cap)
      ensures Frame(reader.Seen(stream)).Open? ==>
        reader.NextProbe(stream) == reader.Seen(stream)[Frame(reader.Seen(stream)).at..]
    {
      hide Frame;
      var c, incoming := reader.header.Contents(), stream.incoming;
      var n := stream.Takes(reader.header.Room());
      assert c + incoming[..n] + incoming[n..] == [] + c + incoming;
      assert (c + incoming[..n] + incoming[n..])[|c + incoming[..n]|..] == incoming[n..];
    }

    lemma StillEmpty(next: bytes, u: bytes)
      requires reader.Valid() && reader.state.Empty? && reader.header.Contents() == next && Unread() == u
      ensures next <= u && stream.incoming == u[|next|..]
    {
      assert [] + next + stream.incoming == next + stream.incoming;
    }

    lemma BetweenAgain()
      requires reader.Valid() && reader.state == ResponseReader.Empty && reader.header.cap == HEADER_BUFFER
      ensures Between()
    {
    }
  }

  /** What is buffered once a head is found, reading as the schedule says. */
  ghost function Buffered(c: bytes, incoming: bytes, schedule: seq<ReadEvent>, cap: nat): bytes
    requires |c| <= cap
    decreases |schedule|
  {
    var n := Taking(schedule, |incoming|, cap - |c|);
    var c' := c + incoming[..n];
    if !Frame(c').NoHead? || schedule == [] then c' else Buffered(c', incoming[n..], schedule[1..], cap)
  }

  /** `seen` is what will be buffered with the head, `next` what is buffered after one read of the stream `u`. */
  ghost predicate BufferedFrom(seen: bytes, next: bytes, u: bytes, schedule: seq<ReadEvent>, cap: nat) {
    && next <= u && |next| <= cap
    && seen == if Frame(next).NoHead? then Buffered(next, u[|next|..], Tail(schedule), cap) else next
  }

  /** The head was found in `seen`, and the probe is what was behind it. */
  ghost predicate ProbeOf(seen: bytes, u: bytes, probe: bytes) {
    seen <= u && !Frame(seen).NoHead? && (Frame(seen).Open? ==> probe == seen[Frame(seen).at..])
  }

  /**
   * The response that a stream `u` delivers when `seen` was buffered with its head: the next one, or one with
   * an empty body if it has no Content-Length and no line was buffered behind the head.
   */
  ghost predicate Delivers(seen: bytes, u: bytes, response: Response, u': bytes) {
    if Frame(seen).Open? then ResponseReader.EmptyBodyIff(seen, u, response, u') else Next(u) == Some((response, u'))
  }

  ghost predicate DeliversFrom(start: Ahead, response: Response, u': bytes) {
    Delivers(start.seen, start.unread, response, u')
  }

  lemma DeliveredAs(cap: nat, seen: bytes, u: bytes, response: Response, u': bytes, probe: bytes)
    requires CallStep(cap, u, Call(Got(response), u', probe)) && ProbeOf(seen, u, probe)
    ensures Delivers(seen, u, response, u')
  {
    hide Frame, HeadFits, ResponseReader.EmptyBodyIff;
    ResponseReader.DeliveryIff(cap, seen, u, Got(response), u', probe);
    assert u == seen + u[|seen|..];
    FrameStable(seen, u[|seen|..]);
  }

  /** Pooled connections are between responses and share nothing. */
  ghost predicate Pooled(list: seq<Entry<HttpConnBlockingClient>>)
    reads set e | e in list :: e.item.reader
    reads set e | e in list :: e.item.reader.header
  {
    && (forall i :: 0 <= i < |list| ==> list[i].item.Between())
    && Disjoint(list)
  }

  ghost predicate Disjoint(list: seq<Entry<HttpConnBlockingClient>>) {
    forall i, j :: 0 <= i < j < |list| ==> list[i].item.Parts() !! list[j].item.Parts()
  }

  ghost function Footprint(list: seq<Entry<HttpConnBlockingClient>>): set<object> {
    set e, o | e in list && o in e.item.Parts() :: o
  }

  lemma InFootprint(list: seq<Entry<HttpConnBlockingClient>>, k: nat)
    requires k < |list|
    ensures list[k].item.Parts() <= Footprint(list)
  {
    assert list[k] in list;
  }

  datatype SendResult = Answered(response: Response) | Timeout | EndOfFile | OtherError | CannotConnect | Panicked

  /**
   * What the world does in round `k`: the clock, what a new connection would receive, what is left of
   * the deadline, and whether the request can be written.
   */
  datatype Round =
    Round(now: nat -> nat, created: nat, connects: Option<(bytes, seq<ReadEvent>)>, timeLeft: bool, writes: bool)

  class HttpClient {
    const idleTime: Option<nat>
    var conns: map<bytes, ConnPool<HttpConnBlockingClient>>

    constructor ()
      ensures conns == map[] && idleTime == Some(10)
    {
      idleTime, conns := Some(10), map[];
    }

    /** The pool of an endpoint, made on first use. */
    method PoolFor(key: bytes) returns (pool: ConnPool<HttpConnBlockingClient>)
      modifies this`conns
      ensures key in conns && conns[key] == pool && conns == old(conns)[key := pool]
      ensures key in old(conns) ==> pool == old(conns)[key]
      ensures key !in old(conns) ==> fresh(pool) && pool.list == [] && pool.idleTime == idleTime
    {
      if key !in conns {
        var made := new ConnPool<HttpConnBlockingClient>(idleTime);
        conns := conns[key := made];
      }
      pool := conns[key];
    }
  }

  /** What a connection made in a round will deliver, and what of it is buffered with the first head. */
  ghost predicate NewlyConnected(stream: (bytes, seq<ReadEvent>), start: Ahead) {
    start == Outlook(stream.0, Buffered([], stream.0, stream.1, HEADER_BUFFER), stream.1)
  }

  /** A new connection for round `round`, if the endpoint accepts one. */
  method Connect(round: Round) returns (made: Option<HttpConnBlockingClient>)
    ensures made.Some? <==> round.connects.Some?
    ensures made.Some? ==>
      && made.value.Between() && fresh(made.value.Parts())
      && NewlyConnected(round.connects.value, made.value.Ahead())
  {
    made := None;
    if round.connects.Some? {
      var stream := new Stream(round.connects.value.0, round.connects.value.1, []);
      var client := new HttpConnBlockingClient(stream);
      made := Some(client);
    }
  }

  /** Every connection in the list is untouched by whatever happens to `client`. */
  ghost predicate ApartFrom(list: seq<Entry<HttpConnBlockingClient>>, client: HttpConnBlockingClient) {
    forall i :: 0 <= i < |list| ==> list[i].item.Parts() !! client.Parts()
  }

  lemma PooledBetween(list: seq<Entry<HttpConnBlockingClient>>)
    requires Pooled(list)
    ensures Disjoint(list) && forall i :: 0 <= i < |list| ==> list[i].item.Between()
  {
  }

  /** What is done to the first `n` connections does not reach the streams of the others. */
  lemma DroppedApart(list: seq<Entry<HttpConnBlockingClient>>, n: nat)
    requires n <= |list| && Disjoint(list)
    ensures Footprint(list[..n]) <= Footprint(list)
    ensures forall j :: n <= j < |list| ==> list[j].item.stream !in Footprint(list[..n])
  {
    forall e, o | e in list[..n] && o in e.item.Parts()
      ensures o in Footprint(list) && forall j :: n <= j < |list| ==> o != list[j].item.stream
    {
      assert e in list;
      forall j | n <= j < |list|
        ensures o != list[j].item.stream
      {
        assert list[j].item.stream in list[j].item.Parts();
      }
    }
  }

  lemma PooledPrefix(list: seq<Entry<HttpConnBlockingClient>>, n: nat)
    requires n <= |list| && Pooled(list)
    ensures Pooled(list[..n])
    ensures forall k :: n <= k < |list| ==> ApartFrom(list[..n], list[k].item)
  {
  }

  lemma PooledSnoc(list: seq<Entry<HttpConnBlockingClient>>, entry: Entry<HttpConnBlockingClient>)
    requires Pooled(list) && entry.item.Between() && ApartFrom(list, entry.item)
    ensures Pooled(list + [entry])
  {
  }

  /** The connection `get_or` hands out: the last one that is not expired, or a new one. */
  method Obtain(pool: ConnPool<HttpConnBlockingClient>, round: Round)
    returns (guard: ConnPoolGuard?<HttpConnBlockingClient>)
    requires Pooled(pool.list)
    modifies pool`list
    ensures |pool.list| <= |old(pool.list)| && pool.list == old(pool.list)[..|pool.list|] && Pooled(pool.list)
    ensures forall j :: |pool.list| < j < |old(pool.list)| ==>
      Expired(pool.idleTime, round.now(j), old(pool.list)[j].time)
    ensures guard == null ==> pool.list == [] && round.connects.None?
    ensures guard != null ==>
      && fresh(guard) && guard.raw.Some? && guard.Holding(guard.raw.value) && guard.pool == pool
      && guard.createTime == round.created
      && var client := guard.raw.value;
      && client.Between() && ApartFrom(pool.list, client)
      && if guard.reused
         then |pool.list| < |old(pool.list)| && client == old(pool.list)[|pool.list|].item
         else
           && pool.list == [] && fresh(client) && fresh(client.Parts())
           && round.connects.Some? && NewlyConnected(round.connects.value, client.Ahead())
  {
    hide PopFrom;
    ghost var before, popped := pool.list, PopFrom(pool.list, pool.idleTime, round.now);
    PoppedIsFresh(before, pool.idleTime, round.now);
    var made := Connect(round);
    guard := pool.GetOr(round.now, round.created, made);
    assert pool.list == popped.1;
    PooledPrefix(before, |pool.list|);
  }

  /** The reads of this exchange found the stream closed or brought nothing, or the head does not fit. */
  ghost predicate Closed(client: HttpConnBlockingClient, start: Ahead)
    reads client.stream
  {
    || Ended(start.schedule, client.stream.schedule) || client.Exhausted(start.schedule)
    || ResponseReader.HeadTooLarge(HEADER_BUFFER, start.unread)
  }

  /** Why an exchange ends without a response. */
  ghost predicate ExchangeMeans(exchange: Exchange, writes: bool, start: Ahead, client: HttpConnBlockingClient)
    reads client.stream
  {
    match exchange
    case Responds(_) => true
    case ClosedEarly => Closed(client, start)
    case Breaks => !writes || Frame(start.unread) == BadHead
    case Panics => exists n :: ResponseReader.IllegalSoFar(start.unread, n)
  }

  /**
   * Why `send` ends in the round that decides: closed connections are retried unless they are new, and other errors
   * have other causes.
   */
  ghost predicate EndMeans(end: SendResult, round: Round, start: Ahead, client: HttpConnBlockingClient?)
    reads if client != null then {client.stream} else {}
  {
    match end
    case Answered(_) => round.timeLeft && client != null
    case Timeout => !round.timeLeft
    case CannotConnect => round.connects.None?
    case OtherError => round.timeLeft && client != null && ExchangeMeans(Breaks, round.writes, start, client)
    case Panicked => round.timeLeft && client != null && ExchangeMeans(Panics, round.writes, start, client)
    case EndOfFile =>
      && round.timeLeft && client != null && Closed(client, start)
      && round.connects.Some? && NewlyConnected(round.connects.value, start)
  }

  /** One try on one connection; a connection that is closed early or fails is dropped. */
  method TryOn(pool: ConnPool<HttpConnBlockingClient>, guard: ConnPoolGuard<HttpConnBlockingClient>, msg: bytes,
               writes: bool)
    returns (exchange: Exchange)
    requires Pooled(pool.list) && guard.pool == pool && guard.raw.Some? && guard.Holding(guard.raw.value)
    requires guard.raw.value.Between() && ApartFrom(pool.list, guard.raw.value)
    modifies pool`list, guard, guard.raw.value.Parts()
    ensures Pooled(pool.list)
    ensures if exchange.Responds? then
        && pool.list == old(pool.list) + [Entry(old(guard.raw.value), guard.createTime)]
        && var client := old(guard.raw.value);
           client.Between()
           && DeliversFrom(old(client.Ahead()), exchange.response, client.Unread())
      else pool.list == old(pool.list)
    ensures forall i :: 0 <= i < |old(pool.list)| ==>
      old(pool.list)[i].item.Between() && old(pool.list)[i].item.Ahead() == old(pool.list[i].item.Ahead())
    ensures ExchangeMeans(exchange, writes, old(guard.raw.value.Ahead()), old(guard.raw.value))
  {
    hide Delivers, Frame, ResponseReader.HeadTooLarge, ResponseReader.IllegalSoFar, Ended, Buffered;
    var client := guard.raw.value;
    ghost var u := client.Unread();
    exchange := client.Exchange(msg, writes);
    assert exchange.Panics? ==> ResponseReader.IllegalSoFar(u, |u| - |client.stream.incoming|);
    assert Pooled(pool.list);
    if exchange.Responds? {
      PooledSnoc(pool.list, Entry(client, guard.createTime));
      guard.Reuse();
    }
  }

  /**
   * Why an entry was passed over: it was expired in one of the rounds, or its stream ended, blocked for
   * too long, or held a head that does not fit. `start` is what it had before it.
   */
  ghost predicate Skipped(entry: Entry<HttpConnBlockingClient>, idle: Option<nat>, j: nat, rounds: nat -> Round,
                          tried: nat, start: Ahead)
    reads entry.item.stream
  {
    || (exists r: nat :: r < tried && Expired(idle, rounds(r).now(j), entry.time))
    || Closed(entry.item, start)
  }

  lemma SkippedByClock(entry: Entry<HttpConnBlockingClient>, idle: Option<nat>, j: nat, rounds: nat -> Round,
                       tried: nat, start: Ahead)
    ensures Expired(idle, rounds(tried).now(j), entry.time) ==>
      Skipped(entry, idle, j, rounds, tried + 1, start)
    ensures Skipped(entry, idle, j, rounds, tried, start) ==>
      Skipped(entry, idle, j, rounds, tried + 1, start)
  {
  }

  /**
   * One round: take a connection and try the request on it. `None` means that a reused connection was
   * closed, so the next one is to be tried.
   */
  method TryNext(pool: ConnPool<HttpConnBlockingClient>, msg: bytes, round: Round)
    returns (end: Option<SendResult>, ghost kept: nat, ghost start: Ahead, ghost client: HttpConnBlockingClient?)
    requires Pooled(pool.list)
    modifies pool`list, Footprint(pool.list)
    ensures Pooled(pool.list) && kept <= |old(pool.list)|
    ensures |pool.list| == kept + (if end.Some? && end.value.Answered? then 1 else 0)
    ensures pool.list[..kept] == old(pool.list)[..kept]
    ensures forall i :: 0 <= i < kept ==>
      old(pool.list)[i].item.Between() && old(pool.list)[i].item.Ahead() == old(pool.list[i].item.Ahead())
    ensures forall j :: kept < j < |old(pool.list)| ==> Expired(pool.idleTime, round.now(j), old(pool.list)[j].time)
    ensures end.None? ==> kept < |old(pool.list)| && forall idle, j, rounds, tried ::
      Skipped(old(pool.list)[kept], idle, j, rounds, tried,
              old(pool.list[kept].item.Ahead()))
    ensures end.Some? && end.value.Answered? ==>
      && var winner := pool.list[kept];
      && winner.time == round.created
      && DeliversFrom(start, end.value.response, winner.item.Unread())
      && if kept < |old(pool.list)| && winner.item == old(pool.list)[kept].item
         then start == old(pool.list[kept].item.Ahead())
         else
           && kept == 0 && fresh(winner.item)
           && round.connects.Some? && NewlyConnected(round.connects.value, start)
    ensures end == Some(EndOfFile) || end == Some(CannotConnect) ==> pool.list == []
    ensures end.Some? ==> EndMeans(end.value, round, start, client)
    ensures end == Some(EndOfFile) ==> client != null && fresh(client)
    ensures client != null ==>
      || (kept < |old(pool.list)| && client == old(pool.list)[kept].item && start == old(pool.list[kept].item.Ahead()))
      || (kept == 0 && fresh(client) && round.connects.Some? && NewlyConnected(round.connects.value, start))
  {
    hide Closed, DeliversFrom, Pooled, PopFrom, Frame, Footprint, NewlyConnected, ResponseReader.IllegalSoFar;
    hide HttpConnBlockingClient.Unread, HttpConnBlockingClient.Ahead;
    PooledBetween(pool.list);
    start, client := Outlook([], [], []), null;
    ghost var before := pool.list;
    var guard := Obtain(pool, round);
    kept := |pool.list|;
    if guard == null {
      return Some(CannotConnect), kept, start, client;
    }
    if !round.timeLeft {
      return Some(Timeout), kept, start, client;
    }
    client := guard.raw.value;
    if guard.reused {
      InFootprint(before, kept);
    }
    start := client.Ahead();
    var exchange := TryOn(pool, guard, msg, round.writes);
    match exchange {
      case Breaks => end := Some(OtherError);
      case Panics => end := Some(SendResult.Panicked);
      case ClosedEarly => end := if guard.reused then None else Some(EndOfFile);
      case Responds(response) =>
        end := Some(Answered(response));
    }
  }

  /**
   * Sends on a pooled connection, going on to the next one as long as a reused one is closed, and
   * ends with a new one. `kept` entries were never looked at; every entry behind them was expired or
   * closed, except the one that decided. Without concurrent returns there are at most as many tries
   * as entries looked at, and one more. A response is the next one of the connection's own stream,
   * which goes back to the pool between responses.
   */
  method Send(pool: ConnPool<HttpConnBlockingClient>, msg: bytes, rounds: nat -> Round)
    returns (result: SendResult, ghost tried: nat, ghost kept: nat, ghost start: Ahead,
             ghost client: HttpConnBlockingClient?)
    requires Pooled(pool.list)
    modifies pool`list, Footprint(pool.list)
    ensures Pooled(pool.list)
    ensures kept <= |old(pool.list)| && 1 <= tried <= |old(pool.list)| - kept + 1
    ensures |pool.list| == kept + (if result.Answered? then 1 else 0) && pool.list[..kept] == old(pool.list)[..kept]
    ensures result.Answered? ==>
      && var winner := pool.list[kept];
      && winner.time == rounds(tried - 1).created
      && DeliversFrom(start, result.response, winner.item.Unread())
      && if kept < |old(pool.list)| && winner.item == old(pool.list)[kept].item
         then start == old(pool.list[kept].item.Ahead())
         else
           && kept == 0 && fresh(winner.item)
           && rounds(tried - 1).connects.Some? && NewlyConnected(rounds(tried - 1).connects.value, start)
    ensures forall j :: kept < j < |old(pool.list)| ==>
      Skipped(old(pool.list)[j], pool.idleTime, j, rounds, tried,
              old(pool.list[j].item.Ahead()))
    ensures result.EndOfFile? || result.CannotConnect? ==> pool.list == []
    ensures EndMeans(result, rounds(tried - 1), start, client)
    ensures result.EndOfFile? ==> client != null && fresh(client)
    ensures client != null ==>
      || (kept < |old(pool.list)| && client == old(pool.list)[kept].item && start == old(pool.list[kept].item.Ahead()))
      || (kept == 0 && fresh(client) && rounds(tried - 1).connects.Some?
          && NewlyConnected(rounds(tried - 1).connects.value, start))
  {
    hide Skipped, DeliversFrom, Pooled, PopFrom, Frame, Footprint, ApartFrom, Disjoint, Expired, NewlyConnected;
    hide EndMeans, Closed;
    hide HttpConnBlockingClient.Parts, HttpConnBlockingClient.Unread, HttpConnBlockingClient.Ahead;
    var k := 0;
    PooledBetween(pool.list);
    tried, kept, start, client := 0, |pool.list|, Outlook([], [], []), null;
    while true
      invariant Pooled(pool.list) && kept == |pool.list| && k == tried
      invariant |pool.list| + tried <= |old(pool.list)| && pool.list == old(pool.list)[..kept]
      invariant forall i :: 0 <= i < kept ==>
        && pool.list[i].item.reader.header.Valid()
        && pool.list[i].item.Ahead() == old(pool.list[i].item.Ahead())
      invariant forall j :: kept <= j < |old(pool.list)| ==>
        Skipped(old(pool.list)[j], pool.idleTime, j, rounds, tried,
                old(pool.list[j].item.Ahead()))
      decreases |pool.list|
    {
      var round := rounds(k);
      DroppedApart(old(pool.list), kept);
      var end: Option<SendResult>;
      end, kept, start, client := TryNext(pool, msg, round);
      forall j | kept < j < |old(pool.list)|
        ensures Skipped(old(pool.list)[j], pool.idleTime, j, rounds, k + 1,
                        old(pool.list[j].item.Ahead()))
      {
        SkippedByClock(old(pool.list)[j], pool.idleTime, j, rounds, k,
                       old(pool.list[j].item.Ahead()));
      }
      k := k + 1;
      tried := k;
      if end.Some? {
        return end.value, tried, kept, start, client;
      }
    }
  }
}
