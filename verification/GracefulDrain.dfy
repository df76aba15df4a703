/** What closing gracefully means for one server connection, over all runs. */
module GracefulDrain {
  /** `requests` were handed to the handler, `responses` of them answered. */
  datatype Conn = Conn(closed: bool, requests: nat, responses: nat)

  /** What the network does during one `read_request`. */
  datatype Io = FlushFails | RequestArrives | NothingArrives | ReadFails
  datatype ReadOut = GotRequest | NoRequest | ReadError

  function ReadRequest(c: Conn, io: Io): (ReadOut, Conn) {
    if io == FlushFails then (ReadError, c)
    else if c.closed then (if c.responses < c.requests then NoRequest else ReadError, c)
    else
      match io
      case RequestArrives => (GotRequest, c.(requests := c.requests + 1))
      case NothingArrives => (NoRequest, c)
      case _ => (ReadError, c)
  }

  /** An open connection that can flush does what the network does, and nothing else makes its read an error. */
  lemma OpenRead(c: Conn, io: Io)
    requires !c.closed
    ensures var (out, c') := ReadRequest(c, io);
      && (out == ReadError <==> io == FlushFails || io == ReadFails)
      && (out == GotRequest <==> io == RequestArrives)
      && (out == NoRequest <==> io == NothingArrives)
      && c' == if io == RequestArrives then c.(requests := c.requests + 1) else c
  {
  }

  /** Refused when every request is answered; counted only if the stream takes the bytes. */
  function WriteResponse(c: Conn, streamOk: bool): (bool, Conn) {
    if c.responses >= c.requests || !streamOk then (false, c) else (true, c.(responses := c.responses + 1))
  }

  datatype Event = Read(io: Io) | Write(streamOk: bool) | TryClose

  function Step(c: Conn, e: Event): Conn {
    match e
    case Read(io) => ReadRequest(c, io).1
    case Write(ok) => WriteResponse(c, ok).1
    case TryClose => c.(closed := true)
  }

  function Run(c: Conn, events: seq<Event>): Conn {
    if events == [] then c else Step(Run(c, events[..|events| - 1]), events[|events| - 1])
  }

  const NEW: Conn := Conn(false, 0, 0)

  /** In every run responses never exceed requests, and closing is for good and stops new requests. */
  lemma {:induction false} RunInvariant(c: Conn, events: seq<Event>)
    requires c.responses <= c.requests
    ensures var d := Run(c, events);
      && d.responses <= d.requests && c.requests <= d.requests && c.responses <= d.responses
      && (c.closed ==> d.closed && d.requests == c.requests)
  {
    if events != [] {
      RunInvariant(c, events[..|events| - 1]);
    }
  }

  lemma {:induction false} RunSplit(c: Conn, a: seq<Event>, b: seq<Event>)
    ensures Run(c, a + b) == Run(Run(c, a), b)
    decreases |b|
  {
    if b == [] {
      assert a + b == a;
    } else {
      assert (a + b)[..|a + b| - 1] == a + b[..|b| - 1];
      RunSplit(c, a, b[..|b| - 1]);
    }
  }

  /**
   * Graceful drain: once `try_close` was called, whatever happens in between, a read that can flush
   * takes no request; it says "nothing" exactly while a request is unanswered and reports the end
   * exactly when every request has its response.
   */
  lemma Drain(before: seq<Event>, after: seq<Event>, io: Io)
    requires io != FlushFails
    ensures var at, c := Run(NEW, before), Run(NEW, before + [TryClose] + after);
      var (out, c') := ReadRequest(c, io);
      && c' == c && c.requests == at.requests
      && (out == NoRequest <==> c.responses < c.requests)
      && (out == ReadError <==> c.responses == c.requests)
  {
    RunInvariant(NEW, before);
    RunSplit(NEW, before, [TryClose]);
    RunSplit(NEW, before + [TryClose], after);
    var closed := Run(NEW, before + [TryClose]);
    assert [TryClose][..0] == [];
    assert closed == Run(NEW, before).(closed := true);
    RunInvariant(closed, after);
  }
}
