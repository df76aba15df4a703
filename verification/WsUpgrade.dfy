/** The handoff from an HTTP connection to a WebSocket: no byte read past the handshake is lost. */
module WsUpgrade {
  import opened Bytes
  import opened Buffers
  import opened WsFrame
  import Ws = WsStream
  import Client = HttpConnClient
  import Server = HttpConnServer
  import ResponseReader
  import Responses = ResponseFraming
  import Requests = RequestFraming
  import RequestReader
  import opened Correlation

  datatype Upgrade = Upgraded(ws: Ws.WsStream) | NotYet | Refused | Panicked

  const SWITCHING_PROTOCOLS: nat := 101

  /**
   * The server writes the handshake response and takes the raw parts of the connection. The WebSocket
   * parser's input is exactly the stream behind the requests served so far.
   */
  method FromHttpConn(conn: Server.HttpConnServer, accept: bytes, configured: nat, keys: nat -> Key)
    returns (r: Upgrade)
    requires conn.Valid() && conn.request == RequestReader.Empty
    requires configured < USIZE
    modifies conn`inflightId, conn`requestCnt, conn.wbuf, conn.stream`sent, conn.stream`writeSchedule
    ensures r.Upgraded? || r.Panicked?
    ensures r.Panicked? <==>
      old(conn.inflightId) == [] || FlushFails(old(conn.wbuf.pending) + accept, old(conn.stream.writeSchedule))
    ensures r.Upgraded? ==>
      && r.ws.Valid() && r.ws.Synced() && r.ws.connected && r.ws.log == []
      && r.ws.Input() == Requests.Left(conn.received, conn.calls)
      && conn.stream.sent + conn.wbuf.pending == old(conn.stream.sent + conn.wbuf.pending) + accept
  {
    hide Ws.WsStream.Valid, Requests.IsRun, Requests.Left, Server.HttpConnServer.Valid, FlushFails;
    NothingTaken(conn);
    var ok, streamOk := conn.WriteResponse(accept);
    if !ok {
      return Panicked;   // `unwrap` in the source
    }
    var ws := new Ws.WsStream(false, configured, keys, conn.stream, conn.header);
    r := Upgraded(ws);
  }

  /** Between requests everything undelivered is in the header buffer or still to come. */
  lemma NothingTaken(conn: Server.HttpConnServer)
    requires conn.Valid() && conn.request == RequestReader.Empty
    ensures conn.header.Valid()
    ensures conn.header.Contents() + conn.stream.incoming == Requests.Left(conn.received, conn.calls)
  {
    hide Requests.IsRun, Requests.Left;
    assert [] + conn.header.Contents() + conn.stream.incoming == conn.header.Contents() + conn.stream.incoming;
  }

  /**
   * The client reads the handshake response and takes the raw parts. It upgrades exactly on a response
   * that switches protocols with the right accept value; then the WebSocket parser's input is exactly
   * what the response reader left behind that response. If this call also finds the head, without
   * Content-Length, that is everything behind the head if and only if no CRLF was read behind it by then.
   */
  method FromClientConn(conn: Client.HttpConnClient, configured: nat, keys: nat -> Key,
                        acceptOk: Responses.Response -> bool)
    returns (r: Upgrade, ghost read: Client.ReadOutcome)
    requires conn.Valid() && !conn.panicked
    requires configured < USIZE
    modifies conn, conn.wbuf, conn.stream, conn.reader, conn.reader.header, conn.reader.header.buf,
      conn.reader.StateObjects()
    ensures conn.returned == old(conn.returned) + (if read.Answer? then [(read.id, read.response)] else [])
    ensures r.Upgraded? <==>
      read.Answer? && read.response.head.status == SWITCHING_PROTOCOLS && acceptOk(read.response)
    ensures r.NotYet? <==> read == Client.Error(Client.Blocked)
    ensures r.Panicked? <==> read == Client.Error(Client.Panic)
    ensures r.Upgraded? ==>
      && conn.received == old(conn.received) && r.ws.Valid() && r.ws.Synced() && r.ws.connected && r.ws.log == []
      && r.ws.Input() == Responses.Left(conn.received, conn.calls)
    ensures r.Upgraded? && old(conn.reader.state).Empty? &&
            old(conn.inflightId) != [] && old(conn.inflightId)[0] != IGNORED ==>
      ResponseReader.EmptyBodyIff(old(conn.reader.Seen(conn.stream)), old(Responses.Left(conn.received, conn.calls)),
                                  read.response, r.ws.Input())
  {
    hide Ws.WsStream.Valid, Responses.IsRun, Responses.Left, ResponseReader.EmptyBodyIff, ResponseReader.Reader.Seen;
    var outcome := conn.ReadResponse();
    read := outcome;
    match outcome
    case Error(e) =>
      r := if e.Blocked? then NotYet else if e.Panic? then Panicked else Refused;
    case Answer(_, response) =>
      if response.head.status != SWITCHING_PROTOCOLS || !acceptOk(response) {
        return Refused, read;
      }
      var ws := ClientStream(conn, configured, keys);
      r := Upgraded(ws);
  }

  method ClientStream(conn: Client.HttpConnClient, configured: nat, keys: nat -> Key) returns (ws: Ws.WsStream)
    requires conn.Valid() && !conn.panicked && conn.reader.state == ResponseReader.Empty
    requires configured < USIZE
    ensures ws.Valid() && ws.Synced() && ws.connected && ws.log == []
    ensures ws.Input() == Responses.Left(conn.received, conn.calls)
  {
    hide Responses.IsRun, Responses.Left;
    var header := conn.reader.header;
    assert [] + header.Contents() + conn.stream.incoming == header.Contents() + conn.stream.incoming;
    ws := new Ws.WsStream(true, configured, keys, conn.stream, header);
  }

  /**
   * What "behind that response" means for the usual handshake response without Content-Length: all
   * bytes behind its head if and only if those buffered with the head held no CRLF. Otherwise the
   * chunk probe eats the first WebSocket bytes.
   */
  lemma HandshakeLeavesInputIff(cap: nat, received: bytes, calls: seq<Responses.Call>, call: Responses.Call)
    requires Responses.IsRun(cap, received, calls) && Responses.CallStep(cap, Responses.Left(received, calls), call)
    requires call.out.Got? && Responses.Frame(Responses.Left(received, calls)).Open?
    ensures var before := Responses.Left(received, calls);
      Responses.Left(received, calls + [call]) == before[Responses.Frame(before).at..] <==>
      Find(call.probe, CR_LF).None?
  {
    hide Responses.ReadStep, Responses.Frame, Find, Responses.HeadFits;
    Responses.RunSnoc(cap, received, calls, call);
    Responses.NothingTakenIff(Responses.Left(received, calls), call.probe, call.out.response, call.after);
  }
}
