/** A pipelining server connection: requests in, responses out, and a close that waits for the answers. */
module HttpConnServer {
  import opened Bytes
  import opened Buffers
  import opened RequestFraming
  import opened RequestReader
  import HttpHead
  import Drain = GracefulDrain

  datatype ConnError = EOF | FlushError | BadRequest(error: HttpError)
  datatype ReadOutcome = Incoming(request: HttpHead.Request) | Nothing | Error(error: ConnError)

  const HEADER_BUFFER: nat := 8096

  /** The outcome as the drain specification sees it. */
  function Kind(r: ReadOutcome): Drain.ReadOut {
    match r
    case Incoming(_) => Drain.GotRequest
    case Nothing => Drain.NoRequest
    case Error(_) => Drain.ReadError
  }

  class HttpConnServer {
    const stream: Stream
    const wbuf: WriteBuffer
    const header: BufferVec
    const maxBody: Option<nat>
    var request: RequestReadState
    var inflightId: seq<nat>
    var closed: bool
    var requestCnt: nat               // responses written
    ghost var received: bytes         // everything the peer sent or will send
    ghost var calls: seq<Call>        // calls of the request reader so far

    ghost function BodyObjects(): set<object>
      reads this
    {
      if request.ReadBody? then {request.buf, request.buf.buf} else {}
    }

    ghost predicate Valid()
      reads this, stream`incoming, header, header.buf, BodyObjects()
    {
      && header.cap == HEADER_BUFFER && RequestReader.Valid(header, request, Limit(maxBody))
      && IsRun(HEADER_BUFFER, Limit(maxBody), received, calls)
      && Left(received, calls) == Undelivered(stream, header, request)
      && |inflightId| + requestCnt == |Delivered(calls)|
    }

    /** The bytes read so far hold no whole request. */
    ghost predicate NoneHeld()
      requires Valid()
      reads this, stream`incoming, header, header.buf, BodyObjects()
    {
      Frames(HEADER_BUFFER, Limit(maxBody), Held(header, request)) == []
    }

    /** The connection as the drain specification sees it. */
    ghost function View(): Drain.Conn
      reads this
    {
      Drain.Conn(closed, |Delivered(calls)|, requestCnt)
    }

    constructor (stream: Stream, maxBody: Option<nat>)
      ensures Valid() && View() == Drain.NEW && received == stream.incoming && request == Empty
      ensures this.stream == stream && fresh(wbuf) && fresh(header) && fresh(header.buf)
    {
      this.stream, this.maxBody := stream, maxBody;
      wbuf := new WriteBuffer();
      header := new BufferVec(HEADER_BUFFER);
      request, inflightId, closed, requestCnt, received, calls := Empty, [], false, 0, stream.incoming, [];
      new;
      assert [] + [] + stream.incoming == stream.incoming;
    }

    method TryClose()
      requires Valid()
      modifies this`closed
      ensures Valid() && View() == Drain.Step(old(View()), Drain.TryClose)
    {
      closed := true;
    }

    /** Reads the next request of the stream; the result is one the drain specification allows. */
    method ReadRequest() returns (r: ReadOutcome, ghost io: Drain.Io)
      requires Valid()
      modifies this`request, this`inflightId, this`calls, wbuf, stream, header, header.buf, BodyObjects()
      ensures Valid() && received == old(received)
      ensures fresh(BodyObjects() - old(BodyObjects()))
      ensures (Kind(r), View()) == Drain.ReadRequest(old(View()), io)
      ensures Delivered(calls) == Delivered(old(calls)) + (if r.Incoming? then [r.request] else [])
      ensures old(closed) ==> stream.incoming == old(stream.incoming) && request == old(request) && calls == old(calls)
      ensures r.Incoming? ==> request == Empty && inflightId != []
      ensures r.Incoming? ==> HttpHead.BodyAnnounced(r.request)
      ensures io == Drain.FlushFails <==> FlushTakes(old(wbuf.pending), old(stream.writeSchedule)) < |old(wbuf.pending)|
      ensures r == Error(FlushError) <==>
        io == Drain.FlushFails && !FlushFails(old(wbuf.pending), old(stream.writeSchedule))
      ensures r == Error(EOF) <== FlushFails(old(wbuf.pending), old(stream.writeSchedule))
      ensures !old(closed) && io != Drain.FlushFails && r.Error? ==>
        || r.error.BadRequest?
        || (r == Error(EOF) && (Ended(old(stream.schedule), stream.schedule) || Overflows(Held(header, request))))
      ensures io == Drain.ReadFails ==> !old(closed) && r.Error?
      ensures r.Nothing? && !old(closed) ==>
        Blocked(old(stream.schedule), stream.schedule, stream.incoming) && NoneHeld()
      ensures r == Error(EOF) && io == Drain.ReadFails ==>
        Ended(old(stream.schedule), stream.schedule) || Overflows(Held(header, request))
      ensures r.Error? && r.error.BadRequest? ==>
        ReadStep(HEADER_BUFFER, Limit(maxBody), Left(received, old(calls)), Failure(r.error.error),
                 Left(received, calls))
      ensures Ended(old(stream.schedule), stream.schedule) ==> r == Error(EOF)
    {
      hide IsRun, Delivered, Left, ReadStep, Frames, Overflows, HttpHead.GetRequestSize, HttpHead.ScanRequest;
      hide HttpHead.BodyAnnounced;
      assert Delivered(calls) + [] == Delivered(calls);
      var flushed := wbuf.FlushBuffer(stream);
      if !flushed.Done? {
        return Error(if flushed.Failed? then EOF else FlushError), Drain.FlushFails;
      }
      io := Drain.NothingArrives;
      if closed {
        return if |inflightId| > 0 then Nothing else Error(EOF), io;
      }
      var out := ReadOpen();
      match out
      case Got(req) => return Incoming(req), Drain.RequestArrives;
      case NotYet => return Nothing, io;
      case Failure(e) => return Error(if e == ReadEOF then EOF else BadRequest(e)), Drain.ReadFails;
    }

    method ReadOpen() returns (out: Outcome)
      requires Valid()
      modifies this`request, this`inflightId, this`calls, stream`incoming, stream`schedule, header, header.buf,
        BodyObjects()
      ensures Valid()
      ensures fresh(BodyObjects() - old(BodyObjects()))
      ensures Delivered(calls) == Delivered(old(calls)) + (if out.Got? then [out.request] else [])
      ensures out.Got? ==> request == Empty && inflightId != [] && HttpHead.BodyAnnounced(out.request)
      ensures ReadStep(HEADER_BUFFER, Limit(maxBody), Left(received, old(calls)), out, Left(received, calls))
      ensures out.NotYet? ==> Blocked(old(stream.schedule), stream.schedule, stream.incoming) && NoneHeld()
      ensures out == Failure(ReadEOF) ==>
        Ended(old(stream.schedule), stream.schedule) || Overflows(Held(header, request))
      ensures Ended(old(stream.schedule), stream.schedule) ==> out == Failure(ReadEOF)
    {
      hide IsRun, Delivered, Left, ReadStep, Frames, Overflows, HttpHead.GetRequestSize, HttpHead.ScanRequest;
      hide HttpHead.BodyAnnounced;
      out, request := ReadFrom(stream, header, request, maxBody);
      ghost var call := Call(out, Undelivered(stream, header, request));
      RunSnoc(HEADER_BUFFER, Limit(maxBody), received, calls, call);
      calls := calls + [call];
      if out.Got? {
        inflightId := inflightId + [0];
      }
    }

    /** Queues a response; refused if no request is waiting for one. */
    method WriteResponse(data: bytes) returns (ok: bool, ghost streamOk: bool)
      requires Valid()
      modifies this`inflightId, this`requestCnt, wbuf, stream`sent, stream`writeSchedule
      ensures Valid()
      ensures (ok, View()) == Drain.WriteResponse(old(View()), streamOk)
      ensures ok ==> stream.sent + wbuf.pending == old(stream.sent + wbuf.pending) + data
      ensures ok <==> old(inflightId) != [] && !FlushFails(old(wbuf.pending) + data, old(stream.writeSchedule))
    {
      hide IsRun, Delivered, Left, Frames, FlushFails, HttpHead.GetRequestSize, HttpHead.ScanRequest;
      streamOk := true;
      if |inflightId| == 0 {
        return false, streamOk;
      }
      var written := Queue(data);
      if !written {
        return false, false;
      }
      inflightId := inflightId[..|inflightId| - 1];
      requestCnt := requestCnt + 1;
      ok := true;
    }

    method Queue(data: bytes) returns (ok: bool)
      requires Valid()
      modifies wbuf, stream`sent, stream`writeSchedule
      ensures Valid() && stream.sent + wbuf.pending == old(stream.sent + wbuf.pending) + data
      ensures ok <==> !FlushFails(old(wbuf.pending) + data, old(stream.writeSchedule))
    {
      hide IsRun, Delivered, Left, Frames, FlushFails, FlushTakes, Used, Broke;
      hide HttpHead.GetRequestSize, HttpHead.ScanRequest;
      var r := wbuf.MustWrite(stream, data);
      ok := !r.Failed?;
    }
  }

  /** What a server connection delivers over its life are the first requests of the byte stream. */
  lemma ServedRequests(limit: nat, received: bytes, calls: seq<Call>)
    requires IsRun(HEADER_BUFFER, limit, received, calls)
    ensures Delivered(calls) <= Frames(HEADER_BUFFER, limit, received)
  {
    hide IsRun, Frames;
    RunRefinesFraming(HEADER_BUFFER, limit, received, calls);
  }
}
