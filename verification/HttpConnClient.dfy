/** A pipelining client connection: requests out, responses in, ids matched in order. */
module HttpConnClient {
  import opened Bytes
  import opened Buffers
  import opened ResponseFraming
  import opened Correlation
  import ResponseReader

  datatype ConnError = EOF | Blocked | BadResponse | Panic
  datatype ReadOutcome = Answer(id: nat, response: Response) | Error(error: ConnError)

  const HEADER_BUFFER: nat := 8096

  class HttpConnClient {
    const stream: Stream
    const wbuf: WriteBuffer
    const reader: ResponseReader.Reader
    var inflightId: seq<nat>
    var requestCnt: nat
    ghost var received: bytes                       // everything the peer sent or will send
    ghost var written: seq<nat>                     // ids of all requests written
    ghost var returned: seq<(nat, Response)>        // pairs given to the caller
    ghost var calls: seq<Call>                      // calls of the response reader so far
    ghost var panicked: bool

    ghost predicate Valid()
      reads this, stream, reader, reader.header, reader.header.buf,
            if reader.state.ReadChunkedBody? then {reader.state.chunks} else {}, reader.StateObjects()
    {
      && (!panicked ==> ReaderValid())
      && InOrder(written, inflightId, Delivered(calls), returned)
    }

    /** The bytes read so far behind the head of the next response are an illegal chunked body. */
    ghost predicate Illegal()
      reads this, stream
    {
      var u := Left(received, calls);
      ResponseReader.IllegalSoFar(u, |u| - |stream.incoming|)
    }

    ghost predicate ReaderValid()
      reads this, stream, reader, reader.header, reader.header.buf,
            if reader.state.ReadChunkedBody? then {reader.state.chunks} else {}, reader.StateObjects()
    {
      && reader.Valid() && {this, stream, wbuf} !! reader.StateObjects()
      && reader.header.cap == HEADER_BUFFER && IsRun(HEADER_BUFFER, received, calls)
      && Left(received, calls) == reader.Undelivered(stream)
    }

    constructor (stream: Stream)
      ensures Valid() && !panicked && written == [] && inflightId == [] && returned == []
      ensures this.stream == stream && fresh(wbuf) && fresh(reader) && received == stream.incoming
    {
      this.stream := stream;
      wbuf := new WriteBuffer();
      reader := new ResponseReader.Reader(HEADER_BUFFER);
      inflightId, requestCnt := [], 0;
      received, written, returned, calls, panicked := stream.incoming, [], [], [], false;
    }

    /** Queues the bytes of a request and remembers its id. */
    method WriteRawRequest(reqId: nat, msg: bytes) returns (ok: bool)
      requires Valid() && !panicked
      modifies this`inflightId, this`written, wbuf, stream`sent, stream`writeSchedule
      ensures Valid()
      ensures stream.sent + wbuf.pending == old(stream.sent + wbuf.pending) + msg
      ensures ok <==> !FlushFails(old(wbuf.pending) + msg, old(stream.writeSchedule))
      ensures inflightId == old(inflightId) + (if ok then [reqId] else [])
      ensures written == old(written) + (if ok then [reqId] else [])
    {
      hide InOrder, IsRun, Left, Delivered, ResponseReader.Reader.Valid, FlushFails;
      var r := wbuf.MustWrite(stream, msg);
      ok := !r.Failed?;
      assert inflightId + [] == inflightId && written + [] == written;
      if ok {
        WriteKeepsOrder(written, inflightId, Delivered(calls), returned, reqId);
        inflightId, written := inflightId + [reqId], written + [reqId];
      }
    }

    /** An empty read: it takes nothing, and only one that blocks counts as an open connection. */
    method ProbeIdle() returns (open: bool)
      modifies stream`schedule, stream`incoming
      ensures stream.incoming == old(stream.incoming)
      ensures open <==> old(stream.schedule) == [] || old(stream.schedule)[0].ReadBlocks?
    {
      var none := new byte[0];
      var r := stream.Read(none, 0, 0);
      open := r.WouldBlock?;
    }

    /** As above, after checking a connection that was idle for more than ten seconds with an empty read. */
    method WriteRequest(reqId: nat, msg: bytes, idle: bool) returns (ok: bool)
      requires Valid() && !panicked
      modifies this`inflightId, this`written, wbuf, stream`sent, stream`writeSchedule, stream`schedule, stream`incoming
      ensures Valid()
      ensures var open := !idle || old(stream.schedule) == [] || old(stream.schedule)[0].ReadBlocks?;
        && stream.sent + wbuf.pending == old(stream.sent + wbuf.pending) + (if open then msg else [])
        && (ok <==> open && !FlushFails(old(wbuf.pending) + msg, old(stream.writeSchedule)))
      ensures inflightId == old(inflightId) + (if ok then [reqId] else [])
      ensures written == old(written) + (if ok then [reqId] else [])
    {
      hide InOrder, IsRun, Left, Delivered, ResponseReader.Reader.Valid, FlushFails;
      assert stream.sent + wbuf.pending + [] == stream.sent + wbuf.pending;
      if idle {
        var open := ProbeIdle();
        if !open {
          assert inflightId + [] == inflightId && written + [] == written;
          return false;
        }
      }
      ok := WriteRawRequest(reqId, msg);
    }

    /** One call of the response reader; a response answers the oldest waiting id. */
    method ReadNext() returns (out: Outcome, id: nat)
      requires Valid() && !panicked && inflightId != []
      modifies this`inflightId, this`returned, this`calls, this`panicked
      modifies reader, reader.header, reader.header.buf, stream`incoming, stream`schedule, reader.StateObjects()
      ensures Valid() && (panicked <==> out == Failure(Panicked))
      ensures fresh(reader.StateObjects() - old(reader.StateObjects()))
      ensures !out.Got? ==> inflightId == old(inflightId) && returned == old(returned)
      ensures out.Got? ==>
        && reader.state == ResponseReader.Empty
        && id == old(inflightId)[0] && inflightId == old(inflightId)[1..]
        && returned == old(returned) + (if id == IGNORED then [] else [(id, out.response)])
      ensures out != Failure(Panicked) ==> |calls| == |old(calls)| + 1 && calls[|old(calls)|].probe == reader.probe
      ensures reader.probe == old(reader.NextProbe(stream)) || out == Failure(ReadEOF)
      ensures out == Failure(Panicked) ==> Illegal()
      ensures out.Got? && old(reader.state).Empty? ==>
        ResponseReader.EmptyBodyIff(old(reader.Seen(stream)), old(Left(received, calls)), out.response,
                                    Left(received, calls))
      ensures Used(old(stream.schedule), stream.schedule)
      ensures out.NotYet? ==> stream.Asked(old(stream.schedule)) && reader.header.Valid() && reader.NoneHeld()
      ensures out == Failure(ReadEOF) ==>
        Ended(old(stream.schedule), stream.schedule)
        || ResponseReader.HeadTooLarge(HEADER_BUFFER, Left(received, calls))
      ensures Ended(old(stream.schedule), stream.schedule) ==> out == Failure(ReadEOF)
      ensures out == Failure(ParseResponseError) ==> Frame(Left(received, calls)) == BadHead
      ensures out != Failure(ReadEOF) ==>
        var u := old(Left(received, calls));
        out == Failure(Panicked) <==> ResponseReader.IllegalSoFar(u, |u| - |stream.incoming|)
    {
      hide InOrder, IsRun, Left, Delivered, CallStep, Frame, ResponseReader.HeadTooLarge, ResponseReader.IllegalSoFar;
      hide ResponseReader.EmptyBodyIff, Used, Ended, ResponseReader.Reader.NextProbe, ResponseReader.Reader.NoneHeld;
      hide ResponseReader.Reader.Valid, ResponseReader.Reader.StateObjects;
      ghost var u := Left(received, calls);
      out := reader.ReadFrom(stream);
      id := 0;
      ghost var call := Call(out, reader.Undelivered(stream), reader.probe);
      CallMeans(HEADER_BUFFER, u, call);
      if out == Failure(Panicked) {
        panicked := true;
        return;
      }
      RunSnoc(HEADER_BUFFER, received, calls, call);
      if out.Got? {
        id := inflightId[0];
        AnswerKeepsOrder(written, inflightId, Delivered(calls), returned, out.response);
        returned := returned + (if id == IGNORED then [] else [(id, out.response)]);
        inflightId := inflightId[1..];
      } else {
        assert Delivered(calls) + [] == Delivered(calls);
      }
      calls := calls + [call];
    }

    /**
     * Reads the next response that somebody waits for. Responses to ignored ids are dropped; one more
     * response than requests makes the code remove from an empty list, which panics.
     */
    method ReadResponse() returns (r: ReadOutcome)
      requires Valid() && !panicked
      modifies this, wbuf, stream, reader, reader.header, reader.header.buf, reader.StateObjects()
      ensures Valid() && (panicked ==> r == Error(Panic))
      ensures fresh(reader.StateObjects() - old(reader.StateObjects()))
      ensures written == old(written) && received == old(received)
      ensures returned == old(returned) + (if r.Answer? then [(r.id, r.response)] else [])
      ensures requestCnt == old(requestCnt) + (if r.Answer? then 1 else 0)
      ensures r.Answer? ==> reader.state == ResponseReader.Empty && r.id != IGNORED
      ensures r.Answer? && old(reader.state).Empty? && old(inflightId) != [] && old(inflightId)[0] != IGNORED ==>
        ResponseReader.EmptyBodyIff(old(reader.Seen(stream)), old(Left(received, calls)), r.response,
                                    Left(received, calls))
      ensures r == Error(Blocked) ==>
        || FlushTakes(old(wbuf.pending), old(stream.writeSchedule)) < |old(wbuf.pending)|
        || old(inflightId) == []
        || (stream.Asked(old(stream.schedule)) && reader.header.Valid() && reader.NoneHeld())
      ensures r == Error(EOF) ==>
        || FlushFails(old(wbuf.pending), old(stream.writeSchedule))
        || Ended(old(stream.schedule), stream.schedule)
        || ResponseReader.HeadTooLarge(HEADER_BUFFER, Left(received, calls))
      ensures Ended(old(stream.schedule), stream.schedule) ==> r == Error(EOF)
      ensures r == Error(BadResponse) ==> Frame(Left(received, calls)) == BadHead
      ensures FlushFails(old(wbuf.pending), old(stream.writeSchedule)) ==> r == Error(EOF)
      ensures r == Error(Panic) ==> inflightId == [] || Illegal()
    {
      hide InOrder, IsRun, Left, Delivered, Frame, ResponseReader.HeadTooLarge, ResponseReader.Reader.Valid, Illegal;
      hide FlushFails, FlushTakes, Used, Ended, ResponseReader.IllegalSoFar;
      hide ResponseReader.Reader.NoneHeld, ResponseReader.EmptyBodyIff, ResponseReader.Reader.Seen;
      UsedNone(stream.schedule);
      reader.HeaderIsValid();
      assert returned + [] == returned;
      var flushed := wbuf.FlushBuffer(stream);
      if !flushed.Done? {
        return Error(if flushed.WouldBlock? then Blocked else EOF);
      }
      if inflightId == [] {
        return Error(Blocked);
      }
      r := ReadAnswer();
    }

    /** Reads responses, dropping those to ignored ids, until one is waited for. */
    method ReadAnswer() returns (r: ReadOutcome)
      requires Valid() && !panicked && inflightId != []
      modifies this`inflightId, this`requestCnt, this`returned, this`calls, this`panicked
      modifies reader, reader.header, reader.header.buf, stream`incoming, stream`schedule, reader.StateObjects()
      ensures Valid() && (panicked ==> r == Error(Panic))
      ensures fresh(reader.StateObjects() - old(reader.StateObjects()))
      ensures returned == old(returned) + (if r.Answer? then [(r.id, r.response)] else [])
      ensures requestCnt == old(requestCnt) + (if r.Answer? then 1 else 0)
      ensures r.Answer? ==> reader.state == ResponseReader.Empty && r.id != IGNORED
      ensures r.Answer? && old(reader.state).Empty? && old(inflightId)[0] != IGNORED ==>
        ResponseReader.EmptyBodyIff(old(reader.Seen(stream)), old(Left(received, calls)), r.response,
                                    Left(received, calls))
      ensures r == Error(Blocked) ==> stream.Asked(old(stream.schedule)) && reader.header.Valid() && reader.NoneHeld()
      ensures r == Error(EOF) ==>
        Ended(old(stream.schedule), stream.schedule)
        || ResponseReader.HeadTooLarge(HEADER_BUFFER, Left(received, calls))
      ensures Ended(old(stream.schedule), stream.schedule) ==> r == Error(EOF)
      ensures r == Error(BadResponse) ==> Frame(Left(received, calls)) == BadHead
      ensures r == Error(Panic) ==> inflightId == [] || Illegal()
    {
      hide InOrder, IsRun, Left, Delivered, Frame, ResponseReader.HeadTooLarge, ResponseReader.Reader.Valid, Illegal;
      hide Used, Ended, ResponseReader.IllegalSoFar, ResponseReader.Reader.NextProbe;
      hide ResponseReader.Reader.NoneHeld, ResponseReader.EmptyBodyIff, ResponseReader.Reader.Seen;
      UsedNone(stream.schedule);
      reader.HeaderIsValid();
      assert returned + [] == returned;
      while true
        invariant Valid() && !panicked && returned == old(returned) && requestCnt == old(requestCnt)
        invariant fresh(reader.StateObjects() - old(reader.StateObjects()))
        invariant Used(old(stream.schedule), stream.schedule) && !Ended(old(stream.schedule), stream.schedule)
        invariant inflightId == old(inflightId) || old(inflightId)[0] == IGNORED
        invariant inflightId == old(inflightId) ==>
          && calls == old(calls) && reader.state == old(reader.state) && reader.header.Valid()
          && reader.Seen(stream) == old(reader.Seen(stream))
        decreases |inflightId|
      {
        ghost var schedule := stream.schedule;
        if inflightId == [] {
          // A response nobody waits for would make `remove(0)` panic; nothing else is read here.
          r := ReadUnsolicited();
          ReadsJoin(old(stream.schedule), schedule, stream.schedule);
          return;
        }
        var out, id := ReadNext();
        ReadsJoin(old(stream.schedule), schedule, stream.schedule);
        match out {
          case NotYet => return Error(Blocked);
          case Failure(e) => return Error(if e.ReadEOF? then EOF else if e.Panicked? then Panic else BadResponse);
          case Got(response) =>
            assert returned + [] == returned;
            if id != IGNORED {
              requestCnt := requestCnt + 1;
              return Answer(id, response);
            }
        }
      }
    }

    /** The loop went on after an ignored response with no id left. */
    method ReadUnsolicited() returns (r: ReadOutcome)
      requires Valid() && !panicked && inflightId == []
      modifies this`calls, this`panicked
      modifies reader, reader.header, reader.header.buf, stream`incoming, stream`schedule, reader.StateObjects()
      ensures Valid() && r.Error? && (panicked <==> r == Error(Panic))
      ensures Used(old(stream.schedule), stream.schedule)
      ensures r == Error(Blocked) ==> stream.Asked(old(stream.schedule)) && reader.header.Valid() && reader.NoneHeld()
      ensures r == Error(EOF) ==>
        Ended(old(stream.schedule), stream.schedule)
        || ResponseReader.HeadTooLarge(HEADER_BUFFER, Left(received, calls))
      ensures Ended(old(stream.schedule), stream.schedule) ==> r == Error(EOF)
      ensures r == Error(BadResponse) ==> Frame(Left(received, calls)) == BadHead
      ensures fresh(reader.StateObjects() - old(reader.StateObjects()))
    {
      hide InOrder, IsRun, Left, Delivered, CallStep, Frame, ResponseReader.HeadTooLarge, ResponseReader.IllegalSoFar;
      hide ResponseReader.EmptyBodyIff, Used, Ended, ResponseReader.Reader.NextProbe, ResponseReader.Reader.NoneHeld;
      hide ResponseReader.Reader.Valid, ResponseReader.Reader.StateObjects;
      ghost var u := Left(received, calls);
      var out := reader.ReadFrom(stream);
      if out == Failure(Panicked) || out.Got? {
        panicked := true;
        return Error(Panic);
      }
      ghost var call := Call(out, reader.Undelivered(stream), reader.probe);
      CallMeans(HEADER_BUFFER, u, call);
      RunSnoc(HEADER_BUFFER, received, calls, call);
      assert Delivered(calls) + [] == Delivered(calls);
      calls := calls + [call];
      assert Left(received, calls) == u;
      r := Error(if out.NotYet? then Blocked else if out.error.ReadEOF? then EOF else BadResponse);
    }
  }
}
