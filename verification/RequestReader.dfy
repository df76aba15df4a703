/** `HttpRequestReader::read_from` over the shared header buffer and a per-message body buffer. */
module RequestReader {
  import opened Bytes
  import opened Buffers
  import opened HttpHead
  import opened RequestFraming

  datatype RequestReadState = Empty | ReadBody(buf: BufferVec)

  const DEFAULT_MAX_BODY: nat := 104857600

  function Limit(maxBody: Option<nat>): nat {
    if maxBody.Some? then maxBody.value else DEFAULT_MAX_BODY
  }

  ghost function Objects(header: BufferVec, state: RequestReadState): set<object> {
    {header, header.buf} + (if state.ReadBody? then {state.buf, state.buf.buf} else {})
  }

  /** In the ReadBody state the head and part of the body have moved to a buffer of the announced size. */
  ghost predicate Valid(header: BufferVec, state: RequestReadState, limit: nat)
    reads Objects(header, state)
  {
    && header.Valid() && header.cap < USIZE
    && (state.ReadBody? ==>
          && var body := state.buf;
          && body.Valid() && body != header && body.buf != header.buf
          && header.len == 0
          && body.len < body.cap <= limit
          && GetRequestSize(body.Contents()) == Sized(body.cap)
          && ScanRequest(body.Contents()).size <= header.cap)
  }

  /** The bytes read so far and not delivered yet, in order. */
  ghost function Held(header: BufferVec, state: RequestReadState): bytes
    requires header.Valid() && (state.ReadBody? ==> state.buf.Valid())
    reads header, header.buf, if state.ReadBody? then {state.buf, state.buf.buf} else {}
  {
    (if state.ReadBody? then state.buf.Contents() else []) + header.Contents()
  }

  /** Every byte that has been or will be read and is not delivered yet, in order. */
  ghost function Undelivered(stream: Stream, header: BufferVec, state: RequestReadState): bytes
    requires header.Valid() && (state.ReadBody? ==> state.buf.Valid())
    reads stream`incoming, header, header.buf, if state.ReadBody? then {state.buf, state.buf.buf} else {}
  {
    Held(header, state) + stream.incoming
  }

  datatype HeadStep = Deliver(request: HttpHead.Request) | StartBody(body: BufferVec) | NeedMore
    | Reject(error: HttpError)

  /** Looks for one request in the header buffer alone. */
  method TryHead(header: BufferVec, limit: nat) returns (step: HeadStep)
    requires header.Valid() && header.cap < USIZE
    modifies header`len, header.buf
    ensures header.Valid()
    ensures step.Deliver? || step.StartBody? || header.Contents() == old(header.Contents())
    ensures var c := old(header.Contents());
      var size := GetRequestSize(c);
      match step
      case Deliver(request) =>
        size.Sized? && size.total <= |c| && size.total <= limit
        && New(c[..size.total]) == Parsed(request) && header.Contents() == c[size.total..]
      case StartBody(body) =>
        size.Sized? && |c| < size.total <= limit
        && fresh(body) && fresh(body.buf) && body.Valid() && body.cap == size.total
        && body.Contents() == c && header.Contents() == []
      case NeedMore => size == Waiting
      case Reject(ParseError(e)) => size == Bad(e)
      case Reject(BodyTooLarge) => size.Sized? && size.total > limit
      case Reject(HeaderTooLarge(_)) => false
      case Reject(ReadEOF) => Overflows(c) && size.total <= limit
  {
    hide GetRequestSize, New;
    var c := header.Read();
    match GetRequestSize(c)
    case Waiting => step := NeedMore;
    case Bad(e) => step := Reject(ParseError(e));
    case Sized(total) =>
      if total > limit {
        return Reject(BodyTooLarge);
      }
      var whole := header.ReadN(total);
      if whole.Some? {
        match New(whole.value)
        case Parsed(request) =>
          header.RotateLeft(total);
          return Deliver(request);
        case Incomplete => return Reject(ReadEOF);   // "should panic" in the source
        case Invalid(e) =>
          NeverInvalid(c, total);
          return Reject(ReadEOF);
      }
      var body := new BufferVec(total);
      header.MoveTo(body);
      step := StartBody(body);
  }

  lemma NeverInvalid(c: bytes, total: nat)
    requires GetRequestSize(c) == Sized(total) && total <= |c|
    ensures !New(c[..total]).Invalid?
  {
    PrefixScan(c, total);
    if ScanRequest(c[..total]).Complete? {
      ParsedLine(c[..total]);
    }
  }

  datatype HeadResult = Answer(out: Outcome) | Start(body: BufferVec)

  /** The Empty arm: parse, or read more into the header buffer, until there is an answer or a body to read. */
  method ReadHead(stream: Stream, header: BufferVec, limit: nat) returns (result: HeadResult)
    requires header.Valid() && header.cap < USIZE
    modifies header`len, header.buf, stream`incoming, stream`schedule
    ensures header.Valid()
    ensures var u := old(header.Contents() + stream.incoming);
      match result
      case Answer(out) =>
        && ReadStep(header.cap, limit, u, out, header.Contents() + stream.incoming)
        && (out.NotYet? ==> GetRequestSize(header.Contents()) == Waiting)
        && (out.NotYet? ==> Blocked(old(stream.schedule), stream.schedule, stream.incoming))
        && (out == Failure(ReadEOF) ==> Overflows(header.Contents()) || Ended(old(stream.schedule), stream.schedule))
      case Start(body) =>
        && fresh(body) && fresh(body.buf) && header.Contents() == []
        && Valid(header, ReadBody(body), limit) && body.Contents() + stream.incoming == u
    ensures Used(old(stream.schedule), stream.schedule)
    ensures Ended(old(stream.schedule), stream.schedule) ==> result == Answer(Failure(ReadEOF))
  {
    hide GetRequestSize, New, ScanRequest, Used, Ended, Blocked;
    UsedNone(stream.schedule);
    ghost var u := header.Contents() + stream.incoming;
    while true
      invariant header.Valid() && header.Contents() + stream.incoming == u
      invariant Used(old(stream.schedule), stream.schedule) && !Ended(old(stream.schedule), stream.schedule)
      decreases |stream.schedule|
    {
      ghost var c := header.Contents();
      var step := TryHead(header, limit);
      match step {
        case Deliver(request) =>
          DeliverFromPrefix(header.cap, limit, c, stream.incoming);
          return Answer(Got(request));
        case StartBody(body) =>
          SizeFromPrefix(c, []);
          return Start(body);
        case Reject(e) =>
          SizeFromPrefix(c, stream.incoming);
          return Answer(Failure(e));
        case NeedMore =>
      }
      if header.Room() == 0 {
        assert u[..header.cap] == c;
        return Answer(Failure(HeaderTooLarge(header.len)));
      }
      ghost var schedule := stream.schedule;
      var r := header.FillWith(stream);
      ReadsJoin(old(stream.schedule), schedule, stream.schedule);
      if !r.Done? {
        return Answer(if r.WouldBlock? then NotYet else Failure(ReadEOF));
      }
    }
  }

  /** The ReadBody arm: read into the message's own buffer until it is full. */
  method ReadRest(stream: Stream, header: BufferVec, body: BufferVec, limit: nat) returns (out: Outcome)
    requires Valid(header, ReadBody(body), limit)
    modifies body`len, body.buf, stream`incoming, stream`schedule
    ensures header.Valid() && body.Valid()
    ensures var u := old(body.Contents() + stream.incoming);
      var left := (if out.Got? then [] else body.Contents()) + stream.incoming;
      ReadStep(header.cap, limit, u, out, left)
    ensures !out.Got? ==> Valid(header, ReadBody(body), limit)
    ensures Used(old(stream.schedule), stream.schedule)
    ensures out == Failure(ReadEOF) <==> Ended(old(stream.schedule), stream.schedule)
    ensures out.NotYet? ==> Blocked(old(stream.schedule), stream.schedule, stream.incoming)
  {
    hide GetRequestSize, New, ScanRequest;
    ghost var u := body.Contents() + stream.incoming;
    while true
      invariant Valid(header, ReadBody(body), limit) && body.Contents() + stream.incoming == u
      invariant Used(old(stream.schedule), stream.schedule) && !Ended(old(stream.schedule), stream.schedule)
      decreases |stream.schedule|
    {
      ghost var c := body.Contents();
      ghost var schedule := stream.schedule;
      var r := body.FillWith(stream);
      ReadsJoin(old(stream.schedule), schedule, stream.schedule);
      if !r.Done? {
        return if r.WouldBlock? then NotYet else Failure(ReadEOF);
      }
      ghost var c' := body.Contents();
      BodyGrows(c, c');
      if body.Room() == 0 {
        var whole := body.Read();
        FullBodyParses(header.cap, limit, c', stream.incoming);
        assert u == c' + stream.incoming && u[..|c'|] == whole;
        assert [] + stream.incoming == stream.incoming;
        return Got(New(whole).request);
      }
    }
  }

  lemma GotAnnounced(cap: nat, limit: nat, u: bytes, out: Outcome, u': bytes)
    requires ReadStep(cap, limit, u, out, u')
    ensures out.Got? ==> BodyAnnounced(out.request)
  {
    hide GetRequestSize, New, ScanRequest, BodyAnnounced;
    if out.Got? {
      DeliveredBody(cap, limit, u);
    }
  }

  /** One call of the reader: it accounts for every byte and delivers only whole frames of the stream. */
  method ReadFrom(stream: Stream, header: BufferVec, state: RequestReadState, maxBody: Option<nat>)
    returns (out: Outcome, state': RequestReadState)
    requires Valid(header, state, Limit(maxBody))
    modifies header`len, header.buf, stream`incoming, stream`schedule
    modifies if state.ReadBody? then {state.buf, state.buf.buf} else {}
    ensures Valid(header, state', Limit(maxBody)) && header.cap == old(header.cap)
    ensures state'.ReadBody? ==> state' == state || (fresh(state'.buf) && fresh(state'.buf.buf))
    ensures out.Got? ==> state' == Empty && BodyAnnounced(out.request)
    ensures ReadStep(header.cap, Limit(maxBody), old(Undelivered(stream, header, state)), out,
      Undelivered(stream, header, state'))
    ensures Used(old(stream.schedule), stream.schedule)
    ensures Ended(old(stream.schedule), stream.schedule) ==> out == Failure(ReadEOF)
    ensures out == Failure(ReadEOF) ==>
      Ended(old(stream.schedule), stream.schedule) || Overflows(Held(header, state'))
    ensures out.NotYet? ==>
      && Blocked(old(stream.schedule), stream.schedule, stream.incoming)
      && Frames(header.cap, Limit(maxBody), Held(header, state')) == []
  {
    hide GetRequestSize, New, ScanRequest, ReadStep, Overflows, BodyAnnounced, Used, Ended, Blocked;
    UsedNone(stream.schedule);
    var limit := Limit(maxBody);
    ghost var u := Undelivered(stream, header, state);
    state' := state;
    assert state.Empty? ==> [] + header.Contents() + stream.incoming == header.Contents() + stream.incoming;
    if state'.Empty? {
      var result := ReadHead(stream, header, limit);
      if result.Answer? {
        assert [] + header.Contents() + stream.incoming == header.Contents() + stream.incoming;
        assert [] + header.Contents() == header.Contents();
        GotAnnounced(header.cap, limit, u, result.out, Undelivered(stream, header, Empty));
        return result.out, Empty;
      }
      state' := ReadBody(result.body);
    }
    assert state'.buf.Contents() + header.Contents() + stream.incoming == state'.buf.Contents() + stream.incoming;
    ghost var schedule := stream.schedule;
    out := ReadRest(stream, header, state'.buf, limit);
    ReadsJoin(old(stream.schedule), schedule, stream.schedule);
    if out.Got? {
      state' := Empty;
      assert [] + header.Contents() + stream.incoming == [] + stream.incoming;
      GotAnnounced(header.cap, limit, u, out, Undelivered(stream, header, Empty));
    } else {
      assert state'.buf.Contents() + header.Contents() + stream.incoming == state'.buf.Contents() + stream.incoming;
      assert state'.buf.Contents() + [] == state'.buf.Contents();
    }
  }
}
