/** What the response reader must deliver, as a relation on the undelivered bytes (RFC 7230, section 3.3.3). */
module ResponseFraming {
  import opened Bytes
  import opened HttpHead
  import opened ChunkedSpec
  import Hex

  datatype ResponseHead = ResponseHead(status: nat, headers: seq<HttpHead.Header>)
  datatype Response = Response(head: ResponseHead, body: bytes)
  datatype ResponseError = ReadEOF | ParseResponseError | Panicked
  datatype Outcome = Got(response: Response) | NotYet | Failure(error: ResponseError)

  /** The value of the last Content-Length field, if it is a number. */
  function ContentLen(headers: seq<HttpHead.Header>): Option<nat> {
    if headers == [] then None
    else
      var h := headers[|headers| - 1];
      if SameName(h.name, CONTENT_LENGTH) then ParseUsize(h.value) else ContentLen(headers[..|headers| - 1])
  }

  /** The foreign head parser: status line, then fields up to the end of `head`. */
  function FromHead(head: bytes): Option<ResponseHead> {
    match Find(head, CR_LF)
    case None => None
    case Some(i) =>
      if i < 12 || head[..7] != HTTP_1 || head[8..9] != SP || DecimalValue(head[9..12]).None? then None
      else
        var scan := ScanHeaders(head, i + 2, []);
        if scan.Complete? then Some(ResponseHead(DecimalValue(head[9..12]).value, scan.headers)) else None
  }

  /** `Fixed`: a head with Content-Length. `Open`: a head without one. `at` is where the body starts. */
  datatype Framing = NoHead | BadHead | Fixed(head: ResponseHead, at: nat, length: nat)
    | Open(head: ResponseHead, at: nat)

  function Frame(u: bytes): (f: Framing)
    ensures f.Fixed? || f.Open? ==> 4 <= f.at <= |u|
  {
    match Find(u, CR_LF_2)
    case None => NoHead
    case Some(i) =>
      match FromHead(u[..i + 4])
      case None => BadHead
      case Some(head) =>
        match ContentLen(head.headers)
        case None => Open(head, i + 4)
        case Some(length) => Fixed(head, i + 4, length)
  }

  lemma FrameStable(u: bytes, more: bytes)
    requires !Frame(u).NoHead?
    ensures Frame(u + more) == Frame(u)
  {
    FindStable(u, more, CR_LF_2, 0);
    FindIsFindFrom(u, CR_LF_2);
    FindIsFindFrom(u + more, CR_LF_2);
    var i := Find(u, CR_LF_2).value;
    assert (u + more)[..i + 4] == u[..i + 4];
  }

  /** A head is the same parsed on its own. */
  lemma FrameHead(u: bytes)
    requires Frame(u).Fixed? || Frame(u).Open?
    ensures Frame(u[..Frame(u).at]) == Frame(u)
  {
    hide FromHead, ContentLen;
    var at := Frame(u).at;
    var head := u[..at];
    assert u == head + u[at..];
    FindStable(head, u[at..], CR_LF_2, 0);
    FindIsFindFrom(u, CR_LF_2);
    FindIsFindFrom(head, CR_LF_2);
    assert head[..at] == head;
  }

  /**
   * What one call may do to the undelivered bytes `u`; `probe` is what was buffered behind the head
   * when it was parsed. A head without Content-Length gets an empty body if the probe holds no CRLF
   * and a chunked body if it does. An illegal chunked body makes the code panic.
   */
  ghost predicate ReadStep(u: bytes, out: Outcome, u': bytes, probe: bytes) {
    match out
    case NotYet => u' == u
    case Failure(ReadEOF) => u' == u
    case Failure(ParseResponseError) => u' == u && Frame(u) == BadHead
    case Failure(Panicked) =>
      && u' == u && Frame(u).Open? && probe <= u[Frame(u).at..] && Find(probe, CR_LF).Some?
      && exists k :: |probe| <= k && IllegalAt(u[Frame(u).at..], k)
    case Got(response) =>
      match Frame(u)
      case Fixed(head, at, length) =>
        at + length <= |u| && response == Response(head, u[at..at + length]) && u' == u[at + length..]
      case Open(head, at) =>
        && probe <= u[at..]
        && if Find(probe, CR_LF).None? then response == Response(head, []) && u' == u[at..]
           else TakenAsChunked(u, head, at, response, u')
      case _ => false
  }

  /**
   * The head was in the header buffer of capacity `cap` when it was parsed, and the probe with it if it
   * has no Content-Length.
   */
  ghost predicate HeadFits(cap: nat, u: bytes, probe: bytes) {
    && (Frame(u).Fixed? ==> Frame(u).at <= cap)
    && (Frame(u).Open? ==> Frame(u).at + |probe| <= cap)
  }

  ghost predicate TakenAsChunked(u: bytes, head: ResponseHead, at: nat, response: Response, u': bytes)
    requires at <= |u|
  {
    var d := Decode([], u[at..]);
    d.state == Finished && response == Response(head, Body(d.chunks)) && u' == d.rest
  }

  // ---- Whole runs ----

  /** The next response of `u`, heads without Content-Length read as chunked. */
  ghost function Next(u: bytes): (r: Option<(Response, bytes)>)
    ensures r.Some? ==> |r.value.1| < |u|
  {
    match Frame(u)
    case Fixed(head, at, length) =>
      if at + length <= |u| then Some((Response(head, u[at..at + length]), u[at + length..])) else None
    case Open(head, at) =>
      var d := Decode([], u[at..]);
      DecoderInvariant([], u[at..]);
      if d.state == Finished then Some((Response(head, Body(d.chunks)), d.rest)) else None
    case _ => None
  }

  ghost function Responses(u: bytes): seq<Response>
    decreases |u|
  {
    var next := Next(u);
    if next.None? then [] else [next.value.0] + Responses(next.value.1)
  }

  /** One observed call, with the bytes buffered behind the head when it was parsed. */
  datatype Call = Call(out: Outcome, after: bytes, probe: bytes)

  /** Every response without Content-Length had its first size line buffered together with its head. */
  ghost predicate SizeLinesBuffered(u: bytes, calls: seq<Call>)
    decreases |calls|
  {
    calls == [] ||
    (&& (calls[0].out.Got? && Frame(u).Open? ==> Find(calls[0].probe, CR_LF).Some?)
     && SizeLinesBuffered(calls[0].after, calls[1..]))
  }

  /** A call of a reader with a header buffer of capacity `cap`. */
  ghost predicate CallStep(cap: nat, u: bytes, call: Call) {
    && ReadStep(u, call.out, call.after, call.probe)
    && (call.out.Got? || call.out == Failure(Panicked) ==> HeadFits(cap, u, call.probe))
  }

  ghost predicate IsRun(cap: nat, u: bytes, calls: seq<Call>)
    decreases |calls|
  {
    calls == [] || (CallStep(cap, u, calls[0]) && IsRun(cap, calls[0].after, calls[1..]))
  }

  predicate NoPanic(calls: seq<Call>) {
    forall c :: c in calls ==> c.out != Failure(Panicked)
  }

  function Delivered(calls: seq<Call>): seq<Response>
    decreases |calls|
  {
    if calls == [] then []
    else (if calls[0].out.Got? then [calls[0].out.response] else []) + Delivered(calls[1..])
  }

  function Left(u: bytes, calls: seq<Call>): bytes
    decreases |calls|
  {
    if calls == [] then u else Left(calls[0].after, calls[1..])
  }

  /** A run goes on from where it left the stream. */
  lemma {:induction false} RunSnoc(cap: nat, u: bytes, calls: seq<Call>, call: Call)
    requires IsRun(cap, u, calls) && CallStep(cap, Left(u, calls), call)
    ensures IsRun(cap, u, calls + [call]) && Left(u, calls + [call]) == call.after
    ensures Delivered(calls + [call]) == Delivered(calls) + (if call.out.Got? then [call.out.response] else [])
    decreases |calls|
  {
    hide CallStep;
    if calls == [] {
      assert [] + [call] == [call] && [call][1..] == [];
      var got := if call.out.Got? then [call.out.response] else [];
      assert got + [] == got && [] + got == got;
    } else {
      assert (calls + [call])[0] == calls[0] && (calls + [call])[1..] == calls[1..] + [call];
      RunSnoc(cap, calls[0].after, calls[1..], call);
      var head := if calls[0].out.Got? then [calls[0].out.response] else [];
      var got := if call.out.Got? then [call.out.response] else [];
      assert head + (Delivered(calls[1..]) + got) == head + Delivered(calls[1..]) + got;
    }
  }

  // ---- When the reader panics ----

  /** The first line behind a head without Content-Length can be buffered together with the head. */
  ghost predicate FirstLineFits(cap: nat, u: bytes) {
    && Frame(u).Open?
    && var line := Find(u[Frame(u).at..], CR_LF);
    && line.Some? && Frame(u).at + line.value + 2 <= cap
  }

  /** The next response is whole and can be read with its first size line buffered. */
  ghost predicate Readable(cap: nat, u: bytes) {
    && Next(u).Some?
    && (Frame(u).Fixed? ==> Frame(u).at <= cap)
    && (Frame(u).Open? ==> FirstLineFits(cap, u))
  }

  /** If the next response is read as chunked, its body is harmless. */
  ghost predicate HarmlessHere(cap: nat, u: bytes) {
    FirstLineFits(cap, u) ==> Harmless(u[Frame(u).at..])
  }

  /** No body read as chunked makes the decoder panic, however the stream is cut. */
  ghost predicate Tame(cap: nat, u: bytes)
    decreases |u|
  {
    && HarmlessHere(cap, u)
    && (Readable(cap, u) ==> Tame(cap, Next(u).value.1))
  }

  /** Over all runs with buffered size lines: none panics if and only if the stream is tame. */
  lemma TameIff(cap: nat, u: bytes)
    ensures (forall calls :: IsRun(cap, u, calls) && SizeLinesBuffered(u, calls) ==> NoPanic(calls)) <==> Tame(cap, u)
  {
    hide IsRun, SizeLinesBuffered, Tame;
    if Tame(cap, u) {
      forall calls | IsRun(cap, u, calls) && SizeLinesBuffered(u, calls)
        ensures NoPanic(calls)
      {
        TameNeverPanics(cap, u, calls);
      }
    } else {
      var calls := WildPanics(cap, u);
      assert calls[|calls| - 1] in calls;
    }
  }

  /** A buffered probe with a line shows that the first line fits. */
  lemma ProbeShowsLine(cap: nat, u: bytes, probe: bytes)
    requires Frame(u).Open? && HeadFits(cap, u, probe) && probe <= u[Frame(u).at..] && Find(probe, CR_LF).Some?
    ensures FirstLineFits(cap, u)
  {
    hide Frame;
    var behind := u[Frame(u).at..];
    assert behind == probe + behind[|probe|..];
    FindStable(probe, behind[|probe|..], CR_LF, 0);
    FindIsFindFrom(probe, CR_LF);
    FindIsFindFrom(behind, CR_LF);
  }

  lemma {:induction false} TameNeverPanics(cap: nat, u: bytes, calls: seq<Call>)
    requires IsRun(cap, u, calls) && SizeLinesBuffered(u, calls) && Tame(cap, u)
    ensures NoPanic(calls)
    decreases |calls|
  {
    hide CallStep, Frame, Next, HarmlessHere, Readable;
    if calls != [] {
      var call, rest := calls[0], calls[1..];
      assert calls == [call] + rest;
      OneCallBuffered(u, call, rest);
      TameCall(cap, u, call);
      TameNeverPanics(cap, call.after, rest);
    }
  }

  lemma TameCall(cap: nat, u: bytes, call: Call)
    requires CallStep(cap, u, call) && SizeLinesBuffered(u, [call])
    requires HarmlessHere(cap, u)
    ensures call.out != Failure(Panicked)
    ensures if call.out.Got? then Readable(cap, u) && call.after == Next(u).value.1 else call.after == u
  {
    StepDelivers(u, call);
    hide Frame, Harmless, IllegalAt, Decode, FirstLineFits, Next, SizeLinesBuffered;
    if Frame(u).Open? {
      HarmlessIff(u[Frame(u).at..]);
      BufferedProbe(u, call);
      if call.out.Got? || call.out == Failure(Panicked) {
        ProbeShowsLine(cap, u, call.probe);
      }
    }
  }

  lemma BufferedProbe(u: bytes, call: Call)
    requires ReadStep(u, call.out, call.after, call.probe) && SizeLinesBuffered(u, [call]) && Frame(u).Open?
    ensures call.out.Got? || call.out == Failure(Panicked) ==>
      call.probe <= u[Frame(u).at..] && Find(call.probe, CR_LF).Some?
  {
    hide Frame, Decode;
  }

  /** A stream that is not tame panics in some run, at the first body that is not harmless. */
  lemma {:induction false} WildPanics(cap: nat, u: bytes) returns (calls: seq<Call>)
    requires !Tame(cap, u)
    ensures IsRun(cap, u, calls) && SizeLinesBuffered(u, calls)
    ensures calls != [] && calls[|calls| - 1].out == Failure(Panicked)
    decreases |u|
  {
    hide Frame, Next, HarmlessHere, CallStep, Find, Readable;
    var call: Call, rest: seq<Call> := Call(NotYet, u, []), [];
    if !HarmlessHere(cap, u) {
      call := WildCall(cap, u);
    } else {
      call := DeliveringCall(cap, u);
      rest := WildPanics(cap, call.after);
    }
    calls := [call] + rest;
    assert calls[0] == call && calls[1..] == rest;
  }

  lemma WildCall(cap: nat, u: bytes) returns (call: Call)
    requires !HarmlessHere(cap, u)
    ensures call.out == Failure(Panicked) && CallStep(cap, u, call) && SizeLinesBuffered(u, [call])
  {
    hide Frame, Harmless, Decode;
    var v := u[Frame(u).at..];
    HarmlessIff(v);
    var k :| IllegalAt(v, k);
    var n := LineIsNeeded(v, k);
    call := Call(Failure(Panicked), u, v[..n]);
  }

  /** The first line with its CRLF; no shorter prefix is illegal. */
  lemma LineIsNeeded(v: bytes, k: nat) returns (n: nat)
    requires IllegalAt(v, k)
    ensures Find(v, CR_LF).Some? && n == Find(v, CR_LF).value + 2 <= k <= |v| && Find(v[..n], CR_LF).Some?
  {
    hide Decode;
    FirstLine(v[..k]);
    n := FirstLineCut(v);
    assert v == v[..k] + v[k..];
    FindStable(v[..k], v[k..], CR_LF, 0);
    FindIsFindFrom(v[..k], CR_LF);
    FindIsFindFrom(v, CR_LF);
  }

  lemma FirstLineCut(v: bytes) returns (n: nat)
    ensures Find(v, CR_LF).Some? ==> n == Find(v, CR_LF).value + 2 <= |v| && Find(v[..n], CR_LF).Some?
  {
    n := 0;
    if Find(v, CR_LF).Some? {
      n := Find(v, CR_LF).value + 2;
      assert At(v[..n], CR_LF, n - 2) by { assert v[..n][n - 2..n] == v[n - 2..n]; }
    }
  }

  lemma DeliveringCall(cap: nat, u: bytes) returns (call: Call)
    requires Readable(cap, u)
    ensures call == Call(Got(Next(u).value.0), Next(u).value.1, call.probe) && CallStep(cap, u, call)
    ensures |call.after| < |u| && (Frame(u).Open? ==> Find(call.probe, CR_LF).Some?)
  {
    hide Frame, Decode, Find;
    var probe := [];
    if Frame(u).Open? {
      var n := FirstLineCut(u[Frame(u).at..]);
      probe := u[Frame(u).at..][..n];
    }
    call := Call(Got(Next(u).value.0), Next(u).value.1, probe);
  }

  // ---- What runs deliver ----

  /** Only a delivery takes bytes, and only a bad head is a parse error. */
  lemma CallMeans(cap: nat, u: bytes, call: Call)
    requires CallStep(cap, u, call)
    ensures !call.out.Got? ==> call.after == u
    ensures call.out == Failure(ParseResponseError) ==> Frame(u) == BadHead
  {
    hide Frame, HeadFits;
  }

  /** One call delivers the next response and leaves exactly the bytes behind it. */
  lemma StepDelivers(u: bytes, call: Call)
    requires ReadStep(u, call.out, call.after, call.probe)
    requires SizeLinesBuffered(u, [call])
    ensures call.out.Got? ==> Next(u) == Some((call.out.response, call.after))
    ensures !call.out.Got? ==> call.after == u
  {
    hide Frame, Decode;
  }

  /**
   * Whatever the read schedule, the delivered responses are the first responses of the byte stream,
   * pipelined ones included, as long as no chunked response was probed too early.
   */
  lemma {:induction false} RunRefinesFraming(cap: nat, u: bytes, calls: seq<Call>)
    requires IsRun(cap, u, calls) && SizeLinesBuffered(u, calls)
    ensures Delivered(calls) + Responses(Left(u, calls)) == Responses(u)
    decreases |calls|
  {
    hide Next, ReadStep, Frame;
    if calls == [] {
      assert [] + Responses(u) == Responses(u);
    } else {
      var call, rest := calls[0], calls[1..];
      assert calls == [call] + rest;
      OneCallBuffered(u, call, rest);
      StepDelivers(u, call);
      RunRefinesFraming(cap, call.after, rest);
      var tail := Responses(Left(call.after, rest));
      if call.out.Got? {
        assert [call.out.response] + Delivered(rest) + tail == [call.out.response] + (Delivered(rest) + tail);
      } else {
        assert [] + Delivered(rest) == Delivered(rest);
      }
    }
  }

  lemma OneCallBuffered(u: bytes, call: Call, rest: seq<Call>)
    requires SizeLinesBuffered(u, [call] + rest)
    ensures SizeLinesBuffered(u, [call]) && SizeLinesBuffered(call.after, rest)
  {
    hide Frame, Find;
    assert ([call] + rest)[1..] == rest;
  }

  /** Every head of the stream carries Content-Length: then no run is ever probed too early. */
  ghost predicate AllFixed(u: bytes)
    decreases |u|
  {
    !Frame(u).Open? && (Next(u).Some? ==> AllFixed(Next(u).value.1))
  }

  lemma {:induction false} FixedRunRefinesFraming(cap: nat, u: bytes, calls: seq<Call>)
    requires IsRun(cap, u, calls) && AllFixed(u)
    ensures Delivered(calls) + Responses(Left(u, calls)) == Responses(u)
  {
    FixedIsBuffered(cap, u, calls);
    RunRefinesFraming(cap, u, calls);
  }

  lemma {:induction false} FixedIsBuffered(cap: nat, u: bytes, calls: seq<Call>)
    requires IsRun(cap, u, calls) && AllFixed(u)
    ensures SizeLinesBuffered(u, calls)
    decreases |calls|
  {
    hide Frame, Next;
    if calls != [] {
      var call := calls[0];
      assert SizeLinesBuffered(u, [call]);
      StepDelivers(u, call);
      FixedIsBuffered(cap, call.after, calls[1..]);
    }
  }

  /**
   * What is buffered behind a response without Content-Length stays buffered if and only if it held
   * no CRLF when the head was parsed: otherwise the chunk decoder takes some of it.
   */
  lemma NothingTakenIff(u: bytes, probe: bytes, response: Response, u': bytes)
    requires Frame(u).Open? && ReadStep(u, Got(response), u', probe)
    ensures u' == u[Frame(u).at..] <==> Find(probe, CR_LF).None?
  {
    hide Frame, Decode, Find;
    var behind := u[Frame(u).at..];
    if Find(probe, CR_LF).Some? {
      assert behind == probe + behind[|probe|..];
      FindStable(probe, behind[|probe|..], CR_LF, 0);
      FindIsFindFrom(probe, CR_LF);
      FindIsFindFrom(behind, CR_LF);
      FirstLine(behind);
    }
  }

  /**
   * Without Content-Length the split of the reads decides: for one and the same stream a probe with
   * and a probe without a CRLF both give an answer, and the answers always differ. So a chunked
   * response is delivered as such if and only if its first size line was buffered with its head.
   */
  lemma ProbeDecides(u: bytes, probe: bytes, response: Response, u': bytes)
    requires Frame(u).Open? && probe <= u[Frame(u).at..]
    requires Next(u).Some? && ReadStep(u, Got(response), u', probe)
    ensures (response, u') == Next(u).value <==> Find(probe, CR_LF).Some?
    ensures (response, u') == (Response(Frame(u).head, []), u[Frame(u).at..]) <==> Find(probe, CR_LF).None?
  {
    NothingTakenIff(u, probe, response, u');
    hide Frame, Decode, Find;
    FirstLine(u[Frame(u).at..]);
  }

  /** A whole chunked response in front of anything is delivered with its body and leaves exactly what follows. */
  lemma ChunkedResponse(head: bytes, h: ResponseHead, pieces: seq<Piece>, last: bytes, tail: bytes)
    requires Frame(head) == Open(h, |head|)
    requires forall p :: p in pieces ==> Announces(p)
    requires Hex.ParseHex(last) == Hex.Value(0)
    ensures Next(head + (EncodePieces(pieces) + (last + CR_LF + CR_LF + tail)))
         == Some((Response(h, PiecesBody(pieces)), tail))
  {
    hide Frame, Decode, Announces, Hex.ParseHex, EncodePieces;
    var behind := EncodePieces(pieces) + (last + CR_LF + CR_LF + tail);
    FrameStable(head, behind);
    assert (head + behind)[|head|..] == behind;
    DecodeEncoded([], pieces, last, tail);
    assert [] + SealedPieces(pieces) == SealedPieces(pieces);
    SealedPiecesBody(pieces);
  }
}
