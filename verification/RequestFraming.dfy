/** What the request reader must deliver: head + Content-Length framing of the whole byte stream. */
module RequestFraming {
  import opened Bytes
  import opened HttpHead

  datatype HttpError = ReadEOF | ParseError(error: HeadError) | BodyTooLarge | HeaderTooLarge(len: nat)
  datatype Outcome = Got(request: HttpHead.Request) | NotYet | Failure(error: HttpError)

  /** The next request of `u` is all there, its head fits the header buffer and its size the limit. */
  ghost predicate Deliverable(cap: nat, limit: nat, u: bytes) {
    && GetRequestSize(u).Sized?
    && var total := GetRequestSize(u).total;
    && ScanRequest(u).size <= cap
    && total <= limit
    && total <= |u|
    && New(u[..total]).Parsed?
  }

  /** The next request announces a size at which it does not parse: head plus Content-Length wrapped around. */
  ghost predicate Overflows(u: bytes) {
    GetRequestSize(u).Sized? && GetRequestSize(u).total <= |u| && New(u[..GetRequestSize(u).total]).Incomplete?
  }

  /** What one call of the reader may do to the undelivered bytes `u`. */
  ghost predicate ReadStep(cap: nat, limit: nat, u: bytes, out: Outcome, u': bytes) {
    match out
    case Got(request) =>
      && Deliverable(cap, limit, u)
      && request == New(u[..GetRequestSize(u).total]).request
      && u' == u[GetRequestSize(u).total..]
    case NotYet => u' == u
    case Failure(ReadEOF) => u' == u
    case Failure(ParseError(e)) => u' == u && GetRequestSize(u) == Bad(e)
    case Failure(BodyTooLarge) => u' == u && GetRequestSize(u).Sized? && GetRequestSize(u).total > limit
    case Failure(HeaderTooLarge(n)) => u' == u && n == cap <= |u| && GetRequestSize(u[..cap]) == Waiting
  }

  /** The requests of the byte stream `u`, split without regard to how it arrives. */
  ghost function Frames(cap: nat, limit: nat, u: bytes): seq<HttpHead.Request>
    decreases |u|
  {
    if !Deliverable(cap, limit, u) then []
    else
      var total := GetRequestSize(u).total;
      ParsedSize(u);
      [New(u[..total]).request] + Frames(cap, limit, u[total..])
  }

  lemma ParsedSize(u: bytes)
    requires GetRequestSize(u).Sized? && GetRequestSize(u).total <= |u|
    requires New(u[..GetRequestSize(u).total]).Parsed?
    ensures GetRequestSize(u).total >= 4
  {
  }

  /** On a prefix the size is either not known yet or already final. */
  lemma PrefixSize(u: bytes, k: nat)
    requires k <= |u|
    ensures GetRequestSize(u[..k]) == Waiting || GetRequestSize(u[..k]) == GetRequestSize(u)
    ensures GetRequestSize(u[..k]).Sized? ==> ScanRequest(u).Complete? && ScanRequest(u[..k]) == ScanRequest(u)
  {
    hide ScanRequest, ContentLength;
    PrefixScan(u, k);
  }

  /** What the first bytes decide stays decided, so delivering from a prefix is delivering from the stream. */
  lemma DeliverFromPrefix(cap: nat, limit: nat, c: bytes, more: bytes)
    requires GetRequestSize(c).Sized? && GetRequestSize(c).total <= |c|
    requires |c| <= cap && GetRequestSize(c).total <= limit
    requires New(c[..GetRequestSize(c).total]).Parsed?
    ensures var total := GetRequestSize(c).total;
      && Deliverable(cap, limit, c + more) && GetRequestSize(c + more) == Sized(total)
      && (c + more)[..total] == c[..total] && (c + more)[total..] == c[total..] + more
  {
    hide GetRequestSize, New, ScanRequest;
    SizeFromPrefix(c, more);
    SizedParts(c);
    var total := GetRequestSize(c).total;
    assert (c + more)[..total] == c[..total];
  }

  lemma SizeFromPrefix(c: bytes, more: bytes)
    ensures GetRequestSize(c) == Waiting || GetRequestSize(c + more) == GetRequestSize(c)
    ensures GetRequestSize(c).Sized? ==> ScanRequest(c).Complete? && ScanRequest(c + more) == ScanRequest(c)
  {
    assert (c + more)[..|c|] == c;
    PrefixSize(c + more, |c|);
  }

  /** A body buffer filled up to the announced size always parses. */
  lemma FullBodyParses(cap: nat, limit: nat, c: bytes, more: bytes)
    requires |c| < USIZE && |c| <= limit
    requires GetRequestSize(c) == Sized(|c|) && ScanRequest(c).size < |c| && ScanRequest(c).size <= cap
    ensures New(c).Parsed? && Deliverable(cap, limit, c + more)
    ensures GetRequestSize(c + more) == Sized(|c|) && (c + more)[..|c|] == c && (c + more)[|c|..] == more
  {
    hide GetRequestSize, New, ScanRequest;
    assert c[..|c|] == c && (c + more)[..|c|] == c;
    SizedParts(c);
    var scan := ScanRequest(c);
    ReparseTotal(c, scan.size, scan.headers, ContentLength(scan.headers).value, |c|);
    SizeFromPrefix(c, more);
  }

  /** More body bytes change neither the announced size nor the head. */
  lemma BodyGrows(c: bytes, c': bytes)
    requires c <= c' && GetRequestSize(c).Sized?
    ensures GetRequestSize(c') == GetRequestSize(c) && ScanRequest(c') == ScanRequest(c)
    ensures ScanRequest(c').Complete? && ScanRequest(c').size <= |c|
  {
    hide GetRequestSize, ScanRequest;
    assert c' == c + c'[|c|..];
    SizeFromPrefix(c, c'[|c|..]);
    SizedParts(c);
  }

  lemma SizedParts(c: bytes)
    requires GetRequestSize(c).Sized?
    ensures var scan := ScanRequest(c);
      && scan.Complete? && scan.size <= |c| && ContentLength(scan.headers).Some?
      && GetRequestSize(c).total == (scan.size + ContentLength(scan.headers).value) % USIZE
  {
    hide ScanRequest, ContentLength;
  }

  /** One observed call: what came back and the undelivered bytes after it. */
  datatype Call = Call(out: Outcome, after: bytes)

  ghost predicate IsRun(cap: nat, limit: nat, u: bytes, calls: seq<Call>)
    decreases |calls|
  {
    calls == [] ||
    (ReadStep(cap, limit, u, calls[0].out, calls[0].after) && IsRun(cap, limit, calls[0].after, calls[1..]))
  }

  function Delivered(calls: seq<Call>): seq<HttpHead.Request>
    decreases |calls|
  {
    if calls == [] then []
    else (if calls[0].out.Got? then [calls[0].out.request] else []) + Delivered(calls[1..])
  }

  /** The undelivered bytes after the last call. */
  function Left(u: bytes, calls: seq<Call>): bytes
    decreases |calls|
  {
    if calls == [] then u else Left(calls[0].after, calls[1..])
  }

  function TotalSize(requests: seq<HttpHead.Request>): nat {
    if requests == [] then 0 else requests[0].size + TotalSize(requests[1..])
  }

  /**
   * Whatever the read schedule, the requests delivered over a run are the first frames of the byte
   * stream, and what is left undelivered is exactly the stream behind them.
   */
  lemma {:induction false} RunRefinesFraming(cap: nat, limit: nat, u: bytes, calls: seq<Call>)
    requires IsRun(cap, limit, u, calls)
    ensures var got, left := Delivered(calls), Left(u, calls);
      && got + Frames(cap, limit, left) == Frames(cap, limit, u)
      && TotalSize(got) <= |u| && left == u[TotalSize(got)..]
    decreases |calls|
  {
    hide Frames, ReadStep;
    if calls == [] {
      assert [] + Frames(cap, limit, u) == Frames(cap, limit, u);
    } else {
      var mid, rest := calls[0].after, calls[1..];
      RunRefinesFraming(cap, limit, mid, rest);
      StepFrames(cap, limit, u, calls[0].out, mid);
      var got, tail := Delivered(rest), Frames(cap, limit, Left(mid, rest));
      if calls[0].out.Got? {
        var request := calls[0].out.request;
        SuffixOfSuffix(u, request.size, TotalSize(got));
        assert [request] + got + tail == [request] + (got + tail);
      } else {
        assert [] + got == got;
      }
    }
  }

  lemma SuffixOfSuffix(u: bytes, a: nat, b: nat)
    requires a + b <= |u|
    ensures u[a..][b..] == u[a + b..]
  {
  }

  /** A run goes on from where it left the stream. */
  lemma {:induction false} RunSnoc(cap: nat, limit: nat, u: bytes, calls: seq<Call>, call: Call)
    requires IsRun(cap, limit, u, calls) && ReadStep(cap, limit, Left(u, calls), call.out, call.after)
    ensures IsRun(cap, limit, u, calls + [call]) && Left(u, calls + [call]) == call.after
    ensures Delivered(calls + [call]) == Delivered(calls) + (if call.out.Got? then [call.out.request] else [])
    decreases |calls|
  {
    hide ReadStep;
    if calls == [] {
      assert [] + [call] == [call] && [call][1..] == [];
      var got := if call.out.Got? then [call.out.request] else [];
      assert got + [] == got && [] + got == got;
    } else {
      assert (calls + [call])[0] == calls[0] && (calls + [call])[1..] == calls[1..] + [call];
      RunSnoc(cap, limit, calls[0].after, calls[1..], call);
      var head := if calls[0].out.Got? then [calls[0].out.request] else [];
      var got := if call.out.Got? then [call.out.request] else [];
      assert head + (Delivered(calls[1..]) + got) == head + Delivered(calls[1..]) + got;
    }
  }

  /** One call takes exactly the frame it delivers. */
  lemma StepFrames(cap: nat, limit: nat, u: bytes, out: Outcome, u': bytes)
    requires ReadStep(cap, limit, u, out, u')
    ensures if out.Got? then
        out.request.size <= |u| && u' == u[out.request.size..]
        && Frames(cap, limit, u) == [out.request] + Frames(cap, limit, u')
      else u' == u
  {
    hide GetRequestSize, ScanRequest;
    if out.Got? {
      DeliveredFrame(cap, limit, u);
      hide New;
    }
  }

  lemma DeliveredFrame(cap: nat, limit: nat, u: bytes)
    requires Deliverable(cap, limit, u)
    ensures New(u[..GetRequestSize(u).total]).request.size == GetRequestSize(u).total <= |u|
  {
  }

  /** A delivered request has the body it announces. */
  lemma DeliveredBody(cap: nat, limit: nat, u: bytes)
    requires Deliverable(cap, limit, u)
    ensures BodyAnnounced(New(u[..GetRequestSize(u).total]).request)
  {
    hide ContentLength, ScanHeaders, Find, FindFrom, ParseUsize, FirstNamed, NoneNamed, ParseRequestLine;
    var total := GetRequestSize(u).total;
    PrefixScan(u, total);
    FirstContentLength(ScanRequest(u).headers);
  }

  /** Two runs over the same stream never disagree: one delivers a prefix of the other. */
  lemma SchedulesAgree(cap: nat, limit: nat, u: bytes, a: seq<Call>, b: seq<Call>)
    requires IsRun(cap, limit, u, a) && IsRun(cap, limit, u, b)
    requires |Delivered(a)| <= |Delivered(b)|
    ensures Delivered(a) <= Delivered(b)
  {
    hide Frames, IsRun;
    RunRefinesFraming(cap, limit, u, a);
    RunRefinesFraming(cap, limit, u, b);
    SharedPrefix(Delivered(a), Frames(cap, limit, Left(u, a)), Delivered(b), Frames(cap, limit, Left(u, b)));
  }

  /** If only less than a whole further request is left, the run delivered every frame. */
  lemma CompleteRun(cap: nat, limit: nat, u: bytes, calls: seq<Call>)
    requires IsRun(cap, limit, u, calls) && Frames(cap, limit, Left(u, calls)) == []
    ensures Delivered(calls) == Frames(cap, limit, u)
  {
    RunRefinesFraming(cap, limit, u, calls);
    assert Delivered(calls) + [] == Delivered(calls);
  }
}
