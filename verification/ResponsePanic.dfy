/** The reader of responses does panic: on every illegal body it can be fed, and on a concrete response. */
module ResponsePanic {
  import opened Bytes
  import opened Buffers
  import opened HttpHead
  import opened ResponseFraming
  import Spec = ChunkedSpec
  import Hex
  import ResponseReader

  /** All events deliver as much as fits a buffer of this capacity. */
  predicate Greedy(schedule: seq<ReadEvent>, cap: nat) {
    forall i :: 0 <= i < |schedule| ==> schedule[i] == Arrives(cap)
  }

  /** What the feeding loop keeps: everything fed is undelivered, and a probe holds the first size line. */
  ghost predicate Feeding(reader: ResponseReader.Reader, stream: Stream, w: bytes, cap: nat)
    reads reader, reader.header, reader.header.buf, stream,
          if reader.state.ReadChunkedBody? then {reader.state.chunks} else {}, reader.StateObjects()
  {
    && reader.Valid() && stream !in reader.StateObjects()
    && reader.header.cap == cap && reader.Undelivered(stream) == w
    && Greedy(stream.schedule, cap) && Flowing(stream.schedule, stream.incoming)
    && (!reader.state.Empty? ==> Find(reader.probe, CR_LF).Some?)
  }

  /** The stream ends inside an illegal body whose first size line fits the header buffer with the head. */
  ghost predicate EndsIllegal(w: bytes, cap: nat) {
    && cap >= 16 && FirstLineFits(cap, w)
    && Spec.Decode([], w[Frame(w).at..]).state == Spec.IllegalBody
  }

  /**
   * Fed with any stream that ends in an illegal body, as many bytes at a time as the buffer takes, the reader
   * panics: this is what the other half of the exact condition means for the code.
   */
  method FeedIllegal(w: bytes, cap: nat) returns (out: Outcome)
    requires EndsIllegal(w, cap)
    ensures out == Failure(Panicked)
  {
    hide EndsIllegal, Feeding, Frame, ResponseReader.Reader.Valid;
    var reader, stream := Start(w, cap);
    while true
      invariant Feeding(reader, stream, w, cap) && fresh(reader) && fresh(stream) && fresh(reader.header)
      invariant fresh(reader.header.buf) && fresh(reader.StateObjects())
      decreases |stream.schedule|
    {
      out := FeedOnce(reader, stream, w, cap);
      if out == Failure(Panicked) {
        return;
      }
    }
  }

  method Start(w: bytes, cap: nat) returns (reader: ResponseReader.Reader, stream: Stream)
    ensures Feeding(reader, stream, w, cap) && fresh(reader) && fresh(stream) && fresh(reader.header)
    ensures fresh(reader.header.buf) && fresh(reader.StateObjects())
  {
    stream := new Stream(w, seq(|w|, _ => Arrives(cap)), []);
    reader := new ResponseReader.Reader(cap);
    assert reader.Undelivered(stream) == w by { assert [] + [] + w == w; }
  }

  /** One call: it panics, or there is more to read. */
  method FeedOnce(reader: ResponseReader.Reader, stream: Stream, w: bytes, cap: nat) returns (out: Outcome)
    requires EndsIllegal(w, cap) && Feeding(reader, stream, w, cap)
    modifies reader, reader.header, reader.header.buf, stream`incoming, stream`schedule, reader.StateObjects()
    ensures fresh(reader.StateObjects() - old(reader.StateObjects()))
    ensures out == Failure(Panicked) || (Feeding(reader, stream, w, cap) && |stream.schedule| < |old(stream.schedule)|)
  {
    hide CallStep, ResponseReader.IllegalSoFar, ResponseReader.HeadTooLarge, ResponseReader.EmptyBodyIff, EndsIllegal;
    hide ResponseReader.Reader.Valid, ResponseReader.Reader.NextProbe, Frame, Greedy, Find, Ended, Used;
    ghost var before := stream.schedule;
    ProbeHasLine(reader, stream, w, cap);
    LongEnough(w, cap);
    out := reader.ReadFrom(stream);
    GreedyLeft(before, stream.schedule, cap);
    StepAnswers(w, cap, out, reader.Undelivered(stream), reader.probe);
  }

  lemma LongEnough(w: bytes, cap: nat)
    requires EndsIllegal(w, cap)
    ensures cap >= 16
  {
    hide Frame;
  }

  /** A reader that looks for the head finds it with the first size line behind it. */
  lemma ProbeHasLine(reader: ResponseReader.Reader, stream: Stream, w: bytes, cap: nat)
    requires EndsIllegal(w, cap) && Feeding(reader, stream, w, cap)
    ensures Find(reader.NextProbe(stream), CR_LF).Some?
  {
    hide Frame, Find, Spec.Decode, ResponseReader.BodyStarted, ResponseReader.ChunksStarted, HeadFits;
    if reader.state.Empty? {
      var seen := reader.Seen(stream);
      SeenAll(reader, stream, w, cap);
      LineInFront(w, cap, |seen|);
    }
  }

  /** The next read fills the buffer or takes the rest of the stream. */
  lemma SeenAll(reader: ResponseReader.Reader, stream: Stream, w: bytes, cap: nat)
    requires Feeding(reader, stream, w, cap) && reader.state.Empty?
    ensures reader.Seen(stream) == w[..if |w| <= cap then |w| else cap]
  {
    hide Find, ResponseReader.BodyStarted, ResponseReader.ChunksStarted, HeadFits;
    var header := reader.header;
    assert [] + header.Contents() + stream.incoming == header.Contents() + stream.incoming;
    if stream.incoming != [] {
      assert stream.schedule[0] == Arrives(cap);
    }
    assert |reader.Seen(stream)| == if |w| <= cap then |w| else cap;
    assert reader.Seen(stream) == w[..|reader.Seen(stream)|];
  }

  lemma LineInFront(w: bytes, cap: nat, n: nat)
    requires FirstLineFits(cap, w) && n == if |w| <= cap then |w| else cap
    ensures Frame(w[..n]).Open? && Frame(w[..n]) == Frame(w) && Find(w[..n][Frame(w).at..], CR_LF).Some?
  {
    hide Frame;
    var at, seen := Frame(w).at, w[..n];
    HeadIn(w, n);
    var behind := w[at..];
    var line := Find(behind, CR_LF).value;
    assert seen[at..] == behind[..n - at];
    assert At(seen[at..], CR_LF, line) by { assert seen[at..][line..line + 2] == behind[line..line + 2]; }
  }

  /** A head is found in every prefix that holds it. */
  lemma HeadIn(w: bytes, n: nat)
    requires Frame(w).Open? && Frame(w).at <= n <= |w|
    ensures Frame(w[..n]) == Frame(w)
  {
    hide Frame;
    var at := Frame(w).at;
    FrameHead(w);
    assert w[..n] == w[..at] + w[at..n];
    FrameStable(w[..at], w[at..n]);
  }

  lemma GreedyLeft(before: seq<ReadEvent>, after: seq<ReadEvent>, cap: nat)
    requires Greedy(before, cap) && Used(before, after)
    ensures Greedy(after, cap) && !Ended(before, after)
  {
  }

  /** Nothing but blocking or a panic is possible, and once everything was read only a panic. */
  lemma StepAnswers(w: bytes, cap: nat, out: Outcome, u': bytes, probe: bytes)
    requires EndsIllegal(w, cap) && CallStep(cap, w, Call(out, u', probe))
    requires out == Failure(ReadEOF) || Find(probe, CR_LF).Some?
    requires out == Failure(ReadEOF) ==> ResponseReader.HeadTooLarge(cap, w)
    ensures (out.NotYet? && u' == w) || out == Failure(Panicked)
    ensures ResponseReader.IllegalSoFar(w, |w|)
  {
    hide Frame, Spec.Decode, Find, HeadFits;
    var at := Frame(w).at;
    assert w[at..][..|w| - at] == w[at..];
    if |w| >= cap {
      HeadIn(w, cap);
    }
  }

  /** Whenever the next response is not harmless, the stream up to some byte makes the reader panic. */
  lemma WildPrefix(cap: nat, u: bytes) returns (n: nat)
    requires cap >= 16 && !HarmlessHere(cap, u)
    ensures n <= |u| && EndsIllegal(u[..n], cap)
  {
    hide Frame, Find, Spec.Decode, Spec.Harmless;
    var at := Frame(u).at;
    var v := u[at..];
    Spec.HarmlessIff(v);
    var k :| Spec.IllegalAt(v, k);
    var line := LineIsNeeded(v, k);
    n := at + k;
    HeadIn(u, n);
    assert u[..n][at..] == v[..k] && v == v[..k] + v[k..];
    Spec.FirstLine(v[..k]);
    FindStable(v[..k], v[k..], CR_LF, 0);
    FindIsFindFrom(v[..k], CR_LF);
    FindIsFindFrom(v, CR_LF);
  }

  // ---- A concrete response ----

  /** "HTTP/1.1 200", and behind the empty line "z" where a chunk size should be. */
  const STATUS_LINE: bytes := HTTP_1 + [49] + SP + [50, 48, 48]
  const BAD_CHUNKS: bytes := [122] + CR_LF

  lemma StatusLine(rest: bytes)
    ensures var u := STATUS_LINE + CR_LF + (CR_LF + rest);
      Frame(u) == Open(ResponseHead(200, []), 16) && u[16..] == rest
  {
    var u := STATUS_LINE + CR_LF + (CR_LF + rest);
    assert STATUS_LINE == [72, 84, 84, 80, 47, 49, 46, 49, 32, 50, 48, 48];
    assert Find(u, CR_LF_2) == Some(12) by {
      assert u[12..16] == CR_LF_2;
      assert At(u, CR_LF_2, 12);
      forall j | 0 <= j < 12
        ensures !At(u, CR_LF_2, j)
      {
        assert u[j] == STATUS_LINE[j] != 13;
        assert j + 4 <= |u| ==> u[j..j + 4][0] == u[j];
      }
    }
    var head := u[..16];
    assert head == STATUS_LINE + CR_LF + CR_LF;
    HeadOfStatusLine();
    assert u[..12 + 4] == head;
  }

  lemma HeadOfStatusLine()
    ensures FromHead(STATUS_LINE + CR_LF + CR_LF) == Some(ResponseHead(200, []))
  {
    var head := STATUS_LINE + CR_LF + CR_LF;
    assert STATUS_LINE == [72, 84, 84, 80, 47, 49, 46, 49, 32, 50, 48, 48];
    assert head == [72, 84, 84, 80, 47, 49, 46, 49, 32, 50, 48, 48, 13, 10, 13, 10];
    hide DecimalValue, FindFrom, Find, ParseHeaderLine;
    assert Find(head, CR_LF) == Some(12) by {
      FindAfterPlain([], STATUS_LINE, CR_LF);
      assert [] + STATUS_LINE + CR_LF + CR_LF == head;
      FindIsFindFrom(head, CR_LF);
    }
    assert head[..7] == HTTP_1 && head[8..9] == SP;
    assert head[9..12] == [50, 48, 48];
    TwoHundred();
    assert ScanHeaders(head, 14, []) == Complete(16, []) by {
      assert At(head, CR_LF, 14) by { assert head[14..16] == CR_LF; }
    }
  }

  lemma TwoHundred()
    ensures DecimalValue([50, 48, 48]) == Some(200)
  {
    assert [50, 48, 48][..2] == [50, 48] && [50, 48][..1] == [50] && [50][..0] == [];
    assert DecimalValue([50]) == Some(2) && DecimalValue([50, 48]) == Some(20);
  }

  lemma BadChunks()
    ensures Find(BAD_CHUNKS, CR_LF) == Some(1) && Spec.Decode([], BAD_CHUNKS).state == Spec.IllegalBody
  {
    FindAfterPlain([], [122], []);
    assert [] + [122] + CR_LF + [] == BAD_CHUNKS;
    FindIsFindFrom(BAD_CHUNKS, CR_LF);
    hide Find;
    assert BAD_CHUNKS[..1] == [122];
    assert !Hex.AllHex([122]) by { assert !Hex.IsHexDigit([122][0]); }
  }

  /** With the library's buffer size this response makes the reader panic. */
  lemma PanicWitness()
    ensures var w := STATUS_LINE + CR_LF + (CR_LF + BAD_CHUNKS);
      EndsIllegal(w, 8096) && !Tame(8096, w)
  {
    var w := STATUS_LINE + CR_LF + (CR_LF + BAD_CHUNKS);
    StatusLine(BAD_CHUNKS);
    BadChunks();
    hide Frame, Find, Spec.Decode;
    assert BAD_CHUNKS[..3] == BAD_CHUNKS;
    assert Spec.IllegalAt(BAD_CHUNKS, 3);
    Spec.HarmlessIff(BAD_CHUNKS);
  }
}
