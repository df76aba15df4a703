/**
 * The resumable chunked-body decoder as a function of its state and input, and what holds of it
 * however the input is cut into reads (RFC 7230, section 4.1).
 */
module ChunkedSpec {
  import opened Bytes
  import opened Hex

  /** A chunk buffer: capacity length+2 while filling, length once sealed, 0 for the last chunk. */
  datatype ChunkBuffer = Chunk(data: bytes, cap: nat)
  type Chunk = c: ChunkBuffer | |c.data| <= c.cap witness ChunkBuffer.Chunk([], 0)

  datatype ChunkState = NotChunked | BufferNotEnough | Finished | IllegalBody
  datatype Decoded = Decoded(chunks: seq<Chunk>, rest: bytes, state: ChunkState)

  predicate Suspended(state: ChunkState) {
    state == BufferNotEnough || state == Finished
  }

  predicate Full(c: Chunk) {
    |c.data| == c.cap
  }

  function Last(chunks: seq<Chunk>): Chunk
    requires chunks != []
  {
    chunks[|chunks| - 1]
  }

  predicate EndsWith(s: bytes, pat: bytes) {
    |pat| <= |s| && s[|s| - |pat|..] == pat
  }

  datatype Header = Line(length: nat, used: nat) | NoLine | BadLine

  ghost function ReadHeader(buf: bytes): (h: Header)
    ensures h.Line? ==> 2 <= h.used <= |buf| && h.length < USIZE
  {
    match Find(buf, CR_LF)
    case None => NoLine
    case Some(i) =>
      match ParseHex(buf[..i])
      case Value(n) => HexValueFits(buf[..i]); Line(n, i + 2)
      case _ => BadLine
  }

  datatype Step = Continue(chunks: seq<Chunk>, used: nat) | Stop(chunks: seq<Chunk>, used: nat, state: ChunkState)

  predicate AtHeader(chunks: seq<Chunk>) {
    chunks == [] || (Last(chunks).cap != 0 && Full(Last(chunks)))
  }

  /** One iteration of the decoding loop. */
  ghost function Next(chunks: seq<Chunk>, buf: bytes): (s: Step)
    requires buf != []
    ensures s.used <= |buf|
    ensures s.Continue? ==> s.used > 0
    ensures s.Stop? && s.state == Finished ==> s.chunks == chunks != [] && s.used == 0 && Last(chunks).cap == 0
    ensures s.Stop? && s.state == BufferNotEnough ==>
      s.chunks == chunks && s.used == 0 && AtHeader(chunks) && ReadHeader(buf).NoLine? && |buf| < 16
  {
    if AtHeader(chunks) then
      match ReadHeader(buf)
      case Line(length, used) => Continue(chunks + [Chunk([], (length + 2) % USIZE)], used)
      case NoLine =>
        Stop(chunks, 0, if |buf| < 16 then BufferNotEnough else if chunks == [] then NotChunked else IllegalBody)
      case BadLine => Stop(chunks, 0, IllegalBody)
    else if Last(chunks).cap == 0 then Stop(chunks, 0, Finished)
    else
      FillNext(chunks[..|chunks| - 1], Last(chunks), buf)
  }

  function FillNext(before: seq<Chunk>, filling: Chunk, buf: bytes): (s: Step)
    requires buf != [] && !Full(filling)
    ensures 0 < s.used <= |buf|
  {
    var (chunk, used, bad) := FillOne(filling, buf);
    if bad then Stop(before + [chunk], used, IllegalBody) else Continue(before + [chunk], used)
  }

  /** Fills one buffer; when that completes it, drops the CRLF and seals it, or finds no CRLF there. */
  function FillOne(filling: Chunk, buf: bytes): (r: (Chunk, nat, bool))
    ensures r.1 == Fill(filling, buf).1
  {
    var (chunk, used) := Fill(filling, buf);
    if !Full(chunk) then (chunk, used, false)
    else if !EndsWith(chunk.data, CR_LF) then (chunk, used, true)
    else (Seal(chunk), used, false)
  }

  predicate Filling(chunks: seq<Chunk>) {
    chunks != [] && !Full(Last(chunks))
  }

  function Fill(chunk: Chunk, buf: bytes): (r: (Chunk, nat))
    ensures r.0.cap == chunk.cap && r.1 <= |buf| && (!Full(chunk) && buf != [] ==> r.1 > 0)
  {
    var room := chunk.cap - |chunk.data|;
    var n := if |buf| < room then |buf| else room;
    (Chunk(chunk.data + buf[..n], chunk.cap), n)
  }

  function Seal(chunk: Chunk): Chunk
    requires Full(chunk) && chunk.cap >= 2
  {
    Chunk(chunk.data[..chunk.cap - 2], chunk.cap - 2)
  }

  lemma NextFills(chunks: seq<Chunk>, buf: bytes)
    requires buf != [] && Filling(chunks)
    ensures var (c, used, bad) := FillOne(Last(chunks), buf);
      var after := chunks[..|chunks| - 1] + [c];
      Next(chunks, buf) == if bad then Stop(after, used, IllegalBody) else Continue(after, used)
  {
  }

  lemma NextReadsHeader(chunks: seq<Chunk>, buf: bytes)
    requires buf != [] && AtHeader(chunks)
    ensures Next(chunks, buf) == match ReadHeader(buf)
      case Line(length, used) => Continue(chunks + [Chunk([], (length + 2) % USIZE)], used)
      case NoLine =>
        Stop(chunks, 0, if |buf| < 16 then BufferNotEnough else if chunks == [] then NotChunked else IllegalBody)
      case BadLine => Stop(chunks, 0, IllegalBody)
  {
  }

  ghost function Decode(chunks: seq<Chunk>, buf: bytes): (d: Decoded)
    decreases |buf|
  {
    if buf == [] then
      Decoded(chunks, buf, if chunks != [] && Last(chunks).cap == 0 then Finished else BufferNotEnough)
    else
      match Next(chunks, buf)
      case Continue(c, used) => Decode(c, buf[used..])
      case Stop(c, used, state) => Decoded(c, buf[used..], state)
  }

  function Body(chunks: seq<Chunk>): bytes {
    if chunks == [] then [] else chunks[0].data + Body(chunks[1..])
  }

  // ---- Representation invariant ----

  /** Every chunk before the last is sealed and non-empty. */
  predicate Sealed(chunks: seq<Chunk>) {
    forall i :: 0 <= i < |chunks| ==> Full(chunks[i]) && chunks[i].cap > 0
  }

  predicate WellFormed(chunks: seq<Chunk>) {
    chunks == [] || Sealed(chunks[..|chunks| - 1])
  }

  /**
   * The decoder keeps its invariant, only ever takes from the front of the input, and when it
   * suspends it leaves fewer than 16 bytes, none of them a complete size line.
   */
  lemma {:induction false} DecoderInvariant(chunks: seq<Chunk>, buf: bytes)
    requires WellFormed(chunks)
    ensures var d := Decode(chunks, buf);
      && WellFormed(d.chunks)
      && |d.rest| <= |buf| && d.rest == buf[|buf| - |d.rest|..]
      && (d.state == Finished ==> d.chunks != [] && Last(d.chunks) == Chunk([], 0))
      && (d.state == BufferNotEnough ==>
            && |d.rest| < 16 && Find(d.rest, CR_LF).None?
            && (d.chunks != [] ==> Last(d.chunks).cap > 0)
            && (d.rest != [] ==> AtHeader(d.chunks)))
    decreases |buf|
  {
    hide Next, WellFormed, AtHeader, ReadHeader;
    if buf != [] {
      StepInvariant(chunks, buf);
      var s := Next(chunks, buf);
      if s.Continue? {
        DecoderInvariant(s.chunks, buf[s.used..]);
        var d := Decode(s.chunks, buf[s.used..]);
        assert buf[s.used..][|buf[s.used..]| - |d.rest|..] == buf[|buf| - |d.rest|..];
      } else {
        assert buf[|buf| - |buf[s.used..]|..] == buf[s.used..];
      }
    }
  }

  lemma StepInvariant(chunks: seq<Chunk>, buf: bytes)
    requires buf != [] && WellFormed(chunks)
    ensures var s := Next(chunks, buf);
      && WellFormed(s.chunks)
      && (s.Stop? && s.state == BufferNotEnough ==>
            Find(buf, CR_LF).None? && (chunks != [] ==> Last(chunks).cap > 0))
  {
    if Filling(chunks) {
      var s := Next(chunks, buf);
      assert s.chunks[..|s.chunks| - 1] == chunks[..|chunks| - 1];
    } else if AtHeader(chunks) {
      var s := Next(chunks, buf);
      if s.Continue? {
        assert s.chunks[..|s.chunks| - 1] == chunks;
      }
    }
  }

  /** Once a size line was read the answer is never NotChunked. */
  lemma {:induction false} ChunkedStays(chunks: seq<Chunk>, buf: bytes)
    requires chunks != []
    ensures Decode(chunks, buf).chunks != [] && Decode(chunks, buf).state != NotChunked
    decreases |buf|
  {
    if buf != [] {
      NextStays(chunks, buf);
      hide Next;
      var s := Next(chunks, buf);
      if s.Continue? {
        ChunkedStays(s.chunks, buf[s.used..]);
      }
    }
  }

  lemma NextStays(chunks: seq<Chunk>, buf: bytes)
    requires buf != [] && (chunks != [] || Find(buf, CR_LF).Some?)
    ensures var s := Next(chunks, buf);
      && (s.Continue? ==> s.chunks != [])
      && (s.Stop? ==> s.state != NotChunked)
      && (s.Stop? ==> if chunks == [] then s.state == IllegalBody else s.chunks != [])
  {
    hide FillOne, ReadHeader;
    if chunks == [] {
      HeaderFound(buf);
    }
  }

  lemma HeaderFound(buf: bytes)
    ensures ReadHeader(buf).NoLine? <==> Find(buf, CR_LF).None?
  {
  }

  /**
   * From the start, a CRLF in the input means a size line is read or the body is illegal; without one
   * nothing is taken.
   */
  lemma FirstLine(buf: bytes)
    ensures Find(buf, CR_LF).Some? ==>
      var d := Decode([], buf); d.state != NotChunked && (d.state != IllegalBody ==> d.chunks != [] && |d.rest| < |buf|)
    ensures Find(buf, CR_LF).None? ==>
      Decode([], buf) == Decoded([], buf, if |buf| < 16 then BufferNotEnough else NotChunked)
  {
    if Find(buf, CR_LF).Some? {
      NextStays([], buf);
      hide Next, Find;
      var s := Next([], buf);
      if s.Continue? {
        ChunkedStays(s.chunks, buf[s.used..]);
        TakesFromFront(s.chunks, buf[s.used..]);
      }
    } else {
      HeaderFound(buf);
      assert buf[0..] == buf;
    }
  }

  lemma {:induction false} TakesFromFront(chunks: seq<Chunk>, buf: bytes)
    ensures |Decode(chunks, buf).rest| <= |buf|
    decreases |buf|
  {
    hide Next;
    if buf != [] && Next(chunks, buf).Continue? {
      TakesFromFront(Next(chunks, buf).chunks, buf[Next(chunks, buf).used..]);
    }
  }

  // ---- Independence of segmentation ----

  lemma HeaderExtends(xs: bytes, ys: bytes)
    requires !ReadHeader(xs).NoLine?
    ensures ReadHeader(xs + ys) == ReadHeader(xs)
  {
    FindStable(xs, ys, CR_LF, 0);
    var i := Find(xs, CR_LF).value;
    assert (xs + ys)[..i] == xs[..i];
  }

  lemma FillExtends(chunk: Chunk, xs: bytes, ys: bytes)
    ensures Full(Fill(chunk, xs).0) ==> Fill(chunk, xs + ys) == Fill(chunk, xs)
    ensures var (c, n) := Fill(chunk, xs);
      !Full(c) ==> n == |xs| && Fill(chunk, xs + ys) == (Fill(c, ys).0, |xs| + Fill(c, ys).1)
  {
    var (c, n) := Fill(chunk, xs);
    if Full(c) {
      assert (xs + ys)[..n] == xs[..n];
    } else {
      var (c2, m) := Fill(c, ys);
      assert (xs + ys)[..|xs| + m] == xs + ys[..m];
      assert chunk.data + (xs + ys[..m]) == c.data + ys[..m];
    }
  }

  /** The last chunk takes all of `xs` without becoming full. */
  predicate RunsDry(chunks: seq<Chunk>, xs: bytes) {
    Filling(chunks) && !Full(Fill(Last(chunks), xs).0)
  }

  /** A step that does not run out of input is the same with more input behind it. */
  lemma NextExtends(chunks: seq<Chunk>, xs: bytes, ys: bytes)
    requires xs != []
    requires AtHeader(chunks) ==> !ReadHeader(xs).NoLine?
    requires !RunsDry(chunks, xs)
    ensures Next(chunks, xs + ys) == Next(chunks, xs)
  {
    if AtHeader(chunks) {
      HeaderExtends(xs, ys);
    } else if Filling(chunks) {
      FillExtends(Last(chunks), xs, ys);
    }
  }

  /** A suspended decoder resumed on its leftover and more input ends as if it had seen it all at once. */
  lemma {:induction false} SplitInvariance(chunks: seq<Chunk>, xs: bytes, ys: bytes)
    requires Decode(chunks, xs).state == BufferNotEnough
    ensures var d := Decode(chunks, xs); Decode(chunks, xs + ys) == Decode(d.chunks, d.rest + ys)
    decreases |xs|
  {
    hide Next, RunsDry, AtHeader, ReadHeader;
    if xs == [] {
      assert [] + ys == ys;
    } else if Next(chunks, xs).Stop? {
      assert xs[0..] == xs;
    } else if RunsDry(chunks, xs) {
      PartialFill(chunks, xs, ys);
    } else {
      ContinueExtends(chunks, xs, ys);
      var s := Next(chunks, xs);
      assert (xs + ys)[s.used..] == xs[s.used..] + ys;
      SplitInvariance(s.chunks, xs[s.used..], ys);
    }
  }

  lemma DryStep(chunks: seq<Chunk>, xs: bytes)
    requires xs != [] && RunsDry(chunks, xs)
    ensures var dry := chunks[..|chunks| - 1] + [Fill(Last(chunks), xs).0];
      && Next(chunks, xs) == Continue(dry, |xs|)
      && Decode(chunks, xs) == Decoded(dry, [], BufferNotEnough)
      && Filling(dry) && !AtHeader(chunks)
  {
  }

  /** Filling with `xs`, running dry and filling with `ys` is one step on both. */
  lemma TwoFills(chunks: seq<Chunk>, xs: bytes, ys: bytes)
    requires xs != [] && ys != [] && RunsDry(chunks, xs)
    ensures var dry := chunks[..|chunks| - 1] + [Fill(Last(chunks), xs).0];
      var s, t := Next(chunks, xs + ys), Next(dry, ys);
      s.used == |xs| + t.used && s == t.(used := s.used) && !AtHeader(dry)
  {
    var chunk := Last(chunks);
    var before := chunks[..|chunks| - 1];
    var c := Fill(chunk, xs).0;
    FillExtends(chunk, xs, ys);
    assert (before + [c])[..|before|] == before;
    assert Next(chunks, xs + ys) == FillNext(before, chunk, xs + ys);
    assert Next(before + [c], ys) == FillNext(before, c, ys);
  }

  lemma PartialFill(chunks: seq<Chunk>, xs: bytes, ys: bytes)
    requires xs != [] && RunsDry(chunks, xs)
    ensures var d := Decode(chunks, xs);
      && d.state == BufferNotEnough && d.rest == []
      && Decode(chunks, xs + ys) == Decode(d.chunks, d.rest + ys)
  {
    hide Next, RunsDry, Fill, AtHeader, ReadHeader;
    DryStep(chunks, xs);
    assert [] + ys == ys;
    if ys == [] {
      assert xs + ys == xs;
    } else {
      TwoFills(chunks, xs, ys);
      var d := Decode(chunks, xs);
      var t := Next(d.chunks, ys);
      assert (xs + ys)[|xs| + t.used..] == ys[t.used..];
    }
  }

  /** A finished decoder leaves everything behind the body alone. */
  lemma {:induction false} FinishedExtends(chunks: seq<Chunk>, xs: bytes, ys: bytes)
    requires Decode(chunks, xs).state == Finished
    ensures var d := Decode(chunks, xs); Decode(chunks, xs + ys) == Decoded(d.chunks, d.rest + ys, Finished)
    decreases |xs|
  {
    hide Next, RunsDry, AtHeader, ReadHeader;
    if xs == [] {
      assert [] + ys == ys && ys[0..] == ys;
      if ys != [] {
        CapZeroStops(chunks, ys);
      }
    } else if Next(chunks, xs).Stop? {
      CapZeroStops(chunks, xs + ys);
      assert (xs + ys)[0..] == xs + ys && xs[0..] == xs;
    } else {
      ContinueExtends(chunks, xs, ys);
      var s := Next(chunks, xs);
      if !RunsDry(chunks, xs) {
        assert (xs + ys)[s.used..] == xs[s.used..] + ys;
        FinishedExtends(s.chunks, xs[s.used..], ys);
      }
    }
  }

  lemma CapZeroStops(chunks: seq<Chunk>, xs: bytes)
    requires xs != [] && chunks != [] && Last(chunks).cap == 0
    ensures Next(chunks, xs) == Stop(chunks, 0, Finished)
  {
  }

  /** A step that goes on either ran dry or is the same with more input behind it. */
  lemma ContinueExtends(chunks: seq<Chunk>, xs: bytes, ys: bytes)
    requires xs != [] && Next(chunks, xs).Continue?
    ensures RunsDry(chunks, xs) ==> Decode(chunks, xs).state == BufferNotEnough
    ensures !RunsDry(chunks, xs) ==> Next(chunks, xs + ys) == Next(chunks, xs)
  {
    if RunsDry(chunks, xs) {
      DryStep(chunks, xs);
    } else {
      NextExtends(chunks, xs, ys);
    }
  }

  /** The reader over a list of TCP segments: leftover bytes stay in front of the next segment. */
  ghost function Run(chunks: seq<Chunk>, pending: bytes, segments: seq<bytes>): Decoded
    decreases |segments|
  {
    if segments == [] then Decode(chunks, pending)
    else
      var d := Decode(chunks, pending + segments[0]);
      if d.state == BufferNotEnough then Run(d.chunks, d.rest, segments[1..])
      else Decoded(d.chunks, d.rest + Flatten(segments[1..]), d.state)
  }

  /** As long as no segment is rejected, the run equals one decode of the whole input. */
  lemma {:induction false} RunIsDecode(chunks: seq<Chunk>, pending: bytes, segments: seq<bytes>)
    requires Suspended(Run(chunks, pending, segments).state)
    ensures Run(chunks, pending, segments) == Decode(chunks, pending + Flatten(segments))
    decreases |segments|
  {
    hide Next, AtHeader, Decode, LinesShort;
    if segments == [] {
      assert pending + Flatten(segments) == pending;
    } else {
      var xs, ys := pending + segments[0], Flatten(segments[1..]);
      assert pending + Flatten(segments) == xs + ys;
      var d := Decode(chunks, xs);
      if d.state == BufferNotEnough {
        RunIsDecode(d.chunks, d.rest, segments[1..]);
        SplitInvariance(chunks, xs, ys);
      } else {
        FinishedExtends(chunks, xs, ys);
      }
    }
  }

  /** Every size line the decoder meets in `buf` has at most 14 bytes. */
  ghost predicate LinesShort(chunks: seq<Chunk>, buf: bytes)
    decreases |buf|
  {
    buf == [] ||
    match Next(chunks, buf)
    case Continue(c, used) => (AtHeader(chunks) ==> used <= 16) && LinesShort(c, buf[used..])
    case Stop(_, _, _) => true
  }

  /** With short size lines no prefix of an acceptable input is rejected, and the prefix has short lines too. */
  lemma {:induction false} ShortLinesNeverRejected(chunks: seq<Chunk>, buf: bytes, k: nat)
    requires Suspended(Decode(chunks, buf).state) && LinesShort(chunks, buf) && k <= |buf|
    ensures Suspended(Decode(chunks, buf[..k]).state)
    decreases |buf|
  {
    hide Next, RunsDry, AtHeader, ReadHeader;
    var xs, ys := buf[..k], buf[k..];
    assert buf == xs + ys;
    if xs == [] {
    } else if Next(chunks, xs).Stop? {
      StopOnPrefix(chunks, buf, k);
    } else {
      ContinueExtends(chunks, xs, ys);
      var s := Next(chunks, xs);
      if !RunsDry(chunks, xs) {
        assert buf[s.used..][..k - s.used] == xs[s.used..];
        ShortLinesNeverRejected(s.chunks, buf[s.used..], k - s.used);
      }
    }
  }

  lemma StopOnPrefix(chunks: seq<Chunk>, buf: bytes, k: nat)
    requires 0 < k <= |buf| && Next(chunks, buf[..k]).Stop?
    requires Next(chunks, buf).Stop? ==> Suspended(Next(chunks, buf).state)
    requires AtHeader(chunks) && Next(chunks, buf).Continue? ==> Next(chunks, buf).used <= 16
    ensures Suspended(Next(chunks, buf[..k]).state)
  {
    var xs, ys := buf[..k], buf[k..];
    assert buf == xs + ys;
    if AtHeader(chunks) && ReadHeader(xs).NoLine? {
      FindStable(xs, ys, CR_LF, 0);
    } else {
      NextExtends(chunks, xs, ys);
    }
  }

  /** A longer size line is rejected when a read happens to stop inside it. */
  lemma {:induction false} LongLineRejected(chunks: seq<Chunk>, buf: bytes) returns (k: nat)
    requires Suspended(Decode(chunks, buf).state) && !LinesShort(chunks, buf)
    ensures 0 < k <= |buf| && !Suspended(Decode(chunks, buf[..k]).state)
    decreases |buf|
  {
    hide Next, AtHeader, ReadHeader;
    var s := Next(chunks, buf);
    if AtHeader(chunks) && s.used > 16 {
      k := 16;
      LongLineCut(chunks, buf);
      assert buf[..16][0..] == buf[..16];
    } else {
      var rest := buf[s.used..];
      var j := LongLineRejected(s.chunks, rest);
      k := s.used + j;
      assert buf[..k][s.used..] == rest[..j];
      PrefixStep(chunks, buf, k);
    }
  }

  lemma LongLineCut(chunks: seq<Chunk>, buf: bytes)
    requires buf != [] && AtHeader(chunks) && Next(chunks, buf).Continue? && Next(chunks, buf).used > 16
    ensures Next(chunks, buf[..16]).Stop? && !Suspended(Next(chunks, buf[..16]).state)
  {
    var xs, ys := buf[..16], buf[16..];
    assert buf == xs + ys;
    FindStable(xs, ys, CR_LF, 0);
    assert ReadHeader(xs).NoLine?;
  }

  /** A step is already determined by any longer prefix than the bytes it takes. */
  lemma PrefixStep(chunks: seq<Chunk>, buf: bytes, k: nat)
    requires buf != [] && Next(chunks, buf).Continue? && Next(chunks, buf).used < k <= |buf|
    ensures Next(chunks, buf[..k]) == Next(chunks, buf)
  {
    var xs, ys := buf[..k], buf[k..];
    assert buf == xs + ys;
    if AtHeader(chunks) {
      FindStable(xs, ys, CR_LF, 0);
    } else if RunsDry(chunks, xs) {
      FillExtends(Last(chunks), xs, ys);
    }
    NextExtends(chunks, xs, ys);
  }

  /** `Run` on a prefix followed by the rest answers as the prefix does when the prefix is rejected. */
  lemma RejectedAtSplit(buf: bytes, k: nat)
    requires k <= |buf| && !Suspended(Decode([], buf[..k]).state)
    ensures !Suspended(Run([], [], [buf[..k], buf[k..]]).state)
    ensures Flatten([buf[..k], buf[k..]]) == buf
  {
    hide Decode;
    var segments := [buf[..k], buf[k..]];
    assert [] + segments[0] == buf[..k];
    TwoParts(buf[..k], buf[k..]);
  }

  lemma TwoParts(a: bytes, b: bytes)
    ensures Flatten([a, b]) == a + b
  {
    assert [a, b][1..] == [b] && [b][1..] == [];
    assert Flatten([b]) == b + [];
  }

  /** Runs over short-lined input are never rejected. */
  lemma {:induction false} ShortRunNotRejected(chunks: seq<Chunk>, pending: bytes, segments: seq<bytes>)
    requires Suspended(Decode(chunks, pending + Flatten(segments)).state)
    requires LinesShort(chunks, pending + Flatten(segments))
    ensures Suspended(Run(chunks, pending, segments).state)
    decreases |segments|
  {
    hide Next, AtHeader, Decode, LinesShort;
    if segments == [] {
      assert pending + Flatten(segments) == pending;
    } else {
      var xs, ys := pending + segments[0], Flatten(segments[1..]);
      assert pending + Flatten(segments) == xs + ys;
      assert (xs + ys)[..|xs|] == xs;
      ShortLinesNeverRejected(chunks, xs + ys, |xs|);
      var d := Decode(chunks, xs);
      if d.state == BufferNotEnough {
        SplitInvariance(chunks, xs, ys);
        SplitLinesShort(chunks, xs, ys);
        ShortRunNotRejected(d.chunks, d.rest, segments[1..]);
      }
    }
  }

  lemma {:induction false} SplitLinesShort(chunks: seq<Chunk>, xs: bytes, ys: bytes)
    requires Decode(chunks, xs).state == BufferNotEnough && LinesShort(chunks, xs + ys)
    ensures var d := Decode(chunks, xs); LinesShort(d.chunks, d.rest + ys)
    decreases |xs|
  {
    hide Next, RunsDry, AtHeader, ReadHeader;
    if xs == [] {
      assert [] + ys == ys;
    } else if Next(chunks, xs).Stop? {
      assert xs[0..] == xs;
    } else if RunsDry(chunks, xs) {
      PartialFillLines(chunks, xs, ys);
    } else {
      ContinueExtends(chunks, xs, ys);
      var s := Next(chunks, xs);
      assert (xs + ys)[s.used..] == xs[s.used..] + ys;
      SplitLinesShort(s.chunks, xs[s.used..], ys);
    }
  }

  lemma PartialFillLines(chunks: seq<Chunk>, xs: bytes, ys: bytes)
    requires xs != [] && RunsDry(chunks, xs) && LinesShort(chunks, xs + ys)
    ensures var d := Decode(chunks, xs); LinesShort(d.chunks, d.rest + ys)
  {
    hide Next, RunsDry, Fill, AtHeader, ReadHeader;
    DryStep(chunks, xs);
    assert [] + ys == ys;
    if ys != [] {
      TwoFills(chunks, xs, ys);
      var d := Decode(chunks, xs);
      var t := Next(d.chunks, ys);
      assert (xs + ys)[|xs| + t.used..] == ys[t.used..];
    }
  }

  /**
   * Segmentation does not matter exactly when the size lines have at most 14 bytes: for an input
   * the decoder accepts whole, every way of cutting it gives the same chunks, leftover and state
   * if and only if no size line is longer.
   */
  lemma SegmentationIndependence(buf: bytes)
    requires Suspended(Decode([], buf).state)
    ensures (forall segments :: Flatten(segments) == buf ==> Run([], [], segments) == Decode([], buf))
            <==> LinesShort([], buf)
  {
    hide Next, Decode, LinesShort, Run;
    if LinesShort([], buf) {
      forall segments | Flatten(segments) == buf
        ensures Run([], [], segments) == Decode([], buf)
      {
        assert [] + Flatten(segments) == buf;
        ShortRunNotRejected([], [], segments);
        RunIsDecode([], [], segments);
      }
    } else {
      var k := LongLineRejected([], buf);
      RejectedAtSplit(buf, k);
    }
  }

  // ---- Illegal bodies ----

  /** Either no size line ever comes, or the first one is good and the input behind it decodes with short size lines. */
  ghost predicate Harmless(buf: bytes) {
    Find(buf, CR_LF).None? ||
    (&& Next([], buf).Continue?
     && var s := Next([], buf);
        Suspended(Decode(s.chunks, buf[s.used..]).state) && LinesShort(s.chunks, buf[s.used..]))
  }

  /** A decoder fed these bytes up to some point can find the body illegal, if and only if they are not harmless. */
  lemma HarmlessIff(buf: bytes)
    ensures (exists k :: IllegalAt(buf, k)) <==> !Harmless(buf)
  {
    hide Next, LinesShort, Decode, Find, ReadHeader;
    if Find(buf, CR_LF).None? || Harmless(buf) {
      forall k
        ensures !IllegalAt(buf, k)
      {
        if 0 <= k <= |buf| {
          HarmlessPrefix(buf, k);
        }
      }
    } else {
      var k := IllegalCut(buf);
      assert IllegalAt(buf, k);
    }
  }

  ghost predicate IllegalAt(buf: bytes, k: int) {
    0 <= k <= |buf| && Decode([], buf[..k]).state == IllegalBody
  }

  lemma HarmlessPrefix(buf: bytes, k: nat)
    requires k <= |buf| && Harmless(buf)
    ensures !IllegalAt(buf, k)
  {
    hide Next, LinesShort, Decode, ReadHeader;
    var xs, ys := buf[..k], buf[k..];
    assert buf == xs + ys;
    FirstLine(xs);
    FindStable(xs, ys, CR_LF, 0);
    if Find(xs, CR_LF).Some? {
      hide Find;
      HeaderFound(xs);
      NextExtends([], xs, ys);
      var s := Next([], xs);
      assert buf[s.used..][..k - s.used] == xs[s.used..];
      ShortLinesNeverRejected(s.chunks, buf[s.used..], k - s.used);
      DecodeContinues([], xs);
    }
  }

  lemma DecodeContinues(chunks: seq<Chunk>, buf: bytes)
    requires buf != []
    ensures var s := Next(chunks, buf);
      && (s.Continue? ==> Decode(chunks, buf) == Decode(s.chunks, buf[s.used..]))
      && (s.Stop? ==> Decode(chunks, buf).state == s.state)
  {
    hide Next;
  }

  lemma IllegalCut(buf: bytes) returns (k: nat)
    requires !Harmless(buf)
    ensures IllegalAt(buf, k)
  {
    hide Next, LinesShort, Decode, Find;
    NextStays([], buf);
    DecodeContinues([], buf);
    k := |buf|;
    assert buf[..k] == buf;
    var s := Next([], buf);
    if s.Continue? {
      var rest := buf[s.used..];
      ChunkedStays(s.chunks, rest);
      if Suspended(Decode(s.chunks, rest).state) {
        var j := LongLineRejected(s.chunks, rest);
        k := s.used + j;
        assert buf[..k][s.used..] == rest[..j];
        PrefixStep([], buf, k);
        DecodeContinues([], buf[..k]);
        ChunkedStays(s.chunks, rest[..j]);
      }
    }
  }

  // ---- Round trip ----

  /** A body piece with the size line that announces it. */
  datatype Piece = Piece(line: bytes, data: bytes)

  ghost predicate Announces(p: Piece) {
    p.data != [] && |p.data| + 2 < USIZE && ParseHex(p.line) == Value(|p.data|)
  }

  function EncodePieces(pieces: seq<Piece>): bytes {
    if pieces == [] then []
    else pieces[0].line + CR_LF + pieces[0].data + CR_LF + EncodePieces(pieces[1..])
  }

  function PiecesBody(pieces: seq<Piece>): bytes {
    if pieces == [] then [] else pieces[0].data + PiecesBody(pieces[1..])
  }

  function SealedPieces(pieces: seq<Piece>): seq<Chunk> {
    if pieces == [] then [] else [Chunk(pieces[0].data, |pieces[0].data|)] + SealedPieces(pieces[1..])
  }

  /** No size line that the decoder meets announces so much that the two bytes behind the chunk overflow. */
  ghost predicate SizesFit(chunks: seq<Chunk>, buf: bytes)
    decreases |buf|
  {
    buf == [] ||
    match Next(chunks, buf)
    case Continue(c, used) =>
      && (AtHeader(chunks) && ReadHeader(buf).Line? ==> ReadHeader(buf).length + 2 < USIZE)
      && SizesFit(c, buf[used..])
    case Stop(_, _, _) => true
  }

  lemma SealedPiecesBody(pieces: seq<Piece>)
    ensures Body(SealedPieces(pieces) + [Chunk([], 0)]) == PiecesBody(pieces)
  {
    if pieces == [] {
      assert SealedPieces(pieces) + [Chunk([], 0)] == [Chunk([], 0)];
      assert Body([Chunk([], 0)]) == [] + Body([]);
    } else {
      assert (SealedPieces(pieces) + [Chunk([], 0)])[1..] == SealedPieces(pieces[1..]) + [Chunk([], 0)];
      SealedPiecesBody(pieces[1..]);
    }
  }

  lemma ValueLine(line: bytes)
    requires ParseHex(line).Value?
    ensures |line| <= 16 && AllHex(line)
  {
  }

  lemma HeaderOfLine(line: bytes, rest: bytes)
    requires ParseHex(line).Value?
    ensures |line| <= 16 && ReadHeader(line + CR_LF + rest) == Line(ParseHex(line).n, |line| + 2)
  {
    hide ParseHex, Find, FindFrom;
    var buf := line + CR_LF + rest;
    ValueLine(line);
    forall i | 0 <= i < |line|
      ensures line[i] != 13
    {
      assert IsHexDigit(line[i]);
    }
    FindAfterPlain([], line, rest);
    assert [] + line + CR_LF + rest == buf;
    FindIsFindFrom(buf, CR_LF);
    assert buf[..|line|] == line;
  }

  lemma OpenChunk(chunks: seq<Chunk>, line: bytes, length: nat, rest: bytes)
    requires AtHeader(chunks) && length + 2 < USIZE && ParseHex(line) == Value(length)
    ensures Next(chunks, line + CR_LF + rest) == Continue(chunks + [Chunk([], length + 2)], |line| + 2)
    ensures (line + CR_LF + rest)[|line| + 2..] == rest
  {
    HeaderOfLine(line, rest);
  }

  lemma FillAndSeal(before: seq<Chunk>, data: bytes, rest: bytes)
    ensures var buf := data + CR_LF + rest;
      && Next(before + [Chunk([], |data| + 2)], buf) == Continue(before + [Chunk(data, |data|)], |data| + 2)
      && buf[|data| + 2..] == rest
  {
    var buf := data + CR_LF + rest;
    var empty, filled := Chunk([], |data| + 2), Chunk(data + CR_LF, |data| + 2);
    assert [] + buf[..|data| + 2] == data + CR_LF;
    assert Fill(empty, buf) == (filled, |data| + 2);
    assert (data + CR_LF)[|data|..] == CR_LF;
    assert Seal(filled) == Chunk(data, |data|);
    assert (before + [empty])[..|before|] == before;
  }

  /** A whole chunk decodes to one sealed buffer. */
  lemma OneChunk(chunks: seq<Chunk>, line: bytes, data: bytes, rest: bytes)
    requires AtHeader(chunks)
    requires |data| + 2 < USIZE && ParseHex(line) == Value(|data|)
    ensures var buf := line + CR_LF + (data + CR_LF + rest);
      && Decode(chunks, buf) == Decode(chunks + [Chunk(data, |data|)], rest)
      && (|line| <= 14 && LinesShort(chunks + [Chunk(data, |data|)], rest) ==> LinesShort(chunks, buf))
  {
    var behind := data + CR_LF + rest;
    var next := chunks + [Chunk([], |data| + 2)];
    OpenChunk(chunks, line, |data|, behind);
    FillAndSeal(chunks, data, rest);
    assert !AtHeader(next);
    hide Next;
    assert Decode(chunks, line + CR_LF + behind) == Decode(next, behind);
    assert Decode(next, behind) == Decode(chunks + [Chunk(data, |data|)], rest);
    assert LinesShort(chunks + [Chunk(data, |data|)], rest) ==> LinesShort(next, behind);
  }

  lemma SealedIsAtHeader(chunks: seq<Chunk>, data: bytes)
    requires data != []
    ensures AtHeader(chunks + [Chunk(data, |data|)])
  {
  }

  lemma {:induction false} DecodeEncoded(chunks: seq<Chunk>, pieces: seq<Piece>, last: bytes, tail: bytes)
    requires AtHeader(chunks)
    requires forall p :: p in pieces ==> Announces(p)
    requires ParseHex(last) == Value(0)
    ensures var buf := EncodePieces(pieces) + (last + CR_LF + CR_LF + tail);
      && Decode(chunks, buf) == Decoded(chunks + SealedPieces(pieces) + [Chunk([], 0)], tail, Finished)
      && (|last| <= 14 && (forall p :: p in pieces ==> |p.line| <= 14) ==> LinesShort(chunks, buf))
    decreases |pieces|
  {
    hide Next, AtHeader, ParseHex, Pow2, AllHex, Find;
    if pieces == [] {
      assert [] + (last + CR_LF + CR_LF + tail) == last + CR_LF + ([] + CR_LF + tail);
      OneChunk(chunks, last, [], tail);
      assert chunks + [] + [Chunk([], 0)] == chunks + [Chunk([], 0)];
      assert tail[0..] == tail;
      if tail != [] {
        CapZeroStops(chunks + [Chunk([], 0)], tail);
      }
    } else {
      var p := pieces[0];
      assert Announces(p);
      var chunks' := chunks + [Chunk(p.data, |p.data|)];
      SealedIsAtHeader(chunks, p.data);
      DecodeEncoded(chunks', pieces[1..], last, tail);
      OneChunk(chunks, p.line, p.data, EncodePieces(pieces[1..]) + (last + CR_LF + CR_LF + tail));
      EncodedStep(chunks, pieces, last + CR_LF + CR_LF + tail);
    }
  }

  lemma EncodedStep(chunks: seq<Chunk>, pieces: seq<Piece>, end: bytes)
    requires pieces != []
    ensures var p := pieces[0];
      EncodePieces(pieces) + end == p.line + CR_LF + (p.data + CR_LF + (EncodePieces(pieces[1..]) + end))
      && chunks + [Chunk(p.data, |p.data|)] + SealedPieces(pieces[1..]) == chunks + SealedPieces(pieces)
  {
  }

  lemma {:induction false} EncodedFits(chunks: seq<Chunk>, pieces: seq<Piece>, last: bytes, tail: bytes)
    requires AtHeader(chunks)
    requires forall p :: p in pieces ==> Announces(p)
    requires ParseHex(last) == Value(0)
    ensures SizesFit(chunks, EncodePieces(pieces) + (last + CR_LF + CR_LF + tail))
    decreases |pieces|
  {
    hide Next, AtHeader, ParseHex, Pow2, AllHex, Find, SizesFit;
    if pieces == [] {
      assert [] + (last + CR_LF + CR_LF + tail) == last + CR_LF + ([] + CR_LF + tail);
      ZeroFits(chunks, tail);
      OneChunkFits(chunks, last, [], tail);
    } else {
      var p := pieces[0];
      assert Announces(p);
      SealedIsAtHeader(chunks, p.data);
      EncodedFits(chunks + [Chunk(p.data, |p.data|)], pieces[1..], last, tail);
      OneChunkFits(chunks, p.line, p.data, EncodePieces(pieces[1..]) + (last + CR_LF + CR_LF + tail));
      EncodedStep(chunks, pieces, last + CR_LF + CR_LF + tail);
    }
  }

  lemma ZeroFits(chunks: seq<Chunk>, rest: bytes)
    ensures SizesFit(chunks + [Chunk([], 0)], rest)
  {
    hide Next;
    if rest != [] {
      CapZeroStops(chunks + [Chunk([], 0)], rest);
    }
  }

  lemma OneChunkFits(chunks: seq<Chunk>, line: bytes, data: bytes, rest: bytes)
    requires AtHeader(chunks)
    requires |data| + 2 < USIZE && ParseHex(line) == Value(|data|)
    requires SizesFit(chunks + [Chunk(data, |data|)], rest)
    ensures SizesFit(chunks, line + CR_LF + (data + CR_LF + rest))
  {
    var behind := data + CR_LF + rest;
    var next := chunks + [Chunk([], |data| + 2)];
    OpenChunk(chunks, line, |data|, behind);
    HeaderOfLine(line, behind);
    FillAndSeal(chunks, data, rest);
    assert !AtHeader(next);
    hide Next, ReadHeader, AtHeader, ParseHex;
    assert SizesFit(next, behind);
  }

  /** The parts of a header that was found. */
  lemma HeaderParts(buf: bytes)
    requires ReadHeader(buf).Line?
    ensures var n := ReadHeader(buf).used - 2;
      && n + 2 <= |buf| && buf == buf[..n] + CR_LF + buf[n + 2..] && ParseHex(buf[..n]) == Value(ReadHeader(buf).length)
  {
    hide ParseHex;
    var n := Find(buf, CR_LF).value;
    assert buf == buf[..n] + buf[n..n + 2] + buf[n + 2..];
  }

  lemma StepFits(chunks: seq<Chunk>, buf: bytes)
    requires buf != [] && Next(chunks, buf).Continue? && SizesFit(chunks, buf)
    ensures SizesFit(Next(chunks, buf).chunks, buf[Next(chunks, buf).used..])
    ensures AtHeader(chunks) && ReadHeader(buf).Line? ==> ReadHeader(buf).length + 2 < USIZE
  {
    hide Next, ReadHeader, AtHeader;
  }

  lemma EmptyNotFinished(chunks: seq<Chunk>)
    requires AtHeader(chunks)
    ensures Decode(chunks, []).state != Finished
  {
  }

  /** The size line in front of input that decodes. */
  lemma LineTaken(chunks: seq<Chunk>, buf: bytes) returns (line: bytes, length: nat)
    requires AtHeader(chunks) && Decode(chunks, buf).state == Finished && SizesFit(chunks, buf)
    ensures ParseHex(line) == Value(length) && length + 2 < USIZE && |line| + 2 <= |buf|
    ensures var next, rest := chunks + [Chunk([], length + 2)], buf[|line| + 2..];
      && buf == line + CR_LF + rest
      && Decode(chunks, buf) == Decode(next, rest) && SizesFit(next, rest)
  {
    hide Next, ReadHeader, ParseHex, Decode, SizesFit, AtHeader;
    EmptyNotFinished(chunks);
    NextReadsHeader(chunks, buf);
    DecodeContinues(chunks, buf);
    HeaderParts(buf);
    StepFits(chunks, buf);
    line, length := buf[..ReadHeader(buf).used - 2], ReadHeader(buf).length;
  }

  /** The bytes of a chunk and the CRLF behind it, in front of input that decodes. */
  lemma ChunkTaken(chunks: seq<Chunk>, length: nat, buf: bytes)
    requires var open := chunks + [Chunk([], length + 2)];
      Decode(open, buf).state == Finished && SizesFit(open, buf)
    ensures |buf| >= length + 2 && buf[length..length + 2] == CR_LF
    ensures var open, sealed := chunks + [Chunk([], length + 2)], chunks + [Chunk(buf[..length], length)];
      Decode(open, buf) == Decode(sealed, buf[length + 2..]) && SizesFit(sealed, buf[length + 2..])
  {
    hide Next, Decode, SizesFit, AtHeader, FillOne, Filling;
    var open := chunks + [Chunk([], length + 2)];
    OpenState(chunks, length);
    if |buf| < length + 2 {
      DryNotFinished(open, buf);
    } else {
      NextFills(open, buf);
      DecodeContinues(open, buf);
      OpenFilled(length, buf);
      StepFits(open, buf);
    }
  }

  lemma OpenState(chunks: seq<Chunk>, length: nat)
    ensures var open := chunks + [Chunk([], length + 2)];
      Filling(open) && !AtHeader(open) && open[..|open| - 1] == chunks && Last(open) == Chunk([], length + 2)
  {
  }

  lemma OpenNotFinished(open: seq<Chunk>)
    requires Filling(open)
    ensures Decode(open, []).state != Finished
  {
  }

  lemma DryNotFinished(open: seq<Chunk>, buf: bytes)
    requires Filling(open) && |Last(open).data| + |buf| < Last(open).cap
    ensures Decode(open, buf).state != Finished
  {
    hide Next;
    if buf == [] {
      OpenNotFinished(open);
    } else {
      assert RunsDry(open, buf);
      DryStep(open, buf);
    }
  }

  /** Filling an empty buffer with enough bytes takes the chunk and its CRLF, or is illegal. */
  lemma OpenFilled(length: nat, buf: bytes)
    requires |buf| >= length + 2
    ensures var (c, used, bad) := FillOne(Chunk([], length + 2), buf);
      && used == length + 2 && (bad <==> buf[length..length + 2] != CR_LF)
      && (!bad ==> c == Chunk(buf[..length], length))
  {
    assert [] + buf[..length + 2] == buf[..length + 2];
    assert buf[..length + 2][length..] == buf[length..length + 2] && buf[..length + 2][..length] == buf[..length];
  }

  /**
   * The converse of decoding what was encoded: what decodes is an encoding, of exactly the chunks that come out and
   * in front of exactly what is left. In particular every chunk has its CRLF.
   */
  lemma {:induction false} DecodedIsEncoded(chunks: seq<Chunk>, buf: bytes) returns (pieces: seq<Piece>, last: bytes)
    requires AtHeader(chunks) && Decode(chunks, buf).state == Finished && SizesFit(chunks, buf)
    ensures forall p :: p in pieces ==> Announces(p)
    ensures ParseHex(last) == Value(0)
    ensures var d := Decode(chunks, buf);
      && buf == EncodePieces(pieces) + (last + CR_LF + CR_LF + d.rest)
      && d.chunks == chunks + SealedPieces(pieces) + [Chunk([], 0)]
    decreases |buf|
  {
    hide Next, AtHeader, ParseHex, Pow2, AllHex, Find, SizesFit, Decode;
    var line, length := LineTaken(chunks, buf);
    var rest := buf[|line| + 2..];
    ChunkTaken(chunks, length, rest);
    var data, behind := rest[..length], rest[length + 2..];
    var sealed := chunks + [Chunk(data, length)];
    CutChunk(rest, length);
    if length == 0 {
      pieces, last := [], line;
      ZeroChunkEnds(chunks, behind);
      NoPieces(chunks, line, data, behind);
    } else {
      SealedIsAtHeader(chunks, data);
      var more;
      more, last := DecodedIsEncoded(sealed, behind);
      pieces := [Piece(line, data)] + more;
      assert pieces[1..] == more && pieces[0] == Piece(line, data);
      EncodedStep(chunks, pieces, last + CR_LF + CR_LF + Decode(chunks, buf).rest);
    }
  }

  lemma CutChunk(rest: bytes, length: nat)
    requires |rest| >= length + 2 && rest[length..length + 2] == CR_LF
    ensures rest == rest[..length] + CR_LF + rest[length + 2..]
  {
    assert rest == rest[..length] + rest[length..length + 2] + rest[length + 2..];
  }

  lemma NoPieces(chunks: seq<Chunk>, line: bytes, data: bytes, behind: bytes)
    requires data == []
    ensures line + CR_LF + (data + CR_LF + behind) == EncodePieces([]) + (line + CR_LF + CR_LF + behind)
    ensures chunks + [Chunk(data, 0)] == chunks + SealedPieces([]) + [Chunk([], 0)]
  {
  }

  lemma ZeroChunkEnds(chunks: seq<Chunk>, rest: bytes)
    ensures Decode(chunks + [Chunk([], 0)], rest) == Decoded(chunks + [Chunk([], 0)], rest, Finished)
  {
    hide Next;
    assert rest[0..] == rest;
    if rest != [] {
      CapZeroStops(chunks + [Chunk([], 0)], rest);
    }
  }

  /** An encoded body in front of `tail`. */
  ghost predicate Encodes(pieces: seq<Piece>, last: bytes, tail: bytes, buf: bytes) {
    && (forall p :: p in pieces ==> Announces(p)) && ParseHex(last) == Value(0)
    && buf == EncodePieces(pieces) + (last + CR_LF + CR_LF + tail)
  }

  /** An input decodes to these chunks and this rest if and only if it is their encoding. */
  lemma FinishedIff(buf: bytes, chunks: seq<Chunk>, rest: bytes)
    ensures Decode([], buf) == Decoded(chunks, rest, Finished) && SizesFit([], buf) <==>
      exists pieces, last :: Encodes(pieces, last, rest, buf) && chunks == SealedPieces(pieces) + [Chunk([], 0)]
  {
    hide Decode, SizesFit, Announces, ParseHex;
    if Decode([], buf) == Decoded(chunks, rest, Finished) && SizesFit([], buf) {
      var pieces, last := DecodedIsEncoded([], buf);
      assert [] + SealedPieces(pieces) == SealedPieces(pieces);
      assert Encodes(pieces, last, rest, buf);
    }
    forall pieces, last | Encodes(pieces, last, rest, buf) && chunks == SealedPieces(pieces) + [Chunk([], 0)]
      ensures Decode([], buf) == Decoded(chunks, rest, Finished) && SizesFit([], buf)
    {
      DecodeEncoded([], pieces, last, rest);
      EncodedFits([], pieces, last, rest);
      assert [] + SealedPieces(pieces) == SealedPieces(pieces);
    }
  }

  /**
   * Round trip: any list of non-empty chunks and the zero chunk, in front of any tail and cut into
   * any segments, decodes to exactly the body, leaving exactly the tail.
   */
  lemma ChunkedRoundTrip(pieces: seq<Piece>, last: bytes, tail: bytes, segments: seq<bytes>)
    requires forall p :: p in pieces ==> Announces(p) && |p.line| <= 14
    requires ParseHex(last) == Value(0) && |last| <= 14
    requires Flatten(segments) == EncodePieces(pieces) + (last + CR_LF + CR_LF + tail)
    ensures var d := Run([], [], segments);
      d.state == Finished && Body(d.chunks) == PiecesBody(pieces) && d.rest == tail
  {
    var buf := Flatten(segments);
    DecodeEncoded([], pieces, last, tail);
    assert [] + SealedPieces(pieces) == SealedPieces(pieces);
    SealedPiecesBody(pieces);
    SegmentationIndependence(buf);
  }

  /** Sizes 2^64-2 and 2^64-1 wrap the capacity: the first ends the body at once, the second opens a one-byte chunk. */
  lemma SizeWrap(chunks: seq<Chunk>, line: bytes, rest: bytes)
    requires AtHeader(chunks) && ParseHex(line).Value?
    ensures var buf := line + CR_LF + rest;
      Next(chunks, buf).Continue?
      && (Last(Next(chunks, buf).chunks).cap == ParseHex(line).n + 2 <==> ParseHex(line).n + 2 < USIZE)
    ensures ParseHex(line).n + 2 == USIZE ==>
      Decode(chunks, line + CR_LF + rest) == Decoded(chunks + [Chunk([], 0)], rest, Finished)
  {
    HeaderOfLine(line, rest);
    assert (line + CR_LF + rest)[|line| + 2..] == rest;
    assert rest[0..] == rest;
  }
}
