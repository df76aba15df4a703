/** `HttpResponse::read_from` with its header buffer and read state. */
module ResponseReader {
  import opened Bytes
  import opened Buffers
  import opened ResponseFraming
  import Spec = ChunkedSpec
  import Chunked

  datatype ResponseReadState =
    | Empty
    | ReadBody(head: ResponseHead, buf: BufferVec)
    | ReadChunkedBody(head: ResponseHead, chunks: Chunked.ChunkList)

  class Reader {
    const header: BufferVec
    var state: ResponseReadState
    ghost var taken: bytes     // moved out of the header buffer for the response in progress
    ghost var probe: bytes     // buffered behind the last head without Content-Length when it was parsed

    ghost function StateObjects(): set<object>
      reads this, if state.ReadChunkedBody? then {state.chunks} else {}
    {
      match state
      case Empty => {}
      case ReadBody(_, buf) => {buf, buf.buf}
      case ReadChunkedBody(_, chunks) => chunks.Repr
    }

    ghost predicate Valid()
      reads this, header, header.buf, if state.ReadChunkedBody? then {state.chunks} else {}, StateObjects()
    {
      && header.Valid()
      && {this, header, header.buf} !! StateObjects()
      && (!state.Empty? ==> HeadFits(header.cap, taken, probe))
      && match state
         case Empty => taken == []
         case ReadBody(head, buf) => buf.Valid() && header.len == 0
           && BodyStarted(taken, probe, head, buf.Contents(), buf.cap)
         case ReadChunkedBody(head, chunks) =>
           chunks.Valid() && ChunksStarted(taken, probe, header.Contents(), head, chunks.View())
    }

    /** Every byte that has been or will be read and is not delivered yet, in order. */
    ghost function Undelivered(stream: Stream): bytes
      requires header.Valid()
      reads this, header, header.buf, stream
    {
      taken + header.Contents() + stream.incoming
    }

    /** What is buffered after the next read. */
    ghost function Seen(stream: Stream): bytes
      requires header.Valid()
      reads header, header.buf, stream`incoming, stream`schedule
    {
      header.Contents() + stream.incoming[..stream.Takes(header.Room())]
    }

    /**
     * What the probe will be after the next call: what is then buffered behind a head without
     * Content-Length, if one is looked for and found.
     */
    ghost function NextProbe(stream: Stream): bytes
      requires header.Valid()
      reads this, header, header.buf, stream
    {
      if !state.Empty? then probe
      else
        var seen := Seen(stream);
        if Frame(seen).Open? then seen[Frame(seen).at..] else probe
    }

    constructor (cap: nat)
      ensures Valid() && fresh(header) && fresh(header.buf) && header.cap == cap
      ensures state == Empty && taken == [] && header.Contents() == []
    {
      header := new BufferVec(cap);
      state, taken, probe := Empty, [], [];
    }

    /** The bytes read so far hold no whole response. */
    ghost predicate NoneHeld()
      requires header.Valid()
      reads this, header, header.buf
    {
      ResponseFraming.Next(taken + header.Contents()).None?
    }

    /** No head yet: everything read is in the header buffer. */
    ghost predicate Waits(seen: bytes, stream: Stream, before: seq<ReadEvent>)
      requires header.Valid()
      reads this, header, header.buf, stream
    {
      state == Empty && header.Contents() == seen && stream.schedule == Tail(before)
    }

    /** A body of known length starts: it is already buffered, or gets its own buffer. */
    method StartBody(head: ResponseHead, at: nat, length: nat) returns (answer: Option<Outcome>)
      requires Valid() && state.Empty? && at <= header.len
      requires LengthKnown(header.Contents(), head, at, length, probe)
      modifies this`state, this`taken, header`len, header.buf
      ensures Valid() && header.cap == old(header.cap) && fresh(StateObjects())
      ensures answer.None? ==> state.ReadBody? && taken + header.Contents() == old(header.Contents())
      ensures answer.Some? ==>
        && var data := old(header.Contents());
        && at + length <= |data| && state == Empty && taken + header.Contents() == data[at + length..]
        && answer.value == Got(Response(head, data[at..at + length]))
    {
      hide LengthKnown, BodyStarted, ChunksStarted, HeadFits;
      KnownFits(header.cap, header.Contents(), head, at, length, probe);
      var data := header.Read();
      SliceLengths(data, at, length);
      if length >= |data| - at {
        BodyStarts(data, head, at, length, probe);
        var body := new BufferVec.FromSlice(data[at..], length);
        header.RotateLeft(|data|);
        state, taken := ReadBody(head, body), data;
        answer := None;
      } else {
        header.RotateLeft(at + length);
        answer := Some(Got(Response(head, data[at..][..length])));
      }
    }

    /** No Content-Length: try the buffered bytes as chunks. */
    method Probe(head: ResponseHead, at: nat, ghost incoming: bytes) returns (answer: Option<Outcome>)
      requires Valid() && state.Empty? && Frame(header.Contents()) == Open(head, at)
      modifies this, header`len, header.buf
      ensures answer != Some(Failure(Panicked)) ==> Valid()
      ensures header.Valid() && header.cap == old(header.cap) && fresh(StateObjects())
      ensures answer.Some? && answer.value.Got? ==> state == Empty
      ensures answer.None? ==> !state.Empty? && taken + header.Contents() == old(header.Contents())
      ensures answer.Some? ==>
        CallStep(header.cap, old(header.Contents()) + incoming,
                 Call(answer.value, taken + header.Contents() + incoming, probe))
      ensures answer != Some(NotYet) && answer != Some(Failure(ReadEOF))
      ensures probe == old(header.Contents())[at..]
      ensures answer == Some(Failure(Panicked)) <==>
        IllegalSoFar(old(header.Contents()) + incoming, |old(header.Contents())|)
    {
      hide Frame, ReadStep, ChunksStarted, BodyStarted, Spec.Decode, Spec.Body, Find, HeadFits, IllegalSoFar;
      ProbeFits(header.cap, header.Contents(), incoming, head, at);
      var data := header.Read();
      var remaining := data[at..];
      probe := remaining;
      var chunks := new Chunked.ChunkList();
      var rest, st := Chunked.ReadChunks(remaining, chunks);
      Spec.FirstLine(remaining);
      if st == Spec.NotChunked || (st == Spec.BufferNotEnough && |rest| == |remaining|) {
        answer := StartBody(head, at, 0);
        if answer.Some? {
          EmptyBodyStep(data, incoming, head, at);
        }
        return;
      }
      ProbeAnswers(data, incoming, head, at);
      var off := at + |remaining| - |rest|;
      ProbedPrefix(data, at, off, rest);
      match st
      case BufferNotEnough =>
        FitsBefore(header.cap, data, probe, at, off);
        BeginChunks(head, chunks, off);
        answer := None;
      case Finished =>
        header.RotateLeft(off);
        var body := chunks.Body();
        assert taken + header.Contents() == rest;
        answer := Some(Got(Response(head, body)));
      case IllegalBody =>
        assert taken + header.Contents() == data;
        answer := Some(Failure(Panicked));
    }

    /** The head and what the decoder took leave the header buffer; the body goes on as chunks. */
    method BeginChunks(head: ResponseHead, chunks: Chunked.ChunkList, off: nat)
      requires Valid() && state.Empty? && off <= header.len
      requires chunks.Valid() && {this, header, header.buf} !! chunks.Repr
      requires ChunksStarted(header.Contents()[..off], probe, header.Contents()[off..], head, chunks.View())
      requires HeadFits(header.cap, header.Contents()[..off], probe)
      modifies this`state, this`taken, header`len, header.buf
      ensures Valid() && header.cap == old(header.cap)
      ensures state == ReadChunkedBody(head, chunks) && taken + header.Contents() == old(header.Contents())
    {
      hide ChunksStarted, HeadFits;
      ghost var data := header.Contents();
      header.RotateLeft(off);
      state, taken := ReadChunkedBody(head, chunks), data[..off];
    }

    /** The ReadBody arm. */
    method ReadFixed(stream: Stream) returns (out: Outcome)
      requires Valid() && state.ReadBody?
      modifies this`state, this`taken, state.buf, state.buf.buf, stream`incoming, stream`schedule
      ensures Valid() && (state == old(state) || state == Empty)
      ensures out.Got? ==> state == Empty
      ensures out.Failure? ==> out == Failure(ReadEOF)
      ensures Used(old(stream.schedule), stream.schedule)
      ensures Flowing(old(stream.schedule), old(stream.incoming)) ==> Flowing(stream.schedule, stream.incoming)
      ensures out.Failure? <==> Ended(old(stream.schedule), stream.schedule)
      ensures out.NotYet? ==> stream.Asked(old(stream.schedule))
      ensures CallStep(header.cap, old(Undelivered(stream)), Call(out, Undelivered(stream), probe))
      ensures out == NotYet ==> NoneHeld() && !state.Empty?
      ensures var u := old(Undelivered(stream)); !IllegalSoFar(u, |u| - |stream.incoming|)
    {
      hide Frame, ReadStep, BodyStarted, ChunksStarted, HeadFits, IllegalSoFar;
      hide Used, Ended, Blocked, Flowing, ResponseFraming.Next;
      var body, head := state.buf, state.head;
      ghost var before, waiting := body.Contents(), stream.incoming;
      var r := body.FillAllWith(stream);
      var data := body.Read();
      ghost var more := data[|before|..];
      BodyFed(header.cap, taken, probe, head, before, body.cap, more, waiting, stream.incoming);
      assert data == before + more;
      if r.Done? {
        BodyDone(taken + more, probe, head, data, stream.incoming);
        out := Got(Response(head, data));
        state, taken := Empty, [];
      } else {
        BodyStuck(taken + more, probe, head, data, body.cap);
        taken := taken + more;
        out := if r.WouldBlock? then NotYet else Failure(ReadEOF);
        StepIdle(taken + [] + stream.incoming, out, probe);
      }
    }

    /** The ReadChunkedBody arm. */
    method ReadChunked(stream: Stream) returns (out: Outcome)
      requires Valid() && state.ReadChunkedBody? && stream !in StateObjects()
      modifies this`state, this`taken, header, header.buf, stream`incoming, stream`schedule, state.chunks.Repr
      ensures out != Failure(Panicked) ==> Valid()
      ensures fresh(StateObjects() - old(StateObjects()))
      ensures header.Valid() && header.cap == old(header.cap)
      ensures out.Got? ==> state == Empty
      ensures CallStep(header.cap, old(Undelivered(stream)), Call(out, Undelivered(stream), probe))
      ensures out == NotYet ==> NoneHeld() && !state.Empty?
      ensures Used(old(stream.schedule), stream.schedule)
      ensures Flowing(old(stream.schedule), old(stream.incoming)) ==> Flowing(stream.schedule, stream.incoming)
      ensures out == Failure(ReadEOF) <==> Ended(old(stream.schedule), stream.schedule)
      ensures out == NotYet && header.cap >= 16 ==> stream.Asked(old(stream.schedule))
      ensures out != Failure(ReadEOF) ==>
        var u := old(Undelivered(stream)); out == Failure(Panicked) <==> IllegalSoFar(u, |u| - |stream.incoming|)
    {
      hide Frame, ReadStep, ChunksStarted, Answers, Spec.Decode, IllegalSoFar, HeadFits;
      ChunksLeaveRoom(taken, probe, header.Contents(), state.head, state.chunks.View());
      ghost var u := Undelivered(stream);
      ghost var before := header.Contents();
      var r := header.FillWith(stream);
      if r.Failed? {
        assert stream.incoming == old(stream.incoming);
        StepIdle(u, Failure(ReadEOF), probe);
        return Failure(ReadEOF);
      }
      ghost var more := header.Contents()[|before|..];
      ChunksAnswer(taken, probe, before, more, stream.incoming, state.head, state.chunks.View());
      assert header.Contents() == before + more;
      assert taken + header.Contents() + stream.incoming == taken + before + (more + stream.incoming) == u;
      out := Resume(stream.incoming);
      assert stream.incoming == [] ==> Undelivered(stream) == taken + header.Contents();
    }

    /** Decodes what is buffered and moves what the decoder took out of the header buffer. */
    method Resume(ghost incoming: bytes) returns (out: Outcome)
      requires header.Valid() && state.ReadChunkedBody? && state.chunks.Valid()
      requires {this, header, header.buf} !! StateObjects()
      requires !Frame(taken).NoHead? && HeadFits(header.cap, taken, probe)
      requires Answers(taken, probe, header.Contents(), incoming, state.head,
        Spec.Decode(state.chunks.View(), header.Contents()))
      modifies this`state, this`taken, header, header.buf, state.chunks.Repr
      ensures out != Failure(Panicked) ==> Valid()
      ensures fresh(StateObjects() - old(StateObjects()))
      ensures header.Valid() && header.cap == old(header.cap)
      ensures out.Got? ==> state == Empty
      ensures CallStep(header.cap, old(taken + header.Contents()) + incoming,
                       Call(out, taken + header.Contents() + incoming, probe))
      ensures out == NotYet ==> NoneHeld() && !state.Empty?
      ensures out != Failure(ReadEOF)
      ensures out == Failure(Panicked) <==>
        var seen := old(taken + header.Contents()); IllegalSoFar(seen + incoming, |seen|)
    {
      hide Frame, ReadStep, ChunksStarted, BodyStarted, Spec.Decode, Spec.Body, IllegalSoFar, HeadFits;
      HeadStillFits(header.cap, taken, header.Contents() + incoming, probe);
      assert taken + header.Contents() + incoming == taken + (header.Contents() + incoming);
      var head := state.head;
      var data := header.Read();
      ghost var d := Spec.Decode(state.chunks.View(), data);
      var rest, st := Chunked.ReadChunks(data, state.chunks);
      assert Answers(taken, probe, data, incoming, head, d) && d == Spec.Decoded(state.chunks.View(), rest, st);
      match st
      case BufferNotEnough =>
        Suspend(|data| - |rest|);
        ChunksStuck(taken, probe, header.Contents(), head, state.chunks.View());
        StepIdle(old(taken) + data + incoming, NotYet, probe);
        out := NotYet;
      case Finished =>
        var body := Finish(|data| - |rest|);
        out := Got(Response(head, body));
      case IllegalBody =>
        out := Failure(Panicked);
      case NotChunked =>
        assert false;
    }

    /** The decoder wants more: what it took leaves the header buffer. */
    method Suspend(used: nat)
      requires header.Valid() && state.ReadChunkedBody? && state.chunks.Valid() && used <= header.len
      requires {this, header, header.buf} !! StateObjects()
      requires ChunksStarted(taken + header.Contents()[..used], probe, header.Contents()[used..], state.head,
        state.chunks.View())
      requires !Frame(taken).NoHead? && HeadFits(header.cap, taken, probe)
      modifies this`taken, header`len, header.buf
      ensures Valid() && header.cap == old(header.cap)
      ensures taken + header.Contents() == old(taken + header.Contents())
    {
      hide ChunksStarted, BodyStarted, HeadFits, Frame;
      ghost var data, before := header.Contents(), taken;
      HeadStillFits(header.cap, taken, data[..used], probe);
      ghost var view := state.chunks.View();
      header.RotateLeft(used);
      taken := taken + data[..used];
      Rejoin(before, data, used);
      assert state.chunks.View() == view;
    }

    /** The body is complete: it becomes the chunks' concatenation and the state is Empty again. */
    method Finish(used: nat) returns (body: bytes)
      requires header.Valid() && state.ReadChunkedBody? && state.chunks.Valid() && used <= header.len
      requires {this, header, header.buf} !! StateObjects()
      modifies this`state, this`taken, header`len, header.buf
      ensures Valid() && header.cap == old(header.cap) && state == Empty
      ensures body == Spec.Body(old(state.chunks.View()))
      ensures taken + header.Contents() == old(header.Contents())[used..]
    {
      hide Spec.Body;
      body := state.chunks.Body();
      header.RotateLeft(used);
      state, taken := Empty, [];
    }

    /** Parses what is buffered as the head of a response. */
    method TryHead(ghost incoming: bytes) returns (answer: Option<Outcome>)
      requires Valid() && state.Empty?
      modifies this, header`len, header.buf
      ensures answer != Some(Failure(Panicked)) ==> Valid()
      ensures header.Valid() && header.cap == old(header.cap) && fresh(StateObjects())
      ensures answer.Some? && answer.value.Got? ==> state == Empty
      ensures answer.None? ==> !state.Empty? && taken + header.Contents() == old(header.Contents())
      ensures answer.Some? ==>
        CallStep(header.cap, old(header.Contents()) + incoming,
                 Call(answer.value, taken + header.Contents() + incoming, probe))
      ensures var data := old(header.Contents());
        probe == if Frame(data).Open? then data[Frame(data).at..] else old(probe)
      ensures answer == Some(NotYet) ==> Frame(header.Contents()) == NoHead && taken == []
      ensures answer == Some(NotYet) ==> !header.IsFull() && header.Contents() == old(header.Contents())
      ensures Frame(old(header.Contents())).NoHead? ==> answer == Some(NotYet) || answer == Some(Failure(ReadEOF))
      ensures answer == Some(Failure(ReadEOF)) ==> HeadTooLarge(header.cap, old(header.Contents()) + incoming)
      ensures answer == Some(Failure(ReadEOF)) ==> Frame(old(header.Contents())).NoHead? && state == Empty
      ensures answer == Some(Failure(Panicked)) <==>
        IllegalSoFar(old(header.Contents()) + incoming, |old(header.Contents())|)
    {
      hide ReadStep, Frame, Find, IllegalSoFar, HeadFits;
      var data := header.Read();
      OnlyOpenIsIllegal(data, incoming);
      assert taken + data == data;
      match Frame(data)
      case NoHead =>
        answer := Some(if header.IsFull() then Failure(ReadEOF) else NotYet);
        assert (data + incoming)[..|data|] == data;
        StepIdle(data + incoming, answer.value, probe);
      case BadHead =>
        answer := Some(Failure(ParseResponseError));
        BadHeadStep(data, incoming, probe);
      case Open(head, at) =>
        answer := Probe(head, at, incoming);
      case Fixed(head, at, length) =>
        answer := StartBody(head, at, length);
        if answer.Some? {
          FixedBodyStep(data, incoming, head, at, length, probe);
          FixedFits(header.cap, data, incoming, probe);
        }
    }

    /** The Empty arm. */
    method ReadHead(stream: Stream) returns (answer: Option<Outcome>)
      requires Valid() && state.Empty?
      modifies this, header`len, header.buf, stream`incoming, stream`schedule
      ensures answer != Some(Failure(Panicked)) ==> Valid()
      ensures header.Valid() && header.cap == old(header.cap) && fresh(StateObjects())
      ensures answer.Some? && answer.value.Got? ==> state == Empty
      ensures answer.None? ==> !state.Empty? && Undelivered(stream) == old(Undelivered(stream))
      ensures answer.Some? ==>
        CallStep(header.cap, old(Undelivered(stream)), Call(answer.value, Undelivered(stream), probe))
      ensures if answer == Some(Failure(ReadEOF)) then state == Empty && probe == old(probe)
              else probe == old(NextProbe(stream))
      ensures answer == Some(NotYet) ==> NoneHeld()
      ensures answer != Some(Failure(ReadEOF)) ==>
        (answer == Some(NotYet) <==> Frame(old(Seen(stream))).NoHead?)
      ensures answer == Some(NotYet) ==> Waits(old(Seen(stream)), stream, old(stream.schedule))
      ensures Used(old(stream.schedule), stream.schedule)
      ensures Flowing(old(stream.schedule), old(stream.incoming)) ==> Flowing(stream.schedule, stream.incoming)
      ensures answer == Some(Failure(ReadEOF)) ==>
        Ended(old(stream.schedule), stream.schedule) || HeadTooLarge(header.cap, old(Undelivered(stream)))
      ensures Ended(old(stream.schedule), stream.schedule) ==> answer == Some(Failure(ReadEOF))
      ensures answer == Some(NotYet) ==> stream.Asked(old(stream.schedule))
      ensures answer != Some(Failure(ReadEOF)) ==>
        var u := old(Undelivered(stream));
        answer == Some(Failure(Panicked)) <==> IllegalSoFar(u, |u| - |stream.incoming|)
    {
      hide Frame, ReadStep, IllegalSoFar, HeadTooLarge, HeadFits, NextProbe, Used, Ended, Flowing, Seen;
      hide ResponseFraming.Next;
      ghost var u := Undelivered(stream);
      var r := FillHead(stream);
      if r.Failed? || (r.WouldBlock? && header.len == 0) {
        answer := Some(if r.Failed? then Failure(ReadEOF) else NotYet);
        StepIdle(u, answer.value, probe);
        EmptyHasNoHead();
        NoHeadStuck([]);
        OnlyOpenIsIllegal([], u);
        assert [] + u == u;
        assert header.len == 0 ==> header.Contents() == [] && taken + header.Contents() == [];
        return;
      }
      answer := TryHead(stream.incoming);
      if answer == Some(NotYet) {
        NoHeadStuck(header.Contents());
        assert [] + header.Contents() == header.Contents();
      }
    }

    lemma HeaderIsValid()
      requires Valid()
      ensures header.Valid()
    {
    }

    lemma SeenIsPrefix(stream: Stream)
      requires Valid() && state.Empty?
      ensures Seen(stream) + stream.incoming[stream.Takes(header.Room())..] == Undelivered(stream)
    {
    }

    /** The one read before the buffered bytes are looked at for a head. */
    method FillHead(stream: Stream) returns (r: IoResult)
      requires Valid() && state.Empty?
      modifies header`len, header.buf, stream`incoming, stream`schedule
      ensures Valid() && header.cap == old(header.cap)
      ensures header.Contents() + stream.incoming == Undelivered(stream) == old(Undelivered(stream))
      ensures var seen := header.Contents();
        old(NextProbe(stream)) == if Frame(seen).Open? then seen[Frame(seen).at..] else probe
      ensures Used(old(stream.schedule), stream.schedule)
      ensures Flowing(old(stream.schedule), old(stream.incoming)) ==> Flowing(stream.schedule, stream.incoming)
      ensures r.Failed? <==> Ended(old(stream.schedule), stream.schedule)
      ensures header.Contents() == old(Seen(stream))
      ensures stream.schedule == Tail(old(stream.schedule)) || (r.Done? && header.IsFull())
    {
      hide Frame, Used, Ended, Flowing, BodyStarted, ChunksStarted, HeadFits;
      ghost var before, taking := header.Contents(), stream.incoming[..stream.Takes(header.Room())];
      r := header.FillWith(stream);
      SameSplit(before, old(stream.incoming), taking, header.Contents(), stream.incoming);
    }

    /**
     * One call of the reader: every byte is accounted for, and what is delivered is the next
     * response of the stream. Blocked with the whole stream read, no whole response is left. End of
     * file is reported only if the stream ended or a head does not fit, and a panic only on an illegal
     * chunked body; after it nothing is promised of the state.
     */
    method ReadFrom(stream: Stream) returns (out: Outcome)
      requires Valid() && stream !in StateObjects()
      modifies this, header, header.buf, stream`incoming, stream`schedule, StateObjects()
      ensures out != Failure(Panicked) ==> Valid()
      ensures header.Valid() && header.cap == old(header.cap)
      ensures fresh(StateObjects() - old(StateObjects()))
      ensures out.Got? ==> state == Empty
      ensures CallStep(header.cap, old(Undelivered(stream)), Call(out, Undelivered(stream), probe))
      ensures probe == old(NextProbe(stream)) || (out == Failure(ReadEOF) && state == Empty && probe == old(probe))
      ensures old(state).Empty? && out.Got? ==>
        EmptyBodyIff(old(Seen(stream)), old(Undelivered(stream)), out.response, Undelivered(stream))
      ensures out == NotYet ==> NoneHeld()
      ensures out == NotYet && state.Empty? ==> old(state).Empty? && Frame(old(Seen(stream))).NoHead?
      ensures old(state).Empty? && Frame(old(Seen(stream))).NoHead? && out != Failure(ReadEOF) ==>
        out == NotYet && Waits(old(Seen(stream)), stream, old(stream.schedule))
      ensures Used(old(stream.schedule), stream.schedule)
      ensures Flowing(old(stream.schedule), old(stream.incoming)) ==> Flowing(stream.schedule, stream.incoming)
      ensures out == Failure(ReadEOF) ==>
        Ended(old(stream.schedule), stream.schedule) || HeadTooLarge(header.cap, old(Undelivered(stream)))
      ensures Ended(old(stream.schedule), stream.schedule) ==> out == Failure(ReadEOF)
      ensures out == NotYet && header.cap >= 16 ==> stream.Asked(old(stream.schedule))
      ensures out != Failure(ReadEOF) ==>
        var u := old(Undelivered(stream)); out == Failure(Panicked) <==> IllegalSoFar(u, |u| - |stream.incoming|)
    {
      hide Frame, CallStep, BodyStarted, ChunksStarted, IllegalSoFar, HeadTooLarge, HeadFits, EmptyBodyIff, Seen;
      hide Used, Ended, Flowing, Stream.Takes, Waits;
      ghost var seen, u := Seen(stream), Undelivered(stream);
      UsedNone(stream.schedule);
      if state.Empty? {
        SeenIsPrefix(stream);
        var answer := ReadHead(stream);
        if answer.Some? {
          if answer.value.Got? {
            DeliveryIff(header.cap, seen, u, answer.value, Undelivered(stream), probe);
          }
          return answer.value;
        }
      }
      ghost var schedule := stream.schedule;
      if state.ReadBody? {
        out := ReadFixed(stream);
      } else {
        out := ReadChunked(stream);
      }
      if old(state).Empty? && out.Got? {
        DeliveryIff(header.cap, seen, u, out, Undelivered(stream), probe);
      }
      ReadsJoin(old(stream.schedule), schedule, stream.schedule);
    }
  }

  /**
   * A response without Content-Length has an empty body and leaves everything behind its head if and only if
   * the bytes read when the head was found held no CRLF behind it; otherwise it is the chunked one.
   */
  ghost predicate EmptyBodyIff(seen: bytes, u: bytes, response: Response, u': bytes) {
    Frame(seen).Open? ==>
      && Frame(u) == Frame(seen)
      && var at := Frame(seen).at;
      && (Find(seen[at..], CR_LF).None? <==> (response, u') == (Response(Frame(u).head, []), u[at..]))
      && (Find(seen[at..], CR_LF).Some? <==> ResponseFraming.Next(u) == Some((response, u')) && u' != u[at..])
  }

  lemma DeliveryIff(cap: nat, seen: bytes, u: bytes, out: Outcome, u': bytes, probe: bytes)
    requires CallStep(cap, u, Call(out, u', probe))
    requires seen <= u && out.Got? && (Frame(seen).Open? ==> probe == seen[Frame(seen).at..])
    ensures EmptyBodyIff(seen, u, out.response, u')
  {
    hide Frame, Spec.Decode, Find, ResponseFraming.HeadFits;
    if Frame(seen).Open? {
      assert u == seen + u[|seen|..];
      FrameStable(seen, u[|seen|..]);
      NothingTakenIff(u, probe, out.response, u');
    }
  }

  /** Without a head in a full buffer no response can be read. */
  ghost predicate HeadTooLarge(cap: nat, u: bytes) {
    cap <= |u| && Frame(u[..cap]).NoHead?
  }

  /** Of the first `n` bytes those behind the head are an illegal chunked body. */
  ghost predicate IllegalSoFar(u: bytes, n: int) {
    Frame(u).Open? && Frame(u).at <= n && Spec.IllegalAt(u[Frame(u).at..], n - Frame(u).at)
  }

  /** What each decoder state means for the response in progress; NotChunked cannot come back. */
  ghost predicate Answers(taken: bytes, probe: bytes, data: bytes, incoming: bytes, head: ResponseHead,
                          d: Spec.Decoded) {
    && |d.rest| <= |data| && d.rest == data[|data| - |d.rest|..]
    && (IllegalSoFar(taken + data + incoming, |taken + data|) <==> d.state == Spec.IllegalBody)
    && match d.state
       case BufferNotEnough => ChunksStarted(taken + data[..|data| - |d.rest|], probe, d.rest, head, d.chunks)
       case Finished =>
         ReadStep(taken + data + incoming, Got(Response(head, Spec.Body(d.chunks))), d.rest + incoming, probe)
       case IllegalBody => ReadStep(taken + data + incoming, Failure(Panicked), taken + data + incoming, probe)
       case NotChunked => false
  }

  lemma ChunksAnswer(taken: bytes, probe: bytes, before: bytes, more: bytes, incoming: bytes, head: ResponseHead,
                     view: seq<Spec.Chunk>)
    requires ChunksStarted(taken, probe, before, head, view)
    ensures Answers(taken, probe, before + more, incoming, head, Spec.Decode(view, before + more))
  {
    hide Frame, Spec.Decode, ReadStep, Find;
    var data := before + more;
    var d := Spec.Decode(view, data);
    ChunksResume(taken, probe, before, more, head, view);
    ChunksBehind(taken, probe, before, head, view, data);
    BehindTaken(taken, data, incoming);
    match d.state
    case BufferNotEnough => ChunksSuspend(taken, probe, data, d.rest, head, d.chunks);
    case Finished => ChunksDone(taken, probe, data, incoming, head, d);
    case IllegalBody =>
      ChunksIllegal(taken, data, incoming, probe);
    case NotChunked =>
  }

  lemma ChunksBehind(taken: bytes, probe: bytes, rest: bytes, head: ResponseHead, view: seq<Spec.Chunk>, data: bytes)
    requires ChunksStarted(taken, probe, rest, head, view)
    ensures var d := Spec.Decode(view, data);
      d.state != Spec.NotChunked && |d.rest| <= |data| && d.rest == data[|data| - |d.rest|..]
  {
    hide Frame, Spec.Decode, Spec.WellFormed;
    var at := Frame(taken).at;
    var behind := taken[at..] + rest;
    assert (taken + rest)[at..] == behind;
    assert behind == probe + behind[|probe|..];
    FindStable(probe, behind[|probe|..], CR_LF, 0);
    Spec.FirstLine(behind);
    Spec.ChunkedStays(view, data);
    EmptyWellFormed();
    Spec.DecoderInvariant([], behind);
    Spec.DecoderInvariant(view, data);
  }

  lemma EmptyWellFormed()
    ensures Spec.WellFormed([])
  {
  }

  lemma StepIdle(u: bytes, out: Outcome, probe: bytes)
    requires out == NotYet || out == Failure(ReadEOF)
    ensures ReadStep(u, out, u, probe)
  {
  }

  /** The length of the body behind the head of `data`: announced, or 0 because the probe holds no CRLF. */
  ghost predicate LengthKnown(data: bytes, head: ResponseHead, at: nat, length: nat, probe: bytes) {
    || Frame(data) == Fixed(head, at, length)
    || (Frame(data) == Open(head, at) && length == 0 && probe == data[at..] && Find(probe, CR_LF).None?)
  }

  lemma SliceLengths(data: bytes, at: nat, length: nat)
    requires at <= |data|
    ensures |data[at..]| == |data| - at
    ensures at + length <= |data| ==> data[at..][..length] == data[at..at + length]
    ensures data[|data|..] == [] && data + [] == data && [] + data == data
    ensures forall s: bytes :: [] + s == s
  {
  }

  lemma BodyStarts(data: bytes, head: ResponseHead, at: nat, length: nat, probe: bytes)
    requires LengthKnown(data, head, at, length, probe) && at <= |data| <= at + length
    ensures BodyStarted(data, probe, head, data[at..], length)
  {
    hide Frame, Find;
    assert data[|data| - |data[at..]|..] == data[at..];
  }

  lemma EmptyBodyStep(data: bytes, incoming: bytes, head: ResponseHead, at: nat)
    requires Frame(data) == Open(head, at) && Find(data[at..], CR_LF).None?
    ensures ReadStep(data + incoming, Got(Response(head, data[at..at])), data[at..] + incoming, data[at..])
  {
    hide Frame, Find;
    FrameStable(data, incoming);
    assert (data + incoming)[at..] == data[at..] + incoming;
    assert data[at..at] == [];
  }

  lemma FixedBodyStep(data: bytes, incoming: bytes, head: ResponseHead, at: nat, length: nat, probe: bytes)
    requires Frame(data) == Fixed(head, at, length) && at + length <= |data|
    ensures ReadStep(data + incoming, Got(Response(head, data[at..at + length])), data[at + length..] + incoming, probe)
  {
    hide Frame;
    FrameStable(data, incoming);
    assert (data + incoming)[at + length..] == data[at + length..] + incoming;
    assert (data + incoming)[at..at + length] == data[at..at + length];
  }

  lemma BadHeadStep(data: bytes, incoming: bytes, probe: bytes)
    requires Frame(data) == BadHead
    ensures ReadStep(data + incoming, Failure(ParseResponseError), data + incoming, probe)
  {
    hide Frame;
    FrameStable(data, incoming);
  }

  lemma ProbedPrefix(data: bytes, at: nat, off: nat, rest: bytes)
    requires at <= off <= |data| && off == |data| - |rest|
    ensures var remaining := data[at..];
      && data[..at] + remaining == data
      && (|rest| <= |remaining| && rest == remaining[|remaining| - |rest|..] ==>
            data[..at] + remaining[..|remaining| - |rest|] == data[..off] && data[off..] == rest)
  {
  }

  /** The probe of a body that does have a size line answers like a suspended decoding that starts with it. */
  lemma ProbeAnswers(data: bytes, incoming: bytes, head: ResponseHead, at: nat)
    requires Frame(data) == Open(head, at) && Find(data[at..], CR_LF).Some?
    ensures Answers(data[..at], data[at..], data[at..], incoming, head, Spec.Decode([], data[at..]))
  {
    hide Frame, Spec.Decode, ReadStep, Find;
    var front, remaining := data[..at], data[at..];
    var d := Spec.Decode([], remaining);
    FrameHead(data);
    Spec.FirstLine(remaining);
    EmptyWellFormed();
    Spec.DecoderInvariant([], remaining);
    assert front[at..] + remaining == remaining && (front + remaining)[at..] == remaining;
    BehindTaken(front, remaining, incoming);
    match d.state
    case BufferNotEnough => ChunksSuspend(front, remaining, remaining, d.rest, head, d.chunks);
    case Finished => ChunksDone(front, remaining, remaining, incoming, head, d);
    case IllegalBody =>
      ChunksIllegal(front, remaining, incoming, remaining);
    case NotChunked =>
  }

  /** The body buffer holds the first bytes of a body of known length. */
  ghost predicate BodyStarted(taken: bytes, probe: bytes, head: ResponseHead, body: bytes, cap: nat) {
    && |body| <= |taken| && taken[|taken| - |body|..] == body && |body| <= cap
    && (|| Frame(taken) == Fixed(head, |taken| - |body|, cap)
        || (Frame(taken) == Open(head, |taken|) && cap == 0 && probe == []))
  }

  /** The chunk list and the buffered rest are a suspended decoding of what followed the head. */
  ghost predicate ChunksStarted(taken: bytes, probe: bytes, rest: bytes, head: ResponseHead, chunks: seq<Spec.Chunk>) {
    && Frame(taken).Open? && Frame(taken).head == head
    && Spec.Decode([], taken[Frame(taken).at..] + rest) == Spec.Decoded(chunks, rest, Spec.BufferNotEnough)
    && probe <= (taken + rest)[Frame(taken).at..] && Find(probe, CR_LF).Some?
  }

  lemma BodyDone(taken: bytes, probe: bytes, head: ResponseHead, body: bytes, more: bytes)
    requires BodyStarted(taken, probe, head, body, |body|)
    ensures ReadStep(taken + more, Got(Response(head, body)), more, probe)
  {
    hide Frame;
    FrameStable(taken, more);
    var at := |taken| - |body|;
    assert (taken + more)[at..|taken|] == body && (taken + more)[|taken|..] == more;
  }

  /** An unfinished body means the stream so far holds no whole response. */
  lemma BodyStuck(taken: bytes, probe: bytes, head: ResponseHead, body: bytes, cap: nat)
    requires BodyStarted(taken, probe, head, body, cap) && |body| < cap
    ensures ResponseFraming.Next(taken).None?
  {
    hide Frame;
  }

  lemma ChunksStuck(taken: bytes, probe: bytes, rest: bytes, head: ResponseHead, chunks: seq<Spec.Chunk>)
    requires ChunksStarted(taken, probe, rest, head, chunks)
    ensures ResponseFraming.Next(taken + rest).None?
  {
    hide Frame, Spec.Decode, Find;
    FrameStable(taken, rest);
    assert (taken + rest)[Frame(taken).at..] == taken[Frame(taken).at..] + rest;
  }

  /** What was read behind the head, seen from the whole stream. */
  lemma BehindTaken(taken: bytes, data: bytes, incoming: bytes)
    requires Frame(taken).Open?
    ensures IllegalSoFar(taken + data + incoming, |taken + data|) <==>
      Spec.Decode([], taken[Frame(taken).at..] + data).state == Spec.IllegalBody
  {
    hide Frame, Spec.Decode;
    FrameStable(taken, data + incoming);
    var at := Frame(taken).at;
    assert taken + (data + incoming) == taken + data + incoming;
    assert (taken + data + incoming)[at..][..|taken + data| - at] == taken[at..] + data;
  }

  /** Only behind a buffered head without Content-Length can the bytes read so far be illegal. */
  lemma OnlyOpenIsIllegal(data: bytes, incoming: bytes)
    ensures IllegalSoFar(data + incoming, |data|) ==> Frame(data).Open?
  {
    hide Frame, Spec.Decode;
    var u := data + incoming;
    if Frame(u).Open? && Frame(u).at <= |data| {
      var at := Frame(u).at;
      FrameHead(u);
      assert u[..at] == data[..at] && data == data[..at] + data[at..];
      FrameStable(data[..at], data[at..]);
    }
  }

  lemma BodyNotIllegal(taken: bytes, probe: bytes, head: ResponseHead, body: bytes, cap: nat, more: bytes,
                       incoming: bytes)
    requires BodyStarted(taken, probe, head, body, cap) && |body| + |more| <= cap
    ensures !IllegalSoFar(taken + more + incoming, |taken + more|)
  {
    hide Frame, Spec.Decode;
    FrameStable(taken, more + incoming);
    assert taken + (more + incoming) == taken + more + incoming;
    if Frame(taken).Open? {
      assert (taken + more + incoming)[|taken|..][..0] == [];
      NothingIsNotIllegal();
    }
  }

  /** What the next bytes of a started body keep, whatever is still to come behind them. */
  lemma BodyFed(cap: nat, taken: bytes, probe: bytes, head: ResponseHead, body: bytes, length: nat, more: bytes,
                waiting: bytes, incoming: bytes)
    requires BodyStarted(taken, probe, head, body, length) && |body| + |more| <= length
    requires HeadFits(cap, taken, probe) && waiting == more + incoming
    ensures taken + [] + waiting == taken + more + incoming == taken + more + [] + incoming
    ensures [] + [] + incoming == incoming && taken + more + [] == taken + more
    ensures HeadFits(cap, taken + more, probe) && HeadFits(cap, taken + more + incoming, probe)
    ensures BodyStarted(taken + more, probe, head, body + more, length)
    ensures !IllegalSoFar(taken + more + incoming, |taken + more|)
  {
    hide Frame, HeadFits, BodyStarted, IllegalSoFar;
    BodyNotIllegal(taken, probe, head, body, length, more, incoming);
    StartedHasHead(taken, probe, head, body, length);
    HeadStillFits(cap, taken, more, probe);
    HeadStillFits(cap, taken + more, incoming, probe);
    BodyGrows(taken, probe, head, body, more, length);
  }

  lemma StartedHasHead(taken: bytes, probe: bytes, head: ResponseHead, body: bytes, cap: nat)
    requires BodyStarted(taken, probe, head, body, cap)
    ensures !Frame(taken).NoHead?
  {
    hide Frame;
  }

  lemma NothingIsNotIllegal()
    ensures Spec.Decode([], []).state != Spec.IllegalBody
  {
  }

  lemma HeadStillFits(cap: nat, taken: bytes, more: bytes, probe: bytes)
    requires !Frame(taken).NoHead? && HeadFits(cap, taken, probe)
    ensures HeadFits(cap, taken + more, probe) && !Frame(taken + more).NoHead?
  {
    hide Frame;
    FrameStable(taken, more);
  }

  lemma FitsBefore(cap: nat, data: bytes, probe: bytes, at: nat, off: nat)
    requires Frame(data).Open? && Frame(data).at == at <= off <= |data| && HeadFits(cap, data, probe)
    ensures HeadFits(cap, data[..off], probe)
  {
    hide Frame;
    FrameHead(data);
    assert data[..off] == data[..at] + data[at..off];
    FrameStable(data[..at], data[at..off]);
  }

  lemma FixedFits(cap: nat, data: bytes, incoming: bytes, probe: bytes)
    requires Frame(data).Fixed? && |data| <= cap
    ensures HeadFits(cap, data + incoming, probe)
  {
    hide Frame;
    FrameStable(data, incoming);
  }

  lemma ProbeFits(cap: nat, data: bytes, incoming: bytes, head: ResponseHead, at: nat)
    requires Frame(data) == Open(head, at) && |data| <= cap
    ensures HeadFits(cap, data, data[at..]) && HeadFits(cap, data + incoming, data[at..])
    ensures IllegalSoFar(data + incoming, |data|) <==> Spec.Decode([], data[at..]).state == Spec.IllegalBody
  {
    hide Frame, Spec.Decode;
    FrameStable(data, incoming);
    BehindTaken(data[..at], data[at..], incoming) by { FrameHead(data); }
    assert data[..at] + data[at..] == data && data[..at][at..] + data[at..] == data[at..];
    FrameHead(data);
  }

  lemma KnownFits(cap: nat, data: bytes, head: ResponseHead, at: nat, length: nat, probe: bytes)
    requires LengthKnown(data, head, at, length, probe) && |data| <= cap && at <= |data|
    ensures HeadFits(cap, data, probe)
  {
    hide Frame, Find;
  }

  lemma SameSplit(a: bytes, x: bytes, taking: bytes, b: bytes, y: bytes)
    requires a <= b && a + x == b + y && taking <= x && |b| == |a| + |taking|
    ensures b == a + taking
  {
    assert b == (a + x)[..|b|];
  }

  /** A suspended decoder leaves fewer than 16 bytes in the header buffer. */
  lemma ChunksLeaveRoom(taken: bytes, probe: bytes, rest: bytes, head: ResponseHead, chunks: seq<Spec.Chunk>)
    requires ChunksStarted(taken, probe, rest, head, chunks)
    ensures |rest| < 16 && !Frame(taken).NoHead?
  {
    hide Frame, Spec.Decode, Find, Spec.WellFormed;
    EmptyWellFormed();
    Spec.DecoderInvariant([], taken[Frame(taken).at..] + rest);
  }

  lemma NoHeadStuck(u: bytes)
    requires Frame(u).NoHead?
    ensures ResponseFraming.Next(u).None?
  {
    hide Frame;
  }

  lemma EmptyHasNoHead()
    ensures Frame([]).NoHead?
  {
  }

  lemma BodyGrows(taken: bytes, probe: bytes, head: ResponseHead, body: bytes, more: bytes, cap: nat)
    requires BodyStarted(taken, probe, head, body, cap) && |body| + |more| <= cap
    ensures BodyStarted(taken + more, probe, head, body + more, cap)
  {
    hide Frame;
    FrameStable(taken, more);
    assert (taken + more)[|taken| - |body|..] == body + more;
    if more == [] {
      assert taken + more == taken;
    }
  }

  /** Feeding the suspended decoder is decoding everything behind the head. */
  lemma ChunksResume(taken: bytes, probe: bytes, rest: bytes, more: bytes, head: ResponseHead, chunks: seq<Spec.Chunk>)
    requires ChunksStarted(taken, probe, rest, head, chunks)
    ensures Spec.Decode([], taken[Frame(taken).at..] + (rest + more)) == Spec.Decode(chunks, rest + more)
    ensures probe <= (taken + (rest + more))[Frame(taken).at..]
  {
    hide Frame, Spec.Decode, Find;
    var behind := taken[Frame(taken).at..];
    Spec.SplitInvariance([], behind + rest, more);
    assert behind + rest + more == behind + (rest + more);
    assert (taken + (rest + more))[Frame(taken).at..] == (taken + rest)[Frame(taken).at..] + more;
  }

  /** What the decoder took moves to `taken`; what it left stays buffered. */
  lemma ChunksSuspend(taken: bytes, probe: bytes, buffered: bytes, rest: bytes, head: ResponseHead,
                      chunks: seq<Spec.Chunk>)
    requires Frame(taken).Open? && Frame(taken).head == head
    requires Spec.Decode([], taken[Frame(taken).at..] + buffered) == Spec.Decoded(chunks, rest, Spec.BufferNotEnough)
    requires probe <= (taken + buffered)[Frame(taken).at..] && Find(probe, CR_LF).Some?
    requires |rest| <= |buffered| && rest == buffered[|buffered| - |rest|..]
    ensures ChunksStarted(taken + buffered[..|buffered| - |rest|], probe, rest, head, chunks)
  {
    hide Frame, Spec.Decode, Find;
    var used := buffered[..|buffered| - |rest|];
    var at := Frame(taken).at;
    FrameStable(taken, used);
    MoveOver(taken, at, used, rest, buffered);
  }

  lemma MoveOver(taken: bytes, at: nat, used: bytes, rest: bytes, buffered: bytes)
    requires at <= |taken| && used + rest == buffered
    ensures (taken + used)[at..] + rest == taken[at..] + buffered
    ensures taken + used + rest == taken + buffered
  {
    ConcatFrom(taken, at, used, rest);
  }

  lemma ChunksDone(taken: bytes, probe: bytes, buffered: bytes, more: bytes, head: ResponseHead, d: Spec.Decoded)
    requires Frame(taken).Open? && Frame(taken).head == head
    requires Spec.Decode([], taken[Frame(taken).at..] + buffered) == d && d.state == Spec.Finished
    requires probe <= (taken + buffered)[Frame(taken).at..] && Find(probe, CR_LF).Some?
    ensures ReadStep(taken + buffered + more, Got(Response(head, Spec.Body(d.chunks))), d.rest + more, probe)
  {
    hide Frame, Spec.Decode, Find;
    FrameStable(taken, buffered + more);
    assert taken + (buffered + more) == taken + buffered + more;
    var at := Frame(taken).at;
    var behind := taken[at..] + buffered;
    Spec.FinishedExtends([], behind, more);
    assert (taken + buffered + more)[at..] == behind + more;
    assert (taken + buffered)[at..] == behind;
  }

  lemma ChunksIllegal(taken: bytes, buffered: bytes, more: bytes, probe: bytes)
    requires Frame(taken).Open?
    requires Spec.Decode([], taken[Frame(taken).at..] + buffered).state == Spec.IllegalBody
    requires probe <= (taken + buffered)[Frame(taken).at..] && Find(probe, CR_LF).Some?
    ensures var u := taken + buffered + more;
      ReadStep(u, Failure(Panicked), u, probe)
  {
    hide Frame, Spec.Decode, Find;
    FrameStable(taken, buffered + more);
    assert taken + (buffered + more) == taken + buffered + more;
    var at := Frame(taken).at;
    var u, behind := (taken + buffered + more)[at..], taken[at..] + buffered;
    assert (taken + buffered)[at..] == behind && u[..|behind|] == behind;
    assert Spec.IllegalAt(u, |behind|);
  }
}
