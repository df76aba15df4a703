/**
 * What the reading loop keeps, whatever the reads bring: pieces and bytes in step, and where control
 * frames get lost.
 */
module WsReading {
  import opened Bytes
  import opened WsFrame
  import opened WsParser
  import opened WsAssembly

  /** The parser's meaning of these bytes from the start of a connection. */
  function Meant(input: bytes): Ideal {
    Run(Ready(START, NOTHING), input)
  }

  /** What every call of the reader keeps: the pieces pushed so far mean exactly the bytes consumed so far. */
  ghost predicate InStep(consumed: bytes, parser: Parser, log: seq<LogPiece>) {
    Meant(consumed) == Ready(parser, Replay(log))
  }

  /** Nothing more can be parsed out of what is buffered: it adds nothing to the meaning. */
  ghost predicate Stalled(consumed: bytes, buffered: bytes, log: seq<LogPiece>) {
    Meant(consumed + buffered).acc == Replay(log)
  }

  /** The bytes stop inside the payload of a control frame. */
  predicate InsideControl(s: Ideal) {
    !s.stuck && s.parser.open && s.parser.current.Some? && !s.parser.current.value.ty.IsData()
  }

  /** A control frame ended without FIN, or the current one is longer than the scratch buffer. */
  predicate OddState(s: Ideal, room: nat) {
    || (s.acc.unfinished && s.parser.current.None?)
    || (InsideControl(s) && s.parser.current.value.pos + s.parser.current.value.remaining > room)
  }

  predicate OddAt(input: bytes, room: nat, n: int) {
    0 <= n <= |input| && OddState(Meant(input[..n]), room)
  }

  /** Somewhere in these bytes there is a fragmented control frame, or one that does not fit `room`. */
  ghost predicate Odd(input: bytes, room: nat) {
    exists n :: OddAt(input, room, n)
  }

  /** Control payloads came in one piece each, unless the peer sent an odd control frame. */
  ghost predicate Unsplit(consumed: bytes, log: seq<LogPiece>, room: nat) {
    Odd(consumed, room) || WholeControls(log)
  }

  lemma OddGrows(input: bytes, more: bytes, room: nat)
    requires Odd(input, room)
    ensures Odd(input + more, room)
  {
    hide OddState, Run;
    var n :| OddAt(input, room, n);
    assert (input + more)[..n] == input[..n];
    assert OddAt(input + more, room, n);
  }

  lemma PieceInStep(consumed: bytes, parser: Parser, log: seq<LogPiece>, from: bytes, room: nat)
    requires InStep(consumed, parser, log) && ParserValid(parser) && Read(parser, from, room).0.Piece?
    ensures var (r, p) := Read(parser, from, room);
      ParserValid(p) && InStep(consumed + from[..r.lenFrom], p, log + [LogPiece(r.ty, r.data, r.endOfMessage)])
  {
    hide Read, ParserValid, Run, Replay;
    var r := Read(parser, from, room).0;
    PieceIsRun(parser, Replay(log), from, room);
    RunConcat(Ready(START, NOTHING), consumed, from[..r.lenFrom]);
    ReplaySnoc(log, LogPiece(r.ty, r.data, r.endOfMessage));
  }

  /** What a piece of a control frame that goes on says about the bytes behind it. */
  lemma ControlGoesOn(parser: Parser, from: bytes, room: nat)
    requires ParserValid(parser) && Read(parser, from, room).0.Piece?
    ensures var (r, p) := Read(parser, from, room);
      !r.ty.IsData() && !r.endOfMessage ==>
        && (p.current.Some? ==> p.open && p.current.value.ty == r.ty && p.current.value.remaining > 0)
        && (p.current.Some? ==> r.lenFrom == |from| || p.current.value.pos >= room)
  {
    hide DecodeHeader, Begin, ApplyMask;
  }

  /**
   * A piece keeps control payloads whole, unless it empties the read buffer inside a control frame:
   * splitting needs an odd frame or a read that stops there.
   */
  lemma PieceKeepsUnsplit(consumed: bytes, parser: Parser, log: seq<LogPiece>, from: bytes, room: nat)
    requires InStep(consumed, parser, log) && ParserValid(parser) && Read(parser, from, room).0.Piece?
    requires Unsplit(consumed, log, room)
    ensures var r := Read(parser, from, room).0;
      var consumed' := consumed + from[..r.lenFrom];
      || Unsplit(consumed', log + [LogPiece(r.ty, r.data, r.endOfMessage)], room)
      || (!r.endOfMessage && r.lenFrom == |from| && InsideControl(Meant(consumed')))
  {
    hide Read, Run, Replay, ParserValid, Odd;
    var (r, p) := Read(parser, from, room);
    var consumed', piece := consumed + from[..r.lenFrom], LogPiece(r.ty, r.data, r.endOfMessage);
    PieceInStep(consumed, parser, log, from, room);
    ControlGoesOn(parser, from, room);
    if Odd(consumed, room) {
      OddGrows(consumed, from[..r.lenFrom], room);
    } else if !r.ty.IsData() && !r.endOfMessage && r.data != [] {
      ReplaySnoc(log, piece);
      UnfinishedControl(Replay(log), r.ty, r.data);
      OddNow(consumed', room);
    }
  }

  lemma UnfinishedControl(acc: Acc, ty: MsgType, data: bytes)
    requires !ty.IsData() && data != []
    ensures Feed(acc, ty, data, false).unfinished
  {
  }

  lemma OddNow(input: bytes, room: nat)
    ensures OddState(Meant(input), room) ==> Odd(input, room)
  {
    hide OddState, Run;
    assert input[..|input|] == input;
    assert OddState(Meant(input), room) ==> OddAt(input, room, |input|);
  }

  /**
   * Nothing to parse and nothing buffered that means anything: the loop reads more input only there,
   * which is never inside a control frame.
   */
  lemma StallMeans(consumed: bytes, parser: Parser, log: seq<LogPiece>, from: bytes, room: nat)
    requires InStep(consumed, parser, log) && ParserValid(parser) && room > 0
    requires IsReadFrameIncomplete(Read(parser, from, room).0)
    ensures Stalled(consumed, from, log) && !InsideControl(Meant(consumed + from))
  {
    hide Run, Replay, Take, DecodeHeader, Begin;
    RunConcat(Ready(START, NOTHING), consumed, from);
    if parser.current.Some? {
      NothingAvailable(parser, parser.current.value, from, room);
      RunNothing(Meant(consumed), from);
    } else if DecodeHeader(from) == Incomplete {
      RunHeaderBytes(parser, Replay(log), from);
    }
  }

  lemma NothingAvailable(p: Parser, c: Current, from: bytes, room: nat)
    requires c.remaining > 0 && room > 0 && Take(p, c, from, room, 0).0.lenFrom == 0
    ensures from == [] && Take(p, c, from, room, 0).0.ty == c.ty
  {
  }

  /** A message only ends on input. */
  lemma EndTakesInput(parser: Parser, from: bytes, room: nat)
    requires ParserValid(parser) && Read(parser, from, room).0.Piece?
    ensures Read(parser, from, room).0.endOfMessage ==> Read(parser, from, room).0.lenFrom > 0
  {
    hide DecodeHeader, Begin, ApplyMask;
  }

  /** A piece that takes no input is the empty one of a starved frame. */
  lemma PieceTakesInput(consumed: bytes, parser: Parser, log: seq<LogPiece>, from: bytes, room: nat)
    requires InStep(consumed, parser, log) && ParserValid(parser) && room > 0
    requires Read(parser, from, room).0.Piece? && !IsReadFrameIncomplete(Read(parser, from, room).0)
    ensures Read(parser, from, room).0.lenFrom == 0 ==> InsideControl(Meant(consumed + from))
  {
    hide DecodeHeader, Begin, ApplyMask, Run, Replay;
    if Read(parser, from, room).0.lenFrom == 0 {
      NothingAvailable(parser, parser.current.value, from, room);
      assert consumed + from == consumed;
    }
  }

  /** Inside a control frame with nothing buffered the parser gives an empty piece and stays where it is. */
  lemma StarvedPiece(consumed: bytes, parser: Parser, log: seq<LogPiece>, room: nat)
    requires InStep(consumed, parser, log) && ParserValid(parser) && InsideControl(Meant(consumed))
    ensures Read(parser, [], room) == (Piece(0, [], false, parser.current.value.ty, false), parser)
    ensures !IsReadFrameIncomplete(Read(parser, [], room).0)
  {
    hide Run, Replay;
    StarvedFrame(parser, room);
  }

  /** The longest header that is still incomplete has 13 bytes. */
  lemma StalledIsShort(parser: Parser, from: bytes, room: nat)
    requires ParserValid(parser) && room > 0 && IsReadFrameIncomplete(Read(parser, from, room).0)
    ensures |from| < 14
  {
    hide Begin, ApplyMask;
  }

  lemma PieceOrIncomplete(r: ReadResult)
    requires !IsReadFrameIncomplete(r) && !r.Broken?
    ensures r.Piece?
  {
  }

  // ---- When the parser refuses its input ----

  /** The parser reports an error, or a close frame with a status. */
  predicate Refuses(parser: Parser, from: bytes, room: nat) {
    var r := Read(parser, from, room).0;
    r.Broken? || (r.Piece? && r.closeStatus)
  }

  lemma RefusalIsComplete(parser: Parser, from: bytes, room: nat)
    ensures Refuses(parser, from, room) ==> !IsReadFrameIncomplete(Read(parser, from, room).0)
  {
    hide DecodeHeader, Begin, ApplyMask;
  }

  /** These bytes were parsed without an error and hold no close frame. */
  predicate Accepted(s: Ideal) {
    !s.stuck && s.parser.open && (s.parser.current.Some? ==> s.parser.current.value.ty != CloseMsg)
  }

  /** If the parser refuses what is buffered, some first bytes of the stream are not acceptable. */
  lemma RefusalMeans(consumed: bytes, parser: Parser, log: seq<LogPiece>, from: bytes, room: nat) returns (n: nat)
    requires InStep(consumed, parser, log) && ParserValid(parser) && Refuses(parser, from, room)
    ensures n <= |consumed + from| && !Accepted(Meant((consumed + from)[..n]))
  {
    hide Run, Replay, DecodeHeader, Begin, Take;
    n := |consumed|;
    assert (consumed + from)[..n] == consumed;
    if parser.open && parser.current.None? {
      var k := HeaderRefused(parser, Replay(log), from, room);
      n := |consumed| + k;
      RunConcat(Ready(START, NOTHING), consumed, from[..k]);
      assert (consumed + from)[..n] == consumed + from[..k];
    } else if parser.open {
      TakenType(parser, parser.current.value, from, room);
    }
  }

  lemma TakenType(p: Parser, c: Current, from: bytes, room: nat)
    ensures Take(p, c, from, room, 0).0.closeStatus ==> c.ty == CloseMsg
  {
  }

  lemma HeaderRefused(p: Parser, acc: Acc, from: bytes, room: nat) returns (k: nat)
    requires p.open && p.current.None? && Refuses(p, from, room)
    ensures k <= |from| && !Accepted(Run(Ready(p, acc), from[..k]))
  {
    hide Run, Begin, Take;
    match DecodeHeader(from)
    case BadHeader =>
      k := 2;
      assert DecodeHeader(from[..2]) == BadHeader && DecodeHeader(from[..1]) == Incomplete;
      assert from[..1] + [from[1]] == from[..2];
      OneByteMore(p, acc, from[..1], from[1]);
    case Whole(h, size) =>
      HeaderExact(from, []);
      if Begin(p.continued, h).None? {
        k := size;
        assert from[..size - 1] + [from[size - 1]] == from[..size];
        assert DecodeHeader(from[..size - 1]) == Incomplete;
        OneByteMore(p, acc, from[..size - 1], from[size - 1]);
      } else {
        k := Read(p, from, room).0.lenFrom;
        CloseTaken(p, from, room);
        PieceIsRun(p, acc, from, room);
      }
  }

  lemma CloseTaken(p: Parser, from: bytes, room: nat)
    requires p.open && p.current.None? && Read(p, from, room).0.Piece? && Read(p, from, room).0.closeStatus
    ensures var q := Read(p, from, room).1;
      !q.open || (q.current.Some? && q.current.value.ty == CloseMsg)
  {
    hide DecodeHeader, Begin, ApplyMask;
  }

  /** The byte that completes a header decides. */
  lemma OneByteMore(p: Parser, acc: Acc, init: bytes, b: byte)
    requires p.open && p.current.None? && DecodeHeader(init) == Incomplete
    requires Read(p, init + [b], 1).0.Broken?
    ensures Run(Ready(p, acc), init + [b]).stuck
  {
    hide DecodeHeader, Run, Read;
    RunHeaderBytes(p, acc, init);
    RunSnoc(Ready(p, acc), init, b);
  }
}
