/**
 * The resumable frame parser of the foreign WebSocket crate, and its meaning: whatever pieces it
 * hands out, they add up to what feeding it one byte at a time gives.
 */
module WsParser {
  import opened Bytes
  import opened WsFrame

  datatype MsgType = TextMsg | BinaryMsg | CloseMsg | PingMsg | PongMsg {
    predicate IsData() {
      this == TextMsg || this == BinaryMsg
    }
  }

  /** The frame being read: how many payload bytes were handed out and how many are left. */
  datatype Current = Current(ty: MsgType, fin: bool, mask: Option<Key>, pos: nat, remaining: nat)
  datatype Parser = Parser(open: bool, continued: Option<MsgType>, current: Option<Current>)

  const START: Parser := Parser(true, None, None)

  datatype ReadResult =
    | FrameIncomplete
    | Broken
    | Piece(lenFrom: nat, data: bytes, endOfMessage: bool, ty: MsgType, closeStatus: bool)

  /** The message type of a new frame and what a later continuation frame belongs to. */
  function Begin(continued: Option<MsgType>, h: Header): Option<(MsgType, Option<MsgType>)> {
    match h.op
    case Text => Some((TextMsg, if h.fin then None else Some(TextMsg)))
    case Binary => Some((BinaryMsg, if h.fin then None else Some(BinaryMsg)))
    case Close => Some((CloseMsg, continued))
    case Ping => Some((PingMsg, continued))
    case Pong => Some((PongMsg, continued))
    case Continuation =>
      if continued.None? then None else Some((continued.value, if h.fin then None else continued))
  }

  /** Hands out payload of the current frame: what is available, at most `room` bytes. */
  function Take(p: Parser, c: Current, avail: bytes, room: nat, headerSize: nat): (r: (ReadResult, Parser))
    ensures r.0.Piece? && headerSize <= r.0.lenFrom <= headerSize + |avail|
    ensures |r.0.data| <= room
  {
    var fits := if room < |avail| then room else |avail|;
    var n := if c.remaining < fits then c.remaining else fits;
    var done := n == c.remaining;
    var data := ApplyMask(c.mask, c.pos, avail[..n]);
    var current := if done then None else Some(c.(pos := c.pos + n, remaining := c.remaining - n));
    (Piece(headerSize + n, data, done && c.fin, c.ty, c.ty == CloseMsg && |data| >= 2),
     p.(open := p.open && !(done && c.ty == CloseMsg), current := current))
  }

  /** One call of the parser on the unread bytes. */
  function Read(p: Parser, from: bytes, room: nat): (r: (ReadResult, Parser))
    ensures r.0.Piece? ==> r.0.lenFrom <= |from| && |r.0.data| <= room
    ensures !r.0.Piece? ==> r.1 == p
  {
    if !p.open then (Broken, p)
    else if p.current.Some? then Take(p, p.current.value, from, room, 0)
    else
      match DecodeHeader(from)
      case Incomplete => (FrameIncomplete, p)
      case BadHeader => (Broken, p)
      case Whole(h, size) =>
        match Begin(p.continued, h)
        case None => (Broken, p)
        case Some((ty, continued)) =>
          Take(p.(continued := continued), Current(ty, h.fin, h.mask, 0, h.len), from[size..], room, size)
  }

  /** "Not even one useful byte yet": also the empty result for a data frame with nothing buffered. */
  predicate IsReadFrameIncomplete(r: ReadResult) {
    match r
    case FrameIncomplete => true
    case Broken => false
    case Piece(lenFrom, data, end, ty, _) => lenFrom == 0 && |data| == 0 && !end && ty.IsData()
  }

  /**
   * In the middle of a frame with nothing buffered the parser hands out an empty piece and stays as it
   * is. The reading loop takes that as a reason to read more input if and only if the frame is a data
   * frame; for a control frame it goes round again with nothing changed until its sanity count ends it.
   */
  lemma StarvedFrame(p: Parser, room: nat)
    requires p.open && p.current.Some? && p.current.value.remaining > 0
    ensures Read(p, [], room) == (Piece(0, [], false, p.current.value.ty, false), p)
    ensures IsReadFrameIncomplete(Read(p, [], room).0) <==> p.current.value.ty.IsData()
  {
    TakeNothing(p, p.current.value, room);
  }

  /** Any next part of a frame's payload comes out as one piece when exactly its bytes are buffered and fit. */
  lemma AnyPieceArises(p: Parser, part: bytes, room: nat)
    requires p.open && p.current.Some? && |part| <= p.current.value.remaining && |part| <= room
    ensures var c := p.current.value;
      var r := Read(p, ApplyMask(c.mask, c.pos, part), room).0;
      r.data == part && r.lenFrom == |part| && (r.endOfMessage <==> c.fin && |part| == c.remaining) && r.ty == c.ty
  {
    hide ApplyMask;
    var c := p.current.value;
    var masked := ApplyMask(c.mask, c.pos, part);
    UnmaskMasked(c.mask, c.pos, part);
    assert masked[..|part|] == masked;
  }

  // ---- Meaning ----

  datatype Msg = Msg(ty: MsgType, data: bytes)

  /**
   * The data message in progress, the finished ones, and the control messages seen, of which the
   * last may be unfinished.
   */
  datatype Acc = Acc(data: bytes, out: seq<Msg>, controls: seq<Msg>, unfinished: bool)

  const NOTHING: Acc := Acc([], [], [], false)

  function Feed(a: Acc, ty: MsgType, data: bytes, last: bool): Acc {
    if data == [] && !last then a
    else if ty.IsData() then
      if last then a.(data := [], out := a.out + [Msg(ty, a.data + data)]) else a.(data := a.data + data)
    else
      var (before, control) :=
        if a.unfinished && a.controls != [] then (a.controls[..|a.controls| - 1], a.controls[|a.controls| - 1].data)
        else (a.controls, []);
      a.(controls := before + [Msg(ty, control + data)], unfinished := !last)
  }

  /** Two pieces of one frame mean the same as their concatenation. */
  lemma FeedMerges(a: Acc, ty: MsgType, x: bytes, y: bytes, last: bool)
    ensures Feed(Feed(a, ty, x, false), ty, y, last) == Feed(a, ty, x + y, last)
  {
    assert [] + y == y && x + [] == x;
    if ty.IsData() {
      assert a.data + x + y == a.data + (x + y);
    } else if x != [] {
      ControlMerges(a, ty, x, y, last);
    }
  }

  lemma ControlMerges(a: Acc, ty: MsgType, x: bytes, y: bytes, last: bool)
    requires !ty.IsData() && x != []
    ensures Feed(Feed(a, ty, x, false), ty, y, last) == Feed(a, ty, x + y, last)
  {
    var (before, control) :=
      if a.unfinished && a.controls != [] then (a.controls[..|a.controls| - 1], a.controls[|a.controls| - 1].data)
      else (a.controls, []);
    var grown := before + [Msg(ty, control + x)];
    assert grown[..|grown| - 1] == before;
    assert control + x + y == control + (x + y);
    if y == [] {
      assert x + y == x;
    }
  }

  /** A parser fed one byte at a time, with the header bytes it is waiting to complete. */
  datatype Ideal = Ideal(parser: Parser, pending: bytes, acc: Acc, stuck: bool)

  function Ready(p: Parser, acc: Acc): Ideal {
    Ideal(p, [], acc, false)
  }

  function ByteStep(s: Ideal, b: byte): Ideal {
    if s.stuck then s
    else
      var (r, p) := Read(s.parser, s.pending + [b], 1);
      match r
      case FrameIncomplete => s.(pending := s.pending + [b])
      case Broken => s.(stuck := true)
      case Piece(_, data, last, ty, _) => Ready(p, Feed(s.acc, ty, data, last))
  }

  function Run(s: Ideal, input: bytes): Ideal
    decreases |input|
  {
    if input == [] then s else ByteStep(Run(s, input[..|input| - 1]), input[|input| - 1])
  }

  lemma {:induction false} RunConcat(s: Ideal, a: bytes, b: bytes)
    ensures Run(s, a + b) == Run(Run(s, a), b)
    decreases |b|
  {
    if b == [] {
      assert a + b == a;
    } else {
      assert (a + b)[..|a + b| - 1] == a + b[..|b| - 1];
      RunConcat(s, a, b[..|b| - 1]);
    }
  }

  /** Taking `init` and then one more byte is taking both. */
  lemma TakeSplits(p: Parser, c: Current, init: bytes, b: byte)
    requires p.current == Some(c) && |init| + 1 <= c.remaining
    ensures var (r1, p1) := Take(p, c, init, |init|, 0);
      && p1.current.Some? && p1.open == p.open && !r1.endOfMessage
      && p1.current.value.ty == c.ty
      && var (r2, p2) := Take(p1, p1.current.value, [b], 1, 0);
         var (r, p') := Take(p, c, init + [b], |init| + 1, 0);
      && r.data == r1.data + r2.data && r.endOfMessage == r2.endOfMessage && p' == p2 && r2.ty == c.ty
  {
    hide ApplyMask;
    MaskSplits(c.mask, c.pos, init, [b]);
    assert init[..|init|] == init && [b][..1] == [b] && (init + [b])[..|init| + 1] == init + [b];
  }

  lemma TakeNothing(p: Parser, c: Current, room: nat)
    requires p.current == Some(c) && c.remaining > 0
    ensures Take(p, c, [], room, 0) == (Piece(0, [], false, c.ty, false), p)
  {
    assert ApplyMask(c.mask, c.pos, []) == [];
  }

  /** Payload bytes of one frame, one at a time. */
  lemma {:induction false} RunPayload(p: Parser, acc: Acc, input: bytes)
    requires p.open && p.current.Some? && |input| <= p.current.value.remaining
    requires p.current.value.remaining > 0
    ensures var c := p.current.value;
      var (r, p') := Take(p, c, input, |input|, 0);
      Run(Ready(p, acc), input) == Ready(p', Feed(acc, c.ty, r.data, r.endOfMessage))
    decreases |input|
  {
    hide Take, Feed;
    var c := p.current.value;
    if input == [] {
      TakeNothing(p, c, 0);
      FeedNothing(acc, c.ty);
    } else {
      var init, b := input[..|input| - 1], input[|input| - 1];
      assert init + [b] == input && [] + [b] == [b];
      RunPayload(p, acc, init);
      TakeSplits(p, c, init, b);
      var (r1, p1) := Take(p, c, init, |init|, 0);
      var (r2, p2) := Take(p1, p1.current.value, [b], 1, 0);
      FeedMerges(acc, c.ty, r1.data, r2.data, r2.endOfMessage);
    }
  }

  lemma FeedNothing(acc: Acc, ty: MsgType)
    ensures Feed(acc, ty, [], false) == acc
  {
  }

  /** Header bytes only accumulate until the header is whole. */
  lemma {:induction false} RunHeaderBytes(p: Parser, acc: Acc, input: bytes)
    requires p.open && p.current.None?
    requires DecodeHeader(input) == Incomplete
    ensures Run(Ready(p, acc), input) == Ideal(p, input, acc, false)
    decreases |input|
  {
    if input != [] {
      var init := input[..|input| - 1];
      IncompletePrefix(input, |input| - 1);
      RunHeaderBytes(p, acc, init);
      assert init + [input[|input| - 1]] == input;
    }
  }

  /** What the parser is right behind a header. */
  function Opened(p: Parser, h: Header, ty: MsgType, continued: Option<MsgType>): Parser {
    var c := Current(ty, h.fin, h.mask, 0, h.len);
    Take(p.(continued := continued), c, [], 0, 0).1
  }

  lemma RunHeader(p: Parser, acc: Acc, input: bytes)
    requires p.open && p.current.None?
    requires DecodeHeader(input).Whole? && DecodeHeader(input).size == |input|
    requires Begin(p.continued, DecodeHeader(input).header).Some?
    ensures var h := DecodeHeader(input).header;
      var (ty, continued) := Begin(p.continued, h).value;
      Run(Ready(p, acc), input)
      == Ready(Opened(p, h, ty, continued), Feed(acc, ty, [], h.len == 0 && h.fin))
  {
    hide DecodeHeader, Begin, Feed, Read, Opened, Run;
    var init, b := input[..|input| - 1], input[|input| - 1];
    HeaderExact(input, []);
    RunHeaderBytes(p, acc, init);
    assert init + [b] == input;
    RunSnoc(Ready(p, acc), init, b);
    ReadHeaderOnly(p, input, 1);
  }

  lemma RunSnoc(s: Ideal, input: bytes, b: byte)
    ensures Run(s, input + [b]) == ByteStep(Run(s, input), b)
  {
    assert (input + [b])[..|input|] == input;
  }

  lemma ReadHeaderOnly(p: Parser, input: bytes, room: nat)
    requires p.open && p.current.None?
    requires DecodeHeader(input).Whole? && DecodeHeader(input).size == |input|
    requires Begin(p.continued, DecodeHeader(input).header).Some?
    ensures var h := DecodeHeader(input).header;
      var (ty, continued) := Begin(p.continued, h).value;
      Read(p, input, room) == (Piece(|input|, [], h.len == 0 && h.fin, ty, false), Opened(p, h, ty, continued))
  {
    hide DecodeHeader, Begin;
    assert input[|input|..] == [];
    assert ApplyMask(DecodeHeader(input).header.mask, 0, []) == [];
  }

  predicate ParserValid(p: Parser) {
    p.current.Some? ==> p.current.value.remaining > 0
  }

  /** What was handed out depends only on the bytes taken. */
  lemma TakeExact(p: Parser, c: Current, avail: bytes, room: nat, headerSize: nat)
    ensures var (r, p') := Take(p, c, avail, room, headerSize);
      var n := r.lenFrom - headerSize;
      && n <= c.remaining && ParserValid(p') && r.ty == c.ty
      && Take(p, c, avail[..n], n, 0) == (r.(lenFrom := n), p')
  {
    hide ApplyMask;
    var n := Take(p, c, avail, room, headerSize).0.lenFrom - headerSize;
    assert avail[..n][..n] == avail[..n];
  }

  /**
   * Segmentation independence: any piece the parser hands out, from any amount of input into any
   * amount of room, means exactly what its input bytes mean one at a time.
   */
  lemma PieceIsRun(p: Parser, acc: Acc, from: bytes, room: nat)
    requires ParserValid(p) && Read(p, from, room).0.Piece?
    ensures var (r, p') := Read(p, from, room);
      && ParserValid(p')
      && Run(Ready(p, acc), from[..r.lenFrom]) == Ready(p', Feed(acc, r.ty, r.data, r.endOfMessage))
  {
    if p.current.Some? {
      hide Take, Feed, Run;
      var c := p.current.value;
      TakeExact(p, c, from, room, 0);
      RunPayload(p, acc, from[..Take(p, c, from, room, 0).0.lenFrom]);
    } else {
      FramePieceIsRun(p, acc, from, room);
    }
  }

  lemma FramePieceIsRun(p: Parser, acc: Acc, from: bytes, room: nat)
    requires p.current.None? && Read(p, from, room).0.Piece?
    ensures var (r, p') := Read(p, from, room);
      && ParserValid(p')
      && Run(Ready(p, acc), from[..r.lenFrom]) == Ready(p', Feed(acc, r.ty, r.data, r.endOfMessage))
  {
    hide Take, DecodeHeader, Begin, Run, Feed, Opened;
    var Whole(h, size) := DecodeHeader(from);
    var (ty, continued) := Begin(p.continued, h).value;
    var c := Current(ty, h.fin, h.mask, 0, h.len);
    var q := p.(continued := continued);
    HeaderExact(from, []);
    RunHeader(p, acc, from[..size]);
    TakeExact(q, c, from[size..], room, size);
    var r := Take(q, c, from[size..], room, size).0;
    var n := r.lenFrom - size;
    var payload := from[size..][..n];
    assert from[..size] + payload == from[..r.lenFrom];
    RunConcat(Ready(p, acc), from[..size], payload);
    OpenedTakes(p, q, h, ty, continued, payload);
    if h.len == 0 {
      RunNothing(Run(Ready(p, acc), from[..size]), payload);
    } else {
      FeedNothing(acc, ty);
      RunPayload(Opened(p, h, ty, continued), acc, payload);
    }
  }

  lemma RunNothing(s: Ideal, input: bytes)
    requires input == []
    ensures Run(s, input) == s
  {
  }

  /** Behind the header the parser is in the middle of the frame, or done with it if it is empty. */
  lemma OpenedTakes(p: Parser, q: Parser, h: Header, ty: MsgType, continued: Option<MsgType>, payload: bytes)
    requires p.current.None? && q == p.(continued := continued) && |payload| <= h.len
    ensures var c := Current(ty, h.fin, h.mask, 0, h.len);
      var o := Opened(p, h, ty, continued);
      && (h.len > 0 ==>
            o == q.(current := Some(c)) && Take(o, c, payload, |payload|, 0) == Take(q, c, payload, |payload|, 0))
      && (h.len == 0 ==> payload == [] && Take(q, c, payload, 0, 0) == (Piece(0, [], h.fin, ty, false), o))
  {
    hide ApplyMask;
    assert payload[..|payload|] == payload;
    assert ApplyMask(h.mask, 0, payload[..0]) == [] by { assert payload[..0] == []; }
  }
}
