/** What a peer reads of the frames another peer writes, under any segmentation (RFC 6455, sections 5.2 and 5.4). */
module WsRoundTrip {
  import opened Bytes
  import opened WsFrame
  import opened WsParser
  import opened WsAssembly
  import opened WsReading
  import opened WsWrite

  // ---- Frames to meaning ----

  /** A list of whole frames, read one after the other. */
  function Meaning(continued: Option<MsgType>, acc: Acc, frames: seq<Frame>): Option<(Option<MsgType>, Acc)>
    decreases |frames|
  {
    if frames == [] then Some((continued, acc))
    else
      var f := frames[0];
      match Begin(continued, Header(f.fin, f.op, None, |f.payload|))
      case None => None
      case Some((ty, continued')) =>
        if ty == CloseMsg then None else Meaning(continued', Feed(acc, ty, f.payload, f.fin), frames[1..])
  }

  function Between(continued: Option<MsgType>): Parser {
    Parser(true, continued, None)
  }

  /** One encoded frame, byte by byte. */
  lemma RunFrame(continued: Option<MsgType>, acc: Acc, f: Frame, mask: Option<Key>)
    requires Begin(continued, Header(f.fin, f.op, mask, |f.payload|)).Some?
    requires Begin(continued, Header(f.fin, f.op, mask, |f.payload|)).value.0 != CloseMsg
    ensures var (ty, continued') := Begin(continued, Header(f.fin, f.op, mask, |f.payload|)).value;
      Run(Ready(Between(continued), acc), EncodeFrame(f, mask))
        == Ready(Between(continued'), Feed(acc, ty, f.payload, f.fin))
  {
    hide Run, Feed, DecodeHeader, ApplyMask, EncodeHeader;
    var h := Header(f.fin, f.op, mask, |f.payload|);
    var header, masked := EncodeHeader(h), ApplyMask(mask, 0, f.payload);
    var input := header + masked;
    HeaderRoundTrip(h, masked);
    UnmaskMasked(mask, 0, f.payload);
    assert input[|header|..] == masked && masked[..|masked|] == masked;
    ReadWhole(continued, h, f.payload);
    PieceIsRun(Between(continued), acc, input, |masked|);
    assert input[..|input|] == input;
  }

  /** With the whole frame buffered and room for it, one call hands out the payload. */
  lemma ReadWhole(continued: Option<MsgType>, h: Header, payload: bytes)
    requires |payload| == h.len < USIZE && Begin(continued, h).Some? && Begin(continued, h).value.0 != CloseMsg
    ensures var input := EncodeHeader(h) + ApplyMask(h.mask, 0, payload);
      var (ty, continued') := Begin(continued, h).value;
      Read(Between(continued), input, |payload|) == (Piece(|input|, payload, h.fin, ty, false), Between(continued'))
  {
    hide DecodeHeader, ApplyMask, EncodeHeader, Begin;
    var header, masked := EncodeHeader(h), ApplyMask(h.mask, 0, payload);
    HeaderRoundTrip(h, masked);
    UnmaskMasked(h.mask, 0, payload);
    assert (header + masked)[|header|..] == masked && masked[..|masked|] == masked;
  }

  lemma {:induction false} RunWire(continued: Option<MsgType>, acc: Acc, frames: seq<Frame>, client: bool,
                                   keys: nat -> Key, k: nat)
    requires Meaning(continued, acc, frames).Some?
    ensures var (continued', acc') := Meaning(continued, acc, frames).value;
      Run(Ready(Between(continued), acc), Wire(frames, client, keys, k)) == Ready(Between(continued'), acc')
    decreases |frames|
  {
    hide Feed, EncodeFrame;
    if frames == [] {
    } else {
      var f, mask := frames[0], MaskFor(client, keys, k);
      SameBegin(continued, f, mask);
      RunFrame(continued, acc, f, mask);
      var (ty, continued') := Begin(continued, Header(f.fin, f.op, mask, |f.payload|)).value;
      var acc' := Feed(acc, ty, f.payload, f.fin);
      RunWire(continued', acc', frames[1..], client, keys, k + 1);
      RunConcat(Ready(Between(continued), acc), EncodeFrame(f, mask), Wire(frames[1..], client, keys, k + 1));
      hide Run, Begin;
    }
  }

  lemma SameBegin(continued: Option<MsgType>, f: Frame, mask: Option<Key>)
    ensures Begin(continued, Header(f.fin, f.op, mask, |f.payload|))
      == Begin(continued, Header(f.fin, f.op, None, |f.payload|))
  {
  }

  // ---- Messages to frames ----

  function SendOpcode(ty: MsgType): Opcode {
    match ty
    case TextMsg => Text
    case BinaryMsg => Binary
    case CloseMsg => Close
    case PingMsg => Ping
    case PongMsg => Pong
  }

  /** Text is opcode 1, binary 2, close 8, ping 9 and pong 10, for the writer and for the reader alike. */
  lemma TypesOnTheWire(ty: MsgType, continued: Option<MsgType>, fin: bool, len: nat)
    ensures OpcodeNumber(SendOpcode(ty)) ==
      match ty
      case TextMsg => 1
      case BinaryMsg => 2
      case CloseMsg => 8
      case PingMsg => 9
      case PongMsg => 10
    ensures var begun := Begin(continued, Header(fin, SendOpcode(ty), None, len));
      && begun.Some? && begun.value.0 == ty
      && begun.value.1 == if !ty.IsData() then continued else if fin then None else Some(ty)
    ensures var begun := Begin(continued, Header(fin, Continuation, None, len));
      && (begun.Some? <==> continued.Some?)
      && (begun.Some? ==> begun.value.0 == continued.value && begun.value.1 == if fin then None else continued)
  {
  }

  /**
   * A whole close frame closes the connection for reading, and is an error exactly if it has a status of at least
   * two bytes.
   */
  lemma CloseFrameRead(continued: Option<MsgType>, payload: bytes, mask: Option<Key>, rest: bytes, room: nat)
    requires |payload| < USIZE && |payload| <= room
    ensures var frame := EncodeFrame(AnyFrame.Frame(true, Close, payload), mask);
      Read(Between(continued), frame + rest, room) ==
        (Piece(|frame|, payload, true, CloseMsg, |payload| >= 2), Parser(false, continued, None))
  {
    hide DecodeHeader, ApplyMask, EncodeHeader;
    var h := Header(true, Close, mask, |payload|);
    var header, masked := EncodeHeader(h), ApplyMask(mask, 0, payload);
    HeaderRoundTrip(h, masked + rest);
    UnmaskMasked(mask, 0, payload);
    assert EncodeFrame(AnyFrame.Frame(true, Close, payload), mask) + rest == header + (masked + rest);
    assert (header + (masked + rest))[|header|..] == masked + rest && (masked + rest)[..|payload|] == masked;
  }

  function AllFrames(msgs: seq<Msg>, fs: nat): seq<Frame>
    requires 0 < fs < USIZE
  {
    if msgs == [] then []
    else MessageFrames(SendOpcode(msgs[0].ty), msgs[0].data, fs) + AllFrames(msgs[1..], fs)
  }

  /** Writing one more message appends its frames, so a run of writes puts `AllFrames` on the wire. */
  lemma {:induction false} AllFramesSnoc(msgs: seq<Msg>, m: Msg, fs: nat)
    requires 0 < fs < USIZE
    ensures AllFrames(msgs + [m], fs) == AllFrames(msgs, fs) + MessageFrames(SendOpcode(m.ty), m.data, fs)
    decreases |msgs|
  {
    hide MessageFrames;
    if msgs == [] {
      assert [] + [m] == [m] && [m][1..] == [];
      var frames := MessageFrames(SendOpcode(m.ty), m.data, fs);
      assert AllFrames([], fs) == [] && frames + [] == frames && [] + frames == frames;
    } else {
      assert (msgs + [m])[1..] == msgs[1..] + [m] && (msgs + [m])[0] == msgs[0];
      AllFramesSnoc(msgs[1..], m, fs);
      var a, b, c := MessageFrames(SendOpcode(msgs[0].ty), msgs[0].data, fs), AllFrames(msgs[1..], fs),
                     MessageFrames(SendOpcode(m.ty), m.data, fs);
      assert a + (b + c) == a + b + c;
    }
  }

  /** Empty messages produce no frame at all. */
  function NonEmpty(msgs: seq<Msg>): seq<Msg> {
    if msgs == [] then [] else (if msgs[0].data == [] then [] else [msgs[0]]) + NonEmpty(msgs[1..])
  }

  lemma {:induction false} MeaningConcat(continued: Option<MsgType>, acc: Acc, a: seq<Frame>, b: seq<Frame>)
    ensures Meaning(continued, acc, a + b) ==
      match Meaning(continued, acc, a)
      case None => None
      case Some((c, m)) => Meaning(c, m, b)
    decreases |a|
  {
    hide Feed;
    if a == [] {
      assert a + b == b;
    } else {
      assert (a + b)[1..] == a[1..] + b && (a + b)[0] == a[0];
      var f := a[0];
      var begun := Begin(continued, Header(f.fin, f.op, None, |f.payload|));
      hide Begin;
      if begun.Some? {
        MeaningConcat(begun.value.1, Feed(acc, begun.value.0, f.payload, f.fin), a[1..], b);
      }
    }
  }

  /** The fragments of one data message mean that message. */
  lemma {:induction false} MessageMeaning(ty: MsgType, buf: bytes, fs: nat, written: nat, acc: Acc)
    requires ty.IsData() && written < |buf| && 0 < fs < USIZE && acc.data == buf[..written]
    ensures Meaning(if written == 0 then None else Some(ty), acc, FramesFrom(SendOpcode(ty), buf, fs, written))
         == Some((None, acc.(data := [], out := acc.out + [Msg(ty, buf)])))
    decreases |buf| - written
  {
    var f := FrameAt(SendOpcode(ty), buf, fs, written);
    var next := written + Min(fs, |buf| - written);
    assert buf[..written] + buf[written..next] == buf[..next];
    var rest := FramesFrom(SendOpcode(ty), buf, fs, next);
    assert FramesFrom(SendOpcode(ty), buf, fs, written)[1..] == rest;
    if next == |buf| {
      assert buf[..next] == buf && rest == [];
    } else {
      MessageMeaning(ty, buf, fs, next, acc.(data := buf[..next]));
    }
  }

  lemma {:induction false} MessagesMeaning(msgs: seq<Msg>, fs: nat, acc: Acc)
    requires 0 < fs < USIZE && acc.data == []
    requires forall m :: m in msgs ==> m.ty.IsData()
    ensures Meaning(None, acc, AllFrames(msgs, fs)) == Some((None, acc.(out := acc.out + NonEmpty(msgs))))
    decreases |msgs|
  {
    hide Meaning;
    if msgs == [] {
      assert acc.out + [] == acc.out;
      MeaningOfNone(None, acc);
    } else {
      var m, rest := msgs[0], msgs[1..];
      assert m in msgs && forall x :: x in rest ==> x in msgs;
      MeaningConcat(None, acc, MessageFrames(SendOpcode(m.ty), m.data, fs), AllFrames(rest, fs));
      hide MessageFrames;
      if m.data == [] {
        NoFrames(SendOpcode(m.ty), fs);
        MeaningOfNone(None, acc);
        assert [] + NonEmpty(rest) == NonEmpty(rest);
        MessagesMeaning(rest, fs, acc);
      } else {
        WholeMessage(m, fs, acc);
        MessagesMeaning(rest, fs, acc.(out := acc.out + [m]));
        assert acc.out + [m] + NonEmpty(rest) == acc.out + ([m] + NonEmpty(rest));
      }
    }
  }

  lemma MeaningOfNone(continued: Option<MsgType>, acc: Acc)
    ensures Meaning(continued, acc, []) == Some((continued, acc))
  {
  }

  lemma NoFrames(ty: Opcode, fs: nat)
    requires 0 < fs < USIZE
    ensures MessageFrames(ty, [], fs) == []
  {
  }

  lemma WholeMessage(m: Msg, fs: nat, acc: Acc)
    requires m.ty.IsData() && m.data != [] && 0 < fs < USIZE && acc.data == []
    ensures Meaning(None, acc, MessageFrames(SendOpcode(m.ty), m.data, fs)) == Some((None, acc.(out := acc.out + [m])))
  {
    hide Meaning;
    assert m.data[..0] == [] && m == Msg(m.ty, m.data);
    MessageMeaning(m.ty, m.data, fs, 0, acc);
  }

  // ---- Control frames in between ----

  predicate IsControl(f: Frame) {
    f.op == Ping || f.op == Pong
  }

  function Strip(frames: seq<Frame>): seq<Frame> {
    if frames == [] then [] else (if IsControl(frames[0]) then [] else [frames[0]]) + Strip(frames[1..])
  }

  function ControlMsg(f: Frame): Msg {
    Msg(if f.op == Ping then PingMsg else PongMsg, f.payload)
  }

  function Controls(frames: seq<Frame>): seq<Msg> {
    if frames == [] then []
    else
      (if IsControl(frames[0]) then [ControlMsg(frames[0])] else []) + Controls(frames[1..])
  }

  /** Whole Ping and Pong frames between fragments change nothing but the list of control messages. */
  lemma {:induction false} ControlTransparency(continued: Option<MsgType>, acc: Acc, frames: seq<Frame>)
    requires Undisturbed(continued, acc, frames)
    ensures Transparent(continued, acc, frames)
    decreases |frames|
  {
    hide Meaning, Strip, Controls, Begin, Feed, IsControl;
    if frames == [] {
      TransparentNone(continued, acc);
    } else {
      var f, rest := frames[0], frames[1..];
      assert f in frames && forall g :: g in rest ==> g in frames;
      if IsControl(f) {
        var acc' := acc.(controls := acc.controls + [ControlMsg(f)]);
        ControlCase(continued, acc, frames);
        StripHasNone(rest);
        OtherControls(continued, acc, acc'.controls, Strip(rest));
        ControlTransparency(continued, acc', rest);
        assert acc'.controls + Controls(rest) == acc.controls + Controls(frames);
      } else {
        DataCase(continued, acc, frames);
        var (ty, continued') := Begin(continued, Header(f.fin, f.op, None, |f.payload|)).value;
        ControlTransparency(continued', Feed(acc, ty, f.payload, f.fin), rest);
      }
    }
  }

  /** Control frames are whole and do not start inside another one; the other frames make sense. */
  ghost predicate Undisturbed(continued: Option<MsgType>, acc: Acc, frames: seq<Frame>) {
    && !acc.unfinished
    && (forall f :: f in frames && IsControl(f) ==> f.fin)
    && (continued.None? || continued.value.IsData())
    && Meaning(continued, acc, Strip(frames)).Some?
  }

  /** With or without the control frames the data means the same; the control messages are all there, in order. */
  ghost predicate Transparent(continued: Option<MsgType>, acc: Acc, frames: seq<Frame>) {
    match Meaning(continued, acc, Strip(frames))
    case None => false
    case Some((c, m)) =>
      && m.controls == acc.controls && !m.unfinished
      && Meaning(continued, acc, frames) == Some((c, m.(controls := acc.controls + Controls(frames))))
  }

  lemma TransparentNone(continued: Option<MsgType>, acc: Acc)
    requires !acc.unfinished
    ensures Transparent(continued, acc, [])
  {
    assert acc.controls + [] == acc.controls;
  }

  lemma DataCase(continued: Option<MsgType>, acc: Acc, frames: seq<Frame>)
    requires frames != [] && !IsControl(frames[0]) && !acc.unfinished && (continued.None? || continued.value.IsData())
    requires Meaning(continued, acc, Strip(frames)).Some?
    ensures var f := frames[0];
      var begun := Begin(continued, Header(f.fin, f.op, None, |f.payload|));
      && begun.Some? && begun.value.0 != CloseMsg && (begun.value.1.None? || begun.value.1.value.IsData())
      && var a := Feed(acc, begun.value.0, f.payload, f.fin);
      && a.controls == acc.controls && !a.unfinished
      && Meaning(continued, acc, frames) == Meaning(begun.value.1, a, frames[1..])
      && Meaning(continued, acc, Strip(frames)) == Meaning(begun.value.1, a, Strip(frames[1..]))
      && Controls(frames) == Controls(frames[1..])
  {
    DataFeed(continued, acc, frames[0]);
    hide Begin, Feed;
    assert Strip(frames) == [frames[0]] + Strip(frames[1..]);
    assert Strip(frames)[1..] == Strip(frames[1..]) && [] + Controls(frames[1..]) == Controls(frames[1..]);
  }

  lemma ControlCase(continued: Option<MsgType>, acc: Acc, frames: seq<Frame>)
    requires frames != [] && IsControl(frames[0]) && frames[0].fin && !acc.unfinished
    ensures var c := ControlMsg(frames[0]);
      && Meaning(continued, acc, frames) == Meaning(continued, acc.(controls := acc.controls + [c]), frames[1..])
      && Strip(frames) == Strip(frames[1..]) && Controls(frames) == [c] + Controls(frames[1..])
  {
    ControlFeed(continued, acc, frames[0]);
    assert [] + Strip(frames[1..]) == Strip(frames[1..]);
  }

  lemma ControlFeed(continued: Option<MsgType>, acc: Acc, f: Frame)
    requires IsControl(f) && f.fin && !acc.unfinished
    ensures var c := ControlMsg(f);
      && Begin(continued, Header(f.fin, f.op, None, |f.payload|)) == Some((c.ty, continued)) && c.ty != CloseMsg
      && Feed(acc, c.ty, f.payload, f.fin) == acc.(controls := acc.controls + [c])
  {
    assert [] + f.payload == f.payload;
  }

  lemma DataFeed(continued: Option<MsgType>, acc: Acc, f: Frame)
    requires !IsControl(f) && !acc.unfinished && (continued.None? || continued.value.IsData())
    ensures var begun := Begin(continued, Header(f.fin, f.op, None, |f.payload|));
      begun.Some? && begun.value.0 != CloseMsg ==>
        && begun.value.0.IsData() && (begun.value.1.None? || begun.value.1.value.IsData())
        && var a := Feed(acc, begun.value.0, f.payload, f.fin);
        && a.controls == acc.controls && !a.unfinished
        && forall controls ::
             Feed(acc.(controls := controls), begun.value.0, f.payload, f.fin) == a.(controls := controls)
  {
  }

  lemma StripHasNone(frames: seq<Frame>)
    ensures forall f :: f in Strip(frames) ==> !IsControl(f)
  {
  }

  /** Data frames mean the same whatever control messages came before. */
  lemma {:induction false} OtherControls(continued: Option<MsgType>, acc: Acc, controls: seq<Msg>, frames: seq<Frame>)
    requires forall f :: f in frames ==> !IsControl(f)
    requires !acc.unfinished && (continued.None? || continued.value.IsData())
    ensures Meaning(continued, acc.(controls := controls), frames) ==
      match Meaning(continued, acc, frames)
      case None => None
      case Some((c, m)) => Some((c, m.(controls := controls)))
    ensures Meaning(continued, acc, frames).Some? ==>
      Meaning(continued, acc, frames).value.1.controls == acc.controls
        && !Meaning(continued, acc, frames).value.1.unfinished
    decreases |frames|
  {
    if frames != [] {
      var f := frames[0];
      assert f in frames && forall g :: g in frames[1..] ==> g in frames;
      DataFeed(continued, acc, f);
      hide Begin, Feed;
      var begun := Begin(continued, Header(f.fin, f.op, None, |f.payload|));
      if begun.Some? && begun.value.0 != CloseMsg {
        OtherControls(begun.value.1, Feed(acc, begun.value.0, f.payload, f.fin), controls, frames[1..]);
      }
    }
  }

  // ---- End to end ----

  /** The control messages that can no longer change. */
  function Finished(acc: Acc): seq<Msg> {
    if acc.unfinished && acc.controls != [] then acc.controls[..|acc.controls| - 1] else acc.controls
  }

  lemma FeedMonotone(a: Acc, ty: MsgType, data: bytes, last: bool)
    ensures a.out <= Feed(a, ty, data, last).out && Finished(a) <= Finished(Feed(a, ty, data, last))
    ensures |a.controls| <= |Feed(a, ty, data, last).controls|
  {
  }

  /** More input only ever adds messages. */
  lemma {:induction false} RunMonotone(s: Ideal, more: bytes)
    ensures var t := Run(s, more);
      s.acc.out <= t.acc.out && Finished(s.acc) <= Finished(t.acc) && |s.acc.controls| <= |t.acc.controls|
    decreases |more|
  {
    if more != [] {
      var init := more[..|more| - 1];
      RunMonotone(s, init);
      var t := Run(s, init);
      hide Run, Finished, Feed;
      if !t.stuck {
        var (r, p) := Read(t.parser, t.pending + [more[|more| - 1]], 1);
        if r.Piece? {
          FeedMonotone(t.acc, r.ty, r.data, r.endOfMessage);
        }
      }
    }
  }

  lemma {:induction false} PingPayloadsPrefix(x: seq<Msg>, y: seq<Msg>)
    requires x <= y
    ensures PingPayloads(x) <= PingPayloads(y)
  {
    if x != y {
      assert x <= y[..|y| - 1];
      PingPayloadsPrefix(x, y[..|y| - 1]);
    }
  }

  /** The frames carry these messages, with whole control frames anywhere in between. */
  ghost predicate Carries(frames: seq<Frame>, msgs: seq<Msg>, fs: nat)
    requires 0 < fs < USIZE
  {
    && (forall m :: m in msgs ==> m.ty.IsData())
    && Strip(frames) == AllFrames(msgs, fs)
    && (forall f :: f in frames && IsControl(f) ==> f.fin)
  }

  lemma WireMeaning(frames: seq<Frame>, msgs: seq<Msg>, fs: nat, client: bool, keys: nat -> Key, k: nat)
    requires 0 < fs < USIZE && Carries(frames, msgs, fs)
    ensures Run(Ready(START, NOTHING), Wire(frames, client, keys, k))
         == Ready(START, Acc([], NonEmpty(msgs), Controls(frames), false))
  {
    hide Meaning, Run, Strip, AllFrames, Wire;
    MessagesMeaning(msgs, fs, NOTHING);
    ControlTransparency(None, NOTHING, frames);
    RunWire(None, NOTHING, frames, client, keys, k);
    assert [] + NonEmpty(msgs) == NonEmpty(msgs) && [] + Controls(frames) == Controls(frames);
  }

  // ---- Every prefix of such a stream ----

  /** Parsed without an error, no close frame, and no control frame that is fragmented or exceeds `room`. */
  predicate Steady(s: Ideal, room: nat) {
    Accepted(s) && !OddState(s, room)
  }

  /**
   * A frame that is not a close frame, starts where it may, and is whole and no longer than `room` if it
   * is a control frame.
   */
  predicate Fine(continued: Option<MsgType>, f: Frame, room: nat) {
    var begun := Begin(continued, Header(f.fin, f.op, None, |f.payload|));
    && begun.Some? && begun.value.0 != CloseMsg
    && (IsControl(f) ==> f.fin && |f.payload| <= room)
  }

  /** A header with the first payload bytes behind it: they come out as one piece. */
  lemma ReadPart(continued: Option<MsgType>, h: Header, avail: bytes)
    requires h.len < USIZE && |avail| <= h.len
    requires Begin(continued, h).Some? && Begin(continued, h).value.0 != CloseMsg
    ensures var input := EncodeHeader(h) + avail;
      var (ty, continued') := Begin(continued, h).value;
      var m := |avail|;
      Read(Between(continued), input, m)
      == (Piece(|input|, ApplyMask(h.mask, 0, avail), m == h.len && h.fin, ty, false),
          Parser(true, continued', if m == h.len then None else Some(Current(ty, h.fin, h.mask, m, h.len - m))))
  {
    hide DecodeHeader, ApplyMask, EncodeHeader, Begin;
    HeaderRoundTrip(h, avail);
    assert (EncodeHeader(h) + avail)[|EncodeHeader(h)|..] == avail && avail[..|avail|] == avail;
  }

  lemma FramePrefix(continued: Option<MsgType>, acc: Acc, f: Frame, mask: Option<Key>, room: nat, n: nat)
    requires Fine(continued, f, room) && !acc.unfinished && n <= |EncodeFrame(f, mask)|
    requires continued.None? || continued.value.IsData()
    ensures Steady(Run(Ready(Between(continued), acc), EncodeFrame(f, mask)[..n]), room)
  {
    hide Run, Feed, DecodeHeader, ApplyMask, EncodeHeader, Begin;
    var h := Header(f.fin, f.op, mask, |f.payload|);
    var header, masked := EncodeHeader(h), ApplyMask(mask, 0, f.payload);
    var input := EncodeFrame(f, mask)[..n];
    SameBegin(continued, f, mask);
    HeaderRoundTrip(h, []);
    assert header + [] == header;
    if n < |header| {
      HeaderExact(header, []);
      assert input == header[..n];
      RunHeaderBytes(Between(continued), acc, input);
    } else {
      var avail := masked[..n - |header|];
      assert input == header + avail;
      ReadPart(continued, h, avail);
      PieceIsRun(Between(continued), acc, input, |avail|);
      assert input[..|input|] == input;
      BeginType(continued, f);
      PartKeeps(acc, Begin(continued, h).value.0, ApplyMask(mask, 0, avail), |avail| == h.len && h.fin);
    }
  }

  lemma BeginType(continued: Option<MsgType>, f: Frame)
    requires continued.None? || continued.value.IsData()
    requires var begun := Begin(continued, Header(f.fin, f.op, None, |f.payload|));
      begun.Some? && begun.value.0 != CloseMsg
    ensures Begin(continued, Header(f.fin, f.op, None, |f.payload|)).value.0.IsData() <==> !IsControl(f)
  {
  }

  lemma PartKeeps(acc: Acc, ty: MsgType, data: bytes, last: bool)
    requires !acc.unfinished
    ensures ty.IsData() || last ==> !Feed(acc, ty, data, last).unfinished
  {
  }

  /** Every prefix of the bytes of fine frames that mean something is steady. */
  lemma {:induction false} WireSteady(continued: Option<MsgType>, acc: Acc, frames: seq<Frame>, client: bool,
                                      keys: nat -> Key, k: nat, room: nat, n: nat)
    requires Undisturbed(continued, acc, frames)
    requires forall f :: f in frames && IsControl(f) ==> |f.payload| <= room
    requires n <= |Wire(frames, client, keys, k)|
    ensures Steady(Run(Ready(Between(continued), acc), Wire(frames, client, keys, k)[..n]), room)
    decreases |frames|
  {
    hide Run, Feed, EncodeFrame, Meaning, Strip, Begin;
    if frames == [] {
      RunNothing(Ready(Between(continued), acc), Wire(frames, client, keys, k)[..n]);
    } else {
      var f, rest, mask := frames[0], frames[1..], MaskFor(client, keys, k);
      assert f in frames && forall g :: g in rest ==> g in frames;
      var first, behind := EncodeFrame(f, mask), Wire(rest, client, keys, k + 1);
      var begun := NextUndisturbed(continued, acc, frames);
      var (ty, continued') := begun;
      if n <= |first| {
        FramePrefix(continued, acc, f, mask, room, n);
        assert (first + behind)[..n] == first[..n];
      } else {
        SameBegin(continued, f, mask);
        RunFrame(continued, acc, f, mask);
        RunConcat(Ready(Between(continued), acc), first, behind[..n - |first|]);
        assert (first + behind)[..n] == first + behind[..n - |first|];
        WireSteady(continued', Feed(acc, ty, f.payload, f.fin), rest, client, keys, k + 1, room, n - |first|);
      }
    }
  }

  lemma NextUndisturbed(continued: Option<MsgType>, acc: Acc, frames: seq<Frame>)
    returns (begun: (MsgType, Option<MsgType>))
    requires frames != [] && Undisturbed(continued, acc, frames)
    ensures var f := frames[0];
      && Begin(continued, Header(f.fin, f.op, None, |f.payload|)) == Some(begun) && begun.0 != CloseMsg
      && Undisturbed(begun.1, Feed(acc, begun.0, f.payload, f.fin), frames[1..])
  {
    hide Strip;
    var f := frames[0];
    assert f in frames && forall g :: g in frames[1..] ==> g in frames;
    if IsControl(f) {
      ControlFeed(continued, acc, f);
      ControlCase(continued, acc, frames);
      var c := ControlMsg(f);
      StripHasNone(frames[1..]);
      OtherControls(continued, acc, acc.controls + [c], Strip(frames[1..]));
      begun := (c.ty, continued);
    } else {
      hide Feed;
      DataCase(continued, acc, frames);
      begun := Begin(continued, Header(f.fin, f.op, None, |f.payload|)).value;
    }
  }

  /** The bytes of a peer that sends such frames: no prefix sticks, closes, or shows an odd control frame. */
  lemma PeerIsSteady(frames: seq<Frame>, msgs: seq<Msg>, fs: nat, client: bool, keys: nat -> Key, k: nat, room: nat)
    requires 0 < fs < USIZE && Carries(frames, msgs, fs)
    requires forall f :: f in frames && IsControl(f) ==> |f.payload| <= room
    ensures var wire := Wire(frames, client, keys, k);
      forall n :: 0 <= n <= |wire| ==> Steady(Meant(wire[..n]), room)
  {
    hide Meaning, Run, Wire, Strip, AllFrames, Steady;
    MessagesMeaning(msgs, fs, NOTHING);
    var wire := Wire(frames, client, keys, k);
    forall n | 0 <= n <= |wire|
      ensures Steady(Meant(wire[..n]), room)
    {
      WireSteady(None, NOTHING, frames, client, keys, k, room, n);
    }
  }

  lemma {:induction false} NonEmptyMembers(msgs: seq<Msg>)
    ensures forall m :: m in NonEmpty(msgs) ==> m in msgs
    decreases |msgs|
  {
    if msgs != [] {
      NonEmptyMembers(msgs[1..]);
    }
  }

  /** With clean pieces, what was returned and echoed is a prefix of what was sent, and all of it in the end. */
  lemma CleanTransparency(frames: seq<Frame>, msgs: seq<Msg>, fs: nat, client: bool, keys: nat -> Key, k: nat,
                          consumed: bytes, unread: bytes, parser: Parser, log: seq<LogPiece>)
    requires 0 < fs < USIZE && Carries(frames, msgs, fs)
    requires consumed + unread == Wire(frames, client, keys, k)
    requires InStep(consumed, parser, log) && Clean(log)
    ensures Assemble(log).out <= NonEmpty(msgs) && Assemble(log).pongs <= PingPayloads(Controls(frames))
    ensures Stalled(consumed, unread, log) ==>
      Assemble(log).out == NonEmpty(msgs) && Assemble(log).pongs == PingPayloads(Controls(frames))
      && Flatten(Assemble(log).stack) == []
  {
    hide Carries, Run, Wire, Flatten, AssembleFrom;
    var start := Ready(START, NOTHING);
    WireMeaning(frames, msgs, fs, client, keys, k);
    RunConcat(start, consumed, unread);
    RunMonotone(Run(start, consumed), unread);
    CleanFresh(log);
    CleanIff([], log);
    PingPayloadsPrefix(Finished(Replay(log)), Controls(frames));
  }

  /** The messages understood so far are among those sent. */
  lemma OutSoFar(frames: seq<Frame>, msgs: seq<Msg>, fs: nat, client: bool, keys: nat -> Key, k: nat,
                 consumed: bytes, unread: bytes, parser: Parser, log: seq<LogPiece>)
    requires 0 < fs < USIZE && Carries(frames, msgs, fs)
    requires consumed + unread == Wire(frames, client, keys, k) && InStep(consumed, parser, log)
    ensures forall m :: m in Replay(log).out ==> m in msgs
    ensures |Replay(log).controls| <= |Controls(frames)|
  {
    hide Carries, Run, Wire, Replay;
    var start := Ready(START, NOTHING);
    WireMeaning(frames, msgs, fs, client, keys, k);
    RunConcat(start, consumed, unread);
    RunMonotone(Run(start, consumed), unread);
    NonEmptyMembers(msgs);
    OutMembers(Replay(log).out, NonEmpty(msgs));
  }

  /**
   * Control-frame transparency, at any moment of any read schedule: if no message ends in the
   * keepalive payload and control payloads are whole frames no longer than the reader's scratch
   * buffer, what was returned is a prefix of the non-empty messages written and the echoed Ping
   * payloads a prefix of those sent; once nothing more can be parsed out of the whole stream, it is
   * all of them.
   */
  lemma Transparency(frames: seq<Frame>, msgs: seq<Msg>, fs: nat, client: bool, keys: nat -> Key, k: nat, room: nat,
                     consumed: bytes, unread: bytes, parser: Parser, log: seq<LogPiece>)
    requires 0 < fs < USIZE && Carries(frames, msgs, fs)
    requires forall m :: m in msgs ==> !EndsWith(m.data, PING_MSG)
    requires forall f :: f in frames && IsControl(f) ==> |f.payload| <= room
    requires consumed + unread == Wire(frames, client, keys, k)
    requires InStep(consumed, parser, log) && Unsplit(consumed, log, room)
    ensures Assemble(log).out <= NonEmpty(msgs) && Assemble(log).pongs <= PingPayloads(Controls(frames))
    ensures Stalled(consumed, unread, log) ==>
      Assemble(log).out == NonEmpty(msgs) && Assemble(log).pongs == PingPayloads(Controls(frames))
      && Flatten(Assemble(log).stack) == []
  {
    hide Carries, Run, Wire, Flatten, AssembleFrom, EndsWith, WholeControls, Clean, Replay, OddState;
    PeerIsSteady(frames, msgs, fs, client, keys, k, room);
    SamePrefixes(consumed, unread);
    assert forall n :: !OddAt(consumed, room, n);
    OutSoFar(frames, msgs, fs, client, keys, k, consumed, unread, parser, log);
    TidyLogIsClean(log);
    CleanTransparency(frames, msgs, fs, client, keys, k, consumed, unread, parser, log);
  }

  lemma SamePrefixes(a: bytes, b: bytes)
    ensures forall n {:trigger a[..n]} :: 0 <= n <= |a| ==> (a + b)[..n] == a[..n]
  {
  }

  /** A peer that sends such frames is never refused: reading from it fails only if the stream does. */
  lemma NeverRefused(frames: seq<Frame>, msgs: seq<Msg>, fs: nat, client: bool, keys: nat -> Key, k: nat, room: nat,
                     consumed: bytes, buffered: bytes, coming: bytes, parser: Parser, log: seq<LogPiece>)
    requires 0 < fs < USIZE && Carries(frames, msgs, fs)
    requires consumed + buffered + coming == Wire(frames, client, keys, k)
    requires InStep(consumed, parser, log) && ParserValid(parser)
    ensures !Refuses(parser, buffered, room)
  {
    hide Carries, Run, Wire, Accepted, Refuses, InStep;
    var longest := LongestControl(frames);
    PeerIsSteady(frames, msgs, fs, client, keys, k, longest);
    SamePrefixes(consumed + buffered, coming);
    if Refuses(parser, buffered, room) {
      var n := RefusalMeans(consumed, parser, log, buffered, room);
    }
  }

  lemma {:induction false} LongestControl(frames: seq<Frame>) returns (n: nat)
    ensures forall f :: f in frames && IsControl(f) ==> |f.payload| <= n
    decreases |frames|
  {
    n := 0;
    if frames != [] {
      var rest := LongestControl(frames[1..]);
      n := if |frames[0].payload| > rest then |frames[0].payload| else rest;
    }
  }

  lemma {:induction false} DataOnly(ty: Opcode, buf: bytes, fs: nat, written: nat)
    requires written <= |buf| && 0 < fs < USIZE && (ty == Text || ty == Binary)
    ensures forall f :: f in FramesFrom(ty, buf, fs, written) ==> !IsControl(f)
  {
    FramesPartition(ty, buf, fs, written);
  }

  lemma {:induction false} StripData(frames: seq<Frame>)
    requires forall f :: f in frames ==> !IsControl(f)
    ensures Strip(frames) == frames && Controls(frames) == []
    decreases |frames|
  {
    if frames != [] {
      assert frames[0] in frames && forall f :: f in frames[1..] ==> f in frames;
      StripData(frames[1..]);
    }
  }

  lemma {:induction false} AllFramesData(msgs: seq<Msg>, fs: nat)
    requires 0 < fs < USIZE && forall m :: m in msgs ==> m.ty.IsData()
    ensures forall f :: f in AllFrames(msgs, fs) ==> !IsControl(f)
    decreases |msgs|
  {
    if msgs != [] {
      assert msgs[0] in msgs && forall m :: m in msgs[1..] ==> m in msgs;
      DataOnly(SendOpcode(msgs[0].ty), msgs[0].data, fs, 0);
      AllFramesData(msgs[1..], fs);
      hide FramesFrom, IsControl;
    }
  }

  /**
   * End-to-end round trip: messages written with any frame size and read under any segmentation into
   * any scratch buffer come out as the same messages, types and order included, provided none ends in
   * the keepalive payload; empty messages are the only ones lost.
   */
  lemma EndToEnd(msgs: seq<Msg>, fs: nat, client: bool, keys: nat -> Key, k: nat,
                 consumed: bytes, unread: bytes, parser: Parser, log: seq<LogPiece>)
    requires 0 < fs < USIZE
    requires forall m :: m in msgs ==> m.ty.IsData() && !EndsWith(m.data, PING_MSG)
    requires consumed + unread == Wire(AllFrames(msgs, fs), client, keys, k)
    requires InStep(consumed, parser, log)
    ensures Assemble(log).out <= NonEmpty(msgs)
    ensures Stalled(consumed, unread, log) ==> Assemble(log).out == NonEmpty(msgs)
  {
    hide Run, Wire, AllFrames, EndsWith, AssembleFrom, Replay;
    var frames := AllFrames(msgs, fs);
    AllFramesData(msgs, fs);
    StripData(frames);
    OutSoFar(frames, msgs, fs, client, keys, k, consumed, unread, parser, log);
    QuietLogIsWhole(log);
    TidyLogIsClean(log);
    CleanTransparency(frames, msgs, fs, client, keys, k, consumed, unread, parser, log);
  }

  lemma OutMembers(x: seq<Msg>, y: seq<Msg>)
    requires x <= y
    ensures forall m :: m in x ==> m in y
  {
  }
}
