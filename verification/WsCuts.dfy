/**
 * Reading frames that are already buffered: the parser cuts a payload into pieces of the scratch
 * buffer's size, which decides whether control frames stay out of the messages.
 */
module WsCuts {
  import opened Bytes
  import opened WsFrame
  import opened WsParser
  import opened WsAssembly
  import opened WsWrite
  import opened WsRoundTrip

  /** The pieces the reading loop gets out of buffered bytes without reading more. */
  function ReadAll(p: Parser, from: bytes, room: nat): seq<LogPiece>
    decreases |from|
  {
    var (r, p') := Read(p, from, room);
    if r.Piece? && r.lenFrom > 0 then
      [LogPiece(r.ty, r.data, r.endOfMessage)] + ReadAll(p', from[r.lenFrom..], room)
    else []
  }

  /** A payload in pieces of `room` bytes. */
  function Cuts(ty: MsgType, data: bytes, fin: bool, room: nat): seq<LogPiece>
    requires room > 0
    decreases |data|
  {
    if |data| <= room then [LogPiece(ty, data, fin)]
    else [LogPiece(ty, data[..room], false)] + Cuts(ty, data[room..], fin, room)
  }

  function AllCuts(continued: Option<MsgType>, frames: seq<Frame>, room: nat): seq<LogPiece>
    requires room > 0
    decreases |frames|
  {
    if frames == [] then []
    else
      var f := frames[0];
      match Begin(continued, Header(f.fin, f.op, None, |f.payload|))
      case None => []
      case Some((ty, continued')) => Cuts(ty, f.payload, f.fin, room) + AllCuts(continued', frames[1..], room)
  }

  // ---- The parser cuts like that ----

  lemma MaskedFront(mask: Option<Key>, pos: nat, data: bytes, n: nat, rest: bytes)
    requires n <= |data|
    ensures var masked := ApplyMask(mask, pos, data);
      && ApplyMask(mask, pos, (masked + rest)[..n]) == data[..n]
      && (masked + rest)[n..] == ApplyMask(mask, pos + n, data[n..]) + rest
  {
    hide ApplyMask;
    MaskSplits(mask, pos, data[..n], data[n..]);
    assert data[..n] + data[n..] == data;
    UnmaskMasked(mask, pos, data[..n]);
    var masked := ApplyMask(mask, pos, data);
    assert (masked + rest)[..n] == ApplyMask(mask, pos, data[..n]);
  }

  lemma TakeCut(p: Parser, c: Current, data: bytes, rest: bytes, room: nat, headerSize: nat)
    requires |data| == c.remaining && c.ty != CloseMsg && room > 0
    ensures var avail := ApplyMask(c.mask, c.pos, data) + rest;
      Take(p, c, avail, room, headerSize) ==
        if |data| <= room then (Piece(headerSize + |data|, data, c.fin, c.ty, false), p.(current := None))
        else (Piece(headerSize + room, data[..room], false, c.ty, false),
              p.(current := Some(c.(pos := c.pos + room, remaining := c.remaining - room))))
  {
    hide ApplyMask;
    MaskedFront(c.mask, c.pos, data, if |data| <= room then |data| else room, rest);
    assert data[..|data|] == data;
  }

  lemma {:induction false} CutsRest(continued: Option<MsgType>, c: Current, data: bytes, rest: bytes, room: nat)
    requires |data| == c.remaining > 0 && c.ty != CloseMsg && room > 0
    ensures ReadAll(Parser(true, continued, Some(c)), ApplyMask(c.mask, c.pos, data) + rest, room)
         == Cuts(c.ty, data, c.fin, room) + ReadAll(Between(continued), rest, room)
    decreases |data|
  {
    hide ApplyMask, Take;
    var p := Parser(true, continued, Some(c));
    TakeCut(p, c, data, rest, room, 0);
    if |data| <= room {
      MaskedFront(c.mask, c.pos, data, |data|, rest);
      NoneLeft(c.mask, c.pos + |data|, data[|data|..], rest);
    } else {
      MaskedFront(c.mask, c.pos, data, room, rest);
      var c' := c.(pos := c.pos + room, remaining := c.remaining - room);
      CutsRest(continued, c', data[room..], rest, room);
      var first := [LogPiece(c.ty, data[..room], false)];
      hide ReadAll, Cuts;
      assert first + (Cuts(c.ty, data[room..], c.fin, room) + ReadAll(Between(continued), rest, room))
          == first + Cuts(c.ty, data[room..], c.fin, room) + ReadAll(Between(continued), rest, room);
    }
  }

  lemma NoneLeft(mask: Option<Key>, pos: nat, data: bytes, rest: bytes)
    requires data == []
    ensures ApplyMask(mask, pos, data) + rest == rest
  {
  }

  lemma ReadFront(continued: Option<MsgType>, f: Frame, mask: Option<Key>, rest: bytes, room: nat)
    requires room > 0
    requires var begun := Begin(continued, Header(f.fin, f.op, mask, |f.payload|));
      begun.Some? && begun.value.0 != CloseMsg
    ensures var h := Header(f.fin, f.op, mask, |f.payload|);
      var (ty, continued') := Begin(continued, h).value;
      var c := Current(ty, f.fin, mask, 0, |f.payload|);
      && Read(Between(continued), EncodeFrame(f, mask) + rest, room)
         == Take(Between(continued'), c, ApplyMask(mask, 0, f.payload) + rest, room, |EncodeHeader(h)|)
      && forall n :: 0 <= n <= |f.payload| + |rest| ==>
           (EncodeFrame(f, mask) + rest)[|EncodeHeader(h)| + n..] == (ApplyMask(mask, 0, f.payload) + rest)[n..]
  {
    hide ApplyMask, EncodeHeader, DecodeHeader, Take, Begin;
    var h := Header(f.fin, f.op, mask, |f.payload|);
    var masked := ApplyMask(mask, 0, f.payload);
    HeaderRoundTrip(h, masked + rest);
    assert EncodeFrame(f, mask) + rest == EncodeHeader(h) + (masked + rest);
    assert (EncodeHeader(h) + (masked + rest))[|EncodeHeader(h)|..] == masked + rest;
  }

  lemma ReadAllStep(p: Parser, from: bytes, room: nat)
    requires Read(p, from, room).0.Piece? && Read(p, from, room).0.lenFrom > 0
    ensures var (r, p') := Read(p, from, room);
      ReadAll(p, from, room)
      == [LogPiece(r.ty, r.data, r.endOfMessage)] + ReadAll(p', from[r.lenFrom..], room)
  {
  }

  lemma CutsFrame(continued: Option<MsgType>, f: Frame, mask: Option<Key>, rest: bytes, room: nat)
    requires room > 0
    requires var begun := Begin(continued, Header(f.fin, f.op, mask, |f.payload|));
      begun.Some? && begun.value.0 != CloseMsg
    ensures var (ty, continued') := Begin(continued, Header(f.fin, f.op, mask, |f.payload|)).value;
      ReadAll(Between(continued), EncodeFrame(f, mask) + rest, room)
      == Cuts(ty, f.payload, f.fin, room) + ReadAll(Between(continued'), rest, room)
  {
    hide ApplyMask, EncodeHeader, Read, Take, Begin, EncodeFrame, ReadAll;
    var h := Header(f.fin, f.op, mask, |f.payload|);
    var (ty, continued') := Begin(continued, h).value;
    var c := Current(ty, f.fin, mask, 0, |f.payload|);
    var data, input := f.payload, EncodeFrame(f, mask) + rest;
    ReadFront(continued, f, mask, rest, room);
    TakeCut(Between(continued'), c, data, rest, room, |EncodeHeader(h)|);
    var n := if |data| <= room then |data| else room;
    MaskedFront(mask, 0, data, n, rest);
    ReadAllStep(Between(continued), input, room);
    if |data| <= room {
      NoneLeft(mask, |data|, data[|data|..], rest);
    } else {
      CutsRest(continued', c.(pos := room, remaining := |data| - room), data[room..], rest, room);
      var first := [LogPiece(ty, data[..room], false)];
      var more, behind := Cuts(ty, data[room..], f.fin, room), ReadAll(Between(continued'), rest, room);
      assert first + (more + behind) == first + more + behind;
    }
  }

  lemma {:induction false} CutsWire(continued: Option<MsgType>, acc: Acc, frames: seq<Frame>, client: bool,
                                    keys: nat -> Key, k: nat, room: nat)
    requires room > 0 && Meaning(continued, acc, frames).Some?
    ensures ReadAll(Between(continued), Wire(frames, client, keys, k), room) == AllCuts(continued, frames, room)
    decreases |frames|
  {
    hide EncodeFrame, Feed, Cuts;
    if frames == [] {
      NothingToRead(continued, room);
    } else {
      var f, mask := frames[0], MaskFor(client, keys, k);
      SameBegin(continued, f, mask);
      CutsFrame(continued, f, mask, Wire(frames[1..], client, keys, k + 1), room);
      var (ty, continued') := Begin(continued, Header(f.fin, f.op, None, |f.payload|)).value;
      CutsWire(continued', Feed(acc, ty, f.payload, f.fin), frames[1..], client, keys, k + 1, room);
      hide ReadAll, Begin;
    }
  }

  lemma NothingToRead(continued: Option<MsgType>, room: nat)
    ensures ReadAll(Between(continued), [], room) == []
  {
  }

  // ---- What the cuts mean ----

  lemma {:induction false} ReplayCuts(log: seq<LogPiece>, ty: MsgType, data: bytes, fin: bool, room: nat)
    requires room > 0
    ensures Replay(log + Cuts(ty, data, fin, room)) == Feed(Replay(log), ty, data, fin)
    decreases |data|
  {
    hide Feed, Replay;
    if |data| <= room {
      ReplaySnoc(log, LogPiece(ty, data, fin));
    } else {
      var p := LogPiece(ty, data[..room], false);
      ReplaySnoc(log, p);
      ReplayCuts(log + [p], ty, data[room..], fin, room);
      FeedMerges(Replay(log), ty, data[..room], data[room..], fin);
      assert data[..room] + data[room..] == data;
      assert log + [p] + Cuts(ty, data[room..], fin, room) == log + ([p] + Cuts(ty, data[room..], fin, room));
    }
  }

  lemma {:induction false} ReplayAllCuts(log: seq<LogPiece>, continued: Option<MsgType>, frames: seq<Frame>, room: nat)
    requires room > 0 && Meaning(continued, Replay(log), frames).Some?
    ensures Replay(log + AllCuts(continued, frames, room)) == Meaning(continued, Replay(log), frames).value.1
    decreases |frames|
  {
    hide Feed, Replay, Cuts;
    if frames == [] {
      assert log + [] == log;
    } else {
      var f := frames[0];
      var (ty, continued') := Begin(continued, Header(f.fin, f.op, None, |f.payload|)).value;
      var cuts, rest := Cuts(ty, f.payload, f.fin, room), AllCuts(continued', frames[1..], room);
      ReplayCuts(log, ty, f.payload, f.fin, room);
      ReplayAllCuts(log + cuts, continued', frames[1..], room);
      assert log + cuts + rest == log + (cuts + rest);
    }
  }

  lemma {:induction false} CutsWhole(ty: MsgType, data: bytes, room: nat)
    requires room > 0
    ensures WholeControls(Cuts(ty, data, true, room)) <==> ty.IsData() || |data| <= room
    decreases |data|
  {
    if |data| > room {
      CutsWhole(ty, data[room..], room);
      var first := LogPiece(ty, data[..room], false);
      assert first in Cuts(ty, data, true, room);
      if ty.IsData() {
        WholeAppend([first], Cuts(ty, data[room..], true, room));
      }
    }
  }

  lemma WholeAppend(a: seq<LogPiece>, b: seq<LogPiece>)
    ensures WholeControls(a + b) <==> WholeControls(a) && WholeControls(b)
  {
    if WholeControls(a + b) {
      assert forall p :: p in a ==> p in a + b;
      assert forall p :: p in b ==> p in a + b;
    }
  }

  lemma {:induction false} DataCutsWhole(ty: MsgType, data: bytes, fin: bool, room: nat)
    requires room > 0 && ty.IsData()
    ensures WholeControls(Cuts(ty, data, fin, room))
    decreases |data|
  {
    if |data| > room {
      DataCutsWhole(ty, data[room..], fin, room);
    }
  }

  /** Every control frame fits the scratch buffer. */
  predicate ControlsFit(frames: seq<Frame>, room: nat) {
    forall f :: f in frames && IsControl(f) ==> |f.payload| <= room
  }

  lemma {:induction false} AllCutsWholeIff(continued: Option<MsgType>, acc: Acc, frames: seq<Frame>, room: nat)
    requires room > 0 && Meaning(continued, acc, frames).Some?
    requires continued.None? || continued.value.IsData()
    requires forall f :: f in frames && IsControl(f) ==> f.fin
    ensures WholeControls(AllCuts(continued, frames, room)) <==> ControlsFit(frames, room)
    decreases |frames|
  {
    hide Feed, Cuts, WholeControls;
    if frames == [] {
      NothingIsWhole();
    } else {
      var f, rest := frames[0], frames[1..];
      var (ty, continued') := Begin(continued, Header(f.fin, f.op, None, |f.payload|)).value;
      assert f in frames && forall g :: g in rest ==> g in frames;
      assert forall g :: g in frames ==> g == f || g in rest;
      AllCutsWholeIff(continued', Feed(acc, ty, f.payload, f.fin), rest, room);
      WholeAppend(Cuts(ty, f.payload, f.fin, room), AllCuts(continued', rest, room));
      BeginType(continued, f);
      if IsControl(f) {
        CutsWhole(ty, f.payload, room);
      } else {
        DataCutsWhole(ty, f.payload, f.fin, room);
      }
    }
  }

  lemma NothingIsWhole()
    ensures WholeControls([])
  {
  }

  /**
   * When control frames stay out of the messages: for any frames that carry messages which do not end
   * in the keepalive payload, with whole control frames anywhere in between, read out of a buffer that
   * holds them all, the messages come out unchanged if and only if every control payload fits the
   * scratch buffer. A longer one leaves its first pieces in the text.
   */
  lemma ControlsFitIff(frames: seq<Frame>, msgs: seq<Msg>, fs: nat, client: bool, keys: nat -> Key, k: nat, room: nat)
    requires 0 < fs < USIZE && room > 0 && Carries(frames, msgs, fs)
    requires forall m :: m in msgs ==> !EndsWith(m.data, PING_MSG)
    ensures var a := Assemble(ReadAll(START, Wire(frames, client, keys, k), room));
      && (a.out == NonEmpty(msgs) && Flatten(a.stack) == [] <==> ControlsFit(frames, room))
      && (ControlsFit(frames, room) ==> a.pongs == PingPayloads(Controls(frames)))
  {
    hide Meaning, Strip, AllFrames, Wire, Cuts, ReadAll, AllCuts, AssembleFrom, Replay, EndsWith, WholeControls, Clean,
         ControlsFit;
    MessagesMeaning(msgs, fs, NOTHING);
    ControlTransparency(None, NOTHING, frames);
    CutsWire(None, NOTHING, frames, client, keys, k, room);
    var log := AllCuts(None, frames, room);
    ReplayNone();
    ReplayAllCuts([], None, frames, room);
    assert [] + log == log && [] + NonEmpty(msgs) == NonEmpty(msgs) && [] + Controls(frames) == Controls(frames);
    AllCutsWholeIff(None, NOTHING, frames, room);
    NonEmptyMembers(msgs);
    CleanFresh(log);
    if WholeControls(log) {
      TidyLogIsClean(log);
    } else {
      CleanIsWhole(log);
    }
  }

  lemma ReplayNone()
    ensures Replay([]) == NOTHING
  {
  }

  lemma CleanIsWhole(log: seq<LogPiece>)
    ensures Clean(log) ==> WholeControls(log)
  {
  }
}
