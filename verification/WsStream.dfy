/** One connected `WsStream`: the writing and reading loops over its buffers. */
module WsStream {
  import opened Bytes
  import opened Buffers
  import opened WsFrame
  import opened WsParser
  import opened WsAssembly
  import opened WsReading
  import opened WsWrite
  import opened WsRoundTrip

  datatype MsgResult = EndOf(ty: MsgType) | MsgBlocked | MsgDisconnected
  datatype Received = Message(msg: Msg) | NothingYet | Disconnected

  const INSANITY_LOOP_CNT: nat := 10000

  class WsStream {
    const client: bool
    const frameSize: nat
    const keys: nat -> Key            // the random masks, in the order they are drawn
    const stream: Stream
    const wbuf: WriteBuffer
    const readBuffer: BufferVec
    const buffer: array<byte>
    var alive: bool
    var connected: bool
    var parser: Parser
    var continuing: bool              // the writer is between the fragments of a message
    var nextKey: nat
    var continuation: seq<bytes>
    ghost var sentBefore: bytes       // bytes the connection carried before the handshake ended
    ghost var frames: seq<Frame>      // frames written, all messages together
    ghost var consumed: bytes         // bytes the parser took
    ghost var log: seq<LogPiece>      // pieces it handed out
    ghost var delivered: seq<Msg>     // messages returned to the caller
    ghost var pongs: seq<bytes>       // Ping payloads echoed

    ghost predicate Valid()
      reads this`connected, this`parser, this`consumed, this`log, readBuffer
      reads this`sentBefore, this`frames, this`nextKey, this`continuing, stream`sent, wbuf
    {
      && readBuffer.Valid()
      && 0 < frameSize < USIZE
      && buffer.Length == 2 * frameSize && buffer != readBuffer.buf
      && ParserValid(parser)
      && InStep(consumed, parser, log)
      && (connected ==> Written())
    }

    /** Everything the writer produced is sent or waiting, and no message is half written. */
    ghost predicate Written()
      reads this`sentBefore, this`frames, this`nextKey, this`continuing, stream`sent, wbuf
    {
      && stream.sent + wbuf.pending == sentBefore + Wire(frames, client, keys, 0)
      && nextKey == |frames| && !continuing
    }

    /** The continuation stack, the messages and the echoes are what reassembling the pieces gives. */
    ghost predicate Synced()
      reads this`log, this`continuation, this`delivered, this`pongs
    {
      Assemble(log) == Assembly(continuation, delivered, pongs)
    }

    /** The last piece of a message was pushed and is not resolved yet. */
    ghost predicate MessageOnTop(ty: MsgType)
      reads this`log, this`continuation, this`delivered, this`pongs
    {
      && log != []
      && var p := log[|log| - 1];
      && p.last && p.ty == ty
      && Assembly(continuation, delivered, pongs) == Push(Assemble(log[..|log| - 1]), p.data)
    }

    /** Every message can be written: with smaller frames the writing loop need not end. */
    predicate Roomy() {
      frameSize >= if client then 6 else 2
    }

    /** Control payloads came in one piece each, unless the peer sent an odd control frame. */
    ghost predicate Unspoilt()
      reads this`consumed, this`log
    {
      Unsplit(consumed, log, 2 * frameSize)
    }

    /** What was read so far stops inside a control frame. */
    ghost predicate Doomed()
      requires readBuffer.Valid()
      reads this`consumed, readBuffer, readBuffer.buf
    {
      InsideControl(Meant(consumed + readBuffer.Contents()))
    }

    /** The parser is inside a control frame and nothing is buffered. */
    ghost predicate Starved()
      reads this`consumed, readBuffer
    {
      readBuffer.len == 0 && InsideControl(Meant(consumed))
    }

    /** The parser refuses what is buffered. */
    ghost predicate Refused()
      requires readBuffer.Valid()
      reads this`parser, readBuffer, readBuffer.buf
    {
      Refuses(parser, readBuffer.Contents(), 2 * frameSize)
    }

    /**
     * Nothing to go on: what is buffered adds nothing, does not stop inside a control frame and is not
     * refused, and the last read blocked (a full buffer of this size always holds something to parse).
     */
    ghost predicate Waiting(before: seq<ReadEvent>)
      requires readBuffer.Valid()
      reads this`consumed, this`log, this`parser, readBuffer, readBuffer.buf, stream`schedule, stream`incoming
    {
      && Stalled(consumed, readBuffer.Contents(), log) && !Doomed() && !Refused()
      && (readBuffer.cap >= 14 ==> Blocked(before, stream.schedule, stream.incoming))
    }

    /** A bound on the rounds it takes to read everything. */
    ghost function Effort(): nat
      reads readBuffer`len, stream`incoming
    {
      2 * |stream.incoming| + readBuffer.len
    }

    /** Everything the peer sent or will send, split at what the parser took. */
    ghost function Input(): bytes
      requires readBuffer.Valid()
      reads this`consumed, stream`incoming, readBuffer, readBuffer.buf
    {
      consumed + (readBuffer.Contents() + stream.incoming)
    }

    ghost function Unread(): nat
      requires readBuffer.Valid()
      reads stream`incoming, readBuffer
    {
      readBuffer.len + |stream.incoming|
    }

    /** A connection whose handshake is done: the bytes read past it are the parser's first input. */
    constructor (client: bool, configured: nat, keys: nat -> Key, stream: Stream, readBuffer: BufferVec)
      requires readBuffer.Valid()
      requires configured < USIZE
      ensures Valid() && Synced() && connected && alive && frames == [] && delivered == [] && log == []
      ensures this.client == client && this.keys == keys
      ensures frameSize == if configured == 0 then 4096 else configured
      ensures this.stream == stream && this.readBuffer == readBuffer && fresh(wbuf) && fresh(buffer)
      ensures Input() == readBuffer.Contents() + stream.incoming && Unspoilt()
    {
      this.client, this.keys, this.stream, this.readBuffer := client, keys, stream, readBuffer;
      frameSize := if configured == 0 then 4096 else configured;
      wbuf := new WriteBuffer();
      buffer := new byte[2 * (if configured == 0 then 4096 else configured)];
      alive, connected, parser, continuing, nextKey, continuation := true, true, START, false, 0, [];
      sentBefore, frames, consumed, log, delivered, pongs := stream.sent, [], [], [], [], [];
    }

    method Disconnect()
      modifies this`connected
      ensures !connected
    {
      connected := false;
    }

    method CheckConnected() returns (ok: bool)
      modifies this`connected
      ensures ok == connected == (old(connected) && alive)
      ensures old(Valid()) ==> Valid()
    {
      if !alive {
        connected := false;
      }
      ok := connected;
    }

    // ---- Writing ----

    /** The foreign codec's `write`: one frame behind `offset`, or nothing at all if it does not fit. */
    method ParserWrite(ty: Opcode, end: bool, from: bytes, offset: nat) returns (size: Option<nat>)
      requires offset <= buffer.Length && |from| < USIZE
      modifies buffer, this`continuing, this`nextKey
      ensures size == if offset + FrameSize(client, |from|) <= buffer.Length then Some(FrameSize(client, |from|))
        else None
      ensures size.None? ==> continuing == old(continuing) && nextKey == old(nextKey) && buffer[..] == old(buffer[..])
      ensures size.Some? ==>
        && continuing == !end && nextKey == old(nextKey) + 1
        && var frame := AnyFrame.Frame(end, if old(continuing) then Continuation else ty, from);
           buffer[..offset + size.value] == old(buffer[..offset])
             + EncodeFrame(frame, MaskFor(client, keys, old(nextKey)))
    {
      hide EncodeHeader, ApplyMask;
      var n := FrameSize(client, |from|);
      if offset + n > buffer.Length {
        return None;
      }
      var frame := AnyFrame.Frame(end, if continuing then Continuation else ty, from);
      EncodedSize(frame, MaskFor(client, keys, nextKey));
      var encoded := EncodeFrame(frame, MaskFor(client, keys, nextKey));
      forall i | 0 <= i < n {
        buffer[offset + i] := encoded[i];
      }
      assert buffer[..offset + n] == old(buffer[..offset]) + encoded;
      continuing, nextKey := !end, nextKey + 1;
      size := Some(n);
    }

    /** Writes the next frame of the message behind `offset`, if it fits. */
    method WriteFrame(ty: Opcode, buf: bytes, written: nat, offset: nat) returns (size: Option<nat>, next: nat)
      requires written < |buf| && offset <= buffer.Length == 2 * frameSize && 0 < frameSize < USIZE
      requires continuing == (written > 0)
      modifies buffer, this`continuing, this`nextKey
      ensures next == written + Min(frameSize, |buf| - written)
      ensures FillBatch(client, frameSize, |buf|, written, offset) ==
        if size.None? then written
        else if next == |buf| then |buf| else FillBatch(client, frameSize, |buf|, next, offset + size.value)
      ensures size.None? ==> continuing == old(continuing) && nextKey == old(nextKey) && buffer[..] == old(buffer[..])
      ensures size.Some? ==>
        && offset + size.value <= buffer.Length
        && continuing == (next < |buf|) && nextKey == old(nextKey) + 1
        && buffer[..offset + size.value]
           == old(buffer[..offset]) + EncodeFrame(FrameAt(ty, buf, frameSize, written),
             MaskFor(client, keys, old(nextKey)))
    {
      hide EncodeFrame, Overhead, FillBatch, FrameSize, FrameAt;
      var from := if |buf| - written > frameSize then buf[written..written + frameSize] else buf[written..];
      next := written + |from|;
      FrameIs(ty, buf, frameSize, written, from);
      FillStep(client, frameSize, |buf|, written, offset);
      size := ParserWrite(ty, next == |buf|, from, offset);
    }

    /** The inner loop: packs frames into the scratch buffer until the next one does not fit. */
    method FillScratch(ty: Opcode, buf: bytes, start: nat) returns (written: nat, offset: nat, ghost batch: seq<Frame>)
      requires start < |buf| && buffer.Length == 2 * frameSize && 0 < frameSize < USIZE
      requires continuing == (start > 0)
      modifies buffer, this`continuing, this`nextKey
      ensures offset <= 2 * frameSize
      ensures written == FillBatch(client, frameSize, |buf|, start, 0)
      ensures Batched(ty, buf, frameSize, start, written, batch)
      ensures buffer[..offset] == Wire(batch, client, keys, old(nextKey)) && nextKey == old(nextKey) + |batch|
      ensures continuing == (0 < written < |buf|)
    {
      hide EncodeFrame, Wire, FramesFrom, FillBatch, Batched, FrameAt;
      written, offset, batch := start, 0, [];
      NothingBatched(ty, buf, frameSize, start);
      EmptyWire(client, keys, nextKey);
      while true
        invariant start <= written < |buf| && offset <= 2 * frameSize
        invariant continuing == (written > 0)
        invariant FillBatch(client, frameSize, |buf|, start, 0) == FillBatch(client, frameSize, |buf|, written, offset)
        invariant Batched(ty, buf, frameSize, start, written, batch)
        invariant buffer[..offset] == Wire(batch, client, keys, old(nextKey)) && nextKey == old(nextKey) + |batch|
        decreases |buf| - written
      {
        ghost var before := buffer[..offset];
        BatchGrows(batch, FrameAt(ty, buf, frameSize, written), client, keys, old(nextKey));
        BatchedMore(ty, buf, frameSize, start, written, batch);
        var size, next := WriteFrame(ty, buf, written, offset);
        if size.None? {
          assert buffer[..offset] == before;
          return;
        }
        batch := batch + [FrameAt(ty, buf, frameSize, written)];
        written, offset := next, offset + size.value;
        if written == |buf| {
          return;
        }
      }
    }

    /** Splits the message into frames and writes them out batch by batch. */
    method WriteMsg(ty: Opcode, buf: bytes) returns (ok: bool)
      requires Valid() && (buf == [] || Fits(client, frameSize, |buf|))
      modifies this`connected, this`continuing, this`nextKey, this`frames, buffer, wbuf, stream`sent,
        stream`writeSchedule
      ensures ok ==> frames == old(frames) + MessageFrames(ty, buf, frameSize)
      ensures Valid()
      ensures !ok ==> !connected
      ensures ok ==> connected == old(connected) && (buf != [] ==> connected)
      ensures !ok ==> !old(connected) || !alive || Broke(old(stream.writeSchedule), stream.writeSchedule)
      ensures Used(old(stream.writeSchedule), stream.writeSchedule)
      ensures ok ==> !Broke(old(stream.writeSchedule), stream.writeSchedule)
    {
      hide Wire, InStep, FramesFrom, FillBatch, Batched, Used, Broke;
      NoneWritten(stream.writeSchedule);
      if buf == [] {
        NoFrames(ty, frameSize);
        assert frames + [] == frames;
        return true;
      }
      ok := CheckConnected();
      if !ok {
        return;
      }
      ghost var out0, k := stream.sent + wbuf.pending, nextKey;
      ghost var done := WriteBatches(ty, buf);
      if !connected {
        return false;
      }
      WrittenAll(ty, buf, frameSize, done);
      WireConcat(frames, done, client, keys, 0);
      assert sentBefore + Wire(frames, client, keys, 0) + Wire(done, client, keys, k)
          == sentBefore + (Wire(frames, client, keys, 0) + Wire(done, client, keys, k));
      frames := frames + done;
    }

    /** The outer loop: one batch after the other until the message is out or the connection fails. */
    method WriteBatches(ty: Opcode, buf: bytes) returns (ghost done: seq<Frame>)
      requires connected && !continuing && buf != []
      requires 0 < frameSize < USIZE && buffer.Length == 2 * frameSize && Fits(client, frameSize, |buf|)
      modifies this`connected, this`continuing, this`nextKey, buffer, wbuf, stream`sent, stream`writeSchedule
      ensures connected ==>
        && Batched(ty, buf, frameSize, 0, |buf|, done) && !continuing && nextKey == old(nextKey) + |done|
        && stream.sent + wbuf.pending == old(stream.sent + wbuf.pending) + Wire(done, client, keys, old(nextKey))
      ensures Used(old(stream.writeSchedule), stream.writeSchedule)
      ensures !connected <==> Broke(old(stream.writeSchedule), stream.writeSchedule)
    {
      hide Wire, FramesFrom, FillBatch, Batched, Used, Broke;
      NoneWritten(stream.writeSchedule);
      var written := 0;
      done := [];
      NothingBatched(ty, buf, frameSize, 0);
      EmptyWire(client, keys, nextKey);
      assert stream.sent + wbuf.pending == old(stream.sent + wbuf.pending) + [];
      while written < |buf|
        invariant written <= |buf| && connected && continuing == (0 < written < |buf|)
        invariant Batched(ty, buf, frameSize, 0, written, done) && nextKey == old(nextKey) + |done|
        invariant stream.sent + wbuf.pending == old(stream.sent + wbuf.pending) + Wire(done, client, keys, old(nextKey))
        invariant Used(old(stream.writeSchedule), stream.writeSchedule)
        invariant !Broke(old(stream.writeSchedule), stream.writeSchedule)
        decreases |buf| - written
      {
        var start := written;
        ghost var out := stream.sent + wbuf.pending;
        var offset: nat;
        ghost var batch: seq<Frame>;
        written, offset, batch := FillScratch(ty, buf, start);
        FitsHere(client, frameSize, |buf|, start);
        ghost var schedule := stream.writeSchedule;
        var r := wbuf.MustWrite(stream, buffer[..offset]);
        WritesJoin(old(stream.writeSchedule), schedule, stream.writeSchedule);
        if r.Failed? {
          Disconnect();
          return;
        }
        BatchedJoin(ty, buf, frameSize, 0, start, written, done, batch);
        WireConcat(done, batch, client, keys, old(nextKey));
        Append3(old(stream.sent + wbuf.pending), Wire(done, client, keys, old(nextKey)), buffer[..offset]);
        done := done + batch;
      }
    }

    // ---- Reading ----

    /** Reads more input; `Done(0)` when nothing came or the buffer is full. */
    method FillReadBuffer() returns (r: IoResult)
      requires readBuffer.Valid()
      modifies this`connected, readBuffer`len, readBuffer.buf, stream`incoming, stream`schedule
      ensures readBuffer.Valid() && readBuffer.cap == old(readBuffer.cap)
      ensures readBuffer.Contents() + stream.incoming == old(readBuffer.Contents() + stream.incoming)
      ensures r == Done(0) ==> readBuffer.Contents() == old(readBuffer.Contents())
      ensures if r.Done? then connected == old(connected) else !connected && r.Failed?
      ensures Used(old(stream.schedule), stream.schedule)
      ensures !r.Done? <==> Ended(old(stream.schedule), stream.schedule)
      ensures r == Done(0) ==>
        old(readBuffer.Room()) == 0 || Blocked(old(stream.schedule), stream.schedule, stream.incoming)
      ensures r.Done? ==> Effort() == old(Effort()) - r.n
    {
      if readBuffer.Room() == 0 {
        return Done(0);
      }
      var before := readBuffer.len;
      r := readBuffer.FillWith(stream);
      if r.WouldBlock? {
        r := Done(0);
      } else if r.Failed? {
        Disconnect();
      } else {
        r := Done(readBuffer.len - before);
      }
    }

    /** Takes one parser result: its input leaves the read buffer and its payload goes on the stack. */
    method Accept(r: ReadResult, p: Parser)
      requires Valid() && Synced() && r.Piece? && Read(parser, readBuffer.Contents(), buffer.Length) == (r, p)
      modifies this`parser, this`continuation, this`consumed, this`log, readBuffer`len, readBuffer.buf
      ensures Valid() && readBuffer.cap == old(readBuffer.cap)
      ensures Input() == old(Input()) && Unread() == old(Unread()) - r.lenFrom
      ensures log == old(log) + [LogPiece(r.ty, r.data, r.endOfMessage)]
      ensures if r.endOfMessage then MessageOnTop(r.ty) else Synced()
      ensures consumed == old(consumed) + old(readBuffer.Contents())[..r.lenFrom]
      ensures readBuffer.Contents() == old(readBuffer.Contents())[r.lenFrom..]
    {
      hide InStep, Read, AssembleFrom, ParserValid, Wire;
      ghost var from, piece := readBuffer.Contents(), LogPiece(r.ty, r.data, r.endOfMessage);
      PieceInStep(consumed, parser, log, from, buffer.Length);
      AssembleSnoc(FRESH, log, piece);
      Rejoin3(consumed, from, r.lenFrom, stream.incoming);
      assert (log + [piece])[..|log|] == log;
      TakeFront(r.lenFrom);
      continuation, parser := continuation + [r.data], p;
      log := log + [piece];
    }

    /** Bytes the parser took leave the read buffer. */
    method TakeFront(n: nat)
      requires readBuffer.Valid() && n <= readBuffer.len
      modifies this`consumed, readBuffer`len, readBuffer.buf
      ensures readBuffer.Valid() && readBuffer.cap == old(readBuffer.cap) && readBuffer.len == old(readBuffer.len) - n
      ensures readBuffer.Contents() == old(readBuffer.Contents())[n..]
      ensures consumed == old(consumed) + old(readBuffer.Contents())[..n]
    {
      consumed := consumed + readBuffer.Contents()[..n];
      readBuffer.RotateLeft(n);
    }

    /** One round of the reading loop: parse a piece, or read more input. */
    method ReadPiece() returns (result: Option<MsgResult>)
      requires Valid() && Synced() && (connected ==> Unspoilt() || Starved())
      modifies this`connected, this`parser, this`continuation, this`consumed, this`log
      modifies readBuffer`len, readBuffer.buf, stream`incoming, stream`schedule
      ensures Valid() && readBuffer.cap == old(readBuffer.cap) && old(log) <= log
      ensures result == Some(MsgDisconnected) <==> !connected
      ensures connected ==> old(connected) && Input() == old(Input()) && Unread() <= old(Unread())
      ensures if result.Some? && result.value.EndOf? then MessageOnTop(result.value.ty) && Unread() < old(Unread())
              else Synced()
      ensures result == Some(MsgBlocked) ==> Waiting(old(stream.schedule))
      ensures connected ==> Unspoilt() || (result.None? && Starved())
      ensures connected && old(Starved()) ==> Starved() && result.None?
      ensures connected ==> alive && !old(Refused())
      ensures connected && old(Doomed()) ==> Doomed() && stream.incoming == old(stream.incoming)
      ensures connected ==> Effort() <= old(Effort()) && (result.None? ==> Effort() < old(Effort()) || Doomed())
      ensures Used(old(stream.schedule), stream.schedule)
      ensures Ended(old(stream.schedule), stream.schedule) ==> !connected
      ensures result == Some(MsgDisconnected) ==>
        !old(connected) || !alive || Ended(old(stream.schedule), stream.schedule) || Refused()
    {
      hide InStep, Read, AssembleFrom, Stalled, ParserValid, IsReadFrameIncomplete, Unsplit, InsideControl, Run, Wire;
      hide Waiting, Used, Ended;
      UsedNone(stream.schedule);
      var ok := CheckConnected();
      if !ok {
        return Some(MsgDisconnected);
      }
      var from := readBuffer.Read();
      var (r, p) := Read(parser, from, buffer.Length);
      RefusalIsComplete(parser, from, buffer.Length);
      if IsReadFrameIncomplete(r) {
        result := ReadMore();
        return;
      }
      if r.Broken? {
        Disconnect();
        return Some(MsgDisconnected);
      }
      PieceOrIncomplete(r);
      if r.closeStatus {
        Disconnect();
        return Some(MsgDisconnected);
      }
      AcceptedPiece(consumed, parser, log, from, buffer.Length, r);
      Accept(r, p);
      result := if r.endOfMessage then Some(EndOf(r.ty)) else None;
    }

    /** The parser has nothing to go on: read, or report that nothing came. */
    method ReadMore() returns (result: Option<MsgResult>)
      requires Valid() && Synced() && connected && (Unspoilt() || Starved())
      requires IsReadFrameIncomplete(Read(parser, readBuffer.Contents(), buffer.Length).0)
      modifies this`connected, readBuffer`len, readBuffer.buf, stream`incoming, stream`schedule
      ensures Valid() && Synced() && readBuffer.cap == old(readBuffer.cap)
      ensures result.None? || result == Some(MsgDisconnected) || result == Some(MsgBlocked)
      ensures result == Some(MsgDisconnected) <==> !connected
      ensures connected ==> Input() == old(Input()) && Unread() == old(Unread()) && Unspoilt()
      ensures result == Some(MsgBlocked) ==> Waiting(old(stream.schedule))
      ensures !old(Doomed()) && !old(Starved())
      ensures connected ==> Effort() <= old(Effort()) && (result.None? ==> Effort() < old(Effort()))
      ensures Used(old(stream.schedule), stream.schedule)
      ensures !connected <==> Ended(old(stream.schedule), stream.schedule)
    {
      hide InStep, Read, AssembleFrom, Stalled, ParserValid, IsReadFrameIncomplete, Unsplit, InsideControl, Run, Wire;
      hide Used, Ended, Blocked;
      ghost var from := readBuffer.Contents();
      StallMeans(consumed, parser, log, from, buffer.Length);
      RefusalIsComplete(parser, from, buffer.Length);
      StalledIsShort(parser, from, buffer.Length);
      assert from == [] ==> consumed + from == consumed;
      var filled := FillReadBuffer();
      if !filled.Done? {
        return Some(MsgDisconnected);
      }
      SameLength(from, readBuffer.Contents(), old(stream.incoming), stream.incoming);
      result := if filled.n == 0 then Some(MsgBlocked) else None;
    }

    /** Reads pieces until one ends a message. Inside a control frame nothing more is ever read. */
    method ReadMsg() returns (result: MsgResult)
      requires Valid() && Synced() && (connected ==> Unspoilt() || Starved())
      modifies this`connected, this`parser, this`continuation, this`consumed, this`log
      modifies readBuffer`len, readBuffer.buf, stream`incoming, stream`schedule
      ensures Valid() && readBuffer.cap == old(readBuffer.cap) && old(log) <= log
      ensures result.MsgDisconnected? <==> !connected
      ensures connected ==> old(connected) && Input() == old(Input()) && Unread() <= old(Unread()) && Unspoilt()
      ensures if result.EndOf? then MessageOnTop(result.ty) && Unread() < old(Unread()) else Synced()
      ensures result.MsgBlocked? ==> Waiting(old(stream.schedule))
      ensures old(Starved()) || old(Refused()) || !alive ==> result.MsgDisconnected?
      ensures connected && old(Doomed()) ==> Doomed() && stream.incoming == old(stream.incoming)
      ensures connected ==> Effort() <= old(Effort())
      ensures Used(old(stream.schedule), stream.schedule)
      ensures Ended(old(stream.schedule), stream.schedule) ==> !connected
      ensures result.MsgDisconnected? ==>
        || !old(connected) || !alive || Ended(old(stream.schedule), stream.schedule) || Refused()
        || Doomed() || old(Effort()) >= INSANITY_LOOP_CNT + 1000
    {
      hide InStep, Stalled, ParserValid, Assemble, Unsplit, InsideControl, Run, Refuses, Wire, Used, Ended;
      UsedNone(stream.schedule);
      var loopCnt := 0;
      while true
        invariant loopCnt <= INSANITY_LOOP_CNT + 1000
        invariant Valid() && Synced() && readBuffer.cap == old(readBuffer.cap) && old(log) <= log
        invariant connected ==> old(connected) && Input() == old(Input()) && Unread() <= old(Unread())
        invariant connected ==> Unspoilt() || Starved()
        invariant connected && old(Starved()) ==> Starved()
        invariant connected && old(Doomed()) ==> Doomed() && stream.incoming == old(stream.incoming)
        invariant connected ==> Effort() <= old(Effort()) && (Effort() + loopCnt <= old(Effort()) || Doomed())
        invariant if loopCnt > 0 then connected && alive && !old(Refused()) else connected == old(connected)
        invariant loopCnt == 0 ==> Refused() == old(Refused())
        invariant Used(old(stream.schedule), stream.schedule) && !Ended(old(stream.schedule), stream.schedule)
        decreases INSANITY_LOOP_CNT + 1001 - loopCnt
      {
        loopCnt := loopCnt + 1;
        if loopCnt > INSANITY_LOOP_CNT + 1000 {
          Disconnect();
          return MsgDisconnected;
        }
        ghost var schedule := stream.schedule;
        var step := ReadPiece();
        ReadsJoin(old(stream.schedule), schedule, stream.schedule);
        if step.Some? {
          return step.value;
        }
      }
    }

    /** Deals with the message on top of the stack; `Some` if it goes to the caller. */
    method ResolveTop(ty: MsgType) returns (msg: Option<Msg>)
      requires Valid() && Roomy() && MessageOnTop(ty)
      modifies this`connected, this`continuation, this`delivered, this`pongs
      modifies this`continuing, this`nextKey, this`frames, buffer, wbuf, stream`sent, stream`writeSchedule
      ensures Valid() && Synced() && (connected ==> old(connected)) && (msg.Some? ==> connected == old(connected))
      ensures delivered == old(delivered) + (if msg.Some? then [msg.value] else [])
      ensures connected ==> frames == old(frames) + PongFrames(pongs[|old(pongs)|..], frameSize)
      ensures old(pongs) <= pongs && |pongs| <= |old(pongs)| + 1
      ensures !connected ==> !old(connected) || !alive || Broke(old(stream.writeSchedule), stream.writeSchedule)
      ensures Used(old(stream.writeSchedule), stream.writeSchedule)
      ensures Broke(old(stream.writeSchedule), stream.writeSchedule) ==> !connected
    {
      hide InStep, ParserValid, AssembleFrom, Wire, FramesFrom, Used, Broke, Fits;
      NoneWritten(stream.writeSchedule);
      var top := continuation[|continuation| - 1];
      ghost var before := Assemble(log[..|log| - 1]);
      assert Assemble(log) == Resolve(Assembly(continuation, delivered, pongs), ty) by { AssembleTop(log); }
      msg := None;
      NoPongFrames(frames, frameSize);
      if ty.IsData() && top != PING_MSG {
        msg := Some(Msg(ty, Flatten(continuation)));
        delivered := delivered + [msg.value];
        continuation := [];
        assert pongs[|old(pongs)|..] == [];
        return;
      }
      assert delivered + [] == delivered;
      continuation := continuation[..|continuation| - 1];
      if ty == PingMsg {
        pongs := pongs + [top];
        assert pongs[|old(pongs)|..] == [top];
        OnePongFrames(top, frameSize);
        FrameSizeBound(client, frameSize);
        var ok := WriteMsg(Pong, top);
      } else {
        assert pongs[|old(pongs)|..] == [];
        if ty == CloseMsg {
          NoFrames(Close, frameSize);
          assert frames + [] == frames;
          var ok := WriteMsg(Close, []);   // the close reply has no payload, so no frame is written
        }
      }
    }

    /** Nothing to read: send a keepalive Ping if it is due, and flush. */
    method WhenBlocked(keepAliveDue: bool) returns (received: Received, ghost pinged: bool)
      requires Valid() && Roomy()
      modifies this`connected, this`continuing, this`nextKey, this`frames
      modifies buffer, wbuf, stream`sent, stream`writeSchedule
      ensures Valid() && (connected ==> old(connected))
      ensures received.NothingYet? || received.Disconnected?
      ensures received.NothingYet? ==> connected && (pinged <==> keepAliveDue && continuation == [])
      ensures connected ==> frames == old(frames) + (if pinged then MessageFrames(Ping, PING_MSG, frameSize) else [])
      ensures received.NothingYet? && !pinged ==>
        var n := FlushTakes(old(wbuf.pending), old(stream.writeSchedule));
        stream.sent == old(stream.sent) + old(wbuf.pending)[..n] && wbuf.pending == old(wbuf.pending)[n..]
      ensures received.NothingYet? && wbuf.pending != [] ==>
        stream.writeSchedule == [] || |stream.writeSchedule| < |old(stream.writeSchedule)|
      ensures received.Disconnected? ==>
        !old(connected) || !alive || Broke(old(stream.writeSchedule), stream.writeSchedule)
      ensures Used(old(stream.writeSchedule), stream.writeSchedule)
      ensures Broke(old(stream.writeSchedule), stream.writeSchedule) ==> received.Disconnected?
    {
      hide Valid, MessageFrames, Fits, FlushTakes, Used, Broke;
      ValidBuffer();
      NoneWritten(stream.writeSchedule);
      pinged := false;
      assert frames + [] == frames;
      if keepAliveDue && continuation == [] {
        FrameSizeBound(client, frameSize);
        var written := WriteMsg(Ping, PING_MSG);
        if !written {
          return Disconnected, pinged;
        }
        pinged := true;
      }
      ghost var schedule := stream.writeSchedule;
      received := FlushWbuf();
      WritesJoin(old(stream.writeSchedule), schedule, stream.writeSchedule);
    }

    /** Sends what waits, as far as the stream takes it. */
    method FlushWbuf() returns (received: Received)
      requires Valid()
      modifies this`connected, wbuf, stream`sent, stream`writeSchedule
      ensures Valid() && connected == (old(connected) && alive)
      ensures received == if connected && !Broke(old(stream.writeSchedule), stream.writeSchedule) then NothingYet
                          else Disconnected
      ensures connected ==>
        var n := FlushTakes(old(wbuf.pending), old(stream.writeSchedule));
        stream.sent == old(stream.sent) + old(wbuf.pending)[..n] && wbuf.pending == old(wbuf.pending)[n..]
      ensures connected && wbuf.pending != [] ==>
        stream.writeSchedule == [] || |stream.writeSchedule| < |old(stream.writeSchedule)|
      ensures Used(old(stream.writeSchedule), stream.writeSchedule)
      ensures Broke(old(stream.writeSchedule), stream.writeSchedule) ==> connected
    {
      hide InStep, ParserValid, Wire, FlushTakes, Used, Broke, FlushFails;
      NoneWritten(stream.writeSchedule);
      var ok := CheckConnected();
      if !ok {
        return Disconnected;
      }
      var flushed := wbuf.FlushBuffer(stream);
      received := if flushed.Failed? then Disconnected else NothingYet;
    }

    /** One round: read a message and deal with it; `None` if it was a control message. */
    method ReadOnce(keepAliveDue: bool) returns (result: Option<Received>, ghost pinged: bool)
      requires Valid() && Synced() && Roomy() && (connected ==> Unspoilt())
      modifies this, buffer, wbuf, readBuffer`len, readBuffer.buf, stream
      ensures Valid() && Synced() && (connected ==> Unspoilt()) && alive == old(alive)
      ensures delivered == old(delivered) + (if result.Some? && result.value.Message? then [result.value.msg] else [])
      ensures result.None? || !result.value.Disconnected? ==> connected
      ensures connected ==> old(connected) && Effort() <= old(Effort())
      ensures result == Some(Disconnected) || (alive && !old(Refused()))
      ensures result.None? || result.value.Message? ==> Unread() < old(Unread()) && !pinged
      ensures connected ==> Input() == old(Input()) && old(log) <= log && old(pongs) <= pongs
      ensures connected ==> frames == old(frames) + PongFrames(pongs[|old(pongs)|..], frameSize)
                                      + (if pinged then MessageFrames(Ping, PING_MSG, frameSize) else [])
      ensures result == Some(NothingYet) ==> Waiting(old(stream.schedule))
      ensures connected && old(Doomed()) ==> Doomed() && stream.incoming == old(stream.incoming)
      ensures Used(old(stream.schedule), stream.schedule)
      ensures Used(old(stream.writeSchedule), stream.writeSchedule)
      ensures Ended(old(stream.schedule), stream.schedule) || Broke(old(stream.writeSchedule), stream.writeSchedule) ==>
        result == Some(Disconnected)
      ensures result == Some(Disconnected) ==>
        || !old(connected) || !alive || Ended(old(stream.schedule), stream.schedule)
        || Broke(old(stream.writeSchedule), stream.writeSchedule)
        || Refused() || Doomed() || old(Effort()) >= INSANITY_LOOP_CNT + 1000
    {
      hide Valid, Synced, MessageOnTop, Stalled, PongFrames, MessageFrames, Unspoilt, Refused, Doomed;
      hide Used, Ended, Broke, Waiting, Input, Effort, Unread;
      UsedNone(stream.schedule);
      NoneWritten(stream.writeSchedule);
      ValidBuffer();
      pinged := false;
      assert delivered + [] == delivered;
      assert pongs[|pongs|..] == [];
      NoPongFrames(frames, frameSize);
      var ok := CheckConnected();
      if !ok {
        return Some(Disconnected), pinged;
      }
      var read := ReadMsg();
      match read
      case MsgDisconnected =>
        result := Some(Disconnected);
      case MsgBlocked =>
        var received;
        received, pinged := WhenBlocked(keepAliveDue);
        result := Some(received);
      case EndOf(ty) =>
        var msg := ResolveTop(ty);
        assert frames + [] == frames;
        result := if msg.Some? then Some(Message(msg.value)) else if connected then None else Some(Disconnected);
    }

    /**
     * Reads until a data message is complete, answering control messages on the way. Each echoed
     * Ping payload is written as a Pong, in order; a keepalive Ping is written only when blocked.
     *
     * The connection is lost only if it was closed or shut down, a read or a write failed, the parser
     * refuses the input, very much is buffered, or what was read stops inside a control frame. In the
     * last case nothing more is read: every further call returns a message that was already buffered,
     * until one disconnects.
     */
    method GenericRead(keepAliveDue: bool) returns (received: Received, ghost pinged: bool)
      requires Valid() && Synced() && Roomy() && (connected ==> Unspoilt())
      modifies this, buffer, wbuf, readBuffer`len, readBuffer.buf, stream
      ensures Valid() && Synced() && (connected ==> Unspoilt()) && alive == old(alive)
      ensures delivered == old(delivered) + (if received.Message? then [received.msg] else [])
      ensures !received.Disconnected? ==> connected && old(connected) && Effort() <= old(Effort())
      ensures received.Message? ==> Unread() < old(Unread())
      ensures connected ==> Input() == old(Input()) && old(log) <= log && old(pongs) <= pongs
      ensures connected ==> frames == old(frames) + PongFrames(pongs[|old(pongs)|..], frameSize)
                                      + (if pinged then MessageFrames(Ping, PING_MSG, frameSize) else [])
      ensures received.NothingYet? ==> Waiting(old(stream.schedule))
      ensures !old(connected) || !alive || old(Refused()) ==> received.Disconnected?
      ensures old(Doomed()) ==> !received.NothingYet?
      ensures old(Doomed()) && received.Message? ==> Doomed() && stream.incoming == old(stream.incoming)
      ensures Used(old(stream.schedule), stream.schedule)
      ensures Used(old(stream.writeSchedule), stream.writeSchedule)
      ensures Ended(old(stream.schedule), stream.schedule) || Broke(old(stream.writeSchedule), stream.writeSchedule) ==>
        received.Disconnected?
      ensures received.Disconnected? ==>
        || !old(connected) || !alive || Ended(old(stream.schedule), stream.schedule)
        || Broke(old(stream.writeSchedule), stream.writeSchedule)
        || Refused() || Doomed() || old(Effort()) >= INSANITY_LOOP_CNT + 1000
      ensures old(Effort()) < INSANITY_LOOP_CNT + 1000 && !received.Message? ==>
        (received.Disconnected? <==>
          || !old(connected) || !alive || Ended(old(stream.schedule), stream.schedule)
          || Broke(old(stream.writeSchedule), stream.writeSchedule)
          || Refused() || Doomed())
    {
      hide Valid, Synced, Stalled, PongFrames, MessageFrames, Unspoilt, Refused, InsideControl, Run;
      hide Used, Ended, Broke, Blocked;
      UsedNone(stream.schedule);
      NoneWritten(stream.writeSchedule);
      pinged := false;
      assert pongs[|pongs|..] == [];
      ValidBuffer();
      NoPongFrames(frames, frameSize);
      while true
        invariant Valid() && Synced() && delivered == old(delivered) && readBuffer.Valid() && 0 < frameSize < USIZE
        invariant connected == old(connected) && alive == old(alive) && (connected ==> Unspoilt())
        invariant Effort() <= old(Effort())
        invariant connected ==> Input() == old(Input()) && old(log) <= log && old(pongs) <= pongs
        invariant connected ==> frames == old(frames) + PongFrames(pongs[|old(pongs)|..], frameSize)
        invariant connected && old(Doomed()) ==> Doomed() && stream.incoming == old(stream.incoming)
        invariant Used(old(stream.schedule), stream.schedule)
        invariant Used(old(stream.writeSchedule), stream.writeSchedule)
        invariant !Ended(old(stream.schedule), stream.schedule)
        invariant !Broke(old(stream.writeSchedule), stream.writeSchedule)
        invariant Unread() <= old(Unread()) && (Refused() == old(Refused()) || (alive && !old(Refused())))
        decreases Unread()
      {
        ghost var before, reading, writing := pongs, stream.schedule, stream.writeSchedule;
        var result: Option<Received>;
        result, pinged := ReadOnce(keepAliveDue);
        ReadsJoin(old(stream.schedule), reading, stream.schedule);
        WritesJoin(old(stream.writeSchedule), writing, stream.writeSchedule);
        ValidBuffer();
        assert delivered + [] == delivered;
        if connected {
          PongsGrow(old(pongs), before, pongs, frameSize);
          AppendFrames(old(frames), PongFrames(before[|old(pongs)|..], frameSize),
            PongFrames(pongs[|before|..], frameSize));
          assert frames + [] == frames;
        }
        if result.Some? {
          return result.value, pinged;
        }
      }
    }

    /**
     * In every state a call of `GenericRead` leaves behind: if the peer's stream is the frames of these
     * messages, the messages returned so far are the first non-empty ones, and all of them once the
     * whole stream has arrived and the reader is blocked.
     */
    lemma Receives(msgs: seq<Msg>, fs: nat, peerIsClient: bool, peerKeys: nat -> Key, k: nat)
      requires Valid() && Synced() && 0 < fs < USIZE
      requires forall m :: m in msgs ==> m.ty.IsData() && !EndsWith(m.data, PING_MSG)
      requires Input() == Wire(AllFrames(msgs, fs), peerIsClient, peerKeys, k)
      ensures delivered <= NonEmpty(msgs)
      ensures stream.incoming == [] && Stalled(consumed, readBuffer.Contents(), log) ==> delivered == NonEmpty(msgs)
    {
      hide AllFrames, Wire, InStep, AssembleFrom, Run, Replay;
      var unread := readBuffer.Contents() + stream.incoming;
      assert stream.incoming == [] ==> unread == readBuffer.Contents();
      EndToEnd(msgs, fs, peerIsClient, peerKeys, k, consumed, unread, parser, log);
    }

    /**
     * The same with whole Ping and Pong frames, no longer than the scratch buffer, anywhere between the
     * frames of the messages: the messages come out unchanged and the Ping payloads are echoed in order.
     */
    lemma ReceivesWithControls(sent: seq<Frame>, msgs: seq<Msg>, fs: nat, peerIsClient: bool, peerKeys: nat -> Key,
                               k: nat)
      requires Valid() && Synced() && Unspoilt() && 0 < fs < USIZE
      requires Carries(sent, msgs, fs)
      requires forall m :: m in msgs ==> !EndsWith(m.data, PING_MSG)
      requires forall f :: f in sent && IsControl(f) ==> |f.payload| <= 2 * frameSize
      requires Input() == Wire(sent, peerIsClient, peerKeys, k)
      ensures delivered <= NonEmpty(msgs) && pongs <= PingPayloads(Controls(sent))
      ensures stream.incoming == [] && Stalled(consumed, readBuffer.Contents(), log) ==>
        delivered == NonEmpty(msgs) && pongs == PingPayloads(Controls(sent))
    {
      hide Carries, Wire, InStep, AssembleFrom, Run, Replay, NonEmpty, PingPayloads, Controls, Unsplit, EndsWith;
      var unread := readBuffer.Contents() + stream.incoming;
      assert stream.incoming == [] ==> unread == readBuffer.Contents();
      Transparency(sent, msgs, fs, peerIsClient, peerKeys, k, 2 * frameSize, consumed, unread, parser, log);
    }

    /** From such a peer the parser never refuses anything, so reads fail only for the other reasons. */
    lemma NotRefused(sent: seq<Frame>, msgs: seq<Msg>, fs: nat, peerIsClient: bool, peerKeys: nat -> Key, k: nat)
      requires Valid() && 0 < fs < USIZE && Carries(sent, msgs, fs)
      requires Input() == Wire(sent, peerIsClient, peerKeys, k)
      ensures !Refused()
    {
      hide Carries, Wire, InStep, Refuses, ParserValid;
      var buffered := readBuffer.Contents();
      assert consumed + (buffered + stream.incoming) == consumed + buffered + stream.incoming;
      NeverRefused(sent, msgs, fs, peerIsClient, peerKeys, k, 2 * frameSize, consumed, buffered, stream.incoming,
        parser, log);
    }

    lemma ValidBuffer()
      requires Valid()
      ensures readBuffer.Valid() && 0 < frameSize < USIZE
    {
    }
  }

  lemma AppendFrames(a: seq<Frame>, b: seq<Frame>, c: seq<Frame>)
    ensures a + b + c == a + (b + c)
  {
  }

  lemma PongsGrow(a: seq<bytes>, b: seq<bytes>, c: seq<bytes>, fs: nat)
    requires a <= b <= c && 0 < fs < USIZE
    ensures PongFrames(c[|a|..], fs) == PongFrames(b[|a|..], fs) + PongFrames(c[|b|..], fs)
  {
    hide PongFrames;
    assert c[|a|..] == b[|a|..] + c[|b|..];
    PongFramesConcat(b[|a|..], c[|b|..], fs);
  }

  lemma {:induction false} PongFramesConcat(x: seq<bytes>, y: seq<bytes>, fs: nat)
    requires 0 < fs < USIZE
    ensures PongFrames(x + y, fs) == PongFrames(x, fs) + PongFrames(y, fs)
    decreases |y|
  {
    hide MessageFrames;
    if y == [] {
      assert x + y == x;
    } else {
      var init := y[..|y| - 1];
      assert (x + y)[..|x + y| - 1] == x + init;
      PongFramesConcat(x, init, fs);
      AppendFrames(PongFrames(x, fs), PongFrames(init, fs), MessageFrames(Pong, y[|y| - 1], fs));
    }
  }

  /** The frames that echo these payloads, an empty payload giving none. */
  function PongFrames(payloads: seq<bytes>, fs: nat): seq<Frame>
    requires 0 < fs < USIZE
  {
    if payloads == [] then []
    else PongFrames(payloads[..|payloads| - 1], fs) + MessageFrames(Pong, payloads[|payloads| - 1], fs)
  }

  /** The echoes are Pong frames and their continuations, and carry exactly the payloads. */
  lemma {:induction false} EchoesArePongs(payloads: seq<bytes>, fs: nat)
    requires 0 < fs < USIZE
    ensures forall f :: f in PongFrames(payloads, fs) ==> f.op == Pong || f.op == Continuation
    ensures Payloads(PongFrames(payloads, fs)) == Flatten(payloads)
  {
    hide MessageFrames;
    if payloads != [] {
      var init, last := payloads[..|payloads| - 1], payloads[|payloads| - 1];
      EchoesArePongs(init, fs);
      OneEcho(last, fs);
      PayloadsConcat(PongFrames(init, fs), MessageFrames(Pong, last, fs));
      FlattenSnoc(init, last);
      assert init + [last] == payloads;
    }
  }

  lemma OneEcho(payload: bytes, fs: nat)
    requires 0 < fs < USIZE
    ensures forall f :: f in MessageFrames(Pong, payload, fs) ==> f.op == Pong || f.op == Continuation
    ensures Payloads(MessageFrames(Pong, payload, fs)) == payload
  {
    FramesPartition(Pong, payload, fs, 0);
    assert payload[0..] == payload;
  }

  lemma {:induction false} PayloadsConcat(a: seq<Frame>, b: seq<Frame>)
    ensures Payloads(a + b) == Payloads(a) + Payloads(b)
    decreases |a|
  {
    if a == [] {
      assert a + b == b;
    } else {
      assert (a + b)[1..] == a[1..] + b;
      PayloadsConcat(a[1..], b);
    }
  }

  lemma OnePongFrames(payload: bytes, fs: nat)
    requires 0 < fs < USIZE
    ensures PongFrames([payload], fs) == MessageFrames(Pong, payload, fs)
  {
    hide MessageFrames;
    assert [payload][..0] == [];
    assert PongFrames([], fs) == [];
    assert [] + MessageFrames(Pong, payload, fs) == MessageFrames(Pong, payload, fs);
  }

  lemma NoPongFrames(frames: seq<Frame>, fs: nat)
    requires 0 < fs < USIZE
    ensures frames + PongFrames([], fs) == frames
  {
  }

  lemma AssembleTop(log: seq<LogPiece>)
    requires log != [] && log[|log| - 1].last
    ensures Assemble(log) == Resolve(Push(Assemble(log[..|log| - 1]), log[|log| - 1].data), log[|log| - 1].ty)
  {
  }

  lemma SameLength(a: bytes, a': bytes, x: bytes, x': bytes)
    requires a + x == a' + x'
    ensures |a| + |x| == |a'| + |x'|
  {
    assert |a + x| == |a' + x'|;
  }

  /** What a parser result that is accepted promises. */
  lemma AcceptedPiece(consumed: bytes, parser: Parser, log: seq<LogPiece>, from: bytes, room: nat, r: ReadResult)
    requires InStep(consumed, parser, log) && ParserValid(parser) && room > 0
    requires r == Read(parser, from, room).0 && r.Piece? && !IsReadFrameIncomplete(r)
    ensures var consumed', log' := consumed + from[..r.lenFrom], log + [LogPiece(r.ty, r.data, r.endOfMessage)];
      && r.lenFrom <= |from|
      && (Unsplit(consumed, log, room) ==>
            || Unsplit(consumed', log', room)
            || (!r.endOfMessage && from[r.lenFrom..] == [] && InsideControl(Meant(consumed'))))
      && (r.endOfMessage ==> r.lenFrom > 0)
      && (r.lenFrom == 0 ==> InsideControl(Meant(consumed + from)))
      && consumed' + from[r.lenFrom..] == consumed + from
      && (from == [] && InsideControl(Meant(consumed)) ==> !r.endOfMessage && consumed' == consumed)
  {
    hide InStep, Read, ParserValid, IsReadFrameIncomplete, Unsplit, InsideControl, Run;
    EndTakesInput(parser, from, room);
    PieceTakesInput(consumed, parser, log, from, room);
    if Unsplit(consumed, log, room) {
      PieceKeepsUnsplit(consumed, parser, log, from, room);
    }
    if from == [] && InsideControl(Meant(consumed)) {
      StarvedPiece(consumed, parser, log, room);
    }
    assert from[..r.lenFrom] + from[r.lenFrom..] == from;
  }

  lemma Rejoin3(consumed: bytes, from: bytes, n: nat, incoming: bytes)
    requires n <= |from|
    ensures consumed + from[..n] + (from[n..] + incoming) == consumed + (from + incoming)
  {
    assert from[..n] + from[n..] == from;
  }

  /** `batch` is the frames of the message between two offsets. */
  ghost predicate Batched(ty: Opcode, buf: bytes, fs: nat, start: nat, written: nat, batch: seq<Frame>)
    requires 0 < fs < USIZE
  {
    start <= |buf| && written <= |buf| && FramesFrom(ty, buf, fs, start) == batch + FramesFrom(ty, buf, fs, written)
  }

  lemma NothingBatched(ty: Opcode, buf: bytes, fs: nat, start: nat)
    requires 0 < fs < USIZE && start <= |buf|
    ensures Batched(ty, buf, fs, start, start, [])
  {
    hide FramesFrom;
    assert [] + FramesFrom(ty, buf, fs, start) == FramesFrom(ty, buf, fs, start);
  }

  lemma BatchedMore(ty: Opcode, buf: bytes, fs: nat, start: nat, written: nat, batch: seq<Frame>)
    requires 0 < fs < USIZE && written < |buf| && Batched(ty, buf, fs, start, written, batch)
    ensures Batched(ty, buf, fs, start, written + Min(fs, |buf| - written), batch + [FrameAt(ty, buf, fs, written)])
  {
    hide FrameAt;
    var frame, rest := FrameAt(ty, buf, fs, written), FramesFrom(ty, buf, fs, written + Min(fs, |buf| - written));
    assert FramesFrom(ty, buf, fs, written) == [frame] + rest;
    assert batch + ([frame] + rest) == batch + [frame] + rest;
  }

  lemma BatchedJoin(ty: Opcode, buf: bytes, fs: nat, a: nat, b: nat, c: nat, x: seq<Frame>, y: seq<Frame>)
    requires 0 < fs < USIZE && Batched(ty, buf, fs, a, b, x) && Batched(ty, buf, fs, b, c, y)
    ensures Batched(ty, buf, fs, a, c, x + y)
  {
    hide FramesFrom;
    assert x + (y + FramesFrom(ty, buf, fs, c)) == x + y + FramesFrom(ty, buf, fs, c);
  }

  lemma WrittenAll(ty: Opcode, buf: bytes, fs: nat, done: seq<Frame>)
    requires 0 < fs < USIZE && Batched(ty, buf, fs, 0, |buf|, done)
    ensures done == MessageFrames(ty, buf, fs)
  {
    assert FramesFrom(ty, buf, fs, |buf|) == [];
    hide FramesFrom;
    assert done + [] == done;
  }

  lemma FrameIs(ty: Opcode, buf: bytes, fs: nat, written: nat, from: bytes)
    requires 0 < fs < USIZE && written < |buf|
    requires from == if |buf| - written > fs then buf[written..written + fs] else buf[written..]
    ensures FrameAt(ty, buf, fs, written)
         == AnyFrame.Frame(written + |from| == |buf|, if written > 0 then Continuation else ty, from)
    ensures |from| == Min(fs, |buf| - written)
  {
  }

  lemma FillStep(client: bool, fs: nat, total: nat, written: nat, offset: nat)
    requires written < total && fs > 0
    ensures var n := Min(fs, total - written);
      FillBatch(client, fs, total, written, offset)
      == if offset + FrameSize(client, n) > 2 * fs then written
         else if written + n == total then total
         else FillBatch(client, fs, total, written + n, offset + FrameSize(client, n))
  {
  }

  lemma Append3(a: bytes, b: bytes, c: bytes)
    ensures a + b + c == a + (b + c)
  {
  }

  lemma BatchGrows(batch: seq<Frame>, frame: Frame, client: bool, keys: nat -> Key, k: nat)
    ensures Wire(batch + [frame], client, keys, k)
         == Wire(batch, client, keys, k) + EncodeFrame(frame, MaskFor(client, keys, k + |batch|))
  {
    hide EncodeFrame;
    WireConcat(batch, [frame], client, keys, k);
    var e := EncodeFrame(frame, MaskFor(client, keys, k + |batch|));
    assert [frame][1..] == [] && e + [] == e;
    assert Wire([frame], client, keys, k + |batch|) == e;
  }

  lemma EmptyWire(client: bool, keys: nat -> Key, k: nat)
    ensures Wire([], client, keys, k) == []
  {
  }

  lemma FitsHere(client: bool, fs: nat, total: nat, written: nat)
    requires fs > 0 && Fits(client, fs, total) && written < total
    ensures FillBatch(client, fs, total, written, 0) > written
  {
    assert FrameSize(client, Min(fs, total - written)) <= FrameSize(client, Min(fs, total));
    RoundProgress(client, fs, total, written);
  }
}
