/** How a message becomes frames, frames become batches, and when the writing loop ends. */
module WsWrite {
  import opened Bytes
  import opened WsFrame

  /** Bytes in front of the payload. */
  function Overhead(client: bool, n: nat): nat {
    2 + (if n < 126 then 0 else if n < 65536 then 2 else 8) + (if client then 4 else 0)
  }

  function FrameSize(client: bool, n: nat): nat {
    n + Overhead(client, n)
  }

  lemma EncodedSize(f: Frame, mask: Option<Key>)
    ensures |EncodeFrame(f, mask)| == FrameSize(mask.Some?, |f.payload|)
  {
  }

  function Min(a: nat, b: nat): nat {
    if a < b then a else b
  }

  /** The frame the loop writes when `written` bytes are out: at most `fs` bytes, FIN on the last. */
  function FrameAt(ty: Opcode, buf: bytes, fs: nat, written: nat): Frame
    requires written < |buf| && 0 < fs < USIZE
  {
    var end := written + Min(fs, |buf| - written);
    Frame(end == |buf|, if written == 0 then ty else Continuation, buf[written..end])
  }

  function FramesFrom(ty: Opcode, buf: bytes, fs: nat, written: nat): seq<Frame>
    requires written <= |buf| && 0 < fs < USIZE
    decreases |buf| - written
  {
    if written == |buf| then []
    else [FrameAt(ty, buf, fs, written)] + FramesFrom(ty, buf, fs, written + Min(fs, |buf| - written))
  }

  function MessageFrames(ty: Opcode, buf: bytes, fs: nat): seq<Frame>
    requires 0 < fs < USIZE
  {
    FramesFrom(ty, buf, fs, 0)
  }

  function Payloads(frames: seq<Frame>): bytes {
    if frames == [] then [] else frames[0].payload + Payloads(frames[1..])
  }

  /**
   * The frames partition the message: whole, in order, bounded, non-empty, FIN on the last only, type on
   * the first only.
   */
  lemma {:induction false} FramesPartition(ty: Opcode, buf: bytes, fs: nat, written: nat)
    requires written <= |buf| && 0 < fs < USIZE
    ensures var frames := FramesFrom(ty, buf, fs, written);
      && Payloads(frames) == buf[written..]
      && (frames == [] <==> written == |buf|)
      && (forall i :: 0 <= i < |frames| ==> 0 < |frames[i].payload| <= fs)
      && (forall i :: 0 <= i < |frames| - 1 ==> |frames[i].payload| == fs)
      && (forall i :: 0 <= i < |frames| ==> (frames[i].fin <==> i == |frames| - 1))
      && (forall i :: 0 <= i < |frames| ==> frames[i].op == if written == 0 && i == 0 then ty else Continuation)
    decreases |buf| - written
  {
    if written == |buf| {
    } else {
      var next := written + Min(fs, |buf| - written);
      FramesPartition(ty, buf, fs, next);
      assert buf[written..next] + buf[next..] == buf[written..];
      var frames, rest := FramesFrom(ty, buf, fs, written), FramesFrom(ty, buf, fs, next);
      assert frames[1..] == rest;
      assert forall i :: 1 <= i < |frames| ==> frames[i] == rest[i - 1];
    }
  }

  /**
   * A message is one frame if and only if it is not empty and fits the frame size: longer control messages
   * are fragmented.
   */
  lemma SingleFrameIff(ty: Opcode, buf: bytes, fs: nat)
    requires 0 < fs < USIZE
    ensures |MessageFrames(ty, buf, fs)| == 1 <==> 0 < |buf| <= fs
  {
    FramesPartition(ty, buf, fs, 0);
    if |buf| > fs {
      FramesPartition(ty, buf, fs, fs);
    }
  }

  function MaskFor(client: bool, keys: nat -> Key, k: nat): Option<Key> {
    if client then Some(keys(k)) else None
  }

  /** The bytes of a run of frames; a client masks frame number `k` with its k-th random key. */
  function Wire(frames: seq<Frame>, client: bool, keys: nat -> Key, k: nat): bytes {
    if frames == [] then []
    else EncodeFrame(frames[0], MaskFor(client, keys, k)) + Wire(frames[1..], client, keys, k + 1)
  }

  lemma {:induction false} WireConcat(a: seq<Frame>, b: seq<Frame>, client: bool, keys: nat -> Key, k: nat)
    ensures Wire(a + b, client, keys, k) == Wire(a, client, keys, k) + Wire(b, client, keys, k + |a|)
  {
    hide EncodeFrame;
    if a == [] {
      assert a + b == b;
    } else {
      assert (a + b)[1..] == a[1..] + b && (a + b)[0] == a[0];
      WireConcat(a[1..], b, client, keys, k + 1);
      var head := EncodeFrame(a[0], MaskFor(client, keys, k));
      var x, y := Wire(a[1..], client, keys, k + 1), Wire(b, client, keys, k + |a|);
      assert k + 1 + |a[1..]| == k + |a|;
      assert head + (x + y) == head + x + y;
    }
  }

  // ---- The two nested loops, on lengths ----

  /** The inner loop: frames are packed into the scratch buffer of `2 * fs` bytes until one does not fit. */
  function FillBatch(client: bool, fs: nat, total: nat, written: nat, offset: nat): (w: nat)
    requires written < total && fs > 0
    ensures written <= w <= total
    decreases total - written
  {
    var n := Min(fs, total - written);
    if offset + FrameSize(client, n) > 2 * fs then written
    else if written + n == total then total
    else FillBatch(client, fs, total, written + n, offset + FrameSize(client, n))
  }

  /** How much is written after so many rounds of the outer loop. */
  function AfterRounds(client: bool, fs: nat, total: nat, rounds: nat): (w: nat)
    requires fs > 0
    ensures w <= total
  {
    if rounds == 0 then 0
    else
      var w := AfterRounds(client, fs, total, rounds - 1);
      if w == total then w else FillBatch(client, fs, total, w, 0)
  }

  /** The largest frame of the message fits an empty scratch buffer. */
  predicate Fits(client: bool, fs: nat, total: nat) {
    FrameSize(client, Min(fs, total)) <= 2 * fs
  }

  lemma RoundProgress(client: bool, fs: nat, total: nat, written: nat)
    requires written < total && fs > 0
    ensures FillBatch(client, fs, total, written, 0) > written
        <==> FrameSize(client, Min(fs, total - written)) <= 2 * fs
  {
  }

  lemma {:induction false} RoundsGrow(client: bool, fs: nat, total: nat, rounds: nat)
    requires fs > 0 && Fits(client, fs, total)
    ensures AfterRounds(client, fs, total, rounds) >= Min(rounds, total)
  {
    if rounds > 0 {
      RoundsGrow(client, fs, total, rounds - 1);
      var w := AfterRounds(client, fs, total, rounds - 1);
      if w < total {
        RoundProgress(client, fs, total, w);
      }
    }
  }

  lemma {:induction false} RoundsStuck(client: bool, fs: nat, total: nat, rounds: nat)
    requires fs > 0 && total > 0 && !Fits(client, fs, total)
    ensures AfterRounds(client, fs, total, rounds) == 0
  {
    if rounds > 0 {
      RoundsStuck(client, fs, total, rounds - 1);
      RoundProgress(client, fs, total, 0);
    }
  }

  /** Writing a message ends if and only if it is empty or its largest frame fits twice the frame size. */
  lemma WritingEndsIff(client: bool, fs: nat, total: nat)
    requires fs > 0
    ensures (exists rounds :: AfterRounds(client, fs, total, rounds) == total)
      <==> total == 0 || Fits(client, fs, total)
  {
    if total == 0 {
      assert AfterRounds(client, fs, total, 0) == total;
    } else if Fits(client, fs, total) {
      RoundsGrow(client, fs, total, total);
      assert AfterRounds(client, fs, total, total) == total;
    } else {
      forall rounds
        ensures AfterRounds(client, fs, total, rounds) != total
      {
        RoundsStuck(client, fs, total, rounds);
      }
    }
  }

  /**
   * Exact bounds: every message can be written if and only if the frame size is at least 6 for a client, 2
   * for a server.
   */
  lemma FrameSizeBound(client: bool, fs: nat)
    requires fs > 0
    ensures (forall total :: Fits(client, fs, total)) <==> fs >= if client then 6 else 2
  {
    assert Fits(client, fs, fs) <==> Overhead(client, fs) <= fs;
    forall total: nat | Fits(client, fs, fs)
      ensures Fits(client, fs, total)
    {
      assert total < fs ==> FrameSize(client, total) <= FrameSize(client, fs);
    }
  }
}
