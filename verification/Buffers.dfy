/**
 * The buffer and stream types the library takes from its foreign crates: a fixed-capacity byte
 * buffer compacted in place, a nonblocking stream driven by an adversarial schedule, and an output
 * buffer that keeps what the stream did not take yet.
 */
module Buffers {
  import opened Bytes

  /** What one nonblocking read does, as the peer and the network choose it. */
  datatype ReadEvent = Arrives(n: nat) | ReadBlocks | PeerClosed | ReadFails
  /** What one flush attempt does: the stream accepts up to `n` bytes, or fails. */
  datatype WriteEvent = Accepts(n: nat) | WriteFails

  datatype IoResult = Done(n: nat) | WouldBlock | Failed

  /** Some events of the schedule were used up, in order. */
  ghost predicate Used<T>(before: seq<T>, after: seq<T>) {
    |after| <= |before| && after == before[|before| - |after|..]
  }

  /** The last read since `before` found the stream closed, or failed. */
  predicate Ended(before: seq<ReadEvent>, after: seq<ReadEvent>) {
    |after| < |before| && var event := before[|before| - |after| - 1]; event.PeerClosed? || event.ReadFails?
  }

  /** The last read since `before` blocked: there was nothing to come, or not yet. */
  predicate Blocked(before: seq<ReadEvent>, after: seq<ReadEvent>, incoming: bytes) {
    after == [] || (|after| < |before| && (before[|before| - |after| - 1].ReadBlocks? || incoming == []))
  }

  /** Everything still to come arrives, a byte or more with every read. */
  predicate Flowing(schedule: seq<ReadEvent>, incoming: bytes) {
    |incoming| <= |schedule| && forall event :: event in schedule ==> event.Arrives?
  }

  /** The last flush since `before` failed. */
  predicate Broke(before: seq<WriteEvent>, after: seq<WriteEvent>) {
    |after| < |before| && before[|before| - |after| - 1].WriteFails?
  }

  /** What happened last in the second of two stretches happened last in both. */
  lemma ReadsJoin(a: seq<ReadEvent>, b: seq<ReadEvent>, c: seq<ReadEvent>)
    requires Used(a, b) && Used(b, c)
    ensures Used(a, c) && |c| <= |b| <= |a| && (|b| == |a| ==> b == a) && (|c| == |b| ==> c == b)
    ensures Ended(a, c) <==> if |c| < |b| then Ended(b, c) else Ended(a, b)
    ensures !Ended(b, b)
    ensures forall incoming :: Blocked(b, c, incoming) ==> Blocked(a, c, incoming)
  {
  }

  lemma UsedNone(schedule: seq<ReadEvent>)
    ensures Used(schedule, schedule) && !Ended(schedule, schedule)
  {
  }

  lemma WritesJoin(a: seq<WriteEvent>, b: seq<WriteEvent>, c: seq<WriteEvent>)
    requires Used(a, b) && Used(b, c)
    ensures Used(a, c) && |c| <= |b| <= |a| && (|b| == |a| ==> b == a) && (|c| == |b| ==> c == b)
    ensures Broke(a, c) <==> if |c| < |b| then Broke(b, c) else Broke(a, b)
    ensures !Broke(b, b)
  {
  }

  lemma NoneWritten(schedule: seq<WriteEvent>)
    ensures Used(schedule, schedule) && !Broke(schedule, schedule)
  {
  }

  /** The next attempt to flush these bytes meets a failed stream. */
  predicate FlushFails(pending: bytes, writes: seq<WriteEvent>) {
    pending != [] && writes != [] && writes[0].WriteFails?
  }

  /** How many of these bytes the next attempt to flush gets rid of. */
  function FlushTakes(pending: bytes, writes: seq<WriteEvent>): (n: nat)
    ensures n <= |pending|
  {
    if writes == [] || writes[0].WriteFails? then 0
    else if writes[0].n < |pending| then writes[0].n
    else |pending|
  }

  /** How many of `avail` bytes the next read into so much room takes. */
  function Taking(schedule: seq<ReadEvent>, avail: nat, room: nat): (n: nat)
    ensures n <= room && n <= avail
  {
    if schedule == [] || !schedule[0].Arrives? then 0
    else
      var n := if schedule[0].n == 0 then 1 else schedule[0].n;
      if n <= room && n <= avail then n else if room <= avail then room else avail
  }

  function Tail<T>(s: seq<T>): seq<T> {
    if s == [] then [] else s[1..]
  }

  class Stream {
    var incoming: bytes              // sent by the peer, not yet read by us
    var schedule: seq<ReadEvent>
    var sent: bytes                  // taken from us by the network
    var writeSchedule: seq<WriteEvent>

    constructor (incoming: bytes, schedule: seq<ReadEvent>, writeSchedule: seq<WriteEvent>)
      ensures this.incoming == incoming && this.schedule == schedule && this.writeSchedule == writeSchedule
      ensures sent == []
    {
      this.incoming, this.schedule, this.writeSchedule := incoming, schedule, writeSchedule;
      sent := [];
    }

    /** How many bytes the next read into so much room takes. */
    function Takes(room: nat): (n: nat)
      reads this`incoming, this`schedule
      ensures n <= room && n <= |incoming|
    {
      Taking(schedule, |incoming|, room)
    }

    /** Since `before` at least one read was tried, if the schedule had any left. */
    predicate Asked(before: seq<ReadEvent>)
      reads this`schedule
    {
      if before == [] then schedule == [] else |schedule| < |before|
    }

    /** `read(&mut dst[lo..hi])`. `Done(0)` with room left means end of file. */
    method Read(dst: array<byte>, lo: nat, hi: nat) returns (r: IoResult)
      requires lo <= hi <= dst.Length
      modifies this`incoming, this`schedule, dst
      ensures r.Done? ==> r.n <= hi - lo && r.n <= |old(incoming)|
      ensures incoming == if r.Done? then old(incoming)[r.n..] else old(incoming)
      ensures schedule == Tail(old(schedule))
      ensures r.Done? ==> r.n == old(Takes(hi - lo))
      ensures !r.Done? ==> old(Takes(hi - lo)) == 0
      ensures r.Failed? <==> old(schedule) != [] && old(schedule)[0].ReadFails?
      ensures lo < hi ==> (r == Done(0) <==> old(schedule) != [] && old(schedule)[0].PeerClosed?)
      ensures r.WouldBlock? <==>
        || old(schedule) == [] || old(schedule)[0].ReadBlocks?
        || (old(schedule)[0].Arrives? && incoming == [] && lo < hi && old(incoming) == [])
      ensures lo < hi && Flowing(old(schedule), old(incoming)) ==> Flowing(schedule, incoming)
      ensures dst[..] == old(dst[..])[..lo] + (if r.Done? then old(incoming)[..r.n] else [])
                         + old(dst[..])[(if r.Done? then lo + r.n else lo)..]
    {
      var event := if schedule == [] then ReadBlocks else schedule[0];
      assert schedule == [] || event in schedule;
      schedule := if schedule == [] then [] else schedule[1..];
      match event
      case ReadBlocks => return WouldBlock;
      case ReadFails => return Failed;
      case PeerClosed => return Done(0);
      case Arrives(want) =>
        if incoming == [] && lo < hi {
          return WouldBlock;
        }
        var n := want;
        if n == 0 { n := 1; }
        if n > hi - lo { n := hi - lo; }
        if n > |incoming| { n := |incoming|; }
        forall i | 0 <= i < n {
          dst[lo + i] := incoming[i];
        }
        incoming := incoming[n..];
        r := Done(n);
    }
  }

  /** Fixed-capacity buffer; `buf[..len]` is readable and `buf[len..cap]` writable. */
  class BufferVec {
    const buf: array<byte>
    var len: nat
    var cap: nat

    ghost predicate Valid()
      reads this
    {
      len <= cap <= buf.Length
    }

    ghost function Contents(): (s: bytes)
      requires Valid()
      reads this, buf
      ensures |s| == len
    {
      buf[..len]
    }

    constructor (cap: nat)
      ensures Valid() && fresh(buf) && this.cap == cap && Contents() == []
    {
      buf := new byte[cap];
      this.len, this.cap := 0, cap;
    }

    constructor FromSlice(data: bytes, cap: nat)
      requires |data| <= cap
      ensures Valid() && fresh(buf) && this.cap == cap && Contents() == data
    {
      buf := new byte[cap](i => if 0 <= i < |data| then data[i] else 0);
      this.len, this.cap := |data|, cap;
      new;
      assert buf[..len] == data;
    }

    method Read() returns (s: bytes)
      requires Valid()
      ensures s == Contents()
    {
      s := buf[..len];
    }

    function Room(): nat
      requires Valid()
      reads this
    {
      cap - len
    }

    predicate IsFull()
      reads this
    {
      len == cap
    }

    method Advance(n: nat)
      requires Valid() && n <= Room()
      modifies this`len
      ensures Valid() && len == old(len) + n
      ensures Contents() == buf[..old(len) + n]
    {
      len := len + n;
    }

    /** Drops the first `n` readable bytes by moving the rest to the front. */
    method RotateLeft(n: nat)
      requires Valid() && n <= len
      modifies this`len, buf
      ensures Valid() && cap == old(cap)
      ensures Contents() == old(Contents())[n..]
    {
      var i := 0;
      while i < len - n
        invariant 0 <= i <= len - n && Valid() && len == old(len)
        invariant forall k :: 0 <= k < i ==> buf[k] == old(buf[..])[k + n]
        invariant forall k :: i <= k < len ==> buf[k] == old(buf[..])[k]
      {
        buf[i] := buf[i + n];
        i := i + 1;
      }
      len := len - n;
      assert forall k :: 0 <= k < len ==> buf[..len][k] == old(Contents())[n..][k];
    }

    /** `Some` of the first `n` readable bytes, if there are that many. */
    method ReadN(n: nat) returns (r: Option<bytes>)
      requires Valid()
      ensures r == if n <= len then Some(Contents()[..n]) else None
    {
      if n <= len {
        r := Some(buf[..n]);
        assert buf[..n] == buf[..len][..n];
      } else {
        r := None;
      }
    }

    /** Copies as much of `src` as fits and says how much that was. */
    method CopyFrom(src: bytes) returns (n: nat)
      requires Valid()
      modifies this`len, buf
      ensures Valid() && cap == old(cap)
      ensures n == if |src| < old(Room()) then |src| else old(Room())
      ensures Contents() == old(Contents()) + src[..n]
    {
      n := if |src| < cap - len then |src| else cap - len;
      forall i | 0 <= i < n {
        buf[len + i] := src[i];
      }
      len := len + n;
    }

    method MoveTo(dst: BufferVec)
      requires Valid() && dst.Valid() && dst != this && dst.buf != buf && len <= dst.Room()
      modifies this`len, dst`len, dst.buf
      ensures Valid() && dst.Valid() && Contents() == []
      ensures dst.cap == old(dst.cap) && dst.Contents() == old(dst.Contents()) + old(Contents())
    {
      var n := dst.CopyFrom(buf[..len]);
      len := 0;
    }

    method EndsWith(pat: bytes) returns (b: bool)
      requires Valid()
      ensures b <==> |pat| <= len && Contents()[len - |pat|..] == pat
    {
      b := |pat| <= len && buf[len - |pat|..len] == pat;
      assert |pat| <= len ==> buf[..len][len - |pat|..] == buf[len - |pat|..len];
    }

    /** Shrinks the capacity, dropping readable bytes beyond it. */
    method ResizeCap(newCap: nat)
      requires Valid() && newCap <= cap
      modifies this`len, this`cap
      ensures Valid() && cap == newCap
      ensures Contents() == if newCap <= old(len) then old(Contents())[..newCap] else old(Contents())
    {
      cap := newCap;
      if newCap < len {
        len := newCap;
      }
      assert newCap <= old(len) ==> buf[..len] == old(Contents())[..newCap];
    }

    /** One read into the free space; end of file is reported as a failure. */
    method FillWith(stream: Stream) returns (r: IoResult)
      requires Valid()
      modifies this`len, buf, stream`incoming, stream`schedule
      ensures Valid() && cap == old(cap)
      ensures Contents() + stream.incoming == old(Contents()) + old(stream.incoming)
      ensures old(Contents()) <= Contents() && old(stream.incoming) == Contents()[old(len)..] + stream.incoming
      ensures !r.Done? ==> Contents() == old(Contents())
      ensures r.Done? && old(Room()) > 0 ==> len > old(len)
      ensures len == old(len) + old(stream.Takes(Room()))
      ensures |stream.incoming| == |old(stream.incoming)| - (len - old(len))
      ensures Used(old(stream.schedule), stream.schedule)
      ensures r.Failed? <==> Ended(old(stream.schedule), stream.schedule)
      ensures if old(Room()) == 0 then r == Done(0) else stream.schedule == Tail(old(stream.schedule))
      ensures Flowing(old(stream.schedule), old(stream.incoming)) ==> Flowing(stream.schedule, stream.incoming)
      ensures old(Room()) > 0 ==> stream.Asked(old(stream.schedule)) && (old(stream.schedule) == [] ==> r.WouldBlock?)
      ensures r.WouldBlock? ==> Blocked(old(stream.schedule), stream.schedule, stream.incoming)
    {
      if len == cap {
        return Done(0);
      }
      ghost var coming, taking := stream.incoming, stream.Takes(cap - len);
      hide Flowing, Taking;
      r := stream.Read(buf, len, cap);
      assert buf[..len] == old(Contents());
      if r == Done(0) {
        return Failed;
      }
      if r.Done? {
        assert buf[..len + r.n] == old(Contents()) + coming[..taking] && coming == coming[..taking] + coming[taking..];
        Advance(r.n);
      }
    }

    /** Reads until the buffer is full or the stream has nothing. */
    method FillAllWith(stream: Stream) returns (r: IoResult)
      requires Valid()
      modifies this`len, buf, stream`incoming, stream`schedule
      ensures Valid() && cap == old(cap)
      ensures Contents() + stream.incoming == old(Contents()) + old(stream.incoming)
      ensures old(Contents()) <= Contents() && old(stream.incoming) == Contents()[old(len)..] + stream.incoming
      ensures if r.Done? then len == cap else len < cap
      ensures Used(old(stream.schedule), stream.schedule)
      ensures r.Failed? <==> Ended(old(stream.schedule), stream.schedule)
      ensures !r.Done? ==> stream.Asked(old(stream.schedule))
      ensures Flowing(old(stream.schedule), old(stream.incoming)) ==> Flowing(stream.schedule, stream.incoming)
      ensures r.WouldBlock? ==> Blocked(old(stream.schedule), stream.schedule, stream.incoming)
    {
      hide Used, Ended, Blocked, Flowing, Taking;
      UsedNone(stream.schedule);
      while len < cap
        invariant Valid() && cap == old(cap)
        invariant Contents() + stream.incoming == old(Contents()) + old(stream.incoming)
        invariant old(Contents()) <= Contents()
        invariant Used(old(stream.schedule), stream.schedule) && !Ended(old(stream.schedule), stream.schedule)
        invariant Flowing(old(stream.schedule), old(stream.incoming)) ==> Flowing(stream.schedule, stream.incoming)
        decreases cap - len
      {
        var before := len;
        ghost var schedule := stream.schedule;
        r := FillWith(stream);
        ReadsJoin(old(stream.schedule), schedule, stream.schedule);
        if !r.Done? || len == before {
          SameTail(old(Contents()), Contents(), old(stream.incoming), stream.incoming);
          return if r.Done? then WouldBlock else r;
        }
      }
      r := Done(0);
      SameTail(old(Contents()), Contents(), old(stream.incoming), stream.incoming);
    }
  }

  lemma SameTail(a: bytes, a': bytes, x: bytes, x': bytes)
    requires a <= a' && a + x == a' + x'
    ensures x == a'[|a|..] + x'
  {
    assert x == (a + x)[|a|..] && (a' + x')[|a|..] == a'[|a|..] + x';
  }

  /** Output buffer: what it was given and the stream has not taken yet. */
  class WriteBuffer {
    var pending: bytes

    constructor ()
      ensures pending == []
    {
      pending := [];
    }

    /** One attempt: the stream takes what it takes, in order. */
    method FlushBuffer(stream: Stream) returns (r: IoResult)
      modifies this, stream`sent, stream`writeSchedule
      ensures stream.sent + pending == old(stream.sent + pending)
      ensures var n := FlushTakes(old(pending), old(stream.writeSchedule));
        stream.sent == old(stream.sent) + old(pending)[..n] && pending == old(pending)[n..]
      ensures stream.writeSchedule == (if old(pending) == [] || old(stream.writeSchedule) == []
                                       then old(stream.writeSchedule) else old(stream.writeSchedule)[1..])
      ensures r.Failed? <==> FlushFails(old(pending), old(stream.writeSchedule))
      ensures r.Done? <==> pending == []
      ensures Used(old(stream.writeSchedule), stream.writeSchedule)
      ensures r.Failed? <==> Broke(old(stream.writeSchedule), stream.writeSchedule)
    {
      if pending == [] {
        return Done(0);
      }
      var event := if stream.writeSchedule == [] then Accepts(0) else stream.writeSchedule[0];
      stream.writeSchedule := if stream.writeSchedule == [] then [] else stream.writeSchedule[1..];
      match event
      case WriteFails => r := Failed;
      case Accepts(want) =>
        var n := if want < |pending| then want else |pending|;
        stream.sent := stream.sent + pending[..n];
        pending := pending[n..];
        r := if pending == [] then Done(n) else WouldBlock;
    }

    /** Queues all of `data` and flushes what the stream takes; only a failed stream is an error. */
    method MustWrite(stream: Stream, data: bytes) returns (r: IoResult)
      modifies this, stream`sent, stream`writeSchedule
      ensures stream.sent + pending == old(stream.sent) + old(pending) + data
      ensures old(stream.sent) <= stream.sent
      ensures !r.WouldBlock?
      ensures r.Failed? <==> FlushFails(old(pending) + data, old(stream.writeSchedule))
      ensures Used(old(stream.writeSchedule), stream.writeSchedule)
      ensures r.Failed? <==> Broke(old(stream.writeSchedule), stream.writeSchedule)
    {
      pending := pending + data;
      r := FlushBuffer(stream);
      if r.WouldBlock? {
        r := Done(0);
      }
    }
  }
}
