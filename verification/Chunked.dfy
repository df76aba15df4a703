/** The decoding loop over real buffers, proved against `ChunkedSpec.Decode`. */
module Chunked {
  import opened Bytes
  import opened Buffers
  import opened Hex
  import Spec = ChunkedSpec

  /** The `Vec<BufferVec>` of chunks: only its last buffer is ever written. */
  class ChunkList {
    var list: seq<BufferVec>
    ghost var Repr: set<object>

    ghost predicate Valid()
      reads this, Repr
    {
      && this in Repr
      && (forall i :: 0 <= i < |list| ==> list[i] in Repr && list[i].buf in Repr && list[i].Valid())
      && (forall i, j :: 0 <= i < j < |list| ==> list[i] != list[j] && list[i].buf != list[j].buf)
    }

    ghost function View(): (v: seq<Spec.Chunk>)
      requires Valid()
      reads this, Repr
      ensures |v| == |list|
      ensures forall i :: 0 <= i < |list| ==> v[i] == Spec.ChunkBuffer.Chunk(list[i].Contents(), list[i].cap)
    {
      seq(|list|, i requires 0 <= i < |list| && Valid() reads this, Repr =>
        Spec.ChunkBuffer.Chunk(list[i].Contents(), list[i].cap))
    }

    constructor ()
      ensures Valid() && fresh(Repr) && list == [] && View() == []
    {
      list, Repr := [], {this};
    }

    method Open(cap: nat)
      requires Valid()
      modifies this
      ensures Valid() && fresh(Repr - old(Repr)) && |list| == |old(list)| + 1 && list[..|old(list)|] == old(list)
      ensures fresh(list[|old(list)|]) && fresh(list[|old(list)|].buf)
      ensures View() == old(View()) + [Spec.ChunkBuffer.Chunk([], cap)]
    {
      var chunk := new BufferVec(cap);
      list, Repr := list + [chunk], Repr + {chunk, chunk.buf};
    }

    /** Copies from `buf` into the last chunk and seals it when full; `bad` if it does not end in CRLF. */
    method FillLast(buf: bytes) returns (n: nat, bad: bool)
      requires Valid() && list != [] && buf != []
      modifies list[|list| - 1], list[|list| - 1].buf
      ensures Valid()
      ensures var (c, used, b) := Spec.FillOne(Spec.Last(old(View())), buf);
        n == used && bad == b && View() == old(View())[..|list| - 1] + [c]
    {
      n, bad := FillBuffer(list[|list| - 1], buf);
    }

    method Body() returns (body: bytes)
      requires Valid()
      ensures body == Spec.Body(View())
    {
      body := [];
      ghost var v := View();
      var i := |list|;
      while i > 0
        invariant 0 <= i <= |list| && Valid() && v == View() && body == Spec.Body(v[i..])
      {
        i := i - 1;
        var data := list[i].Read();
        body := data + body;
        assert v[i..][1..] == v[i + 1..] && v[i..][0] == v[i];
      }
      assert v[i..] == v;
    }
  }

  ghost function ViewOne(chunk: BufferVec): Spec.Chunk
    requires chunk.Valid()
    reads chunk, chunk.buf
  {
    Spec.ChunkBuffer.Chunk(chunk.Contents(), chunk.cap)
  }

  method FillBuffer(chunk: BufferVec, buf: bytes) returns (n: nat, bad: bool)
    requires chunk.Valid()
    modifies chunk, chunk.buf
    ensures chunk.Valid()
    ensures (ViewOne(chunk), n, bad) == Spec.FillOne(old(ViewOne(chunk)), buf)
  {
    n := chunk.CopyFrom(buf);
    bad := false;
    if chunk.IsFull() {
      var terminated := chunk.EndsWith(CR_LF);
      if !terminated {
        bad := true;
      } else {
        chunk.ResizeCap(chunk.cap - 2);
      }
    }
  }

  method ReadChunkHeader(buf: bytes) returns (header: Spec.Header)
    ensures header == Spec.ReadHeader(buf)
  {
    match Find(buf, CR_LF)
    case None => header := Spec.NoLine;
    case Some(i) =>
      var length := ParseHexUint(buf[..i]);
      header := if length.Value? then Spec.Line(length.n, i + 2) else Spec.BadLine;
  }

  /** One iteration of the decoding loop. */
  method ReadStep(buf: bytes, chunks: ChunkList) returns (used: nat, stop: Option<Spec.ChunkState>)
    requires chunks.Valid() && buf != []
    modifies chunks.Repr
    ensures chunks.Valid() && fresh(chunks.Repr - old(chunks.Repr))
    ensures used <= |buf|
    ensures Spec.Next(old(chunks.View()), buf) ==
            if stop.Some? then Spec.Stop(chunks.View(), used, stop.value) else Spec.Continue(chunks.View(), used)
  {
    hide Spec.Next, Spec.ReadHeader, Spec.FillOne;
    ghost var view := chunks.View();
    var chunk := if chunks.list == [] then null else chunks.list[|chunks.list| - 1];
    if chunk != null && chunk.cap == 0 {
      Spec.CapZeroStops(view, buf);
      return 0, Some(Spec.Finished);
    }
    if chunk != null && !chunk.IsFull() {
      Spec.NextFills(view, buf);
      var n, bad := chunks.FillLast(buf);
      return n, if bad then Some(Spec.IllegalBody) else None;
    }
    used, stop := HeaderStep(buf, chunks);
  }

  method HeaderStep(buf: bytes, chunks: ChunkList) returns (used: nat, stop: Option<Spec.ChunkState>)
    requires chunks.Valid() && buf != [] && Spec.AtHeader(chunks.View())
    modifies chunks
    ensures chunks.Valid() && fresh(chunks.Repr - old(chunks.Repr))
    ensures used <= |buf|
    ensures Spec.Next(old(chunks.View()), buf) ==
            if stop.Some? then Spec.Stop(chunks.View(), used, stop.value) else Spec.Continue(chunks.View(), used)
  {
    hide Spec.Next, Spec.ReadHeader, Spec.AtHeader;
    Spec.NextReadsHeader(chunks.View(), buf);
    var header := ReadChunkHeader(buf);
    match header
    case Line(length, n) =>
      chunks.Open((length + 2) % USIZE);
      return n, None;
    case NoLine =>
      return 0, Some(if |buf| < 16 then Spec.BufferNotEnough
                     else if chunks.list == [] then Spec.NotChunked else Spec.IllegalBody);
    case BadLine =>
      return 0, Some(Spec.IllegalBody);
  }

  /** Decodes from the front of `buf` and returns what it did not take. */
  method ReadChunks(buf: bytes, chunks: ChunkList) returns (rest: bytes, state: Spec.ChunkState)
    requires chunks.Valid()
    modifies chunks.Repr
    ensures chunks.Valid() && fresh(chunks.Repr - old(chunks.Repr))
    ensures Spec.Decoded(chunks.View(), rest, state) == Spec.Decode(old(chunks.View()), buf)
  {
    hide Spec.Next;
    rest := buf;
    while rest != []
      invariant chunks.Valid() && fresh(chunks.Repr - old(chunks.Repr))
      invariant Spec.Decode(chunks.View(), rest) == Spec.Decode(old(chunks.View()), buf)
      decreases |rest|
    {
      var used, stop := ReadStep(rest, chunks);
      rest := rest[used..];
      if stop.Some? {
        return rest, stop.value;
      }
    }
    state := if chunks.list != [] && chunks.list[|chunks.list| - 1].cap == 0 then Spec.Finished
      else Spec.BufferNotEnough;
  }
}
