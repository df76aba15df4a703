/** The pool of pipelining client connections: write to the least loaded, keep sorted by load. */
module ClientPool {
  /** A connection and the ids it waits for. */
  datatype Client = Client(id: nat, inflight: seq<nat>) {
    function Load(): nat {
      |inflight|
    }
  }

  /** The reversed order of the source: the busiest connection comes first. */
  predicate Before(a: Client, b: Client) {
    a.Load() >= b.Load()
  }

  predicate Sorted(s: seq<Client>) {
    forall i, j :: 0 <= i < j < |s| ==> Before(s[i], s[j])
  }

  function Insert(s: seq<Client>, c: Client): (r: seq<Client>)
    requires Sorted(s)
    ensures Sorted(r) && multiset(r) == multiset(s) + multiset{c}
  {
    if s == [] then [c]
    else if Before(c, s[0]) then
      assert [c] + s == [c] + s;
      [c] + s
    else
      var rest := Insert(s[1..], c);
      InsertBehind(s, c, rest);
      [s[0]] + rest
  }

  lemma InsertBehind(s: seq<Client>, c: Client, rest: seq<Client>)
    requires s != [] && Sorted(s) && !Before(c, s[0])
    requires Sorted(rest) && multiset(rest) == multiset(s[1..]) + multiset{c}
    ensures Sorted([s[0]] + rest) && multiset([s[0]] + rest) == multiset(s) + multiset{c}
  {
    assert s == [s[0]] + s[1..];
    forall i | 0 <= i < |rest|
      ensures Before(s[0], rest[i])
    {
      assert rest[i] in multiset(rest);
      if rest[i] != c {
        assert rest[i] in multiset(s[1..]) && rest[i] in s[1..];
      }
    }
  }

  /** Stands for the library's `sort_unstable`: callers only learn that the result is sorted and a permutation. */
  method SortUnstable(s: seq<Client>) returns (r: seq<Client>)
    ensures Sorted(r) && multiset(r) == multiset(s)
  {
    r := [];
    var i := 0;
    while i < |s|
      invariant i <= |s| && Sorted(r) && multiset(r) == multiset(s[..i])
    {
      r := Insert(r, s[i]);
      assert s[..i + 1] == s[..i] + [s[i]];
      i := i + 1;
    }
    assert s[..i] == s;
  }

  /** One attempt to write to a connection, as the network decides it. */
  datatype Attempt = Succeeds | Fails | FindsEof(reconnects: bool)
  datatype WriteResult = Written | WriteFailed | ReconnectFailed

  /** How a write ends: end of file is answered by a new connection as long as one can be made. */
  function Outcome(attempts: seq<Attempt>): WriteResult {
    if attempts == [] then Written
    else
      match attempts[0]
      case Succeeds => Written
      case Fails => WriteFailed
      case FindsEof(reconnects) => if reconnects then Outcome(attempts[1..]) else ReconnectFailed
  }

  /** The first attempt that is not an end of file with a new connection behind it decides. */
  lemma {:induction false} OutcomeIs(attempts: seq<Attempt>, n: nat)
    requires n <= |attempts| && (forall i :: 0 <= i < n ==> attempts[i] == FindsEof(true))
    requires n < |attempts| ==> attempts[n] != FindsEof(true)
    ensures Outcome(attempts) ==
      if n == |attempts| || attempts[n] == Succeeds then Written
      else if attempts[n] == Fails then WriteFailed
      else ReconnectFailed
    decreases n
  {
    if n > 0 {
      assert attempts[0] == FindsEof(true);
      OutcomeIs(attempts[1..], n - 1);
    }
  }

  class HttpConnClientPool {
    var clients: seq<Client>
    var nextId: nat                   // names for new connections

    constructor (size: nat)
      ensures |clients| == size && Sorted(clients) && forall c :: c in clients ==> c.Load() == 0
    {
      clients := seq(size, i requires 0 <= i < size => Client(i, []));
      nextId := size;
    }

    /**
     * Writes to the last connection of the list, reconnecting at end of file, and sorts the list again. The
     * ids a closed connection waited for are dropped with it.
     */
    method WriteRequest(reqId: nat, attempts: seq<Attempt>) returns (result: WriteResult, ghost used: Client)
      requires clients != []
      modifies this
      ensures result == Outcome(attempts) && |clients| == |old(clients)|
      ensures var rest, first := old(clients)[..|old(clients)| - 1], old(clients)[|old(clients)| - 1];
        && multiset(clients) == multiset(rest) + multiset{used}
        && (result.ReconnectFailed? ==> clients == rest + [used])
        && (!result.ReconnectFailed? ==> Sorted(clients))
        && var reconnected := attempts != [] && attempts[0].FindsEof? && attempts[0].reconnects;
        && (!reconnected ==> used == if result.Written? then first.(inflight := first.inflight + [reqId]) else first)
        && (reconnected ==> used.inflight == (if result.Written? then [reqId] else []) && used.id >= old(nextId))
      ensures result.Written? && (attempts == [] || !attempts[0].FindsEof?) ==> WriteStep(old(clients), reqId, clients)
    {
      var n := |clients| - 1;
      var conn := clients[n];
      clients := clients[..n];
      var i := 0;
      while true
        invariant i <= |attempts| && clients == old(clients)[..n]
        invariant Outcome(attempts) == Outcome(attempts[i..]) && nextId >= old(nextId)
        invariant if i == 0 then conn == old(clients)[n]
                  else attempts[0].FindsEof? && attempts[0].reconnects && conn.inflight == [] && conn.id >= old(nextId)
        decreases |attempts| - i
      {
        var attempt := if i < |attempts| then attempts[i] else Succeeds;
        match attempt
        case FindsEof(reconnects) =>
          if !reconnects {
            clients := clients + [conn];
            return ReconnectFailed, conn;
          }
          conn, nextId := Client(nextId, []), nextId + 1;   // the old connection's ids are dropped
          i := i + 1;
        case Succeeds =>
          var used' := conn.(inflight := conn.inflight + [reqId]);
          var sorted := SortUnstable(clients + [used']);
          SameSize(sorted, clients + [used']);
          clients := sorted;
          return Written, used';
        case Fails =>
          var sorted := SortUnstable(clients + [conn]);
          SameSize(sorted, clients + [conn]);
          clients := sorted;
          return WriteFailed, conn;
      }
    }

    /** Asks the connections in list order; the first that has an answer or an error decides. */
    method ReadResponse(answers: seq<Reply>) returns (result: PoolRead, ghost k: nat)
      modifies this
      ensures k <= |old(clients)| && forall j :: 0 <= j < k ==> Silent(old(clients)[j], answers, j)
      ensures k < |old(clients)| ==> !Silent(old(clients)[k], answers, k)
      ensures ReadStep(old(clients), clients, k, result)
      ensures k < |old(clients)| ==>
        match answers[k]
        case Responds => old(clients)[k].inflight != [] && result == Response(old(clients)[k].inflight[0])
        case Breaks(reconnects) => result == if reconnects then ReadFailed else NotReplaced
        case Waits => false
      ensures result.ReadFailed? ==> clients[k] == Client(old(nextId), [])
      ensures Sorted(old(clients)) ==> (Sorted(clients) <==> StaysInPlace(old(clients), k, result))
    {
      var i := 0;
      while i < |clients|
        invariant i <= |clients| && clients == old(clients) && nextId == old(nextId)
        invariant forall j :: 0 <= j < i ==> Silent(clients[j], answers, j)
      {
        var client := clients[i];
        if !Silent(client, answers, i) {
          match answers[i]
          case Responds =>
            clients := clients[i := client.(inflight := client.inflight[1..])];
            SortedAfterRead(old(clients), clients, i, Response(client.inflight[0]));
            return Response(client.inflight[0]), i;
          case Breaks(reconnects) =>
            if !reconnects {
              return NotReplaced, i;
            }
            clients := clients[i := Client(nextId, [])];
            SortedAfterRead(old(clients), clients, i, ReadFailed);
            nextId := nextId + 1;
            return ReadFailed, i;
        }
        i := i + 1;
      }
      return NoneReady, i;
    }
  }

  lemma SortedAfterRead(s: seq<Client>, t: seq<Client>, k: nat, result: PoolRead)
    requires ReadStep(s, t, k, result)
    ensures Sorted(s) ==> (Sorted(t) <==> StaysInPlace(s, k, result))
  {
    if Sorted(s) {
      ReadKeepsSortedIff(s, t, k, result);
    }
  }

  datatype Reply = Responds | Waits | Breaks(reconnects: bool)
  datatype PoolRead = NoneReady | Response(id: nat) | ReadFailed | NotReplaced

  /** A connection with nothing outstanding never answers. */
  predicate Silent(c: Client, answers: seq<Reply>, i: nat) {
    i >= |answers| || answers[i].Waits? || (answers[i].Responds? && c.inflight == [])
  }

  lemma SameSize(a: seq<Client>, b: seq<Client>)
    requires multiset(a) == multiset(b)
    ensures |a| == |b|
  {
    assert |multiset(a)| == |a| && |multiset(b)| == |b|;
  }

  // ---- Balance ----

  predicate Balanced(s: seq<Client>) {
    forall a, b :: a in s && b in s ==> a.Load() <= b.Load() + 1
  }

  /** A successful write without end of file, as `WriteRequest` promises it. */
  ghost predicate WriteStep(s: seq<Client>, reqId: nat, t: seq<Client>) {
    && s != [] && Sorted(t)
    && var last := s[|s| - 1];
       multiset(t) == multiset(s[..|s| - 1]) + multiset{last.(inflight := last.inflight + [reqId])}
  }

  ghost predicate WriteRun(states: seq<seq<Client>>, ids: seq<nat>) {
    && |states| == |ids| + 1
    && forall i :: 0 <= i < |ids| ==> WriteStep(states[i], ids[i], states[i + 1])
  }

  lemma WriteKeepsBalance(s: seq<Client>, reqId: nat, t: seq<Client>)
    requires Sorted(s) && Balanced(s) && WriteStep(s, reqId, t)
    ensures Balanced(t)
    ensures forall c :: c in s ==> s[|s| - 1].Load() <= c.Load()
  {
    var n := |s| - 1;
    var used := s[n].(inflight := s[n].inflight + [reqId]);
    assert s[n] in s;
    forall c | c in t
      ensures c == used || c in s[..n]
    {
      assert c in multiset(t);
      if c != used {
        assert c in multiset(s[..n]);
      }
    }
    assert forall c :: c in s[..n] ==> c in s;
  }

  lemma WriteAddsLoad(s: seq<Client>, reqId: nat, t: seq<Client>)
    requires WriteStep(s, reqId, t)
    ensures |t| == |s| && TotalLoad(t) == TotalLoad(s) + 1
  {
    var n := |s| - 1;
    var after := s[..n] + [s[n].(inflight := s[n].inflight + [reqId])];
    SameSize(t, after);
    PermutedLoad(t, after);
    assert after[..n] == s[..n];
  }

  function TotalLoad(s: seq<Client>): nat {
    if s == [] then 0 else TotalLoad(s[..|s| - 1]) + s[|s| - 1].Load()
  }

  /** The total load does not depend on the order. */
  lemma {:induction false} PermutedLoad(a: seq<Client>, b: seq<Client>)
    requires multiset(a) == multiset(b)
    ensures TotalLoad(a) == TotalLoad(b)
    decreases |a|
  {
    SameSize(a, b);
    if a != [] {
      var n := |a| - 1;
      var c := a[n];
      assert a == a[..n] + [c];
      assert c in multiset(b);
      var k :| 0 <= k < |b| && b[k] == c;
      WithoutOne(b, k);
      CancelOne(multiset(a[..n]), multiset(b[..k] + b[k + 1..]), c);
      hide TotalLoad;
      PermutedLoad(a[..n], b[..k] + b[k + 1..]);
      LoadWithout(a, n);
      LoadWithout(b, k);
      assert a[..n] + a[n + 1..] == a[..n];
    }
  }

  lemma CancelOne(x: multiset<Client>, y: multiset<Client>, c: Client)
    requires x + multiset{c} == y + multiset{c}
    ensures x == y
  {
    assert x == (x + multiset{c}) - multiset{c};
  }

  lemma WithoutOne(b: seq<Client>, k: nat)
    requires k < |b|
    ensures multiset(b) == multiset(b[..k] + b[k + 1..]) + multiset{b[k]}
  {
    assert b == b[..k] + [b[k]] + b[k + 1..];
  }

  lemma {:induction false} LoadWithout(b: seq<Client>, k: nat)
    requires k < |b|
    ensures TotalLoad(b) == TotalLoad(b[..k] + b[k + 1..]) + b[k].Load()
    decreases |b|
  {
    var n := |b| - 1;
    if k == n {
      assert b[..k] + b[k + 1..] == b[..n];
    } else {
      LoadWithout(b[..n], k);
      var c := b[..k] + b[k + 1..];
      assert c[..|c| - 1] == b[..n][..k] + b[..n][k + 1..] && c[|c| - 1] == b[n];
    }
  }

  /**
   * Over any run of writes from a fresh pool every write goes to a least loaded connection, loads
   * never differ by more than one, and together they are the number of writes.
   */
  lemma {:induction false} PoolBalance(states: seq<seq<Client>>, ids: seq<nat>)
    requires WriteRun(states, ids)
    requires Sorted(states[0]) && forall c :: c in states[0] ==> c.Load() == 0
    ensures forall i :: 0 <= i < |states| ==>
      Sorted(states[i]) && Balanced(states[i]) && |states[i]| == |states[0]| && TotalLoad(states[i]) == i
    ensures forall i, c :: 0 <= i < |ids| && c in states[i] ==> states[i][|states[i]| - 1].Load() <= c.Load()
    decreases |ids|
  {
    hide WriteStep, Sorted, Balanced, TotalLoad;
    if ids == [] {
      NoLoad(states[0]);
    } else {
      var n := |ids| - 1;
      var init := states[..n + 1];
      assert forall i :: 0 <= i <= n ==> init[i] == states[i];
      PoolBalance(init, ids[..n]);
      StepSorted(states[n], ids[n], states[n + 1]);
      WriteKeepsBalance(states[n], ids[n], states[n + 1]);
      WriteAddsLoad(states[n], ids[n], states[n + 1]);
    }
  }

  lemma StepSorted(s: seq<Client>, reqId: nat, t: seq<Client>)
    requires WriteStep(s, reqId, t)
    ensures s != [] && Sorted(t)
  {
  }

  lemma {:induction false} NoLoad(s: seq<Client>)
    requires forall c :: c in s ==> c.Load() == 0
    ensures TotalLoad(s) == 0 && Balanced(s)
    decreases |s|
  {
    if s != [] {
      assert s[|s| - 1] in s;
      NoLoad(s[..|s| - 1]);
    }
  }

  /** What one `ReadResponse` does, `k` being the client that decided. */
  ghost predicate ReadStep(s: seq<Client>, t: seq<Client>, k: nat, result: PoolRead) {
    && |t| == |s| && k <= |s| && (forall j :: 0 <= j < |s| && j != k ==> t[j] == s[j])
    && match result
       case NoneReady => k == |s|
       case Response(id) => k < |s| && s[k].inflight == [id] + t[k].inflight && t[k].id == s[k].id
       case ReadFailed => k < |s| && t[k].inflight == []
       case NotReplaced => k < |s| && t[k] == s[k]
  }

  /** Client `k` was the last, or what it has left still is at least what the next one has. */
  predicate StaysInPlace(s: seq<Client>, k: nat, result: PoolRead)
    requires k <= |s| && (k == |s| ==> result.NoneReady?)
  {
    match result
    case Response(_) => k == |s| - 1 || s[k].Load() > s[k + 1].Load()
    case ReadFailed => k == |s| - 1 || s[k + 1].Load() == 0
    case _ => true
  }

  /**
   * Reading does not sort. The list is still sorted if and only if the answering client was strictly
   * busier than the next one, or the client replaced after an error has only idle ones behind it;
   * the other two results change nothing.
   */
  lemma ReadKeepsSortedIff(s: seq<Client>, t: seq<Client>, k: nat, result: PoolRead)
    requires Sorted(s) && ReadStep(s, t, k, result)
    ensures Sorted(t) <==> StaysInPlace(s, k, result)
  {
    if k < |s| {
      assert result.Response? ==> s[k].Load() == t[k].Load() + 1;
      if !StaysInPlace(s, k, result) {
        assert !Before(t[k], t[k + 1]);
      }
    } else {
      assert t == s;
    }
  }
}
