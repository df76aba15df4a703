/** FIFO correlation of requests and responses on one pipelined connection, as a specification. */
module Correlation {
  import opened Bytes
  import opened ResponseFraming

  /** The id of a request whose response is dropped. */
  const IGNORED: nat := USIZE - 1

  /** The k-th written id with the k-th response of the stream, ignored ids left out. */
  function Correlate(ids: seq<nat>, responses: seq<Response>): seq<(nat, Response)>
    requires |ids| == |responses|
  {
    if ids == [] then []
    else
      var n := |ids| - 1;
      Correlate(ids[..n], responses[..n]) + (if ids[n] == IGNORED then [] else [(ids[n], responses[n])])
  }

  /**
   * What a connection keeps: waiting ids are the written ones not answered yet, and answers are correlated
   * in order.
   */
  ghost predicate InOrder(written: seq<nat>, waiting: seq<nat>, answered: seq<Response>,
                          returned: seq<(nat, Response)>) {
    && |answered| <= |written| && waiting == written[|answered|..]
    && returned == Correlate(written[..|answered|], answered)
  }

  lemma WriteKeepsOrder(written: seq<nat>, waiting: seq<nat>, answered: seq<Response>, returned: seq<(nat, Response)>,
                        id: nat)
    requires InOrder(written, waiting, answered, returned)
    ensures InOrder(written + [id], waiting + [id], answered, returned)
  {
    assert (written + [id])[..|answered|] == written[..|answered|];
    assert (written + [id])[|answered|..] == waiting + [id];
  }

  lemma AnswerKeepsOrder(written: seq<nat>, waiting: seq<nat>, answered: seq<Response>, returned: seq<(nat, Response)>,
                         response: Response)
    requires InOrder(written, waiting, answered, returned) && waiting != []
    ensures InOrder(written, waiting[1..], answered + [response],
                    returned + (if waiting[0] == IGNORED then [] else [(waiting[0], response)]))
  {
    var n := |answered|;
    assert written[..n + 1][..n] == written[..n] && (answered + [response])[..n] == answered;
    assert written[n..][1..] == written[n + 1..];
  }

  /** How many of the first `n` ids are not ignored. */
  function Counted(ids: seq<nat>, n: nat): nat
    requires n <= |ids|
  {
    if n == 0 then 0 else Counted(ids, n - 1) + (if ids[n - 1] == IGNORED then 0 else 1)
  }

  /** The answer to request number `k` comes behind those to the earlier requests that are not ignored. */
  lemma {:induction false} CorrelatedAt(ids: seq<nat>, responses: seq<Response>, k: nat)
    requires |ids| == |responses| && k < |ids| && ids[k] != IGNORED
    ensures var pairs := Correlate(ids, responses);
      |pairs| == Counted(ids, |ids|) && Counted(ids, k) < |pairs| && pairs[Counted(ids, k)] == (ids[k], responses[k])
  {
    var n := |ids| - 1;
    CorrelateSize(ids, responses);
    CorrelateSize(ids[..n], responses[..n]);
    SameCount(ids, n, k);
    SameCount(ids, n, n);
    if k < n {
      CorrelatedAt(ids[..n], responses[..n], k);
    }
  }

  lemma {:induction false} CorrelateSize(ids: seq<nat>, responses: seq<Response>)
    requires |ids| == |responses|
    ensures |Correlate(ids, responses)| == Counted(ids, |ids|)
  {
    if ids != [] {
      var n := |ids| - 1;
      CorrelateSize(ids[..n], responses[..n]);
      SameCount(ids, n, n);
    }
  }

  lemma {:induction false} SameCount(ids: seq<nat>, n: nat, k: nat)
    requires k <= n <= |ids|
    ensures Counted(ids[..n], k) == Counted(ids, k)
  {
    if k > 0 {
      SameCount(ids, n, k - 1);
    }
  }

  /**
   * Over any interleaving of writes and reads: the pairs returned are the k-th written id with the
   * k-th response of the whole byte stream, and the ids still waiting are exactly the rest.
   */
  lemma Fifo(cap: nat, u: bytes, calls: seq<Call>, written: seq<nat>, waiting: seq<nat>, returned: seq<(nat, Response)>)
    requires IsRun(cap, u, calls) && SizeLinesBuffered(u, calls)
    requires InOrder(written, waiting, Delivered(calls), returned)
    ensures var k := |Delivered(calls)|;
      && k <= |written| && k <= |Responses(u)|
      && returned == Correlate(written[..k], Responses(u)[..k]) && waiting == written[k..]
  {
    hide IsRun, SizeLinesBuffered, Responses;
    RunRefinesFraming(cap, u, calls);
    assert Responses(u)[..|Delivered(calls)|] == Delivered(calls);
  }
}
