/**
 * Reassembly of fragments on the continuation stack, as the code does it, against the meaning of
 * the same pieces.
 */
module WsAssembly {
  import opened Bytes
  import opened WsParser

  /** A parser result that was pushed on the continuation stack. */
  datatype LogPiece = LogPiece(ty: MsgType, data: bytes, last: bool)

  /** "1234567890abcdefghijklmnopqrstuvwxyz", the keepalive payload. */
  const PING_MSG: bytes :=
    [49, 50, 51, 52, 53, 54, 55, 56, 57, 48, 97, 98, 99, 100, 101, 102, 103, 104, 105, 106, 107, 108, 109, 110, 111,
     112, 113, 114, 115, 116, 117, 118, 119, 120, 121, 122]

  const PING_TEXT: string := "1234567890abcdefghijklmnopqrstuvwxyz"

  lemma PingText()
    ensures |PING_MSG| == |PING_TEXT|
    ensures forall i :: 0 <= i < |PING_TEXT| ==> PING_MSG[i] as int == PING_TEXT[i] as int
  {
  }

  /** The pieces' meaning. */
  function Replay(log: seq<LogPiece>): Acc {
    if log == [] then NOTHING
    else
      var p := log[|log| - 1];
      Feed(Replay(log[..|log| - 1]), p.ty, p.data, p.last)
  }

  /** The continuation stack, the messages returned and the Ping payloads echoed. */
  datatype Assembly = Assembly(stack: seq<bytes>, out: seq<Msg>, pongs: seq<bytes>)

  function Push(a: Assembly, data: bytes): Assembly {
    a.(stack := a.stack + [data])
  }

  function Pop(a: Assembly): Assembly
    requires a.stack != []
  {
    a.(stack := a.stack[..|a.stack| - 1])
  }

  /** A message ended: its last piece decides whether a data message is taken for the keepalive answer. */
  function Resolve(a: Assembly, ty: MsgType): Assembly
    requires a.stack != []
  {
    var top := a.stack[|a.stack| - 1];
    if ty.IsData() then
      if top == PING_MSG then Pop(a) else Assembly([], a.out + [Msg(ty, Flatten(a.stack))], a.pongs)
    else if ty == PingMsg then Pop(a).(pongs := a.pongs + [top])
    else Pop(a)
  }

  function AssembleFrom(start: Assembly, log: seq<LogPiece>): Assembly {
    if log == [] then start
    else
      var p := log[|log| - 1];
      var a := Push(AssembleFrom(start, log[..|log| - 1]), p.data);
      if p.last then Resolve(a, p.ty) else a
  }

  const FRESH: Assembly := Assembly([], [], [])

  function Assemble(log: seq<LogPiece>): Assembly {
    AssembleFrom(FRESH, log)
  }

  /** No data message ends in a piece equal to the keepalive payload, and every control payload is one piece. */
  predicate CleanPiece(p: LogPiece) {
    if p.ty.IsData() then p.last ==> p.data != PING_MSG else !p.last ==> p.data == []
  }

  predicate Clean(log: seq<LogPiece>) {
    forall p :: p in log ==> CleanPiece(p)
  }

  function PingPayloads(controls: seq<Msg>): seq<bytes> {
    if controls == [] then []
    else
      var c := controls[|controls| - 1];
      PingPayloads(controls[..|controls| - 1]) + (if c.ty == PingMsg then [c.data] else [])
  }

  /** Exactly the Pings are echoed: payload number `n` is that of the n-th Ping. */
  lemma {:induction false} EchoedAt(controls: seq<Msg>, k: nat)
    requires k < |controls| && controls[k].ty == PingMsg
    ensures var payloads := PingPayloads(controls);
      |payloads| == Pings(controls) && Pings(controls[..k]) < |payloads|
      && payloads[Pings(controls[..k])] == controls[k].data
  {
    var n := |controls| - 1;
    EchoCount(controls);
    EchoCount(controls[..n]);
    if k < n {
      EchoedAt(controls[..n], k);
      assert controls[..n][..k] == controls[..k];
    }
  }

  function Pings(controls: seq<Msg>): nat {
    if controls == [] then 0
    else Pings(controls[..|controls| - 1]) + (if controls[|controls| - 1].ty == PingMsg then 1 else 0)
  }

  lemma {:induction false} EchoCount(controls: seq<Msg>)
    ensures |PingPayloads(controls)| == Pings(controls)
  {
    if controls != [] {
      EchoCount(controls[..|controls| - 1]);
    }
  }

  /** The first message gets the stale bytes in front. */
  function Prefixed(stale: bytes, out: seq<Msg>): seq<Msg> {
    if out == [] then [] else [out[0].(data := stale + out[0].data)] + out[1..]
  }

  /**
   * Starting with stale fragments on the stack, clean pieces are assembled to their meaning, except
   * that the stale bytes end up in front of the first message.
   */
  lemma {:induction false} CleanAssembly(stale: seq<bytes>, log: seq<LogPiece>)
    requires Clean(log)
    ensures Agree(Flatten(stale), AssembleFrom(Assembly(stale, [], []), log), Replay(log))
  {
    if log == [] {
      assert Flatten(stale) + [] == Flatten(stale);
    } else {
      var init, p := log[..|log| - 1], log[|log| - 1];
      assert p in log;
      hide Agree, Feed, Resolve;
      CleanAssembly(stale, init);
      CleanStep(Flatten(stale), AssembleFrom(Assembly(stale, [], []), init), Replay(init), p);
    }
  }

  ghost predicate Agree(stale: bytes, a: Assembly, m: Acc) {
    && a.out == Prefixed(stale, m.out) && a.pongs == PingPayloads(m.controls) && !m.unfinished
    && Flatten(a.stack) == if m.out == [] then stale + m.data else m.data
  }

  lemma CleanStep(stale: bytes, a: Assembly, m: Acc, p: LogPiece)
    requires CleanPiece(p) && Agree(stale, a, m)
    ensures var pushed := Push(a, p.data);
      Agree(stale, if p.last then Resolve(pushed, p.ty) else pushed, Feed(m, p.ty, p.data, p.last))
  {
    if p.ty.IsData() {
      DataStep(stale, a, m, p);
    } else {
      ControlStep(stale, a, m, p);
    }
  }

  lemma DataStep(stale: bytes, a: Assembly, m: Acc, p: LogPiece)
    requires CleanPiece(p) && Agree(stale, a, m) && p.ty.IsData()
    ensures var pushed := Push(a, p.data);
      Agree(stale, if p.last then Resolve(pushed, p.ty) else pushed, Feed(m, p.ty, p.data, p.last))
  {
    hide Flatten, PingPayloads;
    FlattenSnoc(a.stack, p.data);
    assert stale + m.data + p.data == stale + (m.data + p.data) && m.data + [] == m.data;
    if p.last {
      EmptyFlatten();
      PrefixedSnoc(stale, m, Msg(p.ty, m.data + p.data));
      hide Prefixed;
    }
  }

  lemma PrefixedSnoc(stale: bytes, m: Acc, msg: Msg)
    ensures Prefixed(stale, m.out + [msg])
         == Prefixed(stale, m.out) + [if m.out == [] then msg.(data := stale + msg.data) else msg]
    ensures (m.out + [msg]) != []
  {
    if m.out != [] {
      assert (m.out + [msg])[1..] == m.out[1..] + [msg];
    }
  }

  lemma ControlStep(stale: bytes, a: Assembly, m: Acc, p: LogPiece)
    requires CleanPiece(p) && Agree(stale, a, m) && !p.ty.IsData()
    ensures var pushed := Push(a, p.data);
      Agree(stale, if p.last then Resolve(pushed, p.ty) else pushed, Feed(m, p.ty, p.data, p.last))
  {
    hide Flatten, Prefixed;
    FlattenSnoc(a.stack, p.data);
    assert (a.stack + [p.data])[..|a.stack|] == a.stack;
    if p.last {
      assert [] + p.data == p.data;
      var c := Msg(p.ty, p.data);
      assert (m.controls + [c])[..|m.controls|] == m.controls;
      assert a.pongs + [] == a.pongs;
    } else {
      assert Flatten(a.stack) + [] == Flatten(a.stack);
    }
  }

  lemma EmptyFlatten()
    ensures Flatten<byte>([]) == []
  {
  }

  /** The messages and the unfinished text are what the pieces mean, up to the stale bytes. */
  ghost predicate SameText(stale: bytes, a: Assembly, m: Acc) {
    && a.out == Prefixed(stale, m.out)
    && Flatten(a.stack) == if m.out == [] then stale + m.data else m.data
  }

  /**
   * The stack assembles pieces to their text if and only if they are clean: a message that ends in a
   * keepalive piece is missing, and a control payload in several pieces adds bytes to the text.
   */
  lemma CleanIff(stale: seq<bytes>, log: seq<LogPiece>)
    ensures SameText(Flatten(stale), AssembleFrom(Assembly(stale, [], []), log), Replay(log)) <==> Clean(log)
    ensures Clean(log) ==> Agree(Flatten(stale), AssembleFrom(Assembly(stale, [], []), log), Replay(log))
  {
    hide AssembleFrom, Replay, Flatten, Prefixed;
    var s, a, m := Flatten(stale), AssembleFrom(Assembly(stale, [], []), log), Replay(log);
    if Clean(log) {
      CleanAssembly(stale, log);
    } else if SameText(s, a, m) {
      Tally(stale, log);
      PrefixedVolume(s, m.out);
      NothingSpoilt(log);
    }
  }

  /** How many messages end in a keepalive piece. */
  function Keepalives(log: seq<LogPiece>): nat {
    if log == [] then 0
    else
      var p := log[|log| - 1];
      Keepalives(log[..|log| - 1]) + (if p.ty.IsData() && p.last && p.data == PING_MSG then 1 else 0)
  }

  /** How many payload bytes of control frames are not in a last piece. */
  function Spilt(log: seq<LogPiece>): nat {
    if log == [] then 0
    else
      var p := log[|log| - 1];
      Spilt(log[..|log| - 1]) + (if !p.ty.IsData() && !p.last then |p.data| else 0)
  }

  function Volume(out: seq<Msg>): nat {
    if out == [] then 0 else Volume(out[..|out| - 1]) + |out[|out| - 1].data|
  }

  lemma {:induction false} NothingSpoilt(log: seq<LogPiece>)
    requires Keepalives(log) == 0 && Spilt(log) == 0
    ensures Clean(log)
  {
    if log != [] {
      var init, p := log[..|log| - 1], log[|log| - 1];
      NothingSpoilt(init);
      assert log == init + [p];
    }
  }

  lemma {:induction false} PrefixedVolume(stale: bytes, out: seq<Msg>)
    ensures |Prefixed(stale, out)| == |out|
    ensures Volume(Prefixed(stale, out)) == Volume(out) + (if out == [] then 0 else |stale|)
  {
    if |out| > 1 {
      var init := out[..|out| - 1];
      PrefixedVolume(stale, init);
      assert Prefixed(stale, out)[..|out| - 1] == Prefixed(stale, init);
    } else if |out| == 1 {
      assert Prefixed(stale, out)[..0] == [] && out[..0] == [];
    }
  }

  /** Messages missing are keepalives; without them, bytes too many are spilt control payload. */
  ghost predicate Tallied(stale: nat, a: Assembly, m: Acc, keepalives: nat, spilt: nat) {
    && |m.out| == |a.out| + keepalives
    && (keepalives == 0 ==> Volume(a.out) + |Flatten(a.stack)| == stale + Volume(m.out) + |m.data| + spilt)
  }

  lemma {:induction false} Tally(stale: seq<bytes>, log: seq<LogPiece>)
    ensures Tallied(|Flatten(stale)|, AssembleFrom(Assembly(stale, [], []), log), Replay(log), Keepalives(log),
      Spilt(log))
  {
    if log != [] {
      var init, p := log[..|log| - 1], log[|log| - 1];
      hide Tallied, Feed, Resolve;
      Tally(stale, init);
      TallyStep(|Flatten(stale)|, AssembleFrom(Assembly(stale, [], []), init), Replay(init), Keepalives(init),
        Spilt(init), p);
    }
  }

  lemma TallyStep(stale: nat, a: Assembly, m: Acc, keepalives: nat, spilt: nat, p: LogPiece)
    requires Tallied(stale, a, m, keepalives, spilt)
    ensures var pushed := Push(a, p.data);
      Tallied(stale, if p.last then Resolve(pushed, p.ty) else pushed, Feed(m, p.ty, p.data, p.last),
              keepalives + (if p.ty.IsData() && p.last && p.data == PING_MSG then 1 else 0),
              spilt + (if !p.ty.IsData() && !p.last then |p.data| else 0))
  {
    hide Flatten, Volume, PING_MSG;
    FlattenSnoc(a.stack, p.data);
    assert (a.stack + [p.data])[..|a.stack|] == a.stack;
    EmptyFlatten();
    VolumeSnoc(a.out, Msg(p.ty, Flatten(a.stack + [p.data])));
    VolumeSnoc(m.out, Msg(p.ty, m.data + p.data));
  }

  lemma VolumeSnoc(out: seq<Msg>, msg: Msg)
    ensures Volume(out + [msg]) == Volume(out) + |msg.data|
  {
    assert (out + [msg])[..|out|] == out;
  }

  /** On a fresh connection: exactly the messages, and for clean pieces exactly the Ping payloads, they mean. */
  lemma CleanFresh(log: seq<LogPiece>)
    ensures var a, m := Assemble(log), Replay(log);
      && (a.out == m.out && Flatten(a.stack) == m.data <==> Clean(log))
      && (Clean(log) ==> a.pongs == PingPayloads(m.controls))
  {
    CleanIff([], log);
    hide AssembleFrom, Replay, Clean;
    var a, m := Assemble(log), Replay(log);
    assert [] + m.data == m.data;
    if m.out != [] {
      assert [] + m.out[0].data == m.out[0].data && Prefixed([], m.out) == m.out;
    }
  }

  /**
   * Fragments left from an earlier connection spoil the first message, and nothing else, exactly if they
   * hold bytes.
   */
  lemma StaleFragments(stale: seq<bytes>, log: seq<LogPiece>)
    requires Clean(log)
    ensures var out, wanted := AssembleFrom(Assembly(stale, [], []), log).out, Replay(log).out;
      && |out| == |wanted|
      && (out == wanted <==> wanted == [] || Flatten(stale) == [])
      && (wanted != [] ==> out[1..] == wanted[1..])
  {
    CleanAssembly(stale, log);
    hide AssembleFrom, Replay, Flatten;
    var out, wanted, leftover := AssembleFrom(Assembly(stale, [], []), log).out, Replay(log).out, Flatten(stale);
    if wanted != [] {
      assert |out[0].data| == |leftover| + |wanted[0].data|;
      if leftover == [] {
        assert leftover + wanted[0].data == wanted[0].data;
      }
    }
  }

  /**
   * A data message is returned if and only if its last piece is not the keepalive payload; otherwise
   * it is dropped and its earlier pieces stay on the stack.
   */
  lemma ReturnedIff(log: seq<LogPiece>, p: LogPiece)
    requires p.ty.IsData() && p.last
    ensures var a, b := Assemble(log), Assemble(log + [p]);
      && (b.out == a.out + [Msg(p.ty, Flatten(a.stack) + p.data)] <==> p.data != PING_MSG)
      && (b == a <==> p.data == PING_MSG)
  {
    hide Flatten;
    var a := Assemble(log);
    assert (log + [p])[..|log|] == log;
    FlattenSnoc(a.stack, p.data);
    assert (a.stack + [p.data])[..|a.stack|] == a.stack;
  }

  /** The pieces of the last frame of a data message, cut into these parts. */
  function LastFrame(ty: MsgType, parts: seq<bytes>): seq<LogPiece> {
    if parts == [] then []
    else LastFrameStart(ty, parts[..|parts| - 1]) + [LogPiece(ty, parts[|parts| - 1], true)]
  }

  function LastFrameStart(ty: MsgType, parts: seq<bytes>): seq<LogPiece> {
    if parts == [] then [] else LastFrameStart(ty, parts[..|parts| - 1]) + [LogPiece(ty, parts[|parts| - 1], false)]
  }

  lemma {:induction false} StartOnlyPushes(log: seq<LogPiece>, ty: MsgType, parts: seq<bytes>)
    ensures Assemble(log + LastFrameStart(ty, parts)) == Assemble(log).(stack := Assemble(log).stack + parts)
  {
    if parts == [] {
      assert log + [] == log && Assemble(log).stack + [] == Assemble(log).stack;
    } else {
      var init := parts[..|parts| - 1];
      StartOnlyPushes(log, ty, init);
      StartSnoc(log, ty, parts);
      PushAssembled(log, log + LastFrameStart(ty, init), ty, parts);
      hide *;
    }
  }

  lemma StartSnoc(log: seq<LogPiece>, ty: MsgType, parts: seq<bytes>)
    requires parts != []
    ensures log + LastFrameStart(ty, parts)
         == log + LastFrameStart(ty, parts[..|parts| - 1]) + [LogPiece(ty, parts[|parts| - 1], false)]
  {
  }

  lemma PushAssembled(log: seq<LogPiece>, pushed: seq<LogPiece>, ty: MsgType, parts: seq<bytes>)
    requires parts != []
    requires Assemble(pushed) == Assemble(log).(stack := Assemble(log).stack + parts[..|parts| - 1])
    ensures Assemble(pushed + [LogPiece(ty, parts[|parts| - 1], false)])
         == Assemble(log).(stack := Assemble(log).stack + parts)
  {
    hide AssembleFrom;
    AssembleSnoc(FRESH, pushed, LogPiece(ty, parts[|parts| - 1], false));
    assert Assemble(log).stack + parts[..|parts| - 1] + [parts[|parts| - 1]] == Assemble(log).stack + parts;
  }

  /** What a cut of the last frame does: the message is returned unless its last part is the keepalive payload. */
  lemma CutReturnedIff(log: seq<LogPiece>, ty: MsgType, parts: seq<bytes>)
    requires ty.IsData() && parts != []
    ensures var a, b := Assemble(log), Assemble(log + LastFrame(ty, parts));
      b.out == a.out + [Msg(ty, Flatten(a.stack) + Flatten(parts))] <==> parts[|parts| - 1] != PING_MSG
  {
    var init, part := parts[..|parts| - 1], parts[|parts| - 1];
    LastFrameSplit(log, ty, parts);
    StartOnlyPushes(log, ty, init);
    CutStep(log, log + LastFrameStart(ty, init), ty, parts);
    hide *;
  }

  lemma CutStep(log: seq<LogPiece>, pushed: seq<LogPiece>, ty: MsgType, parts: seq<bytes>)
    requires ty.IsData() && parts != []
    requires Assemble(pushed) == Assemble(log).(stack := Assemble(log).stack + parts[..|parts| - 1])
    ensures var a, b := Assemble(log), Assemble(pushed + [LogPiece(ty, parts[|parts| - 1], true)]);
      b.out == a.out + [Msg(ty, Flatten(a.stack) + Flatten(parts))] <==> parts[|parts| - 1] != PING_MSG
  {
    hide *;
    ReturnedIff(pushed, LogPiece(ty, parts[|parts| - 1], true));
    JoinedText(Assemble(log).stack, parts);
  }

  lemma LastFrameSplit(log: seq<LogPiece>, ty: MsgType, parts: seq<bytes>)
    requires parts != []
    ensures log + LastFrame(ty, parts)
         == log + LastFrameStart(ty, parts[..|parts| - 1]) + [LogPiece(ty, parts[|parts| - 1], true)]
  {
    hide LastFrameStart;
  }

  lemma JoinedText(stack: seq<bytes>, parts: seq<bytes>)
    requires parts != []
    ensures Flatten(stack + parts[..|parts| - 1]) + parts[|parts| - 1] == Flatten(stack) + Flatten(parts)
  {
    hide Flatten;
    var init, part := parts[..|parts| - 1], parts[|parts| - 1];
    FlattenAppend(stack, init);
    FlattenSnoc(init, part);
    assert init + [part] == parts;
    assert Flatten(stack) + Flatten(init) + part == Flatten(stack) + (Flatten(init) + part);
  }

  /**
   * However the last frame of a data message is cut, the message is returned, if and only if that
   * frame's payload does not end in the keepalive payload.
   */
  lemma ReturnedForEveryCutIff(log: seq<LogPiece>, ty: MsgType, payload: bytes)
    requires ty.IsData()
    ensures (forall parts :: parts != [] && Flatten(parts) == payload ==>
               Assemble(log + LastFrame(ty, parts)).out == Assemble(log).out
                 + [Msg(ty, Flatten(Assemble(log).stack) + payload)])
            <==> !EndsWith(payload, PING_MSG)
  {
    hide AssembleFrom, LastFrame;
    if EndsWith(payload, PING_MSG) {
      var front := payload[..|payload| - |PING_MSG|];
      var parts := [front, PING_MSG];
      assert [front] + [PING_MSG] == parts && [] + [front] == [front];
      FlattenSnoc([front], PING_MSG);
      FlattenSnoc([], front);
      assert Flatten<byte>([]) + front == front && front + PING_MSG == payload;
      CutReturnedIff(log, ty, parts);
    } else {
      forall parts | parts != [] && Flatten(parts) == payload
        ensures Assemble(log + LastFrame(ty, parts)).out == Assemble(log).out
          + [Msg(ty, Flatten(Assemble(log).stack) + payload)]
      {
        LastPartIsSuffix(parts);
        CutReturnedIff(log, ty, parts);
      }
    }
  }

  lemma LastPartIsSuffix(parts: seq<bytes>)
    requires parts != []
    ensures EndsWith(Flatten(parts), parts[|parts| - 1])
  {
    var init, part := parts[..|parts| - 1], parts[|parts| - 1];
    assert parts == init + [part];
    FlattenSnoc(init, part);
  }

  lemma AssembleSnoc(start: Assembly, log: seq<LogPiece>, p: LogPiece)
    ensures var a := Push(AssembleFrom(start, log), p.data);
      AssembleFrom(start, log + [p]) == if p.last then Resolve(a, p.ty) else a
  {
    assert (log + [p])[..|log|] == log;
  }

  lemma ReplaySnoc(log: seq<LogPiece>, p: LogPiece)
    ensures Replay(log + [p]) == Feed(Replay(log), p.ty, p.data, p.last)
  {
    assert (log + [p])[..|log|] == log;
  }

  // ---- When a log is clean ----

  predicate EndsWith(s: bytes, suffix: bytes) {
    |suffix| <= |s| && s[|s| - |suffix|..] == suffix
  }

  /** The last piece of a message is its suffix, and a non-empty control piece leaves a trace. */
  lemma {:induction false} PiecesShow(log: seq<LogPiece>, p: LogPiece)
    requires p in log
    ensures p.ty.IsData() && p.last ==> exists m :: m in Replay(log).out && EndsWith(m.data, p.data)
    ensures !p.ty.IsData() && (p.last || p.data != []) ==> Replay(log).controls != []
  {
    var init, q := log[..|log| - 1], log[|log| - 1];
    var before, after := Replay(init), Replay(log);
    if p != q {
      assert p in init;
      PiecesShow(init, p);
      assert forall m :: m in before.out ==> m in after.out;
    } else if p.ty.IsData() && p.last {
      var msg := Msg(p.ty, before.data + p.data);
      assert after.out[|before.out|] == msg;
      assert EndsWith(msg.data, p.data);
    }
  }

  /** Every control payload came in one piece. */
  predicate WholeControls(log: seq<LogPiece>) {
    forall p :: p in log && !p.ty.IsData() && !p.last ==> p.data == []
  }

  /** If control payloads are whole and no message ends in the keepalive payload, the log is clean. */
  lemma TidyLogIsClean(log: seq<LogPiece>)
    requires WholeControls(log)
    requires forall m :: m in Replay(log).out ==> !EndsWith(m.data, PING_MSG)
    ensures Clean(log)
  {
    hide Replay;
    forall p | p in log
      ensures CleanPiece(p)
    {
      PiecesShow(log, p);
    }
  }

  /** Without control frames all of them are whole. */
  lemma QuietLogIsWhole(log: seq<LogPiece>)
    requires Replay(log).controls == []
    ensures WholeControls(log)
  {
    hide Replay;
    forall p | p in log && !p.ty.IsData() && !p.last
      ensures p.data == []
    {
      PiecesShow(log, p);
    }
  }
}
