/**
 Safety over whole runs of the retransmission machine: every request meets exactly one fate, an
 acknowledged confirmable request is left alone until its response comes, and every datagram sent
 for a request is the same one.
 */
module RetransmitFate {
  import opened Words
  import opened CoapWire
  import opened Retransmit

  lemma CountConcat(t: seq<Event>, u: seq<Event>, e: Event)
    ensures Count(t + u, e) == Count(t, e) + Count(u, e)
  {
  }

  lemma CountEmpty(e: Event)
    ensures Count([], e) == 0
  {
  }

  // What one pass over a node adds to the trace.
  lemma NodeCounts(c: Config, n: Node, id: nat)
    ensures var t := TickNode(c, n);
      && Count(TickTrace(t), Expired(id)) == (if t.gone && n.id == id then 1 else 0)
      && IdCount(TickList(t), id) == (if !t.gone && n.id == id then 1 else 0)
  {
    var t := TickNode(c, n);
    assert t.node.id == n.id;
    assert IdCount([t.node], id) == (if t.node.id == id then 1 else 0);
  }

  lemma NodeQuiet(t: Ticked, id: nat, h: bool)
    ensures Count(TickTrace(t), Answered(id)) == 0
    ensures Count(TickTrace(t), Called(id)) == 0
    ensures Count(TickTrace(t), Listed(id, h)) == 0
  {
  }

  // What one pass over the list does to the number of nodes with an id.
  lemma {:induction false} TickCounts(c: Config, ns: seq<Node>, id: nat)
    ensures IdCount(ns, id) == IdCount(TickedList(c, ns), id) + Count(TickedTrace(c, ns), Expired(id))
  {
    hide Count, TickNode, TickList, TickTrace;
    if ns == [] {
      CountEmpty(Expired(id));
    } else {
      var last := |ns| - 1;
      TickCounts(c, ns[..last], id);
      var t := TickNode(c, ns[last]);
      NodeCounts(c, ns[last], id);
      IdCountConcat(TickedList(c, ns[..last]), TickList(t), id);
      CountConcat(TickedTrace(c, ns[..last]), TickTrace(t), Expired(id));
    }
  }

  lemma {:induction false} TickQuiet(c: Config, ns: seq<Node>, id: nat, h: bool)
    ensures Count(TickedTrace(c, ns), Answered(id)) == 0
    ensures Count(TickedTrace(c, ns), Called(id)) == 0
    ensures Count(TickedTrace(c, ns), Listed(id, h)) == 0
  {
    if ns != [] {
      hide TickNode, TickTrace;
      TickQuiet(c, ns[..|ns| - 1], id, h);
      NodeQuiet(TickNode(c, ns[|ns| - 1]), id, h);
    }
  }

  lemma {:induction false} TickKeeps(c: Config, ns: seq<Node>, n: Node)
    requires n in TickedList(c, ns)
    ensures exists i :: 0 <= i < |ns| && !TickNode(c, ns[i]).gone && n == TickNode(c, ns[i]).node
  {
    var last := |ns| - 1;
    if n in TickedList(c, ns[..last]) {
      TickKeeps(c, ns[..last], n);
      var i :| 0 <= i < last && !TickNode(c, ns[..last][i]).gone && n == TickNode(c, ns[..last][i]).node;
      assert ns[i] == ns[..last][i];
    }
  }

  ghost predicate Safe(s: State) {
    OneFate(s) && HandlersKnown(s) && CountExact(s)
  }

  // An id that is not listed by the new events keeps its fate when nodes and events balance.
  lemma FateExtends(s: State, s': State, u: seq<Event>, id: nat)
    requires Fate(s, id) && s'.trace == s.trace + u && s'.nextId >= s.nextId
    requires ListedCount(u, id) == 0
    requires IdCount(s.list, id)
          == IdCount(s'.list, id) + Count(u, Answered(id)) + Count(u, Expired(id))
    requires Count(u, Called(id)) == (if Count(s.trace, Listed(id, true)) == 1 then Count(u, Answered(id)) else 0)
    ensures Fate(s', id)
  {
    hide Count;
    CountConcat(s.trace, u, Listed(id, true));
    CountConcat(s.trace, u, Listed(id, false));
    CountConcat(s.trace, u, Answered(id));
    CountConcat(s.trace, u, Expired(id));
    CountConcat(s.trace, u, Called(id));
  }

  // A node that carries this id knows whether a handler was listed with it.
  lemma HandlerOf(s: State, n: Node)
    requires Safe(s) && n in s.list
    ensures n.handler <==> Count(s.trace, Listed(n.id, true)) == 1
  {
    assert Fate(s, n.id);
    assert Count(s.trace, Listed(n.id, n.handler)) >= 1;
  }

  lemma KnownExtends(s: State, s': State, u: seq<Event>)
    requires HandlersKnown(s) && s'.trace == s.trace + u
    requires forall n :: n in s'.list ==> n in s.list || Listed(n.id, n.handler) in u
    ensures HandlersKnown(s')
  {
    forall n | n in s'.list ensures Count(s'.trace, Listed(n.id, n.handler)) >= 1 {
      CountConcat(s.trace, u, Listed(n.id, n.handler));
    }
  }

  lemma ListingFate(s: State, s': State, w: Event, n: Node)
    requires Fate(s, s.nextId) && n.id == s.nextId && w.Wrote?
    requires s'.list == s.list + [n] && s'.nextId == s.nextId + 1
    requires s'.trace == s.trace + [w, Listed(n.id, n.handler)]
    ensures Fate(s', n.id)
  {
    IdCountConcat(s.list, [n], n.id);
    assert IdCount([n], n.id) == 1;
  }

  lemma SendCounts(bytes: seq<byte>, next: nat, handler: bool, id: nat)
    ensures forall u :: u in {[], [Wrote(next, bytes)], [Wrote(next, bytes), Listed(next, handler)]} ==>
      && (id != next ==> ListedCount(u, id) == 0)
      && (|u| < 2 ==> ListedCount(u, id) == 0)
      && Count(u, Answered(id)) == 0 && Count(u, Expired(id)) == 0 && Count(u, Called(id)) == 0
  {
  }

  lemma SendSafe(c: Config, s: State, m: Msg, handler: bool, ok: bool)
    requires Safe(s) && Sendable(m)
    ensures Safe(DoSend(c, s, m, handler, ok))
  {
    hide MsgBytes, Count;
    var s' := DoSend(c, s, m, handler, ok);
    var listed := |MsgBytes(m)| <= c.maxPdu && ok && Kept(m);
    var n := NewNode(c, m, handler, MsgBytes(m), s.nextId);
    var u := s'.trace[|s.trace|..];
    assert s'.trace == s.trace + u;
    forall id: nat ensures Fate(s', id) {
      assert Fate(s, id);
      if listed && id == s.nextId {
        ListingFate(s, s', Wrote(s.nextId, MsgBytes(m)), n);
      } else {
        if listed {
          IdCountConcat(s.list, [n], id);
          assert IdCount([n], id) == 0;
        }
        SendCounts(MsgBytes(m), s.nextId, handler, id);
        FateExtends(s, s', u, id);
      }
    }
    KnownExtends(s, s', u);
  }

  lemma AckSafe(s: State, msgid: uint16)
    requires Safe(s)
    ensures Safe(DoAck(s, msgid))
  {
    hide Count;
    var k := FindMsgid(s.list, msgid);
    if k < |s.list| {
      var s' := DoAck(s, msgid);
      forall id: nat ensures Fate(s', id) {
        assert Fate(s, id);
        IdCountUpdate(s.list, k, s.list[k].(acked := true), id);
      }
      forall n | n in s'.list ensures Count(s'.trace, Listed(n.id, n.handler)) >= 1 {
        var i :| 0 <= i < |s'.list| && s'.list[i] == n;
        assert s.list[i] in s.list;
      }
    }
  }

  lemma AnswerCounts(m: Msg, n: Node, id: nat)
    ensures ListedCount(AckTrace(m), id) == 0 && ListedCount(AckTrace(m) + AnswerTrace(n), id) == 0
    ensures Count(AckTrace(m), Expired(id)) == 0 && Count(AckTrace(m) + AnswerTrace(n), Expired(id)) == 0
    ensures Count(AckTrace(m), Answered(id)) == 0 && Count(AckTrace(m), Called(id)) == 0
    ensures Count(AckTrace(m) + AnswerTrace(n), Answered(id)) == (if n.id == id then 1 else 0)
    ensures Count(AckTrace(m) + AnswerTrace(n), Called(id)) == (if n.id == id && n.handler then 1 else 0)
  {
    hide MsgBytes;
  }

  lemma RespFate(s: State, m: Msg, id: nat)
    requires Safe(s)
    ensures Fate(DoResp(s, m), id)
  {
    hide Count, AckTrace, AnswerTrace, Matches, HandlersKnown, CountExact;
    var k := FindToken(s.list, m.token);
    var s' := DoResp(s, m);
    assert Fate(s, id);
    if k < |s.list| {
      var n := s.list[k];
      var u := AckTrace(m) + AnswerTrace(n);
      IdCountRemove(s.list, k, id);
      HandlerOf(s, n);
      AnswerCounts(m, n, id);
      assert s'.trace == s.trace + u;
      FateExtends(s, s', u, id);
    } else {
      AnswerCounts(m, NewNode(CLOUD, m, false, [], 0), id);
      FateExtends(s, s', AckTrace(m), id);
    }
  }

  lemma RespKnown(s: State, m: Msg)
    requires HandlersKnown(s) && CountExact(s)
    ensures HandlersKnown(DoResp(s, m)) && CountExact(DoResp(s, m))
  {
    hide AckTrace, AnswerTrace, Count, Matches;
    var k := FindToken(s.list, m.token);
    if k < |s.list| {
      var u := AckTrace(m) + AnswerTrace(s.list[k]);
      assert DoResp(s, m).trace == s.trace + u;
      KnownExtends(s, DoResp(s, m), u);
    } else {
      KnownExtends(s, DoResp(s, m), AckTrace(m));
    }
  }

  lemma RespSafe(s: State, m: Msg)
    requires Safe(s)
    ensures Safe(DoResp(s, m))
  {
    forall id: nat ensures Fate(DoResp(s, m), id) {
      RespFate(s, m, id);
    }
    RespKnown(s, m);
  }

  lemma TickSafe(c: Config, s: State)
    requires Safe(s)
    ensures Safe(DoTick(c, s))
  {
    hide Count, TickNode, TickedTrace, TickedList;
    var s' := DoTick(c, s);
    forall id: nat ensures Fate(s', id) {
      assert Fate(s, id);
      TickCounts(c, s.list, id);
      TickQuiet(c, s.list, id, true);
      TickQuiet(c, s.list, id, false);
      FateExtends(s, s', TickedTrace(c, s.list), id);
    }
    forall n | n in s'.list ensures Count(s'.trace, Listed(n.id, n.handler)) >= 1 {
      TickKeeps(c, s.list, n);
      var i :| 0 <= i < |s.list| && !TickNode(c, s.list[i]).gone && n == TickNode(c, s.list[i]).node;
      TickSame(c, s.list[i]);
      assert s.list[i] in s.list;
      CountConcat(s.trace, TickedTrace(c, s.list), Listed(n.id, n.handler));
    }
  }

  // A pass changes a node's timers and nothing else.
  lemma TickSame(c: Config, n: Node)
    ensures var n' := TickNode(c, n).node;
      n' == n.(timeout := n'.timeout, timeoutVal := n'.timeoutVal, retrans := n'.retrans)
  {
  }

  lemma StepSafe(c: Config, s: State, i: Input)
    requires Safe(s) && ValidInput(i)
    ensures Safe(Step(c, s, i))
  {
    match i
    case Send(m, handler, ok) => SendSafe(c, s, m, handler, ok);
    case Recv(m) => AckSafe(s, m.msgid); RespSafe(s, m);
    case Tick => TickSafe(c, s);
  }

  // Over every run: each request ever listed is still listed, was answered, or has expired, exactly
  // one of the three; its handler ran exactly once if it was answered and never otherwise; and
  // `count` is the length of the list modulo 256.
  lemma {:induction false} RunSafe(c: Config, s: State, ins: seq<Input>)
    requires Safe(s) && ValidInputs(ins)
    ensures Safe(Run(c, s, ins))
    decreases |ins|
  {
    if ins != [] {
      StepSafe(c, s, ins[0]);
      RunSafe(c, Step(c, s, ins[0]), ins[1..]);
    }
  }

  lemma OneFatePerRequest(c: Config, ins: seq<Input>)
    requires ValidInputs(ins)
    ensures OneFate(Run(c, INIT, ins)) && CountExact(Run(c, INIT, ins))
  {
    RunSafe(c, INIT, ins);
  }

  // ---------------------------------------------------------------- acknowledged requests

  // Whatever is still listed under this id is confirmable, acknowledged and has tries left.
  ghost predicate Settled(c: Config, s: State, id: nat) {
    && id < s.nextId
    && forall n :: n in s.list && n.id == id ==> n.con && n.acked && n.retrans < c.maxRetry
  }

  // The events that send for a request or give it up.
  predicate Spends(e: Event, id: nat) {
    (e.Wrote? && e.id == id) || e == Expired(id)
  }

  lemma {:induction false} SettledTick(c: Config, ns: seq<Node>, e: Event, id: nat)
    requires Spends(e, id)
    requires forall n :: n in ns && n.id == id ==> n.con && n.acked && n.retrans < c.maxRetry
    ensures e !in TickedTrace(c, ns)
  {
    if ns != [] {
      var last := ns[|ns| - 1];
      assert last in ns;
      SettledTick(c, ns[..|ns| - 1], e, id);
      TickSame(c, last);
    }
  }

  lemma CountUnchanged(t: seq<Event>, u: seq<Event>, e: Event)
    requires e !in u
    ensures Count(t + u, e) == Count(t, e)
  {
  }

  lemma SettledPass(c: Config, s: State, e: Event, id: nat)
    requires Settled(c, s, id) && Spends(e, id)
    ensures Settled(c, DoTick(c, s), id)
    ensures Count(DoTick(c, s).trace, e) == Count(s.trace, e)
  {
    hide TickedTrace, TickedList, Count;
    var s' := DoTick(c, s);
    SettledTick(c, s.list, e, id);
    forall n | n in s'.list && n.id == id ensures n.con && n.acked && n.retrans < c.maxRetry {
      TickKeeps(c, s.list, n);
      var k :| 0 <= k < |s.list| && !TickNode(c, s.list[k]).gone && n == TickNode(c, s.list[k]).node;
      assert s.list[k] in s.list;
    }
    CountUnchanged(s.trace, TickedTrace(c, s.list), e);
  }

  lemma SendQuiet(c: Config, s: State, m: Msg, handler: bool, ok: bool, e: Event, id: nat)
    requires id < s.nextId && Sendable(m) && Spends(e, id)
    ensures Count(DoSend(c, s, m, handler, ok).trace, e) == Count(s.trace, e)
  {
    hide MsgBytes, Count;
    var w, l := Wrote(s.nextId, MsgBytes(m)), Listed(s.nextId, handler);
    assert e !in [w, l] && e !in [w];
    CountUnchanged(s.trace, [w, l], e);
    CountUnchanged(s.trace, [w], e);
  }

  lemma RespQuiet(s: State, m: Msg, e: Event, id: nat)
    requires Spends(e, id)
    ensures Count(DoResp(s, m).trace, e) == Count(s.trace, e)
  {
    hide MsgBytes, Count, Matches;
    var k := FindToken(s.list, m.token);
    assert e !in AckTrace(m);
    CountUnchanged(s.trace, AckTrace(m), e);
    if k < |s.list| {
      CountUnchanged(s.trace + AckTrace(m), AnswerTrace(s.list[k]), e);
    }
  }

  lemma SettledSend(c: Config, s: State, m: Msg, handler: bool, ok: bool, id: nat)
    requires Settled(c, s, id) && Sendable(m)
    ensures Settled(c, DoSend(c, s, m, handler, ok), id)
  {
    hide MsgBytes;
  }

  lemma SettledAck(c: Config, s: State, msgid: uint16, id: nat)
    requires Settled(c, s, id)
    ensures Settled(c, DoAck(s, msgid), id)
  {
  }

  lemma SettledResp(c: Config, s: State, m: Msg, id: nat)
    requires Settled(c, s, id)
    ensures Settled(c, DoResp(s, m), id)
  {
    hide Matches, AckTrace, AnswerTrace;
  }

  lemma SettledStep(c: Config, s: State, i: Input, e: Event, id: nat)
    requires Settled(c, s, id) && ValidInput(i) && Spends(e, id)
    ensures Settled(c, Step(c, s, i), id)
    ensures Count(Step(c, s, i).trace, e) == Count(s.trace, e)
  {
    assert id < s.nextId;
    hide Settled, Count, DoSend, DoAck, DoResp, DoTick;
    match i
    case Send(m, handler, ok) =>
      SettledSend(c, s, m, handler, ok, id);
      SendQuiet(c, s, m, handler, ok, e, id);
    case Recv(m) =>
      SettledAck(c, s, m.msgid, id);
      AckQuiet(s, m.msgid);
      SettledResp(c, s, m, id);
      RespQuiet(s, m, e, id);
    case Tick =>
      SettledPass(c, s, e, id);
  }

  lemma AckQuiet(s: State, msgid: uint16)
    ensures DoAck(s, msgid).trace == s.trace
  {
  }

  // An acknowledged confirmable request is never written again and never expires: over every run
  // its response is the only thing that takes it off the list.
  lemma {:induction false} AcknowledgedWaits(c: Config, s: State, ins: seq<Input>, e: Event, id: nat)
    requires Settled(c, s, id) && ValidInputs(ins) && Spends(e, id)
    ensures Settled(c, Run(c, s, ins), id)
    ensures Count(Run(c, s, ins).trace, e) == Count(s.trace, e)
    decreases |ins|
  {
    if ins != [] {
      SettledStep(c, s, ins[0], e, id);
      AcknowledgedWaits(c, Step(c, s, ins[0]), ins[1..], e, id);
    }
  }

  // ---------------------------------------------------------------- one datagram per request

  // All writes for a request carry the same bytes, and a listed request has been written.
  ghost predicate SameBytes(s: State) {
    && (forall id: nat, b :: Wrote(id, b) in s.trace ==> id < s.nextId)
    && (forall n :: n in s.list ==> Wrote(n.id, n.message) in s.trace)
    && (forall id: nat, b, b' :: Wrote(id, b) in s.trace && Wrote(id, b') in s.trace ==> b == b')
  }

  lemma {:induction false} TickWrites(c: Config, ns: seq<Node>, id: nat, b: seq<byte>)
    requires Wrote(id, b) in TickedTrace(c, ns)
    ensures exists n :: n in ns && n.id == id && n.message == b
  {
    var last := ns[|ns| - 1];
    if Wrote(id, b) in TickedTrace(c, ns[..|ns| - 1]) {
      TickWrites(c, ns[..|ns| - 1], id, b);
    } else {
      TickSame(c, last);
      assert last in ns && last.id == id && last.message == b;
    }
  }

  lemma SameBytesStep(c: Config, s: State, i: Input)
    requires SameBytes(s) && ValidInput(i)
    ensures SameBytes(Step(c, s, i))
  {
    hide MsgBytes, TickedTrace, TickedList;
    var s' := Step(c, s, i);
    if i.Tick? {
      forall id: nat, b | Wrote(id, b) in TickedTrace(c, s.list) ensures Wrote(id, b) in s.trace {
        TickWrites(c, s.list, id, b);
      }
      forall n | n in s'.list ensures Wrote(n.id, n.message) in s'.trace {
        TickKeeps(c, s.list, n);
        var k :| 0 <= k < |s.list| && !TickNode(c, s.list[k]).gone && n == TickNode(c, s.list[k]).node;
        TickSame(c, s.list[k]);
        assert s.list[k] in s.list;
      }
    } else if i.Recv? {
      forall n | n in s'.list ensures Wrote(n.id, n.message) in s.trace {
        var k :| 0 <= k < |s'.list| && s'.list[k] == n;
      }
    }
  }

  lemma {:induction false} RunSameBytes(c: Config, s: State, ins: seq<Input>)
    requires SameBytes(s) && ValidInputs(ins)
    ensures SameBytes(Run(c, s, ins))
    decreases |ins|
  {
    if ins != [] {
      SameBytesStep(c, s, ins[0]);
      RunSameBytes(c, Step(c, s, ins[0]), ins[1..]);
    }
  }
}
