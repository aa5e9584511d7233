/**
 Timing of the retransmission machine: the back-off every listed request keeps, a rank that falls by
 one on every pass, and from it the exact number of writes and the exact pass on which a silent
 request is given up, for any other traffic on the list.
 */
module RetransmitTime {
  import opened Words
  import opened CoapWire
  import opened CoapMessage
  import opened Retransmit
  import opened RetransmitFate

  // ---------------------------------------------------------------- back-off

  ghost predicate BackedOff(c: Config, n: Node) {
    if n.con then
      && n.retrans < c.maxRetry
      && n.timeoutVal == c.ackTimeout * Pow2(n.retrans)
      && n.timeout <= n.timeoutVal
      && (n.retrans == 0 || n.timeoutVal <= c.span)
    else
      n.retrans == c.maxRetry && n.timeoutVal == c.ackTimeout && n.timeout <= c.span
  }

  ghost predicate AllBackedOff(c: Config, s: State) {
    forall n :: n in s.list ==> BackedOff(c, n)
  }

  // The doubling never overflows the timers' unsigned short.
  lemma DoublingFits(c: Config, n: Node)
    requires ValidConfig(c) && BackedOff(c, n) && n.con
    ensures n.timeoutVal * 2 < 0x1_0000
  {
    if n.retrans == 0 {
      assert Pow2(0) == 1;
    }
  }

  lemma TickBackedOff(c: Config, n: Node)
    requires ValidConfig(c) && BackedOff(c, n) && !TickNode(c, n).gone
    ensures BackedOff(c, TickNode(c, n).node)
  {
    hide Pow2;
    if n.con {
      DoublingFits(c, n);
      PowStep(n.retrans);
      var p := Pow2(n.retrans);
      assert c.ackTimeout * (2 * p) == 2 * (c.ackTimeout * p);
    }
  }

  lemma StepBackedOff(c: Config, s: State, i: Input)
    requires ValidConfig(c) && AllBackedOff(c, s) && ValidInput(i)
    ensures AllBackedOff(c, Step(c, s, i))
  {
    hide MsgBytes, TickedList, TickedTrace, Pow2, Matches;
    var s' := Step(c, s, i);
    match i
    case Tick =>
      forall n | n in s'.list ensures BackedOff(c, n) {
        TickKeeps(c, s.list, n);
        var k :| 0 <= k < |s.list| && !TickNode(c, s.list[k]).gone && n == TickNode(c, s.list[k]).node;
        assert s.list[k] in s.list;
        TickBackedOff(c, s.list[k]);
      }
    case Send(m, handler, ok) =>
      PowStep(0);
      assert BackedOff(c, NewNode(c, m, handler, MsgBytes(m), s.nextId));
    case Recv(m) =>
      forall n | n in s'.list ensures BackedOff(c, n) {
        if IsAck(m) {
          var k :| 0 <= k < |s'.list| && s'.list[k] == n;
          assert s.list[k] in s.list;
          assert n == s.list[k] || n == s.list[k].(acked := true);
        }
      }
  }

  lemma PowStep(k: nat)
    ensures Pow2(0) == 1 && Pow2(k + 1) == 2 * Pow2(k)
  {
  }

  // Over every run, a listed confirmable request waits ACK_TIMEOUT * 2^retrans cycles per try, and
  // its timer never exceeds that.
  lemma {:induction false} RunBackedOff(c: Config, s: State, ins: seq<Input>)
    requires ValidConfig(c) && AllBackedOff(c, s) && ValidInputs(ins)
    ensures AllBackedOff(c, Run(c, s, ins))
    decreases |ins|
  {
    if ins != [] {
      StepBackedOff(c, s, ins[0]);
      RunBackedOff(c, Step(c, s, ins[0]), ins[1..]);
    }
  }

  // ---------------------------------------------------------------- acknowledged requests

  lemma OnlyOne(ns: seq<Node>, n: Node, x: Node)
    requires n in ns && x in ns && x.id == n.id && IdCount(ns, n.id) == 1
    ensures x == n
  {
    var i :| 0 <= i < |ns| && ns[i] == n;
    var j :| 0 <= j < |ns| && ns[j] == x;
    assert j != i ==> RemoveAt(ns, i)[if j < i then j else j - 1] == x;
    IdCountRemove(ns, i, n.id);
    IdCountMember(RemoveAt(ns, i), n.id);
  }

  // A listed confirmable request that is acknowledged is settled, in every state a run reaches.
  lemma AcknowledgedSettled(c: Config, s: State, n: Node)
    requires Safe(s) && AllBackedOff(c, s) && n in s.list && n.con && n.acked
    ensures Settled(c, s, n.id)
    ensures IdCount(s.list, n.id) == 1 && Count(s.trace, Expired(n.id)) == 0
  {
    assert Fate(s, n.id) && BackedOff(c, n);
    IdCountMember(s.list, n.id);
    forall x | x in s.list && x.id == n.id ensures x == n {
      OnlyOne(s.list, n, x);
    }
  }

  // In every run: once a confirmable request is acknowledged, it is never written again and never
  // expires. It stays listed until its response comes, and then it is answered, once; its handler runs
  // with the answer.
  lemma AcknowledgedUntilAnswered(c: Config, before: seq<Input>, n: Node, after: seq<Input>, bytes: seq<byte>)
    requires ValidConfig(c) && ValidInputs(before) && ValidInputs(after)
    requires n in Run(c, INIT, before).list && n.con && n.acked
    ensures var s, s' := Run(c, INIT, before), Run(c, Run(c, INIT, before), after);
      && Count(s'.trace, Wrote(n.id, bytes)) == Count(s.trace, Wrote(n.id, bytes))
      && Count(s'.trace, Expired(n.id)) == 0
      && IdCount(s'.list, n.id) + Count(s'.trace, Answered(n.id)) == 1
      && Count(s'.trace, Called(n.id)) == if n.handler then Count(s'.trace, Answered(n.id)) else 0
  {
    hide Run, Settled, AllBackedOff, Count, IdCount;
    var s := Run(c, INIT, before);
    var s' := Run(c, s, after);
    StartSound(c);
    RunSafe(c, INIT, before);
    RunBackedOff(c, INIT, before);
    AcknowledgedSettled(c, s, n);
    AcknowledgedWaits(c, s, after, Wrote(n.id, bytes), n.id);
    AcknowledgedWaits(c, s, after, Expired(n.id), n.id);
    RunSafe(c, s, after);
    HandlerKept(c, s, after, n);
    assert Fate(s', n.id);
  }

  // From the acknowledgement on: in every state a run reaches, once the acknowledgement arrives for a
  // listed confirmable request that is the first with its message id, that request is never written again
  // and never expires, whatever follows, and waits for its answer.
  lemma AcknowledgementStopsWrites(c: Config, before: seq<Input>, i: nat, m: Msg, after: seq<Input>, bytes: seq<byte>)
    requires ValidConfig(c) && ValidInputs(before) && ValidInputs(after)
    requires m.code == 0 && m.mtype == 2
    requires var ns := Run(c, INIT, before).list;
      && i < |ns| && ns[i].con && ns[i].msgid == m.msgid && forall j :: 0 <= j < i ==> ns[j].msgid != m.msgid
    ensures ValidInputs(before + [Recv(m)] + after)
    ensures var s, s' := Run(c, INIT, before), Run(c, INIT, before + [Recv(m)] + after); var n := s.list[i];
      && Count(s'.trace, Wrote(n.id, bytes)) == Count(s.trace, Wrote(n.id, bytes))
      && Count(s'.trace, Expired(n.id)) == 0
      && IdCount(s'.list, n.id) + Count(s'.trace, Answered(n.id)) == 1
  {
    hide Run, Count, IdCount;
    var s := Run(c, INIT, before);
    var n := s.list[i].(acked := true);
    RunConcat(c, INIT, before, [Recv(m)]);
    RunConcat(c, INIT, before + [Recv(m)], after);
    RunRecv(c, s, m);
    AckExact(s, m);
    assert DoRecv(s, m).list[i] == n;
    AcknowledgedUntilAnswered(c, before + [Recv(m)], n, after, bytes);
  }

  lemma RunRecv(c: Config, s: State, m: Msg)
    ensures Run(c, s, [Recv(m)]) == DoRecv(s, m)
  {
    hide DoRecv;
    assert [Recv(m)][1..] == [];
  }

  lemma StartSound(c: Config)
    ensures Safe(INIT) && SameBytes(INIT) && AllBackedOff(c, INIT)
  {
  }

  // Events stay in the trace.
  lemma {:induction false} TraceGrows(c: Config, s: State, ins: seq<Input>, e: Event)
    requires ValidInputs(ins)
    ensures Count(Run(c, s, ins).trace, e) >= Count(s.trace, e)
    decreases |ins|
  {
    if ins != [] {
      hide TickedTrace, MsgBytes, AckTrace, AnswerTrace;
      assert Count(Step(c, s, ins[0]).trace, e) >= Count(s.trace, e);
      TraceGrows(c, Step(c, s, ins[0]), ins[1..], e);
    }
  }

  // What was listed with a handler, or without, stays recorded as such.
  lemma HandlerKept(c: Config, s: State, ins: seq<Input>, n: Node)
    requires Safe(s) && n in s.list && ValidInputs(ins)
    ensures var t := Run(c, s, ins).trace;
      Safe(Run(c, s, ins)) && ListedCount(t, n.id) == 1 && (n.handler <==> Count(t, Listed(n.id, true)) == 1)
  {
    hide Count, Run;
    var s' := Run(c, s, ins);
    RunSafe(c, s, ins);
    TraceGrows(c, s, ins, Listed(n.id, n.handler));
    assert Count(s.trace, Listed(n.id, n.handler)) >= 1;
    assert Fate(s', n.id);
  }

  // ---------------------------------------------------------------- the rank of a request

  // The next firing is the last: it makes the timer exceed the span, or uses up the tries.
  predicate LastTry(c: Config, retrans: nat, val: nat) {
    2 * val > c.span || retrans + 1 >= c.maxRetry
  }

  function PassesAfterFiring(c: Config, retrans: nat, val: nat): nat
    decreases c.maxRetry - retrans
  {
    if LastTry(c, retrans, val) then 0 else 2 * val + 1 + PassesAfterFiring(c, retrans + 1, 2 * val)
  }

  function Tries(c: Config, retrans: nat, val: nat): (k: nat)
    ensures k > 0
    decreases c.maxRetry - retrans
  {
    if LastTry(c, retrans, val) then 1 else 1 + Tries(c, retrans + 1, 2 * val)
  }

  // Passes until the request is given up, and writes still to come, if nothing is heard.
  function Rank(c: Config, n: Node): (r: nat)
    ensures r > 0
  {
    n.timeout + 1 + (if n.con then PassesAfterFiring(c, n.retrans, n.timeoutVal) else 0)
  }

  function WritesLeft(c: Config, n: Node): nat {
    if n.con then Tries(c, n.retrans, n.timeoutVal) else 0
  }

  predicate Waiting(n: Node) {
    !n.con || !n.acked
  }

  // Every pass lowers the rank of a waiting request by one and gives it up at rank one.
  lemma TickRank(c: Config, n: Node)
    requires ValidConfig(c) && BackedOff(c, n) && Waiting(n)
    ensures var t := TickNode(c, n);
      && (t.gone <==> Rank(c, n) == 1)
      && (!t.gone ==> Rank(c, t.node) == Rank(c, n) - 1 && Waiting(t.node))
      && (if t.wrote then 1 else 0) + (if t.gone then 0 else WritesLeft(c, t.node)) == WritesLeft(c, n)
  {
    if n.con {
      DoublingFits(c, n);
    }
  }

  // A confirmable request takes k writes after its first and ACK_TIMEOUT * (2^k - 1) + k passes.
  lemma {:induction false} PassesClosedForm(c: Config, retrans: nat, val: nat)
    ensures val + 1 + PassesAfterFiring(c, retrans, val)
         == val * (Pow2(Tries(c, retrans, val)) - 1) + Tries(c, retrans, val)
    decreases c.maxRetry - retrans
  {
    if LastTry(c, retrans, val) {
      assert Pow2(1) == 2;
    } else {
      PassesClosedForm(c, retrans + 1, 2 * val);
      var p := Pow2(Tries(c, retrans + 1, 2 * val));
      assert 2 * val * (p - 1) + val == val * (2 * p - 1);
    }
  }

  // With the client's constants.
  lemma CloudSchedule(c: Config, m: Msg, handler: bool, bytes: seq<byte>, id: nat)
    requires c == Config(2, 4, 10, 1280) || c == Config(2, 4, 10, 4096)
    ensures var n := NewNode(c, m, handler, bytes, id);
      && Rank(c, n) == (if n.con then 17 else 11)
      && 1 + WritesLeft(c, n) == (if n.con then 4 else 1)
  {
    assert PassesAfterFiring(c, 2, 8) == 0 && Tries(c, 2, 8) == 1;
    assert PassesAfterFiring(c, 1, 4) == 9 && Tries(c, 1, 4) == 2;
  }

  // ---------------------------------------------------------------- a silent request, in any company

  // An acknowledgement or response that reaches this request.
  predicate Disturbs(i: Input, n: Node) {
    i.Recv? && ((IsAck(i.m) && i.m.msgid == n.msgid) || (IsResp(i.m) && Matches(n, i.m.token)))
  }

  predicate Silent(ins: seq<Input>, n: Node) {
    forall k :: 0 <= k < |ins| ==> !Disturbs(ins[k], n)
  }

  function Passes(ins: seq<Input>): nat {
    if ins == [] then 0 else (if ins[0].Tick? then 1 else 0) + Passes(ins[1..])
  }

  // The only node with its id.
  ghost predicate Sole(ns: seq<Node>, n: Node) {
    n in ns && IdCount(ns, n.id) == 1
  }

  // The events that concern a request, counted in what one pass adds to the trace.
  lemma {:induction false} PassTrace(c: Config, ns: seq<Node>, n: Node, e: Event)
    requires Spends(e, n.id)
    requires n in ns ==> IdCount(ns, n.id) == 1
    requires n !in ns ==> IdCount(ns, n.id) == 0
    ensures Count(TickedTrace(c, ns), e) == (if n in ns then Count(TickTrace(TickNode(c, n)), e) else 0)
    ensures n in ns && !TickNode(c, n).gone ==> TickNode(c, n).node in TickedList(c, ns)
  {
    hide TickNode, TickTrace, Count;
    if ns == [] {
      CountEmpty(e);
    } else {
      var front, last := ns[..|ns| - 1], ns[|ns| - 1];
      var t := TickNode(c, last);
      CountConcat(TickedTrace(c, front), TickTrace(t), e);
      if last == n {
        IdCountMember(front, n.id);
        assert n !in front;
      } else {
        assert last.id != n.id by {
          if last.id == n.id && n in front {
            IdCountMember(front, n.id);
          }
        }
        OtherTrace(c, last, e, n.id);
      }
      PassTrace(c, front, n, e);
    }
  }

  lemma OtherTrace(c: Config, n: Node, e: Event, id: nat)
    requires Spends(e, id) && n.id != id
    ensures Count(TickTrace(TickNode(c, n)), e) == 0
  {
    TickSame(c, n);
  }

  lemma OwnTrace(c: Config, n: Node)
    ensures var t := TickNode(c, n);
      && Count(TickTrace(t), Wrote(n.id, n.message)) == (if t.wrote then 1 else 0)
      && Count(TickTrace(t), Expired(n.id)) == (if t.gone then 1 else 0)
  {
    TickSame(c, n);
  }

  lemma SilentTick(c: Config, s: State, n: Node)
    requires Sole(s.list, n)
    ensures var t, s' := TickNode(c, n), DoTick(c, s);
      && (if t.gone then IdCount(s'.list, n.id) == 0 else Sole(s'.list, t.node))
      && Count(s'.trace, Wrote(n.id, n.message)) == Count(s.trace, Wrote(n.id, n.message)) + (if t.wrote then 1 else 0)
      && Count(s'.trace, Expired(n.id)) == Count(s.trace, Expired(n.id)) + (if t.gone then 1 else 0)
  {
    hide Count, TickedList, TickedTrace, TickNode, TickTrace;
    var u := TickedTrace(c, s.list);
    CountConcat(s.trace, u, Wrote(n.id, n.message));
    CountConcat(s.trace, u, Expired(n.id));
    PassTrace(c, s.list, n, Wrote(n.id, n.message));
    PassTrace(c, s.list, n, Expired(n.id));
    OwnTrace(c, n);
    TickCounts(c, s.list, n.id);
    TickSame(c, n);
  }

  lemma SilentSend(c: Config, s: State, m: Msg, handler: bool, ok: bool, n: Node)
    requires Sole(s.list, n) && n.id < s.nextId && Sendable(m)
    ensures Sole(DoSend(c, s, m, handler, ok).list, n)
  {
    hide MsgBytes;
    var x := NewNode(c, m, handler, MsgBytes(m), s.nextId);
    IdCountConcat(s.list, [x], n.id);
    assert IdCount([x], n.id) == 0;
  }

  lemma SoleRemove(ns: seq<Node>, k: nat, n: Node)
    requires Sole(ns, n) && k < |ns| && ns[k] != n
    ensures Sole(RemoveAt(ns, k), n)
  {
    var j :| 0 <= j < |ns| && ns[j] == n;
    assert RemoveAt(ns, k)[if j < k then j else j - 1] == n;
    IdCountMember(RemoveAt(ns, k), n.id);
    IdCountRemove(ns, k, n.id);
  }

  lemma SoleUpdate(ns: seq<Node>, k: nat, n: Node)
    requires Sole(ns, n) && k < |ns| && ns[k] != n
    ensures Sole(ns[k := ns[k].(acked := true)], n)
  {
    var j :| 0 <= j < |ns| && ns[j] == n;
    assert ns[k := ns[k].(acked := true)][j] == n;
    IdCountUpdate(ns, k, ns[k].(acked := true), n.id);
  }

  lemma SilentRecv(s: State, m: Msg, n: Node)
    requires Sole(s.list, n) && !Disturbs(Recv(m), n)
    ensures Sole(DoRecv(s, m).list, n)
  {
    hide Matches, Sole, RemoveAt;
    var k := FindMsgid(s.list, m.msgid);
    if IsAck(m) && k < |s.list| {
      SoleUpdate(s.list, k, n);
    }
    var j := FindToken(s.list, m.token);
    if !IsAck(m) && IsResp(m) && j < |s.list| {
      SoleRemove(s.list, j, n);
    }
  }

  lemma QuietStep(c: Config, s: State, i: Input, e: Event, id: nat)
    requires !i.Tick? && ValidInput(i) && Spends(e, id) && id < s.nextId
    ensures Count(Step(c, s, i).trace, e) == Count(s.trace, e)
    ensures id < Step(c, s, i).nextId
  {
    hide Count, DoAck, DoResp, Spends;
    match i
    case Send(m, handler, ok) =>
      SendQuiet(c, s, m, handler, ok, e, id);
    case Recv(m) =>
      AckQuiet(s, m.msgid);
      RespQuiet(s, m, e, id);
      SameNextId(s, m);
  }

  lemma SameNextId(s: State, m: Msg)
    ensures DoRecv(s, m).nextId == s.nextId
  {
  }

  // n' is n after so many passes: still the only node of its id, its rank lowered by that many.
  ghost predicate StillDue(c: Config, s: State, n: Node, n': Node, passes: nat) {
    Sole(s.list, n') && n'.id == n.id && Rank(c, n') == Rank(c, n) - passes
  }

  // A request nobody answers, whatever else is sent and received meanwhile: before its rank is used
  // up it is still listed, with the rank that is left; afterwards it has expired, once, and all the
  // writes that were left have been made.
  lemma {:induction false} SilentRun(c: Config, s: State, ins: seq<Input>, n: Node)
    requires ValidConfig(c) && BackedOff(c, n) && Waiting(n)
    requires Sole(s.list, n) && n.id < s.nextId && ValidInputs(ins) && Silent(ins, n)
    ensures var s', w, x := Run(c, s, ins), Wrote(n.id, n.message), Expired(n.id);
      if Passes(ins) < Rank(c, n) then
        && (exists n' :: StillDue(c, s', n, n', Passes(ins))
                      && Count(s'.trace, w) == Count(s.trace, w) + WritesLeft(c, n) - WritesLeft(c, n'))
        && Count(s'.trace, x) == Count(s.trace, x)
      else
        && IdCount(s'.list, n.id) == 0
        && Count(s'.trace, w) == Count(s.trace, w) + WritesLeft(c, n)
        && Count(s'.trace, x) == Count(s.trace, x) + 1
    decreases |ins|
  {
    hide Count, TickNode, Disturbs, Rank, WritesLeft, BackedOff;
    if ins == [] {
      assert StillDue(c, s, n, n, 0);
    } else {
      var i, rest := ins[0], ins[1..];
      var s1 := Step(c, s, i);
      var w, x := Wrote(n.id, n.message), Expired(n.id);
      assert Silent(rest, n);
      assert !Disturbs(ins[0], n);
      if i.Tick? {
        var t := TickNode(c, n);
        SilentTick(c, s, n);
        TickRank(c, n);
        TickSame(c, n);
        if t.gone {
          SettledRest(c, s1, rest, w, n.id);
          SettledRest(c, s1, rest, x, n.id);
        } else {
          TickBackedOff(c, n);
          SilentSame(rest, n, t.node);
          SilentRun(c, s1, rest, t.node);
          if Passes(rest) < Rank(c, t.node) {
            var n' :|
              && StillDue(c, Run(c, s1, rest), t.node, n', Passes(rest))
              && Count(Run(c, s1, rest).trace, w) == Count(s1.trace, w) + WritesLeft(c, t.node) - WritesLeft(c, n');
            assert StillDue(c, Run(c, s, ins), n, n', Passes(ins));
          }
        }
      } else {
        QuietStep(c, s, i, w, n.id);
        QuietStep(c, s, i, x, n.id);
        if i.Send? {
          SilentSend(c, s, i.msg, i.handler, i.ok, n);
        } else {
          SilentRecv(s, i.m, n);
        }
        SilentRun(c, s1, rest, n);
      }
    }
  }

  lemma SilentSame(ins: seq<Input>, n: Node, n': Node)
    requires Silent(ins, n) && n'.msgid == n.msgid && n'.token == n.token
    ensures Silent(ins, n')
  {
    forall k | 0 <= k < |ins| ensures !Disturbs(ins[k], n') {
      assert !Disturbs(ins[k], n);
    }
  }

  // Once a request is off the list, nothing more is written or recorded for it.
  lemma {:induction false} SettledRest(c: Config, s: State, ins: seq<Input>, e: Event, id: nat)
    requires IdCount(s.list, id) == 0 && id < s.nextId && ValidInputs(ins) && Spends(e, id)
    ensures IdCount(Run(c, s, ins).list, id) == 0
    ensures Count(Run(c, s, ins).trace, e) == Count(s.trace, e)
    decreases |ins|
  {
    hide Count;
    if ins != [] {
      IdCountMember(s.list, id);
      SettledStep(c, s, ins[0], e, id);
      OffList(c, s, ins[0], id);
      SettledRest(c, Step(c, s, ins[0]), ins[1..], e, id);
    }
  }

  lemma OffList(c: Config, s: State, i: Input, id: nat)
    requires IdCount(s.list, id) == 0 && id < s.nextId && ValidInput(i)
    ensures IdCount(Step(c, s, i).list, id) == 0
  {
    hide Count, MsgBytes, Matches, TickedList, TickedTrace, RemoveAt, AckTrace, AnswerTrace;
    match i
    case Send(m, handler, ok) =>
      var x := NewNode(c, m, handler, MsgBytes(m), s.nextId);
      IdCountConcat(s.list, [x], id);
      assert IdCount([x], id) == 0;
    case Recv(m) =>
      var k := FindMsgid(s.list, m.msgid);
      if k < |s.list| { IdCountUpdate(s.list, k, s.list[k].(acked := true), id); }
      var j := FindToken(s.list, m.token);
      if j < |s.list| { IdCountRemove(s.list, j, id); }
    case Tick =>
      TickCounts(c, s.list, id);
  }

  // ---------------------------------------------------------------- a request in any run

  // Nothing more is due for this id: what is listed under it, if anything, is a confirmable request
  // that was acknowledged.
  ghost predicate Over(s: State, id: nat) {
    forall x :: x in s.list && x.id == id ==> x.con && x.acked
  }

  // What a datagram can do to the only request with its id: nothing, mark it, or take it off.
  lemma OneRecv(s: State, m: Msg, n: Node)
    requires Sole(s.list, n)
    ensures var ns := DoRecv(s, m).list;
      Sole(ns, n) || Sole(ns, n.(acked := true)) || IdCount(ns, n.id) == 0
  {
    hide Matches, Sole, RemoveAt;
    if Disturbs(Recv(m), n) {
      var k, j := FindMsgid(s.list, m.msgid), FindToken(s.list, m.token);
      if IsAck(m) && k < |s.list| {
        if s.list[k] == n {
          SoleMarked(s.list, k, n);
        } else {
          SoleUpdate(s.list, k, n);
        }
      } else if !IsAck(m) && IsResp(m) && j < |s.list| {
        if s.list[j] == n {
          SoleGone(s.list, j, n);
        } else {
          SoleRemove(s.list, j, n);
        }
      }
    } else {
      SilentRecv(s, m, n);
    }
  }

  lemma SoleMarked(ns: seq<Node>, k: nat, n: Node)
    requires Sole(ns, n) && k < |ns| && ns[k] == n
    ensures Sole(ns[k := n.(acked := true)], n.(acked := true))
  {
    IdCountUpdate(ns, k, n.(acked := true), n.id);
    assert ns[k := n.(acked := true)][k] == n.(acked := true);
  }

  lemma SoleGone(ns: seq<Node>, k: nat, n: Node)
    requires Sole(ns, n) && k < |ns| && ns[k] == n
    ensures IdCount(RemoveAt(ns, k), n.id) == 0
  {
    IdCountRemove(ns, k, n.id);
  }

  lemma SoleSettled(c: Config, s: State, n: Node)
    requires Sole(s.list, n) && n.id < s.nextId && BackedOff(c, n) && !Waiting(n)
    ensures Settled(c, s, n.id)
  {
    forall x | x in s.list && x.id == n.id ensures x == n {
      OnlyOne(s.list, n, x);
    }
  }

  lemma GoneOver(s: State, id: nat)
    requires IdCount(s.list, id) == 0
    ensures Over(s, id)
  {
    IdCountMember(s.list, id);
  }

  // A request that has left the list, or was acknowledged, in any run from there.
  lemma RestOver(c: Config, s: State, ins: seq<Input>, e: Event, id: nat)
    requires ValidInputs(ins) && Spends(e, id) && id < s.nextId
    requires IdCount(s.list, id) == 0 || Settled(c, s, id)
    ensures Count(Run(c, s, ins).trace, e) == Count(s.trace, e) && Over(Run(c, s, ins), id)
  {
    hide Count, Run;
    if IdCount(s.list, id) == 0 {
      SettledRest(c, s, ins, e, id);
      GoneOver(Run(c, s, ins), id);
    } else {
      AcknowledgedWaits(c, s, ins, e, id);
    }
  }

  // In every run whatsoever a request is written at most as often as its timers allow, and when its rank
  // is used up it is off the list or acknowledged.
  lemma {:induction false} AnyRun(c: Config, s: State, ins: seq<Input>, n: Node)
    requires ValidConfig(c) && BackedOff(c, n)
    requires Sole(s.list, n) && n.id < s.nextId && ValidInputs(ins)
    ensures var s', w := Run(c, s, ins), Wrote(n.id, n.message);
      && Count(s'.trace, w) <= Count(s.trace, w) + WritesLeft(c, n)
      && (Passes(ins) >= Rank(c, n) ==> Over(s', n.id))
    decreases |ins|, 0
  {
    hide Count, TickNode, Disturbs, Rank, WritesLeft, BackedOff, Over, Waiting, Sole, Settled;
    var w := Wrote(n.id, n.message);
    if !Waiting(n) {
      SoleSettled(c, s, n);
      RestOver(c, s, ins, w, n.id);
      SomeLeft(c, n);
    } else if ins != [] {
      var i, rest := ins[0], ins[1..];
      var s1 := Step(c, s, i);
      if i.Tick? {
        AnyTick(c, s, rest, n);
      } else {
        QuietStep(c, s, i, w, n.id);
        if i.Send? {
          SilentSend(c, s, i.msg, i.handler, i.ok, n);
          AnyRun(c, s1, rest, n);
        } else {
          OneRecv(s, i.m, n);
          if Sole(s1.list, n) {
            AnyRun(c, s1, rest, n);
          } else if Sole(s1.list, n.(acked := true)) {
            Marked(c, n);
            AnyRun(c, s1, rest, n.(acked := true));
          } else {
            RestOver(c, s1, rest, w, n.id);
          }
        }
      }
    }
  }

  lemma SomeLeft(c: Config, n: Node)
    ensures WritesLeft(c, n) >= 0 && Rank(c, n) > 0
  {
  }

  // The mark changes nothing of what is due by the timers.
  lemma Marked(c: Config, n: Node)
    ensures var n' := n.(acked := true);
      && Rank(c, n') == Rank(c, n) && WritesLeft(c, n') == WritesLeft(c, n)
      && (BackedOff(c, n) <==> BackedOff(c, n'))
  {
  }

  lemma {:induction false} AnyTick(c: Config, s: State, rest: seq<Input>, n: Node)
    requires ValidConfig(c) && BackedOff(c, n) && Waiting(n)
    requires Sole(s.list, n) && n.id < s.nextId && ValidInputs(rest)
    ensures var s', w := Run(c, DoTick(c, s), rest), Wrote(n.id, n.message);
      && Count(s'.trace, w) <= Count(s.trace, w) + WritesLeft(c, n)
      && (Passes(rest) + 1 >= Rank(c, n) ==> Over(s', n.id))
    decreases |rest|, 1
  {
    hide Count, TickNode, Rank, WritesLeft, BackedOff, Over, Waiting, Sole, Settled, Run;
    var t, s1 := TickNode(c, n), DoTick(c, s);
    SilentTick(c, s, n);
    TickRank(c, n);
    TickSame(c, n);
    if t.gone {
      RestOver(c, s1, rest, Wrote(n.id, n.message), n.id);
    } else {
      TickBackedOff(c, n);
      AnyRun(c, s1, rest, t.node);
    }
  }

  // With the client's constants, from any reachable state and in any other traffic: a confirmable
  // request that is never acknowledged nor answered is written four times in all and given up on the
  // 17th pass; a non-confirmable one is written once and given up on the 11th.
  lemma SilentRequest(c: Config, before: seq<Input>, m: Msg, handler: bool, after: seq<Input>)
    requires c == CLOUD || c == CLOUD_LARGE
    requires ValidInputs(before) && ValidInputs(after)
    requires Sendable(m) && |MsgBytes(m)| <= c.maxPdu && Kept(m)
    requires var s := Run(c, INIT, before);
      Silent(after, NewNode(c, m, handler, MsgBytes(m), s.nextId))
    ensures var s := Run(c, INIT, before);
      var s' := Run(c, DoSend(c, s, m, handler, true), after);
      var id, passes := s.nextId, if m.mtype == TYPE_CON then 17 else 11;
      if Passes(after) < passes then
        IdCount(s'.list, id) == 1 && Count(s'.trace, Expired(id)) == 0
      else
        && IdCount(s'.list, id) == 0 && Count(s'.trace, Expired(id)) == 1
        && Count(s'.trace, Wrote(id, MsgBytes(m))) == (if m.mtype == TYPE_CON then 4 else 1)
  {
    hide Rank, WritesLeft, Silent, MsgBytes, Run, DoSend, NewNode, Count, IdCount, Kept;
    hide BackedOff, Waiting, Safe, SameBytes;
    var s := Run(c, INIT, before);
    var n := NewNode(c, m, handler, MsgBytes(m), s.nextId);
    StartSound(c);
    RunSafe(c, INIT, before);
    RunSameBytes(c, INIT, before);
    JustListed(c, s, m, handler);
    CloudSchedule(c, m, handler, MsgBytes(m), s.nextId);
    SilentRun(c, DoSend(c, s, m, handler, true), after, n);
  }

  // With the client's constants, from any reachable state and whatever is sent and received afterwards: a
  // confirmable request is written at most four times in all, a non-confirmable one once, and after 17 or
  // 11 passes it is off the list or acknowledged.
  lemma AnyRequest(c: Config, before: seq<Input>, m: Msg, handler: bool, after: seq<Input>)
    requires c == CLOUD || c == CLOUD_LARGE
    requires ValidInputs(before) && ValidInputs(after)
    requires Sendable(m) && |MsgBytes(m)| <= c.maxPdu && Kept(m)
    ensures var s := Run(c, INIT, before);
      var s' := Run(c, DoSend(c, s, m, handler, true), after);
      && Count(s'.trace, Wrote(s.nextId, MsgBytes(m))) <= (if m.mtype == TYPE_CON then 4 else 1)
      && (Passes(after) >= (if m.mtype == TYPE_CON then 17 else 11) ==> Over(s', s.nextId))
  {
    hide Rank, WritesLeft, MsgBytes, Run, DoSend, NewNode, Count, IdCount, Kept, Over;
    hide BackedOff, Waiting, Safe, SameBytes;
    var s := Run(c, INIT, before);
    StartSound(c);
    RunSafe(c, INIT, before);
    RunSameBytes(c, INIT, before);
    JustListed(c, s, m, handler);
    CloudSchedule(c, m, handler, MsgBytes(m), s.nextId);
    AnyRun(c, DoSend(c, s, m, handler, true), after, NewNode(c, m, handler, MsgBytes(m), s.nextId));
  }

  // The state after a request was written and listed.
  lemma JustListed(c: Config, s: State, m: Msg, handler: bool)
    requires ValidConfig(c) && Safe(s) && SameBytes(s) && Sendable(m) && |MsgBytes(m)| <= c.maxPdu && Kept(m)
    ensures var n, s1 := NewNode(c, m, handler, MsgBytes(m), s.nextId), DoSend(c, s, m, handler, true);
      && n.id == s.nextId < s1.nextId && n.con == (m.mtype == TYPE_CON) && n.message == MsgBytes(m)
      && Sole(s1.list, n) && BackedOff(c, n) && Waiting(n)
      && Count(s1.trace, Wrote(n.id, n.message)) == 1 && Count(s1.trace, Expired(n.id)) == 0
  {
    hide MsgBytes;
    var n := NewNode(c, m, handler, MsgBytes(m), s.nextId);
    assert Fate(s, s.nextId);
    FirstWrite(s, n);
    IdCountConcat(s.list, [n], n.id);
    assert IdCount([n], n.id) == 1;
    PowStep(0);
  }

  lemma FirstWrite(s: State, n: Node)
    requires SameBytes(s) && Fate(s, n.id) && n.id == s.nextId
    ensures var t := s.trace + [Wrote(n.id, n.message), Listed(n.id, n.handler)];
      Count(t, Wrote(n.id, n.message)) == 1 && Count(t, Expired(n.id)) == 0
  {
    assert Wrote(n.id, n.message) !in s.trace;
  }
}
