/**
 The CoAP client's pending-request list as a state machine over values
 (coap_cloud/CoAPMessage.c; RFC 7252, sections 4.2, 4.8, 5.2.2 and 5.3.2). One input is one call
 of the client: a message sent, a datagram received, or one pass over the list of unanswered
 requests. The methods of CoapClient are proved to take exactly these steps; the theorems here
 speak about every run.
 */
module Retransmit {
  import opened Words
  import opened CoapWire
  import opened CoapMessage

  /**
   ACK_TIMEOUT, MAX_RETRY_COUNT and MAX_TRANSMISSION_SPAN, the first and last in cycles, and the
   greatest size of a datagram.
   */
  datatype Config = Config(ackTimeout: nat, maxRetry: nat, span: nat, maxPdu: nat)

  const CLOUD := Config(2, 4, 10, 1280)
  const CLOUD_LARGE := Config(2, 4, 10, 4096)  // built with COAP_LARGE_MEMORY_SUPPORT

  // The timers fit their unsigned short, the counter its unsigned char.
  predicate ValidConfig(c: Config) {
    && 0 < c.ackTimeout < 0x8000 && c.span < 0x8000
    && 0 < c.maxRetry < 0x100
    && 4 <= c.maxPdu < 0x1_0000
  }

  /** A pending request. `id` numbers the calls of send; `con` remembers the message type. */
  datatype Node = Node(id: nat, con: bool, msgid: uint16, acked: bool, token: seq<byte>,
                       retrans: nat, timeout: nat, timeoutVal: nat, message: seq<byte>, handler: bool)

  datatype Event =
    | Wrote(id: nat, bytes: seq<byte>)    // the request's datagram handed to the network
    | WroteAck(bytes: seq<byte>)          // an empty acknowledgement handed to the network
    | Listed(id: nat, handler: bool)      // the request joined the list
    | Called(id: nat)                     // its response handler ran
    | Answered(id: nat)                   // it left the list because of its response
    | Expired(id: nat)                    // it left the list because its time ran out

  datatype State = State(list: seq<Node>, count: byte, trace: seq<Event>, nextId: nat)

  datatype Input =
    | Send(msg: Msg, handler: bool, ok: bool)  // ok: the network took the datagram
    | Recv(m: Msg)
    | Tick

  const INIT := State([], 0, [], 0)

  // ---------------------------------------------------------------- the steps

  // Requests and confirmable 2.05 responses are kept for retransmission.
  predicate Kept(m: Msg) {
    1 <= m.code < 32 || (m.code == 0x45 && m.mtype == TYPE_CON)
  }

  function NewNode(c: Config, m: Msg, handler: bool, bytes: seq<byte>, id: nat): Node {
    if m.mtype == TYPE_CON then
      Node(id, true, m.msgid, false, m.token, 0, c.ackTimeout, c.ackTimeout, bytes, handler)
    else
      Node(id, false, m.msgid, false, m.token, c.maxRetry, c.span, c.ackTimeout, bytes, handler)
  }

  predicate Sendable(m: Msg) {
    ValidMsg(m) && |MsgBytes(m)| < 0x1_0000
  }

  function DoSend(c: Config, s: State, m: Msg, handler: bool, ok: bool): State
    requires Sendable(m)
  {
    if |MsgBytes(m)| > c.maxPdu then s.(nextId := s.nextId + 1)
    else if ok && Kept(m) then
      State(s.list + [NewNode(c, m, handler, MsgBytes(m), s.nextId)], Lo8(s.count + 1),
            s.trace + [Wrote(s.nextId, MsgBytes(m)), Listed(s.nextId, handler)], s.nextId + 1)
    else s.(trace := s.trace + [Wrote(s.nextId, MsgBytes(m))], nextId := s.nextId + 1)
  }

  // The position of the first node with this message id, or the length of the list.
  function FindMsgid(ns: seq<Node>, msgid: uint16): (k: nat)
    ensures k <= |ns|
    ensures k < |ns| ==> ns[k].msgid == msgid
    ensures forall i :: 0 <= i < k ==> ns[i].msgid != msgid
  {
    FirstAt(ns, (n: Node) => n.msgid == msgid)
  }

  predicate Matches(n: Node, token: seq<byte>) {
    n.token != [] && n.token == token
  }

  function FindToken(ns: seq<Node>, token: seq<byte>): (k: nat)
    ensures k <= |ns|
    ensures k < |ns| ==> Matches(ns[k], token)
    ensures forall i :: 0 <= i < k ==> !Matches(ns[i], token)
  {
    FirstAt(ns, (n: Node) => Matches(n, token))
  }

  function DoAck(s: State, msgid: uint16): State {
    var k := FindMsgid(s.list, msgid);
    if k < |s.list| then s.(list := s.list[k := s.list[k].(acked := true)]) else s
  }

  function AckMsg(msgid: uint16): (m: Msg)
    ensures Sendable(m) && |MsgBytes(m)| == 4
  {
    Msg(1, TYPE_ACK, 0, msgid, [], [], [])
  }

  function AckTrace(m: Msg): seq<Event> {
    if m.mtype == TYPE_CON then [WroteAck(MsgBytes(AckMsg(m.msgid)))] else []
  }

  function AnswerTrace(n: Node): seq<Event> {
    (if n.handler then [Called(n.id)] else []) + [Answered(n.id)]
  }

  function DoResp(s: State, m: Msg): State {
    var k := FindToken(s.list, m.token);
    if k < |s.list| then
      State(RemoveAt(s.list, k), Lo8(s.count - 1), s.trace + AckTrace(m) + AnswerTrace(s.list[k]), s.nextId)
    else s.(trace := s.trace + AckTrace(m))
  }

  predicate IsAck(m: Msg) {
    m.code == 0 && m.mtype == TYPE_ACK
  }

  predicate IsResp(m: Msg) {
    0x40 <= m.code < 0xC0
  }

  function DoRecv(s: State, m: Msg): State {
    if IsAck(m) then DoAck(s, m.msgid) else if IsResp(m) then DoResp(s, m) else s
  }

  datatype Ticked = Ticked(node: Node, wrote: bool, gone: bool)

  // One pass of the cycle over one node.
  function TickNode(c: Config, n: Node): Ticked {
    if n.timeout == 0 then
      var again := n.retrans < c.maxRetry && !n.acked;
      var n' := if again then
          n.(timeout := Lo16(n.timeoutVal * 2), timeoutVal := Lo16(n.timeoutVal * 2), retrans := n.retrans + 1)
        else n;
      Ticked(n', again, n'.timeout > c.span || n'.retrans >= c.maxRetry)
    else Ticked(n.(timeout := n.timeout - 1), false, false)
  }

  function TickList(t: Ticked): seq<Node> {
    if t.gone then [] else [t.node]
  }

  function TickTrace(t: Ticked): seq<Event> {
    (if t.wrote then [Wrote(t.node.id, t.node.message)] else [])
    + (if t.gone then [Expired(t.node.id)] else [])
  }

  function TickedList(c: Config, ns: seq<Node>): (r: seq<Node>)
    ensures |r| <= |ns|
  {
    if ns == [] then []
    else TickedList(c, ns[..|ns| - 1]) + TickList(TickNode(c, ns[|ns| - 1]))
  }

  function TickedTrace(c: Config, ns: seq<Node>): seq<Event> {
    if ns == [] then []
    else TickedTrace(c, ns[..|ns| - 1]) + TickTrace(TickNode(c, ns[|ns| - 1]))
  }

  function DoTick(c: Config, s: State): State {
    var list := TickedList(c, s.list);
    State(list, Lo8(s.count + |list| - |s.list|), s.trace + TickedTrace(c, s.list), s.nextId)
  }

  predicate ValidInput(i: Input) {
    i.Send? ==> Sendable(i.msg)
  }

  function Step(c: Config, s: State, i: Input): State
    requires ValidInput(i)
  {
    match i
    case Send(m, handler, ok) => DoSend(c, s, m, handler, ok)
    case Recv(m) => DoRecv(s, m)
    case Tick => DoTick(c, s)
  }

  predicate ValidInputs(ins: seq<Input>) {
    forall k :: 0 <= k < |ins| ==> ValidInput(ins[k])
  }

  function Run(c: Config, s: State, ins: seq<Input>): State
    requires ValidInputs(ins)
    decreases |ins|
  {
    if ins == [] then s else Run(c, Step(c, s, ins[0]), ins[1..])
  }

  lemma {:induction false} RunConcat(c: Config, s: State, a: seq<Input>, b: seq<Input>)
    requires ValidInputs(a) && ValidInputs(b)
    ensures ValidInputs(a + b) && Run(c, s, a + b) == Run(c, Run(c, s, a), b)
    decreases |a|
  {
    hide Step;
    if a == [] {
      assert a + b == b;
    } else {
      assert (a + b)[0] == a[0] && (a + b)[1..] == a[1..] + b;
      RunConcat(c, Step(c, s, a[0]), a[1..], b);
    }
  }

  // ---------------------------------------------------------------- the steps in plain terms

  // A datagram that is sent: too long is dropped; otherwise it is written, and listed if the network took
  // it and it is a request (codes 0.01 to 0.31) or a confirmable 2.05 response.
  lemma SendExact(c: Config, s: State, m: Msg, handler: bool, ok: bool)
    requires Sendable(m)
    ensures var s', bytes, id := DoSend(c, s, m, handler, ok), MsgBytes(m), s.nextId;
      && s'.nextId == id + 1
      && if |bytes| > c.maxPdu then s'.list == s.list && s'.trace == s.trace && s'.count == s.count
         else if ok && (1 <= m.code <= 31 || (m.code == 69 && m.mtype == 0)) then
           && s'.trace == s.trace + [Wrote(id, bytes), Listed(id, handler)]
           && |s'.list| == |s.list| + 1 && s'.list[..|s.list|] == s.list && s'.count == (s.count + 1) % 256
           && var n := s'.list[|s.list|];
           && n.id == id && n.msgid == m.msgid && n.token == m.token && n.message == bytes && n.handler == handler
           && !n.acked && n.con == (m.mtype == 0) && n.timeoutVal == c.ackTimeout
           && (n.con ==> n.retrans == 0 && n.timeout == c.ackTimeout)
           && (!n.con ==> n.retrans == c.maxRetry && n.timeout == c.span)
         else s'.list == s.list && s'.trace == s.trace + [Wrote(id, bytes)] && s'.count == s.count
  {
    hide MsgBytes;
  }

  // An acknowledgement, code 0.00 and type 2: of the nodes with its message id the first is marked, if
  // there is one. Every node keeps its place and all else.
  lemma AckExact(s: State, m: Msg)
    requires m.code == 0 && m.mtype == 2
    ensures var s' := DoRecv(s, m);
      && s' == s.(list := s'.list) && |s'.list| == |s.list|
      && forall i :: 0 <= i < |s.list| ==>
           s'.list[i] == s.list[i].(acked := s.list[i].acked
             || (s.list[i].msgid == m.msgid && forall j :: 0 <= j < i ==> s.list[j].msgid != m.msgid))
  {
    var k := FindMsgid(s.list, m.msgid);
    forall i | 0 <= i < |s.list| && s.list[i].msgid == m.msgid && forall j :: 0 <= j < i ==> s.list[j].msgid != m.msgid
      ensures i == k
    {
      assert !(i < k);
    }
  }

  // The bytes of an empty acknowledgement.
  lemma AckBytes(msgid: uint16)
    ensures MsgBytes(AckMsg(msgid)) == [0x60, 0, msgid / 256, msgid % 256]
  {
    assert OptionsBytes([]) == [] && PayloadBytes([]) == [];
    var h := HeaderBytes(AckMsg(msgid));
    assert h + [] + [] + [] == h;
  }

  // What the answer to a confirmable message puts on the network.
  function Confirmed(m: Msg): seq<Event> {
    if m.mtype == 0 then [WroteAck([0x60, 0, m.msgid / 256, m.msgid % 256])] else []
  }

  // A response, classes 2 to 5: a confirmable one is acknowledged first; then the first node with its
  // token, if that is not empty, has its handler run and leaves the list.
  lemma RespExact(s: State, m: Msg, k: nat)
    requires 64 <= m.code <= 191
    requires k <= |s.list| && forall i :: 0 <= i < k ==> m.token == [] || s.list[i].token != m.token
    requires k < |s.list| ==> m.token != [] && s.list[k].token == m.token
    ensures var s' := DoRecv(s, m);
      && s'.nextId == s.nextId
      && if k == |s.list| then s' == s.(trace := s.trace + Confirmed(m))
         else
           && s'.list == s.list[..k] + s.list[k + 1..] && s'.count == (s.count - 1) % 256
           && s'.trace == s.trace + Confirmed(m)
                + (if s.list[k].handler then [Called(s.list[k].id)] else []) + [Answered(s.list[k].id)]
  {
    hide MsgBytes;
    AckBytes(m.msgid);
    assert FindToken(s.list, m.token) == k;
    if k < |s.list| {
      var a, b := AckTrace(m), if s.list[k].handler then [Called(s.list[k].id)] else [];
      assert s.trace + a + (b + [Answered(s.list[k].id)]) == s.trace + a + b + [Answered(s.list[k].id)];
    }
  }

  // Any other datagram, a request, a reset or a ping, is ignored.
  lemma OtherIgnored(s: State, m: Msg)
    requires !(m.code == 0 && m.mtype == 2) && !(64 <= m.code <= 191)
    ensures DoRecv(s, m) == s
  {
  }

  // A pass over one node: the timer counts down; at zero a node that has tries left and is not
  // acknowledged doubles its time-out and is written again; then a node whose time-out is beyond the span
  // or whose tries are used up is given up, after the write if there was one.
  lemma PassExact(c: Config, s: State, n: Node)
    requires s.list == [n] && n.timeoutVal < 0x8000
    ensures var s' := DoTick(c, s); var again := n.retrans < c.maxRetry && !n.acked;
      var n' := if n.timeout > 0 then n.(timeout := n.timeout - 1)
                else if again then
                  n.(timeout := 2 * n.timeoutVal, timeoutVal := 2 * n.timeoutVal, retrans := n.retrans + 1)
                else n;
      var gone := n.timeout == 0 && (n'.timeout > c.span || n'.retrans >= c.maxRetry);
      && s'.list == (if gone then [] else [n'])
      && s'.trace == s.trace + (if n.timeout == 0 && again then [Wrote(n.id, n.message)] else [])
                             + (if gone then [Expired(n.id)] else [])
  {
    assert [n][..0] == [] && TickedList(c, [n][..0]) == [] && TickedTrace(c, [n][..0]) == [];
    var t := TickNode(c, n);
    assert TickedTrace(c, [n]) == [] + TickTrace(t) == TickTrace(t);
    assert TickedList(c, [n]) == [] + TickList(t) == TickList(t);
    var a, b := if t.wrote then [Wrote(t.node.id, t.node.message)] else [], if t.gone then [Expired(t.node.id)] else [];
    assert s.trace + (a + b) == s.trace + a + b;
  }

  // A pass over a list is the passes over its parts, first to last.
  lemma {:induction false} PassConcat(c: Config, a: seq<Node>, b: seq<Node>)
    ensures TickedList(c, a + b) == TickedList(c, a) + TickedList(c, b)
    ensures TickedTrace(c, a + b) == TickedTrace(c, a) + TickedTrace(c, b)
    decreases |b|
  {
    hide TickNode, TickList, TickTrace;
    if b == [] {
      assert a + b == a;
    } else {
      assert (a + b)[..|a + b| - 1] == a + b[..|b| - 1];
      PassConcat(c, a, b[..|b| - 1]);
    }
  }

  // ---------------------------------------------------------------- one fate per request

  function Count(t: seq<Event>, e: Event): nat {
    multiset(t)[e]
  }

  // How many listed nodes carry this id.
  function IdCount(ns: seq<Node>, id: nat): nat {
    if ns == [] then 0
    else IdCount(ns[..|ns| - 1], id) + (if ns[|ns| - 1].id == id then 1 else 0)
  }

  lemma {:induction false} IdCountConcat(a: seq<Node>, b: seq<Node>, id: nat)
    ensures IdCount(a + b, id) == IdCount(a, id) + IdCount(b, id)
  {
    if b == [] {
      assert a + b == a;
    } else {
      assert (a + b)[..|a + b| - 1] == a + b[..|b| - 1];
      IdCountConcat(a, b[..|b| - 1], id);
    }
  }

  lemma {:induction false} IdCountMember(ns: seq<Node>, id: nat)
    ensures IdCount(ns, id) > 0 <==> exists i :: 0 <= i < |ns| && ns[i].id == id
  {
    if ns != [] {
      IdCountMember(ns[..|ns| - 1], id);
      if ns[|ns| - 1].id != id && exists i :: 0 <= i < |ns| && ns[i].id == id {
        var i :| 0 <= i < |ns| && ns[i].id == id;
        assert ns[..|ns| - 1][i].id == id;
      }
    }
  }

  // Removing or marking one node in place.
  lemma IdCountRemove(ns: seq<Node>, k: nat, id: nat)
    requires k < |ns|
    ensures IdCount(ns, id) == IdCount(RemoveAt(ns, k), id) + (if ns[k].id == id then 1 else 0)
  {
    assert ns == ns[..k] + ([ns[k]] + ns[k + 1..]);
    IdCountConcat(ns[..k], [ns[k]] + ns[k + 1..], id);
    IdCountConcat([ns[k]], ns[k + 1..], id);
    IdCountConcat(ns[..k], ns[k + 1..], id);
    assert IdCount([ns[k]], id) == (if ns[k].id == id then 1 else 0);
  }

  lemma IdCountUpdate(ns: seq<Node>, k: nat, n: Node, id: nat)
    requires k < |ns| && n.id == ns[k].id
    ensures IdCount(ns[k := n], id) == IdCount(ns, id)
  {
    IdCountRemove(ns, k, id);
    IdCountRemove(ns[k := n], k, id);
    assert RemoveAt(ns[k := n], k) == RemoveAt(ns, k);
  }

  function ListedCount(t: seq<Event>, id: nat): nat {
    Count(t, Listed(id, true)) + Count(t, Listed(id, false))
  }

  // Every id was listed at most once, and then it is still listed, was answered, or has expired:
  // one of the three, once. Its handler, if it has one, ran once if it was answered and never else.
  ghost predicate OneFate(s: State) {
    forall id: nat :: Fate(s, id)
  }

  ghost predicate Fate(s: State, id: nat) {
    && ListedCount(s.trace, id) <= 1
    && (id >= s.nextId ==> ListedCount(s.trace, id) == 0)
    && ListedCount(s.trace, id)
       == IdCount(s.list, id) + Count(s.trace, Answered(id)) + Count(s.trace, Expired(id))
    && Count(s.trace, Called(id))
       == (if Count(s.trace, Listed(id, true)) == 1 then Count(s.trace, Answered(id)) else 0)
  }

  // The node still knows whether it was listed with a handler.
  ghost predicate HandlersKnown(s: State) {
    forall n :: n in s.list ==> Count(s.trace, Listed(n.id, n.handler)) >= 1
  }

  // `count`, an unsigned char, is the length of the list modulo 256: there is no other bound.
  ghost predicate CountExact(s: State) {
    s.count == Lo8(|s.list|)
  }
}
