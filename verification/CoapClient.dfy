/**
 The CoAP client context and its pending-request nodes, updated in place (coap_cloud/CoAPMessage.c).
 Every method takes the step of the same name in Retransmit; what holds over whole runs is proved
 there and in RetransmitFate, RetransmitTime and Correlation. The intrusive list is the sequence it
 stands for (see LinkedList); the network's answer to a write is the parameter `ok`.
 */
module CoapClient {
  import opened Words
  import opened CoapWire
  import opened CoapMessage
  import opened CoapSerialize
  import opened CoapDeserialize
  import opened Retransmit

  class SendNode {
    var msgid: uint16
    var acked: bool
    var token: seq<byte>
    var retransCount: nat
    var timeout: uint16
    var timeoutVal: uint16
    var message: seq<byte>
    var handler: bool
    ghost var id: nat
    ghost var con: bool

    ghost function View(): Node
      reads this
    {
      Node(id, con, msgid, acked, token, retransCount, timeout, timeoutVal, message, handler)
    }

    constructor (cfg: Config, msg: CoAPMessage, message: seq<byte>, handler: bool, ghost id: nat)
      requires ValidConfig(cfg) && msg.Valid()
      ensures View() == NewNode(cfg, msg.View(), handler, message, id)
    {
      this.acked := false;
      this.msgid := msg.msgid;
      this.handler := handler;
      this.timeoutVal := cfg.ackTimeout;
      if TYPE_CON == msg.mtype {
        this.timeout := cfg.ackTimeout;
        this.retransCount := 0;
      } else {
        this.timeout := cfg.span;
        this.retransCount := cfg.maxRetry;
      }
      this.token := msg.token[..msg.tokenlen];
      this.message := message;
      this.id := id;
      this.con := TYPE_CON == msg.mtype;
    }
  }

  ghost predicate Distinct(ns: seq<SendNode>) {
    forall i, j :: 0 <= i < j < |ns| ==> ns[i] != ns[j]
  }

  class CoapContext {
    const cfg: Config
    var messageId: uint16
    const sendbuf: array<byte>
    var sendlist: seq<SendNode>
    var count: byte
    ghost var nodes: seq<Node>  // the list's nodes as values
    ghost var trace: seq<Event>
    ghost var nextId: nat

    ghost predicate Valid()
      reads this, sendlist
    {
      && ValidConfig(cfg) && sendbuf.Length == cfg.maxPdu
      && Distinct(sendlist)
      && |nodes| == |sendlist|
      && forall i :: 0 <= i < |sendlist| ==> sendlist[i].View() == nodes[i]
    }

    ghost function View(): State
      reads this
    {
      State(nodes, count, trace, nextId)
    }

    constructor (cfg: Config)
      requires ValidConfig(cfg)
      ensures Valid() && View() == INIT && messageId == 1 && fresh(sendbuf)
    {
      this.cfg := cfg;
      messageId := 1;
      sendbuf := new byte[cfg.maxPdu](_ => 0);
      sendlist, count := [], 0;
      nodes, trace, nextId := [], [], 0;
    }

    // The values the theorems speak of are the fields of the nodes that are really on the list.
    lemma NodesReal(i: nat)
      requires Valid() && i < |nodes|
      ensures |sendlist| == |nodes|
      ensures var n, v := sendlist[i], nodes[i];
        && n.msgid == v.msgid && n.acked == v.acked && n.token == v.token && n.retransCount == v.retrans
        && n.timeout == v.timeout && n.timeoutVal == v.timeoutVal && n.message == v.message && n.handler == v.handler
    {
      assert sendlist[i].View() == nodes[i];
    }

    // The ids 1 to 65534 once each, then 1 for ever: the counter is never wound back.
    method MessageIdGen(ghost calls: nat) returns (id: uint16)
      requires 1 <= messageId && messageId == Min(calls + 1, 65535)
      modifies this`messageId
      ensures id == MsgidAt(calls) == if calls < 65534 then calls + 1 else 1
      ensures messageId == Min(calls + 2, 65535)
    {
      if 65535 == messageId {
        id := 1;
      } else {
        id := messageId;
        messageId := messageId + 1;
      }
    }

    // The C test against maxcount compares two addresses and always passes, so the list has no bound.
    method MessageListAdd(msg: CoAPMessage, len: nat, handler: bool)
      requires Valid() && msg.Valid() && len <= sendbuf.Length
      modifies this`sendlist, this`count, this`nodes, this`trace
      ensures Valid()
      ensures View() == old(View()).(
        list := old(nodes) + [NewNode(cfg, msg.View(), handler, sendbuf[..len], nextId)],
        count := Lo8(old(count) + 1),
        trace := old(trace) + [Listed(nextId, handler)])
    {
      var node := new SendNode(cfg, msg, sendbuf[..len], handler, nextId);
      sendlist := sendlist + [node];
      count := Lo8(count + 1);
      nodes := nodes + [node.View()];
      trace := trace + [Listed(nextId, handler)];
    }

    // Clears the send buffer and serializes the message into it.
    method FillSendBuf(msg: CoAPMessage) returns (msglen: nat)
      requires ValidConfig(cfg) && sendbuf.Length == cfg.maxPdu && msg.Valid() && sendbuf != msg.token
      requires |MsgBytes(msg.View())| <= cfg.maxPdu
      modifies sendbuf
      ensures msglen == |MsgBytes(msg.View())| && sendbuf[..msglen] == MsgBytes(msg.View())
    {
      hide MsgBytes, Splice, Written, Head;
      ghost var m := msg.View();
      for i := 0 to cfg.maxPdu {
        sendbuf[i] := 0;
      }
      HeadFits(m, cfg.maxPdu);
      WrittenExact(m, cfg.maxPdu);
      ghost var b := sendbuf[..];
      msglen := SerializeMessage(msg, sendbuf, cfg.maxPdu);
      SplicePrefix(b, MsgBytes(m), msglen);
    }

    // After the write: a request the network took joins the list.
    method ListIfKept(msg: CoAPMessage, msglen: nat, handler: bool, ok: bool)
      requires Valid() && msg.Valid() && msglen == |MsgBytes(msg.View())| <= cfg.maxPdu
      requires sendbuf[..msglen] == MsgBytes(msg.View())
      modifies this`sendlist, this`count, this`nodes, this`trace
      ensures Valid()
      ensures !Kept(msg.View()) ==> sendlist == old(sendlist)
      ensures View() == if !ok || !Kept(msg.View()) then old(View()) else old(View()).(
        list := old(nodes) + [NewNode(cfg, msg.View(), handler, MsgBytes(msg.View()), nextId)],
        count := Lo8(old(count) + 1),
        trace := old(trace) + [Listed(nextId, handler)])
    {
      hide MsgBytes, NewNode;
      if ok {
        if (1 <= msg.code < 32) || (msg.code == 0x45 && msg.mtype == TYPE_CON) {
          MessageListAdd(msg, msglen, handler);
        }
      }
    }

    // `request` is false for the empty acknowledgement the client sends by itself.
    method MessageSend(msg: CoAPMessage, handler: bool, ok: bool, ghost request: bool) returns (r: Status)
      requires Valid() && msg.Valid() && sendbuf != msg.token
      requires |MsgBytes(msg.View())| < 0x1_0000
      requires !request ==> !Kept(msg.View()) && |MsgBytes(msg.View())| <= cfg.maxPdu
      modifies this`sendlist, this`count, this`nodes, this`trace, this`nextId, sendbuf
      ensures Valid()
      ensures !request ==> sendlist == old(sendlist)
      ensures r == if |MsgBytes(msg.View())| > cfg.maxPdu then DataSize
                   else if ok then Success else WriteFailed
      ensures View() == if request then DoSend(cfg, old(View()), msg.View(), handler, ok)
                        else old(View()).(trace := old(trace) + [WroteAck(MsgBytes(msg.View()))])
    {
      hide MsgBytes, NewNode, ValidMsg, Kept;
      ghost var m, s := msg.View(), View();
      var msglen: nat := SerializeMessageLength(msg);
      if cfg.maxPdu < msglen {
        nextId := nextId + 1;
        return DataSize;
      }
      msglen := FillSendBuf(msg);
      ghost var w := if request then Wrote(nextId, MsgBytes(m)) else WroteAck(MsgBytes(m));
      trace := trace + [w];
      ListIfKept(msg, msglen, handler, ok);
      nextId := if request then nextId + 1 else nextId;
      assert (s.trace + [w]) + [Listed(s.nextId, handler)] == s.trace + [w, Listed(s.nextId, handler)];
      return if ok then Success else WriteFailed;
    }

    method AckHandle(msgid: uint16)
      requires Valid()
      modifies this`nodes, sendlist
      ensures Valid() && View() == DoAck(old(View()), msgid)
    {
      var i := 0;
      while i < |sendlist|
        invariant i <= |sendlist|
        invariant forall j :: 0 <= j < i ==> nodes[j].msgid != msgid
      {
        if sendlist[i].msgid == msgid {
          assert FindMsgid(nodes, msgid) == i;
          sendlist[i].acked := true;
          nodes := nodes[i := nodes[i].(acked := true)];
          return;
        }
        i := i + 1;
      }
      assert FindMsgid(nodes, msgid) == i;
    }

    // A bare acknowledgement; whether the network takes it makes no difference.
    method AckMessageSend(msgid: uint16, ok: bool)
      requires Valid()
      modifies this`sendlist, this`count, this`nodes, this`trace, this`nextId, sendbuf
      ensures Valid() && View() == old(View()).(trace := old(trace) + [WroteAck(MsgBytes(AckMsg(msgid)))])
      ensures sendlist == old(sendlist)
    {
      hide MsgBytes;
      var message := new CoAPMessage.Init();
      message.msgid := msgid;
      assert message.View() == AckMsg(msgid);
      var _ := MessageSend(message, false, ok, false);
    }

    // A confirmable response is acknowledged before anything else.
    method AckIfConfirmable(m: CoAPMessage, ok: bool)
      requires Valid() && m.Valid() && sendbuf != m.token
      modifies this`sendlist, this`count, this`nodes, this`trace, this`nextId, sendbuf
      ensures Valid() && View() == old(View()).(trace := old(trace) + AckTrace(m.View()))
      ensures sendlist == old(sendlist)
    {
      hide MsgBytes;
      if TYPE_CON == m.mtype {
        AckMessageSend(m.msgid, ok);
      }
      assert trace + [] == trace;
    }

    // The walk that looks for the node with the response's token.
    method FindByToken(m: CoAPMessage) returns (i: nat)
      requires Valid() && m.Valid()
      ensures i == FindToken(nodes, m.View().token) <= |sendlist|
    {
      i := 0;
      while i < |sendlist|
        invariant i <= |sendlist|
        invariant forall j :: 0 <= j < i ==> !Matches(nodes[j], m.View().token)
      {
        var node := sendlist[i];
        if 0 != |node.token| && |node.token| == m.tokenlen && node.token == m.token[..m.tokenlen] {
          break;
        }
        i := i + 1;
      }
      assert FindToken(nodes, m.View().token) == i;
    }

    // list_del and the count.
    method TakeOff(i: nat)
      requires Valid() && i < |sendlist|
      modifies this`sendlist, this`count, this`nodes
      ensures Valid()
      ensures nodes == RemoveAt(old(nodes), i) && count == Lo8(old(count) - 1)
      ensures forall j :: 0 <= j < |sendlist| ==> sendlist[j] in old(sendlist)
    {
      sendlist := RemoveAt(sendlist, i);
      count := Lo8(count - 1);
      nodes := RemoveAt(nodes, i);
    }

    method RespHandle(m: CoAPMessage, ok: bool) returns (r: Status)
      requires Valid() && m.Valid() && sendbuf != m.token
      modifies this`sendlist, this`count, this`nodes, this`trace, this`nextId, sendbuf
      ensures Valid() && View() == DoResp(old(View()), m.View())
      ensures forall j :: 0 <= j < |sendlist| ==> sendlist[j] in old(sendlist)
      ensures r == if FindToken(old(nodes), m.View().token) < |old(sendlist)| then Success else NotFound
    {
      hide MsgBytes, Matches, AckTrace, AnswerTrace, RemoveAt;
      AckIfConfirmable(m, ok);
      var i := FindByToken(m);
      if i < |sendlist| {
        var node := sendlist[i];
        trace := trace + AnswerTrace(node.View());
        TakeOff(i);
        return Success;
      }
      return NotFound;
    }

    // One received datagram, at the start of a buffer that was cleared before the read.
    method MessageHandle(buf: seq<byte>, datalen: nat, ok: bool)
      requires Valid() && datalen <= |buf| == cfg.maxPdu && forall i :: datalen <= i < |buf| ==> buf[i] == 0
      requires Acceptable(cfg, buf[..datalen])
      modifies this`sendlist, this`count, this`nodes, this`trace, this`nextId, sendbuf, sendlist
      ensures Valid() && View() == Run(cfg, old(View()), InputOf(cfg, buf[..datalen]))
      ensures forall j :: 0 <= j < |sendlist| ==> sendlist[j] in old(sendlist)
    {
      hide MsgBytes, Datagram, ParsedMsg, AfterOptions, DoAck, DoResp;
      var message := new CoAPMessage.Init();
      message.code, message.mtype := 0, TYPE_CON;
      var _ := DeserializeMessage(message, buf, datalen);
      RunOne(cfg, View(), buf[..datalen]);
      if message.code == 0 && message.mtype == TYPE_ACK {
        AckHandle(message.msgid);
      } else if 0x40 <= message.code && message.code < 0xC0 {
        var _ := RespHandle(message, ok);
      }
    }

    // The body of the cycle for one node; the caller takes the node off the list if it is `gone`.
    method CycleNode(node: SendNode) returns (ghost wrote: bool, gone: bool)
      requires ValidConfig(cfg)
      modifies node
      ensures var t := TickNode(cfg, old(node.View()));
        node.View() == t.node && wrote == t.wrote && gone == t.gone
    {
      wrote, gone := false, false;
      if node.timeout == 0 {
        if node.retransCount < cfg.maxRetry && !node.acked {
          node.timeout := Lo16(node.timeoutVal * 2);
          node.timeoutVal := node.timeout;
          node.retransCount := node.retransCount + 1;
          wrote := true;
        }
        gone := node.timeout > cfg.span || node.retransCount >= cfg.maxRetry;
      } else {
        node.timeout := node.timeout - 1;
      }
    }

    // One iteration of the pass: the node at i, taken off the list when it is given up.
    method CycleAt(i: nat) returns (gone: bool)
      requires Valid() && i < |sendlist|
      modifies this`sendlist, this`count, this`nodes, this`trace, sendlist[i]
      ensures Valid()
      ensures var t := TickNode(cfg, old(nodes[i]));
        && gone == t.gone
        && nodes == (if gone then RemoveAt(old(nodes), i) else old(nodes)[i := t.node])
        && trace == old(trace) + TickTrace(t)
        && count == (if gone then Lo8(old(count) - 1) else old(count))
      ensures forall j :: 0 <= j < |sendlist| ==> sendlist[j] in old(sendlist)
    {
      hide TickNode, TickTrace;
      var node := sendlist[i];
      ghost var t := TickNode(cfg, node.View());
      ghost var wrote: bool;
      wrote, gone := CycleNode(node);
      trace := trace + TickTrace(t);
      nodes := nodes[i := t.node];
      if gone {
        assert RemoveAt(nodes, i) == RemoveAt(old(nodes), i);
        TakeOff(i);
      }
    }

    // Part-way through the pass: k of the nodes it found were visited; the cursor is at i.
    ghost predicate PassAt(ns: seq<Node>, k: nat, i: nat, c: byte, t: seq<Event>)
      reads this
    {
      && k <= |ns| && i == |TickedList(cfg, ns[..k])|
      && nodes == Passed(cfg, ns, k)
      && trace == t + TickedTrace(cfg, ns[..k])
      && count == LoSum(c, i - k)
    }

    method CycleStep(i: nat, ghost ns: seq<Node>, ghost k: nat, ghost c: byte, ghost t: seq<Event>)
      returns (next: nat)
      requires Valid() && k < |ns| && PassAt(ns, k, i, c, t) && i < |sendlist|
      modifies this`sendlist, this`count, this`nodes, this`trace, sendlist
      ensures Valid() && PassAt(ns, k + 1, next, c, t)
      ensures forall j :: 0 <= j < |sendlist| ==> sendlist[j] in old(sendlist)
    {
      hide TickNode, TickTrace, TickedList, TickedTrace, Passed, LoSum, RemoveAt;
      PassedSnoc(cfg, ns, k);
      LoStep(c, i - k);
      Associative(t, TickedTrace(cfg, ns[..k]), TickTrace(TickNode(cfg, ns[k])));
      var gone := CycleAt(i);
      next := if gone then i else i + 1;
    }

    lemma PassStart()
      ensures PassAt(nodes, 0, 0, count, trace)
    {
      PassedNone(cfg, nodes);
      LoNone(count);
    }

    lemma PassEnd(ns: seq<Node>, k: nat, i: nat, c: byte, t: seq<Event>)
      requires PassAt(ns, k, i, c, t)
      ensures i <= |nodes| && |nodes| - i == |ns| - k
      ensures k == |ns| ==>
        && nodes == TickedList(cfg, ns) && trace == t + TickedTrace(cfg, ns)
        && count == Lo8(c + |nodes| - |ns|)
    {
      hide TickedList, TickedTrace, LoSum, Passed;
      PassedLen(cfg, ns, k);
      PassedAll(cfg, ns);
      LoTotal(c, i, |ns|);
    }

    // The pass over the list: nodes are taken off while it is walked.
    method CyclePass()
      requires Valid()
      modifies this`sendlist, this`count, this`nodes, this`trace, sendlist
      ensures Valid() && View() == DoTick(cfg, old(View()))
    {
      hide TickedList, TickedTrace, PassAt;
      ghost var ns, k: nat, c, t := nodes, 0, count, trace;
      var i: nat := 0;
      PassStart();
      PassEnd(ns, k, i, c, t);
      while i < |sendlist|
        invariant Valid() && PassAt(ns, k, i, c, t)
        invariant i <= |nodes| && |nodes| - i == |ns| - k
        invariant forall j :: 0 <= j < |sendlist| ==> sendlist[j] in old(sendlist)
        decreases |ns| - k
      {
        i := CycleStep(i, ns, k, c, t);
        k := k + 1;
        PassEnd(ns, k, i, c, t);
      }
      PassEnd(ns, k, i, c, t);
    }

    // Reads datagrams until the network has none, then walks the list once.
    method MessageCycle(datagrams: seq<seq<byte>>, ok: bool)
      requires Valid() && AllAcceptable(cfg, datagrams)
      modifies this`sendlist, this`count, this`nodes, this`trace, this`nextId, sendbuf, sendlist
      ensures Valid() && View() == Run(cfg, old(View()), InputsOf(cfg, datagrams) + [Tick])
    {
      hide DoTick, InputOf, Acceptable, Run, InputsOf;
      RunNone(cfg, View());
      ghost var s := View();
      var i: nat := 0;
      while i < |datagrams|
        invariant i <= |datagrams| && Valid() && AllAcceptable(cfg, datagrams[..i])
        invariant forall j :: 0 <= j < |sendlist| ==> sendlist[j] in old(sendlist)
        invariant View() == Run(cfg, s, InputsOf(cfg, datagrams[..i]))
      {
        RunNext(cfg, s, datagrams, i);
        ReadOne(datagrams[i], ok);
        i := i + 1;
      }
      assert datagrams[..i] == datagrams;
      RunTick(cfg, s, InputsOf(cfg, datagrams));
      CyclePass();
    }

    // The receive buffer is cleared and the datagram put at its start.
    method ReadOne(d: seq<byte>, ok: bool)
      requires Valid() && Acceptable(cfg, d)
      modifies this`sendlist, this`count, this`nodes, this`trace, this`nextId, sendbuf, sendlist
      ensures Valid() && View() == Run(cfg, old(View()), InputOf(cfg, d))
      ensures forall j :: 0 <= j < |sendlist| ==> sendlist[j] in old(sendlist)
    {
      hide Run, InputOf;
      var recvbuf: seq<byte> := d + seq(cfg.maxPdu - |d|, _ => 0);
      assert recvbuf[..|d|] == d;
      MessageHandle(recvbuf, |d|, ok);
    }
  }

  // What the parser handles within the receive buffer: a datagram that fills the buffer has a payload.
  predicate Acceptable(c: Config, d: seq<byte>) {
    && |d| <= c.maxPdu
    && (|d| >= 4 ==> Datagram(d) && (|d| == c.maxPdu ==> AfterOptions(Body(d)) != []))
  }

  ghost predicate AllAcceptable(c: Config, ds: seq<seq<byte>>) {
    forall i :: 0 <= i < |ds| ==> Acceptable(c, ds[i])
  }

  // A datagram too short for a header leaves a cleared record, which is neither answer nor acknowledgement.
  function InputOf(c: Config, d: seq<byte>): (ins: seq<Input>)
    requires Acceptable(c, d)
    ensures ValidInputs(ins)
  {
    if |d| < 4 then [] else [Recv(ParsedMsg(d))]
  }

  function InputsOf(c: Config, ds: seq<seq<byte>>): (ins: seq<Input>)
    requires forall i :: 0 <= i < |ds| ==> Acceptable(c, ds[i])
    ensures ValidInputs(ins)
  {
    if ds == [] then [] else InputsOf(c, ds[..|ds| - 1]) + InputOf(c, ds[|ds| - 1])
  }

  // Each datagram long enough for a header is one input, in the order they came.
  lemma {:induction false} InputsExact(c: Config, ds: seq<seq<byte>>, i: nat)
    requires AllAcceptable(c, ds) && i < |ds| && forall k :: 0 <= k < |ds| ==> |ds[k]| >= 4
    ensures |InputsOf(c, ds)| == |ds| && InputsOf(c, ds)[i] == Recv(ParsedMsg(ds[i]))
    decreases |ds|
  {
    hide Acceptable, ParsedMsg, Datagram;
    var n := |ds| - 1;
    assert Acceptable(c, ds[n]);
    if n > 0 {
      InputsExact(c, ds[..n], if i < n then i else 0);
    } else {
      assert ds[..0] == [];
    }
  }

  lemma RunOne(c: Config, s: State, d: seq<byte>)
    requires Acceptable(c, d)
    ensures Run(c, s, InputOf(c, d)) == if |d| < 4 then s else DoRecv(s, ParsedMsg(d))
  {
    hide DoRecv, Datagram, ParsedMsg;
    assert |d| >= 4 ==> [Recv(ParsedMsg(d))][1..] == [];
  }

  lemma RunNone(c: Config, s: State)
    ensures Run(c, s, InputsOf(c, [])) == s
  {
  }

  lemma RunNext(c: Config, s: State, ds: seq<seq<byte>>, i: nat)
    requires i < |ds| && AllAcceptable(c, ds)
    ensures Acceptable(c, ds[i]) && AllAcceptable(c, ds[..i]) && AllAcceptable(c, ds[..i + 1])
    ensures Run(c, s, InputsOf(c, ds[..i + 1])) == Run(c, Run(c, s, InputsOf(c, ds[..i])), InputOf(c, ds[i]))
  {
    hide Run, InputOf, Acceptable;
    assert ds[..i + 1][..i] == ds[..i] && ds[..i + 1][i] == ds[i];
    RunConcat(c, s, InputsOf(c, ds[..i]), InputOf(c, ds[i]));
  }

  lemma RunTick(c: Config, s: State, ins: seq<Input>)
    requires ValidInputs(ins)
    ensures ValidInputs(ins + [Tick]) && Run(c, s, ins + [Tick]) == DoTick(c, Run(c, s, ins))
  {
    hide DoTick;
    RunConcat(c, s, ins, [Tick]);
    assert [Tick][1..] == [];
  }

  // The list after the pass visited its first k nodes.
  function Passed(c: Config, ns: seq<Node>, k: nat): seq<Node>
    requires k <= |ns|
  {
    TickedList(c, ns[..k]) + ns[k..]
  }

  lemma PassedNone(c: Config, ns: seq<Node>)
    ensures Passed(c, ns, 0) == ns && TickedList(c, ns[..0]) == [] && TickedTrace(c, ns[..0]) == []
  {
  }

  lemma PassedLen(c: Config, ns: seq<Node>, k: nat)
    requires k <= |ns|
    ensures |Passed(c, ns, k)| - |TickedList(c, ns[..k])| == |ns| - k
  {
  }

  lemma PassedAll(c: Config, ns: seq<Node>)
    ensures Passed(c, ns, |ns|) == TickedList(c, ns) && ns[..|ns|] == ns
  {
    assert ns[..|ns|] == ns;
  }

  lemma PassedSnoc(c: Config, ns: seq<Node>, k: nat)
    requires k < |ns|
    ensures var t, l, i := TickNode(c, ns[k]), Passed(c, ns, k), |TickedList(c, ns[..k])|;
      && i < |l| && l[i] == ns[k]
      && Passed(c, ns, k + 1) == (if t.gone then RemoveAt(l, i) else l[i := t.node])
      && |TickedList(c, ns[..k + 1])| == (if t.gone then i else i + 1)
      && TickedTrace(c, ns[..k + 1]) == TickedTrace(c, ns[..k]) + TickTrace(t)
  {
    hide TickNode, TickTrace;
    assert ns[..k + 1][..k] == ns[..k];
    assert ns[k..] == [ns[k]] + ns[k + 1..];
  }

  function LoSum(x: byte, d: int): byte {
    Lo8(x + d)
  }

  lemma LoTotal(x: byte, a: nat, b: nat)
    ensures LoSum(x, a - b) == Lo8(x + a - b)
  {
  }

  lemma LoNone(x: byte)
    ensures LoSum(x, 0) == x
  {
  }

  lemma LoStep(x: byte, d: int)
    ensures Lo8(LoSum(x, d) - 1) == LoSum(x, d - 1)
  {
    var q := (x + d) / 0x100;
    assert x + d == 0x100 * q + LoSum(x, d);
  }

  // The id handed out by the n-th call of MessageIdGen.
  function MsgidAt(n: nat): uint16 {
    if n < 65534 then n + 1 else 1
  }

  // Two calls hand out the same id exactly when the later one comes after the counter has stuck and
  // the earlier one gave 1 as well.
  lemma MsgidRepeats(j: nat, k: nat)
    requires j < k
    ensures MsgidAt(j) == MsgidAt(k) <==> k >= 65534 && (j == 0 || j >= 65534)
  {
  }
}
