/**
 Matching responses to requests by token (coap_cloud/iotx_coap_api.c: the token counter, its
 encoding, and IOT_CoAP_GetMessageToken; RFC 7252, section 5.3.2).
 */
module Correlation {
  import opened Words
  import opened CoapWire
  import opened CoapMessage
  import opened Retransmit
  import opened RetransmitFate

  const INIT_TOKEN: uint32 := 0x01020304

  // The four bytes of a token, lowest first.
  function TokenBytes(v: uint32): (t: seq<byte>)
    ensures |t| == 4
  {
    [v % 0x100, v / 0x100 % 0x100, v / 0x1_0000 % 0x100, v / 0x100_0000]
  }

  function TokenValue(t: seq<byte>): uint32
    requires |t| >= 4
  {
    t[3] as int * 0x100_0000 + t[2] as int * 0x1_0000 + t[1] as int * 0x100 + t[0]
  }

  // The four bytes are the number's digits, lowest first.
  predicate LowFirst(t: seq<byte>, v: nat) {
    |t| == 4 && v == t[0] as int + t[1] as int * 0x100 + t[2] as int * 0x1_0000 + t[3] as int * 0x100_0000
  }

  lemma TokenDigits(v: uint32)
    ensures LowFirst(TokenBytes(v), v)
  {
    TokenInverse(v);
  }

  lemma TokenInverse(v: uint32)
    ensures TokenValue(TokenBytes(v)) == v
  {
    var a := v / 0x100;
    var b := a / 0x100;
    var c := b / 0x100;
    QuotientIs(v, 0x1_0000, b, a % 0x100 * 0x100 + v % 0x100);
    QuotientIs(v, 0x100_0000, c, b % 0x100 * 0x1_0000 + a % 0x100 * 0x100 + v % 0x100);
  }

  // The token of the k-th request, counted from zero.
  function TokenAt(k: nat): seq<byte> {
    TokenBytes(Lo32(INIT_TOKEN + k))
  }

  // Two requests share a token exactly when they are a multiple of 2^32 requests apart.
  lemma TokensDistinct(j: nat, k: nat)
    ensures TokenAt(j) == TokenAt(k) <==> (j - k) % 0x1_0000_0000 == 0
  {
    hide TokenBytes, TokenValue, Lo32;
    SameResidue(INIT_TOKEN + j, INIT_TOKEN + k);
    TokenInverse(Lo32(INIT_TOKEN + j));
    TokenInverse(Lo32(INIT_TOKEN + k));
  }

  lemma SameResidue(x: int, y: int)
    ensures Lo32(x) == Lo32(y) <==> (x - y) % 0x1_0000_0000 == 0
  {
    var m := 0x1_0000_0000;
    assert x == x / m * m + Lo32(x) && y == y / m * m + Lo32(y);
    var q := x / m - y / m;
    assert x - y == q * m + (Lo32(x) - Lo32(y));
  }

  // The masks and shifts of the encoder pick the bytes.
  lemma MaskShift(v: uint32)
    ensures v % 0x1_0000 / 0x100 == v / 0x100 % 0x100
    ensures v % 0x100_0000 / 0x1_0000 == v / 0x1_0000 % 0x100
  {
    SecondByte(v / 0x1_0000, v / 0x100 % 0x100, v % 0x100, v);
    ThirdByte(v / 0x100_0000, v / 0x1_0000 % 0x100, v % 0x1_0000, v);
  }

  lemma SecondByte(h: nat, b: byte, l: byte, v: nat)
    requires v == 0x1_0000 * h + 0x100 * b + l
    ensures v % 0x1_0000 / 0x100 == b
  {
    assert v % 0x1_0000 == 0x100 * b as int + l;
  }

  lemma ThirdByte(h: nat, b: byte, l: uint16, v: nat)
    requires v == 0x100_0000 * h + 0x1_0000 * b + l
    ensures v % 0x100_0000 / 0x1_0000 == b
  {
    assert v % 0x100_0000 == 0x1_0000 * b as int + l;
  }

  lemma NextToken(token: uint32, n: nat)
    requires token == Lo32(n)
    ensures Lo32(token + 1) == Lo32(n + 1)
  {
    var q := n / 0x1_0000_0000;
    assert n + 1 == 0x1_0000_0000 * q + (token + 1);
  }

  class IotxCoap {
    var coapToken: uint32

    constructor ()
      ensures coapToken == INIT_TOKEN
    {
      coapToken := INIT_TOKEN;
    }

    // The k-th call, from a fresh context, hands out the k-th token.
    method GetCoapToken(ghost k: nat) returns (encoded: seq<byte>)
      requires coapToken == Lo32(INIT_TOKEN + k)
      modifies this
      ensures encoded == TokenAt(k) && coapToken == Lo32(INIT_TOKEN + k + 1)
      ensures LowFirst(encoded, (0x01020304 + k) % 0x1_0000_0000)
    {
      TokenDigits(Lo32(INIT_TOKEN + k));
      assert Lo32(INIT_TOKEN + k) == (0x01020304 + k) % 0x1_0000_0000;
      hide Lo32, LowFirst;
      var value := coapToken;
      MaskShift(value);
      encoded := [value % 0x100, value % 0x1_0000 / 0x100, value % 0x100_0000 / 0x1_0000, value / 0x100_0000];
      NextToken(coapToken, INIT_TOKEN + k);
      coapToken := Lo32(coapToken + 1);
    }
  }

  method GetMessageToken(msg: CoAPMessage) returns (token: uint32)
    requires msg.token.Length == MAX_TOKEN_LEN
    ensures token == TokenValue(msg.token[..4]) && LowFirst(msg.token[..4], token)
  {
    token := msg.token[3] as int * 0x100_0000;
    token := Lo32(token + msg.token[2] as int * 0x1_0000);
    token := Lo32(token + msg.token[1] as int * 0x100);
    token := Lo32(token + msg.token[0]);
  }

  // ---------------------------------------------------------------- runs of requests

  // Draws of the counter are numbered from zero. `draws[i]` is the draw whose token the i-th message sent
  // carries: later messages carry later draws, but a draw may never be sent, as when the path of the
  // request is refused or its payload cannot be encrypted after the token was drawn.
  ghost predicate Draws(draws: seq<nat>) {
    forall i, j :: 0 <= i < j < |draws| ==> draws[i] < draws[j] < draws[i] + 0x1_0000_0000
  }

  // From the k-th on, the messages sent carry the tokens of their draws.
  predicate Tokened(ins: seq<Input>, k: nat, draws: seq<nat>) {
    ins == []
    || (if ins[0].Send? then
          k < |draws| && ins[0].msg.token == TokenAt(draws[k]) && Tokened(ins[1..], k + 1, draws)
        else Tokened(ins[1..], k, draws))
  }

  ghost predicate TokensKept(s: State, draws: seq<nat>) {
    && s.nextId <= |draws|
    && forall n :: n in s.list ==> n.id < s.nextId && n.token == TokenAt(draws[n.id])
  }

  lemma StepTokens(c: Config, s: State, i: Input, draws: seq<nat>)
    requires TokensKept(s, draws) && ValidInput(i)
    requires i.Send? ==> s.nextId < |draws| && i.msg.token == TokenAt(draws[s.nextId])
    ensures TokensKept(Step(c, s, i), draws)
    ensures Step(c, s, i).nextId == s.nextId + (if i.Send? then 1 else 0)
  {
    hide MsgBytes, TickedList, TickedTrace, Matches, TokenAt;
    var s' := Step(c, s, i);
    if i.Tick? {
      forall n | n in s'.list ensures n.id < s.nextId && n.token == TokenAt(draws[n.id]) {
        TickKeeps(c, s.list, n);
        var k :| 0 <= k < |s.list| && !TickNode(c, s.list[k]).gone && n == TickNode(c, s.list[k]).node;
        TickSame(c, s.list[k]);
        assert s.list[k] in s.list;
      }
    } else if i.Recv? && IsAck(i.m) {
      forall n | n in s'.list ensures n.id < s.nextId && n.token == TokenAt(draws[n.id]) {
        var k :| 0 <= k < |s'.list| && s'.list[k] == n;
        assert s.list[k] in s.list;
      }
    }
  }

  lemma {:induction false} RunTokens(c: Config, s: State, ins: seq<Input>, draws: seq<nat>)
    requires TokensKept(s, draws) && ValidInputs(ins) && Tokened(ins, s.nextId, draws)
    ensures TokensKept(Run(c, s, ins), draws)
    decreases |ins|
  {
    if ins != [] {
      StepTokens(c, s, ins[0], draws);
      RunTokens(c, Step(c, s, ins[0]), ins[1..], draws);
    }
  }

  // In any run in which the tokens sent were drawn within 2^32 draws of each other, a response that
  // carries the token of request k answers request k if that is still listed, and then its handler is
  // the only one that runs; otherwise it leaves the list as it is and runs no handler.
  lemma ResponseCorrelation(c: Config, ins: seq<Input>, draws: seq<nat>, k: nat, m: Msg)
    requires ValidInputs(ins) && Draws(draws) && Tokened(ins, 0, draws)
    requires k < |draws| && IsResp(m) && m.token == TokenAt(draws[k])
    ensures var s, s' := Run(c, INIT, ins), DoRecv(Run(c, INIT, ins), m);
      if IdCount(s.list, k) == 1 then
        exists p :: 0 <= p < |s.list| && s.list[p].id == k && s'.list == RemoveAt(s.list, p)
                 && s'.trace == s.trace + AckTrace(m) + AnswerTrace(s.list[p])
      else
        s'.list == s.list && s'.trace == s.trace + AckTrace(m)
  {
    hide TokenAt, AckTrace, AnswerTrace, RemoveAt, Count;
    var s := Run(c, INIT, ins);
    RunTokens(c, INIT, ins, draws);
    OneFatePerRequest(c, ins);
    assert Fate(s, k);
    IdCountMember(s.list, k);
    var p := FindToken(s.list, m.token);
    TokenNonempty(draws[k]);
    if p < |s.list| {
      assert s.list[p] in s.list;
      TokensDistinct(draws[s.list[p].id], draws[k]);
      DrawsDiffer(draws, s.list[p].id, k);
    }
  }

  lemma DrawsDiffer(draws: seq<nat>, i: nat, k: nat)
    requires Draws(draws) && i < |draws| && k < |draws|
    ensures (draws[i] as int - draws[k]) % 0x1_0000_0000 == 0 <==> i == k
  {
  }

  lemma TokenNonempty(k: nat)
    ensures TokenAt(k) != []
  {
  }
}
