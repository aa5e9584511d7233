/**
 Reading a message out of a received datagram (coap_cloud/CoAPDeserialize_common.c). The parser only
 reads the receive buffer, so `buf` is a value here; `ptr` is where the C pointer stands in it. The
 parser trusts the lengths an option declares, so the methods are stated for datagrams whose options
 stay inside (OptionsFit, Datagram).
 */
module CoapDeserialize {
  import opened Words
  import opened CoapWire
  import opened CoapMessage
  import opened CoapSerialize

  method DeserializeHeader(msg: CoAPMessage, buf: seq<byte>) returns (n: nat)
    requires |buf| >= 4
    modifies msg`version, msg`mtype, msg`tokenlen, msg`code, msg`msgid
    ensures n == 4
    ensures msg.version == VersionOf(buf[0]) && msg.mtype == TypeOf(buf[0]) && msg.tokenlen == TokenLenOf(buf[0])
    ensures msg.code == buf[1] && msg.msgid == Word16(buf[2], buf[3])
  {
    msg.version := buf[0] / 64 % 4;
    msg.mtype := buf[0] / 16 % 4;
    msg.tokenlen := buf[0] % 16;
    msg.code := buf[1];
    msg.msgid := buf[2] as int * 0x100;
    msg.msgid := Lo16(msg.msgid + buf[3]);
    return 4;
  }

  method DeserializeToken(msg: CoAPMessage, buf: seq<byte>, ptr: nat) returns (n: nat)
    requires msg.tokenlen <= msg.token.Length && ptr + msg.tokenlen <= |buf|
    modifies msg.token
    ensures n == msg.tokenlen
    ensures msg.token[..n] == buf[ptr..ptr + n]
  {
    for i := 0 to msg.tokenlen
      invariant msg.token[..i] == buf[ptr..ptr + i]
    {
      msg.token[i] := buf[ptr + i];
    }
    return msg.tokenlen;
  }

  // Adds the value of a nibble and its extension bytes at p to a 16-bit accumulator.
  method DeserializeExtension(nibble: byte, buf: seq<byte>, p: nat, acc: uint16)
    returns (k: nat, v: uint16)
    requires p + ExtensionLen(nibble) <= |buf|
    ensures k == ExtensionLen(nibble)
    ensures v == Lo16(acc + Extended(nibble, buf[p..p + k]))
  {
    hide Lo16;
    v := acc;
    if 13 == nibble {
      v := Lo16(v + 13 + buf[p]);
      return 1, v;
    } else if 14 == nibble {
      v := Lo16(v + 269);
      Lo16Sum(acc + 269, buf[p] as int * 0x100);
      Lo16Sum(acc + 269 + buf[p] as int * 0x100, buf[p + 1]);
      v := Lo16(v + buf[p] as int * 0x100);
      v := Lo16(v + buf[p + 1]);
      return 2, v;
    } else {
      v := Lo16(v + nibble);
      return 0, v;
    }
  }

  // One option; returns its size and the running number.
  method DeserializeOption(msg: CoAPMessage, index: nat, buf: seq<byte>, ptr: nat, ghost end: nat,
                           predeltas: uint16) returns (size: nat, num: uint16)
    requires index < msg.options.Length && ptr <= end <= |buf| && OptionFits(buf[ptr..end])
    modifies msg.options
    ensures msg.options[..] == old(msg.options[..])[index := ParsedOption(buf[ptr..end], predeltas)]
    ensures size == OptionSize(buf[ptr..end])
    ensures num == ParsedOption(buf[ptr..end], predeltas).num
  {
    hide Extended, ExtensionLen;
    ghost var s := buf[ptr..end];
    var optdelta, optlen := buf[ptr] / 16, buf[ptr] % 16;
    var p := ptr + 1;
    var k, predelta := DeserializeExtension(optdelta, buf, p, predeltas);
    SubSlice(buf, ptr, end, 1, 1 + k);
    p := p + k;
    var j, len := DeserializeExtension(optlen, buf, p, 0);
    SubSlice(buf, ptr, end, 1 + k, 1 + k + j);
    p := p + j;
    SubSlice(buf, ptr, end, 1 + k + j, 1 + k + j + len);
    msg.options[index] := Opt(predelta, buf[p..p + len]);
    return p - ptr + len, predelta;
  }

  // One more option: what is parsed so far and what the rest parses to stay the same in all.
  lemma OptionsStep(buf: seq<byte>, ptr: nat, end: nat, pre: uint16, done: seq<Opt>)
    requires ptr < end <= |buf| && OptionsFit(buf[ptr..end]) && buf[ptr] != PAYLOAD_MARKER
    ensures var s := buf[ptr..end];
      && OptionFits(s) && ptr + OptionSize(s) <= end
      && var o, rest := ParsedOption(s, pre), buf[ptr + OptionSize(s)..end];
      && OptionsFit(rest) && AfterOptions(s) == AfterOptions(rest)
      && done + ParsedOptions(s, pre) == (done + [o]) + ParsedOptions(rest, o.num)
      && |done| < |done + ParsedOptions(s, pre)|
  {
    var s := buf[ptr..end];
    SubSlice(buf, ptr, end, OptionSize(s), |s|);
    var rest := s[OptionSize(s)..];
    Associative(done, [ParsedOption(s, pre)], ParsedOptions(rest, ParsedOption(s, pre).num));
  }

  lemma OptionsEnd(s: seq<byte>, pre: uint16)
    requires s == [] || s[0] == PAYLOAD_MARKER
    ensures OptionsFit(s) && ParsedOptions(s, pre) == [] && AfterOptions(s) == s
  {
  }

  method DeserializeOptions(msg: CoAPMessage, buf: seq<byte>, start: nat, buflen: nat) returns (n: nat)
    requires msg.options.Length == MAX_OPTION_NUM && start + buflen <= |buf| && buflen < 0x1_0000
    requires OptionsFit(buf[start..start + buflen])
    requires |ParsedOptions(buf[start..start + buflen], 0)| <= MAX_OPTION_NUM
    modifies msg`optcount, msg.options
    ensures msg.optcount <= MAX_OPTION_NUM
    ensures msg.options[..msg.optcount] == ParsedOptions(buf[start..start + buflen], 0)
    ensures n <= buflen && buf[start + n..start + buflen] == AfterOptions(buf[start..start + buflen])
  {
    hide OptionFits, OptionSize, ParsedOption, OptionsFit, ParsedOptions, AfterOptions;
    ghost var end := start + buflen;
    ghost var all := ParsedOptions(buf[start..end], 0);
    var ptr, count, index := start, 0, 0;
    var optdeltas: uint16 := 0;
    msg.optcount := 0;
    assert msg.options[..0] == [];
    while count < buflen && PAYLOAD_MARKER != buf[ptr]
      invariant 0 <= count <= buflen && ptr == start + count
      invariant index == msg.optcount as int <= MAX_OPTION_NUM
      invariant OptionsFit(buf[ptr..end])
      invariant all == msg.options[..index] + ParsedOptions(buf[ptr..end], optdeltas)
      invariant AfterOptions(buf[ptr..end]) == AfterOptions(buf[start..end])
    {
      ghost var s := buf[ptr..end];
      ghost var done := msg.options[..index];
      OptionsStep(buf, ptr, end, optdeltas, done);
      var size, num := DeserializeOption(msg, index, buf, ptr, end, optdeltas);
      assert msg.options[..index + 1] == done + [ParsedOption(s, optdeltas)];
      optdeltas := num;
      var len := Lo16(size);
      msg.optcount := Lo8(msg.optcount + 1);
      ptr := ptr + len;
      index := index + 1;
      count := count + len;
    }
    OptionsEnd(buf[ptr..end], optdeltas);
    assert msg.options[..index] + [] == msg.options[..index];
    return ptr - start;
  }

  // Looks at the byte at ptr even when nothing is left of the datagram.
  method DeserializePayload(msg: CoAPMessage, buf: seq<byte>, ptr: nat, buflen: nat) returns (n: nat)
    requires ptr + buflen <= |buf| && ptr < |buf| && buflen < 0x1_0000
    requires msg.payloadlen == 0 && msg.payload == []
    modifies msg`payload, msg`payloadlen
    ensures msg.payloadlen == ParsedPayloadLen(buf[ptr..ptr + buflen], buf[ptr])
    ensures msg.payload == ParsedPayload(buf[ptr..ptr + buflen])
  {
    ghost var s := buf[ptr..ptr + buflen];
    assert (s + [buf[ptr]])[0] == buf[ptr];
    var p := ptr;
    if PAYLOAD_MARKER == buf[p] {
      p := p + 1;
    } else {
      return 0;
    }
    msg.payloadlen := Lo16(buflen - 1);
    msg.payload := if buflen > 0 then buf[p..ptr + buflen] else [];
    assert s != [] ==> s[1..] == buf[p..ptr + buflen];
    return buflen;
  }

  // Nothing follows the options up to `end`: the byte there is looked at, and must not be the marker.
  predicate Guarded(rest: seq<byte>, buf: seq<byte>, end: nat) {
    rest == [] ==> end < |buf| && buf[end] != PAYLOAD_MARKER
  }

  // Options and payload.
  method DeserializeBody(msg: CoAPMessage, buf: seq<byte>, start: nat, buflen: nat)
    requires msg.options.Length == MAX_OPTION_NUM && start + buflen <= |buf| && buflen < 0x1_0000
    requires msg.payloadlen == 0 && msg.payload == []
    requires OptionsFit(buf[start..start + buflen])
    requires |ParsedOptions(buf[start..start + buflen], 0)| <= MAX_OPTION_NUM
    requires Guarded(AfterOptions(buf[start..start + buflen]), buf, start + buflen)
    modifies msg`optcount, msg.options, msg`payload, msg`payloadlen
    ensures msg.optcount <= MAX_OPTION_NUM
    ensures msg.options[..msg.optcount] == ParsedOptions(buf[start..start + buflen], 0)
    ensures msg.payload == ParsedPayload(AfterOptions(buf[start..start + buflen])) && msg.payloadlen == |msg.payload|
  {
    hide OptionsFit, ParsedOptions, AfterOptions, ParsedPayload, ParsedPayloadLen;
    var count := DeserializeOptions(msg, buf, start, buflen);
    var ptr, remlen := start + count, buflen - count;
    ghost var rest := buf[ptr..ptr + remlen];
    assert rest == AfterOptions(buf[start..start + buflen]);
    PayloadLenExact(rest, buf[ptr]);
    var _ := DeserializePayload(msg, buf, ptr, remlen);
  }

  // Header and token.
  method DeserializeHead(msg: CoAPMessage, buf: seq<byte>) returns (ptr: nat)
    requires |buf| >= 4 && msg.token.Length == MAX_TOKEN_LEN
    requires TokenLenOf(buf[0]) <= MAX_TOKEN_LEN && 4 + TokenLenOf(buf[0]) <= |buf|
    modifies msg`version, msg`mtype, msg`tokenlen, msg`code, msg`msgid, msg.token
    ensures msg.version == VersionOf(buf[0]) && msg.mtype == TypeOf(buf[0]) && msg.tokenlen == TokenLenOf(buf[0])
    ensures msg.code == buf[1] && msg.msgid == Word16(buf[2], buf[3])
    ensures ptr == 4 + msg.tokenlen && msg.token[..msg.tokenlen] == buf[4..ptr]
  {
    ptr := DeserializeHeader(msg, buf);
    var count := DeserializeToken(msg, buf, ptr);
    ptr := ptr + count;
  }

  // Into a cleared message record. CoAPNetwork_read clears the buffer before every read, so the byte
  // behind a datagram that ends with its options is not the payload marker.
  method DeserializeMessage(msg: CoAPMessage, buf: seq<byte>, buflen: nat) returns (r: Status)
    requires msg.token.Length == MAX_TOKEN_LEN && msg.options.Length == MAX_OPTION_NUM
    requires msg.payloadlen == 0 && msg.payload == []
    requires buflen <= |buf|
    requires 4 <= buflen ==> Datagram(buf[..buflen])
    requires 4 <= buflen ==> Guarded(AfterOptions(Body(buf[..buflen])), buf, buflen)
    modifies msg, msg.token, msg.options
    ensures r == if buflen < 4 then InvalidLength else Success
    ensures r == InvalidLength ==> msg.code == old(msg.code) && msg.mtype == old(msg.mtype)
    ensures r == Success ==> msg.Valid() && msg.View() == ParsedMsg(buf[..buflen])
  {
    if buflen < 4 {
      return InvalidLength;
    }
    hide OptionsFit, ParsedOptions, AfterOptions, ParsedPayload, Guarded;
    hide Word16, VersionOf, TypeOf, TokenLenOf, Datagram, Body, ParsedMsg, ValidOpts;
    DatagramParts(buf, buflen);
    var ptr := DeserializeHead(msg, buf);
    DeserializeBody(msg, buf, ptr, buflen - ptr);
    return Success;
  }

  // The pieces of a datagram, by their place in the buffer.
  lemma DatagramParts(b: seq<byte>, n: nat)
    requires n <= |b| && Datagram(b[..n])
    ensures 4 <= n < 0x1_0000 && TokenLenOf(b[0]) <= MAX_TOKEN_LEN && 4 + TokenLenOf(b[0]) <= n
    ensures var tkl := TokenLenOf(b[0]);
      var body := b[4 + tkl..n];
      && body == Body(b[..n])
      && OptionsFit(body) && |ParsedOptions(body, 0)| <= MAX_OPTION_NUM && ValidOpts(ParsedOptions(body, 0))
      && ParsedMsg(b[..n]) == Msg(VersionOf(b[0]), TypeOf(b[0]), b[1], Word16(b[2], b[3]), b[4..4 + tkl],
                                  ParsedOptions(body, 0), ParsedPayload(AfterOptions(body)))
  {
    var tkl := TokenLenOf(b[0]);
    SubSlice(b, 0, n, 4, 4 + tkl);
    SubSlice(b, 0, n, 4 + tkl, n);
    ParsedOptionsValid(b[4 + tkl..n], 0);
  }

  lemma {:induction false} ParsedOptionsValid(s: seq<byte>, pre: uint16)
    requires OptionsFit(s) && |s| < 0x1_0000
    ensures ValidOpts(ParsedOptions(s, pre))
  {
    if s != [] && s[0] != PAYLOAD_MARKER {
      ParsedOptionsValid(s[OptionSize(s)..], ParsedOption(s, pre).num);
    }
  }

  // An integer option that is the first of its number is read back from the received message as the
  // value that was added, whatever 32-bit value that is.
  lemma UintOverTheWire(m: Msg, added: seq<Opt>, num: uint16, v: uint32)
    requires ValidMsg(m) && |MsgBytes(m)| < 0x1_0000
    requires m.options == Deltas(added, 0) && NarrowButLast(added)
    requires HasOpt(added, num) && FirstOpt(added, num).val == UintBytes(v)
    ensures Datagram(MsgBytes(m)) && HasOpt(ParsedMsg(MsgBytes(m)).options, num)
    ensures UintRead(FirstOpt(ParsedMsg(MsgBytes(m)).options, num).val, 0) == v
  {
    CodecInverse(m, added);
    UintInverse(v);
  }

  // ---------------------------------------------------------------- writer and parser on one buffer

  // A message built by the add functions, written by the serializer and parsed from the same buffer,
  // arrives with everything it was given exactly when no option number but the last exceeds 255.
  method OverTheWire(msg: CoAPMessage, buf: array<byte>, buflen: uint16) returns (received: CoAPMessage)
    requires msg.Built() && buf != msg.token && buflen <= buf.Length && |MsgBytes(msg.View())| <= buflen
    requires |MsgBytes(msg.View())| == buf.Length ==> msg.payload != []
    requires forall i :: 0 <= i < buf.Length ==> buf[i] == 0
    modifies buf
    ensures fresh(received) && received.Valid()
    ensures received.View() == msg.View().(options := msg.added) <==> NarrowButLast(msg.added)
  {
    hide MsgBytes, Splice, Written, Head, Datagram, ParsedMsg, AfterOptions, NarrowButLast, Absolute, Deltas;
    ghost var m, b := msg.View(), buf[..];
    HeadFits(m, buflen);
    WrittenExact(m, buflen);
    MsgInverse(m);
    CodecInverse(m, msg.added);
    var n := SerializeMessage(msg, buf, buflen);
    SplicePrefix(b, MsgBytes(m), n);
    received := new CoAPMessage.Init();
    GuardKept(b, MsgBytes(m));
    assert buf[..][..n] == MsgBytes(m);
    var _ := DeserializeMessage(received, buf[..], n);
  }

  lemma GuardKept(b: seq<byte>, s: seq<byte>)
    requires |s| <= |b| && forall i :: 0 <= i < |b| ==> b[i] == 0
    ensures |s| < |b| ==> Splice(b, 0, s)[|s|] == 0
  {
  }
}
