/**
 Writing a message into a byte buffer (coap_cloud/CoAPSerialize_common.c), and the separate
 functions that compute how long the result will be. `off` is where the C pointer stands in the
 buffer. Each method says which bytes it writes and that it touches no others.
 */
module CoapSerialize {
  import opened Words
  import opened CoapWire
  import opened CoapMessage

  // ---------------------------------------------------------------- what a run of options prints

  lemma {:induction false} OptionsBytesStep(os: seq<Opt>, i: nat)
    requires ValidOpts(os) && i < |os|
    ensures OptionsBytes(os[..i + 1]) == OptionsBytes(os[..i]) + OptionBytes(os[i])
  {
    var h := OptionBytes(os[0]);
    assert os[..i + 1][1..] == os[1..][..i];
    assert OptionsBytes(os[..i + 1]) == h + OptionsBytes(os[1..][..i]);
    if i == 0 {
      assert OptionsBytes(os[..0]) == [];
      assert OptionsBytes(os[1..][..0]) == [];
    } else {
      OptionsBytesStep(os[1..], i - 1);
      assert os[..i][1..] == os[1..][..i - 1];
      assert OptionsBytes(os[..i]) == h + OptionsBytes(os[1..][..i - 1]);
      Associative(h, OptionsBytes(os[1..][..i - 1]), OptionBytes(os[i]));
    }
  }

  lemma {:induction false} OptionsBytesPrefix(os: seq<Opt>, i: nat)
    requires ValidOpts(os) && i <= |os|
    ensures |OptionsBytes(os[..i])| <= |OptionsBytes(os)|
    decreases |os| - i
  {
    if i == |os| {
      assert os[..i] == os;
    } else {
      OptionsBytesStep(os, i);
      OptionsBytesPrefix(os, i + 1);
    }
  }

  // ---------------------------------------------------------------- the parts of a message

  method SerializeHeader(msg: CoAPMessage, buf: array<byte>, off: nat, buflen: nat) returns (n: nat)
    requires msg.Valid() && buf != msg.token && off + buflen <= buf.Length
    modifies buf
    ensures n == if 4 <= buflen then 4 else 0
    ensures buf[..] == Splice(old(buf[..]), off, if n == 4 then HeaderBytes(msg.View()) else [])
  {
    if 4 > buflen {
      return 0;
    }
    assert Pow2(4) == 16 && Pow2(6) == 64;
    OrDisjoint(msg.version, msg.mtype * 16, 6);
    OrDisjoint(msg.version * 4 + msg.mtype, msg.tokenlen, 4);
    buf[off] := Or(Or(msg.version as int * 64, msg.mtype as int * 16), msg.tokenlen);
    buf[off + 1] := msg.code;
    buf[off + 2] := msg.msgid / 0x100;
    buf[off + 3] := msg.msgid % 0x100;
    return 4;
  }

  method SerializeToken(msg: CoAPMessage, buf: array<byte>, off: nat, buflen: nat) returns (n: nat)
    requires msg.Valid() && buf != msg.token && off + buflen <= buf.Length
    modifies buf
    ensures n == if msg.tokenlen <= buflen then msg.tokenlen else 0
    ensures buf[..] == Splice(old(buf[..]), off, if n == msg.tokenlen then msg.View().token else [])
  {
    hide Splice;
    ghost var b, t := buf[..], msg.View().token;
    SpliceEmpty(b, off);
    if buflen < msg.tokenlen {
      return 0;
    }
    for i := 0 to msg.tokenlen
      invariant buf[..] == Splice(b, off, t[..i])
    {
      SpliceSnoc(b, off, t[..i], t[i]);
      assert t[..i + 1] == t[..i] + [t[i]];
      buf[off + i] := msg.token[i];
    }
    assert t[..|t|] == t;
    return msg.tokenlen;
  }

  // Writes the 8- or 16-bit extension of n; returns how many bytes it took.
  method SerializeExtension(n: uint16, buf: array<byte>, off: nat) returns (k: nat)
    requires off + |Extension(n)| <= buf.Length
    modifies buf
    ensures k == |Extension(n)|
    ensures buf[..] == Splice(old(buf[..]), off, Extension(n))
  {
    if 269 <= n {
      buf[off] := (n - 269) / 0x100 % 0x100;
      buf[off + 1] := (n - 269) % 0x100;
      return 2;
    } else if 13 <= n {
      buf[off] := n - 13;
      return 1;
    }
    return 0;
  }

  // The first byte of an option: the two nibbles, the length nibble OR-ed in.
  method SerializeNibbles(o: Opt, buf: array<byte>, ptr: nat)
    requires |o.val| < 0x1_0000 && ptr < buf.Length
    modifies buf
    ensures buf[..] == Splice(old(buf[..]), ptr, [Nibble(o.num) * 16 + Nibble(|o.val|)])
  {
    buf[ptr] := if 269 <= o.num then 14 * 16 else if 13 <= o.num then 13 * 16 else o.num * 16;
    assert Pow2(4) == 16;
    OrDisjoint(Nibble(o.num), Nibble(|o.val|), 4);
    if 269 <= |o.val| {
      buf[ptr] := Or(buf[ptr], 14);
    } else if 13 <= |o.val| {
      buf[ptr] := Or(buf[ptr], 13);
    } else {
      buf[ptr] := Or(buf[ptr], |o.val|);
    }
  }

  method SerializeOption(o: Opt, buf: array<byte>, off: nat) returns (n: uint16)
    requires |o.val| < 0x1_0000 && off + |OptionBytes(o)| <= buf.Length
    modifies buf
    ensures n == Lo16(|OptionBytes(o)|)
    ensures buf[..] == Splice(old(buf[..]), off, OptionBytes(o))
  {
    hide Splice;
    ghost var b := buf[..];
    ghost var e1, e2 := Extension(o.num), Extension(|o.val|);
    ghost var first: seq<byte> := [Nibble(o.num) * 16 + Nibble(|o.val|)];
    var ptr := off;
    SerializeNibbles(o, buf, ptr);
    ptr := ptr + 1;
    var k := SerializeExtension(o.num, buf, ptr);
    ptr := ptr + k;
    SpliceSplice(b, off, first, e1);
    k := SerializeExtension(|o.val|, buf, ptr);
    ptr := ptr + k;
    SpliceSplice(b, off, first + e1, e2);
    MemCpy(buf, ptr, o.val);
    ptr := ptr + |o.val|;
    SpliceSplice(b, off, first + e1 + e2, o.val);
    assert OptionBytes(o) == first + e1 + e2 + o.val;
    return Lo16(ptr - off);
  }

  // The C function does not look at the space left: the options have to fit.
  method SerializeOptions(msg: CoAPMessage, buf: array<byte>, off: nat) returns (count: uint16)
    requires msg.Valid() && buf != msg.token
    requires off + |OptionsBytes(msg.View().options)| <= buf.Length
    requires |OptionsBytes(msg.View().options)| < 0x1_0000
    modifies buf
    ensures count == |OptionsBytes(msg.View().options)|
    ensures buf[..] == Splice(old(buf[..]), off, OptionsBytes(msg.View().options))
  {
    hide Splice, OptionBytes;
    ghost var os := msg.View().options;
    count := 0;
    assert OptionsBytes(os[..0]) == [];
    SpliceEmpty(buf[..], off);
    for i := 0 to msg.optcount
      invariant count == |OptionsBytes(os[..i])| <= |OptionsBytes(os)|
      invariant buf[..] == Splice(old(buf[..]), off, OptionsBytes(os[..i]))
    {
      OptionsBytesStep(os, i);
      OptionsBytesPrefix(os, i + 1);
      SpliceSplice(old(buf[..]), off, OptionsBytes(os[..i]), OptionBytes(os[i]));
      var len := SerializeOption(msg.options[i], buf, off + count);
      if 0 < len {
        count := count + len;
      } else {
        assert false;
      }
    }
    assert os[..|os|] == os;
  }

  lemma PayloadSize(payload: seq<byte>)
    ensures |PayloadBytes(payload)| == if payload == [] then 0 else 1 + |payload|
  {
  }

  method SerializePayload(msg: CoAPMessage, buf: array<byte>, off: nat, buflen: nat) returns (n: nat)
    requires msg.Valid() && buf != msg.token && off + buflen <= buf.Length
    modifies buf
    ensures n == if msg.payloadlen + 1 <= buflen then |PayloadBytes(msg.View().payload)| else 0
    ensures buf[..] == Splice(old(buf[..]), off, if n > 0 then PayloadBytes(msg.View().payload) else [])
  {
    SpliceEmpty(buf[..], off);
    if msg.payloadlen + 1 > buflen {
      return 0;
    }
    if msg.payloadlen > 0 {
      SpliceSplice(buf[..], off, [PAYLOAD_MARKER], msg.payload);
      buf[off] := PAYLOAD_MARKER;
      assert buf[..] == Splice(old(buf[..]), off, [PAYLOAD_MARKER]);
      MemCpy(buf, off + 1, msg.payload);
      return msg.payloadlen + 1;
    } else {
      return 0;
    }
  }

  // ---------------------------------------------------------------- the whole message

  function Head(m: Msg, buflen: uint16): seq<byte>
    requires ValidMsg(m)
  {
    var h := if 4 <= buflen then HeaderBytes(m) else [];
    var t := if |m.token| <= buflen - |h| then m.token else [];
    h + t + OptionsBytes(m.options)
  }

  // What ends up in a buffer of buflen bytes: a header, token or payload that does not fit is left out.
  function Written(m: Msg, buflen: uint16): seq<byte>
    requires ValidMsg(m) && |Head(m, buflen)| <= buflen
  {
    var h := Head(m, buflen);
    h + if |m.payload| + 1 <= buflen - |h| then PayloadBytes(m.payload) else []
  }

  // The buffer holds the message of section 3 of RFC 7252 exactly when that message fits.
  lemma WrittenExact(m: Msg, buflen: uint16)
    requires ValidMsg(m) && |Head(m, buflen)| <= buflen
    ensures Written(m, buflen) == MsgBytes(m) <==> |MsgBytes(m)| <= buflen
  {
    if |MsgBytes(m)| <= buflen {
      assert Head(m, buflen) == HeaderBytes(m) + m.token + OptionsBytes(m.options);
    } else {
      assert |Written(m, buflen)| <= buflen;
    }
  }

  lemma HeadFits(m: Msg, buflen: uint16)
    requires ValidMsg(m) && |MsgBytes(m)| <= buflen
    ensures |Head(m, buflen)| <= buflen
  {
  }

  // What is left out: a payload that does not fit behind the rest, and in less than four bytes the header.
  lemma WrittenCut(m: Msg, buflen: uint16)
    requires ValidMsg(m) && |Head(m, buflen)| <= buflen
    ensures 4 + |m.token| + |OptionsBytes(m.options)| <= buflen < |MsgBytes(m)| ==>
      Written(m, buflen) == HeaderBytes(m) + m.token + OptionsBytes(m.options)
    ensures 4 <= buflen < 4 + |m.token| ==>
      Written(m, buflen)[..4 + |OptionsBytes(m.options)|] == HeaderBytes(m) + OptionsBytes(m.options)
    ensures buflen < 4 ==>
      var t := if |m.token| <= buflen then m.token else [];
      Written(m, buflen)[..|t| + |OptionsBytes(m.options)|] == t + OptionsBytes(m.options)
  {
    hide HeaderBytes, OptionsBytes;
    var h := Head(m, buflen);
    assert Written(m, buflen)[..|h|] == h;
    if 4 <= buflen < 4 + |m.token| {
      assert HeaderBytes(m) + [] + OptionsBytes(m.options) == HeaderBytes(m) + OptionsBytes(m.options);
    }
    if buflen < 4 {
      var t := if |m.token| <= buflen then m.token else [];
      assert [] + t + OptionsBytes(m.options) == t + OptionsBytes(m.options);
    }
  }

  method SerializeMessage(msg: CoAPMessage, buf: array<byte>, buflen: uint16) returns (n: nat)
    requires msg.Valid() && buf != msg.token && buflen <= buf.Length
    requires |Head(msg.View(), buflen)| <= buflen
    modifies buf
    ensures n == |Written(msg.View(), buflen)| <= buflen
    ensures buf[..] == Splice(old(buf[..]), 0, Written(msg.View(), buflen))
  {
    hide Splice, OptionsBytes, HeaderBytes, PayloadBytes;
    ghost var m, b := msg.View(), buf[..];
    ghost var h := if 4 <= buflen then HeaderBytes(m) else [];
    ghost var t := if |m.token| <= buflen - |h| then m.token else [];
    var ptr := 0;
    var remlen := buflen;
    var count := SerializeHeader(msg, buf, ptr, remlen);
    ptr, remlen := ptr + count, remlen - count;
    count := SerializeToken(msg, buf, ptr, remlen);
    ptr, remlen := ptr + count, remlen - count;
    assert buf[..] == Splice(Splice(b, 0, h), |h|, t);
    SpliceSplice(b, 0, h, t);
    count := SerializeOptions(msg, buf, ptr);
    ptr, remlen := ptr + count, remlen - count;
    SpliceSplice(b, 0, h + t, OptionsBytes(m.options));
    PayloadSize(m.payload);
    count := SerializePayload(msg, buf, ptr, remlen);
    ptr, remlen := ptr + count, remlen - count;
    assert Head(m, buflen) == h + t + OptionsBytes(m.options);
    ghost var p := if |m.payload| + 1 <= buflen - |Head(m, buflen)| then PayloadBytes(m.payload) else [];
    SpliceSplice(b, 0, Head(m, buflen), p);
    return buflen - remlen;
  }

  // ---------------------------------------------------------------- the length functions

  method SerializeOptionLen(o: Opt) returns (len: uint16)
    requires |o.val| < 0x1_0000
    ensures len == Lo16(|OptionBytes(o)|)
  {
    len := 1;
    if 269 <= o.num {
      len := len + 2;
    } else if 13 <= o.num {
      len := len + 1;
    }
    if 269 <= |o.val| {
      len := len + 2;
    } else if 13 <= |o.val| {
      len := len + 1;
    }
    len := Lo16(len + |o.val|);
  }

  method SerializeOptionsLen(msg: CoAPMessage) returns (count: uint16)
    requires msg.Valid()
    ensures count == |OptionsBytes(msg.View().options)| <==> |OptionsBytes(msg.View().options)| < 0x1_0000
  {
    hide OptionBytes;
    ghost var os := msg.View().options;
    ghost var fits := |OptionsBytes(os)| < 0x1_0000;
    count := 0;
    assert OptionsBytes(os[..0]) == [];
    for i := 0 to msg.optcount
      invariant fits ==> count == |OptionsBytes(os[..i])|
    {
      OptionsBytesStep(os, i);
      OptionsBytesPrefix(os, i + 1);
      var len := SerializeOptionLen(msg.options[i]);
      if 0 < len {
        count := Lo16(count + len);
      } else {
        return 0;
      }
    }
    assert os[..|os|] == os;
  }

  // The announced length is the number of bytes the message prints as, exactly while that number
  // fits an unsigned short.
  method SerializeMessageLength(msg: CoAPMessage) returns (msglen: uint16)
    requires msg.Valid()
    ensures msglen == |MsgBytes(msg.View())| <==> |MsgBytes(msg.View())| < 0x1_0000
  {
    hide OptionsBytes, HeaderBytes;
    msglen := 4;
    msglen := msglen + msg.tokenlen;
    var opts := SerializeOptionsLen(msg);
    msglen := Lo16(msglen + opts);
    if 0 < msg.payloadlen {
      msglen := Lo16(msglen + msg.payloadlen);
      msglen := Lo16(msglen + 1);
    }
  }
}
