/**
 The CoAP wire format (RFC 7252, section 3) as values: what a message is, the bytes that stand
 for it, and what a parser makes of a byte string. The methods of CoapSerialize and
 CoapDeserialize are proved against the two halves of this file; the lemmas say the halves are
 each other's inverse.
 */
module CoapWire {
  import opened Words

  const MAX_TOKEN_LEN := 8
  const MAX_OPTION_NUM := 12
  const PAYLOAD_MARKER: byte := 0xFF

  type bits2 = x: int | 0 <= x < 4

  /** An option as stored: `num` is a difference in a message being built, absolute in a parsed one. */
  datatype Opt = Opt(num: uint16, val: seq<byte>)

  datatype Msg = Msg(version: bits2, mtype: bits2, code: byte, msgid: uint16,
                     token: seq<byte>, options: seq<Opt>, payload: seq<byte>)

  predicate ValidOpts(os: seq<Opt>) {
    forall i :: 0 <= i < |os| ==> |os[i].val| < 0x1_0000
  }

  predicate ValidMsg(m: Msg) {
    && |m.token| <= MAX_TOKEN_LEN
    && |m.options| <= MAX_OPTION_NUM
    && ValidOpts(m.options)
    && |m.payload| < 0x1_0000
  }

  // ---------------------------------------------------------------- printing

  function Nibble(n: uint16): (d: byte)
    ensures d <= 14
  {
    if n >= 269 then 14 else if n >= 13 then 13 else n
  }

  function Extension(n: uint16): (s: seq<byte>)
    ensures |s| <= 2
  {
    if n >= 269 then [(n - 269) / 256, (n - 269) % 256] else if n >= 13 then [n - 13] else []
  }

  function OptionBytes(o: Opt): (s: seq<byte>)
    requires |o.val| < 0x1_0000
    ensures |s| >= 1
  {
    [Nibble(o.num) * 16 + Nibble(|o.val|)] + Extension(o.num) + Extension(|o.val|) + o.val
  }

  function OptionsBytes(os: seq<Opt>): seq<byte>
    requires ValidOpts(os)
  {
    if os == [] then [] else OptionBytes(os[0]) + OptionsBytes(os[1..])
  }

  function HeaderBytes(m: Msg): (s: seq<byte>)
    requires |m.token| <= MAX_TOKEN_LEN
    ensures |s| == 4
  {
    [m.version * 64 + m.mtype * 16 + |m.token|, m.code, m.msgid / 256, m.msgid % 256]
  }

  function PayloadBytes(payload: seq<byte>): seq<byte> {
    if payload == [] then [] else [PAYLOAD_MARKER] + payload
  }

  function MsgBytes(m: Msg): seq<byte>
    requires ValidMsg(m)
  {
    HeaderBytes(m) + m.token + OptionsBytes(m.options) + PayloadBytes(m.payload)
  }

  // ---------------------------------------------------------------- parsing

  // Number of extension bytes announced by a nibble. The parser gives 15 no special meaning.
  function ExtensionLen(nibble: byte): nat {
    if nibble == 13 then 1 else if nibble == 14 then 2 else 0
  }

  // The value of a nibble with its extension bytes, before truncation to 16 bits.
  function Extended(nibble: byte, ext: seq<byte>): nat
    requires |ext| == ExtensionLen(nibble)
  {
    if nibble == 13 then 13 + ext[0]
    else if nibble == 14 then 269 + ext[0] * 256 + ext[1]
    else nibble
  }

  // The two nibbles' extensions lie inside s.
  predicate OptionHeadFits(s: seq<byte>) {
    |s| >= 1 && 1 + ExtensionLen(s[0] / 16) + ExtensionLen(s[0] % 16) <= |s|
  }

  function OptionHeadLen(s: seq<byte>): (n: nat)
    requires OptionHeadFits(s)
    ensures 1 <= n <= |s|
  {
    1 + ExtensionLen(s[0] / 16) + ExtensionLen(s[0] % 16)
  }

  function ParsedDelta(s: seq<byte>): nat
    requires OptionHeadFits(s)
  {
    Extended(s[0] / 16, s[1..1 + ExtensionLen(s[0] / 16)])
  }

  function ParsedLen(s: seq<byte>): uint16
    requires OptionHeadFits(s)
  {
    Lo16(Extended(s[0] % 16, s[1 + ExtensionLen(s[0] / 16)..OptionHeadLen(s)]))
  }

  // An option whose declared length stays inside s.
  predicate OptionFits(s: seq<byte>) {
    OptionHeadFits(s) && OptionHeadLen(s) + ParsedLen(s) <= |s|
  }

  function OptionSize(s: seq<byte>): (n: nat)
    requires OptionFits(s)
    ensures 1 <= n <= |s|
  {
    OptionHeadLen(s) + ParsedLen(s)
  }

  // One option; `pre` is the number of the option before it.
  function ParsedOption(s: seq<byte>, pre: uint16): Opt
    requires OptionFits(s)
  {
    Opt(Lo16(pre + ParsedDelta(s)), s[OptionHeadLen(s)..OptionSize(s)])
  }

  // Every option up to the payload marker or the end keeps to its declared length.
  predicate OptionsFit(s: seq<byte>) {
    s == [] || s[0] == PAYLOAD_MARKER || (OptionFits(s) && OptionsFit(s[OptionSize(s)..]))
  }

  function ParsedOptions(s: seq<byte>, pre: uint16): seq<Opt>
    requires OptionsFit(s)
  {
    if s == [] || s[0] == PAYLOAD_MARKER then []
    else
      var o := ParsedOption(s, pre);
      [o] + ParsedOptions(s[OptionSize(s)..], o.num)
  }

  // What is left for the payload.
  function AfterOptions(s: seq<byte>): (rest: seq<byte>)
    requires OptionsFit(s)
    ensures |rest| <= |s|
  {
    if s == [] || s[0] == PAYLOAD_MARKER then s else AfterOptions(s[OptionSize(s)..])
  }

  // The payload length the parser stores, given the byte that follows the datagram in the buffer.
  function ParsedPayloadLen(s: seq<byte>, guard: byte): uint16 {
    if (s + [guard])[0] == PAYLOAD_MARKER then Lo16(|s| - 1) else 0
  }

  function ParsedPayload(s: seq<byte>): seq<byte> {
    if s != [] && s[0] == PAYLOAD_MARKER then s[1..] else []
  }

  function Word16(hi: byte, lo: byte): uint16 {
    hi as int * 256 + lo as int
  }

  function VersionOf(first: byte): bits2 {
    first / 64
  }

  function TypeOf(first: byte): bits2 {
    first / 16 % 4
  }

  function TokenLenOf(first: byte): (n: nat)
    ensures n < 16
  {
    first % 16
  }

  // A datagram the parser handles within its bounds.
  predicate Datagram(s: seq<byte>) {
    && 4 <= |s| < 0x1_0000
    && TokenLenOf(s[0]) <= MAX_TOKEN_LEN
    && 4 + TokenLenOf(s[0]) <= |s|
    && OptionsFit(s[4 + TokenLenOf(s[0])..])
    && |ParsedOptions(s[4 + TokenLenOf(s[0])..], 0)| <= MAX_OPTION_NUM
  }

  function Body(s: seq<byte>): seq<byte>
    requires Datagram(s)
  {
    s[4 + TokenLenOf(s[0])..]
  }

  function ParsedMsg(s: seq<byte>): Msg
    requires Datagram(s)
  {
    Msg(VersionOf(s[0]), TypeOf(s[0]), s[1], Word16(s[2], s[3]), s[4..4 + TokenLenOf(s[0])],
        ParsedOptions(Body(s), 0), ParsedPayload(AfterOptions(Body(s))))
  }

  // ---------------------------------------------------------------- option numbers

  // The absolute numbers a run of differences stands for, as a 16-bit accumulator sums them.
  function Absolute(os: seq<Opt>, pre: uint16): (r: seq<Opt>)
    ensures |r| == |os|
  {
    if os == [] then []
    else
      var n := Lo16(pre + os[0].num);
      [Opt(n, os[0].val)] + Absolute(os[1..], n)
  }

  // The differences the builder stores: `optdelta` keeps only the low byte of the last number.
  function Deltas(os: seq<Opt>, last: byte): (r: seq<Opt>)
    ensures |r| == |os|
  {
    if os == [] then []
    else [Opt(Lo16(os[0].num - last), os[0].val)] + Deltas(os[1..], Lo8(os[0].num))
  }

  // All numbers but the last one fit the builder's unsigned char.
  ghost predicate NarrowButLast(os: seq<Opt>) {
    forall i :: 0 <= i < |os| - 1 ==> os[i].num <= 255
  }

  // ---------------------------------------------------------------- printing and parsing are inverse

  lemma ExtensionInverse(n: uint16)
    ensures |Extension(n)| == ExtensionLen(Nibble(n))
    ensures Extended(Nibble(n), Extension(n)) == n
  {
  }

  // The bytes of the header (RFC 7252, section 3), by what they are worth.
  lemma HeaderFormat(m: Msg)
    requires |m.token| <= 8
    ensures var h := HeaderBytes(m);
      && h[0] / 64 == m.version && h[0] / 16 % 4 == m.mtype && h[0] % 16 == |m.token|
      && h[1] == m.code && h[2] as int * 256 + h[3] as int == m.msgid
  {
  }

  // A number of an option, as its nibble and extension bytes give it (RFC 7252, section 3.1). The nibble
  // 15 is reserved there; the parser takes it for the number 15.
  ghost predicate Reads(nibble: byte, ext: seq<byte>, n: int) {
    if nibble == 13 then |ext| == 1 && n == 13 + ext[0] as int
    else if nibble == 14 then |ext| == 2 && n == 269 + 256 * ext[0] as int + ext[1] as int
    else |ext| == 0 && n == nibble
  }

  // An option as written: a byte of two nibbles, none of them 15, the extension of the difference, the
  // extension of the length, the value.
  lemma OptionFormat(o: Opt)
    requires |o.val| < 0x1_0000
    ensures var s := OptionBytes(o);
      && s != [] && s[0] / 16 < 15 && s[0] % 16 < 15
      && exists a, b :: 1 <= a <= b <= |s| && s[b..] == o.val
                     && Reads(s[0] / 16, s[1..a], o.num) && Reads(s[0] % 16, s[a..b], |o.val|)
  {
    var s := OptionBytes(o);
    var a := 1 + |Extension(o.num)|;
    var b := a + |Extension(|o.val|)|;
    assert s[1..a] == Extension(o.num) && s[a..b] == Extension(|o.val|) && s[b..] == o.val;
  }

  // The head ends at b, the difference is d and the length n, which wraps at 16 bits as the number does.
  ghost predicate ReadAs(s: seq<byte>, pre: uint16, a: nat, b: nat, d: nat, n: nat)
    requires OptionFits(s)
  {
    && 1 <= a <= b && b + n % 0x1_0000 <= |s|
    && Reads(s[0] / 16, s[1..a], d) && Reads(s[0] % 16, s[a..b], n)
    && OptionSize(s) == b + n % 0x1_0000
    && ParsedOption(s, pre) == Opt((pre + d) % 0x1_0000, s[b..b + n % 0x1_0000])
  }

  // An option as read, from any bytes it fits.
  lemma ParsedFormat(s: seq<byte>, pre: uint16)
    requires OptionFits(s)
    ensures exists a, b, d, n :: ReadAs(s, pre, a, b, d, n)
  {
    var a := 1 + ExtensionLen(s[0] / 16);
    var b := OptionHeadLen(s);
    assert ReadAs(s, pre, a, b, Extended(s[0] / 16, s[1..a]), Extended(s[0] % 16, s[a..b]));
  }

  // The payload stands behind the byte 0xFF; an empty one leaves no trace.
  lemma PayloadFormat(payload: seq<byte>)
    ensures PayloadBytes(payload) == if |payload| == 0 then [] else [0xFF as byte] + payload
  {
  }

  lemma OptionInverse(o: Opt, rest: seq<byte>, pre: uint16)
    requires |o.val| < 0x1_0000
    ensures OptionBytes(o) + rest != [] && (OptionBytes(o) + rest)[0] != PAYLOAD_MARKER
    ensures OptionFits(OptionBytes(o) + rest)
    ensures OptionSize(OptionBytes(o) + rest) == |OptionBytes(o)|
    ensures ParsedOption(OptionBytes(o) + rest, pre) == Opt(Lo16(pre + o.num), o.val)
  {
    hide Extension, Nibble, Extended, ExtensionLen;
    var s := OptionBytes(o) + rest;
    ExtensionInverse(o.num);
    ExtensionInverse(|o.val|);
    var a, b := |Extension(o.num)|, |Extension(|o.val|)|;
    assert s[0] / 16 == Nibble(o.num) && s[0] % 16 == Nibble(|o.val|);
    assert s[1..1 + a] == Extension(o.num);
    assert s[1 + a..1 + a + b] == Extension(|o.val|);
    assert s[1 + a + b..|OptionBytes(o)|] == o.val;
  }

  lemma {:induction false} OptionsInverse(os: seq<Opt>, rest: seq<byte>, pre: uint16)
    requires ValidOpts(os)
    requires rest == [] || rest[0] == PAYLOAD_MARKER
    ensures OptionsFit(OptionsBytes(os) + rest)
    ensures ParsedOptions(OptionsBytes(os) + rest, pre) == Absolute(os, pre)
    ensures AfterOptions(OptionsBytes(os) + rest) == rest
  {
    hide OptionBytes, OptionFits, OptionSize, ParsedOption, Lo16;
    if os == [] {
      assert OptionsBytes(os) + rest == rest;
    } else {
      var tail := OptionsBytes(os[1..]) + rest;
      var s := OptionsBytes(os) + rest;
      assert s == OptionBytes(os[0]) + tail;
      OptionInverse(os[0], tail, pre);
      assert s[|OptionBytes(os[0])|..] == tail;
      OptionsInverse(os[1..], rest, Lo16(pre + os[0].num));
    }
  }

  lemma HeaderInverse(m: Msg)
    requires |m.token| <= MAX_TOKEN_LEN
    ensures var h := HeaderBytes(m);
      VersionOf(h[0]) == m.version && TypeOf(h[0]) == m.mtype && TokenLenOf(h[0]) == |m.token| &&
      h[1] == m.code && Word16(h[2], h[3]) == m.msgid
  {
  }

  // Parsing what was printed gives the message back, its option numbers summed up; the payload may
  // hold any bytes, the marker included.
  lemma MsgInverse(m: Msg)
    requires ValidMsg(m) && |MsgBytes(m)| < 0x1_0000
    ensures Datagram(MsgBytes(m))
    ensures ParsedMsg(MsgBytes(m)) == m.(options := Absolute(m.options, 0))
    ensures AfterOptions(Body(MsgBytes(m))) == PayloadBytes(m.payload)
  {
    hide OptionsFit, ParsedOptions, AfterOptions, OptionsBytes;
    var s, h := MsgBytes(m), HeaderBytes(m);
    var body := OptionsBytes(m.options) + PayloadBytes(m.payload);
    HeaderInverse(m);
    OptionsInverse(m.options, PayloadBytes(m.payload), 0);
    assert s == h + m.token + body && s[..4] == h;
    assert s[0] == h[0] && s[1] == h[1] && s[2] == h[2] && s[3] == h[3];
    assert s[4..4 + |m.token|] == m.token;
    assert s[4 + |m.token|..] == body;
    assert ParsedPayload(PayloadBytes(m.payload)) == m.payload;
  }

  // The payload length is read correctly exactly when the datagram does not end with its options or
  // the byte behind it is not the payload marker.
  lemma PayloadLenExact(s: seq<byte>, guard: byte)
    requires |s| < 0x1_0000
    ensures ParsedPayloadLen(s, guard) == |ParsedPayload(s)| <==> s != [] || guard != PAYLOAD_MARKER
  {
  }

  // ---------------------------------------------------------------- delta encoding

  lemma NarrowTail(os: seq<Opt>)
    requires os != []
    ensures NarrowButLast(os) <==> |os| == 1 || (os[0].num <= 255 && NarrowButLast(os[1..]))
  {
    if |os| > 1 && os[0].num <= 255 && NarrowButLast(os[1..]) {
      forall i | 0 <= i < |os| - 1 ensures os[i].num <= 255 {
        if i > 0 {
          assert os[i] == os[1..][i - 1];
        }
      }
    }
  }

  lemma EmptyNarrow(os: seq<Opt>)
    ensures os == [] ==> NarrowButLast(os)
  {
  }

  lemma WrapBack(last: int, n: uint16)
    ensures Lo16(last + Lo16(n - last)) == n
  {
  }

  // The sum after a number above 255 is off by a multiple of 256 that is not one of 65536.
  lemma WideDelta(n: uint16, next: uint16)
    requires n > 255
    ensures Lo16(n + Lo16(next - Lo8(n))) != next
  {
    var q := n / 256;
    assert n == 256 * q + Lo8(n) && 1 <= q <= 255;
    assert Lo16(n + Lo16(next - Lo8(n))) == (next + 256 * q) % 0x1_0000;
  }

  // Summing up the stored differences returns the numbers that were added, in whatever order they
  // were added, exactly when every number but the last fits one byte.
  lemma {:induction false} DeltaExact(os: seq<Opt>, last: byte)
    ensures Absolute(Deltas(os, last), last) == os <==> NarrowButLast(os)
  {
    hide Lo16, NarrowButLast;
    if os == [] {
      assert NarrowButLast(os) by { EmptyNarrow(os); }
    } else {
      var n := os[0].num;
      var ds := Deltas(os, last);
      var rest := Absolute(Deltas(os[1..], Lo8(n)), n);
      WrapBack(last, n);
      NarrowTail(os);
      assert Absolute(ds, last) == [os[0]] + rest;
      assert os == [os[0]] + os[1..];
      assert Absolute(ds, last) == os <==> rest == os[1..] by {
        assert Absolute(ds, last)[1..] == rest;
      }
      if |os| == 1 || n <= 255 {
        DeltaExact(os[1..], Lo8(n));
        EmptyNarrow(os[1..]);
      } else {
        WideDelta(n, os[1].num);
        assert rest[0].num == Lo16(n + Lo16(os[1].num - Lo8(n)));
        assert rest[0] != os[1..][0];
      }
    }
  }

  ghost predicate Sorted(os: seq<Opt>) {
    forall i, j :: 0 <= i < j < |os| ==> os[i].num <= os[j].num
  }

  // Numbers added in non-decreasing order are stored as their plain differences, the option deltas
  // of RFC 7252, section 3.1.
  lemma {:induction false} SortedDeltas(os: seq<Opt>, last: byte, i: nat)
    requires NarrowButLast(os) && Sorted(os) && i < |os|
    requires os[0].num >= last
    ensures Deltas(os, last)[i]
         == Opt(os[i].num - (if i == 0 then last else os[i - 1].num), os[i].val)
  {
    if i > 0 {
      NarrowTail(os);
      SortedDeltas(os[1..], os[0].num, i - 1);
    }
  }

  // The codec inverse: a message whose options were added under the numbers `added` comes back from
  // the wire with those numbers and values exactly when only the last number may exceed 255.
  lemma CodecInverse(m: Msg, added: seq<Opt>)
    requires ValidMsg(m) && |MsgBytes(m)| < 0x1_0000
    requires m.options == Deltas(added, 0)
    ensures Datagram(MsgBytes(m))
    ensures ParsedMsg(MsgBytes(m)) == m.(options := added) <==> NarrowButLast(added)
  {
    MsgInverse(m);
    DeltaExact(added, 0);
  }
}
