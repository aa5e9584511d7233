/**
 The CoAP message record and the functions that build it and read its options
 (coap_cloud/CoAPMessage_common.c).
 */
module CoapMessage {
  import opened Words
  import opened CoapWire

  datatype Status = Success | NullParam | InvalidParam | InvalidLength | NotFound | DataSize | WriteFailed

  const TYPE_CON: bits2 := 0
  const TYPE_NON: bits2 := 1
  const TYPE_ACK: bits2 := 2
  const TYPE_RST: bits2 := 3

  // ---------------------------------------------------------------- integer option values

  // The bytes CoAPUintOption_add stores. Values above 65535 always take four bytes.
  function UintBytes(v: uint32): (s: seq<byte>)
    ensures |s| <= 4
  {
    if v == 0 then []
    else if v <= 0xFF then [v]
    else if v <= 0xFFFF then [v / 0x100, v % 0x100]
    else [v / 0x100_0000, v / 0x1_0000 % 0x100, v / 0x100 % 0x100, v % 0x100]
  }

  // What CoAPUintOption_get leaves in a variable that held `acc`: it ORs the bytes in.
  function UintRead(val: seq<byte>, acc: nat): nat {
    match |val|
    case 1 => Or(acc, val[0])
    case 2 => Or(Or(acc, val[0] as int * 0x100), val[1])
    case 3 => Or(Or(Or(acc, val[0] as int * 0x1_0000), val[1] as int * 0x100), val[2])
    case 4 => Or(Or(Or(Or(acc, val[0] as int * 0x100_0000), val[1] as int * 0x1_0000),
                    val[2] as int * 0x100), val[3])
    case _ => 0
  }

  lemma ReadOne(v: uint32)
    requires v <= 0xFF
    ensures UintRead(UintBytes(v), 0) == v
  {
  }

  lemma ReadTwo(c: byte, d: byte)
    ensures UintRead([c, d], 0) == c as int * 0x100 + d
  {
    assert Pow2(8) == 0x100;
    OrDisjoint(c, d, 8);
    assert Or(0, c as int * 0x100) == c as int * 0x100;
  }

  lemma ReadFour(a: byte, b: byte, c: byte, d: byte)
    ensures UintRead([a, b, c, d], 0)
         == a as int * 0x100_0000 + b as int * 0x1_0000 + c as int * 0x100 + d
  {
    assert Pow2(8) == 0x100;
    assert Pow2(16) == 0x1_0000;
    assert Pow2(24) == 0x100_0000;
    var ab := a as int * 0x100 + b;
    var abc := ab * 0x100 + c;
    OrDisjoint(a, b as int * 0x1_0000, 24);
    OrDisjoint(ab, c as int * 0x100, 16);
    OrDisjoint(abc, d, 8);
    assert Or(0, a as int * 0x100_0000) == a as int * 0x100_0000;
  }

  lemma UintInverse(v: uint32)
    ensures UintRead(UintBytes(v), 0) == v
  {
    hide UintRead;
    if v > 0xFFFF {
      ReadFour(v / 0x100_0000, v / 0x1_0000 % 0x100, v / 0x100 % 0x100, v % 0x100);
      assert v / 0x1_0000 == v / 0x100_0000 * 0x100 + v / 0x1_0000 % 0x100;
    } else if v > 0xFF {
      ReadTwo(v / 0x100, v % 0x100);
    } else {
      ReadOne(v);
    }
  }

  // The width and the digits of a stored integer.
  lemma UintWidth(v: uint32)
    ensures var s := UintBytes(v);
      && (|s| == 0 <==> v == 0) && (|s| == 1 <==> 1 <= v <= 255)
      && (|s| == 2 <==> 256 <= v <= 65535) && (|s| == 4 <==> 65536 <= v)
      && BigEndian(s) == v
  {
    hide BigEndian;
    BigEndianOf(UintBytes(v));
    if v == 0 {
      EmptyBigEndian();
    } else if v > 0xFFFF {
      FourDigits(v);
    }
  }

  lemma EmptyBigEndian()
    ensures BigEndian([]) == 0
  {
  }

  lemma FourDigits(v: uint32)
    ensures v == v / 0x100_0000 * 0x100_0000 + v / 0x1_0000 % 0x100 * 0x1_0000 + v / 0x100 % 0x100 * 0x100 + v % 0x100
  {
    assert v / 0x1_0000 == v / 0x100_0000 * 0x100 + v / 0x1_0000 % 0x100;
  }

  // Of a value of one to four bytes the reader returns the number it stands for, of any other zero.
  lemma UintReadValue(val: seq<byte>)
    ensures UintRead(val, 0) == if 1 <= |val| <= 4 then BigEndian(val) else 0
  {
    hide UintRead;
    BigEndianOf(val);
    if |val| == 1 {
      ReadLen1(val);
    } else if |val| == 2 {
      ReadTwo(val[0], val[1]);
      assert val == [val[0], val[1]];
    } else if |val| == 3 {
      ReadThree(val[0], val[1], val[2]);
      assert val == [val[0], val[1], val[2]];
    } else if |val| == 4 {
      ReadFour(val[0], val[1], val[2], val[3]);
      assert val == [val[0], val[1], val[2], val[3]];
    } else {
      ReadOther(val);
    }
  }

  lemma ReadLen1(val: seq<byte>)
    requires |val| == 1
    ensures UintRead(val, 0) == val[0]
  {
  }

  lemma ReadThree(b: byte, c: byte, d: byte)
    ensures UintRead([b, c, d], 0) == b as int * 0x1_0000 + c as int * 0x100 + d
  {
    assert Pow2(8) == 0x100;
    assert Pow2(16) == 0x1_0000;
    var bc := b as int * 0x100 + c;
    OrDisjoint(b, c as int * 0x100, 16);
    OrDisjoint(bc, d, 8);
    assert Or(0, b as int * 0x1_0000) == b as int * 0x1_0000;
  }

  lemma ReadOther(val: seq<byte>)
    requires |val| == 0 || |val| > 4
    ensures UintRead(val, 0) == 0
  {
  }

  // Every integer that was stored is read back exactly when the caller cleared the variable.
  lemma UintReadExact(acc: nat)
    ensures (forall v: uint32 :: UintRead(UintBytes(v), acc) == v) <==> acc == 0
  {
    if acc == 0 {
      forall v: uint32 ensures UintRead(UintBytes(v), acc) == v {
        UintInverse(v);
      }
    } else if acc == 1 {
      assert UintRead(UintBytes(2), acc) == 3;
    } else {
      assert UintRead(UintBytes(1), acc) == Or(acc, 1) != 1;
    }
  }

  // ---------------------------------------------------------------- option lookup

  predicate HasOpt(os: seq<Opt>, num: uint16) {
    exists i :: 0 <= i < |os| && os[i].num == num
  }

  // The first option with the given number.
  function FirstOpt(os: seq<Opt>, num: uint16): (o: Opt)
    requires HasOpt(os, num)
    ensures o in os && o.num == num
  {
    if os[0].num == num then os[0]
    else
      assert exists i :: 0 <= i < |os[1..]| && os[1..][i].num == num by {
        var i :| 0 <= i < |os| && os[i].num == num;
        assert os[1..][i - 1] == os[i];
      }
      FirstOpt(os[1..], num)
  }

  lemma {:induction false} FirstOptAt(os: seq<Opt>, num: uint16, k: nat)
    requires k < |os| && os[k].num == num
    requires forall i :: 0 <= i < k ==> os[i].num != num
    ensures HasOpt(os, num) && FirstOpt(os, num) == os[k]
  {
    if k > 0 {
      assert os[1..][k - 1] == os[k];
      FirstOptAt(os[1..], num, k - 1);
    }
  }

  // The number the builder remembers after adding these options.
  function LastNum(added: seq<Opt>): byte {
    if added == [] then 0 else Lo8(added[|added| - 1].num)
  }

  lemma {:induction false} DeltasAppend(os: seq<Opt>, o: Opt, last: byte)
    ensures Deltas(os + [o], last)
         == Deltas(os, last) + [Opt(Lo16(o.num - (if os == [] then last else LastNum(os))), o.val)]
  {
    if os == [] {
      assert os + [o] == [o];
    } else {
      assert (os + [o])[1..] == os[1..] + [o];
      DeltasAppend(os[1..], o, Lo8(os[0].num));
    }
  }

  class CoAPMessage {
    var version: bits2
    var mtype: bits2
    var tokenlen: nat
    var code: byte
    var msgid: uint16
    const token: array<byte>
    const options: array<Opt>
    var optcount: byte
    var optdelta: byte
    var payload: seq<byte>
    var payloadlen: uint16
    ghost var added: seq<Opt>  // the options as the callers gave them, with absolute numbers

    ghost predicate Valid()
      reads this, token, options
    {
      && token.Length == MAX_TOKEN_LEN && options.Length == MAX_OPTION_NUM
      && tokenlen <= MAX_TOKEN_LEN && optcount <= MAX_OPTION_NUM
      && ValidOpts(options[..optcount])
      && payloadlen == |payload|
    }

    // The message as the add functions build it: differences stored, the last number remembered.
    ghost predicate Built()
      reads this, token, options
    {
      Valid() && options[..optcount] == Deltas(added, 0) && optdelta == LastNum(added)
    }

    ghost function View(): (m: Msg)
      requires Valid()
      reads this, token, options
      ensures ValidMsg(m)
    {
      Msg(version, mtype, code, msgid, token[..tokenlen], options[..optcount], payload)
    }

    // The message the theorems speak of is what stands in the record.
    lemma ViewReal()
      requires Valid()
      ensures var m := View();
        && m.version == version && m.mtype == mtype && m.code == code && m.msgid == msgid
        && |m.token| == tokenlen && m.token == token[..tokenlen]
        && |m.options| == optcount as int && m.options == options[..optcount]
        && m.payload == payload && payloadlen == |payload|
    {
    }

    constructor Init()
      ensures Built() && fresh(token) && fresh(options)
      ensures View() == Msg(1, TYPE_ACK, 0, 0, [], [], [])
      ensures added == []
    {
      version, mtype, tokenlen, code, msgid := 1, TYPE_ACK, 0, 0, 0;
      token := new byte[MAX_TOKEN_LEN](_ => 0);
      options := new Opt[MAX_OPTION_NUM](_ => Opt(0, []));
      optcount, optdelta := 0, 0;
      payload, payloadlen := [], 0;
      added := [];
    }

    method TypeSet(t: byte) returns (r: Status)
      requires Valid()
      modifies this`mtype
      ensures r == (if t <= 3 then Success else InvalidParam)
      ensures mtype == (if t <= 3 then t else old(mtype))
    {
      if TYPE_CON != t && TYPE_NON != t && TYPE_ACK != t && TYPE_RST != t {
        return InvalidParam;
      }
      mtype := t;
      return Success;
    }

    method TokenSet(data: seq<byte>) returns (r: Status)
      requires Valid()
      modifies this`tokenlen, token
      ensures Valid()
      ensures r == (if |data| <= MAX_TOKEN_LEN then Success else InvalidLength)
      ensures View() == if |data| <= MAX_TOKEN_LEN then old(View()).(token := data) else old(View())
      ensures old(Built()) ==> Built()
    {
      if MAX_TOKEN_LEN < |data| {
        return InvalidLength;
      }
      for i := 0 to |data|
        invariant token[..i] == data[..i]
      {
        token[i] := data[i];
      }
      tokenlen := |data|;
      return Success;
    }

    // None is the null pointer; otherwise the first payloadlen bytes behind the pointer count.
    method PayloadSet(data: Option<seq<byte>>, len: uint16) returns (r: Status)
      requires Valid() && (data.Some? ==> len <= |data.value|)
      modifies this`payload, this`payloadlen
      ensures r == if data.None? && len > 0 then NullParam else Success
      ensures Valid() && View() == if r == Success
                                   then old(View()).(payload := if data.Some? then data.value[..len] else [])
                                   else old(View())
      ensures old(Built()) ==> Built()
    {
      if 0 < len && data == None {
        return NullParam;
      }
      payload := if data.Some? then data.value[..len] else [];
      payloadlen := len;
      return Success;
    }

    method StoreOption(o: Opt)
      requires Valid() && |o.val| < 0x1_0000 && optcount < MAX_OPTION_NUM
      modifies this`optcount, options
      ensures Valid() && View() == old(View()).(options := old(View().options) + [o])
      ensures options[..optcount] == old(options[..optcount]) + [o]
    {
      options[optcount] := o;
      optcount := optcount + 1;
      assert options[..optcount] == old(options[..optcount]) + [o];
    }

    // What both add functions do with a free place: store the difference to the last number and keep
    // the low byte of the number.
    method AppendOption(optnum: uint16, val: seq<byte>)
      requires Valid() && |val| < 0x1_0000 && optcount < MAX_OPTION_NUM
      modifies this`optcount, this`optdelta, this`added, options
      ensures Valid()
      ensures View() == old(View()).(options := old(View().options) + [Opt(Lo16(optnum - old(optdelta)), val)])
      ensures optdelta == Lo8(optnum) && added == old(added) + [Opt(optnum, val)]
      ensures old(Built()) ==> Built()
    {
      hide Lo16, Deltas;
      StoreOption(Opt(Lo16(optnum - optdelta), val));
      optdelta := Lo8(optnum);
      DeltasAppend(added, Opt(optnum, val), 0);
      added := added + [Opt(optnum, val)];
    }

    // Once the twelve places are taken the add functions change nothing.
    method StrOptionAdd(optnum: uint16, data: seq<byte>) returns (r: Status)
      requires Valid() && |data| < 0x1_0000
      modifies this`optcount, this`optdelta, this`added, options
      ensures Valid()
      ensures r == (if old(optcount) < MAX_OPTION_NUM then Success else InvalidParam)
      ensures r == InvalidParam ==> View() == old(View()) && added == old(added) && optdelta == old(optdelta)
      ensures r == Success ==>
        && View() == old(View()).(options := old(View().options) + [Opt(Lo16(optnum - old(optdelta)), data)])
        && optdelta == Lo8(optnum)
        && added == old(added) + [Opt(optnum, data)]
      ensures old(Built()) ==> Built()
    {
      hide CoAPMessage.Valid, CoAPMessage.Built, CoAPMessage.View;
      if MAX_OPTION_NUM <= optcount {
        return InvalidParam;
      }
      AppendOption(optnum, data);
      return Success;
    }

    method UintOptionAdd(optnum: uint16, data: uint32) returns (r: Status)
      requires Valid()
      modifies this`optcount, this`optdelta, this`added, options
      ensures Valid()
      ensures r == (if old(optcount) < MAX_OPTION_NUM then Success else InvalidParam)
      ensures r == InvalidParam ==> View() == old(View()) && added == old(added) && optdelta == old(optdelta)
      ensures r == Success ==>
        && View() == old(View()).(options :=
             old(View().options) + [Opt(Lo16(optnum - old(optdelta)), UintBytes(data))])
        && optdelta == Lo8(optnum)
        && added == old(added) + [Opt(optnum, UintBytes(data))]
      ensures r == Success ==>
        var val := View().options[|View().options| - 1].val;
        && |val| == (if data == 0 then 0 else if data <= 255 then 1 else if data <= 65535 then 2 else 4)
        && BigEndian(val) == data
      ensures old(Built()) ==> Built()
    {
      hide CoAPMessage.Valid, CoAPMessage.Built, CoAPMessage.View;
      UintWidth(data);
      if MAX_OPTION_NUM <= optcount {
        return InvalidParam;
      }
      var val: seq<byte> := [];
      if data == 0 {
      } else if 255 >= data {
        val := [data];
      } else if 65535 >= data {
        val := [data / 0x100, data % 0x100];
      } else {
        val := [data / 0x100_0000, data / 0x1_0000 % 0x100, data / 0x100 % 0x100, data % 0x100];
      }
      AppendOption(optnum, val);
      return Success;
    }

    // The value of the first option with this number, if it fits the caller's `datalen` bytes.
    method StrOptionGet(optnum: uint16, datalen: uint16) returns (r: Status, data: seq<byte>)
      requires Valid()
      ensures r == NotFound <==> !HasOpt(View().options, optnum)
      ensures r != NotFound ==>
        var o := FirstOpt(View().options, optnum);
        if |o.val| <= datalen then r == Success && data == o.val else r == InvalidLength && data == []
    {
      var index := 0;
      while index < optcount
        invariant index <= optcount
        invariant forall i :: 0 <= i < index ==> options[i].num != optnum
      {
        if options[index].num == optnum {
          FirstOptAt(options[..optcount], optnum, index);
          if datalen >= |options[index].val| {
            return Success, options[index].val;
          } else {
            return InvalidLength, [];
          }
        }
        index := index + 1;
      }
      return NotFound, [];
    }

    method UintOptionGet(optnum: uint16, acc: nat) returns (r: Status, data: nat)
      requires Valid()
      ensures r == (if HasOpt(View().options, optnum) then Success else NotFound)
      ensures data == if HasOpt(View().options, optnum)
                      then UintRead(FirstOpt(View().options, optnum).val, acc) else acc
    {
      var index := 0;
      data := acc;
      while index < optcount
        invariant index <= optcount && data == acc
        invariant forall i :: 0 <= i < index ==> options[i].num != optnum
      {
        if options[index].num == optnum {
          FirstOptAt(options[..optcount], optnum, index);
          var val := options[index].val;
          match |val| {
          case 1 =>
            data := Or(data, val[0]);
          case 2 =>
            data := Or(data, val[0] as int * 0x100);
            data := Or(data, val[1]);
          case 3 =>
            data := Or(data, val[0] as int * 0x1_0000);
            data := Or(data, val[1] as int * 0x100);
            data := Or(data, val[2]);
          case 4 =>
            data := Or(data, val[0] as int * 0x100_0000);
            data := Or(data, val[1] as int * 0x1_0000);
            data := Or(data, val[2] as int * 0x100);
            data := Or(data, val[3]);
          case _ =>
            data := 0;
          }
          return Success, data;
        }
        index := index + 1;
      }
      return NotFound, data;
    }
  }
}
