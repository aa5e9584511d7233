/**
 Base64 (dev_model/alcs_base64.c; section 4 of RFC 4648): the printing and parsing functions, that
 they are inverse, and the two array loops with the lookup table they share.
 */
module Base64 {
  import opened Words

  const PAD: byte := 0x3D

  type sextet = x: int | 0 <= x < 64

  // The encoding table: A-Z, a-z, 0-9, +, /.
  function Digit(i: sextet): (c: byte)
    ensures c != PAD
  {
    if i < 26 then 0x41 + i
    else if i < 52 then 0x61 + i - 26
    else if i < 62 then 0x30 + i - 52
    else if i == 62 then 0x2B
    else 0x2F
  }

  // The decoding table: zero for every byte that is not a digit.
  function Value(c: byte): sextet {
    if 0x41 <= c <= 0x5A then c - 0x41
    else if 0x61 <= c <= 0x7A then c - 0x61 + 26
    else if 0x30 <= c <= 0x39 then c - 0x30 + 52
    else if c == 0x2B then 62
    else if c == 0x2F then 63
    else 0
  }

  lemma DigitInverse(i: sextet)
    ensures Value(Digit(i)) == i && Sextet(Digit(i)) == i
  {
  }

  // The alphabet of RFC 4648, section 4: A to Z, a to z, 0 to 9, + and /.
  lemma Alphabet(i: sextet)
    ensures Digit(i) == if i < 26 then 'A' as int + i
                        else if i < 52 then 'a' as int + (i - 26)
                        else if i < 62 then '0' as int + (i - 52)
                        else if i == 62 then '+' as int else '/' as int
  {
  }

  // A byte that is no digit counts as zero.
  lemma ValueExact(c: byte)
    ensures Digit(Value(c)) == c || (Value(c) == 0 && forall i: sextet :: Digit(i) != c)
  {
  }

  // ---------------------------------------------------------------- groups

  // Three octets as one 24-bit number, and its four digits.
  function Triple(a: byte, b: byte, c: byte): nat {
    a as int * 0x1_0000 + b as int * 0x100 + c
  }

  function Digits(a: byte, b: byte, c: byte): (s: seq<byte>)
    ensures |s| == 4
  {
    var t := Triple(a, b, c);
    [Digit(t / 0x4_0000 % 64), Digit(t / 0x1000 % 64), Digit(t / 64 % 64), Digit(t % 64)]
  }

  function PadCount(n: nat): nat {
    if n % 3 == 0 then 0 else 3 - n % 3
  }

  function EncodedLen(n: nat): nat {
    4 * ((n + 2) / 3)
  }

  // RFC 4648: groups of three octets; a last group of one or two octets is padded.
  function Encode(s: seq<byte>): (e: seq<byte>)
    ensures |e| == EncodedLen(|s|)
  {
    if s == [] then []
    else if |s| == 1 then Digits(s[0], 0, 0)[..2] + [PAD, PAD]
    else if |s| == 2 then Digits(s[0], s[1], 0)[..3] + [PAD]
    else
      assert (|s| + 2) / 3 == (|s| - 3 + 2) / 3 + 1;
      Digits(s[0], s[1], s[2]) + Encode(s[3..])
  }

  // The value of one position of a group: padding counts as zero.
  function Sextet(c: byte): sextet {
    if c == PAD then 0 else Value(c)
  }

  function FourSextets(a: sextet, b: sextet, c: sextet, d: sextet): nat {
    a as int * 0x4_0000 + b as int * 0x1000 + c as int * 64 + d
  }

  function Octets(t: nat): (s: seq<byte>)
    ensures |s| == 3
  {
    [t / 0x1_0000 % 0x100, t / 0x100 % 0x100, t % 0x100]
  }

  // The octets of one group of four.
  function Group(s: seq<byte>): (r: seq<byte>)
    requires |s| >= 4
    ensures |r| == 3
  {
    Octets(FourSextets(Sextet(s[0]), Sextet(s[1]), Sextet(s[2]), Sextet(s[3])))
  }

  // All octets of all groups, before the tail that padding stands for is cut.
  function DecodeGroups(s: seq<byte>): (r: seq<byte>)
    requires |s| % 4 == 0
    ensures |r| == |s| / 4 * 3
  {
    if s == [] then []
    else Group(s) + DecodeGroups(s[4..])
  }

  function DecodedLen(s: seq<byte>): nat
    requires |s| % 4 == 0 && s != []
  {
    |s| / 4 * 3 - (if s[|s| - 1] == PAD then 1 else 0) - (if s[|s| - 2] == PAD then 1 else 0)
  }

  function Decode(s: seq<byte>): (r: seq<byte>)
    requires |s| % 4 == 0 && s != []
    ensures |r| == DecodedLen(s)
  {
    DecodeGroups(s)[..DecodedLen(s)]
  }

  // ---------------------------------------------------------------- what the characters stand for

  // Four characters stand for three octets: as numbers, in base 64 and in base 256, they are the same.
  predicate SameNumber(d: seq<byte>, s: seq<byte>) {
    && |d| == 4 && |s| == 3
    && Sextet(d[0]) as int * 0x4_0000 + Sextet(d[1]) as int * 0x1000 + Sextet(d[2]) as int * 64 + Sextet(d[3])
       == s[0] as int * 0x1_0000 + s[1] as int * 0x100 + s[2]
  }

  // The group k of an encoding stands for the octets from 3k on; what is missing of the last three counts
  // as zero and is shown by padding.
  ghost predicate GroupAt(e: seq<byte>, s: seq<byte>, k: nat)
    requires 3 * k < |s|
  {
    var octet := i => if 0 <= i < |s| then s[i] else 0;
    && 4 * k + 4 <= |e|
    && SameNumber(e[4 * k..4 * k + 4], [octet(3 * k), octet(3 * k + 1), octet(3 * k + 2)])
    && (e[4 * k + 2] == PAD <==> 3 * k + 1 == |s|) && (e[4 * k + 3] == PAD <==> 3 * k + 3 > |s|)
    && e[4 * k] != PAD && e[4 * k + 1] != PAD
  }

  lemma {:induction false} EncodeGroups(s: seq<byte>, k: nat)
    requires 3 * k < |s|
    ensures GroupAt(Encode(s), s, k)
    decreases |s|
  {
    hide Digits, Sextet;
    if |s| > 3 {
      DigitsNumber(s[0], s[1], s[2]);
      EncodeStep(s);
      if k > 0 {
        EncodeGroups(s[3..], k - 1);
        GroupShift(Digits(s[0], s[1], s[2]), Encode(s[3..]), s, k);
      } else {
        FirstGroup(Digits(s[0], s[1], s[2]), Encode(s[3..]), s);
      }
    } else {
      LastNumber(s);
    }
  }

  lemma GroupShift(d: seq<byte>, e: seq<byte>, s: seq<byte>, k: nat)
    requires |d| == 4 && |s| > 3 && 0 < k && 3 * k < |s| && GroupAt(e, s[3..], k - 1)
    ensures GroupAt(d + e, s, k)
  {
    assert (d + e)[4 * k..4 * k + 4] == e[4 * (k - 1)..4 * (k - 1) + 4];
  }

  lemma FirstGroup(d: seq<byte>, e: seq<byte>, s: seq<byte>)
    requires |s| > 3 && SameNumber(d, s[..3]) && PAD !in d
    ensures GroupAt(d + e, s, 0)
  {
    assert (d + e)[4 * 0..4 * 0 + 4] == d;
    assert s[..3] == [s[0], s[1], s[2]];
  }

  lemma DigitsNumber(a: byte, b: byte, c: byte)
    ensures SameNumber(Digits(a, b, c), [a, b, c]) && PAD !in Digits(a, b, c)
  {
    hide Digit, Sextet;
    var t := Triple(a, b, c);
    TripleSextets(a, b, c);
    DigitInverse(t / 0x4_0000 % 64);
    DigitInverse(t / 0x1000 % 64);
    DigitInverse(t / 64 % 64);
    DigitInverse(t % 64);
  }

  lemma LastNumber(s: seq<byte>)
    requires 1 <= |s| <= 3
    ensures GroupAt(Encode(s), s, 0)
  {
    hide GroupAt, SameNumber, Encode, Digits;
    EncodeLast(s);
    if |s| == 3 {
      DigitsNumber(s[0], s[1], s[2]);
      OnlyGroup(Encode(s), s, s[1], s[2]);
    } else if |s| == 2 {
      PadKeepsNumber(s[0], s[1]);
      OnlyGroup(Encode(s), s, s[1], 0);
    } else {
      PadKeepsNumber(s[0], 0);
      OnlyGroup(Encode(s), s, 0, 0);
    }
  }

  lemma EncodeLast(s: seq<byte>)
    requires 1 <= |s| <= 3
    ensures |s| == 1 ==> Encode(s) == Digits(s[0], 0, 0)[..2] + [PAD, PAD]
    ensures |s| == 2 ==> Encode(s) == Digits(s[0], s[1], 0)[..3] + [PAD]
    ensures |s| == 3 ==> Encode(s) == Digits(s[0], s[1], s[2])
  {
    hide Digits;
    if |s| == 3 {
      assert s[3..] == [] && Encode(s[3..]) == [];
    }
  }

  lemma OnlyGroup(e: seq<byte>, s: seq<byte>, b: byte, c: byte)
    requires 1 <= |s| <= 3 && SameNumber(e, [s[0], b, c])
    requires b == (if |s| > 1 then s[1] else 0) && c == (if |s| > 2 then s[2] else 0)
    requires e[0] != PAD && e[1] != PAD && (e[2] == PAD <==> |s| == 1) && (e[3] == PAD <==> |s| < 3)
    ensures GroupAt(e, s, 0)
  {
    hide SameNumber;
    assert |e| == 4 by { NumberLen(e, [s[0], b, c]); }
    assert e[4 * 0..4 * 0 + 4] == e;
  }

  lemma NumberLen(d: seq<byte>, s: seq<byte>)
    requires SameNumber(d, s)
    ensures |d| == 4
  {
  }

  // Padding in place of the digits that only hold zeros.
  lemma PadKeepsNumber(a: byte, b: byte)
    ensures var d := Digits(a, 0, 0); SameNumber(d[..2] + [PAD, PAD], [a, 0, 0]) && PAD !in d
    ensures var d := Digits(a, b, 0); SameNumber(d[..3] + [PAD], [a, b, 0]) && PAD !in d
  {
    hide Digits, Sextet, Value;
    DigitsNumber(a, 0, 0);
    DigitsNumber(a, b, 0);
    ZeroDigits(a, b);
    PadIsZero();
  }

  lemma PadIsZero()
    ensures Sextet(PAD) == 0 && PAD == '=' as int
  {
  }

  // What any four characters are decoded to: the same number, with anything that is no digit as zero.
  lemma GroupNumber(s: seq<byte>)
    requires |s| >= 4
    ensures SameNumber(s[..4], Group(s))
  {
    hide Sextet;
    var t := FourSextets(Sextet(s[0]), Sextet(s[1]), Sextet(s[2]), Sextet(s[3]));
    assert t / 0x1_0000 % 0x100 == t / 0x1_0000;
    ThreeOctets(t);
  }

  lemma ThreeOctets(t: nat)
    ensures t == t / 0x1_0000 * 0x1_0000 + t / 0x100 % 0x100 * 0x100 + t % 0x100
  {
    assert t / 0x100 == t / 0x1_0000 * 0x100 + t / 0x100 % 0x100;
  }

  // ---------------------------------------------------------------- inverse

  lemma DigitsInverse(a: byte, b: byte, c: byte)
    ensures Group(Digits(a, b, c)) == [a, b, c]
    ensures forall x :: x in Digits(a, b, c) ==> x != PAD
  {
    hide Digit, Sextet, Octets, FourSextets, Triple;
    var t := Triple(a, b, c);
    TripleSextets(a, b, c);
    DigitInverse(t / 0x4_0000 % 64);
    DigitInverse(t / 0x1000 % 64);
    DigitInverse(t / 64 % 64);
    DigitInverse(t % 64);
    TripleOctets(a, b, c);
  }

  // Dividing a positional number by a power of its base drops the low positions.
  lemma High(q: nat, r: nat, d: nat)
    requires d > 0 && r < d
    ensures (q * d + r) / d == q && (q * d + r) % d == r
  {
    var n := q * d + r;
    assert n == n / d * d + n % d;
    var e := n / d - q;
    assert e * d == r - n % d;
    assert e * d < d && e * d + d > 0;
  }

  lemma SextetsOf(w: sextet, x: sextet, y: sextet, z: sextet)
    ensures var t := FourSextets(w, x, y, z);
      t / 0x4_0000 % 64 == w && t / 0x1000 % 64 == x && t / 64 % 64 == y && t % 64 == z
  {
    var u: nat := w as int * 64 + x;
    var v: nat := u * 64 + y;
    var t := FourSextets(w, x, y, z);
    assert t == v * 64 + z;
    High(v, z, 64);
    High(u, y as int * 64 + z, 0x1000);
    High(w, x as int * 0x1000 + y as int * 64 + z, 0x4_0000);
    High(u, y, 64);
    High(w, x, 64);
  }

  lemma TripleSextets(a: byte, b: byte, c: byte)
    ensures var t := Triple(a, b, c);
      FourSextets(t / 0x4_0000 % 64, t / 0x1000 % 64, t / 64 % 64, t % 64) == t
  {
    var t, w, x, y, z := Triple(a, b, c), a / 4, a % 4 * 16 + b / 16, b % 16 * 4 + c / 64, c % 64;
    assert t == FourSextets(w, x, y, z);
    SextetsOf(w, x, y, z);
  }

  lemma TripleOctets(a: byte, b: byte, c: byte)
    ensures Octets(Triple(a, b, c)) == [a, b, c]
  {
    var u: nat := a as int * 0x100 + b;
    var t := Triple(a, b, c);
    High(a, b as int * 0x100 + c, 0x1_0000);
    High(u, c, 0x100);
    High(a, b, 0x100);
    assert t == u * 0x100 + c;
    assert t / 0x1_0000 % 0x100 == a && t / 0x100 % 0x100 == b && t % 0x100 == c;
  }

  // A padded last group decodes to the octets it stands for and zeros.
  lemma PaddedGroup(a: byte, b: byte)
    ensures Group(Digits(a, 0, 0)[..2] + [PAD, PAD]) == [a, 0, 0]
    ensures Group(Digits(a, b, 0)[..3] + [PAD]) == [a, b, 0]
  {
    hide Octets, FourSextets;
    DigitsInverse(a, 0, 0);
    DigitsInverse(a, b, 0);
    ZeroDigits(a, b);
  }

  lemma ZeroDigits(a: byte, b: byte)
    ensures Sextet(Digits(a, 0, 0)[2]) == 0 && Sextet(Digits(a, 0, 0)[3]) == 0
    ensures Sextet(Digits(a, b, 0)[3]) == 0
  {
    hide Sextet, Value, Digit;
    assert Triple(a, 0, 0) == FourSextets(a / 4, a % 4 * 16, 0, 0);
    SextetsOf(a / 4, a % 4 * 16, 0, 0);
    assert Triple(a, b, 0) == FourSextets(a / 4, a % 4 * 16 + b / 16, b % 16 * 4, 0);
    SextetsOf(a / 4, a % 4 * 16 + b / 16, b % 16 * 4, 0);
    DigitInverse(0);
  }

  // Three octets more are one group of digits more.
  lemma EncodeStep(s: seq<byte>)
    requires |s| > 3
    ensures Encode(s) == Digits(s[0], s[1], s[2]) + Encode(s[3..])
  {
    hide Digits, EncodedLen;
  }

  lemma RawStep(s: seq<byte>)
    requires |s| > 3
    ensures RawEncode(s) == Digits(s[0], s[1], s[2]) + RawEncode(s[3..])
  {
    hide Digits, EncodedLen;
  }

  predicate PaddingTells(e: seq<byte>, n: nat) {
    && |e| >= 4
    && (e[|e| - 1] == PAD <==> n % 3 != 0) && (e[|e| - 2] == PAD <==> n % 3 == 1)
  }

  lemma TellsMore(d: seq<byte>, e: seq<byte>, n: nat)
    requires PaddingTells(e, n)
    ensures PaddingTells(d + e, n + 3)
  {
  }

  // The last two characters of a non-empty encoding tell how many octets the last group holds.
  lemma {:induction false} EncodePadding(s: seq<byte>)
    requires s != []
    ensures PaddingTells(Encode(s), |s|)
  {
    if |s| <= 3 {
      LastGroup(s);
    } else {
      hide Digits, Encode, EncodedLen, PaddingTells;
      EncodeStep(s);
      EncodePadding(s[3..]);
      TellsMore(Digits(s[0], s[1], s[2]), Encode(s[3..]), |s| - 3);
    }
  }

  lemma LastGroup(s: seq<byte>)
    requires 1 <= |s| <= 3
    ensures |Encode(s)| == 4 && (Encode(s)[3] == PAD <==> |s| != 3) && (Encode(s)[2] == PAD <==> |s| == 1)
  {
    hide Digit, Triple;
    assert |s| == 3 ==> s[3..] == [];
  }

  lemma {:induction false} DecodeGroupsInverse(s: seq<byte>)
    ensures |Encode(s)| % 4 == 0 && |DecodeGroups(Encode(s))| >= |s|
    ensures DecodeGroups(Encode(s))[..|s|] == s
  {
    hide Digits, Group;
    if s == [] {
    } else if |s| == 1 {
      PaddedGroup(s[0], 0);
      assert Encode(s)[4..] == [];
    } else if |s| == 2 {
      PaddedGroup(s[0], s[1]);
      assert Encode(s)[4..] == [];
    } else {
      DigitsInverse(s[0], s[1], s[2]);
      var d := Digits(s[0], s[1], s[2]);
      DecodeGroupsInverse(s[3..]);
      GroupPrefix(d, Encode(s[3..]));
      assert s == [s[0], s[1], s[2]] + s[3..];
    }
  }

  lemma GroupPrefix(d: seq<byte>, rest: seq<byte>)
    requires |d| == 4 && |rest| % 4 == 0
    ensures DecodeGroups(d + rest) == Group(d) + DecodeGroups(rest)
  {
    assert (d + rest)[4..] == rest;
  }

  // Decoding undoes encoding for every non-empty octet string, and reports its exact length.
  lemma DecodeInverse(s: seq<byte>)
    requires s != []
    ensures |Encode(s)| % 4 == 0 && Encode(s) != []
    ensures DecodedLen(Encode(s)) == |s|
    ensures Decode(Encode(s)) == s
  {
    hide Encode, DecodeGroups;
    EncodePadding(s);
    DecodeGroupsInverse(s);
  }

  // ---------------------------------------------------------------- the encoder's two loops

  // What the first loop stores: missing octets count as zero.
  function RawEncode(s: seq<byte>): (e: seq<byte>)
    ensures |e| == EncodedLen(|s|)
  {
    if s == [] then []
    else
      assert |s| > 3 ==> (|s| + 2) / 3 == (|s| - 3 + 2) / 3 + 1;
      Digits(s[0], if |s| > 1 then s[1] else 0, if |s| > 2 then s[2] else 0)
        + RawEncode(s[Min(3, |s|)..])
  }

  function Pads(k: nat): (s: seq<byte>)
    ensures |s| == k
  {
    if k == 0 then [] else [PAD] + Pads(k - 1)
  }

  lemma LenStep(n: nat)
    ensures EncodedLen(n) >= PadCount(n)
    ensures n >= 3 ==> EncodedLen(n) == 4 + EncodedLen(n - 3) && PadCount(n) == PadCount(n - 3)
  {
    if n >= 3 {
      assert (n + 2) / 3 == (n - 3 + 2) / 3 + 1;
    }
  }

  // The second loop overwrites as many characters with padding as octets were missing.
  lemma {:induction false} PatchedEncode(s: seq<byte>)
    ensures EncodedLen(|s|) >= PadCount(|s|)
    ensures RawEncode(s)[..EncodedLen(|s|) - PadCount(|s|)] + Pads(PadCount(|s|)) == Encode(s)
  {
    LenStep(|s|);
    if |s| > 3 {
      hide Digits, EncodedLen, PadCount, Pads, Encode, RawEncode;
      PatchedEncode(s[3..]);
      EncodeStep(s);
      RawStep(s);
      var d, r := Digits(s[0], s[1], s[2]), RawEncode(s[3..]);
      var n := EncodedLen(|s[3..]|) - PadCount(|s[3..]|);
      assert (d + r)[..4 + n] == d + r[..n];
      Associative(d, r[..n], Pads(PadCount(|s|)));
    } else if |s| == 3 {
      hide Digits;
      assert s[3..] == [];
    } else if |s| > 0 {
      PatchedLast(s);
    }
  }

  lemma PatchedLast(s: seq<byte>)
    requires 1 <= |s| <= 2
    ensures EncodedLen(|s|) == 4 && PadCount(|s|) == 3 - |s|
    ensures RawEncode(s)[..4 - PadCount(|s|)] + Pads(PadCount(|s|)) == Encode(s)
  {
    hide Digits, Pads;
    assert s[Min(3, |s|)..] == [];
    var d := Digits(s[0], if |s| > 1 then s[1] else 0, 0);
    assert RawEncode(s) == d + [] == d;
    TwoPads();
  }

  lemma TwoPads()
    ensures Pads(1) == [PAD] && Pads(2) == [PAD, PAD]
  {
    assert Pads(0) == [];
    assert Pads(1) == [PAD] + Pads(0);
  }

  method StoreFour(buf: array<byte>, j: nat, a: byte, b: byte, c: byte)
    requires j + 4 <= buf.Length
    modifies buf
    ensures buf[..] == Splice(old(buf[..]), j, Digits(a, b, c))
  {
    hide Digit, Triple;
    var triple := Triple(a, b, c);
    buf[j] := Digit(triple / 0x4_0000 % 64);
    buf[j + 1] := Digit(triple / 0x1000 % 64);
    buf[j + 2] := Digit(triple / 64 % 64);
    buf[j + 3] := Digit(triple % 64);
  }

  method EncodeLoop(data: seq<byte>, buf: array<byte>)
    requires EncodedLen(|data|) <= buf.Length
    modifies buf
    ensures buf[..] == Splice(old(buf[..]), 0, RawEncode(data))
  {
    hide Digits, Splice;
    ghost var b, p: seq<byte> := buf[..], [];
    SpliceEmpty(b, 0);
    var i: nat, j: nat := 0, 0;
    assert data[0..] == data;
    while i < |data|
      invariant i <= |data| && j == |p| && p + RawEncode(data[i..]) == RawEncode(data)
      invariant buf[..] == Splice(b, 0, p)
    {
      ghost var s := data[i..];
      ghost var start := i;
      var octetA := data[i];
      i := i + 1;
      var octetB: byte, octetC: byte := 0, 0;
      if i < |data| {
        octetB := data[i];
        i := i + 1;
      }
      if i < |data| {
        octetC := data[i];
        i := i + 1;
      }
      assert s[Min(3, |s|)..] == data[i..];
      assert RawEncode(s) == Digits(octetA, octetB, octetC) + RawEncode(data[i..]);
      Associative(p, Digits(octetA, octetB, octetC), RawEncode(data[i..]));
      SpliceSplice(b, 0, p, Digits(octetA, octetB, octetC));
      StoreFour(buf, j, octetA, octetB, octetC);
      p := p + Digits(octetA, octetB, octetC);
      j := j + 4;
    }
    assert data[i..] == [] && p + [] == p;
  }

  method PadLoop(buf: array<byte>, n: nat, pads: nat)
    requires pads <= n <= buf.Length
    modifies buf
    ensures buf[..] == Splice(old(buf[..]), 0, old(buf[..n - pads]) + Pads(pads))
  {
    hide Splice, Pads;
    ghost var b := buf[..];
    var i: nat := 0;
    PadStart(b, n);
    while i < pads
      invariant i <= pads
      invariant buf[..] == Splice(b, 0, b[..n - i] + Pads(i))
    {
      PadStep(b, n, i);
      buf[n - 1 - i] := PAD;
      i := i + 1;
    }
  }

  lemma PadStart(b: seq<byte>, n: nat)
    requires n <= |b|
    ensures Splice(b, 0, b[..n] + Pads(0)) == b
  {
  }

  lemma PadStep(b: seq<byte>, n: nat, i: nat)
    requires i < n <= |b|
    ensures Splice(b, 0, b[..n - i] + Pads(i))[n - 1 - i := PAD] == Splice(b, 0, b[..n - (i + 1)] + Pads(i + 1))
  {
    assert b[..n - i] == b[..n - (i + 1)] + [b[n - 1 - i]];
    assert Pads(i + 1) == [PAD] + Pads(i);
  }

  method Base64Encode(data: seq<byte>, outputLenMax: nat, encodedData: array<byte>)
    returns (ok: bool, outputLength: nat)
    requires EncodedLen(|data|) < 0x1_0000_0000 && outputLenMax <= encodedData.Length
    modifies encodedData
    ensures outputLength == EncodedLen(|data|) && (ok <==> outputLength <= outputLenMax)
    ensures encodedData[..] == if ok then Splice(old(encodedData[..]), 0, Encode(data)) else old(encodedData[..])
  {
    outputLength := 4 * ((|data| + 2) / 3);
    if outputLenMax < outputLength {
      return false, outputLength;
    }
    var pads := if |data| % 3 == 0 then 0 else if |data| % 3 == 1 then 2 else 1;
    assert pads == PadCount(|data|) && outputLength == EncodedLen(|data|);
    StoreEncoding(data, encodedData, outputLength, pads);
    return true, outputLength;
  }

  // The two loops.
  method StoreEncoding(data: seq<byte>, encodedData: array<byte>, n: nat, pads: nat)
    requires n == EncodedLen(|data|) <= encodedData.Length && pads == PadCount(|data|)
    modifies encodedData
    ensures encodedData[..] == Splice(old(encodedData[..]), 0, Encode(data))
  {
    hide Splice, RawEncode, Encode, Pads, EncodedLen, PadCount;
    ghost var b, raw: seq<byte> := encodedData[..], RawEncode(data);
    PatchedEncode(data);
    EncodeLoop(data, encodedData);
    SplicePrefix(b, raw, n - pads);
    PadLoop(encodedData, n, pads);
    SpliceOver(b, raw, Encode(data));
  }

  lemma SpliceOver(b: seq<byte>, s: seq<byte>, t: seq<byte>)
    requires |s| == |t| <= |b|
    ensures Splice(Splice(b, 0, s), 0, t) == Splice(b, 0, t)
  {
  }

  // ---------------------------------------------------------------- the decoder

  lemma ValueInverse(c: byte)
    ensures Digit(Value(c)) == c || Value(c) == 0
  {
  }

  // The group at i and what is left after it.
  lemma GroupNext(data: seq<byte>, i: nat, p: seq<byte>)
    requires |data| % 4 == 0 && i % 4 == 0 && i < |data|
    ensures i + 4 <= |data| && (i + 4) % 4 == 0 && |data[i + 4..]| % 4 == 0
    ensures p + DecodeGroups(data[i..]) == (p + Group(data[i..])) + DecodeGroups(data[i + 4..])
  {
    hide Group;
    assert data[i..][4..] == data[i + 4..];
    Associative(p, Group(data[i..]), DecodeGroups(data[i + 4..]));
  }

  // Three more octets, stored as far as the limit goes.
  lemma StoreNext(b: seq<byte>, p: seq<byte>, g: seq<byte>, limit: nat)
    requires |g| == 3 && limit <= |b|
    ensures var j := Min(|p|, limit);
      && j + Min(3, limit - j) == Min(|p + g|, limit) == Min(j + 3, limit)
      && Splice(Splice(b, 0, p[..j]), j, g[..Min(3, limit - j)]) == Splice(b, 0, (p + g)[..Min(|p + g|, limit)])
  {
    var j := Min(|p|, limit);
    SpliceSplice(b, 0, p[..j], g[..Min(3, limit - j)]);
    assert p[..j] + g[..Min(3, limit - j)] == (p + g)[..Min(|p + g|, limit)];
  }

  lemma GroupsEnd()
    ensures DecodeGroups([]) == []
  {
  }

  // The decoding table is filled on first use and kept.
  class Decoder {
    const table: array<sextet>
    var signal: bool

    ghost predicate Valid()
      reads this, table
    {
      && table.Length == 256
      && (forall c: byte :: table[c] == if signal then Value(c) else 0)
    }

    constructor ()
      ensures Valid() && fresh(table)
    {
      table := new sextet[256](_ => 0);
      signal := false;
    }

    method BuildDecodingTable()
      requires Valid()
      modifies this`signal, table
      ensures Valid() && signal
    {
      if signal {
        return;
      }
      for i := 0 to 64
        invariant forall c: byte :: table[c] == if Digit(Value(c)) == c && Value(c) < i then Value(c) else 0
      {
        DigitInverse(i);
        table[Digit(i)] := i;
      }
      forall c: byte ensures table[c] == Value(c) {
        ValueInverse(c);
      }
      signal := true;
    }

    function ReadSextet(c: byte): sextet
      requires Valid()
      reads this, table
      ensures signal ==> ReadSextet(c) == Sextet(c)
    {
      if c == PAD then 0 else table[c]
    }

    // One conditional store of the decode loop.
    method StoreBelow(buf: array<byte>, j: nat, limit: nat, x: byte) returns (next: nat)
      requires limit <= buf.Length
      modifies buf
      ensures next == if j < limit then j + 1 else j
      ensures buf[..] == if j < limit then old(buf[..])[j := x] else old(buf[..])
    {
      next := j;
      if j < limit {
        buf[j] := x;
        next := j + 1;
      }
    }

    method StoreGroup(buf: array<byte>, j: nat, limit: nat, triple: nat) returns (next: nat)
      requires j <= limit <= buf.Length
      modifies buf
      ensures next == Min(j + 3, limit)
      ensures buf[..] == Splice(old(buf[..]), j, Octets(triple)[..Min(3, limit - j)])
    {
      next := StoreBelow(buf, j, limit, triple / 0x1_0000 % 0x100);
      next := StoreBelow(buf, next, limit, triple / 0x100 % 0x100);
      next := StoreBelow(buf, next, limit, triple % 0x100);
    }

    method DecodeLoop(data: seq<byte>, buf: array<byte>, limit: nat)
      requires Valid() && signal
      requires |data| % 4 == 0 && limit <= buf.Length && limit <= |data| / 4 * 3
      modifies buf
      ensures buf[..] == Splice(old(buf[..]), 0, DecodeGroups(data)[..limit])
    {
      hide Splice, Sextet, FourSextets, Octets, DecodeGroups, Group;
      GroupsEnd();
      ghost var b, p: seq<byte> := buf[..], [];
      SpliceEmpty(b, 0);
      var i: nat, j: nat := 0, 0;
      assert data[0..] == data;
      while i < |data|
        invariant i <= |data| && i % 4 == 0 && p + DecodeGroups(data[i..]) == DecodeGroups(data)
        invariant j == Min(|p|, limit) && buf[..] == Splice(b, 0, p[..j])
      {
        ghost var g: seq<byte> := Group(data[i..]);
        GroupNext(data, i, p);
        StoreNext(b, p, g, limit);
        j := DecodeOne(data, i, buf, j, limit);
        p := p + g;
        i := i + 4;
      }
      assert data[i..] == [] && p + [] == p;
    }

    // One group of four: at most three octets are stored, as far as the limit goes.
    method DecodeOne(data: seq<byte>, i: nat, buf: array<byte>, j: nat, limit: nat) returns (next: nat)
      requires Valid() && signal && i + 4 <= |data| && j <= limit <= buf.Length
      modifies buf
      ensures next == Min(j + 3, limit)
      ensures buf[..] == Splice(old(buf[..]), j, Group(data[i..])[..Min(3, limit - j)])
    {
      hide Splice, Sextet, FourSextets, Octets;
      var triple := FourSextets(ReadSextet(data[i]), ReadSextet(data[i + 1]),
                                ReadSextet(data[i + 2]), ReadSextet(data[i + 3]));
      assert Octets(triple) == Group(data[i..]);
      next := StoreGroup(buf, j, limit, triple);
    }

    method Base64Decode(data: seq<byte>, outputLenMax: nat, decodedData: array<byte>)
      returns (ok: bool, outputLength: nat)
      requires Valid() && outputLenMax <= decodedData.Length && data != []
      modifies this`signal, table, decodedData
      ensures Valid()
      ensures ok <==> |data| % 4 == 0 && DecodedLen(data) <= outputLenMax
      ensures |data| % 4 == 0 ==> outputLength == DecodedLen(data)
      ensures var pads := (if data[|data| - 1] == '=' as int then 1 else 0)
                          + (if |data| > 1 && data[|data| - 2] == '=' as int then 1 else 0);
              outputLength == if |data| % 4 == 0 then |data| / 4 * 3 - pads else 0
      ensures decodedData[..] == if ok then Splice(old(decodedData[..]), 0, Decode(data)) else old(decodedData[..])
    {
      BuildDecodingTable();
      outputLength := 0;
      if |data| % 4 != 0 {
        return false, outputLength;
      }
      outputLength := |data| / 4 * 3;
      if data[|data| - 1] == PAD {
        outputLength := outputLength - 1;
      }
      if data[|data| - 2] == PAD {
        outputLength := outputLength - 1;
      }
      if outputLenMax < outputLength {
        return false, outputLength;
      }
      DecodeLoop(data, decodedData, outputLength);
      return true, outputLength;
    }
  }
}
