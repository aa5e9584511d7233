/**
 The machine words the C sources compute with, as integers, and the C conversions and
 bitwise operators on them. A store into an `unsigned char` or `unsigned short` truncates:
 every such store in the other modules goes through Lo8 or Lo16.
 */
module Words {
  type byte = x: int | 0 <= x < 0x100
  type uint16 = x: int | 0 <= x < 0x1_0000
  type uint32 = x: int | 0 <= x < 0x1_0000_0000

  datatype Option<T> = None | Some(value: T)

  function Lo8(x: int): byte {
    x % 0x100
  }

  function Lo16(x: int): uint16 {
    x % 0x1_0000
  }

  function Lo32(x: int): uint32 {
    x % 0x1_0000_0000
  }

  // Truncating early makes no difference to a sum.
  lemma Lo16Sum(x: int, y: int)
    ensures Lo16(Lo16(x) + y) == Lo16(x + y)
  {
    var q := x / 0x1_0000;
    assert x + y == 0x1_0000 * q + (Lo16(x) + y);
  }

  function Min(a: int, b: int): int {
    if a <= b then a else b
  }

  function Pow2(k: nat): (p: nat)
    ensures p > 0
  {
    if k == 0 then 1 else 2 * Pow2(k - 1)
  }

  // Bitwise `a | b`, one binary digit at a time.
  function Or(a: nat, b: nat): nat
    decreases a + b
  {
    if a == 0 then b
    else if b == 0 then a
    else 2 * Or(a / 2, b / 2) + (if a % 2 == 1 || b % 2 == 1 then 1 else 0)
  }

  // Bitwise `a ^ b`, one binary digit at a time.
  function Xor(a: nat, b: nat): nat
    decreases a + b
  {
    if a == 0 then b
    else if b == 0 then a
    else 2 * Xor(a / 2, b / 2) + (if a % 2 == b % 2 then 0 else 1)
  }

  // The two operators, bit by bit.
  lemma {:induction false} OrBits(a: nat, b: nat, k: nat)
    ensures Or(a, b) / Pow2(k) % 2 == if a / Pow2(k) % 2 == 1 || b / Pow2(k) % 2 == 1 then 1 else 0
    decreases k
  {
    hide Or, Pow2;
    if a == 0 || b == 0 {
      OrZero(a, b);
      ZeroBit(k);
    } else if k == 0 {
      OrHalf(a, b);
      LowBit(a);
      LowBit(b);
      LowBit(Or(a, b));
    } else {
      OrHalf(a, b);
      OrBits(a / 2, b / 2, k - 1);
      HalfBit(Or(a, b), k);
      HalfBit(a, k);
      HalfBit(b, k);
    }
  }

  lemma OrZero(a: nat, b: nat)
    ensures a == 0 || b == 0 ==> Or(a, b) == a + b
  {
  }

  lemma OrHalf(a: nat, b: nat)
    requires a > 0 && b > 0
    ensures Or(a, b) / 2 == Or(a / 2, b / 2) && Or(a, b) % 2 == if a % 2 == 1 || b % 2 == 1 then 1 else 0
  {
  }

  lemma {:induction false} XorBits(a: nat, b: nat, k: nat)
    ensures Xor(a, b) / Pow2(k) % 2 == if a / Pow2(k) % 2 == b / Pow2(k) % 2 then 0 else 1
    decreases k
  {
    hide Xor, Pow2;
    if a == 0 || b == 0 {
      XorZero(a, b);
      ZeroBit(k);
    } else if k == 0 {
      XorHalf(a, b);
      LowBit(a);
      LowBit(b);
      LowBit(Xor(a, b));
    } else {
      XorHalf(a, b);
      XorBits(a / 2, b / 2, k - 1);
      HalfBit(Xor(a, b), k);
      HalfBit(a, k);
      HalfBit(b, k);
    }
  }

  lemma XorZero(a: nat, b: nat)
    ensures a == 0 || b == 0 ==> Xor(a, b) == a + b
  {
  }

  lemma XorHalf(a: nat, b: nat)
    requires a > 0 && b > 0
    ensures Xor(a, b) / 2 == Xor(a / 2, b / 2) && Xor(a, b) % 2 == if a % 2 == b % 2 then 0 else 1
  {
  }

  lemma LowBit(a: nat)
    ensures a / Pow2(0) % 2 == a % 2
  {
    assert Pow2(0) == 1;
  }

  lemma ZeroBit(k: nat)
    ensures 0 / Pow2(k) % 2 == 0
  {
  }

  // Bit k of a number is bit k - 1 of its half.
  lemma HalfBit(a: nat, k: nat)
    requires k > 0
    ensures a / Pow2(k) == a / 2 / Pow2(k - 1)
  {
    var p := Pow2(k - 1);
    var q := a / 2 / p;
    assert a == 2 * (a / 2) + a % 2 && a / 2 == q * p + a / 2 % p;
    assert a == q * (2 * p) + (2 * (a / 2 % p) + a % 2);
    assert a / (2 * p) == q by {
      QuotientIs(a, 2 * p, q, 2 * (a / 2 % p) + a % 2);
    }
  }

  lemma QuotientIs(a: nat, d: nat, q: nat, r: nat)
    requires d > 0 && a == q * d + r && r < d
    ensures a / d == q
  {
    var e := a / d - q;
    assert e * d == r - a % d;
    assert e * d < d && e * d + d > 0;
  }

  // Fields that share no bit position: `|` packs them side by side.
  lemma {:induction false} OrDisjoint(hi: nat, lo: nat, k: nat)
    requires lo < Pow2(k)
    ensures Or(hi * Pow2(k), lo) == hi * Pow2(k) + lo
  {
    if k > 0 && hi > 0 && lo > 0 {
      var p := Pow2(k - 1);
      assert hi * Pow2(k) == 2 * (hi * p) by { assert Pow2(k) == 2 * p; }
      OrDisjoint(hi, lo / 2, k - 1);
    }
  }

  lemma {:induction false} XorCancels(a: nat, b: nat)
    ensures Xor(Xor(a, b), b) == a
    decreases a + b
  {
    if a == 0 {
      XorSelf(b);
    } else if b > 0 {
      XorCancels(a / 2, b / 2);
      var h := Xor(a / 2, b / 2);
      var x := Xor(a, b);
      assert x / 2 == h && x % 2 == (if a % 2 == b % 2 then 0 else 1);
      if x == 0 {
        assert h == 0;
      }
    }
  }

  lemma {:induction false} XorSelf(b: nat)
    ensures Xor(b, b) == 0
  {
    if b > 0 {
      XorSelf(b / 2);
    }
  }

  lemma {:induction false} XorBound(a: nat, b: nat, k: nat)
    requires a < Pow2(k) && b < Pow2(k)
    ensures Xor(a, b) < Pow2(k)
  {
    if k > 0 && a > 0 && b > 0 {
      XorBound(a / 2, b / 2, k - 1);
    }
  }

  // ---------------------------------------------------------------- sequences, slices of and stores into a buffer

  lemma Associative<T>(a: seq<T>, b: seq<T>, c: seq<T>)
    ensures a + (b + c) == (a + b) + c
  {
  }

  // The position of the first element that passes the test, or the length.
  function FirstAt<T>(s: seq<T>, test: T -> bool): (k: nat)
    ensures k <= |s|
    ensures k < |s| ==> test(s[k])
    ensures forall i :: 0 <= i < k ==> !test(s[i])
  {
    if s == [] || test(s[0]) then 0 else FirstAt(s[1..], test) + 1
  }

  function RemoveAt<T>(s: seq<T>, k: nat): seq<T>
    requires k < |s|
  {
    s[..k] + s[k + 1..]
  }

  lemma SubSlice<T>(b: seq<T>, i: nat, j: nat, k: nat, l: nat)
    requires i <= j <= |b| && k <= l <= j - i
    ensures b[i..j][k..l] == b[i + k..i + l]
  {
    forall x | 0 <= x < l - k ensures b[i..j][k..l][x] == b[i + k..i + l][x] {
      assert b[i..j][k..l][x] == b[i..j][k + x];
      assert b[i..j][k + x] == b[i + (k + x)];
    }
  }

  lemma RemoveAtExact<T>(s: seq<T>, k: nat, i: nat)
    requires k < |s| && i < |s| - 1
    ensures |RemoveAt(s, k)| == |s| - 1 && RemoveAt(s, k)[i] == if i < k then s[i] else s[i + 1]
  {
  }

  // The number a run of bytes stands for, highest first.
  function BigEndian(s: seq<byte>): nat {
    if s == [] then 0 else BigEndian(s[..|s| - 1]) * 0x100 + s[|s| - 1]
  }

  lemma BigEndianOf(s: seq<byte>)
    ensures |s| == 1 ==> BigEndian(s) == s[0]
    ensures |s| == 2 ==> BigEndian(s) == s[0] as int * 0x100 + s[1]
    ensures |s| == 3 ==> BigEndian(s) == s[0] as int * 0x1_0000 + s[1] as int * 0x100 + s[2]
    ensures |s| == 4 ==>
      BigEndian(s) == s[0] as int * 0x100_0000 + s[1] as int * 0x1_0000 + s[2] as int * 0x100 + s[3]
  {
    if 2 <= |s| <= 4 {
      BigEndianOf(s[..|s| - 1]);
    }
  }

  // The buffer b after the bytes of s were stored from position off on.
  function Splice(b: seq<byte>, off: nat, s: seq<byte>): (r: seq<byte>)
    requires off + |s| <= |b|
    ensures |r| == |b|
  {
    b[..off] + s + b[off + |s|..]
  }

  lemma SpliceAt(b: seq<byte>, off: nat, s: seq<byte>, i: nat)
    requires off + |s| <= |b| && i < |b|
    ensures Splice(b, off, s)[i] == if off <= i < off + |s| then s[i - off] else b[i]
  {
  }

  lemma SpliceEmpty(b: seq<byte>, off: nat)
    requires off <= |b|
    ensures Splice(b, off, []) == b
  {
  }

  lemma SplicePrefix(b: seq<byte>, s: seq<byte>, n: nat)
    requires n <= |s| <= |b|
    ensures Splice(b, 0, s)[..n] == s[..n]
    ensures n == |s| ==> Splice(b, 0, s)[..n] == s
  {
  }

  lemma SpliceSplice(b: seq<byte>, off: nat, s: seq<byte>, t: seq<byte>)
    requires off + |s| + |t| <= |b|
    ensures Splice(Splice(b, off, s), off + |s|, t) == Splice(b, off, s + t)
  {
  }

  lemma SpliceSnoc(b: seq<byte>, off: nat, s: seq<byte>, x: byte)
    requires off + |s| < |b|
    ensures Splice(b, off, s)[off + |s| := x] == Splice(b, off, s + [x])
  {
  }

  method MemCpy(dst: array<byte>, off: nat, src: seq<byte>)
    requires off + |src| <= dst.Length
    modifies dst
    ensures dst[..] == Splice(old(dst[..]), off, src)
  {
    ghost var b := dst[..];
    for i := 0 to |src|
      invariant dst[..] == Splice(b, off, src[..i])
    {
      SpliceSnoc(b, off, src[..i], src[i]);
      assert src[..i + 1] == src[..i] + [src[i]];
      dst[off + i] := src[i];
    }
    assert src[..|src|] == src;
  }
}
