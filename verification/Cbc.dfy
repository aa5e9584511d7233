/**
 CBC mode with PKCS#7 padding over an abstract 128-bit block cipher (section 6.2 of NIST SP 800-38A,
 section 6.3 of RFC 5652): the block loops of wrappers/wrapper_crypto.c, iotx_aes_cbc_encrypt/decrypt
 of coap_cloud/iotx_coap_api.c, and alcs_encrypt/alcs_decrypt of dev_model/alcs_api.c, which start
 the last block from the IV again.
 */
module Cbc {
  import opened Words
  import opened CoapWire
  import opened CoapMessage
  import UriPath

  type Block = b: seq<byte> | |b| == 16 witness seq(16, _ => 0)

  /** A block cipher under one key. */
  datatype Cipher = Cipher(enc: Block -> Block, dec: Block -> Block)

  ghost predicate Invertible(c: Cipher) {
    forall x: Block :: c.dec(c.enc(x)) == x
  }

  function XorByte(a: byte, b: byte): byte {
    XorBound(a, b, 8);
    assert Pow2(8) == 0x100;
    Xor(a, b)
  }

  function XorBlock(a: Block, b: Block): Block {
    seq(16, i requires 0 <= i < 16 => XorByte(a[i], b[i]))
  }

  lemma XorBlockCancels(a: Block, b: Block)
    ensures XorBlock(XorBlock(a, b), b) == a
  {
    forall i | 0 <= i < 16 ensures XorBlock(XorBlock(a, b), b)[i] == a[i] {
      XorCancels(a[i], b[i]);
    }
  }

  // ---------------------------------------------------------------- CBC over whole blocks

  predicate Blocks(s: seq<byte>) {
    |s| % 16 == 0
  }

  function CbcEnc(c: Cipher, iv: Block, s: seq<byte>): (r: seq<byte>)
    requires Blocks(s)
    ensures |r| == |s|
    decreases |s|
  {
    if s == [] then []
    else
      var x := c.enc(XorBlock(iv, s[..16]));
      x + CbcEnc(c, x, s[16..])
  }

  function CbcDec(c: Cipher, iv: Block, s: seq<byte>): (r: seq<byte>)
    requires Blocks(s)
    ensures |r| == |s|
    decreases |s|
  {
    if s == [] then []
    else XorBlock(c.dec(s[..16]), iv) + CbcDec(c, s[..16], s[16..])
  }

  // The chaining value after these cipher blocks.
  function Chain(iv: Block, cipher: seq<byte>): Block
    requires Blocks(cipher)
  {
    if cipher == [] then iv else cipher[|cipher| - 16..]
  }

  lemma {:induction false} CbcEncConcat(c: Cipher, iv: Block, s: seq<byte>, t: seq<byte>)
    requires Blocks(s) && Blocks(t)
    ensures Blocks(s + t)
    ensures CbcEnc(c, iv, s + t) == CbcEnc(c, iv, s) + CbcEnc(c, Chain(iv, CbcEnc(c, iv, s)), t)
    decreases |s|
  {
    hide XorBlock, Chain;
    if s == [] {
      EmptyCbc(c, iv);
      assert s + t == t;
    } else {
      var x := c.enc(XorBlock(iv, s[..16]));
      assert (s + t)[..16] == s[..16] && (s + t)[16..] == s[16..] + t;
      CbcEncConcat(c, x, s[16..], t);
      ChainTail(iv, x, CbcEnc(c, x, s[16..]));
    }
  }

  lemma ChainTail(iv: Block, x: Block, rest: seq<byte>)
    requires Blocks(rest)
    ensures Blocks(x + rest) && Chain(iv, x + rest) == Chain(x, rest)
  {
  }

  lemma {:induction false} CbcDecConcat(c: Cipher, iv: Block, s: seq<byte>, t: seq<byte>)
    requires Blocks(s) && Blocks(t)
    ensures Blocks(s + t)
    ensures CbcDec(c, iv, s + t) == CbcDec(c, iv, s) + CbcDec(c, Chain(iv, s), t)
    decreases |s|
  {
    hide XorBlock, Chain;
    if s == [] {
      EmptyCbc(c, iv);
      assert s + t == t;
    } else {
      assert (s + t)[..16] == s[..16] && (s + t)[16..] == s[16..] + t;
      CbcDecConcat(c, s[..16], s[16..], t);
      assert s == s[..16] + s[16..];
      ChainTail(iv, s[..16], s[16..]);
    }
  }

  lemma {:induction false} CbcInverse(c: Cipher, iv: Block, s: seq<byte>)
    requires Invertible(c) && Blocks(s)
    ensures CbcDec(c, iv, CbcEnc(c, iv, s)) == s
    decreases |s|
  {
    if s != [] {
      var p: Block := s[..16];
      var x := c.enc(XorBlock(iv, p));
      var r := CbcEnc(c, iv, s);
      assert r[..16] == x && r[16..] == CbcEnc(c, x, s[16..]);
      CbcInverse(c, x, s[16..]);
      XorComm(iv, p);
      XorBlockCancels(p, iv);
      assert s == s[..16] + s[16..];
    }
  }

  // Block i of a text.
  function BlockAt(s: seq<byte>, i: nat): Block
    requires 16 * i + 16 <= |s|
  {
    s[16 * i..16 * i + 16]
  }

  // CBC block by block (section 6.2 of NIST SP 800-38A): each plaintext block is combined with the cipher
  // block before it, the first with the IV, and enciphered.
  lemma {:induction false} CbcEncBlocks(c: Cipher, iv: Block, s: seq<byte>, i: nat)
    requires Blocks(s) && 16 * i < |s|
    ensures var x := CbcEnc(c, iv, s);
      BlockAt(x, i) == c.enc(XorBlock(if i == 0 then iv else BlockAt(x, i - 1), BlockAt(s, i)))
    decreases |s|
  {
    hide XorBlock;
    var x := CbcEnc(c, iv, s);
    var first := c.enc(XorBlock(iv, s[..16]));
    assert x[..16] == first && x[16..] == CbcEnc(c, first, s[16..]);
    if i > 0 {
      CbcEncBlocks(c, first, s[16..], i - 1);
      BlockShift(x, i);
      BlockShift(s, i);
      if i > 1 {
        BlockShift(x, i - 1);
      }
    }
  }

  lemma {:induction false} CbcDecBlocks(c: Cipher, iv: Block, s: seq<byte>, i: nat)
    requires Blocks(s) && 16 * i < |s|
    ensures BlockAt(CbcDec(c, iv, s), i) == XorBlock(c.dec(BlockAt(s, i)), if i == 0 then iv else BlockAt(s, i - 1))
    decreases |s|
  {
    hide XorBlock;
    var x := CbcDec(c, iv, s);
    assert x[..16] == XorBlock(c.dec(s[..16]), iv) && x[16..] == CbcDec(c, s[..16], s[16..]);
    if i > 0 {
      CbcDecBlocks(c, s[..16], s[16..], i - 1);
      BlockShift(x, i);
      BlockShift(s, i);
      if i > 1 {
        BlockShift(s, i - 1);
      }
    }
  }

  lemma BlockShift(s: seq<byte>, i: nat)
    requires 0 < i && 16 * i + 16 <= |s|
    ensures BlockAt(s, i) == BlockAt(s[16..], i - 1)
  {
    SubSlice(s, 16, |s|, 16 * (i - 1), 16 * i);
    assert s[16..] == s[16..|s|];
  }

  // Blocks are combined bit by bit.
  lemma XorBlockBits(a: Block, b: Block, i: nat, k: nat)
    requires i < 16
    ensures XorBlock(a, b)[i] / Pow2(k) % 2 == if a[i] / Pow2(k) % 2 == b[i] / Pow2(k) % 2 then 0 else 1
  {
    XorBits(a[i], b[i], k);
  }

  lemma {:induction false} XorSymmetric(a: nat, b: nat)
    ensures Xor(a, b) == Xor(b, a)
    decreases a + b
  {
    if a > 0 && b > 0 {
      XorSymmetric(a / 2, b / 2);
    }
  }

  lemma XorComm(a: Block, b: Block)
    ensures XorBlock(a, b) == XorBlock(b, a)
  {
    forall i | 0 <= i < 16 ensures XorBlock(a, b)[i] == XorBlock(b, a)[i] {
      XorSymmetric(a[i], b[i]);
    }
  }

  // ---------------------------------------------------------------- padding

  function Repeat(x: byte, n: nat): (s: seq<byte>)
    ensures |s| == n && forall i :: 0 <= i < n ==> s[i] == x
  {
    seq(n, _ => x)
  }

  function PadLen(n: nat): (p: nat)
    ensures 1 <= p <= 16 && (n + p) % 16 == 0
  {
    16 - n % 16
  }

  function Padded(m: seq<byte>): (s: seq<byte>)
    ensures Blocks(s) && |s| == |m| + PadLen(|m|)
  {
    m + Repeat(PadLen(|m|), PadLen(|m|))
  }

  // The text stands first, then as many bytes as complete the block, each of them that number: the padding
  // of section 6.3 of RFC 5652.
  predicate PaddedTo(s: seq<byte>, m: seq<byte>) {
    && |s| % 16 == 0 && |m| < |s| <= |m| + 16 && s[..|m|] == m
    && forall i :: |m| <= i < |s| ==> s[i] as int == |s| - |m|
  }

  lemma PaddedExact(m: seq<byte>)
    ensures PaddedTo(Padded(m), m)
  {
  }

  // What the last byte of a plaintext announces.
  predicate WellPadded(s: seq<byte>) {
    s != [] && 1 <= s[|s| - 1] <= 16 && s[|s| - 1] as int <= |s|
  }

  // Taking off what the last byte says, whatever the padding bytes are, stays inside the text and leaves
  // a place for the zero that ends it. From 0x80 on it would depend on whether a C char has a sign.
  predicate PadFits(s: seq<byte>, room: nat) {
    s != [] && s[|s| - 1] as int <= Min(|s|, 0x7F) && (s[|s| - 1] == 0 ==> |s| < room)
  }

  function Unpadded(s: seq<byte>): seq<byte>
    requires s != [] && s[|s| - 1] as int <= |s|
  {
    s[..|s| - s[|s| - 1] as int]
  }

  lemma PaddingInverse(m: seq<byte>)
    ensures WellPadded(Padded(m)) && Unpadded(Padded(m)) == m
    ensures forall room :: PadFits(Padded(m), room)
  {
  }

  // The length the callers reserve: the least multiple of 16 above the length of the plaintext.
  function EncryptedLen(n: nat): nat {
    n / 16 * 16 + 16
  }

  lemma EncryptedLenLeast(n: nat, m: nat)
    ensures EncryptedLen(n) == n + PadLen(n)
    ensures EncryptedLen(n) > n && EncryptedLen(n) % 16 == 0
    ensures m > n && m % 16 == 0 ==> m >= EncryptedLen(n)
  {
  }

  // ---------------------------------------------------------------- the two schemes

  function CloudEnc(c: Cipher, iv: Block, m: seq<byte>): seq<byte> {
    CbcEnc(c, iv, Padded(m))
  }

  lemma CloudInverse(c: Cipher, iv: Block, m: seq<byte>)
    requires Invertible(c)
    ensures var x := CloudEnc(c, iv, m);
      && |x| == EncryptedLen(|m|) && Blocks(x)
      && WellPadded(CbcDec(c, iv, x)) && Unpadded(CbcDec(c, iv, x)) == m
  {
    CbcInverse(c, iv, Padded(m));
    PaddingInverse(m);
  }

  // Deciphered block by block, the ciphertext is the message and its padding.
  lemma CloudPlain(c: Cipher, iv: Block, m: seq<byte>)
    requires Invertible(c)
    ensures Blocks(CloudEnc(c, iv, m)) && PaddedTo(CbcDec(c, iv, CloudEnc(c, iv, m)), m)
  {
    hide PaddedTo, Padded;
    CbcInverse(c, iv, Padded(m));
    PaddedExact(m);
  }

  // The last block is chained to the IV, not to the block before it.
  function RestartEnc(c: Cipher, iv: Block, s: seq<byte>): (r: seq<byte>)
    requires Blocks(s) && s != []
    ensures |r| == |s|
  {
    CbcEnc(c, iv, s[..|s| - 16]) + CbcEnc(c, iv, s[|s| - 16..])
  }

  function RestartDec(c: Cipher, iv: Block, s: seq<byte>): (r: seq<byte>)
    requires Blocks(s) && s != []
    ensures |r| == |s|
  {
    CbcDec(c, iv, s[..|s| - 16]) + CbcDec(c, iv, s[|s| - 16..])
  }

  function AlcsEnc(c: Cipher, iv: Block, m: seq<byte>): seq<byte> {
    RestartEnc(c, iv, Padded(m))
  }

  lemma AlcsInverse(c: Cipher, iv: Block, m: seq<byte>)
    requires Invertible(c)
    ensures var x := AlcsEnc(c, iv, m);
      && |x| == EncryptedLen(|m|) && Blocks(x) && x != []
      && WellPadded(RestartDec(c, iv, x)) && Unpadded(RestartDec(c, iv, x)) == m
  {
    hide CbcEnc, CbcDec, Padded, Unpadded, WellPadded;
    RestartInverse(c, iv, Padded(m));
    PaddingInverse(m);
  }

  lemma RestartInverse(c: Cipher, iv: Block, s: seq<byte>)
    requires Invertible(c) && Blocks(s) && s != []
    ensures RestartDec(c, iv, RestartEnc(c, iv, s)) == s
  {
    hide CbcEnc, CbcDec;
    var a, b := s[..|s| - 16], s[|s| - 16..];
    var x := RestartEnc(c, iv, s);
    assert x[..|x| - 16] == CbcEnc(c, iv, a) && x[|x| - 16..] == CbcEnc(c, iv, b);
    CbcInverse(c, iv, a);
    CbcInverse(c, iv, b);
    assert s == a + b;
  }

  lemma AlcsPlain(c: Cipher, iv: Block, m: seq<byte>)
    requires Invertible(c)
    ensures var x := AlcsEnc(c, iv, m); Blocks(x) && x != [] && PaddedTo(RestartDec(c, iv, x), m)
  {
    hide PaddedTo, Padded, RestartEnc, RestartDec;
    RestartInverse(c, iv, Padded(m));
    PaddedExact(m);
  }

  // Restarted CBC block by block: the last block is combined with the IV.
  lemma RestartBlocks(c: Cipher, iv: Block, s: seq<byte>, i: nat)
    requires Blocks(s) && 16 * i < |s|
    ensures var x := RestartEnc(c, iv, s);
      BlockAt(x, i) ==
        c.enc(XorBlock(if i == 0 || 16 * i + 16 == |s| then iv else BlockAt(x, i - 1), BlockAt(s, i)))
  {
    hide CbcEnc, XorBlock, BlockAt;
    var a, b := s[..|s| - 16], s[|s| - 16..];
    var e, y := CbcEnc(c, iv, a), CbcEnc(c, iv, b);
    assert s == a + b;
    if 16 * i < |a| {
      CbcEncBlocks(c, iv, a, i);
      BlockFront(e, y, i);
      BlockFront(a, b, i);
      if i > 0 {
        BlockFront(e, y, i - 1);
      }
    } else {
      OneBlock(c, iv, b);
      BlockLast(e, y, i);
      BlockLast(a, b, i);
    }
  }

  lemma RestartDecBlocks(c: Cipher, iv: Block, s: seq<byte>, i: nat)
    requires Blocks(s) && 16 * i < |s|
    ensures BlockAt(RestartDec(c, iv, s), i) ==
            XorBlock(c.dec(BlockAt(s, i)), if i == 0 || 16 * i + 16 == |s| then iv else BlockAt(s, i - 1))
  {
    hide CbcDec, XorBlock, BlockAt;
    var a, b := s[..|s| - 16], s[|s| - 16..];
    var e, y := CbcDec(c, iv, a), CbcDec(c, iv, b);
    assert s == a + b;
    if 16 * i < |a| {
      CbcDecBlocks(c, iv, a, i);
      BlockFront(e, y, i);
      BlockFront(a, b, i);
      if i > 0 {
        BlockFront(a, b, i - 1);
      }
    } else {
      OneBlockDec(c, iv, b);
      BlockLast(e, y, i);
      BlockLast(a, b, i);
    }
  }

  lemma OneBlockDec(c: Cipher, iv: Block, b: Block)
    ensures CbcDec(c, iv, b) == XorBlock(c.dec(b), iv)
  {
    assert b[..16] == b && b[16..] == [];
  }

  lemma BlockFront(a: seq<byte>, b: seq<byte>, i: nat)
    requires 16 * i + 16 <= |a|
    ensures BlockAt(a + b, i) == BlockAt(a, i)
  {
  }

  lemma BlockLast(a: seq<byte>, b: Block, i: nat)
    requires |a| == 16 * i
    ensures BlockAt(a + b, i) == b
  {
  }

  // Restarting the last block gives ordinary CBC exactly when there is only that block, or the block
  // before it happened to encrypt to the IV.
  lemma RestartIsCbc(c: Cipher, iv: Block, s: seq<byte>)
    requires Invertible(c) && Blocks(s) && s != []
    ensures RestartEnc(c, iv, s) == CbcEnc(c, iv, s)
       <==> |s| == 16 || Chain(iv, CbcEnc(c, iv, s[..|s| - 16])) == iv
  {
    var a, b := s[..|s| - 16], s[|s| - 16..];
    var x := CbcEnc(c, iv, a);
    var v := Chain(iv, x);
    assert s == a + b;
    CbcEncConcat(c, iv, a, b);
    assert (x + CbcEnc(c, iv, b))[|x|..] == CbcEnc(c, iv, b);
    assert (x + CbcEnc(c, v, b))[|x|..] == CbcEnc(c, v, b);
    if CbcEnc(c, iv, b) == CbcEnc(c, v, b) {
      OneBlock(c, iv, b);
      OneBlock(c, v, b);
      assert XorBlock(iv, b) == XorBlock(v, b);
      XorBlockCancels(iv, b);
      XorBlockCancels(v, b);
    }
  }

  lemma OneBlock(c: Cipher, iv: Block, b: Block)
    ensures CbcEnc(c, iv, b) == c.enc(XorBlock(iv, b))
  {
    assert b[..16] == b && b[16..] == [];
  }

  // ---------------------------------------------------------------- the HAL loops

  lemma CbcEncSnoc(c: Cipher, iv: Block, s: seq<byte>, b: Block)
    requires Blocks(s)
    ensures var v := Chain(iv, CbcEnc(c, iv, s));
      var x := c.enc(XorBlock(v, b));
      && Blocks(s + b) && CbcEnc(c, iv, s + b) == CbcEnc(c, iv, s) + x
      && Chain(iv, CbcEnc(c, iv, s + b)) == x
  {
    CbcEncConcat(c, iv, s, b);
    OneBlock(c, Chain(iv, CbcEnc(c, iv, s)), b);
  }

  lemma CbcDecSnoc(c: Cipher, iv: Block, s: seq<byte>, b: Block)
    requires Blocks(s)
    ensures Blocks(s + b) && Chain(iv, s + b) == b
    ensures CbcDec(c, iv, s + b) == CbcDec(c, iv, s) + XorBlock(c.dec(b), Chain(iv, s))
  {
    CbcDecConcat(c, iv, s, b);
    assert b[..16] == b && b[16..] == [];
  }

  // A handle carries the chaining value from one call to the next.
  class AesHandle {
    const cipher: Cipher
    var iv: Block

    constructor (cipher: Cipher, iv: Block)
      ensures this.cipher == cipher && this.iv == iv
    {
      this.cipher := cipher;
      this.iv := iv;
    }

    // Encrypts blockNum blocks of src from position from on, into dst from position `to` on.
    method Encrypt(src: seq<byte>, from: nat, blockNum: nat, dst: array<byte>, to: nat)
      requires from + 16 * blockNum <= |src| && to + 16 * blockNum <= dst.Length
      modifies this, dst
      ensures var s := src[from..from + 16 * blockNum];
        && Blocks(s)
        && dst[..] == Splice(old(dst[..]), to, CbcEnc(cipher, old(iv), s))
        && iv == Chain(old(iv), CbcEnc(cipher, old(iv), s))
    {
      hide Splice, CbcEnc, Chain, XorBlock;
      ghost var b, v := dst[..], iv;
      SpliceEmpty(b, to);
      EmptyCbc(cipher, v);
      assert src[from..from + 0] == [];
      for i := 0 to blockNum
        invariant Blocks(src[from..from + 16 * i])
        invariant dst[..] == Splice(b, to, CbcEnc(cipher, v, src[from..from + 16 * i]))
        invariant iv == Chain(v, CbcEnc(cipher, v, src[from..from + 16 * i]))
      {
        ghost var s := src[from..from + 16 * i];
        var p: Block := src[from + 16 * i..from + 16 * i + 16];
        var x := cipher.enc(XorBlock(iv, p));
        CbcEncSnoc(cipher, v, s, p);
        assert src[from..from + 16 * (i + 1)] == s + p;
        SpliceSplice(b, to, CbcEnc(cipher, v, s), x);
        MemCpy(dst, to + 16 * i, x);
        iv := x;
      }
    }

    method Decrypt(src: seq<byte>, from: nat, blockNum: nat, dst: array<byte>, to: nat)
      requires from + 16 * blockNum <= |src| && to + 16 * blockNum <= dst.Length
      modifies this, dst
      ensures var s := src[from..from + 16 * blockNum];
        && Blocks(s)
        && dst[..] == Splice(old(dst[..]), to, CbcDec(cipher, old(iv), s))
        && iv == Chain(old(iv), s)
    {
      hide Splice, CbcDec, Chain, XorBlock;
      ghost var b, v := dst[..], iv;
      SpliceEmpty(b, to);
      EmptyCbc(cipher, v);
      assert src[from..from + 0] == [];
      for i := 0 to blockNum
        invariant Blocks(src[from..from + 16 * i])
        invariant dst[..] == Splice(b, to, CbcDec(cipher, v, src[from..from + 16 * i]))
        invariant iv == Chain(v, src[from..from + 16 * i])
      {
        ghost var s := src[from..from + 16 * i];
        var x: Block := src[from + 16 * i..from + 16 * i + 16];
        var p := XorBlock(cipher.dec(x), iv);
        CbcDecSnoc(cipher, v, s, x);
        assert src[from..from + 16 * (i + 1)] == s + x;
        SpliceSplice(b, to, CbcDec(cipher, v, s), p);
        MemCpy(dst, to + 16 * i, p);
        iv := x;
      }
    }
  }

  lemma EmptyCbc(c: Cipher, iv: Block)
    ensures CbcEnc(c, iv, []) == [] && CbcDec(c, iv, []) == [] && Chain(iv, []) == iv
  {
  }

  // The last block: what is left of the message, filled up with the pad length.
  function LastBlock(m: seq<byte>): Block {
    m[|m| / 16 * 16..] + Repeat(PadLen(|m|), PadLen(|m|))
  }

  lemma PaddedSplit(m: seq<byte>)
    ensures var n := |m| / 16 * 16;
      Blocks(m[..n]) && Padded(m) == m[..n] + LastBlock(m)
  {
    assert m == m[..|m| / 16 * 16] + m[|m| / 16 * 16..];
  }

  // ---------------------------------------------------------------- iotx_aes_cbc_encrypt and _decrypt

  // One handle for both calls: ordinary CBC over the padded message.
  method AesCbcEncrypt(c: Cipher, iv: Block, src: seq<byte>, out: array<byte>) returns (n: nat)
    requires EncryptedLen(|src|) <= out.Length
    modifies out
    ensures n == EncryptedLen(|src|) == |CloudEnc(c, iv, src)|
    ensures out[..] == Splice(old(out[..]), 0, CloudEnc(c, iv, src))
    ensures Invertible(c) ==> n % 16 == 0 < n && PaddedTo(CbcDec(c, iv, out[..n]), src)
  {
    hide Splice, CbcEnc, Chain, LastBlock, Padded;
    ghost var b := out[..];
    var len1 := |src| / 16 * 16;
    var h := new AesHandle(c, iv);
    PaddedSplit(src);
    EmptyCbc(c, iv);
    SpliceEmpty(b, 0);
    if len1 != 0 {
      h.Encrypt(src, 0, len1 / 16, out, 0);
    }
    assert src[0..len1] == src[..len1];
    ghost var x := CbcEnc(c, iv, src[..len1]);
    assert h.iv == Chain(iv, x);
    var buf := LastBlock(src);
    assert buf[0..16] == buf;
    CbcEncConcat(c, iv, src[..len1], buf);
    SpliceSplice(b, 0, x, CbcEnc(c, h.iv, buf));
    h.Encrypt(buf, 0, 1, out, len1);
    CloudPlaintext(c, iv, src, b);
    return len1 + 16;
  }

  lemma CloudPlaintext(c: Cipher, iv: Block, src: seq<byte>, b: seq<byte>)
    requires |CloudEnc(c, iv, src)| <= |b|
    ensures var x := CloudEnc(c, iv, src);
      Splice(b, 0, x)[..|x|] == x && (Invertible(c) ==> Blocks(x) && x != [] && PaddedTo(CbcDec(c, iv, x), src))
  {
    hide CloudEnc, PaddedTo, Invertible, Splice;
    SplicePrefix(b, CloudEnc(c, iv, src), |CloudEnc(c, iv, src)|);
    if Invertible(c) {
      CloudPlain(c, iv, src);
      CloudSome(c, iv, src);
    }
  }

  lemma CloudSome(c: Cipher, iv: Block, m: seq<byte>)
    ensures CloudEnc(c, iv, m) != []
  {
  }

  lemma AlcsPlaintext(c: Cipher, iv: Block, src: seq<byte>, b: seq<byte>)
    requires |AlcsEnc(c, iv, src)| <= |b|
    ensures var x := AlcsEnc(c, iv, src);
      Splice(b, 0, x)[..|x|] == x && (Invertible(c) ==> Blocks(x) && x != [] && PaddedTo(RestartDec(c, iv, x), src))
  {
    hide AlcsEnc, PaddedTo, Invertible, Splice;
    SplicePrefix(b, AlcsEnc(c, iv, src), |AlcsEnc(c, iv, src)|);
    if Invertible(c) {
      AlcsPlain(c, iv, src);
    }
  }

  // Takes the padding off a decrypted buffer and ends the text with a zero byte.
  method Unpad(out: array<byte>, len: nat, ghost plain: seq<byte>) returns (n: nat)
    requires len == |plain| <= out.Length && out[..len] == plain && PadFits(plain, out.Length)
    modifies out
    ensures n == |Unpadded(plain)| < out.Length && out[..n] == Unpadded(plain) && out[n] == 0
    ensures n == len - plain[len - 1] as int && out[..n] == plain[..n]
  {
    var pad := out[len - 1];
    out[len - pad as int] := 0;
    return len - pad as int;
  }

  // All but the last block, then the last block, on one handle.
  method AesCbcDecrypt(c: Cipher, iv: Block, src: seq<byte>, out: array<byte>) returns (n: nat)
    requires Blocks(src) && src != [] && |src| <= out.Length
    requires PadFits(CbcDec(c, iv, src), out.Length)
    modifies out
    ensures n < out.Length && out[..n] == Unpadded(CbcDec(c, iv, src)) && out[n] == 0
    ensures var plain := CbcDec(c, iv, src); n == |src| - plain[|src| - 1] as int && out[..n] == plain[..n]
  {
    hide Splice, CbcDec, Chain, PadFits;
    var h := new AesHandle(c, iv);
    var blocks := |src| / 16;
    var offset := if blocks > 0 then (blocks - 1) * 16 else 0;
    EmptyCbc(c, iv);
    SpliceEmpty(out[..], 0);
    ghost var a, l := src[..offset], src[offset..];
    assert src[0..offset] == a && src[offset..offset + 16] == l && src == a + l;
    if blocks > 1 {
      h.Decrypt(src, 0, blocks - 1, out, 0);
    }
    ghost var b, x := old(out[..]), CbcDec(c, iv, a);
    assert out[..] == Splice(b, 0, x) && h.iv == Chain(iv, a);
    out[offset] := 0;
    CbcDecConcat(c, iv, a, l);
    SpliceAfter(b, x, CbcDec(c, h.iv, l), 0);
    h.Decrypt(src, offset, 1, out, offset);
    n := Unpad(out, |src|, CbcDec(c, iv, src));
  }

  // A byte stored where the next bytes go leaves no trace.
  lemma SpliceAfter(b: seq<byte>, s: seq<byte>, t: seq<byte>, z: byte)
    requires |s| + |t| <= |b| && t != []
    ensures Splice(Splice(b, 0, s)[|s| := z], |s|, t) == Splice(b, 0, s + t)
    ensures Splice(b, 0, s + t)[..|s + t|] == s + t
  {
  }

  // ---------------------------------------------------------------- alcs_encrypt and alcs_decrypt

  // A fresh handle for the last block: it is chained to the IV.
  method AlcsEncrypt(c: Cipher, iv: Block, src: seq<byte>, out: array<byte>) returns (n: nat)
    requires EncryptedLen(|src|) <= out.Length
    modifies out
    ensures n == EncryptedLen(|src|) == |AlcsEnc(c, iv, src)|
    ensures out[..] == Splice(old(out[..]), 0, AlcsEnc(c, iv, src))
    ensures Invertible(c) ==> n % 16 == 0 < n && PaddedTo(RestartDec(c, iv, out[..n]), src)
  {
    hide Splice, CbcEnc, Chain, LastBlock, Padded;
    ghost var b := out[..];
    var len1 := |src| / 16 * 16;
    PaddedSplit(src);
    EmptyCbc(c, iv);
    SpliceEmpty(b, 0);
    if len1 != 0 {
      var h := new AesHandle(c, iv);
      h.Encrypt(src, 0, len1 / 16, out, 0);
    }
    assert src[0..len1] == src[..len1];
    ghost var x := CbcEnc(c, iv, src[..len1]);
    var buf := LastBlock(src);
    assert buf[0..16] == buf;
    assert Padded(src)[..len1] == src[..len1] && Padded(src)[len1..] == buf;
    SpliceSplice(b, 0, x, CbcEnc(c, iv, buf));
    var h := new AesHandle(c, iv);
    h.Encrypt(buf, 0, 1, out, len1);
    AlcsPlaintext(c, iv, src, b);
    return len1 + 16;
  }

  method AlcsDecrypt(c: Cipher, iv: Block, src: seq<byte>, out: array<byte>) returns (n: nat)
    requires Blocks(src) && src != [] && |src| <= out.Length
    requires PadFits(RestartDec(c, iv, src), out.Length)
    modifies out
    ensures n < out.Length && out[..n] == Unpadded(RestartDec(c, iv, src)) && out[n] == 0
    ensures var plain := RestartDec(c, iv, src); n == |src| - plain[|src| - 1] as int && out[..n] == plain[..n]
  {
    hide Splice, CbcDec, Chain, PadFits;
    var blocks := |src| / 16;
    var offset := if blocks > 0 then (blocks - 1) * 16 else 0;
    EmptyCbc(c, iv);
    SpliceEmpty(out[..], 0);
    assert src[0..offset] == src[..offset] && src[offset..offset + 16] == src[offset..];
    if blocks > 1 {
      var h := new AesHandle(c, iv);
      h.Decrypt(src, 0, blocks - 1, out, 0);
    }
    ghost var b, x := old(out[..]), CbcDec(c, iv, src[..offset]);
    assert out[..] == Splice(b, 0, x);
    out[offset] := 0;
    SpliceAfter(b, x, CbcDec(c, iv, src[offset..]), 0);
    var h := new AesHandle(c, iv);
    h.Decrypt(src, offset, 1, out, offset);
    n := Unpad(out, |src|, RestartDec(c, iv, src));
  }

  // ---------------------------------------------------------------- sending a message encrypted

  const OPTION_OBSERVE: uint16 := 6
  const OPTION_SESSIONID: uint16 := 71

  function SecureOpts(observe: bool, sessionId: uint32): seq<Opt> {
    (if observe then [Opt(OPTION_OBSERVE, UintBytes(0))] else [])
    + [Opt(UriPath.OPTION_CONTENT_FORMAT, UintBytes(UriPath.CT_OCTET_STREAM)),
       Opt(OPTION_SESSIONID, UintBytes(sessionId))]
  }

  lemma SecureExact(observe: bool, sessionId: uint32)
    ensures var os := SecureOpts(observe, sessionId);
      && os[|os| - 2] == Opt(12, [42]) && os[|os| - 1].num == 71 && BigEndian(os[|os| - 1].val) == sessionId
      && os[..|os| - 2] == if observe then [Opt(6, [])] else []
  {
    UintWidth(sessionId);
    assert UintBytes(42) == [42] && UintBytes(0) == [];
  }

  // The options of an encrypted message, as far as there are places; `observe` says the argument was 0.
  method AddSecureOptions(msg: CoAPMessage, observe: bool, sessionId: uint32)
    requires msg.Built()
    modifies msg`optcount, msg`optdelta, msg`added, msg.options
    ensures msg.Built()
    ensures msg.added == UriPath.Room(old(msg.added) + SecureOpts(observe, sessionId), MAX_OPTION_NUM)
  {
    hide UintBytes, UriPath.Room, CoAPMessage.Built;
    ghost var was: seq<Opt> := msg.added;
    ghost var o1: seq<Opt> := if observe then [Opt(OPTION_OBSERVE, UintBytes(0))] else [];
    ghost var o2 := Opt(UriPath.OPTION_CONTENT_FORMAT, UintBytes(UriPath.CT_OCTET_STREAM));
    ghost var o3 := Opt(OPTION_SESSIONID, UintBytes(sessionId));
    AllFit(msg);
    if observe {
      UriPath.AddUint(msg, OPTION_OBSERVE, 0);
    }
    UriPath.AddUint(msg, UriPath.OPTION_CONTENT_FORMAT, UriPath.CT_OCTET_STREAM);
    UriPath.RoomRoom(was + o1, [o2], MAX_OPTION_NUM);
    UriPath.AddUint(msg, OPTION_SESSIONID, sessionId);
    UriPath.RoomRoom(was + o1 + [o2], [o3], MAX_OPTION_NUM);
    assert was + o1 + [o2] + [o3] == was + SecureOpts(observe, sessionId);
  }

  lemma AllFit(msg: CoAPMessage)
    requires msg.Built()
    ensures UriPath.Room(msg.added, MAX_OPTION_NUM) == msg.added && msg.added + [] == msg.added
  {
    UriPath.CountAdded(msg);
  }

  // The encrypted payload is in the message while it is sent, and its own one after. The buffer has 64
  // bytes, or the encrypted length if that is more.
  // `answer` is what sending returns.
  method DoSecureSend(msg: CoAPMessage, c: Cipher, iv: Block, answer: Status)
    returns (ghost sent: Msg, payload: seq<byte>, r: Status)
    requires msg.Valid() && EncryptedLen(|msg.payload|) < 0x1_0000
    modifies msg`payload, msg`payloadlen
    ensures msg.Valid() && msg.payload == old(msg.payload) && msg.payloadlen == old(msg.payloadlen)
    ensures sent == msg.View().(payload := AlcsEnc(c, iv, msg.payload)) && payload == sent.payload && r == answer
  {
    hide Splice, AlcsEnc;
    var encryptlen := |msg.payload| / 16 * 16 + 16;
    var buf := new byte[if encryptlen > 64 then encryptlen else 64](_ => 0);
    var payloadOld, lenOld := msg.payload, msg.payloadlen;
    ghost var b := buf[..];
    var n := AlcsEncrypt(c, iv, payloadOld, buf);
    SplicePrefix(b, AlcsEnc(c, iv, payloadOld), n);
    msg.payload, msg.payloadlen := buf[..n], n;
    sent := msg.View();
    payload := msg.payload;
    r := answer;
    msg.payload, msg.payloadlen := payloadOld, lenOld;
  }

  method InternalSecureSend(msg: CoAPMessage, observe: bool, sessionId: uint32, c: Cipher, iv: Block, answer: Status)
    returns (ghost sent: Msg, payload: seq<byte>, r: Status)
    requires msg.Built() && EncryptedLen(|msg.payload|) < 0x1_0000
    modifies msg`optcount, msg`optdelta, msg`added, msg.options, msg`payload, msg`payloadlen
    ensures msg.Built()
    ensures msg.added == UriPath.Room(old(msg.added) + SecureOpts(observe, sessionId), MAX_OPTION_NUM)
    ensures msg.View() == old(msg.View()).(options := msg.View().options)
    ensures sent == msg.View().(payload := AlcsEnc(c, iv, old(msg.payload))) && payload == sent.payload && r == answer
  {
    hide AlcsEnc, SecureOpts, UriPath.Room, Deltas;
    AddSecureOptions(msg, observe, sessionId);
    sent, payload, r := DoSecureSend(msg, c, iv, answer);
  }
}
