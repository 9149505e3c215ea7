/** Cipher block chaining and counter mode over any block cipher, as sections 6.2 and 6.5
    and Appendix B.1 of NIST SP 800-38A define them, and the loops that compute them. */
module CipherModes {
  import opened Word
  import opened Bytes
  import opened IntMath

  type Block = b: bytes | |b| == 16 witness [0, 0, 0, 0, 0, 0, 0, 0, 0, 0, 0, 0, 0, 0, 0, 0]

  // ---------------------------------------------------------------- exclusive or

  // Bit by bit, for the lowest n bits.
  function XorBits(a: nat, b: nat, n: nat): nat
    decreases n
  {
    if n == 0 then 0 else (a + b) % 2 + 2 * XorBits(a / 2, b / 2, n - 1)
  }

  lemma {:induction false} XorBound(a: nat, b: nat, n: nat)
    ensures XorBits(a, b, n) < Exp(2, n)
  {
    if n > 0 { XorBound(a / 2, b / 2, n - 1); }
  }

  lemma {:induction false} XorBack(a: nat, b: nat, n: nat)
    requires a < Exp(2, n)
    ensures XorBits(XorBits(a, b, n), b, n) == a
  {
    if n > 0 {
      XorBack(a / 2, b / 2, n - 1);
      var low, high := (a + b) % 2, XorBits(a / 2, b / 2, n - 1);
      HalfOf(low, high);
      LowBit(a, b, high);
    }
  }

  lemma HalfOf(low: nat, high: nat)
    requires low < 2
    ensures (low + 2 * high) / 2 == high
  {
  }

  lemma LowBit(a: nat, b: nat, high: nat)
    ensures ((a + b) % 2 + 2 * high + b) % 2 == a % 2
  {
  }

  lemma ByteBits()
    ensures Exp(2, 8) == 256
  {
    ExpAdd(2, 4, 4);
    assert Exp(2, 4) == 2 * (2 * (2 * (2 * Exp(2, 0))));
  }

  function Xor(a: u8, b: u8): u8 {
    XorBound(a, b, 8);
    ByteBits();
    XorBits(a, b, 8)
  }

  lemma {:induction false} XorBitsBit(a: nat, b: nat, n: nat, i: nat)
    requires i < n
    ensures Bit(XorBits(a, b, n), i) == 1 <==> Bit(a, i) != Bit(b, i)
  {
    var high := XorBits(a / 2, b / 2, n - 1);
    HalfOf((a + b) % 2, high);
    if i == 0 {
      BitZero(a);
      BitZero(b);
      BitZero(XorBits(a, b, n));
      OddSum(a, b, high);
    } else {
      XorBitsBit(a / 2, b / 2, n - 1, i - 1);
      BitOfHalf(a, i);
      BitOfHalf(b, i);
      BitOfHalf(XorBits(a, b, n), i);
    }
  }

  lemma OddSum(a: nat, b: nat, high: nat)
    ensures ((a + b) % 2 + 2 * high) % 2 == 1 <==> a % 2 != b % 2
  {
  }

  // A bit of the result is set exactly when it differs in the operands.
  lemma XorBit(a: u8, b: u8, i: nat)
    requires i < 8
    ensures Bit(Xor(a, b), i) == 1 <==> Bit(a, i) != Bit(b, i)
  {
    XorBitsBit(a, b, 8, i);
  }

  lemma {:induction false} XorBitsSame(a: nat, n: nat)
    ensures XorBits(a, a, n) == 0 && (a < Exp(2, n) ==> XorBits(a, 0, n) == a)
  {
    if n > 0 { XorBitsSame(a / 2, n - 1); }
  }

  lemma XorSame(a: u8)
    ensures Xor(a, 0) == a && Xor(a, a) == 0
  {
    ByteBits();
    XorBitsSame(a, 8);
  }

  lemma XorTwice(a: u8, b: u8)
    ensures Xor(Xor(a, b), b) == a
  {
    ByteBits();
    XorBack(a, b, 8);
  }

  function XorBytes(a: bytes, b: bytes): (r: bytes)
    requires |a| <= |b|
    ensures |r| == |a|
  {
    seq<u8>(|a|, i requires 0 <= i < |a| => Xor(a[i], b[i]))
  }

  // Bit by bit, at every position.
  lemma XorBytesBit(a: bytes, b: bytes, i: nat, k: nat)
    requires |a| <= |b| && i < |a| && k < 8
    ensures Bit(XorBytes(a, b)[i], k) == 1 <==> Bit(a[i], k) != Bit(b[i], k)
  {
    XorBit(a[i], b[i], k);
  }

  lemma XorBytesTwice(a: bytes, b: bytes)
    requires |a| <= |b|
    ensures XorBytes(XorBytes(a, b), b) == a
  {
    forall i | 0 <= i < |a| ensures XorBytes(XorBytes(a, b), b)[i] == a[i] {
      XorTwice(a[i], b[i]);
    }
  }

  // ---------------------------------------------------------------- chaining

  // The block a new one is chained to.
  function Last(iv: Block, c: bytes): Block
    requires |c| % 16 == 0
  {
    if c == [] then iv else c[|c| - 16..]
  }

  function CbcEncrypt(enc: Block -> Block, iv: Block, pt: bytes): (ct: bytes)
    requires |pt| % 16 == 0
    ensures |ct| == |pt|
  {
    if pt == [] then []
    else
      var n := |pt| - 16;
      var c := CbcEncrypt(enc, iv, pt[..n]);
      c + enc(XorBytes(pt[n..], Last(iv, c)))
  }

  function CbcDecrypt(dec: Block -> Block, iv: Block, ct: bytes): (pt: bytes)
    requires |ct| % 16 == 0
    ensures |pt| == |ct|
  {
    if ct == [] then []
    else
      var n := |ct| - 16;
      CbcDecrypt(dec, iv, ct[..n]) + XorBytes(dec(ct[n..]), Last(iv, ct[..n]))
  }

  ghost predicate Inverse(enc: Block -> Block, dec: Block -> Block) { forall b: Block :: dec(enc(b)) == b }

  lemma CbcEncryptNext(enc: Block -> Block, iv: Block, p: bytes, a: bytes, b: Block)
    requires |a| % 16 == 0 && p == a + b
    ensures |p| % 16 == 0
    ensures var c := CbcEncrypt(enc, iv, a); CbcEncrypt(enc, iv, p) == c + enc(XorBytes(b, Last(iv, c)))
  {
    assert p[..|p| - 16] == a && p[|p| - 16..] == b;
  }

  lemma CbcDecryptNext(dec: Block -> Block, iv: Block, p: bytes, a: bytes, b: Block)
    requires |a| % 16 == 0 && p == a + b
    ensures |p| % 16 == 0 && CbcDecrypt(dec, iv, p) == CbcDecrypt(dec, iv, a) + XorBytes(dec(b), Last(iv, a))
  {
    assert p[..|p| - 16] == a && p[|p| - 16..] == b;
  }

  lemma CbcBlock(enc: Block -> Block, dec: Block -> Block, p: Block, last: Block)
    requires Inverse(enc, dec)
    ensures XorBytes(dec(enc(XorBytes(p, last))), last) == p
  {
    XorBytesTwice(p, last);
  }

  lemma CbcAppended(enc: Block -> Block, dec: Block -> Block, iv: Block, a: bytes, b: Block)
    requires |a| % 16 == 0 && Inverse(enc, dec) && CbcDecrypt(dec, iv, CbcEncrypt(enc, iv, a)) == a
    ensures |a + b| % 16 == 0 && CbcDecrypt(dec, iv, CbcEncrypt(enc, iv, a + b)) == a + b
  {
    var c := CbcEncrypt(enc, iv, a);
    var e := enc(XorBytes(b, Last(iv, c)));
    CbcEncryptNext(enc, iv, a + b, a, b);
    CbcDecryptNext(dec, iv, c + e, c, e);
    CbcBlock(enc, dec, b, Last(iv, c));
  }

  function BlockAt(b: bytes, j: nat): Block
    requires 16 * j + 16 <= |b|
  {
    b[16 * j..16 * j + 16]
  }

  // What block j of a cipher text is chained to.
  function Before(iv: Block, ct: bytes, j: nat): Block
    requires 16 * j <= |ct|
  {
    if j == 0 then iv else BlockAt(ct, j - 1)
  }

  lemma FrontBlock(a: bytes, b: bytes, j: nat)
    requires 16 * j + 16 <= |a|
    ensures BlockAt(a + b, j) == BlockAt(a, j)
  {
  }

  lemma FrontBefore(iv: Block, a: bytes, b: bytes, j: nat)
    requires 16 * j <= |a|
    ensures Before(iv, a + b, j) == Before(iv, a, j)
  {
    if j > 0 { FrontBlock(a, b, j - 1); }
  }

  lemma LastBlock(iv: Block, a: bytes, b: Block, j: nat)
    requires |a| == 16 * j
    ensures |a| % 16 == 0 && BlockAt(a + b, j) == b && Before(iv, a, j) == Last(iv, a)
  {
    assert (a + b)[16 * j..16 * j + 16] == b;
  }

  // The number of whole blocks in front of the last one.
  lemma Blocks(n: nat, j: nat)
    requires n % 16 == 0 && 16 * j < n
    ensures 16 * j + 16 <= n && (n - 16) % 16 == 0 && (16 * j + 16 > n - 16 ==> 16 * j == n - 16)
  {
    var m := n / 16;
    assert n == 16 * m;
  }

  // Every cipher block is the cipher of its plain block combined with the cipher block
  // before it, the first one with the initial vector.
  lemma {:induction false} CbcChains(enc: Block -> Block, iv: Block, pt: bytes, j: nat)
    requires |pt| % 16 == 0 && 16 * j + 16 <= |pt|
    ensures var ct := CbcEncrypt(enc, iv, pt);
            BlockAt(ct, j) == enc(XorBytes(BlockAt(pt, j), Before(iv, ct, j)))
    decreases |pt|
  {
    var n := |pt| - 16;
    Blocks(|pt|, j);
    var a: bytes, b: Block := pt[..n], pt[n..];
    assert pt == a + b;
    CbcEncryptNext(enc, iv, pt, a, b);
    var c := CbcEncrypt(enc, iv, a);
    var e := enc(XorBytes(b, Last(iv, c)));
    FrontBefore(iv, c, e, j);
    if 16 * j + 16 <= n {
      CbcChains(enc, iv, a, j);
      FrontBlock(c, e, j);
      FrontBlock(a, b, j);
    } else {
      LastBlock(iv, a, b, j);
      LastBlock(iv, c, e, j);
    }
  }

  // Every plain block is the deciphered block combined with the cipher block before it.
  lemma {:induction false} CbcUnchains(dec: Block -> Block, iv: Block, ct: bytes, j: nat)
    requires |ct| % 16 == 0 && 16 * j + 16 <= |ct|
    ensures BlockAt(CbcDecrypt(dec, iv, ct), j) == XorBytes(dec(BlockAt(ct, j)), Before(iv, ct, j))
    decreases |ct|
  {
    var n := |ct| - 16;
    Blocks(|ct|, j);
    var c: bytes, b: Block := ct[..n], ct[n..];
    assert ct == c + b;
    CbcDecryptNext(dec, iv, ct, c, b);
    var d := CbcDecrypt(dec, iv, c);
    var x: Block := XorBytes(dec(b), Last(iv, c));
    FrontBefore(iv, c, b, j);
    if 16 * j + 16 <= n {
      CbcUnchains(dec, iv, c, j);
      FrontBlock(c, b, j);
      FrontBlock(d, x, j);
    } else {
      LastBlock(iv, c, b, j);
      LastBlock(iv, d, x, j);
    }
  }

  // Decryption undoes encryption for every key, initial vector and whole number of blocks.
  lemma {:induction false} CbcRoundTrip(enc: Block -> Block, dec: Block -> Block, iv: Block, pt: bytes)
    requires |pt| % 16 == 0 && Inverse(enc, dec)
    ensures CbcDecrypt(dec, iv, CbcEncrypt(enc, iv, pt)) == pt
  {
    if pt != [] {
      var n := |pt| - 16;
      CbcRoundTrip(enc, dec, iv, pt[..n]);
      CbcAppended(enc, dec, iv, pt[..n], pt[n..]);
      assert pt == pt[..n] + pt[n..];
    }
  }

  // ---------------------------------------------------------------- counter

  const WRAP: nat := 0x1_0000_0000_0000_0000_0000_0000_0000_0000

  // The initial vector as a number, advanced j times modulo 2^128.
  function Counter(iv: Block, j: nat): Block { Be((FromBe(iv) + j) % WRAP, |iv|) }

  // Byte k of the key stream lies in block k / 16.
  function KeyStream(enc: Block -> Block, iv: Block): nat -> u8 {
    (k: nat) => enc(Counter(iv, k / 16))[k % 16]
  }

  function Combined(data: bytes, stream: nat -> u8): (r: bytes)
    ensures |r| == |data|
  {
    seq<u8>(|data|, k requires 0 <= k < |data| => Xor(data[k], stream(k)))
  }

  function Ctr(enc: Block -> Block, iv: Block, data: bytes): bytes { Combined(data, KeyStream(enc, iv)) }

  // Applying counter mode twice gives the data back, for every length.
  lemma CtrTwice(enc: Block -> Block, iv: Block, data: bytes)
    ensures Ctr(enc, iv, Ctr(enc, iv, data)) == data
  {
    var stream := KeyStream(enc, iv);
    forall k | 0 <= k < |data| ensures Ctr(enc, iv, Ctr(enc, iv, data))[k] == data[k] {
      XorTwice(data[k], stream(k));
    }
  }

  // ---------------------------------------------------------------- the counter's bytes

  // One more, carried from the last byte to the first and lost there.
  function Increment(b: bytes): (r: bytes)
    ensures |r| == |b|
  {
    if b == [] then []
    else
      var n := |b| - 1;
      if b[n] == 255 then Increment(b[..n]) + [0] else b[..n] + [b[n] + 1]
  }

  // It is the number's successor, 0 after the largest.
  lemma {:induction false} IncrementIs(b: bytes)
    ensures var v, e := FromBe(b), Exp(256, |b|); Increment(b) == Be(if v + 1 == e then 0 else v + 1, |b|)
  {
    if b != [] {
      var n := |b| - 1;
      var x, d, m := FromBe(b[..n]), b[n], Exp(256, n);
      FromBeBound(b[..n]);
      IncrementIs(b[..n]);
      if d == 255 {
        BeScaled(if x + 1 == m then 0 else x + 1, 0, n);
      } else {
        BeScaled(x, d + 1, n);
        BeOfFromBe(b[..n]);
      }
    }
  }

  lemma BeScaled(x: nat, d: nat, n: nat)
    requires d < 256
    ensures Be(256 * x + d, n + 1) == Be(x, n) + [d]
  {
    assert (256 * x + d) / 256 == x && (256 * x + d) % 256 == d;
  }

  lemma BlockRange(b: Block)
    ensures Exp(256, |b|) == WRAP
  {
    WordSizes();
    ExpAdd(256, 8, 8);
  }

  lemma ModNext(a: nat)
    ensures (a + 1) % WRAP == if a % WRAP + 1 == WRAP then 0 else a % WRAP + 1
  {
  }

  lemma CounterNext(iv: Block, j: nat)
    ensures Counter(iv, j + 1) == Increment(Counter(iv, j))
  {
    BlockRange(iv);
    var v := (FromBe(iv) + j) % WRAP;
    IncrementIs(Counter(iv, j));
    BeRoundTrip(v, |iv|);
    ModNext(FromBe(iv) + j);
    assert FromBe(iv) + (j + 1) == FromBe(iv) + j + 1;
  }

  lemma ModSmall(a: nat)
    requires a < WRAP
    ensures a % WRAP == a
  {
  }

  lemma CounterFirst(iv: Block)
    ensures Counter(iv, 0) == iv
  {
    BlockRange(iv);
    FromBeBound(iv);
    ModSmall(FromBe(iv));
    BeOfFromBe(iv);
  }

  // Block j of the counter is the initial vector plus j.
  lemma CounterValue(iv: Block, j: nat)
    ensures FromBe(Counter(iv, j)) == (FromBe(iv) + j) % 0x1_0000_0000_0000_0000_0000_0000_0000_0000
  {
    BlockRange(iv);
    BeRoundTrip((FromBe(iv) + j) % WRAP, |iv|);
  }

  // ---------------------------------------------------------------- the loops

  // The inner loop: one block, byte by byte.
  method XorBlock(a: bytes, b: Block) returns (r: Block)
    requires |a| == 16
    ensures r == XorBytes(a, b)
  {
    var block := new u8[16];
    for j := 0 to 16
      invariant block[..j] == XorBytes(a, b)[..j]
    {
      block[j] := Xor(a[j], b[j]);
    }
    r := block[..];
  }

  method CopyBlock(a: array<u8>, off: nat, b: Block)
    requires off + 16 <= a.Length
    modifies a
    ensures a[..] == Splice(old(a[..]), off, b)
  {
    for j := 0 to 16
      invariant forall k :: 0 <= k < a.Length ==> a[k] == if off <= k < off + j then b[k - off] else old(a[k])
    {
      a[off + j] := b[j];
    }
    assert a[..] == Splice(old(a[..]), off, b);
  }

  lemma LastOf(iv: Block, c: bytes, b: Block)
    requires |c| % 16 == 0
    ensures |c + b| % 16 == 0 && Last(iv, c + b) == b
  {
  }

  // One more block behind the first off bytes.
  method AppendBlock(a: array<u8>, off: nat, b: Block)
    requires off + 16 <= a.Length
    modifies a
    ensures a[..off + 16] == old(a[..off]) + b
  {
    CopyBlock(a, off, b);
    assert a[..off + 16] == a[..][..off] + a[..][off..off + 16];
  }

  // One block of the loop: the cipher text of the first blocks grows by one.
  method CbcEncryptBlock(enc: Block -> Block, iv: Block, pt: array<u8>, ct: array<u8>, off: nat,
                         prev: Block)
    returns (outb: Block)
    requires pt != ct && off % 16 == 0 && off + 16 <= pt.Length == ct.Length
    requires ct[..off] == CbcEncrypt(enc, iv, pt[..off]) && prev == Last(iv, ct[..off])
    modifies ct
    ensures (off + 16) % 16 == 0 && ct[..off + 16] == CbcEncrypt(enc, iv, pt[..off + 16])
    ensures outb == Last(iv, ct[..off + 16])
  {
    var chunk: Block := pt[off..off + 16];
    assert pt[..off + 16] == pt[..off] + chunk;
    CbcEncryptNext(enc, iv, pt[..off + 16], pt[..off], chunk);
    var block := XorBlock(chunk, prev);
    outb := enc(block);
    LastOf(iv, ct[..off], outb);
    AppendBlock(ct, off, outb);
  }

  method CbcEncryptLoop(enc: Block -> Block, iv: Block, pt: array<u8>, ct: array<u8>) returns (ok: bool)
    requires pt != ct
    modifies ct
    ensures ok <==> pt.Length % 16 == 0 && ct.Length == pt.Length
    ensures ok ==> ct[..] == CbcEncrypt(enc, iv, pt[..])
    ensures ok ==> forall j: nat :: 16 * j + 16 <= pt.Length ==>
              BlockAt(ct[..], j) == enc(XorBytes(BlockAt(pt[..], j), Before(iv, ct[..], j)))
    ensures !ok ==> ct[..] == old(ct[..])
  {
    if pt.Length % 16 != 0 || ct.Length != pt.Length {
      return false;
    }
    var prev, off := iv, 0;
    while off < pt.Length
      invariant off <= pt.Length && off % 16 == 0
      invariant ct[..off] == CbcEncrypt(enc, iv, pt[..off]) && prev == Last(iv, ct[..off])
    {
      prev := CbcEncryptBlock(enc, iv, pt, ct, off, prev);
      off := off + 16;
    }
    assert pt[..off] == pt[..] && ct[..off] == ct[..];
    forall j: nat | 16 * j + 16 <= pt.Length
      ensures BlockAt(ct[..], j) == enc(XorBytes(BlockAt(pt[..], j), Before(iv, ct[..], j)))
    {
      CbcChains(enc, iv, pt[..], j);
    }
    return true;
  }

  method CbcDecryptBlock(dec: Block -> Block, iv: Block, ct: array<u8>, pt: array<u8>, off: nat,
                         prev: Block)
    returns (chunk: Block)
    requires pt != ct && off % 16 == 0 && off + 16 <= ct.Length == pt.Length
    requires pt[..off] == CbcDecrypt(dec, iv, ct[..off]) && prev == Last(iv, ct[..off])
    modifies pt
    ensures (off + 16) % 16 == 0 && pt[..off + 16] == CbcDecrypt(dec, iv, ct[..off + 16])
    ensures chunk == Last(iv, ct[..off + 16])
  {
    chunk := ct[off..off + 16];
    assert ct[..off + 16] == ct[..off] + chunk;
    CbcDecryptNext(dec, iv, ct[..off + 16], ct[..off], chunk);
    var block := XorBlock(dec(chunk), prev);
    LastOf(iv, ct[..off], chunk);
    AppendBlock(pt, off, block);
  }

  method CbcDecryptLoop(dec: Block -> Block, iv: Block, ct: array<u8>, pt: array<u8>) returns (ok: bool)
    requires pt != ct
    modifies pt
    ensures ok <==> ct.Length % 16 == 0 && pt.Length == ct.Length
    ensures ok ==> pt[..] == CbcDecrypt(dec, iv, ct[..])
    ensures ok ==> forall j: nat :: 16 * j + 16 <= ct.Length ==>
              BlockAt(pt[..], j) == XorBytes(dec(BlockAt(ct[..], j)), Before(iv, ct[..], j))
    ensures !ok ==> pt[..] == old(pt[..])
  {
    if ct.Length % 16 != 0 || pt.Length != ct.Length {
      return false;
    }
    var prev, off := iv, 0;
    while off < ct.Length
      invariant off <= ct.Length && off % 16 == 0
      invariant pt[..off] == CbcDecrypt(dec, iv, ct[..off]) && prev == Last(iv, ct[..off])
    {
      prev := CbcDecryptBlock(dec, iv, ct, pt, off, prev);
      off := off + 16;
    }
    assert ct[..off] == ct[..] && pt[..off] == pt[..];
    forall j: nat | 16 * j + 16 <= ct.Length
      ensures BlockAt(pt[..], j) == XorBytes(dec(BlockAt(ct[..], j)), Before(iv, ct[..], j))
    {
      CbcUnchains(dec, iv, ct[..], j);
    }
    return true;
  }

  lemma IncrementCarry(b: bytes, i: nat, tail: bytes)
    requires i < |b|
    ensures Increment(b[..i + 1]) + tail ==
            if b[i] == 255 then Increment(b[..i]) + ([0] + tail) else b[..i] + ([b[i] + 1] + tail)
  {
    assert b[..i + 1][..i] == b[..i];
  }

  // The carry loop: bytes that wrap to 0 pass the carry on.
  method IncrementLoop(ctr: array<u8>)
    modifies ctr
    ensures ctr[..] == Increment(old(ctr[..]))
  {
    var i := ctr.Length;
    ghost var was := ctr[..];
    assert was[..i] == was;
    while i > 0
      invariant i <= ctr.Length && ctr[..i] == was[..i]
      invariant Increment(was) == Increment(was[..i]) + ctr[i..]
    {
      i := i - 1;
      ghost var tail := ctr[i + 1..];
      IncrementCarry(was, i, tail);
      ctr[i] := (ctr[i] as int + 1) % 256;
      assert ctr[i..] == [ctr[i]] + tail;
      if ctr[i] != 0 {
        assert ctr[..] == was[..i] + ctr[i..];
        return;
      }
    }
    assert ctr[0..] == ctr[..];
  }

  // At most one block of key stream, from a block boundary on.
  method XorStream(inout: array<u8>, off: nat, n: nat, ks: Block)
    requires n <= 16 && off + n <= inout.Length
    modifies inout
    ensures forall k :: 0 <= k < inout.Length ==>
      inout[k] == if off <= k < off + n then Xor(old(inout[k]), ks[k - off]) else old(inout[k])
  {
    for i := 0 to n
      invariant forall k :: 0 <= k < inout.Length ==>
        inout[k] == if off <= k < off + i then Xor(old(inout[k]), ks[k - off]) else old(inout[k])
    {
      inout[off + i] := Xor(inout[off + i], ks[i]);
    }
  }

  // The first off bytes have been combined with the key stream.
  predicate Streamed(stream: nat -> u8, was: bytes, now: bytes, off: nat)
    requires |now| == |was|
  {
    forall k :: 0 <= k < |was| ==> now[k] == if k < off then Xor(was[k], stream(k)) else was[k]
  }

  lemma StreamedNext(stream: nat -> u8, was: bytes, now: bytes, next: bytes, off: nat, n: nat, ks: Block)
    requires |next| == |now| == |was| && n <= 16 && off + n <= |was| && Streamed(stream, was, now, off)
    requires forall k :: off <= k < off + n ==> stream(k) == ks[k - off]
    requires forall k :: 0 <= k < |now| ==> next[k] == if off <= k < off + n then Xor(now[k], ks[k - off]) else now[k]
    ensures Streamed(stream, was, next, off + n)
  {
  }

  lemma StreamBlock(enc: Block -> Block, iv: Block, j: nat, off: nat)
    requires off == 16 * j
    ensures forall k :: off <= k < off + 16 ==> KeyStream(enc, iv)(k) == enc(Counter(iv, j))[k - off]
  {
    forall k | off <= k < off + 16 ensures KeyStream(enc, iv)(k) == enc(Counter(iv, j))[k - off] {
      StreamIndex(j, k - off);
    }
  }

  // One block of the loop.
  method CtrBlock(enc: Block -> Block, iv: Block, inout: array<u8>, ctr: Block, ghost was: bytes, off: nat, n: nat,
                  ghost j: nat)
    requires n <= 16 && off + n <= inout.Length && off == 16 * j && ctr == Counter(iv, j)
    requires |was| == inout.Length && Streamed(KeyStream(enc, iv), was, inout[..], off)
    modifies inout
    ensures Streamed(KeyStream(enc, iv), was, inout[..], off + n)
  {
    ghost var now := inout[..];
    var ks := enc(ctr);
    XorStream(inout, off, n, ks);
    StreamBlock(enc, iv, j, off);
    StreamedNext(KeyStream(enc, iv), was, now, inout[..], off, n, ks);
  }

  // The data is changed in place, block after block, the last one possibly shorter.
  method CtrLoop(enc: Block -> Block, iv: Block, inout: array<u8>)
    modifies inout
    ensures inout[..] == Ctr(enc, iv, old(inout[..]))
    ensures forall k :: 0 <= k < inout.Length ==>
              inout[k] == Xor(old(inout[k]), enc(Counter(iv, k / 16))[k % 16])
  {
    var ctr := new u8[16](i requires 0 <= i < 16 => iv[i]);
    assert ctr[..] == iv;
    CounterFirst(iv);
    var off := 0;
    ghost var blocks, was := 0, inout[..];
    while off < inout.Length
      invariant off <= inout.Length && fresh(ctr) && ctr.Length == 16 && ctr != inout
      invariant off == 16 * blocks || off == inout.Length
      invariant off < inout.Length ==> ctr[..] == Counter(iv, blocks)
      invariant Streamed(KeyStream(enc, iv), was, inout[..], off)
    {
      var n := if inout.Length - off < 16 then inout.Length - off else 16;
      CtrBlock(enc, iv, inout, ctr[..], was, off, n, blocks);
      IncrementLoop(ctr);
      CounterNext(iv, blocks);
      blocks := blocks + 1;
      off := off + n;
    }
    assert inout[..] == Combined(was, KeyStream(enc, iv));
  }

  lemma StreamIndex(j: nat, i: nat)
    requires i < 16
    ensures (16 * j + i) / 16 == j && (16 * j + i) % 16 == i
  {
  }
}
