/** Byte strings: little-endian and big-endian words, and windows of a buffer. */
module Bytes {
  import opened Word
  import opened IntMath

  type bytes = seq<u8>

  function Le(v: nat, n: nat): (b: bytes)
    ensures |b| == n
  {
    if n == 0 then [] else [v % 256] + Le(v / 256, n - 1)
  }

  function FromLe(b: bytes): nat {
    if b == [] then 0 else b[0] + 256 * FromLe(b[1..])
  }

  lemma {:induction false} LeRoundTrip(v: nat, n: nat)
    requires v < Exp(256, n)
    ensures FromLe(Le(v, n)) == v
  {
    if n > 0 { LeRoundTrip(v / 256, n - 1); }
  }

  lemma {:induction false} FromLeBound(b: bytes)
    ensures FromLe(b) < Exp(256, |b|)
  {
    if b != [] { FromLeBound(b[1..]); }
  }

  lemma {:induction false} LeOfFromLe(b: bytes)
    ensures Le(FromLe(b), |b|) == b
  {
    if b != [] {
      LeOfFromLe(b[1..]);
      assert b == [b[0]] + b[1..];
    }
  }

  // The lowest byte comes first.
  lemma {:induction false} LeDigit(v: nat, n: nat, i: nat)
    requires i < n
    ensures Exp(256, i) > 0 && Le(v, n)[i] == v / Exp(256, i) % 256
  {
    ExpPositive(256, i);
    if i > 0 {
      LeDigit(v / 256, n - 1, i - 1);
      DivTwice(v, 256, Exp(256, i - 1));
    }
  }

  function Be(v: nat, n: nat): (b: bytes)
    ensures |b| == n
  {
    if n == 0 then [] else Be(v / 256, n - 1) + [v % 256]
  }

  function FromBe(b: bytes): nat {
    if b == [] then 0 else 256 * FromBe(b[..|b| - 1]) + b[|b| - 1]
  }

  lemma {:induction false} BeRoundTrip(v: nat, n: nat)
    requires v < Exp(256, n)
    ensures FromBe(Be(v, n)) == v
  {
    if n > 0 {
      BeRoundTrip(v / 256, n - 1);
      assert Be(v, n)[..n - 1] == Be(v / 256, n - 1);
    }
  }

  lemma {:induction false} FromBeBound(b: bytes)
    ensures FromBe(b) < Exp(256, |b|)
  {
    if b != [] { FromBeBound(b[..|b| - 1]); }
  }

  lemma {:induction false} BeOfFromBe(b: bytes)
    ensures Be(FromBe(b), |b|) == b
  {
    if b != [] {
      BeOfFromBe(b[..|b| - 1]);
      assert b == b[..|b| - 1] + [b[|b| - 1]];
    }
  }

  // The lowest byte comes last.
  lemma {:induction false} BeDigit(v: nat, n: nat, i: nat)
    requires i < n
    ensures Exp(256, i) > 0 && Be(v, n)[n - 1 - i] == v / Exp(256, i) % 256
  {
    ExpPositive(256, i);
    if i > 0 {
      BeDigit(v / 256, n - 1, i - 1);
      DivTwice(v, 256, Exp(256, i - 1));
    }
  }

  lemma WordSizes()
    ensures Exp(256, 2) == 0x1_0000 && Exp(256, 4) == 0x1_0000_0000 && Exp(256, 8) == 0x1_0000_0000_0000_0000
  {
    assert Exp(256, 2) == 256 * (256 * Exp(256, 0));
    ExpAdd(256, 2, 2);
    ExpAdd(256, 4, 4);
  }

  function Le32(v: u32): (b: bytes) ensures |b| == 4 { Le(v, 4) }
  function Le64(v: u64): (b: bytes) ensures |b| == 8 { Le(v, 8) }

  function FromLe32(b: bytes): u32
    requires |b| == 4
  {
    FromLeBound(b);
    WordSizes();
    FromLe(b)
  }

  function FromLe64(b: bytes): u64
    requires |b| == 8
  {
    FromLeBound(b);
    WordSizes();
    FromLe(b)
  }

  lemma Le32RoundTrip(v: u32)
    ensures FromLe32(Le32(v)) == v
  {
    WordSizes();
    LeRoundTrip(v, 4);
  }

  lemma Le64RoundTrip(v: u64)
    ensures FromLe64(Le64(v)) == v
  {
    WordSizes();
    LeRoundTrip(v, 8);
  }

  // The buffer with a window overwritten.
  function Splice(pool: bytes, at: nat, b: bytes): (r: bytes)
    requires at + |b| <= |pool|
    ensures |r| == |pool|
    ensures r[at..at + |b|] == b
    ensures r[..at] == pool[..at] && r[at + |b|..] == pool[at + |b|..]
  {
    pool[..at] + b + pool[at + |b|..]
  }

  // A window inside the overwritten one is a window of what was written.
  lemma SpliceInside(pool: bytes, at: nat, b: bytes, lo: nat, hi: nat)
    requires at + |b| <= |pool| && at <= lo <= hi <= at + |b|
    ensures Splice(pool, at, b)[lo..hi] == b[lo - at..hi - at]
  {
  }
}
