/** Hexadecimal text: of a number with a given count of digits, and of a byte string. */
module HexText {
  import opened Word
  import opened Bytes

  function HexDigit(d: nat): char
    requires d < 16
  {
    if d < 10 then '0' + d as char else 'a' + (d - 10) as char
  }

  // A number written with n hexadecimal digits.
  function Hex(v: nat, n: nat): string {
    if n == 0 then "" else Hex(v / 16, n - 1) + [HexDigit(v % 16)]
  }

  function HexByte(d: u8): string { [HexDigit(d / 16), HexDigit(d % 16)] }

  function HexBytes(b: bytes): string {
    if b == [] then "" else HexBytes(b[..|b| - 1]) + HexByte(b[|b| - 1])
  }

  // Two lower-case digits per byte, the higher one first.
  lemma {:induction false} HexDigits(b: bytes, i: nat)
    requires i < |b|
    ensures |HexBytes(b)| == 2 * |b|
    ensures HexBytes(b)[2 * i] == "0123456789abcdef"[b[i] / 16]
    ensures HexBytes(b)[2 * i + 1] == "0123456789abcdef"[b[i] % 16]
  {
    var n := |b| - 1;
    HexLength(b[..n]);
    if i < n { HexDigits(b[..n], i); }
  }

  lemma {:induction false} HexOfBytes(b: bytes)
    ensures Hex(FromBe(b), 2 * |b|) == HexBytes(b)
  {
    if b != [] {
      var n := |b| - 1;
      HexOfBytes(b[..n]);
      var v, w, d := FromBe(b), FromBe(b[..n]), b[n];
      Nibbles(w, d);
      assert Hex(v, 2 * |b|) == Hex(v / 16, 2 * n + 1) + [HexDigit(v % 16)];
      assert Hex(v / 16, 2 * n + 1) == Hex(v / 16 / 16, 2 * n) + [HexDigit(v / 16 % 16)];
    }
  }

  lemma Nibbles(w: nat, d: u8)
    ensures (256 * w + d) % 16 == d % 16 && (256 * w + d) / 16 % 16 == d / 16 && (256 * w + d) / 16 / 16 == w
  {
  }

  lemma {:induction false} HexBytesJoin(a: bytes, b: bytes)
    ensures HexBytes(a + b) == HexBytes(a) + HexBytes(b)
    decreases |b|
  {
    if b == [] {
      assert a + b == a;
    } else {
      var n := |b| - 1;
      HexBytesJoin(a, b[..n]);
      var ab := a + b;
      assert ab[..|ab| - 1] == a + b[..n] && ab[|ab| - 1] == b[n];
      Associate(HexBytes(a), HexBytes(b[..n]), HexByte(b[n]));
    }
  }

  lemma Associate(x: string, y: string, z: string)
    ensures (x + y) + z == x + (y + z)
  {
  }

  lemma HexByteInjective(a: u8, b: u8)
    requires HexByte(a) == HexByte(b)
    ensures a == b
  {
    assert HexByte(a)[0] == HexByte(b)[0] && HexByte(a)[1] == HexByte(b)[1];
    HexDigitInjective(a / 16, b / 16);
    HexDigitInjective(a % 16, b % 16);
  }

  lemma HexDigitInjective(a: nat, b: nat)
    requires a < 16 && b < 16 && HexDigit(a) == HexDigit(b)
    ensures a == b
  {
  }

  lemma {:induction false} HexLength(b: bytes)
    ensures |HexBytes(b)| == 2 * |b|
  {
    if b != [] { HexLength(b[..|b| - 1]); }
  }

  lemma {:induction false} HexInjective(a: bytes, b: bytes)
    requires HexBytes(a) == HexBytes(b)
    ensures a == b
  {
    HexLength(a);
    HexLength(b);
    if a != [] {
      var n := |a| - 1;
      HexLength(a[..n]);
      HexLength(b[..n]);
      var x, y := HexBytes(a), HexBytes(b);
      assert x[..2 * n] == HexBytes(a[..n]) && x[2 * n..] == HexByte(a[n]);
      assert y[..2 * n] == HexBytes(b[..n]) && y[2 * n..] == HexByte(b[n]);
      HexInjective(a[..n], b[..n]);
      HexByteInjective(a[n], b[n]);
      assert a == a[..n] + [a[n]] && b == b[..n] + [b[n]];
    }
  }
}
