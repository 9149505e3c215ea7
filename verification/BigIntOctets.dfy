/** Big integers from and to octet strings, most significant octet first. */
module BigIntOctets {
  import opened Word
  import opened IntMath
  import opened BigIntRep
  import opened BigInt
  import opened Bytes

  // ---------------------------------------------------------------- octets and digits

  function Reversed(b: bytes): (r: bytes)
    ensures |r| == |b| && forall i :: 0 <= i < |b| ==> r[i] == b[|b| - 1 - i]
  {
    if b == [] then [] else [b[|b| - 1]] + Reversed(b[..|b| - 1])
  }

  lemma {:induction false} FromLeReversed(b: bytes)
    ensures FromLe(Reversed(b)) == FromBe(b)
  {
    if b != [] {
      var n := |b| - 1;
      FromLeReversed(b[..n]);
      assert Reversed(b)[1..] == Reversed(b[..n]);
    }
  }

  lemma {:induction false} FromLeJoin(a: bytes, b: bytes)
    ensures FromLe(a + b) == FromLe(a) + Exp(256, |a|) * FromLe(b)
  {
    if a == [] {
      assert a + b == b;
    } else {
      FromLeJoin(a[1..], b);
      assert (a + b)[1..] == a[1..] + b;
      Carry(a[0], FromLe(a[1..]), Exp(256, |a| - 1), FromLe(b));
    }
  }

  lemma Carry(d: int, x: int, e: int, y: int)
    ensures d + 256 * (x + e * y) == (d + 256 * x) + (256 * e) * y
  {
  }

  lemma TopZero(b: bytes)
    ensures FromLe(b + [0]) == FromLe(b)
  {
    FromLeJoin(b, [0]);
    assert FromLe([0]) == 0;
  }

  lemma {:induction false} WeightExp(i: nat)
    ensures Weight(i) == Exp(256, 4 * i)
  {
    if i > 0 {
      WeightExp(i - 1);
      WordSizes();
      ExpAdd(256, 4, 4 * (i - 1));
    }
  }

  // The limbs are the octets, four at a time, least significant first.
  predicate LimbsAre(w: seq<u32>, n: nat, b: bytes)
    requires 2 + n <= |w| && 4 * n <= |b|
  {
    forall i :: 0 <= i < n ==> w[2 + i] == FromLe32(b[4 * i..4 * i + 4])
  }

  lemma {:induction false} DigitsLe(w: seq<u32>, n: nat, b: bytes)
    requires 2 + n <= |w| && 4 * n <= |b| && LimbsAre(w, n, b)
    ensures Digits(w, n) == FromLe(b[..4 * n])
  {
    if n > 0 {
      var m := n - 1;
      DigitsLe(w, m, b);
      assert b[..4 * n] == b[..4 * m] + b[4 * m..4 * m + 4];
      FromLeJoin(b[..4 * m], b[4 * m..4 * m + 4]);
      WeightExp(m);
      assert w[2 + m] * Weight(m) == Weight(m) * w[2 + m];
    }
  }

  // ---------------------------------------------------------------- from octets

  function LimbsFor(n: nat): nat { (n + 3) / 4 }

  // Least significant octet first, filled up to whole limbs.
  method WholeLimbs(buf: bytes) returns (octets: bytes)
    ensures |octets| == 4 * LimbsFor(|buf|) && FromLe(octets) == FromBe(buf)
  {
    octets := Reversed(buf);
    FromLeReversed(buf);
    while |octets| % 4 != 0
      invariant |buf| <= |octets| <= 4 * LimbsFor(|buf|) && FromLe(octets) == FromBe(buf)
      decreases 4 * LimbsFor(|buf|) - |octets|
    {
      TopZero(octets);
      octets := octets + [0];
    }
  }

  method FromOctets(op: array<u32>, buf: bytes, sign: i32) returns (ok: bool)
    requires op.Length < 0x1_0000_0000
    modifies op
    ensures ok <==> buf == [] || 2 + LimbsFor(|buf|) <= op.Length
    ensures ok && op.Length >= 2 ==>
              Canonical(op[..]) && Value(op[..]) == if sign < 0 then -(FromBe(buf) as int) else FromBe(buf)
    ensures !ok ==> forall k :: 0 <= k < op.Length ==> op[k] == 0
  {
    Init(op);
    if buf == [] {
      return true;
    }
    var octets := WholeLimbs(buf);
    var n := |octets| / 4;
    if 2 + n > op.Length {
      return false;
    }
    for i := 0 to n
      invariant op[0] == 0 && LimbsAre(op[..], i, octets)
    {
      op[2 + i] := FromLe32(octets[4 * i..4 * i + 4]);
    }
    op[1] := n;
    DigitsLe(op[..], n, octets);
    assert octets[..4 * n] == octets;
    if sign < 0 {
      op[0] := 1;
    }
    Flagged(op[..], n, octets);
    Trim(op);
    return true;
  }

  lemma Flagged(w: seq<u32>, n: nat, b: bytes)
    requires 2 + n <= |w| && w[1] == n && |b| == 4 * n && LimbsAre(w, n, b)
    ensures WellFormed(w) && Mag(w) == FromLe(b)
  {
    DigitsLe(w, n, b);
    assert b[..4 * n] == b;
  }

  // ---------------------------------------------------------------- to octets

  // No leading zero octet.
  predicate Shortest(b: bytes) { b != [] ==> b[0] != 0 }

  // The limbs' octets, least significant first.
  method LittleOctets(op: array<u32>) returns (octets: bytes)
    requires WellFormed(op[..])
    ensures |octets| == 4 * op[1] as int && FromLe(octets) == Mag(op[..])
    ensures op[1] > 0 && op[op[1] + 1] != 0 ==> exists k :: |octets| - 4 <= k < |octets| && octets[k] != 0
  {
    octets := [];
    var n: int := op[1];
    for i := 0 to n
      invariant |octets| == 4 * i && FromLe(octets) == Digits(op[..], i)
      invariant i > 0 ==> octets[4 * i - 4..] == Le32(op[i + 1])
    {
      var more := Le32(op[2 + i]);
      FromLeJoin(octets, more);
      Le32RoundTrip(op[2 + i]);
      WeightExp(i);
      assert op[2 + i] * Weight(i) == Weight(i) * op[2 + i];
      octets := octets + more;
      assert octets[4 * i..] == more;
    }
    if n > 0 && op[n + 1] != 0 {
      Le32RoundTrip(op[n + 1]);
      var k := SomeOctet(Le32(op[n + 1]));
      assert octets[4 * n - 4..][k] == octets[4 * n - 4 + k];
    }
  }

  lemma {:induction false} SomeOctet(b: bytes) returns (k: nat)
    requires FromLe(b) != 0
    ensures k < |b| && b[k] != 0
  {
    if b[0] != 0 {
      k := 0;
    } else {
      var j := SomeOctet(b[1..]);
      k := j + 1;
    }
  }

  datatype Octets = Written(len: nat) | BadSize | ShortBuffer

  // The magnitude, most significant octet first; the sign is not written.
  method ToOctets(op: array<u32>, buf: array<u8>) returns (r: Octets)
    modifies buf
    ensures r == BadSize <==> !WellFormed(op[..])
    ensures r.Written? ==>
              r.len <= buf.Length && FromBe(buf[..r.len]) == Mag(op[..]) && buf[r.len..] == old(buf[r.len..])
    ensures r.Written? && Canonical(op[..]) ==> Shortest(buf[..r.len])
    ensures r.ShortBuffer? && Canonical(op[..]) ==> Mag(op[..]) >= Exp(256, buf.Length)
    ensures !r.Written? ==> buf[..] == old(buf[..])
  {
    if op.Length < 2 || 2 + op[1] > op.Length {
      return BadSize;
    }
    if op[1] == 0 {
      return Written(0);
    }
    var octets := LittleOctets(op);
    octets := WithoutTopZeros(octets);
    var big := Reversed(octets);
    BigOf(octets);
    if buf.Length < |big| {
      if Shortest(big) { LeadingBound(big, buf.Length); }
      return ShortBuffer;
    }
    for i := 0 to |big|
      invariant forall k :: 0 <= k < buf.Length ==> buf[k] == if k < i then big[k] else old(buf[k])
    {
      buf[i] := big[i];
    }
    assert buf[..|big|] == big;
    return Written(|big|);
  }

  // Zero octets are dropped from the top, but one octet always stays.
  method WithoutTopZeros(b: bytes) returns (octets: bytes)
    requires b != []
    ensures octets != [] && FromLe(octets) == FromLe(b) && |octets| <= |b|
    ensures (exists k :: 0 <= k < |b| && b[k] != 0) ==> octets[|octets| - 1] != 0
  {
    octets := b;
    while octets[|octets| - 1] == 0 && |octets| > 1
      invariant octets != [] && |octets| <= |b| && FromLe(octets) == FromLe(b) && octets == b[..|octets|]
      invariant forall k :: |octets| <= k < |b| ==> b[k] == 0
    {
      var n := |octets| - 1;
      TopZero(octets[..n]);
      assert octets == octets[..n] + [0];
      octets := octets[..n];
    }
  }

  lemma BigOf(octets: bytes)
    ensures FromBe(Reversed(octets)) == FromLe(octets)
  {
    FromLeReversed(Reversed(octets));
    assert Reversed(Reversed(octets)) == octets;
  }

  // Octet strings without leading zeros are equal when their numbers are, so writing what
  // was read gives the same octets back but for leading zeros.
  lemma {:induction false} ShortestUnique(a: bytes, b: bytes)
    requires Shortest(a) && Shortest(b) && FromBe(a) == FromBe(b)
    ensures a == b
  {
    if a == [] || b == [] {
      LeadingOctet(a);
      LeadingOctet(b);
    } else {
      var m, n := |a| - 1, |b| - 1;
      assert Shortest(a[..m]) && Shortest(b[..n]);
      ShortestUnique(a[..m], b[..n]);
      assert a == a[..m] + [a[m]] && b == b[..n] + [b[n]];
    }
  }

  lemma {:induction false} LeadingOctet(b: bytes)
    requires Shortest(b)
    ensures FromBe(b) == 0 <==> b == []
  {
    if b != [] {
      var n := |b| - 1;
      if n > 0 { LeadingOctet(b[..n]); }
    }
  }

  lemma {:induction false} LeadingBound(b: bytes, n: nat)
    requires b != [] && Shortest(b) && n < |b|
    ensures FromBe(b) >= Exp(256, n)
  {
    var m := |b| - 1;
    if m == 0 {
      assert FromBe(b) == b[0];
    } else if n == 0 {
      LeadingOctet(b);
    } else {
      LeadingBound(b[..m], n - 1);
    }
  }
}
