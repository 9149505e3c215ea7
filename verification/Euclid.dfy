/** The arithmetic of the iterative extended Euclidean algorithm and of
    square-and-multiply exponentiation. */
module Euclid {
  import opened IntMath

  function Abs(x: int): nat { if x < 0 then -x else x }

  // Successive cofactors never have the same sign.
  predicate Opposed(x: int, y: int) { x <= 0 <= y || y <= 0 <= x }

  // The cofactor pair (c0, c1) belonging to remainders (r0, r1); its determinant with
  // the remainders is the constant m, which bounds the cofactors.
  predicate Cofactors(m: int, r0: int, r1: int, c0: int, c1: int) {
    Opposed(c0, c1) && r0 * Abs(c1) + r1 * Abs(c0) == m
  }

  ghost predicate SharedDivisors(a: int, b: int, r0: int, r1: int) {
    forall d :: Divides(d, r0) && Divides(d, r1) ==> Divides(d, a) && Divides(d, b)
  }

  ghost predicate Inv(a: int, b: int, r0: int, r1: int, s0: int, s1: int, t0: int, t1: int) {
    && r0 >= 0 && r1 >= 0
    && r0 == s0 * a + t0 * b
    && r1 == s1 * a + t1 * b
    && Cofactors(b, r0, r1, s0, s1)
    && Cofactors(a, r0, r1, t0, t1)
    && SharedDivisors(a, b, r0, r1)
  }

  lemma Start(a: nat, b: nat)
    ensures Inv(a, b, a, b, 1, 0, 0, 1)
  {
  }

  // The cofactor after (c0, c1) for quotient q, with the bounds that keep it in its buffer.
  lemma CofactorStep(m: int, r0: int, r1: int, c0: int, c1: int, q: int, r: int)
    requires Cofactors(m, r0, r1, c0, c1) && r0 == q * r1 + r && q >= 0 && r1 >= 1 && r >= 0
    ensures Cofactors(m, r1, r, c1, c0 - q * c1)
    ensures Abs(q * c1) <= Abs(c0 - q * c1) <= m
  {
    var x: int, y: int := Abs(c0), Abs(c1);
    assert q * y >= 0 by { MulMono(0, q, y); }
    assert q * c1 == if c1 < 0 then -(q * y) else q * y by { if c1 < 0 { assert q * (-y) == -(q * y); } }
    assert Abs(c0 - q * c1) == x + q * y;
    StepAlgebra(q, r1, r, x, y);
    MulMono(1, r1, x + q * y);
    MulMono(0, r, y);
  }

  lemma StepAlgebra(q: int, r1: int, r: int, x: int, y: int)
    ensures (q * r1 + r) * y + r1 * x == r1 * (x + q * y) + r * y
  {
    assert (q * r1) * y == r1 * (q * y);
  }

  lemma BezoutStep(a: int, b: int, q: int, r0: int, r1: int, s0: int, s1: int, t0: int, t1: int)
    requires r0 == s0 * a + t0 * b && r1 == s1 * a + t1 * b
    ensures r0 - q * r1 == (s0 - q * s1) * a + (t0 - q * t1) * b
  {
    assert q * (s1 * a + t1 * b) == (q * s1) * a + (q * t1) * b;
    assert (s0 - q * s1) * a == s0 * a - (q * s1) * a;
    assert (t0 - q * t1) * b == t0 * b - (q * t1) * b;
  }

  lemma SharedStep(a: int, b: int, q: int, r0: int, r1: int, r: int)
    requires SharedDivisors(a, b, r0, r1) && r0 == q * r1 + r
    ensures SharedDivisors(a, b, r1, r)
  {
    forall d | Divides(d, r1) && Divides(d, r)
      ensures Divides(d, a) && Divides(d, b)
    {
      DividesMul(d, r1, q);
      DividesSum(d, q * r1, r);
    }
  }

  lemma Step(a: int, b: int, q: int, r: int, r0: int, r1: int, s0: int, s1: int, t0: int, t1: int)
    requires Inv(a, b, r0, r1, s0, s1, t0, t1) && r0 == q * r1 + r && q >= 0 && r1 >= 1 && r >= 0
    ensures Inv(a, b, r1, r, s1, s0 - q * s1, t1, t0 - q * t1)
    ensures Abs(q * s1) <= b && Abs(q * t1) <= a
    ensures Abs(s0 - q * s1) <= b && Abs(t0 - q * t1) <= a
  {
    CofactorStep(b, r0, r1, s0, s1, q, r);
    CofactorStep(a, r0, r1, t0, t1, q, r);
    BezoutStep(a, b, q, r0, r1, s0, s1, t0, t1);
    SharedStep(a, b, q, r0, r1, r);
  }

  lemma Finish(a: int, b: int, g: int, s0: int, s1: int, t0: int, t1: int)
    requires Inv(a, b, g, 0, s0, s1, t0, t1)
    ensures IsGcd(g, a, b) && g == s0 * a + t0 * b
  {
    DividesIntro(g, 1);
    DividesIntro(g, 0);
    BezoutGcd(g, a, b, s0, t0);
  }

  // ---------------------------------------------------------------- square and multiply

  // After i bits of the exponent e: the base holds op^(2^i), the result op^(e mod 2^i).
  ghost predicate PowInv(op: int, e: nat, n: int, i: nat, base: int, result: int) {
    && Exp(2, i) >= 1
    && 0 <= base < n && 0 <= result < n
    && Cong(base, Exp(op, Exp(2, i)), n)
    && Cong(result, Exp(op, e % Exp(2, i)), n)
  }

  lemma PowStart(op: int, e: nat, n: int)
    requires n >= 2
    ensures PowInv(op, e, n, 0, op % n, 1)
  {
    ResidueCong(op, n);
    assert Exp(2, 0) == 1 && Exp(op, 1) == op * Exp(op, 0) && e % 1 == 0;
    CongRefl(1, n);
  }

  lemma LowBits(e: nat, i: nat)
    requires Exp(2, i) >= 1
    ensures Exp(2, i + 1) == 2 * Exp(2, i)
    ensures e % Exp(2, i + 1) == e % Exp(2, i) + ((e / Exp(2, i)) % 2) * Exp(2, i)
  {
    LowBitsAlgebra(e, Exp(2, i));
  }

  lemma LowBitsAlgebra(e: int, p: int)
    requires p >= 1
    ensures e % (2 * p) == e % p + ((e / p) % 2) * p
  {
    var q, k := e / p, (e / p) / 2;
    var b := q % 2;
    assert e == q * p + e % p && q == 2 * k + b;
    assert q * p == k * (2 * p) + b * p by { assert (2 * k + b) * p == k * (2 * p) + b * p; }
    var m := e % p + b * p;
    assert 0 <= m < 2 * p;
    var q', m' := e / (2 * p), e % (2 * p);
    assert e == q' * (2 * p) + m';
    assert (q' - k) * (2 * p) == m - m';
    if q' > k { MulMono(1, q' - k, 2 * p); }
    if q' < k { MulMono(q' - k, -1, 2 * p); }
  }

  lemma PowStep(op: int, e: nat, n: int, i: nat, base: int, result: int, base': int, result': int)
    requires n >= 2 && PowInv(op, e, n, i, base, result)
    requires base' == (base * base) % n
    requires result' == if (e / Exp(2, i)) % 2 == 1 then (result * base) % n else result
    ensures PowInv(op, e, n, i + 1, base', result')
  {
    var p := Exp(2, i);
    LowBits(e, i);
    var low := e % p;
    ResidueCong(base * base, n);
    CongMul(base, Exp(op, p), base, Exp(op, p), n);
    ExpAdd(op, p, p);
    CongTrans(base', base * base, Exp(op, 2 * p), n);
    if (e / p) % 2 == 1 {
      ResidueCong(result * base, n);
      CongMul(result, Exp(op, low), base, Exp(op, p), n);
      ExpAdd(op, low, p);
      CongTrans(result', result * base, Exp(op, low + p), n);
    }
  }

  lemma PowFinish(op: int, e: nat, n: int, i: nat, base: int, result: int)
    requires PowInv(op, e, n, i, base, result) && e < Exp(2, i)
    ensures result == Exp(op, e) % n
  {
    assert e % Exp(2, i) == e by { assert e == 0 * Exp(2, i) + e; SmallMod(e, Exp(2, i)); }
    ResidueUnique(result, Exp(op, e), n);
  }

  lemma SmallMod(e: int, p: int)
    requires 0 <= e < p
    ensures e % p == e
  {
    var q := e / p;
    assert e == q * p + e % p;
    if q >= 1 { MulMono(1, q, p); }
    if q <= -1 { MulMono(q, -1, p); }
  }
}
