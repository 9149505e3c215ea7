/** Facts about mathematical integers that the big-integer results are stated in:
    powers, divisibility, congruence, greatest common divisors, primes and
    Fermat's little theorem. */
module IntMath {

  function Exp(b: int, e: nat): int {
    if e == 0 then 1 else b * Exp(b, e - 1)
  }

  lemma {:induction false} ExpAdd(b: int, d: nat, e: nat)
    ensures Exp(b, d + e) == Exp(b, d) * Exp(b, e)
  {
    if d > 0 {
      ExpAdd(b, d - 1, e);
      assert b * (Exp(b, d - 1) * Exp(b, e)) == (b * Exp(b, d - 1)) * Exp(b, e);
    }
  }

  lemma {:induction false} ExpMul(b: int, d: nat, e: nat)
    ensures Exp(Exp(b, d), e) == Exp(b, d * e)
  {
    if e > 0 {
      ExpMul(b, d, e - 1);
      assert d * e == d + d * (e - 1);
      ExpAdd(b, d, d * (e - 1));
    }
  }

  lemma {:induction false} ExpPositive(b: int, e: nat)
    requires b >= 1
    ensures Exp(b, e) >= 1
  {
    if e > 0 { ExpPositive(b, e - 1); MulMono(1, b, Exp(b, e - 1)); }
  }

  lemma {:induction false} ExpMono(b: int, d: nat, e: nat)
    requires b >= 1 && d <= e
    ensures Exp(b, d) <= Exp(b, e)
  {
    ExpAdd(b, d, e - d);
    ExpPositive(b, d);
    ExpPositive(b, e - d);
    MulMono(1, Exp(b, e - d), Exp(b, d));
  }

  lemma {:induction false} ExpStrict(b: int, d: nat, e: nat)
    requires b >= 2 && d < e
    ensures Exp(b, d) < Exp(b, e)
  {
    ExpMono(b, d + 1, e);
    ExpPositive(b, d);
    MulMono(2, b, Exp(b, d));
  }

  // A power of two outgrows its exponent.
  lemma {:induction false} ExpAbove(e: nat)
    ensures Exp(2, e) >= e + 1
  {
    if e > 0 { ExpAbove(e - 1); }
  }

  lemma MulMono(x: int, y: int, z: int)
    requires x <= y && 0 <= z
    ensures x * z <= y * z && z * x <= z * y
  {
    assert y * z - x * z == (y - x) * z;
  }

  // ---------------------------------------------------------------- divisibility

  function Times(d: int, k: int): int { d * k }

  ghost predicate Divides(d: int, x: int) {
    exists k :: Times(d, k) == x
  }

  ghost predicate Cong(a: int, b: int, n: int) {
    Divides(n, a - b)
  }

  lemma DividesIntro(d: int, k: int)
    ensures Divides(d, d * k) && Divides(d, k * d)
  {
    assert Times(d, k) == d * k;
  }

  lemma DividesSum(d: int, x: int, y: int)
    requires Divides(d, x) && Divides(d, y)
    ensures Divides(d, x + y) && Divides(d, x - y)
  {
    var j :| Times(d, j) == x;
    var k :| Times(d, k) == y;
    assert d * j + d * k == d * (j + k);
    assert d * j - d * k == d * (j - k);
    assert Times(d, j + k) == x + y && Times(d, j - k) == x - y;
  }

  lemma DividesMul(d: int, x: int, z: int)
    requires Divides(d, x)
    ensures Divides(d, x * z) && Divides(d, z * x)
  {
    var k :| Times(d, k) == x;
    assert (d * k) * z == d * (k * z);
    assert Times(d, k * z) == x * z;
    assert z * x == x * z;
  }

  lemma DividesTrans(d: int, x: int, y: int)
    requires Divides(d, x) && Divides(x, y)
    ensures Divides(d, y)
  {
    var k :| Times(x, k) == y;
    DividesMul(d, x, k);
  }

  lemma DividesBound(d: int, x: int)
    requires Divides(d, x) && x > 0 && d >= 0
    ensures 1 <= d <= x
  {
    var k :| Times(d, k) == x;
    assert d != 0;
    if k <= 0 { MulMono(k, 0, d); assert false; }
    MulMono(1, k, d);
  }

  // Among 0 .. n-1 only 0 is divisible by n.
  lemma DividesSmall(n: int, x: int)
    requires Divides(n, x) && n > 0 && -n < x < n
    ensures x == 0
  {
    var k :| Times(n, k) == x;
    if k >= 1 { MulMono(1, k, n); } else if k <= -1 { MulMono(k, -1, n); }
  }

  lemma CongRefl(a: int, n: int)
    ensures Cong(a, a, n)
  {
    assert Times(n, 0) == a - a;
  }

  lemma CongSym(a: int, b: int, n: int)
    requires Cong(a, b, n)
    ensures Cong(b, a, n)
  {
    var k :| Times(n, k) == a - b;
    assert n * -k == -(n * k);
    assert Times(n, -k) == b - a;
  }

  lemma CongTrans(a: int, b: int, c: int, n: int)
    requires Cong(a, b, n) && Cong(b, c, n)
    ensures Cong(a, c, n)
  {
    DividesSum(n, a - b, b - c);
    assert (a - b) + (b - c) == a - c;
  }

  lemma CongMul(a: int, b: int, c: int, d: int, n: int)
    requires Cong(a, b, n) && Cong(c, d, n)
    ensures Cong(a * c, b * d, n)
  {
    DividesMul(n, a - b, c);
    DividesMul(n, c - d, b);
    DividesSum(n, (a - b) * c, b * (c - d));
    assert (a - b) * c + b * (c - d) == a * c - b * d;
  }

  lemma CongAdd(a: int, b: int, c: int, d: int, n: int)
    requires Cong(a, b, n) && Cong(c, d, n)
    ensures Cong(a + c, b + d, n)
  {
    DividesSum(n, a - b, c - d);
    assert (a - b) + (c - d) == (a + c) - (b + d);
  }

  lemma {:induction false} CongExp(a: int, b: int, e: nat, n: int)
    requires Cong(a, b, n)
    ensures Cong(Exp(a, e), Exp(b, e), n)
  {
    if e == 0 {
      CongRefl(1, n);
    } else {
      CongExp(a, b, e - 1, n);
      CongMul(a, b, Exp(a, e - 1), Exp(b, e - 1), n);
    }
  }

  // The residue in [0, n) is unique, and it is what % computes for positive n.
  lemma ResidueUnique(r: int, x: int, n: int)
    requires 0 <= r < n && Cong(r, x, n)
    ensures r == x % n
  {
    var q := x / n;
    assert x == n * q + x % n;
    assert Times(n, q) == x - x % n;
    assert Cong(x, x % n, n);
    CongTrans(r, x, x % n, n);
    DividesSmall(n, r - x % n);
  }

  lemma ResidueCong(x: int, n: int)
    requires n > 0
    ensures Cong(x % n, x, n)
  {
    assert x == n * (x / n) + x % n;
    assert Times(n, x / n) == x - x % n;
    CongSym(x, x % n, n);
  }

  // ---------------------------------------------------------------- gcd and primes

  ghost predicate IsGcd(g: int, a: int, b: int) {
    && g >= 0
    && Divides(g, a)
    && Divides(g, b)
    && forall d :: Divides(d, a) && Divides(d, b) ==> Divides(d, g)
  }

  // A common divisor that is a linear combination is the gcd.
  lemma BezoutGcd(g: int, a: int, b: int, u: int, v: int)
    requires g >= 0 && Divides(g, a) && Divides(g, b)
    requires g == u * a + v * b
    ensures IsGcd(g, a, b)
  {
    forall d | Divides(d, a) && Divides(d, b)
      ensures Divides(d, g)
    {
      DividesMul(d, a, u);
      DividesMul(d, b, v);
      DividesSum(d, u * a, v * b);
    }
  }

  lemma GcdUnique(g: int, h: int, a: int, b: int)
    requires IsGcd(g, a, b) && IsGcd(h, a, b)
    ensures g == h
  {
    assert Divides(g, h) && Divides(h, g);
    if g == 0 {
      var k :| Times(g, k) == h;
    } else if h == 0 {
      var k :| Times(h, k) == g;
    } else {
      DividesBound(g, h);
      DividesBound(h, g);
    }
  }

  ghost predicate IsPrime(p: int) {
    2 <= p && forall d :: 1 < d < p ==> !Divides(d, p)
  }

  // Every pair of naturals has Bezout cofactors for some common divisor.
  lemma {:induction false} Bezout(a: nat, b: nat) returns (g: nat, u: int, v: int)
    ensures Divides(g, a) && Divides(g, b) && g == u * a + v * b
    decreases b
  {
    if b == 0 {
      g, u, v := a, 1, 0;
      DividesIntro(a, 1);
      DividesIntro(a, 0);
    } else {
      var q, r := a / b, a % b;
      assert a == b * q + r;
      var u', v';
      g, u', v' := Bezout(b, r);
      u, v := v', u' - v' * q;
      DividesMul(g, b, q);
      DividesSum(g, b * q, r);
      assert g == u' * b + v' * (a - b * q);
      assert v' * (a - b * q) == v' * a - (v' * q) * b;
      assert (u' - v' * q) * b == u' * b - (v' * q) * b;
    }
  }

  // Euclid's lemma.
  lemma EuclidLemma(p: int, a: nat, b: int)
    requires IsPrime(p) && Divides(p, a * b) && !Divides(p, a)
    ensures Divides(p, b)
  {
    var g, u, v := Bezout(a, p);
    DividesBound(g, p);
    assert g != p;
    assert g == 1;
    calc {
      b;
      (u * a + v * p) * b;
      u * (a * b) + (v * b) * p;
    }
    DividesMul(p, a * b, u);
    DividesIntro(p, v * b);
    DividesSum(p, u * (a * b), (v * b) * p);
  }

  // ---------------------------------------------------------------- Fermat

  function Choose(n: nat, k: nat): nat {
    if k == 0 then 1
    else if n == 0 then 0
    else Choose(n - 1, k - 1) + Choose(n - 1, k)
  }

  lemma {:induction false} ChooseAbove(n: nat, k: nat)
    requires k > n
    ensures Choose(n, k) == 0
  {
    if n > 0 { ChooseAbove(n - 1, k - 1); ChooseAbove(n - 1, k); }
  }

  lemma {:induction false} ChooseFull(n: nat)
    ensures Choose(n, n) == 1
  {
    if n > 0 { ChooseFull(n - 1); ChooseAbove(n - 1, n); }
  }

  // The algebra of the absorption identity: x, y and z are the three coefficients involved.
  lemma AbsorbAlgebra(n: int, k: int, x: int, y: int, z: int)
    requires (k - 1) * (x + y) == (n - 1) * x && k * z == (n - 1) * y
    ensures k * ((x + y) + z) == n * (x + y)
  {
    calc {
      k * ((x + y) + z);
      k * (x + y) + k * z;
      (k - 1) * (x + y) + (x + y) + k * z;
      (n - 1) * x + (n - 1) * y + (x + y);
      n * (x + y);
    }
  }

  lemma {:induction false} ChooseAbsorb(n: nat, k: nat)
    requires n > 0 && k > 0
    ensures k * Choose(n, k) == n * Choose(n - 1, k - 1)
  {
    if n == 1 {
      if k > 1 { ChooseAbove(1, k); ChooseAbove(0, k - 1); }
    } else if k == 1 {
      ChooseAbsorb(n - 1, 1);
      assert Choose(n, 1) == 1 + Choose(n - 1, 1);
    } else {
      ChooseAbsorb(n - 1, k - 1);
      ChooseAbsorb(n - 1, k);
      var x, y, z := Choose(n - 2, k - 2), Choose(n - 2, k - 1), Choose(n - 1, k);
      assert Choose(n - 1, k - 1) == x + y && Choose(n, k) == (x + y) + z;
      AbsorbAlgebra(n, k, x, y, z);
    }
  }

  // The first m terms of the expansion of (1 + a)^n.
  function BinomialSum(n: nat, a: int, m: nat): int {
    if m == 0 then 0 else BinomialSum(n, a, m - 1) + Choose(n, m - 1) * Exp(a, m - 1)
  }

  lemma TermAlgebra(c: int, d: int, a: int, e: int, s: int)
    ensures (c + d) * (a * e) == a * (c * e) + d * (a * e)
    ensures a * (s + c * e) == a * s + a * (c * e)
  {
  }

  lemma {:induction false} BinomialStep(n: nat, a: int, m: nat)
    requires n > 0 && m > 0
    ensures BinomialSum(n, a, m) == BinomialSum(n - 1, a, m) + a * BinomialSum(n - 1, a, m - 1)
  {
    if m > 1 {
      BinomialStep(n, a, m - 1);
      var c, d, e, s := Choose(n - 1, m - 2), Choose(n - 1, m - 1), Exp(a, m - 2), BinomialSum(n - 1, a, m - 2);
      var se := a * e;
      assert Choose(n, m - 1) == c + d;
      assert Exp(a, m - 1) == se;
      TermAlgebra(c, d, a, e, s);
      assert BinomialSum(n - 1, a, m - 1) == s + c * e;
      assert BinomialSum(n, a, m) == BinomialSum(n, a, m - 1) + (c + d) * se;
      assert BinomialSum(n - 1, a, m) == BinomialSum(n - 1, a, m - 1) + d * se;
    }
  }

  lemma {:induction false} BinomialTheorem(n: nat, a: int)
    ensures Exp(1 + a, n) == BinomialSum(n, a, n + 1)
  {
    if n > 0 {
      BinomialTheorem(n - 1, a);
      BinomialStep(n, a, n + 1);
      ChooseAbove(n - 1, n);
      assert BinomialSum(n - 1, a, n + 1) == BinomialSum(n - 1, a, n);
      var s := BinomialSum(n - 1, a, n);
      assert (1 + a) * s == s + a * s;
    } else {
      assert BinomialSum(0, a, 0) == 0;
    }
  }

  // A prime divides every inner binomial coefficient of its own row.
  lemma PrimeDividesChoose(p: int, k: nat)
    requires IsPrime(p) && 0 < k < p
    ensures Divides(p, Choose(p, k))
  {
    ChooseAbsorb(p, k);
    DividesIntro(p, Choose(p - 1, k - 1));
    if Divides(p, k) { DividesBound(p, k); assert false; }
    EuclidLemma(p, k, Choose(p, k));
  }

  lemma {:induction false} InnerBinomialVanishes(p: int, a: int, m: nat)
    requires IsPrime(p) && 1 <= m <= p
    ensures Cong(BinomialSum(p, a, m), 1, p)
  {
    if m == 1 {
      assert BinomialSum(p, a, 0) == 0;
      assert BinomialSum(p, a, 1) == 1 * 1;
      CongRefl(1, p);
    } else {
      InnerBinomialVanishes(p, a, m - 1);
      PrimeDividesChoose(p, m - 1);
      DividesMul(p, Choose(p, m - 1), Exp(a, m - 1));
      DividesSum(p, BinomialSum(p, a, m - 1) - 1, Choose(p, m - 1) * Exp(a, m - 1));
    }
  }

  lemma {:induction false} FermatPower(p: int, a: nat)
    requires IsPrime(p)
    ensures Cong(Exp(a, p), a, p)
  {
    if a == 0 {
      assert Exp(0, p) == 0;
      CongRefl(0, p);
    } else {
      FermatPower(p, a - 1);
      BinomialTheorem(p, a - 1);
      InnerBinomialVanishes(p, a - 1, p);
      ChooseFull(p);
      assert Exp(a, p) == BinomialSum(p, a - 1, p) + Exp(a - 1, p);
      CongAdd(BinomialSum(p, a - 1, p), 1, Exp(a - 1, p), a - 1, p);
    }
  }

  // Fermat's little theorem.
  lemma Fermat(p: int, a: nat)
    requires IsPrime(p) && 0 < a < p
    ensures Cong(Exp(a, p - 1), 1, p)
  {
    FermatPower(p, a);
    assert Exp(a, p) - a == a * (Exp(a, p - 1) - 1);
    if Divides(p, a) { DividesBound(p, a); assert false; }
    EuclidLemma(p, a, Exp(a, p - 1) - 1);
  }

  // ---------------------------------------------------------------- digits

  // Quotient and remainder are fixed by the division identity.
  lemma DivIdentity(x: int, d: int, q: int, r: int)
    requires x == q * d + r && 0 <= r < d
    ensures x / d == q && x % d == r
  {
    var q', r' := x / d, x % d;
    assert x == q' * d + r';
    assert (q - q') * d == r' - r;
    if q > q' { MulMono(1, q - q', d); }
    if q < q' { MulMono(q - q', -1, d); }
  }

  lemma {:induction false} DivTwice(x: nat, d: nat, e: nat)
    requires d > 0 && e > 0
    ensures d * e > 0 && x / d / e == x / (d * e)
  {
    var q, r := x / d / e, (x / d % e) * d + x % d;
    MulMono(0, x / d % e, d);
    MulMono(x / d % e + 1, e, d);
    assert (x / d % e + 1) * d == (x / d % e) * d + d;
    assert x == (q * e + x / d % e) * d + x % d == q * (d * e) + r by { DigitAlgebra(q, e, d, x / d % e); }
    DivIdentity(x, d * e, q, r);
  }

  lemma DigitAlgebra(q: int, e: int, d: int, t: int)
    ensures (q * e + t) * d == q * (d * e) + t * d
  {
    assert (q * e) * d == q * (d * e);
  }

  function Bit(m: nat, k: nat): int {
    ExpPositive(2, k);
    (m / Exp(2, k)) % 2
  }

  // The higher bits are those of the half.
  lemma BitOfHalf(m: nat, k: nat)
    requires k > 0
    ensures Bit(m, k) == Bit(m / 2, k - 1)
  {
    ExpPositive(2, k - 1);
    DivTwice(m, 2, Exp(2, k - 1));
  }

  lemma BitZero(m: nat)
    ensures Bit(m, 0) == m % 2
  {
  }
}
