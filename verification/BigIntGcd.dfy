/** The extended gcd, modular inverses and the primality test. */
module BigIntGcd {
  import opened Word
  import opened IntMath
  import opened BigIntRep
  import opened BigInt
  import opened BigIntDiv
  import opened BigIntDivide
  import opened BigIntModular
  import Euclid

  // Numbers that fit every scratch buffer with a limb to spare.
  predicate Short(x: int) {
    BitLength(Euclid.Abs(x)) <= 32 * (LIMBS - 1)
  }

  lemma ShortLimbs(w: seq<u32>)
    requires Canonical(w)
    ensures Euclid.Abs(Value(w)) == Mag(w)
    ensures Short(Value(w)) <==> w[1] < LIMBS
  {
    LimbBits(w, LIMBS - 1);
    ZeroValue(w);
  }

  lemma ShortBound(x: int, m: nat)
    requires Short(m) && Euclid.Abs(x) <= m
    ensures Short(x)
  {
    BitLengthMono(Euclid.Abs(x), m);
  }

  // A cofactor step does not leave the scratch space.
  predicate Steppable(c0: int, c1: int, q: int) {
    Short(c0) && Short(c1) && Short(q * c1) && Short(c0 - q * c1)
  }

  predicate CofactorStep(c0: int, c1: int, q: int, d0: int, d1: int) {
    d0 == c1 && d1 == c0 - q * c1
  }

  // (c0, c1) := (c1, c0 - q c1).
  method CofactorRound(c0: array<u32>, c1: array<u32>, q: array<u32>)
    requires c0 != c1 && c0 != q && c1 != q && c0.Length == SCRATCH && c1.Length == SCRATCH
    requires Canonical(c0[..]) && Canonical(c1[..]) && Canonical(q[..]) && q[1] < LIMBS
    requires Steppable(Value(c0[..]), Value(c1[..]), Value(q[..]))
    modifies c0, c1
    ensures Canonical(c0[..]) && Canonical(c1[..])
    ensures CofactorStep(old(Value(c0[..])), old(Value(c1[..])), Value(q[..]), Value(c0[..]), Value(c1[..]))
  {
    ShortLimbs(c0[..]);
    ShortLimbs(c1[..]);
    var tmp := Scratch();
    MulShort(tmp, q, c1);
    var ns := Scratch();
    Sub(ns, c0, tmp);
    Assign(c0, c1);
    ShortLimbs(ns[..]);
    Assign(c1, ns);
  }

  method MulShort(tmp: array<u32>, x: array<u32>, y: array<u32>)
    requires tmp != x && tmp != y && tmp.Length == SCRATCH && Canonical(x[..]) && Canonical(y[..])
    requires x[1] < LIMBS && y[1] < LIMBS && Short(Value(x[..]) * Value(y[..]))
    modifies tmp
    ensures Canonical(tmp[..]) && Value(tmp[..]) == Value(x[..]) * Value(y[..]) && tmp[1] < LIMBS
  {
    ghost var p := Value(x[..]) * Value(y[..]);
    assert Mag(x[..]) * Mag(y[..]) < Weight(tmp.Length - 2) by {
      ShortProductFits(x[..], y[..], tmp.Length - 2);
    }
    Mul(tmp, x, y);
    assert Canonical(tmp[..]) && Value(tmp[..]) == p;
    ShortLimbs(tmp[..]);
  }

  lemma ShortProductFits(v: seq<u32>, w: seq<u32>, k: nat)
    requires Canonical(v) && Canonical(w) && Short(Value(v) * Value(w)) && k >= LIMBS - 1
    ensures Mag(v) * Mag(w) < Weight(k)
  {
    SignAlgebra(Mag(v), Mag(w), v[0] == 1, w[0] == 1);
    MulMono(0, Mag(v), Mag(w));
    BitLengthBound(Mag(v) * Mag(w), 32 * k);
    WeightIsPower(k);
  }

  // (r0, r1) := (r1, r0 mod r1), returning the quotient.
  method RemainderRound(r0: array<u32>, r1: array<u32>) returns (q: array<u32>)
    requires r0 != r1 && r0.Length == SCRATCH && r1.Length == SCRATCH
    requires Canonical(r0[..]) && Canonical(r1[..]) && r0[1] < LIMBS && r1[1] < LIMBS
    requires Value(r0[..]) >= 0 && Value(r1[..]) > 0
    modifies r0, r1
    ensures fresh(q) && Canonical(q[..]) && q[1] < LIMBS && Value(q[..]) >= 0
    ensures Canonical(r0[..]) && Canonical(r1[..]) && r0[1] < LIMBS && r1[1] < LIMBS
    ensures Value(r0[..]) == old(Value(r1[..])) && 0 <= Value(r1[..]) < old(Value(r1[..]))
    ensures old(Value(r0[..])) == Value(q[..]) * old(Value(r1[..])) + Value(r1[..])
  {
    ZeroValue(r0[..]);
    ZeroValue(r1[..]);
    q := Scratch();
    var r := Scratch();
    Div(q, r, r0, r1);
    ShortDivision(r0[..], r1[..], q[..], r[..]);
    QuotientRange(r0[..], r1[..], q[..], r[..]);
    Assign(r0, r1);
    Assign(r1, r);
  }

  lemma QuotientRange(v: seq<u32>, w: seq<u32>, q: seq<u32>, r: seq<u32>)
    requires Canonical(v) && Canonical(w) && Canonical(q) && Canonical(r) && v[1] < LIMBS
    requires Value(v) >= 0 && Value(w) > 0 && Value(v) == Value(q) * Value(w) + Value(r) && Mag(r) < Mag(w)
    requires Value(r) != 0 ==> (Value(r) < 0 <==> Value(v) < 0)
    ensures 0 <= Value(r) < Value(w) && 0 <= Value(q) <= Value(v) && q[1] < LIMBS
  {
    ZeroValue(v);
    ZeroValue(w);
    ZeroValue(r);
    var x, y := Value(q), Value(w);
    if x < 0 { MulMono(x, -1, y); }
    MulMono(1, y, x);
    ZeroValue(q);
    ShortLimbs(v);
    ShortBound(x, Value(v));
    ShortLimbs(q);
  }

  // A cofactor bounded by the operand it belongs to, or the initial 1.
  predicate Bounded(m: nat, c: int) {
    Euclid.Abs(c) <= Max(1, m)
  }

  lemma BoundedShort(m: nat, c: int)
    requires Short(m) && Bounded(m, c)
    ensures Short(c)
  {
    assert BitLength(1) == 1 + BitLength(0);
    BitLengthMono(Euclid.Abs(c), if m == 0 then 1 else m);
  }

  // The state of the loop: remainders, first and second cofactors.
  datatype State = State(r0: seq<u32>, r1: seq<u32>, s0: seq<u32>, s1: seq<u32>, t0: seq<u32>, t1: seq<u32>)

  ghost predicate Numbers(x: State) {
    && Canonical(x.r0) && Canonical(x.r1) && Canonical(x.s0) && Canonical(x.s1) && Canonical(x.t0) && Canonical(x.t1)
    && x.r0[1] < LIMBS && x.r1[1] < LIMBS
  }

  ghost predicate GcdInv(a: nat, b: nat, x: State) {
    && Numbers(x)
    && Bounded(b, Value(x.s0)) && Bounded(b, Value(x.s1))
    && Bounded(a, Value(x.t0)) && Bounded(a, Value(x.t1))
    && Euclid.Inv(a, b, Value(x.r0), Value(x.r1), Value(x.s0), Value(x.s1), Value(x.t0), Value(x.t1))
  }

  // y follows x by a division step with quotient q.
  ghost predicate Follows(x: State, q: int, y: State)
    requires Numbers(x)
  {
    && Numbers(y)
    && Value(y.r0) == Value(x.r1) && Value(x.r0) == q * Value(x.r1) + Value(y.r1)
    && CofactorStep(Value(x.s0), Value(x.s1), q, Value(y.s0), Value(y.s1))
    && CofactorStep(Value(x.t0), Value(x.t1), q, Value(y.t0), Value(y.t1))
  }

  lemma RoundKeeps(a: nat, b: nat, x: State, q: int, y: State)
    requires GcdInv(a, b, x) && Follows(x, q, y) && Value(x.r1) > 0 && q >= 0 && Value(y.r1) >= 0
    ensures GcdInv(a, b, y)
  {
    Euclid.Step(a, b, q, Value(y.r1), Value(x.r0), Value(x.r1), Value(x.s0), Value(x.s1), Value(x.t0), Value(x.t1));
  }

  lemma RoundFits(a: nat, b: nat, x: State, q: int, r: int)
    requires GcdInv(a, b, x) && Short(a) && Short(b) && Value(x.r1) > 0 && q >= 0 && r >= 0
    requires Value(x.r0) == q * Value(x.r1) + r
    ensures Steppable(Value(x.s0), Value(x.s1), q) && Steppable(Value(x.t0), Value(x.t1), q)
  {
    Euclid.Step(a, b, q, r, Value(x.r0), Value(x.r1), Value(x.s0), Value(x.s1), Value(x.t0), Value(x.t1));
    CofactorsShort(b, q, Value(x.s0), Value(x.s1));
    CofactorsShort(a, q, Value(x.t0), Value(x.t1));
  }

  // One division step on remainders and both cofactor pairs.
  method EuclidRound(r0: array<u32>, r1: array<u32>, s0: array<u32>, s1: array<u32>,
                     t0: array<u32>, t1: array<u32>, ghost a: nat, ghost b: nat)
    requires r0 != r1 && r0 != s0 && r0 != s1 && r0 != t0 && r0 != t1
    requires r1 != s0 && r1 != s1 && r1 != t0 && r1 != t1
    requires s0 != s1 && s0 != t0 && s0 != t1 && s1 != t0 && s1 != t1 && t0 != t1
    requires r0.Length == r1.Length == s0.Length == s1.Length == t0.Length == t1.Length == SCRATCH
    requires GcdInv(a, b, State(r0[..], r1[..], s0[..], s1[..], t0[..], t1[..]))
    requires Short(a) && Short(b) && Value(r1[..]) > 0
    modifies r0, r1, s0, s1, t0, t1
    ensures GcdInv(a, b, State(r0[..], r1[..], s0[..], s1[..], t0[..], t1[..]))
    ensures 0 <= Value(r1[..]) < old(Value(r1[..]))
  {
    ghost var x := State(r0[..], r1[..], s0[..], s1[..], t0[..], t1[..]);
    var q := RemainderRound(r0, r1);
    ghost var n, r := Value(q[..]), Value(r1[..]);
    assert s0[..] == x.s0 && s1[..] == x.s1 && t0[..] == x.t0 && t1[..] == x.t1;
    RoundFits(a, b, x, n, r);
    CofactorRound(s0, s1, q);
    assert t0[..] == x.t0 && t1[..] == x.t1 && Value(q[..]) == n && Value(r1[..]) == r;
    CofactorRound(t0, t1, q);
    ghost var y := State(r0[..], r1[..], s0[..], s1[..], t0[..], t1[..]);
    assert Value(y.r1) == r && Follows(x, n, y);
    RoundKeeps(a, b, x, n, y);
  }

  lemma CofactorsShort(m: nat, q: int, c0: int, c1: int)
    requires Short(m) && Bounded(m, c0) && Bounded(m, c1)
    requires Euclid.Abs(q * c1) <= m && Euclid.Abs(c0 - q * c1) <= m
    ensures Short(c0) && Short(c1) && Short(q * c1) && Short(c0 - q * c1)
    ensures Bounded(m, c0 - q * c1)
  {
    BoundedShort(m, c0);
    BoundedShort(m, c1);
    ShortBound(q * c1, m);
    ShortBound(c0 - q * c1, m);
  }

  lemma GcdStart(a: nat, b: nat, x: State)
    requires Numbers(x) && Value(x.r0) == a && Value(x.r1) == b
    requires Value(x.s0) == 1 && Value(x.s1) == 0 && Value(x.t0) == 0 && Value(x.t1) == 1
    ensures GcdInv(a, b, x)
  {
    Euclid.Start(a, b);
  }

  // What the outputs mean: g is the gcd of a and b with bounded cofactors u and v.
  ghost predicate GcdOf(a: nat, b: nat, g: int, u: int, v: int) {
    && IsGcd(g, a, b)
    && g == u * a + v * b
    && Bounded(b, u) && Bounded(a, v)
  }

  lemma GcdFinish(a: nat, b: nat, x: State)
    requires GcdInv(a, b, x) && Short(a) && Short(b) && x.r1[1] == 0
    ensures GcdOf(a, b, Value(x.r0), Value(x.s0), Value(x.t0))
    ensures x.s0[1] < LIMBS && x.t0[1] < LIMBS
  {
    ZeroValue(x.r1);
    Euclid.Finish(a, b, Value(x.r0), Value(x.s0), Value(x.s1), Value(x.t0), Value(x.t1));
    BoundedShort(b, Value(x.s0));
    BoundedShort(a, Value(x.t0));
    ShortLimbs(x.s0);
    ShortLimbs(x.t0);
  }

  // Division steps until the remainder is zero.
  method EuclidLoop(r0: array<u32>, r1: array<u32>, s0: array<u32>, s1: array<u32>,
                    t0: array<u32>, t1: array<u32>, ghost a: nat, ghost b: nat)
    requires r0 != r1 && r0 != s0 && r0 != s1 && r0 != t0 && r0 != t1
    requires r1 != s0 && r1 != s1 && r1 != t0 && r1 != t1
    requires s0 != s1 && s0 != t0 && s0 != t1 && s1 != t0 && s1 != t1 && t0 != t1
    requires r0.Length == r1.Length == s0.Length == s1.Length == t0.Length == t1.Length == SCRATCH
    requires GcdInv(a, b, State(r0[..], r1[..], s0[..], s1[..], t0[..], t1[..])) && Short(a) && Short(b)
    modifies r0, r1, s0, s1, t0, t1
    ensures Canonical(r0[..]) && Canonical(s0[..]) && Canonical(t0[..])
    ensures r0[1] < LIMBS && s0[1] < LIMBS && t0[1] < LIMBS
    ensures GcdOf(a, b, Value(r0[..]), Value(s0[..]), Value(t0[..]))
  {
    while r1[1] != 0
      invariant GcdInv(a, b, State(r0[..], r1[..], s0[..], s1[..], t0[..], t1[..]))
      decreases Value(r1[..])
    {
      ZeroValue(r1[..]);
      EuclidRound(r0, r1, s0, s1, t0, t1, a, b);
    }
    GcdFinish(a, b, State(r0[..], r1[..], s0[..], s1[..], t0[..], t1[..]));
  }

  method EuclidSetup(op1: array<u32>, op2: array<u32>)
    returns (r0: array<u32>, r1: array<u32>, s0: array<u32>, s1: array<u32>, t0: array<u32>, t1: array<u32>)
    requires Canonical(op1[..]) && Canonical(op2[..]) && op1[1] < LIMBS && op2[1] < LIMBS
    ensures fresh(r0) && fresh(r1) && fresh(s0) && fresh(s1) && fresh(t0) && fresh(t1)
    ensures r0 != r1 && r0 != s0 && r0 != s1 && r0 != t0 && r0 != t1
    ensures r1 != s0 && r1 != s1 && r1 != t0 && r1 != t1
    ensures s0 != s1 && s0 != t0 && s0 != t1 && s1 != t0 && s1 != t1 && t0 != t1
    ensures r0.Length == r1.Length == s0.Length == s1.Length == t0.Length == t1.Length == SCRATCH
    ensures GcdInv(Mag(op1[..]), Mag(op2[..]), State(r0[..], r1[..], s0[..], s1[..], t0[..], t1[..]))
  {
    r0 := ScratchAbs(op1);
    r1 := ScratchAbs(op2);
    s0 := ScratchS32(1);
    s1 := Scratch();
    t0 := Scratch();
    t1 := ScratchS32(1);
    GcdStart(Mag(op1[..]), Mag(op2[..]), State(r0[..], r1[..], s0[..], s1[..], t0[..], t1[..]));
  }

  lemma FewerLimbs(v: seq<u32>, w: seq<u32>)
    requires Trimmed(v) && Trimmed(w) && Mag(v) <= Mag(w)
    ensures v[1] <= w[1]
  {
    LimbCount(v, w[1]);
    LimbCount(w, w[1]);
  }

  // The gcd needs no more limbs than the longer operand,
  lemma GcdLimbs(v: seq<u32>, w: seq<u32>, g: seq<u32>, s: seq<u32>, t: seq<u32>)
    requires Canonical(v) && Canonical(w) && Canonical(g) && Canonical(s) && Canonical(t)
    requires GcdOf(Mag(v), Mag(w), Value(g), Value(s), Value(t))
    ensures g[1] <= Max(v[1], w[1])
  {
    ZeroValue(g);
    if Mag(v) > 0 {
      DividesBound(Value(g), Mag(v));
      FewerLimbs(g, v);
    } else if Mag(w) > 0 {
      DividesBound(Value(g), Mag(w));
      FewerLimbs(g, w);
    } else {
      assert Value(s) * 0 + Value(t) * 0 == 0;
      LimbCount(g, 0);
    }
  }

  // and a cofactor no more than the operand that bounds it, but at least one.
  lemma CofactorLimbs(c: seq<u32>, w: seq<u32>)
    requires Canonical(c) && Canonical(w) && Bounded(Mag(w), Value(c))
    ensures c[1] <= Max(1, w[1])
  {
    ZeroValue(c);
    if Mag(w) > 0 {
      FewerLimbs(c, w);
    } else {
      LimbCount(c, 1);
    }
  }

  // The gcd of the magnitudes with its cofactors.
  method ComputeExtendedGcd(gcd: array<u32>, u: array<u32>, v: array<u32>, op1: array<u32>, op2: array<u32>)
    requires gcd != u && gcd != v && u != v && gcd != op1 && gcd != op2
    requires u != op1 && u != op2 && v != op1 && v != op2
    requires Canonical(op1[..]) && Canonical(op2[..]) && op1[1] < LIMBS && op2[1] < LIMBS
    requires 2 + Max(op1[1], op2[1]) <= gcd.Length && 2 + Max(1, op2[1]) <= u.Length && 2 + Max(1, op1[1]) <= v.Length
    modifies gcd, u, v
    ensures Canonical(gcd[..]) && Canonical(u[..]) && Canonical(v[..]) && u[1] < LIMBS && v[1] < LIMBS
    ensures GcdOf(Mag(op1[..]), Mag(op2[..]), Value(gcd[..]), Value(u[..]), Value(v[..]))
  {
    ShortLimbs(op1[..]);
    ShortLimbs(op2[..]);
    var r0, r1, s0, s1, t0, t1 := EuclidSetup(op1, op2);
    EuclidLoop(r0, r1, s0, s1, t0, t1, Mag(op1[..]), Mag(op2[..]));
    GcdLimbs(op1[..], op2[..], r0[..], s0[..], t0[..]);
    CofactorLimbs(s0[..], op2[..]);
    CofactorLimbs(t0[..], op1[..]);
    Assign(gcd, r0);
    Assign(u, s0);
    Assign(v, t0);
  }

  // ---------------------------------------------------------------- inverses

  // From Bezout's identity for 1, the residue of the cofactor is an inverse.
  lemma InverseFromCofactor(a: nat, n: int, u: int, v: int, d: int)
    requires n >= 2 && 1 == u * a + v * n && d == u % n
    ensures 0 < d < n && Cong(a * d, 1, n)
  {
    ResidueCong(u, n);
    CongRefl(a, n);
    CongMul(a, a, d, u, n);
    assert Cong(a * u, 1, n) by {
      DividesIntro(n, -v);
      assert a * u - 1 == n * -v by { assert a * u == u * a; assert n * -v == -(v * n); }
    }
    CongTrans(a * d, a * u, 1, n);
    if d == 0 {
      assert a * d == 0;
      DividesSmall(n, a * d - 1);
    }
  }

  lemma InverseUnique(x: int, d: int, d': int, n: int)
    requires 0 <= d < n && 0 <= d' < n && Cong(x * d, 1, n) && Cong(x * d', 1, n)
    ensures d == d'
  {
    CongRefl(d', n);
    CongRefl(d, n);
    CongMul(x * d, 1, d', d', n);
    CongMul(x * d', 1, d, d, n);
    assert (x * d) * d' == (x * d') * d;
    CongSym((x * d) * d', 1 * d', n);
    CongTrans(d', (x * d) * d', d, n);
    DividesSmall(n, d' - d);
  }

  // An inverse of a is one of -a only modulo 2.
  lemma InverseOfNegative(a: nat, d: int, n: int)
    requires n >= 2 && Cong(a * d, 1, n)
    ensures Cong((-(a as int)) * d, 1, n) <==> n == 2
  {
    var x := a * d;
    assert (-(a as int)) * d == -x;
    DividesIntro(2, 1);
    if n == 2 {
      DividesSum(2, x - 1, 2);
      CongSym(x, 1, 2);
      assert Cong(-x, 1, 2) by { DividesSum(2, 1 - x, 2); }
    } else if Cong(-x, 1, n) {
      DividesSum(n, x - 1, -x - 1);
      DividesSmall(n, -2);
    }
  }

  // d inverts the magnitude a of x modulo n, or is 0 exactly when there is no inverse.
  // It inverts x itself if x is not negative, and otherwise only modulo 2.
  ghost predicate Inverted(x: int, n: int, d: int) {
    var a := Euclid.Abs(x);
    && (d == 0 <==> !IsGcd(1, a, n))
    && (IsGcd(1, a, n) ==>
          && 0 < d < n
          && Cong(a * d, 1, n)
          && (Cong(x * d, 1, n) <==> x >= 0 || n == 2))
  }

  lemma InverseFound(x: int, n: int, u: int, v: int)
    requires n >= 2 && GcdOf(Euclid.Abs(x), n, 1, u, v)
    ensures Inverted(x, n, u % n)
  {
    InverseFromCofactor(Euclid.Abs(x), n, u, v, u % n);
    InverseOfNegative(Euclid.Abs(x), u % n, n);
  }

  lemma NoInverse(x: int, n: int, g: int, u: int, v: int)
    requires n >= 2 && GcdOf(Euclid.Abs(x), n, g, u, v) && g != 1
    ensures Inverted(x, n, 0)
  {
    if IsGcd(1, Euclid.Abs(x), n) { GcdUnique(1, g, Euclid.Abs(x), n); }
  }

  method InvMod(dest: array<u32>, op: array<u32>, n: array<u32>)
    requires Canonical(op[..]) && Canonical(n[..]) && dest != op && dest != n
    requires op[1] < LIMBS && n[1] < LIMBS && Value(n[..]) >= 2 && 2 + n[1] <= dest.Length < BASE
    modifies dest
    ensures Canonical(dest[..]) && Inverted(Value(op[..]), Value(n[..]), Value(dest[..]))
  {
    ShortLimbs(op[..]);
    ShortLimbs(n[..]);
    var g := Scratch();
    var u := Scratch();
    var v := Scratch();
    ComputeExtendedGcd(g, u, v, op, n);
    var one := ScratchS32(1);
    var c := Cmp(g, one);
    if c != 0 {
      NoInverse(Value(op[..]), Value(n[..]), Value(g[..]), Value(u[..]), Value(v[..]));
      Init(dest);
      return;
    }
    CofactorFits(u[..], n[..]);
    InverseFound(Value(op[..]), Value(n[..]), Value(u[..]), Value(v[..]));
    Modulo(dest, u, n);
  }

  lemma CofactorFits(u: seq<u32>, n: seq<u32>)
    requires Canonical(u) && Canonical(n) && Value(n) >= 2 && Bounded(Mag(n), Value(u)) && n[1] < LIMBS
    ensures u[1] <= n[1] && RemainderExact(Mag(u), Mag(n), n[1])
  {
    ZeroValue(u);
    ZeroValue(n);
    LimbCount(n, n[1]);
    LimbCount(u, n[1]);
    LimbBits(u, LIMBS - 1);
    ShortDividend(Mag(u), n);
  }

  method RelativePrime(op1: array<u32>, op2: array<u32>) returns (r: bool)
    requires Canonical(op1[..]) && Canonical(op2[..]) && op1[1] < LIMBS && op2[1] < LIMBS
    ensures r <==> IsGcd(1, Mag(op1[..]), Mag(op2[..]))
  {
    var g := Scratch();
    var u := Scratch();
    var v := Scratch();
    ComputeExtendedGcd(g, u, v, op1, op2);
    var one := new u32[4](_ => 0);
    FromS32(one, 1);
    var c := Cmp(g, one);
    if IsGcd(1, Mag(op1[..]), Mag(op2[..])) { GcdUnique(1, Value(g[..]), Mag(op1[..]), Mag(op2[..])); }
    r := c == 0;
  }

  // ---------------------------------------------------------------- primality

  function Rounds(confidence: u32): int {
    if confidence < 1 then 1 else if confidence > 8 then 8 else confidence
  }

  predicate PassesBase(a: nat, p: int)
    requires p > 1
  {
    Exp(a, p - 1) % p == 1
  }

  // Two, or odd and a Fermat probable prime to the bases 2, 3, ... below itself.
  ghost predicate FermatProbable(p: int, rounds: int) {
    || p == 2
    || (p > 2 && p % 2 == 1 && forall a: nat :: 2 <= a < 2 + rounds && a < p ==> PassesBase(a, p))
  }

  // No prime is rejected.
  lemma PrimesPass(p: int, rounds: int)
    requires IsPrime(p)
    ensures FermatProbable(p, rounds)
  {
    if p > 2 {
      if p % 2 == 0 { DividesIntro(2, p / 2); assert false; }
      forall a: nat | 2 <= a < 2 + rounds && a < p
        ensures PassesBase(a, p)
      {
        Fermat(p, a);
        CongSym(Exp(a, p - 1), 1, p);
        ResidueUnique(1, Exp(a, p - 1), p);
      }
    }
  }

  // The lowest confidence accepts the composite 341 = 11 * 31.
  lemma Pseudoprime(p: int, e: nat)
    requires p == 341 && e == 10
    ensures FermatProbable(p, Rounds(1)) && !IsPrime(p)
  {
    DividesIntro(11, 31);
    assert Exp(2, e) == 1024 by { ExpAdd(2, 5, 5); assert Exp(2, 5) == 32; }
    assert Cong(Exp(2, e), 1, p) by { DividesIntro(p, 3); }
    CongExp(Exp(2, e), 1, 34, p);
    ExpMul(2, e, 34);
    ExpOne(34);
    CongSym(Exp(2, e * 34), 1, p);
    ResidueUnique(1, Exp(2, e * 34), p);
    forall a: nat | 2 <= a < 2 + Rounds(1) && a < p
      ensures PassesBase(a, p)
    {
      assert a == 2 && p - 1 == e * 34;
    }
  }

  // Base 3 finds it: 3^340 leaves 56, so every confidence of 2 and more rejects 341.
  lemma PseudoprimeFound(p: int, e: nat, confidence: u32)
    requires p == 341 && e == 10 && confidence >= 2
    ensures Exp(3, p - 1) % p == 56 && !FermatProbable(p, Rounds(confidence))
  {
    var x := Exp(3, e);
    assert x == 59049 by { ExpAdd(3, 5, 5); assert Exp(3, 5) == 243; }
    ExpMul(3, e, 3);
    assert Exp(x, 3) == x * (x * x) by { assert Exp(x, 3) == x * (x * (x * Exp(x, 0))); }
    assert Cong(Exp(3, e * 3), 1, p) by { DividesIntro(p, 603786311128); }
    CongExp(Exp(3, e * 3), 1, 11, p);
    ExpMul(3, e * 3, 11);
    ExpOne(11);
    CongRefl(x, p);
    CongMul(Exp(3, e * 3 * 11), 1, x, x, p);
    ExpAdd(3, e * 3 * 11, e);
    assert Cong(x, 56, p) by { DividesIntro(p, 173); }
    CongTrans(Exp(3, p - 1), x, 56, p);
    CongSym(Exp(3, p - 1), 56, p);
    ResidueUnique(56, Exp(3, p - 1), p);
    assert !PassesBase(3, p);
  }

  lemma {:induction false} ExpOne(e: nat)
    ensures Exp(1, e) == 1
  {
    if e > 0 { ExpOne(e - 1); }
  }

  // Fermat's test: 1 for two, and for odd numbers that pass it to base 2 and to every base
  // from 3 up to the confidence plus one, but at most 9; 0 otherwise.
  method IsProbablePrime(op: array<u32>, confidence: u32) returns (result: int)
    requires Canonical(op[..]) && BitLength(Mag(op[..])) <= MODULUS_BITS
    ensures result == 0 || result == 1
    ensures var p := Value(op[..]);
            result == 1 <==>
              || p == 2
              || (&& p > 2 && p % 2 == 1
                  && forall a: nat :: 2 <= a <= 9 && a < p && (a == 2 || a <= confidence + 1) ==> PassesBase(a, p))
    ensures IsPrime(Value(op[..])) ==> result == 1
  {
    ghost var p := Value(op[..]);
    ZeroValue(op[..]);
    if p > 2 { TestedBases(p, confidence); }
    if IsPrime(p) { PrimesPass(p, Rounds(confidence)); }
    if op[0] % 2 != 0 {
      return 0;
    }
    if op[1] == 0 {
      return 0;
    }
    var two := new u32[4](_ => 0);
    FromS32(two, 2);
    var c := Cmp(op, two);
    if c < 0 {
      return 0;
    }
    if c == 0 {
      return 1;
    }
    var odd := GetBit(op, 0);
    LowestBit(p);
    if !odd {
      return 0;
    }
    result := FermatRounds(op, Rounds(confidence));
  }

  lemma TestedBases(p: int, confidence: u32)
    requires p > 2
    ensures (forall a: nat :: 2 <= a < 2 + Rounds(confidence) && a < p ==> PassesBase(a, p)) <==>
            (forall a: nat :: 2 <= a <= 9 && a < p && (a == 2 || a <= confidence + 1) ==> PassesBase(a, p))
  {
  }

  lemma LowestBit(p: nat)
    ensures Bit(p, 0) == p % 2
  {
    assert Exp(2, 0) == 1 && p / 1 == p;
  }

  method FermatRounds(op: array<u32>, rounds: int) returns (result: int)
    requires Canonical(op[..]) && Value(op[..]) > 2 && Value(op[..]) % 2 == 1 && 1 <= rounds <= 8
    requires BitLength(Mag(op[..])) <= MODULUS_BITS
    ensures result == if FermatProbable(Value(op[..]), rounds) then 1 else 0
  {
    ghost var p := Value(op[..]);
    LimbBits(op[..], LIMBS);
    var n1 := Predecessor(op);
    for r := 0 to rounds
      invariant Canonical(n1[..]) && n1[1] <= LIMBS && Mag(n1[..]) == p - 1
      invariant forall a: nat :: 2 <= a < 2 + r && a < p ==> PassesBase(a, p)
    {
      var below, passed := FermatRound(op, n1, 2 + r);
      if !below {
        break;
      }
      if !passed {
        return 0;
      }
    }
    result := 1;
  }

  method Predecessor(op: array<u32>) returns (n1: array<u32>)
    requires Canonical(op[..]) && Value(op[..]) > 2 && op[1] <= LIMBS
    ensures fresh(n1) && Canonical(n1[..]) && Value(n1[..]) == Mag(n1[..]) == Value(op[..]) - 1 && n1[1] <= LIMBS
  {
    ZeroValue(op[..]);
    n1 := Scratch();
    var one := new u32[4](_ => 0);
    FromS32(one, 1);
    Sub(n1, op, one);
    ZeroValue(n1[..]);
    LimbBits(op[..], LIMBS);
    LimbBits(n1[..], LIMBS);
    BitLengthMono(Mag(n1[..]), Mag(op[..]));
  }

  // One base: whether it is below op and, if so, whether base^(op - 1) is 1 modulo op.
  method FermatRound(op: array<u32>, n1: array<u32>, base: i32) returns (below: bool, passed: bool)
    requires Canonical(op[..]) && Canonical(n1[..]) && Value(op[..]) > 2 && base >= 2
    requires BitLength(Mag(op[..])) <= MODULUS_BITS && n1[1] <= LIMBS && Mag(n1[..]) == Value(op[..]) - 1
    ensures below <==> base < Value(op[..])
    ensures below ==> (passed <==> PassesBase(base, Value(op[..])))
  {
    ZeroValue(op[..]);
    LimbBits(op[..], LIMBS);
    var a := new u32[4](_ => 0);
    FromS32(a, base);
    var c := CmpMag(a, op);
    ZeroValue(a[..]);
    below := c < 0;
    passed := false;
    if below {
      var x := Scratch();
      ShortOperand(a[..], op[..]);
      ExpMod(x, a, n1, op);
      var one := new u32[4](_ => 0);
      FromS32(one, 1);
      var d := Cmp(x, one);
      passed := d == 0;
    }
  }
}
