/** Modular reduction, multiplication and exponentiation. */
module BigIntModular {
  import opened Word
  import opened IntMath
  import opened BigIntRep
  import opened BigInt
  import opened BigIntDiv
  import opened BigIntDivide
  import Euclid

  // Truncated division of the integers.
  function TruncDiv(a: int, b: int): int
    requires b != 0
  {
    var q := Euclid.Abs(a) / Euclid.Abs(b);
    if (a < 0) != (b < 0) then -q else q
  }

  // With a dividend of at most 127 limbs, Div is truncated division.
  lemma ShortDivision(v: seq<u32>, w: seq<u32>, q: seq<u32>, r: seq<u32>)
    requires Canonical(v) && Canonical(w) && 0 < w[1] <= LIMBS && v[1] < LIMBS && Divided(v, w, q, r)
    ensures Value(w) != 0 && Value(q) == TruncDiv(Value(v), Value(w))
    ensures Value(v) == Value(q) * Value(w) + Value(r) && Mag(r) < Mag(w)
    ensures Value(r) != 0 ==> (Value(r) < 0 <==> Value(v) < 0)
  {
    LimbBits(v, LIMBS - 1);
    ShortDividend(Mag(v), w);
    ZeroValue(v);
    ZeroValue(w);
    ZeroValue(r);
    var a, b, q', r' := Value(v), Value(w), Value(q), Value(r);
    TruncUnique(a, b, q', r');
  }

  lemma TruncUnique(a: int, b: int, q: int, r: int)
    requires b != 0 && a == q * b + r && Euclid.Abs(r) < Euclid.Abs(b)
    requires r != 0 ==> (r < 0 <==> a < 0)
    ensures q == TruncDiv(a, b)
  {
    var s := if (a < 0) != (b < 0) then -q else q;
    var m: int, d: int, t: int := Euclid.Abs(a), Euclid.Abs(b), Euclid.Abs(r);
    assert m == s * d + t by {
      SignAlgebra(q, b, a < 0, false);
      SignAlgebra(q, b, b < 0, b < 0);
      SignAlgebra(q, b, (a < 0) != (b < 0), b < 0);
    }
    DivIdentity(m, d, s, t);
  }

  // ---------------------------------------------------------------- reduction

  // Negative operands are reduced by taking the remainder from the modulus.
  lemma NegativeResidue(m: nat, r: nat, n: int)
    requires n > 0 && Divides(n, m - r) && r < n
    ensures m % n == r
    ensures (-(m as int)) % n == if r == 0 then 0 else n - r
  {
    CongSym(m, r, n);
    ResidueUnique(r, m, n);
    var x := -(m as int);
    if r == 0 {
      CongSym(m, 0, n);
      assert Cong(0, x, n) by { assert 0 - x == m - 0; }
      ResidueUnique(0, x, n);
    } else {
      DividesIntro(n, 1);
      DividesSum(n, m - r, n);
      assert n - r - x == (m - r) + n;
      ResidueUnique(n - r, x, n);
    }
  }

  // Replaces the remainder r of a negative operand by n - r.
  method Complement(dest: array<u32>, n: array<u32>)
    requires Canonical(dest[..]) && Canonical(n[..]) && Value(dest[..]) > 0 && Value(n[..]) > 0 && dest != n
    requires dest[1] <= LIMBS && n[1] <= LIMBS && 2 + n[1] <= dest.Length
    modifies dest
    ensures Canonical(dest[..]) && Value(dest[..]) == Euclid.Abs(Value(n[..]) - old(Value(dest[..])))
  {
    ZeroValue(dest[..]);
    ZeroValue(n[..]);
    var t := Scratch();
    Sub(t, n, dest);
    ghost var k := Max(n[1], dest[1]);
    LimbCount(n[..], k);
    LimbCount(dest[..], k);
    LimbCount(t[..], k);
    AssignAbs(dest, t);
  }

  ghost predicate Reduced(v: seq<u32>, n: seq<u32>, r: seq<u32>)
    requires Canonical(v) && Canonical(n) && 0 < Value(n) && n[1] <= LIMBS
  {
    && Canonical(r) && Value(r) >= 0
    && (RemainderExact(Mag(v), Mag(n), n[1]) ==> Value(r) == Value(v) % Value(n))
    && (Value(v) >= 0 && Value(r) == Value(v) % Value(n) ==> RemainderExact(Mag(v), Mag(n), n[1]))
  }

  // The least non-negative residue, exactly when the remainder of the division is exact;
  // for a negative operand exactness is enough. A zero modulus gives zero, and an operand
  // longer than the destination is cut off.
  method Modulo(dest: array<u32>, op: array<u32>, n: array<u32>)
    requires Canonical(op[..]) && Canonical(n[..]) && Value(n[..]) >= 0 && dest != op && dest != n
    requires n[1] <= LIMBS && 2 <= dest.Length < BASE
    requires Value(n[..]) > 0 && 2 + op[1] <= dest.Length ==>
               op[1] <= LIMBS && (Value(op[..]) < 0 ==> 2 + n[1] <= dest.Length)
    modifies dest
    ensures Value(n[..]) == 0 ==> Canonical(dest[..]) && Value(dest[..]) == 0
    ensures Value(n[..]) > 0 && 2 + op[1] <= dest.Length ==> Reduced(op[..], n[..], dest[..])
    ensures Value(n[..]) > 0 && 2 + op[1] > dest.Length ==> CutOff(op[..], dest[..])
  {
    ZeroValue(op[..]);
    ZeroValue(n[..]);
    var q := Scratch();
    Div(q, dest, op, n);
    if 2 + dest[1] > dest.Length {
      dest[0] := 0;
      return;
    }
    ModuloSign(dest, op, n);
  }

  // The sign of the remainder is dropped and a negative operand's remainder complemented.
  method ModuloSign(dest: array<u32>, op: array<u32>, n: array<u32>)
    requires Canonical(op[..]) && Canonical(n[..]) && Value(n[..]) >= 0 && n[1] <= LIMBS && dest != op && dest != n
    requires Canonical(dest[..])
    requires Value(n[..]) == 0 ==> Value(dest[..]) == 0
    requires Value(n[..]) > 0 ==>
               && op[1] <= LIMBS && dest[1] <= op[1] && (Value(op[..]) < 0 ==> 2 + n[1] <= dest.Length)
               && (Mag(dest[..]) < Mag(n[..]) <==> RemainderExact(Mag(op[..]), Mag(n[..]), n[1]))
               && Divides(Mag(n[..]), Mag(op[..]) - Mag(dest[..]))
    modifies dest
    ensures Value(n[..]) == 0 ==> Canonical(dest[..]) && Value(dest[..]) == 0
    ensures Value(n[..]) > 0 ==> Reduced(op[..], n[..], dest[..])
  {
    ZeroValue(op[..]);
    ZeroValue(n[..]);
    ZeroValue(dest[..]);
    SetSign(dest, 0);
    LimbCount(dest[..], 0);
    ghost var r := Mag(dest[..]);
    if Value(n[..]) > 0 && r < Mag(n[..]) { NegativeResidue(Mag(op[..]), r, Mag(n[..])); }
    if op[0] % 2 != 0 && dest[1] != 0 {
      Complement(dest, n);
    }
  }

  // ---------------------------------------------------------------- multiplication

  // Products of residues of a modulus of this many bits always reduce exactly.
  const MODULUS_BITS: nat := 2048

  ghost function ProductMag(v: seq<u32>, w: seq<u32>): nat
    requires Canonical(v) && Canonical(w)
  {
    MulMono(0, Mag(v), Mag(w));
    Mag(v) * Mag(w)
  }

  lemma MagOfProduct(v: seq<u32>, w: seq<u32>, p: seq<u32>)
    requires Canonical(v) && Canonical(w) && Canonical(p) && Value(p) == Value(v) * Value(w)
    ensures Mag(p) == ProductMag(v, w)
  {
    SignAlgebra(Mag(v), Mag(w), v[0] == 1, w[0] == 1);
  }

  // The residue of a product that fits the destination, exactly when its division is
  // exact; for a negative product exactness is enough. A product that does not fit leaves
  // an ill-formed number, and one of more than 128 limbs that does would overrun the
  // scratch space of the division.
  method MulMod(dest: array<u32>, op1: array<u32>, op2: array<u32>, n: array<u32>)
    requires Canonical(op1[..]) && Canonical(op2[..]) && Canonical(n[..]) && Value(n[..]) > 0
    requires dest != op1 && dest != op2 && dest != n && 2 <= dest.Length < BASE
    requires op1[1] <= LIMBS && op2[1] <= LIMBS && n[1] <= LIMBS
    requires BitLength(ProductMag(op1[..], op2[..])) <= 32 * (dest.Length - 2) ==>
               && BitLength(ProductMag(op1[..], op2[..])) <= 32 * LIMBS
               && (op1[0] != op2[0] ==> 2 + n[1] <= dest.Length)
    modifies dest
    ensures BitLength(ProductMag(op1[..], op2[..])) > 32 * (dest.Length - 2) <==> !WellFormed(dest[..])
    ensures BitLength(ProductMag(op1[..], op2[..])) <= 32 * (dest.Length - 2) ==>
              MulReduced(op1[..], op2[..], n[..], dest[..])
  {
    var s := new u32[2 * SCRATCH](_ => 0);
    MulWide(s, op1, op2);
    LimbBits(s[..], LIMBS);
    LimbBits(s[..], dest.Length - 2);
    Modulo(dest, s, n);
  }

  ghost predicate MulReduced(v: seq<u32>, w: seq<u32>, n: seq<u32>, r: seq<u32>)
    requires Canonical(v) && Canonical(w) && Canonical(n) && 0 < Value(n) && n[1] <= LIMBS
  {
    && Canonical(r) && Value(r) >= 0
    && (RemainderExact(ProductMag(v, w), Mag(n), n[1]) ==> Value(r) == (Value(v) * Value(w)) % Value(n))
    && (Value(v) * Value(w) >= 0 && Value(r) == (Value(v) * Value(w)) % Value(n) ==>
          RemainderExact(ProductMag(v, w), Mag(n), n[1]))
  }

  // Mul into a double-width buffer, which holds every product of two operands.
  method MulWide(s: array<u32>, op1: array<u32>, op2: array<u32>)
    requires Canonical(op1[..]) && Canonical(op2[..]) && op1[1] <= LIMBS && op2[1] <= LIMBS
    requires s != op1 && s != op2 && s.Length == 2 * SCRATCH
    modifies s
    ensures Canonical(s[..]) && Value(s[..]) == Value(op1[..]) * Value(op2[..])
    ensures Mag(s[..]) == ProductMag(op1[..], op2[..])
    ensures Value(s[..]) < 0 ==> op1[0] != op2[0]
  {
    WideProduct(op1[..], op2[..], s.Length - 2);
    SignAlgebra(Mag(op1[..]), Mag(op2[..]), op1[0] == 1, op2[0] == 1);
    Mul(s, op1, op2);
    MagOfProduct(op1[..], op2[..], s[..]);
  }

  lemma WideProduct(v: seq<u32>, w: seq<u32>, k: nat)
    requires Canonical(v) && Canonical(w) && v[1] <= LIMBS && w[1] <= LIMBS && k >= 2 * LIMBS
    ensures ProductMag(v, w) < Weight(k)
  {
    LimbBits(v, LIMBS);
    LimbBits(w, LIMBS);
    BitLengthProduct(Mag(v), Mag(w));
    BitLengthBound(ProductMag(v, w), 32 * k);
    WeightIsPower(k);
  }

  // A modulus of at most 64 limbs leaves room for a shift by as many bits again.
  lemma ResidueProductExact(p: nat, d: nat, lb: nat)
    requires p < d * Exp(2, 32 * lb) && 2 * lb <= LIMBS
    ensures RemainderExact(p, d, lb)
  {
    ExpMono(2, 32 * lb, Limit(lb));
    MulMono(Exp(2, 32 * lb), Exp(2, Limit(lb)), d);
    if !QuotientExact(p, d, lb) {
      DigitGapTop(d, Exp(2, Limit(lb)), Top(p, d) + 1 - Limit(lb));
    }
  }

  lemma DigitGapTop(d: nat, e: nat, k: nat)
    ensures d * e <= d * (e + k)
  {
    MulMono(e, e + k, d);
  }

  lemma ResidueProduct(v: seq<u32>, w: seq<u32>, n: seq<u32>)
    requires Canonical(v) && Canonical(w) && Canonical(n) && BitLength(Mag(n)) <= MODULUS_BITS
    requires 0 <= Value(v) < Value(n) && 0 <= Value(w) < Value(n)
    ensures v[0] == 0 && w[0] == 0 && n[0] == 0 && v[1] <= LIMBS && w[1] <= LIMBS && 0 < n[1] <= LIMBS
    ensures BitLength(ProductMag(v, w)) <= 32 * LIMBS && RemainderExact(ProductMag(v, w), Mag(n), n[1])
  {
    ZeroValue(v);
    ZeroValue(w);
    ZeroValue(n);
    LimbBits(n, LIMBS / 2);
    ResidueFits(v, n);
    ResidueFits(w, n);
    BitLengthMono(Mag(v), Mag(n));
    BitLengthMono(Mag(w), Mag(n));
    BitLengthProduct(Mag(v), Mag(w));
    LimbBits(n, n[1]);
    BitLengthBound(Mag(n), 32 * n[1]);
    ProductLess(Mag(v), Mag(w), Mag(n), Exp(2, 32 * n[1]));
    ResidueProductExact(ProductMag(v, w), Mag(n), n[1]);
  }

  lemma FarAbove(n: nat, b: nat, lim: nat)
    requires lim + 4 <= b && Exp(2, b - 1) <= n
    ensures 4 * Exp(2, lim) <= n - 2 && Exp(2, lim) + b + 1 <= n - 2
  {
    var e := Exp(2, b - 3);
    assert Exp(2, b - 2) == 2 * e && Exp(2, b - 1) == 2 * Exp(2, b - 2);
    assert Exp(2, lim + 1) == 2 * Exp(2, lim);
    ExpMono(2, lim + 1, b - 3);
    ExpAbove(b - 3);
    ExpPositive(2, lim);
  }

  lemma LargestSquare(n: nat, m: nat)
    requires m <= n - 2
    ensures m * n <= (n - 1) * (n - 1)
  {
    MulMono(m, n - 2, n);
    assert (n - 2) * n + 1 == (n - 1) * (n - 1);
  }

  // A dividend at least 2^(lim + 2) times the divisor.
  lemma TopAbove(p: nat, n: nat, lim: nat, e: nat)
    requires n > 0 && e == Exp(2, lim) && (4 * e) * n <= p
    ensures n <= p && Top(p, n) > lim
  {
    ExpPositive(2, lim);
    MulMono(1, 4 * e, n);
    assert Exp(2, lim + 1) == 2 * e && Exp(2, lim + 2) == 2 * Exp(2, lim + 1) == 4 * e;
    var m := n * Exp(2, lim + 2);
    BitLengthScaled(0, n, lim + 2);
    BitLengthMono(m, p);
  }

  lemma OutOfRange(p: nat, n: nat, lb: nat, e: nat, b: nat)
    requires 0 < lb <= LIMBS && e == Exp(2, Limit(lb)) && n <= p && Limit(lb) < Top(p, n) <= b && (e + b + 1) * n <= p
    ensures !RemainderExact(p, n, lb)
  {
    var k := Top(p, n) + 1 - Limit(lb);
    MulMono(e + k, e + b + 1, n);
  }

  lemma LargestSquareBits(n: nat, p: nat)
    requires n >= 1 && p == (n - 1) * (n - 1)
    ensures BitLength(p) <= 2 * BitLength(n)
  {
    BitLengthProduct(n - 1, n - 1);
    BitLengthMono(n - 1, n);
  }

  // For a longer modulus the square of the largest residue leaves a remainder out of range.
  lemma LongModulus(n: nat, lb: nat, p: nat)
    requires LIMBS < 2 * lb && lb <= LIMBS && Exp(2, 32 * (lb - 1)) <= n && p == (n - 1) * (n - 1)
    ensures n >= 2 && !RemainderExact(p, n, lb)
  {
    var b, lim, k := BitLength(n), Limit(lb), 32 * (lb - 1);
    ExpPositive(2, lim);
    ExpPositive(2, k);
    var e: nat := Exp(2, lim);
    BitLengthBound(n, k);
    BitLengthRange(n);
    FarAbove(n, b, lim);
    LargestSquare(n, 4 * e);
    LargestSquare(n, e + b + 1);
    LargestSquareBits(n, p);
    TopAbove(p, n, lim, e);
    OutOfRange(p, n, lb, e, b);
  }

  predicate ProductExact(v: nat, w: nat, n: nat, lb: nat)
    requires lb <= LIMBS
  {
    MulMono(0, v, w);
    RemainderExact(v * w, n, lb)
  }

  ghost predicate ResiduesExact(n: nat, lb: nat)
    requires lb <= LIMBS
  {
    forall v: nat, w: nat :: v < n && w < n ==> ProductExact(v, w, n, lb)
  }

  lemma ShortModulus(v: nat, w: nat, n: nat, lb: nat)
    requires v < n && w < n < Exp(2, 32 * lb) && 2 * lb <= LIMBS
    ensures ProductExact(v, w, n, lb)
  {
    ProductLess(v, w, n, Exp(2, 32 * lb));
    var p: nat := v * w;
    ResidueProductExact(p, n, lb);
  }

  // Every product of residues reduces exactly if and only if the modulus has at most 64
  // limbs, that is, 2048 bits.
  lemma ModulusExact(n: nat, lb: nat)
    requires 0 < lb <= LIMBS && Exp(2, 32 * (lb - 1)) <= n < Exp(2, 32 * lb)
    ensures ResiduesExact(n, lb) <==> 2 * lb <= LIMBS
  {
    if 2 * lb <= LIMBS {
      forall v: nat, w: nat | v < n && w < n ensures ProductExact(v, w, n, lb) {
        ShortModulus(v, w, n, lb);
      }
    } else {
      LargestFails(n, lb);
    }
  }

  lemma LargestFails(n: nat, lb: nat)
    requires LIMBS < 2 * lb && lb <= LIMBS && Exp(2, 32 * (lb - 1)) <= n
    ensures n >= 2 && !ProductExact(n - 1, n - 1, n, lb)
  {
    ExpPositive(2, 32 * (lb - 1));
    MulMono(0, n - 1, n - 1);
    var p: nat := (n - 1) * (n - 1);
    LongModulus(n, lb, p);
  }

  // MulMod on residues of a modulus below 2^2048, in a scratch buffer.
  method MulResidues(dest: array<u32>, op1: array<u32>, op2: array<u32>, n: array<u32>)
    requires Canonical(op1[..]) && Canonical(op2[..]) && Canonical(n[..])
    requires dest != op1 && dest != op2 && dest != n && dest.Length == SCRATCH
    requires 0 <= Value(op1[..]) < Value(n[..]) && 0 <= Value(op2[..]) < Value(n[..])
    requires BitLength(Mag(n[..])) <= MODULUS_BITS
    modifies dest
    ensures Canonical(dest[..]) && Value(dest[..]) == (Value(op1[..]) * Value(op2[..])) % Value(n[..])
  {
    ResidueProduct(op1[..], op2[..], n[..]);
    MulMod(dest, op1, op2, n);
  }

  // ---------------------------------------------------------------- exponentiation

  // Square and multiply from the lowest bit. A negative exponent is taken by magnitude.
  // The operand must reduce exactly, as every one of at most 127 limbs does.
  method ExpMod(dest: array<u32>, op: array<u32>, exp: array<u32>, n: array<u32>)
    requires Canonical(op[..]) && Canonical(exp[..]) && Canonical(n[..])
    requires dest != op && dest != exp && dest != n
    requires op[1] <= LIMBS && exp[1] <= LIMBS && n[1] <= LIMBS && 2 + n[1] <= dest.Length
    requires 2 <= Value(n[..]) && BitLength(Mag(n[..])) <= MODULUS_BITS
    requires RemainderExact(Mag(op[..]), Mag(n[..]), n[1])
    modifies dest
    ensures Canonical(dest[..]) && Value(dest[..]) == Exp(Value(op[..]), Mag(exp[..])) % Value(n[..])
  {
    ghost var a, e, m := Value(op[..]), Mag(exp[..]), Value(n[..]);
    var base := Scratch();
    ReduceBase(base, op, n);
    var result := Scratch();
    FromS32(result, 1);
    var bits := GetBitCount(exp);
    Euclid.PowStart(a, e, m);
    ExponentBits(exp[..]);
    for i := 0 to bits
      invariant Canonical(base[..]) && Canonical(result[..])
      invariant Euclid.PowInv(a, e, m, i, Value(base[..]), Value(result[..]))
    {
      ghost var b, r := Value(base[..]), Value(result[..]);
      PowRound(result, base, exp, n, i);
      Euclid.PowStep(a, e, m, i, b, r, Value(base[..]), Value(result[..]));
    }
    Euclid.PowFinish(a, e, m, bits, Value(base[..]), Value(result[..]));
    ResidueFits(result[..], n[..]);
    Assign(dest, result);
  }

  method ReduceBase(base: array<u32>, op: array<u32>, n: array<u32>)
    requires Canonical(op[..]) && Canonical(n[..]) && base != op && base != n && base.Length == SCRATCH
    requires op[1] <= LIMBS && n[1] <= LIMBS && 2 <= Value(n[..])
    requires RemainderExact(Mag(op[..]), Mag(n[..]), n[1])
    modifies base
    ensures Canonical(base[..]) && Value(base[..]) == Value(op[..]) % Value(n[..])
  {
    ZeroValue(n[..]);
    Modulo(base, op, n);
  }

  // An operand of at most 127 limbs always reduces exactly.
  lemma ShortOperand(v: seq<u32>, n: seq<u32>)
    requires Canonical(v) && Canonical(n) && v[1] < LIMBS && 0 < n[1] <= LIMBS
    ensures RemainderExact(Mag(v), Mag(n), n[1])
  {
    LimbBits(v, LIMBS - 1);
    ShortDividend(Mag(v), n);
  }

  lemma ResidueFits(r: seq<u32>, n: seq<u32>)
    requires Canonical(r) && Canonical(n) && 0 <= Value(r) < Value(n)
    ensures r[1] <= n[1]
  {
    ZeroValue(r);
    ZeroValue(n);
    LimbCount(n, n[1]);
    LimbCount(r, n[1]);
  }

  lemma ExponentBits(w: seq<u32>)
    requires Canonical(w) && w[1] <= LIMBS
    ensures BitLength(Mag(w)) <= 32 * LIMBS && Mag(w) < Exp(2, BitLength(Mag(w)))
  {
    LimbCount(w, 0);
    if w[1] > 0 {
      BitLengthLimbs(w);
      BitLengthRange(Mag(w));
    }
  }

  // One round: multiply if the bit is set, then square.
  method PowRound(result: array<u32>, base: array<u32>, exp: array<u32>, n: array<u32>, i: u32)
    requires Canonical(result[..]) && Canonical(base[..]) && Canonical(exp[..]) && Canonical(n[..])
    requires result != base && result != exp && result != n && base != exp && base != n
    requires result.Length == SCRATCH && base.Length == SCRATCH
    requires 0 <= Value(result[..]) < Value(n[..]) && 0 <= Value(base[..]) < Value(n[..])
    requires BitLength(Mag(n[..])) <= MODULUS_BITS
    modifies result, base
    ensures Canonical(result[..]) && Canonical(base[..])
    ensures Value(base[..]) == old(Value(base[..]) * Value(base[..])) % Value(n[..])
    ensures Value(result[..]) == if Bit(Mag(exp[..]), i) == 1
                                 then old(Value(result[..]) * Value(base[..])) % Value(n[..])
                                 else old(Value(result[..]))
  {
    var isSet := GetBit(exp, i);
    if isSet {
      var t := Scratch();
      MulResidues(t, result, base, n);
      Assign(result, t);
    }
    var sq := Scratch();
    MulResidues(sq, base, base, n);
    Assign(base, sq);
  }
}
