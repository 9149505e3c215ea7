/** Division of big integers: restoring division in 130-word scratch buffers. */
module BigIntDivide {
  import opened Word
  import opened IntMath
  import opened BigIntRep
  import opened BigInt
  import opened BigIntDiv
  import Restoring = RestoringDivision

  // The limbs of a scratch buffer.
  const LIMBS: nat := 128

  // The highest bit position of the quotient loop.
  function Top(n: nat, d: nat): int { BitLength(n) - BitLength(d) }

  // The first shift amount that an lb-limb divisor has no room for.
  function Limit(lb: nat): nat
    requires lb <= LIMBS
  {
    if lb == LIMBS then 1 else 32 * (LIMBS - lb)
  }

  // No shift of the lb-limb divisor d is cut short while dividing n.
  predicate QuotientExact(n: nat, d: nat, lb: nat)
    requires lb <= LIMBS
  {
    n < d || Top(n, d) < Limit(lb)
  }

  // The shifts that are cut short leave a remainder in range all the same.
  predicate RemainderExact(n: nat, d: nat, lb: nat)
    requires lb <= LIMBS
  {
    QuotientExact(n, d, lb) || n < d * (Exp(2, Limit(lb)) + (Top(n, d) + 1 - Limit(lb)))
  }

  // A dividend of at most 127 limbs is always divided exactly.
  lemma ShortDividend(m: nat, w: seq<u32>)
    requires Trimmed(w) && 0 < w[1] <= LIMBS && BitLength(m) <= 32 * (LIMBS - 1)
    ensures QuotientExact(m, Mag(w), w[1])
  {
    BitLengthLimbs(w);
    if Mag(w) <= m { BitLengthMono(Mag(w), m); }
  }

  // Dividing a power of two of 128 full limbs by 1 leaves neither result exact.
  lemma LongDividend(k: nat, n: nat)
    requires k == 32 * LIMBS - 1 && n == Exp(2, k)
    ensures BitLength(n) == 32 * LIMBS && !QuotientExact(n, 1, 1) && !RemainderExact(n, 1, 1)
  {
    var lim := Limit(1);
    ExpStrict(2, k, k + 1);
    BitLengthUnique(n, k + 1);
    assert BitLength(1) == 1 + BitLength(0);
    ExpMono(2, lim + 1, k);
    assert Exp(2, lim + 1) == 2 * Exp(2, lim);
    ExpAbove(lim);
    assert n >= 1 * (Exp(2, lim) + 32);
  }

  lemma TopBounds(n: nat, d: nat)
    requires 0 < d <= n
    ensures Top(n, d) >= 0
    ensures n < d * Exp(2, Top(n, d) + 1)
    ensures Top(n, d) >= 1 ==> d * Exp(2, Top(n, d) - 1) <= n
  {
    BitLengthMono(d, n);
    BitLengthRange(n);
    BitLengthRange(d);
    var bd, t: nat := BitLength(d), Top(n, d);
    ExpAdd(2, bd - 1, t + 1);
    ExpPositive(2, t + 1);
    MulMono(Exp(2, bd - 1), d, Exp(2, t + 1));
    if t >= 1 {
      ExpAdd(2, bd, t - 1);
      ExpPositive(2, t - 1);
      MulMono(d, Exp(2, bd), Exp(2, t - 1));
    }
  }

  // However often the divisor is subtracted unshifted, the dividend lasts.
  predicate Enough(n: int, d: int, top: int, lb: nat)
    requires lb <= LIMBS
  {
    top >= Limit(lb) ==> n >= top * d
  }

  lemma DivideStart(n: nat, d: nat, lb: nat)
    requires 0 < d <= n && lb <= LIMBS
    ensures Top(n, d) >= 0 && Limit(lb) >= 1
    ensures Restoring.Inv(n, d, Top(n, d), Limit(lb), Top(n, d) + 1, n, 0)
    ensures Enough(n, d, Top(n, d), lb)
  {
    TopBounds(n, d);
    var t: nat := Top(n, d);
    Restoring.Start(n, d, t, Limit(lb));
    if t >= 1 {
      ExpAbove(t - 1);
      MulMono(t, Exp(2, t - 1), d);
    }
  }

  lemma DivideEnd(n: nat, d: nat, lb: nat, r: int, q: int)
    requires 0 < d <= n && lb <= LIMBS && Top(n, d) >= 0 && Restoring.Inv(n, d, Top(n, d), Limit(lb), 0, r, q)
    ensures n == q * d + r <==> QuotientExact(n, d, lb)
    ensures r < d <==> RemainderExact(n, d, lb)
    ensures Divides(d, n - r)
  {
    Restoring.Finish(n, d, Top(n, d), Limit(lb), r, q);
  }

  // What ShlWords makes of the divisor at position i.
  lemma ShiftedDivisor(d: int, lb: nat, i: nat)
    requires lb <= LIMBS
    ensures Restoring.Shift(d, Limit(lb), i) == if ShlFits(lb, i, SCRATCH) then d * Exp(2, i) else d
  {
    if i == 0 { assert d * Exp(2, 0) == d; }
  }

  lemma EvenQuotientBit(q: nat, i: nat)
    requires Divides(Exp(2, i + 1), q)
    ensures Bit(q, i) == 0
  {
    ExpPositive(2, i);
    var k :| Times(Exp(2, i + 1), k) == q;
    assert Exp(2, i + 1) == 2 * Exp(2, i);
    assert q == (2 * k) * Exp(2, i) + 0 by { assert (2 * Exp(2, i)) * k == (2 * k) * Exp(2, i); }
    DivIdentity(q, Exp(2, i), 2 * k, 0);
  }

  ghost predicate ZeroAbove(w: seq<u32>)
    requires WellFormed(w)
  {
    forall k :: 2 + w[1] as int <= k < |w| ==> w[k] == 0
  }

  // Sets bit i of a quotient whose bits up to i are clear.
  method SetQuotientBit(quot: array<u32>, i: u32)
    requires WellFormed(quot[..]) && ZeroAbove(quot[..]) && quot[0] == 0
    requires 2 + i / 32 < quot.Length && Divides(Exp(2, i + 1), Mag(quot[..]))
    modifies quot
    ensures WellFormed(quot[..]) && ZeroAbove(quot[..]) && quot[0] == 0
    ensures Mag(quot[..]) == old(Mag(quot[..])) + Exp(2, i)
  {
    ghost var before := quot[..];
    ghost var n: nat := Max(quot[1], i / 32 + 1);
    DigitsZeroTop(before, before[1], n);
    EvenQuotientBit(Mag(before), i);
    SetBit(quot, i);
  }

  // One position: subtract the shifted divisor if it fits and record the bit.
  method DivPosition(quot: array<u32>, rem: array<u32>, dvs: array<u32>, i: u32, ghost n: nat, ghost top: nat)
    requires quot != rem && quot != dvs && rem != dvs && dvs.Length == SCRATCH
    requires Trimmed(dvs[..]) && dvs[1] > 0 && Trimmed(rem[..]) && rem[1] <= LIMBS && rem[0] == 0
    requires rem.Length < BASE && 2 + i / 32 < quot.Length
    requires WellFormed(quot[..]) && ZeroAbove(quot[..]) && quot[0] == 0
    requires i <= top && Enough(n, Mag(dvs[..]), top, dvs[1])
    requires Restoring.Inv(n, Mag(dvs[..]), top, Limit(dvs[1]), i + 1, Mag(rem[..]), Mag(quot[..]))
    modifies quot, rem
    ensures Trimmed(rem[..]) && rem[1] <= old(rem[1]) && rem[0] == 0
    ensures WellFormed(quot[..]) && ZeroAbove(quot[..]) && quot[0] == 0
    ensures Restoring.Inv(n, Mag(dvs[..]), top, Limit(dvs[1]), i, Mag(rem[..]), Mag(quot[..]))
  {
    ghost var d, lim := Mag(dvs[..]), Limit(dvs[1]);
    ghost var r, q := Mag(rem[..]), Mag(quot[..]);
    LimbCount(dvs[..], 0);
    ShiftedDivisor(d, dvs[1], i);
    var shifted := Scratch();
    Assign(shifted, dvs);
    ShlWords(shifted, i);
    var c := CmpMag(rem, shifted);
    if c >= 0 {
      var nrem := Scratch();
      SubMag(nrem, rem, shifted);
      Assign(rem, nrem);
      SetQuotientBit(quot, i);
    }
    Restoring.Step(n, d, top, lim, i, r, q, Mag(rem[..]), Mag(quot[..]));
  }

  // Truncated division of v by the nonzero w: the exact conditions under which the
  // quotient and the remainder are right; the remainder is always a residue.
  ghost predicate Divided(v: seq<u32>, w: seq<u32>, q: seq<u32>, r: seq<u32>)
    requires Canonical(v) && Canonical(w) && w[1] <= LIMBS
  {
    && Canonical(q) && Canonical(r) && r[1] <= v[1]
    && (r[1] != 0 ==> r[0] == v[0])
    && (Value(v) == Value(q) * Value(w) + Value(r) <==> QuotientExact(Mag(v), Mag(w), w[1]))
    && (Mag(r) < Mag(w) <==> RemainderExact(Mag(v), Mag(w), w[1]))
    && Divides(Mag(w), Mag(v) - Mag(r))
  }

  // The signed identity is the identity on magnitudes.
  lemma SignedIdentity(v: seq<u32>, w: seq<u32>, q: seq<u32>, r: seq<u32>)
    requires Canonical(v) && Canonical(w) && Canonical(q) && Canonical(r)
    requires q[1] != 0 ==> q[0] == (v[0] + w[0]) % 2
    requires r[1] != 0 ==> r[0] == v[0]
    ensures Value(v) == Value(q) * Value(w) + Value(r) <==> Mag(v) == Mag(q) * Mag(w) + Mag(r)
  {
    LimbCount(q, 0);
    LimbCount(r, 0);
    SignAlgebra(Mag(q), Mag(w), v[0] != w[0], w[0] == 1);
    assert Value(q) == if v[0] != w[0] then -(Mag(q) as int) else Mag(q);
  }

  // From the highest position of the quotient down.
  method DivPositions(quot: array<u32>, rem: array<u32>, dvs: array<u32>, bits: u32, ghost n: nat)
    requires quot != rem && quot != dvs && rem != dvs && dvs.Length == SCRATCH
    requires Trimmed(dvs[..]) && dvs[1] > 0 && Trimmed(rem[..]) && rem[1] <= LIMBS && rem[0] == 0
    requires rem.Length < BASE && bits > 0 && 2 + (bits - 1) / 32 < quot.Length
    requires WellFormed(quot[..]) && ZeroAbove(quot[..]) && quot[0] == 0
    requires Enough(n, Mag(dvs[..]), bits - 1, dvs[1])
    requires Restoring.Inv(n, Mag(dvs[..]), bits - 1, Limit(dvs[1]), bits, Mag(rem[..]), Mag(quot[..]))
    modifies quot, rem
    ensures Trimmed(rem[..]) && rem[1] <= old(rem[1]) && WellFormed(quot[..])
    ensures Restoring.Inv(n, Mag(dvs[..]), bits - 1, Limit(dvs[1]), 0, Mag(rem[..]), Mag(quot[..]))
  {
    for i := bits downto 0
      invariant Trimmed(rem[..]) && rem[1] <= old(rem[1]) && rem[0] == 0
      invariant WellFormed(quot[..]) && ZeroAbove(quot[..]) && quot[0] == 0
      invariant Restoring.Inv(n, Mag(dvs[..]), bits - 1, Limit(dvs[1]), i, Mag(rem[..]), Mag(quot[..]))
    {
      DivPosition(quot, rem, dvs, i, n, bits - 1);
    }
  }

  // The quotient loop, on magnitudes.
  method DivMag(quot: array<u32>, rem: array<u32>, dvs: array<u32>)
    requires quot != rem && quot != dvs && rem != dvs && dvs.Length == SCRATCH
    requires Trimmed(dvs[..]) && dvs[1] > 0 && Trimmed(rem[..]) && rem[1] <= LIMBS && rem[0] == 0
    requires Mag(rem[..]) >= Mag(dvs[..]) && rem.Length < BASE
    requires rem[1] as int - dvs[1] + 3 <= quot.Length && forall k :: 0 <= k < quot.Length ==> quot[k] == 0
    modifies quot, rem
    ensures Trimmed(rem[..]) && rem[1] <= old(rem[1]) && WellFormed(quot[..])
    ensures old(Mag(rem[..])) == Mag(quot[..]) * Mag(dvs[..]) + Mag(rem[..]) <==>
            QuotientExact(old(Mag(rem[..])), Mag(dvs[..]), dvs[1])
    ensures Mag(rem[..]) < Mag(dvs[..]) <==> RemainderExact(old(Mag(rem[..])), Mag(dvs[..]), dvs[1])
    ensures Divides(Mag(dvs[..]), old(Mag(rem[..])) - Mag(rem[..]))
  {
    ghost var n, d, lb := Mag(rem[..]), Mag(dvs[..]), dvs[1];
    LimbCount(dvs[..], 0);
    LimbCount(rem[..], 0);
    DivideStart(n, d, lb);
    PositionRoom(rem[..], dvs[..]);
    var b1 := GetBitCount(rem);
    var b2 := GetBitCount(dvs);
    var bits := b1 - b2 + 1;
    DivPositions(quot, rem, dvs, bits, n);
    DivideEnd(n, d, lb, Mag(rem[..]), Mag(quot[..]));
  }

  // A dividend copied into too short a buffer, which then counts as zero.
  predicate CutOff(v: seq<u32>, r: seq<u32>)
    requires |v| >= 2
  {
    |r| >= 2 && r[1] == v[1] && !WellFormed(r)
  }

  // Truncated division. The quotient has the sign of the product, the remainder
  // the sign of the dividend. A dividend that does not fit the remainder is cut off, and
  // one of more than 128 limbs that does would overrun the scratch space.
  method Div(quot: array<u32>, rem: array<u32>, op1: array<u32>, op2: array<u32>)
    requires quot != rem && quot != op1 && quot != op2 && rem != op1 && rem != op2
    requires Canonical(op1[..]) && Canonical(op2[..]) && op2[1] <= LIMBS
    requires 2 <= rem.Length < BASE && 2 <= quot.Length
    requires op2[1] != 0 && 2 + op1[1] <= rem.Length ==> op1[1] <= LIMBS && op1[1] as int - op2[1] + 3 <= quot.Length
    modifies quot, rem
    ensures op2[1] != 0 && 2 + op1[1] <= rem.Length ==> Divided(op1[..], op2[..], quot[..], rem[..])
    ensures op2[1] != 0 && 2 + op1[1] > rem.Length ==>
              Canonical(quot[..]) && Value(quot[..]) == 0 && CutOff(op1[..], rem[..])
    ensures op2[1] == 0 ==> Canonical(quot[..]) && Canonical(rem[..]) && Value(quot[..]) == 0 == Value(rem[..])
  {
    Init(quot);
    if op2[1] == 0 {
      Init(rem);
      return;
    }
    Assign(rem, op1);
    rem[0] := 0;
    if 2 + rem[1] > rem.Length {
      rem[0] := op1[0];
      return;
    }
    DigitsFrame(op1[..], rem[..], op1[1]);
    DivFits(quot, rem, op1, op2);
  }

  // The division of a dividend that fits, already copied without its sign.
  method DivFits(quot: array<u32>, rem: array<u32>, op1: array<u32>, op2: array<u32>)
    requires quot != rem && quot != op1 && quot != op2 && rem != op1 && rem != op2
    requires Canonical(op1[..]) && Canonical(op2[..]) && op1[1] <= LIMBS && 0 < op2[1] <= LIMBS
    requires 2 <= rem.Length < BASE && 2 <= quot.Length && op1[1] as int - op2[1] + 3 <= quot.Length
    requires forall k :: 0 <= k < quot.Length ==> quot[k] == 0
    requires Canonical(quot[..]) && Value(quot[..]) == 0
    requires Trimmed(rem[..]) && rem[0] == 0 && rem[1] == op1[1] && Mag(rem[..]) == Mag(op1[..])
    modifies quot, rem
    ensures Divided(op1[..], op2[..], quot[..], rem[..])
  {
    var dvs := Scratch();
    AssignAbs(dvs, op2);
    var c := CmpMag(rem, dvs);
    if c < 0 {
      ZeroValue(op1[..]);
      SetSign(rem, op1[0]);
      SmallDividend(op1[..], op2[..], quot[..], rem[..]);
    } else {
      DivLarge(quot, rem, dvs, op1, op2);
    }
  }

  method DivLarge(quot: array<u32>, rem: array<u32>, dvs: array<u32>, op1: array<u32>, op2: array<u32>)
    requires quot != rem && quot != op1 && quot != op2 && rem != op1 && rem != op2 && quot != dvs && rem != dvs
    requires Canonical(op1[..]) && Canonical(op2[..]) && op1[1] <= LIMBS && 0 < op2[1] <= LIMBS && dvs.Length == SCRATCH
    requires rem.Length < BASE && op1[1] as int - op2[1] + 3 <= quot.Length
    requires forall k :: 0 <= k < quot.Length ==> quot[k] == 0
    requires Trimmed(rem[..]) && rem[0] == 0 && rem[1] == op1[1] && Mag(rem[..]) == Mag(op1[..]) >= Mag(op2[..])
    requires Trimmed(dvs[..]) && dvs[1] == op2[1] && Mag(dvs[..]) == Mag(op2[..])
    modifies quot, rem
    ensures Divided(op1[..], op2[..], quot[..], rem[..])
  {
    DivMag(quot, rem, dvs);
    FinishSign(quot, (op1[0] + op2[0]) % 2);
    FinishSign(rem, op1[0] % 2);
    SignedResult(op1[..], op2[..], quot[..], rem[..]);
  }

  lemma SmallDividend(v: seq<u32>, w: seq<u32>, q: seq<u32>, r: seq<u32>)
    requires Canonical(v) && Canonical(w) && w[1] <= LIMBS && Canonical(q) && Canonical(r) && r[1] == v[1]
    requires Value(q) == 0 && Mag(r) == Mag(v) < Mag(w) && r[0] == v[0]
    ensures Divided(v, w, q, r)
  {
    ZeroValue(q);
    DividesIntro(Mag(w), 0);
    SignedResult(v, w, q, r);
  }

  // Signs put on the division of the magnitudes.
  lemma SignedResult(v: seq<u32>, w: seq<u32>, q: seq<u32>, r: seq<u32>)
    requires Canonical(v) && Canonical(w) && w[1] <= LIMBS && Canonical(q) && Canonical(r) && r[1] <= v[1]
    requires q[1] != 0 ==> q[0] == (v[0] + w[0]) % 2
    requires r[1] != 0 ==> r[0] == v[0]
    requires Mag(v) == Mag(q) * Mag(w) + Mag(r) <==> QuotientExact(Mag(v), Mag(w), w[1])
    requires Mag(r) < Mag(w) <==> RemainderExact(Mag(v), Mag(w), w[1])
    requires Divides(Mag(w), Mag(v) - Mag(r))
    ensures Divided(v, w, q, r)
  {
    SignedIdentity(v, w, q, r);
  }

  method FinishSign(op: array<u32>, s: u32)
    requires WellFormed(op[..]) && s <= 1
    modifies op
    ensures Canonical(op[..]) && Mag(op[..]) == old(Mag(op[..])) && op[1] <= old(op[1])
    ensures Value(op[..]) == if s == 1 then -(old(Mag(op[..])) as int) else old(Mag(op[..]))
    ensures op[1] != 0 ==> op[0] == s
  {
    ghost var before := op[..];
    op[0] := s;
    DigitsFrame(before, op[..], op[1]);
    Trim(op);
    LimbCount(op[..], 0);
  }

  lemma PositionRoom(v: seq<u32>, w: seq<u32>)
    requires Trimmed(v) && Trimmed(w) && 0 < w[1] && v[1] > 0
    ensures Top(Mag(v), Mag(w)) < 32 * (v[1] as int - w[1] + 1)
  {
    BitLengthLimbs(v);
    BitLengthLimbs(w);
  }
}
