/** The arithmetic of restoring division with a bounded shift.
    Position i subtracts the divisor shifted by i, except that from position
    `lim` upwards the shift does not fit its buffer and the unshifted divisor
    is subtracted instead. The loop starts at position `top`. */
module RestoringDivision {
  import opened IntMath

  // No shift is cut short: the division identity and the shrinking bound.
  ghost predicate Exact(n: int, d: int, i: nat, r: int, q: int) {
    r + q * d == n && r < d * Exp(2, i)
  }

  // Shifts from lim to top are cut short: the identity overshoots, each of those
  // positions takes off exactly one divisor, and the rest cannot recover more than
  // the full shift range.
  ghost predicate Cut(n: int, d: int, top: nat, lim: nat, i: nat, r: int, q: int) {
    && (if i == top + 1 then q == 0 else r + q * d > n)
    && (i >= lim ==> r == n - (top + 1 - i) * d)
    && (i <= lim ==> (r < d * Exp(2, i) <==> n - (top + 1 - lim) * d < d * Exp(2, lim)))
  }

  // What the loop has established when positions below i remain.
  ghost predicate Inv(n: int, d: int, top: nat, lim: nat, i: nat, r: int, q: int) {
    && i <= top + 1 && r >= 0 && q >= 0
    && Divides(Exp(2, i), q)
    && Divides(d, n - r)
    && (if top < lim then Exact(n, d, i, r, q) else Cut(n, d, top, lim, i, r, q))
  }

  lemma Start(n: int, d: int, top: nat, lim: nat)
    requires 0 < d <= n < d * Exp(2, top + 1) && lim >= 1
    ensures Inv(n, d, top, lim, top + 1, n, 0)
  {
    DividesIntro(Exp(2, top + 1), 0);
    DividesIntro(d, 0);
    assert 0 * d == 0;
  }

  // The amount subtracted at position i.
  ghost function Shift(d: int, lim: nat, i: nat): int {
    if i < lim then d * Exp(2, i) else d
  }

  ghost predicate Moves(s: int, e: int, r: int, q: int, r': int, q': int) {
    if r >= s then r' == r - s && q' == q + e else r' == r && q' == q
  }

  lemma PositionAlgebra(d: int, e: int, q: int)
    ensures d * (2 * e) == d * e + d * e
    ensures (q + e) * d == q * d + d * e
  {
  }

  lemma StepExact(n: int, d: int, i: nat, r: int, q: int, r': int, q': int)
    requires Exact(n, d, i + 1, r, q) && Moves(d * Exp(2, i), Exp(2, i), r, q, r', q')
    ensures Exact(n, d, i, r', q')
  {
    var e := Exp(2, i);
    PositionAlgebra(d, e, q);
    assert Exp(2, i + 1) == 2 * e;
  }

  // A position whose shift is cut short.
  lemma StepCut(n: int, d: int, top: nat, lim: nat, i: nat, r: int, q: int, r': int, q': int)
    requires 0 < d && 1 <= lim <= i <= top && n >= top * d && q >= 0
    requires Cut(n, d, top, lim, i + 1, r, q) && Moves(d, Exp(2, i), r, q, r', q')
    ensures Cut(n, d, top, lim, i, r', q')
  {
    var e := Exp(2, i);
    CutSubtracts(n, d, top, i, r);
    assert (top + 1 - i) * d == (top - i) * d + d;
    ExpStrict(2, 0, i);
    MulMono(2, e, d);
    assert (q + e) * d == q * d + e * d;
    MulMono(0, q, d);
  }

  // A position below the cut.
  lemma StepBelow(n: int, d: int, top: nat, lim: nat, i: nat, r: int, q: int, r': int, q': int)
    requires 0 < d && i < lim <= top
    requires Cut(n, d, top, lim, i + 1, r, q) && Moves(d * Exp(2, i), Exp(2, i), r, q, r', q')
    ensures Cut(n, d, top, lim, i, r', q')
  {
    var e := Exp(2, i);
    PositionAlgebra(d, e, q);
    assert Exp(2, i + 1) == 2 * e;
    ExpPositive(2, i);
    MulMono(1, e, d);
  }

  // One position of the loop keeps the invariant.
  lemma Step(n: int, d: int, top: nat, lim: nat, i: nat, r: int, q: int, r': int, q': int)
    requires 0 < d && 1 <= lim && i <= top && Inv(n, d, top, lim, i + 1, r, q)
    requires top >= lim ==> n >= top * d
    requires Moves(Shift(d, lim, i), Exp(2, i), r, q, r', q')
    ensures Inv(n, d, top, lim, i, r', q')
  {
    ExpPositive(2, i);
    StepDivides(n, d, i, r, q, Shift(d, lim, i), lim);
    if top < lim {
      StepExact(n, d, i, r, q, r', q');
    } else if i >= lim {
      StepCut(n, d, top, lim, i, r, q, r', q');
    } else {
      StepBelow(n, d, top, lim, i, r, q, r', q');
    }
  }

  lemma StepDivides(n: int, d: int, i: nat, r: int, q: int, s: int, lim: nat)
    requires Divides(Exp(2, i + 1), q) && Divides(d, n - r) && s == Shift(d, lim, i)
    ensures Divides(Exp(2, i), q) && Divides(Exp(2, i), q + Exp(2, i))
    ensures Divides(d, n - (r - s))
  {
    DividesIntro(Exp(2, i), 2);
    DividesTrans(Exp(2, i), Exp(2, i + 1), q);
    DividesIntro(Exp(2, i), 1);
    DividesSum(Exp(2, i), q, Exp(2, i));
    DividesIntro(d, if i < lim then Exp(2, i) else 1);
    DividesSum(d, n - r, s);
    assert n - r + s == n - (r - s);
  }

  // The unshifted divisor can always be subtracted.
  lemma CutSubtracts(n: int, d: int, top: nat, i: nat, r: int)
    requires 0 < d && 1 <= i <= top && n >= top * d && r == n - (top - i) * d
    ensures r >= d
  {
    assert n - (top - i) * d >= top * d - (top - i) * d == i * d by {
      assert top * d - (top - i) * d == i * d;
    }
    MulMono(1, i, d);
  }

  // The end of the loop: the quotient is exact when no shift was cut short, and
  // overshoots otherwise; the remainder is a residue, in range under a bound on n.
  lemma Finish(n: int, d: int, top: nat, lim: nat, r: int, q: int)
    requires 0 < d && 1 <= lim && Inv(n, d, top, lim, 0, r, q)
    ensures n == q * d + r <==> top < lim
    ensures r < d <==> (top < lim || n < d * (Exp(2, lim) + (top + 1 - lim)))
    ensures Divides(d, n - r)
  {
    assert d * Exp(2, 0) == d;
    assert d * (Exp(2, lim) + (top + 1 - lim)) == d * Exp(2, lim) + (top + 1 - lim) * d;
  }
}
