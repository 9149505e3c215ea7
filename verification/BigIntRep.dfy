/** The representation of big integers and the integer it stands for.
    Word 0 holds the sign in bit 0, word 1 the number of limbs, and the
    limbs follow, least significant first. */
module BigIntRep {
  import opened Word
  import opened IntMath

  const BASE: int := 0x1_0000_0000

  function Weight(i: nat): (w: nat)
    ensures w >= 1
  {
    if i == 0 then 1 else BASE * Weight(i - 1)
  }

  // The number formed by the first n limbs.
  function Digits(w: seq<u32>, n: nat): nat
    requires 2 + n <= |w|
  {
    if n == 0 then 0 else Digits(w, n - 1) + w[n + 1] * Weight(n - 1)
  }

  predicate WellFormed(w: seq<u32>) {
    |w| >= 2 && 2 + w[1] <= |w|
  }

  // No leading zero limb.
  predicate Trimmed(w: seq<u32>) {
    WellFormed(w) && (w[1] > 0 ==> w[w[1] + 1] != 0)
  }

  // Trimmed, and zero carries no sign.
  predicate Canonical(w: seq<u32>) {
    Trimmed(w) && w[0] <= 1 && (w[1] == 0 ==> w[0] == 0)
  }

  function Mag(w: seq<u32>): nat
    requires WellFormed(w)
  {
    Digits(w, w[1])
  }

  function Value(w: seq<u32>): int
    requires WellFormed(w)
  {
    if w[0] % 2 == 1 then -(Mag(w) as int) else Mag(w)
  }

  lemma MulAssociates(a: int, b: int, c: int)
    ensures a * (b * c) == (a * b) * c
  {
  }

  lemma {:induction false} WeightAdd(i: nat, j: nat)
    ensures Weight(i + j) == Weight(i) * Weight(j)
  {
    if i > 0 {
      WeightAdd(i - 1, j);
      MulAssociates(BASE, Weight(i - 1), Weight(j));
    }
  }

  lemma {:induction false} WeightMono(i: nat, j: nat)
    requires i <= j
    ensures Weight(i) <= Weight(j)
    decreases j
  {
    if i < j { WeightMono(i, j - 1); }
  }

  lemma {:induction false} DigitsFrame(v: seq<u32>, w: seq<u32>, n: nat)
    requires 2 + n <= |v| && 2 + n <= |w|
    requires forall k :: 2 <= k < 2 + n ==> v[k] == w[k]
    ensures Digits(v, n) == Digits(w, n)
  {
    if n > 0 { DigitsFrame(v, w, n - 1); }
  }

  lemma DigitGap(x: int, y: int, p: int)
    requires x < y && p >= 0
    ensures x * p + p <= y * p
  {
    assert (y - x - 1) * p >= 0 by { MulMono(0, y - x - 1, p); }
    assert (y - x - 1) * p == y * p - x * p - p;
  }

  lemma {:induction false} DigitsBound(w: seq<u32>, n: nat)
    requires 2 + n <= |w|
    ensures Digits(w, n) < Weight(n)
  {
    if n > 0 {
      DigitsBound(w, n - 1);
      MulMono(w[n + 1], BASE - 1, Weight(n - 1));
    }
  }

  lemma {:induction false} DigitsMono(w: seq<u32>, m: nat, n: nat)
    requires m <= n && 2 + n <= |w|
    ensures Digits(w, m) <= Digits(w, n)
    decreases n
  {
    if m < n { DigitsMono(w, m, n - 1); MulMono(0, w[n + 1], Weight(n - 1)); }
  }

  // Zero limbs on top do not count.
  lemma {:induction false} DigitsZeroTop(w: seq<u32>, m: nat, n: nat)
    requires m <= n && 2 + n <= |w|
    requires forall k :: 2 + m <= k < 2 + n ==> w[k] == 0
    ensures Digits(w, n) == Digits(w, m)
    decreases n
  {
    if m < n { DigitsZeroTop(w, m, n - 1); assert w[n + 1] == 0; }
  }

  // With n + 1 limbs each, the higher top limb decides.
  lemma TopDecides(v: seq<u32>, w: seq<u32>, n: nat)
    requires 2 + n < |v| && 2 + n < |w| && v[2 + n] < w[2 + n]
    ensures Digits(v, n + 1) < Digits(w, n + 1)
  {
    DigitsBound(v, n);
    DigitGap(v[2 + n], w[2 + n], Weight(n));
  }

  // A top limb is nonzero exactly when the number reaches its weight.
  lemma TopLimb(w: seq<u32>, n: nat)
    requires n >= 1 && 2 + n <= |w|
    ensures w[n + 1] != 0 <==> Weight(n - 1) <= Digits(w, n)
  {
    DigitsBound(w, n - 1);
    if w[n + 1] != 0 { MulMono(1, w[n + 1], Weight(n - 1)); }
  }

  // The number of limbs of a trimmed number is fixed by its magnitude.
  lemma LimbCount(w: seq<u32>, n: nat)
    requires Trimmed(w)
    ensures Mag(w) < Weight(n) <==> w[1] <= n
    ensures Mag(w) == 0 <==> w[1] == 0
  {
    DigitsBound(w, w[1]);
    if w[1] > 0 { TopLimb(w, w[1]); }
    if w[1] <= n { WeightMono(w[1], n); } else { WeightMono(n, w[1] - 1); }
  }

  lemma SameMagSameLength(v: seq<u32>, w: seq<u32>)
    requires Trimmed(v) && Trimmed(w) && Mag(v) == Mag(w)
    ensures v[1] == w[1]
  {
    LimbCount(v, v[1]);
    LimbCount(w, v[1]);
    LimbCount(v, w[1]);
    LimbCount(w, w[1]);
  }

  lemma ZeroValue(w: seq<u32>)
    requires Canonical(w)
    ensures Value(w) == 0 <==> w[1] == 0
    ensures Value(w) < 0 <==> w[0] == 1
  {
    LimbCount(w, 0);
  }

  // Two canonical forms of one integer have the same header and limbs.
  lemma CanonicalUnique(v: seq<u32>, w: seq<u32>)
    requires Canonical(v) && Canonical(w) && Value(v) == Value(w)
    ensures v[0] == w[0] && v[1] == w[1]
    ensures v[2..2 + v[1] as int] == w[2..2 + v[1] as int]
  {
    ZeroValue(v);
    ZeroValue(w);
    SameMagSameLength(v, w);
    DigitsUnique(v, w, v[1]);
  }

  lemma {:induction false} DigitsUnique(v: seq<u32>, w: seq<u32>, n: nat)
    requires 2 + n <= |v| && 2 + n <= |w| && Digits(v, n) == Digits(w, n)
    ensures forall k :: 2 <= k < 2 + n ==> v[k] == w[k]
  {
    if n > 0 {
      if v[n + 1] < w[n + 1] { TopDecides(v, w, n - 1); }
      if w[n + 1] < v[n + 1] { TopDecides(w, v, n - 1); }
      DigitsUnique(v, w, n - 1);
    }
  }
}
