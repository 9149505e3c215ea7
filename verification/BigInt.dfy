/** Comparison, addition, subtraction and multiplication on limb arrays. */
module BigInt {
  import opened Word
  import opened IntMath
  import opened BigIntRep

  // Capacity in words of every scratch buffer.
  const SCRATCH: nat := 130

  function Max(x: int, y: int): int { if x < y then y else x }

  method Init(op: array<u32>)
    modifies op
    ensures forall k :: 0 <= k < op.Length ==> op[k] == 0
    ensures op.Length >= 2 ==> Canonical(op[..]) && Value(op[..]) == 0
  {
    forall k | 0 <= k < op.Length { op[k] := 0; }
  }

  // A zeroed scratch buffer.
  method Scratch() returns (op: array<u32>)
    ensures fresh(op) && op.Length == SCRATCH && Canonical(op[..]) && Value(op[..]) == 0
  {
    op := new u32[SCRATCH](_ => 0);
  }

  method Trim(op: array<u32>)
    requires WellFormed(op[..])
    modifies op
    ensures Trimmed(op[..]) && Mag(op[..]) == old(Mag(op[..]))
    ensures op[1] <= old(op[1])
    ensures op[0] == if op[1] == 0 then 0 else old(op[0])
    ensures forall k :: 2 <= k < op.Length ==> op[k] == old(op[k])
  {
    var n := op[1];
    while n > 0 && op[1 + n] == 0
      invariant 0 <= n <= op[1]
      invariant Digits(op[..], n) == Digits(op[..], op[1])
    {
      n := n - 1;
    }
    ghost var before := op[..];
    op[1] := n;
    if n == 0 {
      op[0] := 0;
    }
    DigitsFrame(before, op[..], n);
  }

  method FromS32(op: array<u32>, v: i32)
    requires op.Length >= 3
    modifies op
    ensures Canonical(op[..]) && Value(op[..]) == v
    ensures op[1] == if v == 0 then 0 else 1
  {
    Init(op);
    if v == 0 {
      return;
    }
    if v < 0 {
      op[0] := 1;
      op[1] := 1;
      op[2] := -(v as int);
    } else {
      op[1] := 1;
      op[2] := v;
    }
    assert Digits(op[..], 1) == Digits(op[..], 0) + op[2] * 1;
  }

  // Copies as many words as fit and clears the rest.
  method Assign(dest: array<u32>, src: array<u32>)
    requires dest != src
    modifies dest
    ensures forall k :: 0 <= k < dest.Length ==> dest[k] == if k < src.Length then src[k] else 0
    ensures WellFormed(src[..]) && 2 + src[1] <= dest.Length ==>
              && WellFormed(dest[..]) && dest[1] == src[1]
              && Mag(dest[..]) == Mag(src[..]) && Value(dest[..]) == Value(src[..])
              && (Trimmed(src[..]) ==> Trimmed(dest[..]))
              && (Canonical(src[..]) ==> Canonical(dest[..]))
  {
    forall k | 0 <= k < dest.Length {
      dest[k] := if k < src.Length then src[k] else 0;
    }
    if WellFormed(src[..]) && 2 + src[1] <= dest.Length {
      DigitsFrame(src[..], dest[..], src[1]);
    }
  }

  method CmpMag(a: array<u32>, b: array<u32>) returns (r: int)
    requires Trimmed(a[..]) && Trimmed(b[..])
    ensures r == if Mag(a[..]) < Mag(b[..]) then -1 else if Mag(a[..]) == Mag(b[..]) then 0 else 1
  {
    var la, lb := a[1], b[1];
    if la > lb {
      LimbCount(a[..], lb);
      LimbCount(b[..], lb);
      return 1;
    }
    if la < lb {
      LimbCount(a[..], la);
      LimbCount(b[..], la);
      return -1;
    }
    for i := la downto 0
      invariant Digits(a[..], la) - Digits(a[..], i) == Digits(b[..], la) - Digits(b[..], i)
    {
      var x, y := a[2 + i], b[2 + i];
      if x > y {
        TopDecides(b[..], a[..], i);
        return 1;
      }
      if x < y {
        TopDecides(a[..], b[..], i);
        return -1;
      }
    }
    return 0;
  }

  method Cmp(a: array<u32>, b: array<u32>) returns (r: int)
    requires Canonical(a[..]) && Canonical(b[..])
    ensures r == if Value(a[..]) < Value(b[..]) then -1 else if Value(a[..]) == Value(b[..]) then 0 else 1
  {
    ZeroValue(a[..]);
    ZeroValue(b[..]);
    var sa, sb := a[0] % 2, b[0] % 2;
    if sa != 0 && sb == 0 {
      return -1;
    }
    if sa == 0 && sb != 0 {
      return 1;
    }
    var mag := CmpMag(a, b);
    r := if sa != 0 then -mag else mag;
  }

  // One column of an addition or subtraction: the digit d and carry c' absorb x, y and c.
  lemma ColumnAlgebra(x: int, y: int, c: int, d: int, c': int, w: int, w': int)
    requires x + y + c == d + BASE * c' && w' == BASE * w
    ensures x * w + y * w + c * w == d * w + c' * w'
  {
    assert (x + y + c) * w == (d + BASE * c') * w;
    assert (BASE * c') * w == c' * (BASE * w);
  }

  ghost function Low(w: seq<u32>, i: nat): nat
    requires WellFormed(w)
  {
    Digits(w, if i < w[1] then i else w[1])
  }

  ghost function Limb(w: seq<u32>, i: nat): u32
    requires WellFormed(w)
  {
    if i < w[1] then w[2 + i] else 0
  }

  lemma LowStep(w: seq<u32>, i: nat)
    requires WellFormed(w)
    ensures Low(w, i + 1) == Low(w, i) + Limb(w, i) * Weight(i)
  {
  }

  ghost predicate Sums(d: seq<u32>, i: nat, carry: int, a: seq<u32>, b: seq<u32>)
    requires WellFormed(a) && WellFormed(b) && 2 + i <= |d|
  {
    Digits(d, i) + carry * Weight(i) == Low(a, i) + Low(b, i)
  }

  lemma SumStep(d: seq<u32>, i: nat, carry: int, a: seq<u32>, b: seq<u32>, s: int, d': seq<u32>)
    requires WellFormed(a) && WellFormed(b) && 2 + i < |d| && Sums(d, i, carry, a, b)
    requires s == Limb(a, i) + Limb(b, i) + carry && 0 <= carry && d' == d[2 + i := s % BASE]
    ensures Sums(d', i + 1, s / BASE, a, b)
  {
    LowStep(a, i);
    LowStep(b, i);
    DigitsFrame(d, d', i);
    ColumnAlgebra(Limb(a, i), Limb(b, i), carry, s % BASE, s / BASE, Weight(i), Weight(i + 1));
  }

  lemma SumFinish(d: seq<u32>, n: nat, carry: u32, a: seq<u32>, b: seq<u32>, d': seq<u32>)
    requires Trimmed(a) && Trimmed(b) && n == Max(a[1], b[1]) && n + 2 < |d| == |d'| && Sums(d, n, carry, a, b)
    requires carry <= 1 && d'[1] == n + carry && d'[2 + n] == carry
    requires forall k :: 2 <= k < 2 + n ==> d'[k] == d[k]
    ensures Trimmed(d') && Mag(d') == Mag(a) + Mag(b)
  {
    DigitsFrame(d, d', n);
    assert Digits(d', n + 1) == Digits(d', n) + carry * Weight(n);
    if carry == 0 && n > 0 {
      TopLimb(if a[1] == n then a else b, n);
      TopLimb(d', n);
    }
  }

  // False, and nothing written, when dest has no room for a carry limb.
  method AddMag(dest: array<u32>, a: array<u32>, b: array<u32>) returns (ok: bool)
    requires Trimmed(a[..]) && Trimmed(b[..]) && dest != a && dest != b && 2 <= dest.Length < BASE
    modifies dest
    ensures ok <==> Max(a[1], b[1]) + 1 <= dest.Length - 2
    ensures !ok ==> dest[..] == old(dest[..])
    ensures ok ==> Trimmed(dest[..]) && dest[0] == 0 && Mag(dest[..]) == Mag(a[..]) + Mag(b[..])
  {
    var la, lb := a[1], b[1];
    var n := Max(la, lb);
    if n + 1 > dest.Length - 2 {
      return false;
    }
    var carry: u64 := 0;
    for i := 0 to n
      invariant carry <= 1
      invariant Sums(dest[..], i, carry, a[..], b[..])
    {
      var x := if i < la then a[2 + i] else 0;
      var y := if i < lb then b[2 + i] else 0;
      var s: u64 := x + y + carry;
      ghost var before, carried := dest[..], carry;
      dest[2 + i] := s % BASE;
      carry := s / BASE;
      SumStep(before, i, carried, a[..], b[..], s, dest[..]);
    }
    ghost var before := dest[..];
    dest[2 + n] := carry;
    dest[1] := n + if carry != 0 then 1 else 0;
    dest[0] := 0;
    SumFinish(before, n, carry, a[..], b[..], dest[..]);
    ok := true;
  }

  ghost predicate Differs(d: seq<u32>, i: nat, borrow: int, a: seq<u32>, b: seq<u32>)
    requires WellFormed(a) && WellFormed(b) && 2 + i <= |d|
  {
    Digits(d, i) + Low(b, i) == Low(a, i) + borrow * Weight(i)
  }

  lemma DiffStep(d: seq<u32>, i: nat, borrow: int, a: seq<u32>, b: seq<u32>, x: u32, borrow': int, d': seq<u32>)
    requires WellFormed(a) && WellFormed(b) && 2 + i < |d| && Differs(d, i, borrow, a, b)
    requires x == Limb(a, i) - Limb(b, i) - borrow + BASE * borrow' && d' == d[2 + i := x]
    ensures Differs(d', i + 1, borrow', a, b)
  {
    LowStep(a, i);
    LowStep(b, i);
    DigitsFrame(d, d', i);
    ColumnAlgebra(Limb(b, i), borrow, x, Limb(a, i), borrow', Weight(i), Weight(i + 1));
  }

  method SubMag(dest: array<u32>, a: array<u32>, b: array<u32>)
    requires Trimmed(a[..]) && Trimmed(b[..]) && dest != a && dest != b
    requires Mag(a[..]) >= Mag(b[..]) && 2 + a[1] <= dest.Length
    modifies dest
    ensures Trimmed(dest[..]) && dest[0] == 0 && dest[1] <= a[1]
    ensures Mag(dest[..]) == Mag(a[..]) - Mag(b[..])
  {
    var la, lb := a[1], b[1];
    LimbCount(a[..], la);
    LimbCount(b[..], la);
    var borrow := 0;
    for i := 0 to la
      invariant 0 <= borrow <= 1
      invariant Differs(dest[..], i, borrow, a[..], b[..])
    {
      var x := a[2 + i];
      var y := if i < lb then b[2 + i] else 0;
      ghost var before, borrowed := dest[..], borrow;
      var d := x as int - y - borrow;
      if d < 0 {
        d := d + BASE;
        borrow := 1;
      } else {
        borrow := 0;
      }
      dest[2 + i] := d;
      DiffStep(before, i, borrowed, a[..], b[..], d, borrow, dest[..]);
    }
    DigitsBound(dest[..], la);
    ghost var before := dest[..];
    dest[1] := la;
    dest[0] := 0;
    DigitsFrame(before, dest[..], la);
    Trim(dest);
  }

  // Like signs need room for a carry limb. AddMag's size error is ignored, so a destination
  // without that room keeps its limbs, even where the sum itself would fit.
  method Add(dest: array<u32>, op1: array<u32>, op2: array<u32>)
    requires Canonical(op1[..]) && Canonical(op2[..]) && dest != op1 && dest != op2
    requires 2 <= dest.Length < BASE
    requires op1[0] != op2[0] && Mag(op1[..]) != Mag(op2[..]) ==> 2 + Max(op1[1], op2[1]) <= dest.Length
    modifies dest
    ensures (op1[0] == op2[0] ==> Max(op1[1], op2[1]) + 3 <= dest.Length) ==>
              Canonical(dest[..]) && Value(dest[..]) == Value(op1[..]) + Value(op2[..])
    ensures op1[0] == op2[0] && Max(op1[1], op2[1]) + 3 > dest.Length ==>
              && dest[1..] == old(dest[1..])
              && dest[0] == if old(WellFormed(dest[..])) && dest[1] != 0 then op1[0] else 0
  {
    if op1[0] % 2 == op2[0] % 2 {
      AddAlike(dest, op1, op2);
    } else {
      AddUnlike(dest, op1, op2);
    }
  }

  // The signs agree.
  method AddAlike(dest: array<u32>, op1: array<u32>, op2: array<u32>)
    requires Canonical(op1[..]) && Canonical(op2[..]) && dest != op1 && dest != op2 && op1[0] == op2[0]
    requires 2 <= dest.Length < BASE
    modifies dest
    ensures Max(op1[1], op2[1]) + 3 <= dest.Length ==>
              Canonical(dest[..]) && Value(dest[..]) == Value(op1[..]) + Value(op2[..])
    ensures Max(op1[1], op2[1]) + 3 > dest.Length ==>
              && dest[1..] == old(dest[1..])
              && dest[0] == if old(WellFormed(dest[..])) && dest[1] != 0 then op1[0] else 0
  {
    var _ := AddMag(dest, op1, op2);
    ghost var before := dest[..];
    dest[0] := op1[0] % 2;
    if dest[1] == 0 || dest[1] > dest.Length - 2 {
      dest[0] := 0;
    }
    if Max(op1[1], op2[1]) + 3 <= dest.Length {
      DigitsFrame(before, dest[..], dest[1]);
      SumAlike(op1[..], op2[..], dest[..]);
    }
  }

  lemma SumAlike(a: seq<u32>, b: seq<u32>, sum: seq<u32>)
    requires Canonical(a) && Canonical(b) && a[0] == b[0] && Trimmed(sum) && Mag(sum) == Mag(a) + Mag(b)
    requires sum[0] == if sum[1] == 0 then 0 else a[0]
    ensures Canonical(sum) && Value(sum) == Value(a) + Value(b)
  {
    LimbCount(sum, 0);
  }

  // The signs differ: the smaller magnitude is taken from the larger.
  method AddUnlike(dest: array<u32>, op1: array<u32>, op2: array<u32>)
    requires Canonical(op1[..]) && Canonical(op2[..]) && dest != op1 && dest != op2 && op1[0] != op2[0]
    requires 2 <= dest.Length && (Mag(op1[..]) != Mag(op2[..]) ==> 2 + Max(op1[1], op2[1]) <= dest.Length)
    modifies dest
    ensures Canonical(dest[..]) && Value(dest[..]) == Value(op1[..]) + Value(op2[..])
  {
    var c := CmpMag(op1, op2);
    if c == 0 {
      Init(dest);
    } else if c == 1 {
      SubLarger(dest, op1, op2);
    } else {
      SubLarger(dest, op2, op1);
    }
  }

  // The larger magnitude decides the sign.
  method SubLarger(dest: array<u32>, a: array<u32>, b: array<u32>)
    requires Canonical(a[..]) && Canonical(b[..]) && dest != a && dest != b && a[0] != b[0]
    requires Mag(a[..]) > Mag(b[..]) && 2 + Max(a[1], b[1]) <= dest.Length
    modifies dest
    ensures Canonical(dest[..]) && Value(dest[..]) == Value(a[..]) + Value(b[..])
  {
    SubMag(dest, a, b);
    SetSign(dest, a[0] % 2);
  }

  method SetSign(op: array<u32>, s: u32)
    requires Trimmed(op[..]) && s <= 1 && (s == 1 ==> Mag(op[..]) > 0)
    modifies op
    ensures Canonical(op[..]) && Value(op[..]) == (if s == 1 then -1 else 1) * old(Mag(op[..]))
    ensures Mag(op[..]) == old(Mag(op[..])) && op[0] == s
    ensures forall k :: 1 <= k < op.Length ==> op[k] == old(op[k])
  {
    ghost var before := op[..];
    op[0] := s;
    DigitsFrame(before, op[..], op[1]);
    LimbCount(op[..], 0);
  }

  // A copy without the sign, as abs makes it.
  method AssignAbs(dest: array<u32>, src: array<u32>)
    requires dest != src && Canonical(src[..]) && 2 + src[1] <= dest.Length
    modifies dest
    ensures Canonical(dest[..]) && Value(dest[..]) == Mag(dest[..]) == Mag(src[..])
    ensures dest[0] == 0 && dest[1] == src[1]
  {
    Assign(dest, src);
    SetSign(dest, 0);
  }

  method ScratchAbs(src: array<u32>) returns (op: array<u32>)
    requires Canonical(src[..]) && 2 + src[1] <= SCRATCH
    ensures fresh(op) && op.Length == SCRATCH && Canonical(op[..]) && Value(op[..]) == Mag(src[..])
    ensures op[1] == src[1]
  {
    op := Scratch();
    AssignAbs(op, src);
  }

  method ScratchS32(v: i32) returns (op: array<u32>)
    ensures fresh(op) && op.Length == SCRATCH && Canonical(op[..]) && Value(op[..]) == v
  {
    op := Scratch();
    FromS32(op, v);
  }

  // 1 + 1 would fit the single limb of the destination and is dropped.
  method AddDropsSumThatFits() returns (dest: array<u32>)
    ensures dest.Length == 3 && fresh(dest)
    ensures 1 + 1 < Weight(dest.Length - 2) && Canonical(dest[..]) && Value(dest[..]) == 0
  {
    dest := new u32[3](_ => 0);
    var one := new u32[3](_ => 0);
    FromS32(one, 1);
    Add(dest, one, one);
    assert dest[1..][0] == 0;
    assert Weight(1) == BASE * Weight(0);
  }

  // The sign of the negated copy: zero stays unsigned.
  function NegSign(w: seq<u32>): u32
    requires Canonical(w)
  {
    if w[1] == 0 then 0 else 1 - w[0]
  }

  method Sub(dest: array<u32>, op1: array<u32>, op2: array<u32>)
    requires Canonical(op1[..]) && Canonical(op2[..]) && dest != op1 && dest != op2
    requires 2 <= dest.Length < BASE && op2[1] + 2 <= SCRATCH
    requires op1[0] != NegSign(op2[..]) && Mag(op1[..]) != Mag(op2[..]) ==> 2 + Max(op1[1], op2[1]) <= dest.Length
    modifies dest
    ensures (op1[0] == NegSign(op2[..]) ==> Max(op1[1], op2[1]) + 3 <= dest.Length) ==>
              Canonical(dest[..]) && Value(dest[..]) == Value(op1[..]) - Value(op2[..])
    ensures !(op1[0] == NegSign(op2[..]) ==> Max(op1[1], op2[1]) + 3 <= dest.Length) ==>
              dest[1..] == old(dest[1..])
  {
    var neg := Scratch();
    Assign(neg, op2);
    if neg[1] != 0 {
      LimbCount(neg[..], 0);
      SetSign(neg, 1 - neg[0]);
    }
    ZeroValue(op2[..]);
    Add(dest, op1, neg);
  }

  // One step of a partial product: the running column t, the product x * y and
  // the carry c become the limb lo and the carry c'.
  lemma ProductColumn(t: int, x: int, y: int, c: int, lo: int, c': int, d: int, wi: int, wj: int, w: int, w': int)
    requires t + x * y + c == lo + BASE * c' && w == wi * wj && w' == BASE * w
    ensures lo * w + c' * w' + (x * d) * wi == c * w + t * w + (x * (d + y * wj)) * wi
  {
    var p := x * y;
    calc {
      (x * (d + y * wj)) * wi;
      (x * d + x * (y * wj)) * wi;
      { assert x * (y * wj) == p * wj; }
      (x * d) * wi + (p * wj) * wi;
      { assert (p * wj) * wi == p * w; }
      (x * d) * wi + p * w;
    }
    assert (t + p + c) * w == (lo + BASE * c') * w;
    assert (BASE * c') * w == c' * (BASE * w);
  }

  // Row i of the schoolbook product, added into tmp. The 64-bit accumulator holds
  // a limb, a limb product and a carry limb without overflow.
  method MulRow(tmp: array<u32>, x: u32, op2: array<u32>, i: nat)
    requires tmp != op2 && WellFormed(op2[..]) && 2 + i + op2[1] < tmp.Length
    modifies tmp
    ensures Digits(tmp[..], i + op2[1] + 1) ==
            old(Digits(tmp[..], i + op2[1])) + (x * Mag(op2[..])) * Weight(i)
    ensures forall k :: 0 <= k < 2 || 2 + i + op2[1] < k < tmp.Length ==> tmp[k] == old(tmp[k])
  {
    var lb: int := op2[1];
    var carry: u64 := 0;
    assert (x * 0) * Weight(i) == 0;
    for j := 0 to lb
      invariant carry < BASE
      invariant forall k :: 0 <= k < 2 || 2 + i + j <= k < tmp.Length ==> tmp[k] == old(tmp[k])
      invariant Digits(tmp[..], i + j) + carry * Weight(i + j) ==
                Digits(old(tmp[..]), i + j) + (x * Digits(op2[..], j)) * Weight(i)
    {
      var idx := 2 + i + j;
      var y := op2[2 + j];
      ProductBound(x, y);
      var p: u64 := tmp[idx] + x * y + carry;
      ghost var before, carried := tmp[..], carry;
      tmp[idx] := p % BASE;
      carry := p / BASE;
      DigitsFrame(before, tmp[..], i + j);
      WeightAdd(i, j);
      ProductColumn(before[idx], x, y, carried, p % BASE, carry, Digits(op2[..], j),
                    Weight(i), Weight(j), Weight(i + j), Weight(i + j + 1));
    }
    ghost var before := tmp[..];
    tmp[2 + i + lb] := carry;
    DigitsFrame(before, tmp[..], i + lb);
  }

  lemma ProductBound(x: u32, y: u32)
    ensures 0 <= x * y <= (BASE - 1) * (BASE - 1)
  {
    MulMono(x, BASE - 1, y);
    MulMono(y, BASE - 1, BASE - 1);
    MulMono(0, x, y);
  }

  // The rows of the schoolbook product, accumulated in a zeroed tmp.
  method MulRows(tmp: array<u32>, op1: array<u32>, op2: array<u32>)
    requires WellFormed(op1[..]) && WellFormed(op2[..]) && tmp != op1 && tmp != op2
    requires tmp.Length == 2 + op1[1] as int + op2[1] + 1
    requires forall k :: 0 <= k < tmp.Length ==> tmp[k] == 0
    modifies tmp
    ensures Digits(tmp[..], op1[1] as int + op2[1]) == Mag(op1[..]) * Mag(op2[..])
  {
    var la: int, lb: int := op1[1], op2[1];
    DigitsZeroTop(tmp[..], 0, lb);
    ghost var w1, m := op1[..], Mag(op2[..]);
    for i := 0 to la
      invariant Digits(tmp[..], i + lb) == Times(Digits(w1, i), m)
    {
      MulRow(tmp, op1[2 + i], op2, i);
      RowAlgebra(Digits(w1, i), w1[2 + i], Weight(i), m);
    }
  }

  method Mul(dest: array<u32>, op1: array<u32>, op2: array<u32>)
    requires Canonical(op1[..]) && Canonical(op2[..]) && dest != op1 && dest != op2
    requires dest.Length >= 2 && op1[1] as int + op2[1] < BASE
    modifies dest
    ensures Mag(op1[..]) * Mag(op2[..]) < Weight(dest.Length - 2) ==>
              Canonical(dest[..]) && Value(dest[..]) == Value(op1[..]) * Value(op2[..])
    ensures Mag(op1[..]) * Mag(op2[..]) >= Weight(dest.Length - 2) ==> !WellFormed(dest[..])
  {
    var la: int, lb: int := op1[1], op2[1];
    var tmp := new u32[2 + la + lb + 1](_ => 0);
    MulRows(tmp, op1, op2);
    ghost var before := tmp[..];
    tmp[1] := la + lb;
    tmp[0] := (op1[0] + op2[0]) % 2;
    DigitsFrame(before, tmp[..], la + lb);
    Trim(tmp);
    SignOfProduct(op1[..], op2[..], tmp[..], dest.Length - 2);
    Assign(dest, tmp);
  }

  lemma RowAlgebra(d: int, x: int, w: int, m: int)
    ensures d * m + (x * m) * w == (d + x * w) * m
  {
    assert (x * w) * m == (x * m) * w;
  }

  lemma SignOfProduct(v: seq<u32>, w: seq<u32>, p: seq<u32>, n: nat)
    requires Canonical(v) && Canonical(w) && Trimmed(p) && Mag(p) == Mag(v) * Mag(w)
    requires p[0] == if p[1] == 0 then 0 else (v[0] + w[0]) % 2
    ensures Canonical(p) && Value(p) == Value(v) * Value(w)
    ensures Mag(v) * Mag(w) < Weight(n) <==> p[1] <= n
  {
    LimbCount(p, n);
    SignAlgebra(Mag(v), Mag(w), v[0] == 1, w[0] == 1);
  }

  lemma SignAlgebra(a: int, b: int, s: bool, t: bool)
    ensures (if s then -a else a) * (if t then -b else b) == if s != t then -(a * b) else a * b
  {
    if s && t { assert (-a) * (-b) == a * b; }
    if s && !t { assert (-a) * b == -(a * b); }
    if !s && t { assert a * (-b) == -(a * b); }
  }
}
