/** Bits and shifts on limb arrays. */
module BigIntDiv {
  import opened Word
  import opened IntMath
  import opened BigIntRep
  import opened BigInt

  // ---------------------------------------------------------------- powers of two and limbs

  lemma WordPower()
    ensures Exp(2, 32) == BASE
  {
    ExpAdd(2, 16, 16);
    ExpAdd(2, 8, 8);
    assert Exp(2, 8) == 256;
  }

  lemma {:induction false} WeightIsPower(i: nat)
    ensures Weight(i) == Exp(2, 32 * i)
  {
    if i > 0 {
      WeightIsPower(i - 1);
      WordPower();
      ExpAdd(2, 32, 32 * (i - 1));
    }
  }

  function BitLength(m: nat): nat {
    if m == 0 then 0 else 1 + BitLength(m / 2)
  }

  lemma {:induction false} BitLengthRange(m: nat)
    requires m > 0
    ensures BitLength(m) >= 1 && Exp(2, BitLength(m) - 1) <= m < Exp(2, BitLength(m))
  {
    if m / 2 > 0 { BitLengthRange(m / 2); } else { assert BitLength(m) == 1 && Exp(2, 1) == 2 * Exp(2, 0); }
  }

  lemma BitLengthUnique(m: nat, r: nat)
    requires r >= 1 && Exp(2, r - 1) <= m < Exp(2, r)
    ensures BitLength(m) == r
  {
    ExpPositive(2, r - 1);
    BitLengthRange(m);
    var b := BitLength(m);
    if b < r { ExpMono(2, b, r - 1); }
    if r < b { ExpMono(2, r, b - 1); }
  }

  lemma BitLengthMono(m: nat, n: nat)
    requires m <= n
    ensures BitLength(m) <= BitLength(n)
  {
    if m > 0 {
      BitLengthRange(m);
      BitLengthRange(n);
      var b: nat := BitLength(m) - 1;
      if BitLength(n) <= b { ExpMono(2, BitLength(n), b); }
    }
  }

  lemma BitLengthBound(m: nat, b: nat)
    ensures BitLength(m) <= b <==> m < Exp(2, b)
  {
    ExpPositive(2, b);
    if m > 0 {
      BitLengthRange(m);
      if BitLength(m) <= b { ExpMono(2, BitLength(m), b); } else { ExpMono(2, b, BitLength(m) - 1); }
    }
  }

  lemma BitLengthProduct(x: nat, y: nat)
    ensures x * y >= 0 && BitLength(x * y) <= BitLength(x) + BitLength(y)
  {
    var b, c := BitLength(x), BitLength(y);
    BitLengthBound(x, b);
    BitLengthBound(y, c);
    ExpAdd(2, b, c);
    ProductLess(x, y, Exp(2, b), Exp(2, c));
    BitLengthBound(x * y, b + c);
  }

  lemma ProductLess(x: int, y: int, p: int, q: int)
    requires 0 <= x < p && 0 <= y < q
    ensures 0 <= x * y < p * q
  {
    MulMono(0, x, y);
    MulMono(x, p, y);
    DigitGap(y, q, p);
    assert y * p == p * y && q * p == p * q;
  }

  // k limbs hold exactly the numbers of up to 32 k bits.
  lemma LimbBits(w: seq<u32>, k: nat)
    requires Trimmed(w)
    ensures w[1] <= k <==> BitLength(Mag(w)) <= 32 * k
  {
    LimbCount(w, k);
    WeightIsPower(k);
    BitLengthBound(Mag(w), 32 * k);
  }

  lemma BitAlgebra(low: int, x: int, t: int, u: int, p: int, q: int, w: int, high: int, base: int)
    requires x == t * p + u && base == p * q
    ensures low + x * w + (high * base) * w == (t + high * q) * (w * p) + (low + u * w)
  {
    var wp := w * p;
    assert x * w == (t * p) * w + u * w;
    assert (t * p) * w == t * wp;
    assert (high * (p * q)) * w == (high * q) * wp by {
      assert high * (p * q) == (high * q) * p;
      assert ((high * q) * p) * w == (high * q) * (p * w);
    }
    assert (t + high * q) * wp == t * wp + (high * q) * wp;
  }

  lemma BelowLimb(low: int, u: int, p: int, w: int)
    requires 0 <= low < w && 0 <= u < p
    ensures 0 <= low + u * w < w * p
  {
    DigitGap(u, p, w);
    MulMono(0, u, w);
    assert p * w == w * p;
  }

  lemma EvenPart(t: int, high: int, q: int)
    ensures (t + high * (2 * q)) % 2 == t % 2
  {
    var hq := high * q;
    assert high * (2 * q) == 2 * hq;
  }

  lemma BitQuotient(low: int, x: int, high: int, p: int, q: int, w: int, base: int)
    requires 0 <= low < w && p > 0 && base == p * (2 * q) && w * p > 0
    ensures ((low + x * w + (high * base) * w) / (w * p)) % 2 == (x / p) % 2
  {
    var t, u, q2 := x / p, x % p, 2 * q;
    BitAlgebra(low, x, t, u, p, q2, w, high, base);
    BelowLimb(low, u, p, w);
    DivIdentity(low + x * w + (high * base) * w, w * p, t + high * q2, low + u * w);
    EvenPart(t, high, q);
  }

  // Bit 32 i + j of a number is bit j of its limb i.
  lemma BitOfLimb(low: nat, x: nat, high: nat, i: nat, j: nat)
    requires low < Weight(i) && j < 32
    ensures low + x * Weight(i) + (high * BASE) * Weight(i) >= 0
    ensures Bit(low + x * Weight(i) + (high * BASE) * Weight(i), 32 * i + j) == Bit(x, j)
  {
    WeightIsPower(i);
    WordPower();
    ExpPositive(2, j);
    ExpPositive(2, 32 * i + j);
    ExpAdd(2, 32 * i, j);
    ExpAdd(2, j, 32 - j);
    MulMono(0, x, Weight(i));
    MulMono(0, high * BASE, Weight(i));
    BitQuotient(low, x, high, Exp(2, j), Exp(2, 31 - j), Weight(i), BASE);
  }

  lemma SplitAlgebra(h: int, a: int, b: int, c: int, base: int)
    ensures (h * base) * c + a * (b * (base * c)) == ((h + a * b) * base) * c
  {
    var bc := base * c;
    assert (h * base) * c == h * bc;
    assert ((h + a * b) * base) * c == (h + a * b) * bc;
    assert a * (b * bc) == (a * b) * bc;
  }

  // The limb i of a number and the parts below and above it.
  lemma {:induction false} SplitAt(w: seq<u32>, i: nat, n: nat) returns (high: nat)
    requires i < n && 2 + n <= |w|
    ensures Digits(w, n) == Digits(w, i) + w[2 + i] * Weight(i) + (high * BASE) * Weight(i)
    decreases n
  {
    if n == i + 1 {
      high := 0;
    } else {
      var h := SplitAt(w, i, n - 1);
      WeightAdd(n - 2 - i, i + 1);
      SplitAlgebra(h, w[n + 1], Weight(n - 2 - i), Weight(i), BASE);
      MulMono(0, w[n + 1], Weight(n - 2 - i));
      high := h + w[n + 1] * Weight(n - 2 - i);
    }
  }

  lemma LimbBit(w: seq<u32>, n: nat, bit: nat)
    requires 2 + n <= |w| && bit / 32 < n
    ensures Bit(Digits(w, n), bit) == Bit(w[2 + bit / 32], bit % 32)
  {
    var i := bit / 32;
    var high := SplitAt(w, i, n);
    DigitsBound(w, i);
    BitOfLimb(Digits(w, i), w[2 + i], high, i, bit % 32);
  }

  method GetBit(src: array<u32>, bit: u32) returns (r: bool)
    requires WellFormed(src[..])
    ensures r <==> Bit(Mag(src[..]), bit) == 1
  {
    var i := bit / 32;
    var n := src[1];
    if i >= n {
      BitAbove(src[..], bit);
      return false;
    }
    LimbBit(src[..], n, bit);
    r := Bit(src[2 + i], bit % 32) == 1;
  }

  lemma BitAbove(w: seq<u32>, bit: nat)
    requires WellFormed(w) && bit / 32 >= w[1]
    ensures Bit(Mag(w), bit) == 0
  {
    DigitsBound(w, w[1]);
    WeightIsPower(w[1]);
    ExpMono(2, 32 * w[1] as int, bit);
    DivIdentity(Mag(w), Exp(2, bit), 0, Mag(w));
  }

  // The count is one more than the position of the highest set bit.
  method GetBitCount(src: array<u32>) returns (r: nat)
    requires Trimmed(src[..])
    ensures r == BitLength(Mag(src[..]))
  {
    var n: int := src[1];
    if n == 0 {
      return 0;
    }
    var last := src[1 + n];
    r := (n - 1) * 32 + BitLength(last);
    BitLengthOfTop(src[..], n);
  }

  lemma BitLengthOfTop(w: seq<u32>, n: nat)
    requires n >= 1 && 2 + n <= |w| && w[n + 1] != 0
    ensures BitLength(Digits(w, n)) == (n - 1) * 32 + BitLength(w[n + 1])
  {
    DigitsBound(w, n - 1);
    WeightIsPower(n - 1);
    var k := 32 * (n - 1);
    assert Digits(w, n) == Digits(w, n - 1) + w[n + 1] * Exp(2, k);
    BitLengthScaled(Digits(w, n - 1), w[n + 1], k);
  }

  lemma BitLengthScaled(low: nat, x: nat, k: nat)
    requires x > 0 && low < Exp(2, k)
    ensures low + x * Exp(2, k) >= 0 && BitLength(low + x * Exp(2, k)) == k + BitLength(x)
  {
    var b, p := BitLength(x), Exp(2, k);
    BitLengthRange(x);
    ExpAdd(2, k, b - 1);
    ExpAdd(2, k, b);
    MulMono(0, x, p);
    MulMono(Exp(2, b - 1), x, p);
    DigitGap(x, Exp(2, b), p);
    BitLengthUnique(low + x * p, k + b);
  }

  lemma BitLengthLimbs(w: seq<u32>)
    requires Trimmed(w) && w[1] > 0
    ensures 32 * (w[1] as int - 1) < BitLength(Mag(w)) <= 32 * w[1] as int
  {
    BitLengthOfTop(w, w[1]);
    BitLengthRange(w[w[1] + 1]);
    WordPower();
    if BitLength(w[w[1] + 1]) > 32 { ExpMono(2, 32, BitLength(w[w[1] + 1]) - 1); }
  }

  // ---------------------------------------------------------------- setting a bit

  lemma {:induction false} DigitsUpdate(v: seq<u32>, i: nat, n: nat, x: u32)
    requires i < n && 2 + n <= |v|
    ensures Digits(v[2 + i := x], n) == Digits(v, n) + (x - v[2 + i] as int) * Weight(i)
    decreases n
  {
    var v' := v[2 + i := x];
    if n == i + 1 {
      DigitsFrame(v, v', i);
      assert (x as int - v[2 + i]) * Weight(i) == x * Weight(i) - v[2 + i] * Weight(i);
    } else {
      DigitsUpdate(v, i, n - 1, x);
    }
  }

  // A word with bit j clear has room for it.
  lemma ClearBitRoom(x: u32, j: nat)
    requires j < 32 && Bit(x, j) == 0
    ensures x + Exp(2, j) < BASE
  {
    WordPower();
    ExpAdd(2, j, 32 - j);
    ExpPositive(2, j);
    RoomAlgebra(x, Exp(2, j), Exp(2, 31 - j));
  }

  lemma RoomAlgebra(x: int, p: int, q: int)
    requires p > 0 && 0 <= x < p * (2 * q) && (x / p) % 2 == 0
    ensures x + p < p * (2 * q)
  {
    var t := x / p;
    assert x == t * p + x % p;
    if t >= 2 * q { MulMono(2 * q, t, p); }
    assert t + 2 <= 2 * q;
    MulMono(t + 2, 2 * q, p);
    assert (t + 2) * p == t * p + 2 * p;
  }

  ghost function WithBit(m: nat, bit: nat): int {
    if Bit(m, bit) == 1 then m else m + Exp(2, bit)
  }

  lemma SetLimbBit(v: seq<u32>, n: nat, bit: nat)
    requires 2 + n <= |v| && bit / 32 < n && Bit(v[2 + bit / 32], bit % 32) == 0
    ensures v[2 + bit / 32] + Exp(2, bit % 32) < BASE && Exp(2, bit % 32) >= 1
    ensures Digits(v[2 + bit / 32 := v[2 + bit / 32] + Exp(2, bit % 32)], n) == WithBit(Digits(v, n), bit)
  {
    var i, j := bit / 32, bit % 32;
    ExpPositive(2, j);
    ClearBitRoom(v[2 + i], j);
    LimbBit(v, n, bit);
    DigitsUpdate(v, i, n, v[2 + i] + Exp(2, j));
    BitWeight(bit);
  }

  lemma BitWeight(bit: nat)
    ensures Exp(2, bit % 32) * Weight(bit / 32) == Exp(2, bit)
  {
    WeightIsPower(bit / 32);
    ExpAdd(2, 32 * (bit / 32), bit % 32);
  }

  lemma ZeroHasNoBits(x: nat, j: nat)
    requires Bit(x, j) == 1
    ensures x != 0
  {
    ExpPositive(2, j);
    if x == 0 { DivIdentity(0, Exp(2, j), 0, 0); }
  }

  ghost function WithoutBit(m: nat, bit: nat): int {
    if Bit(m, bit) == 1 then m - Exp(2, bit) else m
  }

  lemma HalfWithBit(m: nat, bit: nat)
    requires bit > 0
    ensures WithBit(m, bit) == 2 * WithBit(m / 2, bit - 1) + m % 2
    ensures WithoutBit(m, bit) == 2 * WithoutBit(m / 2, bit - 1) + m % 2
  {
    BitOfHalf(m, bit);
  }

  // Exactly the one bit is set, or cleared.
  lemma {:induction false} OneBit(m: nat, bit: nat, k: nat)
    ensures WithBit(m, bit) >= 0 && Bit(WithBit(m, bit), k) == if k == bit then 1 else Bit(m, k)
    ensures WithoutBit(m, bit) >= 0 && Bit(WithoutBit(m, bit), k) == if k == bit then 0 else Bit(m, k)
    decreases bit
  {
    BitZero(m);
    if bit == 0 {
      LowBitChanged(m, k, WithBit(m, 0));
      LowBitChanged(m, k, WithoutBit(m, 0));
    } else {
      HalfWithBit(m, bit);
      OneBit(m / 2, bit - 1, if k == 0 then 0 else k - 1);
      ShiftedIn(WithBit(m / 2, bit - 1), m, k, WithBit(m, bit));
      ShiftedIn(WithoutBit(m / 2, bit - 1), m, k, WithoutBit(m, bit));
    }
  }

  lemma LowBitChanged(m: nat, k: nat, x: nat)
    requires x / 2 == m / 2
    ensures Bit(x, k) == if k == 0 then x % 2 else Bit(m, k)
  {
    BitZero(x);
    if k > 0 {
      BitOfHalf(x, k);
      BitOfHalf(m, k);
    }
  }

  lemma ShiftedIn(h: nat, m: nat, k: nat, x: nat)
    requires x == 2 * h + m % 2
    ensures Bit(x, k) == if k == 0 then Bit(m, 0) else Bit(h, k - 1)
    ensures k > 0 ==> Bit(m, k) == Bit(m / 2, k - 1)
  {
    BitZero(x);
    BitZero(m);
    if k > 0 {
      BitOfHalf(x, k);
      BitOfHalf(m, k);
    }
  }

  lemma ClearLimbBit(v: seq<u32>, n: nat, bit: nat)
    requires 2 + n <= |v| && bit / 32 < n && Bit(v[2 + bit / 32], bit % 32) == 1
    ensures 1 <= Exp(2, bit % 32) <= v[2 + bit / 32]
    ensures Digits(v[2 + bit / 32 := v[2 + bit / 32] - Exp(2, bit % 32)], n) == WithoutBit(Digits(v, n), bit)
  {
    var i, j := bit / 32, bit % 32;
    ExpPositive(2, j);
    HighEnough(v[2 + i], Exp(2, j));
    LimbBit(v, n, bit);
    DigitsUpdate(v, i, n, v[2 + i] - Exp(2, j));
    BitWeight(bit);
    Negated(Exp(2, j), Weight(i));
  }

  lemma Negated(x: int, y: int)
    ensures -x * y == -(x * y)
  {
  }

  lemma HighEnough(x: nat, p: nat)
    requires p > 0 && (x / p) % 2 == 1
    ensures p <= x
  {
  }

  // set_bit with a false value: the bit's weight is taken away and leading zeros go.
  method ClearBit(op: array<u32>, bit: u32)
    requires WellFormed(op[..])
    modifies op
    ensures bit / 32 >= old(op[1]) ==> op[..] == old(op[..])
    ensures bit / 32 < old(op[1]) ==>
              && Trimmed(op[..]) && Mag(op[..]) == WithoutBit(old(Mag(op[..])), bit)
              && op[0] == if op[1] == 0 then 0 else old(op[0])
  {
    var i: int, j := bit / 32, bit % 32;
    if i >= op[1] {
      return;
    }
    LimbBit(op[..], op[1], bit);
    if Bit(op[2 + i], j) == 1 {
      ClearLimbBit(op[..], op[1], bit);
      ghost var before := op[..];
      op[2 + i] := op[2 + i] - Exp(2, j);
      assert op[..] == before[2 + i := op[2 + i]];
    }
    Trim(op);
  }

  // set_bit with a true value. Setting a bit by | adds its weight when it was clear.
  // A bit beyond the buffer is dropped.
  method SetBit(op: array<u32>, bit: u32)
    requires WellFormed(op[..])
    modifies op
    ensures op[0] == old(op[0])
    ensures 2 + bit / 32 >= op.Length ==> op[..] == old(op[..])
    ensures 2 + bit / 32 < op.Length ==>
              && op[1] == Max(old(op[1]), bit / 32 + 1)
              && WellFormed(op[..])
              && Mag(op[..]) == WithBit(Digits(old(op[..]), op[1]), bit)
              && op[2 + bit / 32] != 0
              && forall k :: 2 <= k < op.Length && k != 2 + bit / 32 ==> op[k] == old(op[k])
  {
    var i: int, j := bit / 32, bit % 32;
    if 2 + i >= op.Length {
      return;
    }
    ghost var before := op[..];
    ghost var n := Max(op[1], i + 1);
    if Bit(op[2 + i], j) == 0 {
      SetLimbBit(before, n, bit);
      op[2 + i] := op[2 + i] + Exp(2, j);
    } else {
      ZeroHasNoBits(op[2 + i], j);
      LimbBit(before, n, bit);
    }
    ghost var mid := op[..];
    if i + 1 > op[1] {
      op[1] := i + 1;
    }
    DigitsFrame(mid, op[..], n);
  }

  // ---------------------------------------------------------------- shifting left

  lemma {:induction false} ShiftedDigits(v: seq<u32>, w: seq<u32>, words: nat, n: nat)
    requires 2 + n <= |v| && 2 + words + n <= |w|
    requires forall k :: 2 <= k < 2 + words ==> w[k] == 0
    requires forall k :: 2 <= k < 2 + n ==> w[k + words] == v[k]
    ensures Digits(w, words + n) == Digits(v, n) * Weight(words)
  {
    if n == 0 {
      DigitsZeroTop(w, 0, words);
    } else {
      ShiftedDigits(v, w, words, n - 1);
      WeightAdd(n - 1, words);
      assert w[n + 1 + words] == v[n + 1];
      Distribute(Digits(v, n - 1), v[n + 1], Weight(n - 1), Weight(words));
    }
  }

  lemma Distribute(d: int, x: int, a: int, b: int)
    ensures (d + x * a) * b == d * b + x * (a * b)
    ensures (d + x * a) * b == d * b + (x * b) * a
  {
    assert (x * a) * b == x * (a * b) && (x * a) * b == (x * b) * a;
  }

  // Moves n limbs up by some words and clears the words below.
  method ShlLimbs(op: array<u32>, words: nat)
    requires WellFormed(op[..]) && 2 + op[1] as int + words <= op.Length < BASE
    modifies op
    ensures op[0] == old(op[0]) && op[1] == old(op[1]) + words
    ensures Mag(op[..]) == old(Mag(op[..])) * Weight(words)
  {
    var n: int := op[1];
    ghost var start := op[..];
    MoveLimbs(op, n, words);
    for i := 0 to words
      invariant op[0] == start[0] && op[1] == start[1]
      invariant forall k :: 2 <= k < 2 + i ==> op[k] == 0
      invariant forall k :: 2 <= k < 2 + n ==> op[k + words] == start[k]
    {
      op[2 + i] := 0;
    }
    op[1] := n + words;
    ShiftedDigits(start, op[..], words, n);
  }

  // From the last limb down, so that none is overwritten before it is moved.
  method MoveLimbs(op: array<u32>, n: nat, words: nat)
    requires 2 + n + words <= op.Length
    modifies op
    ensures op[0] == old(op[0]) && op[1] == old(op[1])
    ensures forall k :: 2 <= k < 2 + n ==> op[k + words] == old(op[k])
  {
    for i := n downto 0
      invariant forall k :: 0 <= k < 2 + i ==> op[k] == old(op[k])
      invariant forall k :: 2 + i <= k < 2 + n ==> op[k + words] == old(op[k])
    {
      op[2 + i + words] := op[2 + i];
    }
  }

  // A limb shifted left by r splits into the kept part and the carry.
  lemma ShiftLimb(cur: u32, carry: int, r: nat)
    requires 0 < r < 32 && 0 <= carry < Exp(2, r)
    ensures Exp(2, 32 - r) > 0 && Exp(2, r) > 0
    ensures cur * Exp(2, r) == (cur * Exp(2, r)) % BASE + BASE * (cur / Exp(2, 32 - r))
    ensures 0 <= cur / Exp(2, 32 - r) < Exp(2, r)
    ensures 0 <= (cur * Exp(2, r)) % BASE + carry < BASE
  {
    WordPower();
    ExpPositive(2, r);
    ExpPositive(2, 32 - r);
    ExpAdd(2, r, 32 - r);
    ShiftAlgebra(cur, carry, Exp(2, r), Exp(2, 32 - r), BASE);
  }

  lemma ShiftAlgebra(cur: int, carry: int, p: int, q: int, base: int)
    requires p > 0 && q > 0 && p * q == base && 0 <= cur < base && 0 <= carry < p
    ensures cur * p == (cur * p) % base + base * (cur / q)
    ensures 0 <= cur / q < p
    ensures 0 <= (cur * p) % base + carry < base
  {
    var t, u := cur / q, cur % q;
    assert cur == t * q + u;
    assert cur * p == t * base + u * p by {
      assert (t * q) * p == t * (p * q);
      assert (t * q + u) * p == (t * q) * p + u * p;
    }
    assert 0 <= u * p && u * p + p <= base by { MulMono(0, u, p); DigitGap(u, q, p); assert q * p == base; }
    DivIdentity(cur * p, base, t, u * p);
    if t >= p { MulMono(p, t, q); }
    if t < 0 { MulMono(t, -1, q); }
  }

  ghost predicate Shifted(d: seq<u32>, i: nat, carry: int, start: seq<u32>, r: nat)
    requires 2 + i <= |d| && 2 + i <= |start|
  {
    Digits(d, i) + carry * Weight(i) == Digits(start, i) * Exp(2, r)
  }

  lemma ShiftStep(d: seq<u32>, i: nat, carry: int, start: seq<u32>, r: nat, d': seq<u32>)
    requires 0 < r < 32 && 2 + i < |d| == |start| && 0 <= carry < Exp(2, r) && Shifted(d, i, carry, start, r)
    requires 0 <= (start[2 + i] * Exp(2, r)) % BASE + carry < BASE && Exp(2, 32 - r) > 0
    requires d' == d[2 + i := (start[2 + i] * Exp(2, r)) % BASE + carry]
    ensures Shifted(d', i + 1, start[2 + i] / Exp(2, 32 - r), start, r)
  {
    var cur, p, c := start[2 + i], Exp(2, r), start[2 + i] / Exp(2, 32 - r);
    ShiftLimb(cur, carry, r);
    DigitsFrame(d, d', i);
    ColumnAlgebra(cur * p, 0, carry, (cur * p) % BASE + carry, c, Weight(i), Weight(i + 1));
    Distribute(Digits(start, i), cur, Weight(i), p);
  }

  // The bits of the carry and of the shifted limb are disjoint, so | is +.
  method ShlBits(op: array<u32>, rem: nat)
    requires Trimmed(op[..]) && op[1] > 0 && 2 + op[1] as int < op.Length < BASE && 0 < rem < 32
    modifies op
    ensures Trimmed(op[..]) && op[0] == old(op[0]) && old(op[1]) <= op[1] <= old(op[1]) + 1
    ensures Mag(op[..]) == old(Mag(op[..])) * Exp(2, rem)
  {
    var n: int := op[1];
    ghost var start := op[..];
    var carry := 0;
    ExpPositive(2, rem);
    for i := 0 to n
      invariant 0 <= carry < Exp(2, rem)
      invariant op[0] == start[0] && op[1] == n
      invariant forall k :: 2 + i <= k < op.Length ==> op[k] == start[k]
      invariant Shifted(op[..], i, carry, start, rem)
    {
      var cur := op[2 + i];
      ShiftLimb(cur, carry, rem);
      ghost var before, carried := op[..], carry;
      op[2 + i] := (cur * Exp(2, rem)) % BASE + carry;
      carry := cur / Exp(2, 32 - rem);
      ShiftStep(before, i, carried, start, rem, op[..]);
    }
    ghost var before := op[..];
    WordPower();
    ExpMono(2, rem, 32);
    if carry != 0 && 2 + n < op.Length {
      op[2 + n] := carry;
      op[1] := n + 1;
    }
    ShiftFinish(start, before, op[..], n, carry, rem);
  }

  lemma ShiftFinish(start: seq<u32>, d: seq<u32>, d': seq<u32>, n: nat, carry: u32, r: nat)
    requires 0 < n && 2 + n < |d| == |d'| == |start| && start[n + 1] != 0 && Shifted(d, n, carry, start, r)
    requires d' == if carry != 0 then d[2 + n := carry][1 := n + 1] else d
    requires d[1] == n && n + 1 < BASE
    ensures Trimmed(d') && Mag(d') == Digits(start, n) * Exp(2, r)
  {
    DigitsFrame(d, d', n);
    assert Digits(d', n + 1) == Digits(d', n) + d'[2 + n] * Weight(n);
    if carry == 0 {
      TopLimb(start, n);
      ExpPositive(2, r);
      MulMono(1, Exp(2, r), Digits(start, n));
      TopLimb(d', n);
    }
  }

  // The shift leaves the operand alone when it would not surely fit.
  predicate ShlFits(n: int, bits: nat, len: nat) {
    2 + n + bits / 32 + 1 <= len
  }

  method ShlWords(op: array<u32>, bits: nat)
    requires Trimmed(op[..]) && op.Length < BASE
    modifies op
    ensures Trimmed(op[..]) && op[0] == old(op[0])
    ensures ShlFits(old(op[1]), bits, op.Length) ==> Mag(op[..]) == old(Mag(op[..])) * Exp(2, bits)
    ensures !ShlFits(old(op[1]), bits, op.Length) ==> op[..] == old(op[..])
  {
    LimbCount(op[..], 0);
    if bits == 0 || op[1] == 0 {
      return;
    }
    var words, rem := bits / 32, bits % 32;
    var n: int := op[1];
    if 2 + n + words + 1 > op.Length {
      return;
    }
    ShlValue(Mag(op[..]), bits);
    if words > 0 {
      ghost var start := op[..];
      ShlLimbs(op, words);
      ShiftedTop(start, op[..], words);
    }
    if rem > 0 {
      ShlBits(op, rem);
    }
  }

  lemma ShlValue(m: int, bits: nat)
    ensures (m * Weight(bits / 32)) * Exp(2, bits % 32) == m * Exp(2, bits)
    ensures bits % 32 == 0 ==> m * Weight(bits / 32) == m * Exp(2, bits)
    ensures bits / 32 == 0 ==> m * Exp(2, bits % 32) == m * Exp(2, bits)
  {
    WeightIsPower(bits / 32);
    ExpAdd(2, 32 * (bits / 32), bits % 32);
    Distribute(0, m, Weight(bits / 32), Exp(2, bits % 32));
  }

  lemma ShiftedTop(v: seq<u32>, w: seq<u32>, words: nat)
    requires Trimmed(v) && v[1] > 0 && WellFormed(w) && w[1] == v[1] + words
    requires Mag(w) == Mag(v) * Weight(words)
    ensures Trimmed(w)
  {
    TopLimb(v, v[1]);
    MulMono(Weight(v[1] - 1), Mag(v), Weight(words));
    WeightAdd(v[1] - 1, words);
    TopLimb(w, w[1]);
  }
}
