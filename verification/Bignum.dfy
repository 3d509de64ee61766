/** hlm_bn: fixed-capacity big numbers, updated in place through references that may alias. */
module Bignum {
  import opened Arith
  import opened Radix
  import opened Bits
  import opened RawLimbs

  const MAX: nat := 128

  /** First value that does not fit in the capacity. */
  function Capacity(): int { Pow(B32, MAX) }

  class Bn {
    const v: array<uint32>
    var n: nat

    /** Limbs start out unspecified, as for a C local. */
    constructor ()
      ensures Valid() && fresh(v)
    {
      v := new uint32[128];
      n := 1;
    }

    ghost predicate Valid()
      reads this
    {
      v.Length == MAX && 1 <= n <= MAX
    }

    /** Only the limbs below n count. */
    ghost function Value(): (r: int)
      requires Valid()
      reads this, v
      ensures r >= 0
    {
      NumNat(v[..n]);
      Num(v[..n])
    }
  }

  /** References are equal or share no storage, as for C structs. */
  ghost predicate Separate(a: Bn, b: Bn) {
    a == b || a.v != b.v
  }

  lemma DropTopZero(s: seq<int>)
    requires |s| > 0 && s[|s| - 1] == 0
    ensures Num(s[..|s| - 1]) == Num(s)
  {
    EvalSnoc(s, |s| - 1, B32);
    assert s[..|s|] == s;
  }

  method Normalize(a: Bn)
    requires a.Valid()
    modifies a`n
    ensures a.Valid() && a.Value() == old(a.Value())
    ensures a.n > 1 ==> a.v[a.n - 1] != 0
  {
    hide Eval;
    while a.n > 1 && a.v[a.n - 1] == 0
      invariant a.Valid() && a.Value() == old(a.Value())
      decreases a.n
    {
      DropTopZero(a.v[..a.n]);
      assert a.v[..a.n][..a.n - 1] == a.v[..a.n - 1];
      a.n := a.n - 1;
    }
  }

  lemma OneLimb(s: seq<int>)
    requires |s| == 1
    ensures Num(s) == s[0]
  {
    assert Num(s[1..]) == 0;
  }

  method Zero(a: Bn)
    requires a.Valid()
    modifies a, a.v
    ensures a.Valid() && a.Value() == 0
  {
    a.v[0] := 0;
    a.n := 1;
    OneLimb(a.v[..1]);
  }

  method FromU32(a: Bn, x: uint32)
    requires a.Valid()
    modifies a, a.v
    ensures a.Valid() && a.Value() == x
  {
    Zero(a);
    a.n := 1;
    a.v[0] := x;
    OneLimb(a.v[..1]);
  }

  method IsZero(a: Bn) returns (r: bool)
    requires a.Valid()
    ensures r <==> a.Value() == 0
  {
    hide Eval;
    var i := 0;
    while i < a.n
      invariant 0 <= i <= a.n
      invariant forall k :: 0 <= k < i ==> a.v[k] == 0
    {
      if a.v[i] != 0 {
        NonzeroLimb(a.v[..a.n], i);
        return false;
      }
      i := i + 1;
    }
    EvalZeros(a.v[..a.n], B32);
    return true;
  }

  lemma NonzeroLimb(s: seq<int>, i: nat)
    requires Digits(s, B32) && i < |s| && s[i] != 0
    ensures Num(s) > 0
  {
    EvalBound(s[..i], B32);
    EvalBound(s[i + 1..], B32);
    EvalSplit(s, i, B32);
    assert s[i..][1..] == s[i + 1..];
    assert Num(s[i..]) == s[i] + B32 * Num(s[i + 1..]);
    PowPositive(B32, i);
    MulLe(1, Num(s[i..]), Pow(B32, i));
  }

  /** Significant limbs of a, at least one. */
  method Significant(a: Bn) returns (an: nat)
    requires a.Valid()
    ensures 1 <= an <= a.n && Num(a.v[..an]) == a.Value()
    ensures an > 1 ==> a.v[an - 1] != 0
  {
    hide Eval;
    an := a.n;
    while an > 1 && a.v[an - 1] == 0
      invariant 1 <= an <= a.n && Num(a.v[..an]) == a.Value()
    {
      DropTopZero(a.v[..an]);
      assert a.v[..an][..an - 1] == a.v[..an - 1];
      an := an - 1;
    }
  }

  /** With a nonzero top limb, more limbs means a larger number. */
  lemma LongerIsLarger(s: seq<int>, t: seq<int>)
    requires Digits(s, B32) && Digits(t, B32) && |s| > |t| && s[|s| - 1] != 0
    ensures Num(s) > Num(t)
  {
    var n := |s| - 1;
    EvalSnoc(s, n, B32);
    assert s[..n + 1] == s;
    EvalBound(s[..n], B32);
    EvalBound(t, B32);
    hide Eval, Pow;
    MulLe(1, s[n], Pow(B32, n));
    PowMonotone(|t|, n);
  }

  lemma PowMonotone(i: nat, j: nat)
    requires i <= j
    ensures Pow(B32, i) <= Pow(B32, j)
  {
    PowAdd(B32, i, j - i);
    PowPositive(B32, i);
    PowPositive(B32, j - i);
    hide Pow;
    MulLe(1, Pow(B32, j - i), Pow(B32, i));
  }

  method Cmp(a: Bn, b: Bn) returns (c: int)
    requires a.Valid() && b.Valid()
    ensures c == Sign(a.Value() - b.Value())
  {
    hide Eval;
    var an := Significant(a);
    var bn := Significant(b);
    if an != bn {
      if an > bn {
        LongerIsLarger(a.v[..an], b.v[..bn]);
        return 1;
      }
      LongerIsLarger(b.v[..bn], a.v[..an]);
      return -1;
    }
    c := LimbCmp(a.v, b.v, an);
  }

  method Bitlen(a: Bn) returns (bits: nat)
    requires a.Valid()
    ensures bits <= 32 * a.n && HasBits(a.Value(), bits)
  {
    bits := RawBitlen(a.v, a.n);
  }

  method Bit(a: Bn, i: int) returns (b: int)
    requires a.Valid()
    ensures b == if i < 0 then 0 else BitOf(a.Value(), i)
  {
    hide Eval, Pow, BitOf;
    if i < 0 {
      return 0;
    }
    if i >= a.n * 32 {
      NoHighBit(a.v[..a.n], i);
      return 0;
    }
    NumBit(a.v[..a.n], i);
    b := BitOf(a.v[i / 32], i % 32);
  }

  lemma NoHighBit(s: seq<uint32>, i: nat)
    requires i >= 32 * |s|
    ensures Num(s) >= 0 && BitOf(Num(s), i) == 0
  {
    NumNat(s);
    PowB32(|s|);
    PowAdd(2, 32 * |s|, i - 32 * |s|);
    PowPositive(2, 32 * |s|);
    PowPositive(2, i - 32 * |s|);
    hide Pow, Eval;
    MulLe(1, Pow(2, i - 32 * |s|), Pow(2, 32 * |s|));
    ShiftAll(Num(s), i);
    BitDefinition(Num(s), i);
    ShiftDefinition(Num(s), i);
  }

  lemma ShiftDefinition(n: int, i: nat)
    requires n >= 0
    ensures Pow(2, i) > 0 && Shifted(n, i) == n / Pow(2, i)
  {
    PowPositive(2, i);
  }

  method Copy(dst: Bn, src: Bn)
    requires dst.Valid() && src.Valid() && Separate(dst, src)
    modifies dst, dst.v
    ensures dst.Valid() && dst.Value() == old(src.Value())
  {
    CopyLimbs(dst.v, src.v, src.n);
    dst.n := src.n;
  }

  /** memcpy of the first n limbs. */
  method CopyLimbs(dst: array<uint32>, src: array<uint32>, n: nat)
    requires n <= dst.Length && n <= src.Length
    modifies dst
    ensures dst[..n] == old(src[..n])
  {
    var i := 0;
    while i < n
      invariant 0 <= i <= n
      invariant forall k :: 0 <= k < i ==> dst[k] == old(src[k])
      invariant forall k :: i <= k < n ==> src[k] == old(src[k])
    {
      dst[i] := src[i];
      i := i + 1;
    }
  }

  // ---------- addition and subtraction ----------

  /** Limb i of a number written with n limbs. */
  function Limb(s: seq<uint32>, n: nat, i: nat): uint32
    requires n <= |s|
  {
    if i < n then s[i] else 0
  }

  /** The first i limbs of a + b, with the pending carry. */
  ghost predicate Added(A: seq<int>, B: seq<int>, r: seq<int>, i: nat, carry: int) {
    && i <= |A| == |B| && i <= |r|
    && Num(r[..i]) + carry * Pow(B32, i) == Num(A[..i]) + Num(B[..i])
  }

  lemma AddedStep(A: seq<int>, B: seq<int>, r: seq<int>, i: nat, carry: int, v: int, carry': int)
    requires Added(A, B, r, i, carry) && i < |A| && i < |r| && v + B32 * carry' == A[i] + B[i] + carry
    ensures Added(A, B, r[i := v], i + 1, carry')
  {
    hide Eval;
    EvalSnoc(r[i := v], i, B32);
    EvalSnoc(A, i, B32);
    EvalSnoc(B, i, B32);
    assert r[i := v][..i] == r[..i];
    PowB32Step(i);
    hide Pow;
    AddArith(Pow(B32, i), v, carry', A[i], B[i], carry);
  }

  lemma AddArith(p: int, v: int, c': int, x: int, y: int, c: int)
    requires v + B32 * c' == x + y + c
    ensures p * v + c' * (B32 * p) == p * x + p * y + c * p
  {
    MulEq(p, v + B32 * c', x + y + c);
    MulDistr(p, v, B32 * c');
    MulDistr(p, x + y, c);
    MulDistr(p, x, y);
  }

  /** Padding with zero limbs keeps the number. */
  lemma Padded(s: seq<uint32>, n: nat, t: seq<int>)
    requires n <= |s| && |t| >= n && forall i :: 0 <= i < |t| ==> t[i] == (if i < n then s[i] else 0)
    ensures Num(t) == Num(s[..n])
  {
    hide Eval;
    EvalSplit(t, n, B32);
    EvalZeros(t[n..], B32);
    assert t[..n] == s[..n];
  }

  /** The limb loop of Add: r.v[..n] and the carry hold a + b, whichever of them r is. */
  method AddLimbs(r: Bn, a: Bn, b: Bn, n: nat) returns (carry: uint64)
    requires r.Valid() && a.Valid() && b.Valid() && Separate(r, a) && Separate(r, b)
    requires a.n <= n <= MAX && b.n <= n
    modifies r.v
    ensures 0 <= carry <= 1 && Num(r.v[..n]) + carry * Pow(B32, n) == old(a.Value() + b.Value())
  {
    hide Eval, Pow;
    ghost var av, bv, an, bn := a.v[..], b.v[..], a.n, b.n;
    ghost var A: seq<int> := seq(n, i requires 0 <= i < n => Limb(av, an, i));
    ghost var B: seq<int> := seq(n, i requires 0 <= i < n => Limb(bv, bn, i));
    Padded(av, an, A);
    Padded(bv, bn, B);
    assert av[..an] == a.v[..a.n] && bv[..bn] == b.v[..b.n];
    carry := 0;
    var i := 0;
    EmptySum(A, B, r.v[..]);
    while i < n
      invariant 0 <= i <= n && 0 <= carry <= 1
      invariant forall k :: i <= k < 128 ==> a.v[k] == av[k] && b.v[k] == bv[k]
      invariant Added(A, B, r.v[..], i, carry)
    {
      var t: uint64 := carry;
      if i < a.n {
        t := t + a.v[i];
      }
      if i < b.n {
        t := t + b.v[i];
      }
      ghost var s: seq<int> := r.v[..];
      AddedStep(A, B, s, i, carry, t % B32, t / B32);
      r.v[i] := t % B32;
      assert r.v[..] == s[i := t % B32];
      carry := t / B32;
      i := i + 1;
    }
    assert A[..n] == A && B[..n] == B && r.v[..][..n] == r.v[..n];
  }

  /** r := a + b, or -1 when the sum needs more than 128 limbs. */
  method Add(r: Bn, a: Bn, b: Bn) returns (code: int)
    requires r.Valid() && a.Valid() && b.Valid() && Separate(r, a) && Separate(r, b)
    modifies r, r.v
    ensures r.Valid()
    ensures code == if old(a.Value() + b.Value()) < Capacity() then 0 else -1
    ensures code == 0 ==> r.Value() == old(a.Value() + b.Value())
  {
    hide Eval, Pow;
    var n := if a.n > b.n then a.n else b.n;
    var carry := AddLimbs(r, a, b, n);
    SumCapacity(r.v[..n], n, carry, old(a.Value() + b.Value()));
    if carry != 0 {
      if n >= MAX {
        return -1;
      }
      r.v[n] := carry;
      EvalSnoc(r.v[..], n, B32);
      assert r.v[..][..n] == r.v[..n] && r.v[..][..n + 1] == r.v[..n + 1];
      n := n + 1;
    }
    r.n := n;
    Normalize(r);
    code := 0;
  }

  lemma EmptySum(A: seq<int>, B: seq<int>, r: seq<int>)
    requires |A| == |B|
    ensures Added(A, B, r, 0, 0)
  {}

  /** The sum fits exactly when there is no carry or a limb is left for it. */
  lemma SumCapacity(r: seq<uint32>, n: nat, carry: int, sum: int)
    requires |r| == n <= MAX && 0 <= carry <= 1 && Num(r) + carry * Pow(B32, n) == sum
    ensures sum < Capacity() <==> carry == 0 || n < MAX
  {
    hide Eval, Pow, Num;
    NumNat(r);
    PowMonotone(n, MAX);
    MulEq(Pow(B32, n), carry, if carry == 0 then 0 else 1);
    if n < MAX {
      PowB32Step(n);
      PowMonotone(n + 1, MAX);
    }
  }

  /** r := a - b for a >= b. */
  method Sub(r: Bn, a: Bn, b: Bn)
    requires r.Valid() && a.Valid() && b.Valid() && Separate(r, a) && Separate(r, b)
    requires a.Value() >= b.Value()
    modifies r, r.v
    ensures r.Valid() && r.Value() == old(a.Value() - b.Value())
  {
    hide Eval, Pow;
    var n := a.n;
    ghost var bn, av, bv := b.n, a.v[..], b.v[..];
    ghost var A: seq<int> := av[..n];
    ghost var B: seq<int> := seq(n, i requires 0 <= i < n => Limb(bv, bn, i));
    assert A == a.v[..a.n] && bv[..bn] == b.v[..b.n];
    HighLimbsZero(A, bv[..bn], B);
    var borrow := 0;
    var i := 0;
    assert Subtracted(A, B, r.v[..], 0, 0) by { EmptyDifference(A, B, r.v[..]); }
    while i < n
      invariant 0 <= i <= n && 0 <= borrow <= 1 && r.n == old(r.n) && b.n == bn
      invariant forall k :: i <= k < 128 ==> a.v[k] == av[k] && b.v[k] == bv[k]
      invariant Subtracted(A, B, r.v[..], i, borrow)
    {
      var y: uint32 := if i < b.n then b.v[i] else 0;
      var t: uint64 := (a.v[i] as int - y - borrow) % B64;
      WrappedBorrow(a.v[i], y, borrow, t);
      ghost var s: seq<int> := r.v[..];
      SubtractedStep(A, B, s, i, borrow, t % B32, (t / B32) % 2);
      r.v[i] := t % B32;
      assert r.v[..] == s[i := t % B32];
      borrow := (t / B32) % 2;
      i := i + 1;
    }
    assert A[..n] == A && B[..n] == B && r.v[..][..n] == r.v[..n];
    NoFinalBorrow(r.v[..n], n, borrow, Num(A) - Num(B));
    r.n := n;
    Normalize(r);
  }

  ghost predicate Subtracted(A: seq<int>, B: seq<int>, r: seq<int>, i: nat, borrow: int) {
    && i <= |A| == |B| && i <= |r|
    && Num(r[..i]) - borrow * Pow(B32, i) == Num(A[..i]) - Num(B[..i])
  }

  lemma EmptyDifference(A: seq<int>, B: seq<int>, r: seq<int>)
    requires |A| == |B|
    ensures Subtracted(A, B, r, 0, 0)
  {}

  lemma SubtractedStep(A: seq<int>, B: seq<int>, r: seq<int>, i: nat, borrow: int, v: int, borrow': int)
    requires Subtracted(A, B, r, i, borrow) && i < |A| && i < |r| && v - B32 * borrow' == A[i] - B[i] - borrow
    ensures Subtracted(A, B, r[i := v], i + 1, borrow')
  {
    hide Eval;
    EvalSnoc(r[i := v], i, B32);
    EvalSnoc(A, i, B32);
    EvalSnoc(B, i, B32);
    assert r[i := v][..i] == r[..i];
    PowB32Step(i);
    hide Pow;
    BorrowArith(Pow(B32, i), v, borrow', A[i], B[i], borrow);
  }

  /** A number not above A has no digits beyond those of A. */
  lemma HighLimbsZero(A: seq<uint32>, b: seq<uint32>, B: seq<int>)
    requires |A| == |B| && (forall i :: 0 <= i < |B| ==> B[i] == (if i < |b| then b[i] else 0)) && Num(b) <= Num(A)
    ensures Num(B) == Num(b)
  {
    hide Eval, Pow;
    var n := |A|;
    if |b| <= n {
      Padded(b, |b|, B);
      assert b[..|b|] == b;
    } else {
      NumNat(A);
      EvalSplit(b, n, B32);
      NumNat(b[..n]);
      NumNat(b[n..]);
      PowPositive(B32, n);
      var high := Num(b[n..]);
      if high >= 1 {
        MulLe(1, high, Pow(B32, n));
      }
      MulEq(Pow(B32, n), high, 0);
      assert B == b[..n];
    }
  }

  lemma NoFinalBorrow(r: seq<uint32>, n: nat, borrow: int, d: int)
    requires |r| == n && 0 <= borrow <= 1 && Num(r) - borrow * Pow(B32, n) == d && d >= 0
    ensures Num(r) == d
  {
    NumNat(r);
    hide Eval, Pow;
    if borrow == 1 {
      MulEq(Pow(B32, n), borrow, 1);
    } else {
      MulEq(Pow(B32, n), borrow, 0);
    }
  }

  // ---------- modular operations ----------

  /** r := a mod m. */
  method ModBn(r: Bn, a: Bn, m: Bn)
    requires r.Valid() && a.Valid() && m.Valid() && Separate(r, a) && Separate(r, m)
    requires m.Value() > 0
    modifies r, r.v
    ensures r.Valid() && r.Value() == old(a.Value()) % old(m.Value())
  {
    hide Eval;
    var out := new uint32[128];
    var mn := m.n;
    RawMod(a.v, a.n, m.v, mn, out);
    CopyLimbs(r.v, out, mn);
    r.n := mn;
    Normalize(r);
  }

  /** r := a b mod m. The product is complete before r is written, so r may be a, b or both. */
  method ModMul(r: Bn, a: Bn, b: Bn, m: Bn)
    requires r.Valid() && a.Valid() && b.Valid() && m.Valid()
    requires Separate(r, a) && Separate(r, b) && Separate(r, m) && m.Value() > 0
    modifies r, r.v
    ensures r.Valid() && r.Value() == old(a.Value() * b.Value()) % old(m.Value())
  {
    hide Eval;
    var prod := new uint32[256];
    var out := new uint32[128];
    var mn := m.n;
    RawMul(a.v, a.n, b.v, b.n, prod);
    assert m.v[..mn] == old(m.v[..mn]);
    RawMod(prod, a.n + b.n, m.v, mn, out);
    CopyLimbs(r.v, out, mn);
    r.n := mn;
    Normalize(r);
  }

  /** r := a + b mod m for reduced a and b whose sum fits in the capacity. */
  method ModAdd(r: Bn, a: Bn, b: Bn, m: Bn)
    requires r.Valid() && a.Valid() && b.Valid() && m.Valid()
    requires Separate(r, a) && Separate(r, b) && Separate(r, m)
    requires a.Value() < m.Value() && b.Value() < m.Value() && a.Value() + b.Value() < Capacity()
    modifies r, r.v
    ensures r.Valid() && r.Value() == old(a.Value() + b.Value()) % old(m.Value())
  {
    hide Eval, Bn.Value, Capacity;
    ghost var x, y, p := a.Value(), b.Value(), m.Value();
    var t := new Bn();
    var code := Add(t, a, b);
    var c := Cmp(t, m);
    if c >= 0 {
      Sub(t, t, m);
    }
    SumReduced(x, y, p, t.Value());
    Copy(r, t);
  }

  lemma SumReduced(x: int, y: int, p: int, t: int)
    requires 0 <= x < p && 0 <= y < p && t == (if x + y >= p then x + y - p else x + y)
    ensures t == (x + y) % p
  {
    DivModUnique(x + y, p, if x + y >= p then 1 else 0, t);
  }

  lemma ValueFits(a: Bn)
    requires a.Valid()
    ensures a.Value() < Capacity()
  {
    hide Eval, Pow;
    NumNat(a.v[..a.n]);
    PowMonotone(a.n, MAX);
  }

  /** r := a - b mod m for reduced a and b; when a < b it forms a + (m - b), which stays below m. */
  method ModSub(r: Bn, a: Bn, b: Bn, m: Bn)
    requires r.Valid() && a.Valid() && b.Valid() && m.Valid()
    requires Separate(r, a) && Separate(r, b) && Separate(r, m)
    requires a.Value() < m.Value() && b.Value() < m.Value()
    modifies r, r.v
    ensures r.Valid() && r.Value() == old(a.Value() - b.Value()) % old(m.Value())
  {
    hide Eval, Bn.Value, Capacity;
    ghost var x, y, p := a.Value(), b.Value(), m.Value();
    var t := new Bn();
    var c := Cmp(a, b);
    if c >= 0 {
      Sub(t, a, b);
    } else {
      var u := new Bn();
      Sub(u, m, b);
      ValueFits(m);
      var code := Add(t, a, u);
      var d := Cmp(t, m);
      if d >= 0 {
        // the source subtracts m here, but a < b keeps a + (m - b) below m
        assert false;
      }
    }
    DifferenceReduced(x, y, p, t.Value());
    Copy(r, t);
  }

  lemma DifferenceReduced(x: int, y: int, p: int, t: int)
    requires 0 <= x < p && 0 <= y < p && t == (if x >= y then x - y else x - y + p)
    ensures t == (x - y) % p
  {
    DivModUnique(x - y, p, if x >= y then 0 else -1, t);
  }

  // ---------- exponentiation ----------

  /** Squaring, and multiplying by the base when the next bit is set. */
  lemma ExpStep(x: int, e: int, i: nat, m: int, b: int, acc: int, sq: int, acc': int)
    requires e >= 0 && m > 0 && b == x % m && Cong(acc, Pow(x, Shifted(e, i + 1)), m)
    requires sq == (acc * acc) % m && acc' == (if BitOf(e, i) == 1 then (sq * b) % m else sq)
    ensures Cong(acc', Pow(x, Shifted(e, i)), m) && 0 <= acc' < m
  {
    hide Pow, Shifted, BitOf, Mod;
    var k := Shifted(e, i + 1);
    ShiftStep(e, i);
    CongMul(acc, Pow(x, k), acc, Pow(x, k), m);
    CongMod(acc * acc, m);
    PowAdd(x, k, k);
    if BitOf(e, i) == 1 {
      CongMod(x, m);
      CongMul(sq, Pow(x, 2 * k), b, x, m);
      CongMod(sq * b, m);
      PowSucc(x, 2 * k);
    }
  }

  lemma PowSucc(x: int, k: nat)
    ensures Pow(x, k + 1) == Pow(x, k) * x
  {}

  /** One pass of the loop: acc := acc^2, times b when bit i of exp is set. */
  method ExpRound(acc: Bn, b: Bn, exp: Bn, m: Bn, i: nat, ghost x: int)
    requires acc.Valid() && b.Valid() && exp.Valid() && m.Valid() && m.Value() > 0
    requires acc.v != b.v && acc.v != exp.v && acc.v != m.v && acc != b && acc != exp && acc != m
    requires b.Value() == x % m.Value() && Cong(acc.Value(), Pow(x, Shifted(exp.Value(), i + 1)), m.Value())
    modifies acc, acc.v
    ensures acc.Valid() && acc.Value() < m.Value()
    ensures Cong(acc.Value(), Pow(x, Shifted(exp.Value(), i)), m.Value())
  {
    hide Eval, Pow, Shifted, BitOf, Mod, Bn.Value;
    ghost var a0 := acc.Value();
    ModMul(acc, acc, acc, m);
    ghost var sq := acc.Value();
    var bit := Bit(exp, i);
    if bit != 0 {
      ModMul(acc, acc, b, m);
    }
    ExpStep(x, exp.Value(), i, m.Value(), b.Value(), a0, sq, acc.Value());
  }

  /** r := base^exp mod m; an exponent of zero leaves 1, which only m = 1 tells apart. */
  method ModExp(r: Bn, base: Bn, exp: Bn, m: Bn)
    requires r.Valid() && base.Valid() && exp.Valid() && m.Valid()
    requires Separate(r, base) && Separate(r, exp) && Separate(r, m) && m.Value() > 0
    modifies r, r.v
    ensures r.Valid()
    ensures r.Value() == if old(exp.Value()) == 0 then 1 else Pow(old(base.Value()), old(exp.Value())) % old(m.Value())
  {
    hide Eval, Pow, Shifted, BitOf, Mod, Bn.Value;
    ghost var x, e, p := base.Value(), exp.Value(), m.Value();
    var acc := new Bn();
    var b := new Bn();
    FromU32(acc, 1);
    ModBn(b, base, m);
    var bits := Bitlen(exp);
    ShiftAll(e, bits);
    PowOf0(x);
    var i: int := bits as int - 1;
    while i >= 0
      modifies acc, acc.v
      invariant -1 <= i < bits && acc.Valid()
      invariant Cong(acc.Value(), Pow(x, Shifted(e, i + 1)), p)
      invariant if i + 1 == bits then acc.Value() == 1 else acc.Value() < p
    {
      ExpRound(acc, b, exp, m, i, x);
      i := i - 1;
    }
    ExpResult(x, e, bits, p, acc.Value());
    Copy(r, acc);
  }

  lemma PowOf0(x: int)
    ensures Pow(x, 0) == 1
  {}

  lemma ExpResult(x: int, e: int, bits: nat, p: int, acc: int)
    requires e >= 0 && p > 0 && HasBits(e, bits) && acc >= 0 && Cong(acc, Pow(x, Shifted(e, 0)), p)
    requires if bits == 0 then acc == 1 else acc < p
    ensures acc == if e == 0 then 1 else Pow(x, e) % p
  {
    hide Shifted, Mod;
    ShiftZero(e);
    CongResidue(acc, Pow(x, e), p);
    assert Pow(2, 0) == 1;
    if bits > 0 {
      PowPositive(2, bits - 1);
      hide Pow;
      DivModUnique(acc, p, 0, acc);
    }
  }
}
