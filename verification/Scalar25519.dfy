/** Scalars modulo the order L of the base point: lazy signed reduction and the range check. */
module Scalar25519 {
  import opened Arith
  import opened Radix

  const L: int := 0x1000_0000_0000_0000_0000_0000_0000_0000_14de_f9de_a2f7_9cd6_5812_631a_5cf5_d3ed
  const TWO256: int := 0x1_0000_0000_0000_0000_0000_0000_0000_0000_0000_0000_0000_0000_0000_0000_0000_0000

  const L_LOW: seq<byte> := [0xed, 0xd3, 0xf5, 0x5c, 0x1a, 0x63, 0x12, 0x58]
  const L_HIGH: seq<byte> := [0xd6, 0x9c, 0xf7, 0xa2, 0xde, 0xf9, 0xde, 0x14]

  /** The twenty bytes of L below bit 160; the other bytes only hold bit 252. */
  function LDelta(): (s: seq<byte>)
    ensures |s| == 20 && forall k :: 16 <= k < 20 ==> s[k] == 0
  {
    L_LOW + L_HIGH + Zeros(4)
  }

  /** L as bytes, least significant first. */
  function LBytes(): (s: seq<byte>)
    ensures |s| == 32 && s[31] == 16 && forall k :: 16 <= k < 31 ==> s[k] == 0
  {
    LDelta() + (Zeros(11) + [0x10])
  }

  lemma PowValues()
    ensures Pow(256, 16) == 0x1_0000_0000_0000_0000_0000_0000_0000_0000
    ensures Pow(256, 31) == TWO256 / 256
    ensures Pow(256, 32) == TWO256
  {
    assert Pow(256, 8) == 0x1_0000_0000_0000_0000;
    hide Pow;
    PowAdd(256, 8, 8);
    PowAdd(256, 16, 16);
    PowStep(31);
  }

  lemma PowStep(n: nat)
    ensures Pow(256, n + 1) == 256 * Pow(256, n)
  {}

  /** The low half of L: its top half is just bit 252. */
  const DELTA: int := 0x14de_f9de_a2f7_9cd6_5812_631a_5cf5_d3ed

  lemma LTop()
    ensures Eval(Zeros(11) + [0x10], 256) == Pow(256, 11) * 16
  {
    EvalConcat(Zeros(11), [0x10], 256);
    EvalZeros(Zeros(11), 256);
    assert Eval([0x10], 256) == 16;
  }

  lemma LDeltaValue()
    ensures Eval(LDelta(), 256) == DELTA
  {
    LLow();
    EvalConcat(L_LOW + L_HIGH, Zeros(4), 256);
    EvalZeros(Zeros(4), 256);
  }

  lemma LValue()
    ensures LBytes()[..20] == LDelta()
    ensures Eval(LBytes(), 256) == L
  {
    LDeltaValue();
    EvalConcat(LDelta(), Zeros(11) + [0x10], 256);
    hide Eval, LDelta, Pow;
    LTop();
    PowHalf();
    MulEq(Pow(256, 20), Eval(Zeros(11) + [0x10], 256), Pow(256, 11) * 16);
  }

  lemma PowHalf()
    ensures Pow(256, 20) * (Pow(256, 11) * 16) == L - DELTA
  {
    PowValues();
    PowAdd(256, 20, 11);
  }

  lemma LLow()
    ensures |L_LOW + L_HIGH| == 16
    ensures Eval(L_LOW + L_HIGH, 256) == DELTA
  {
    EvalConcat(L_LOW, L_HIGH, 256);
    assert Eval(L_LOW, 256) == 0x5812_631a_5cf5_d3ed;
    assert Eval(L_HIGH, 256) == 0x14de_f9de_a2f7_9cd6;
    assert Pow(256, 8) == 0x1_0000_0000_0000_0000;
  }

  // ---------- one elimination round ----------

  /** Digit x with incoming carry and c*l subtracted leaves x' and sends out carry'. */
  lemma DigitStep(e: int, p: int, e0: int, c: int, w: int, el: int, pj: int, x: int, l: int, carry: int, x': int, carry': int)
    requires e + carry * p == e0 - c * (w * el) && p == w * pj
    requires x' + 256 * carry' == x + carry - c * l
    ensures (e + p * x') + carry' * (256 * p) == (e0 + p * x) - c * (w * (el + pj * l))
  {
    MulEq(p, x' + 256 * carry', x + carry - c * l);
    MulDistr(p, x', 256 * carry');
    MulDistr(p, x + carry, -(c * l));
    MulDistr(p, x, carry);
    MulDistr(w, el, pj * l);
    MulDistr(c, w * el, w * (pj * l));
    MulEq(c * l, p, w * pj);
  }

  /** The digits x[..j] of the eliminated sequence X, with a pending carry into digit j. */
  ghost predicate Eliminated(X: seq<int>, x: seq<int>, low: nat, j: nat, c: int, carry: int) {
    && |X| == |x| == 64 && low <= j <= low + 32 <= 64
    && (forall k :: 0 <= k < low || j <= k < 64 ==> x[k] == X[k])
    && Eval(x[..j], 256) + carry * Pow(256, j) == Eval(X[..j], 256) - c * (Pow(256, low) * Eval(LBytes()[..j - low], 256))
  }

  lemma EliminatedStart(X: seq<int>, low: nat, c: int)
    requires |X| == 64 && low <= 32
    ensures Eliminated(X, X, low, low, c, 0)
  {
    assert LBytes()[..0] == [];
  }

  lemma EliminatedStep(X: seq<int>, x: seq<int>, low: nat, j: nat, c: int, carry: int, v: int, carry': int)
    requires Eliminated(X, x, low, j, c, carry) && j < low + 32
    requires v + 256 * carry' == X[j] + carry - c * LBytes()[j - low]
    ensures Eliminated(X, x[j := v], low, j + 1, c, carry')
  {
    hide LBytes, Eval;
    var x' := x[j := v];
    var l := LBytes();
    EvalSnoc(x', j, 256);
    EvalSnoc(X, j, 256);
    EvalSnoc(l, j - low, 256);
    assert x'[..j] == x[..j];
    PowAdd(256, low, j - low);
    PowStep(j);
    hide Pow;
    DigitStep(Eval(x[..j], 256), Pow(256, j), Eval(X[..j], 256), c, Pow(256, low), Eval(l[..j - low], 256), Pow(256, j - low),
      X[j], l[j - low], carry, v, carry');
    MulEq(c, Pow(256, low) * Eval(l[..j + 1 - low], 256), Pow(256, low) * (Eval(l[..j - low], 256) + Pow(256, j - low) * l[j - low]));
  }

  /** Digits from low+20 up are unchanged, so the two values differ by what the low digits lost. */
  lemma LowDifference(X: seq<int>, x: seq<int>, low: nat, c: int, carry: int)
    requires low < 32 && Eliminated(X, x, low, low + 20, c, carry)
    ensures Eval(x, 256) + carry * Pow(256, low + 20) == Eval(X, 256) - c * (Pow(256, low) * DELTA)
  {
    var m := low + 20;
    EvalSplit(x, m, 256);
    EvalSplit(X, m, 256);
    assert x[m..] == X[m..];
    LValue();
    LDeltaValue();
    hide Pow, Eval, LBytes;
    MulEq(Pow(256, low), Eval(LBytes()[..20], 256), DELTA);
    MulEq(c, Pow(256, low) * Eval(LBytes()[..20], 256), Pow(256, low) * DELTA);
  }

  /** Digit low+32 is worth 16 L minus the low bytes of L, shifted by low digits. */
  lemma RoundValue(X: seq<int>, x: seq<int>, low: nat, q: int, c: int, carry: int, step: int)
    requires low < 32 && Eliminated(X, x, low, low + 20, c, carry) && q == X[low + 32] && c == 16 * q
    requires step == x[low + 20] + carry
    ensures Cong(Eval(x[low + 20 := step][low + 32 := 0], 256), Eval(X, 256), L)
  {
    hide Eval, Pow, Mod, LBytes;
    var z := x[low + 20 := step];
    var y := z[low + 32 := 0];
    LowDifference(X, x, low, c, carry);
    EvalUpdate(x, low + 20, step, 256);
    EvalUpdate(z, low + 32, 0, 256);
    assert z[low + 32] == q;
    hide *;
    PowAdd(256, low, 32);
    PowValues();
    RoundArith(Pow(256, low), q, c, Pow(256, low + 32), carry, Pow(256, low + 20),
      step - x[low + 20], 0 - q, Eval(x, 256), Eval(X, 256), Eval(y, 256));
    CongFrom(Eval(y, 256), Eval(X, 256), -(c * Pow(256, low)), L);
  }

  lemma RoundArith(w: int, q: int, c: int, top: int, carry: int, p: int, up: int, down: int, e: int, e0: int, e': int)
    requires top == w * TWO256 && up == carry && c == 16 * q && down == -q
    requires e + carry * p == e0 - c * (w * DELTA)
    requires e' == e + up * p + down * top
    ensures e' == e0 + -(c * w) * L
  {
    MulEq(p, up, carry);
    MulEq(top, down, -q);
    MulEq(q, top, w * TWO256);
    MulEq(w, c, 16 * q);
  }

  // ---------- digit ranges between rounds ----------

  /** What holds before digit i is eliminated: untouched bytes, balanced digits, and small tops. */
  ghost predicate Shape(x: seq<int>, i: int) {
    && |x| == 64 && 31 <= i <= 63
    && (forall k :: i < k < 64 ==> x[k] == 0)
    && (forall k :: 0 <= k < 64 && (i == 63 || k < i - 31) ==> 0 <= x[k] <= 255)
    && (i < 63 ==> forall k :: i - 31 <= k <= i - 12 ==> -128 <= x[k] <= 127)
    && (i < 63 ==> forall k :: i - 12 < k <= i ==> -130 <= x[k] <= (if k <= 50 then 129 else 257))
  }

  /** Largest carry after n digits of a round: the last four bytes of L's low part are zero. */
  function CarryMax(n: nat): int {
    if n == 0 then 0 else if n <= 16 then 4200 else if n == 17 then 19 else 2
  }

  lemma CarryRange(x: int, product: int, n: nat, carry: int, carry': int)
    requires n < 20 && -130 <= x <= 257
    requires if n >= 16 then product == 0 else -530400 <= product <= 1048560
    requires -CarryMax(n) <= carry <= CarryMax(n)
    requires carry' == (x + carry - product + 128) / 256
    ensures -CarryMax(n + 1) <= carry' <= CarryMax(n + 1)
    ensures -128 <= x + carry - product - 256 * carry' <= 127
  {
  }

  lemma ProductRange(q: int, l: int)
    requires -130 <= q <= 257 && 0 <= l <= 255
    ensures -530400 <= 16 * q * l <= 1048560
  {
    MulLe(-130, q, l);
    MulLe(q, 257, l);
  }

  lemma ShapeStep(x: seq<int>, i: int, y: seq<int>)
    requires Shape(x, i) && i >= 32 && |y| == 64
    requires forall k :: i - 32 <= k < i - 12 ==> -128 <= y[k] <= 127
    requires x[i - 12] - 2 <= y[i - 12] <= x[i - 12] + 2
    requires y[i] == 0
    requires forall k :: 0 <= k < 64 && (k < i - 32 || k > i - 12) && k != i ==> y[k] == x[k]
    ensures Shape(y, i - 1)
  {
  }

  /** One digit of a round: x[j] - 16 x[i] L[n] with the carry, balanced to [-128, 128). */
  method BalanceDigit(x: array<int64>, i: int, j: int, n: nat, carry: int64) returns (carry': int64)
    requires x.Length == 64 && 0 <= j < i < 64 && n < 20
    requires -130 <= x[j] <= 257 && -130 <= x[i] <= 257 && -CarryMax(n) <= carry <= CarryMax(n)
    modifies x
    ensures -CarryMax(n + 1) <= carry' <= CarryMax(n + 1) && -128 <= x[j] <= 127
    ensures x[j] + 256 * carry' == old(x[j]) + carry - 16 * old(x[i]) * LBytes()[n]
    ensures x[..] == old(x[..])[j := x[j]]
  {
    var l: int := LBytes()[n];
    ProductRange(x[i], l);
    var product: int64 := 16 * x[i] * l;
    if n >= 16 {
      MulEq(16 * x[i], l, 0);
    }
    CarryRange(x[j], product, n, carry, (x[j] + carry - product + 128) / 256);
    x[j] := x[j] + (carry - product);
    carry' := (x[j] + 128) / 256;
    x[j] := x[j] - carry' * 256;
  }

  /** Eliminates digit i: subtracts 16 x[i] L shifted by i-32 digits, with balanced carries. */
  method EliminateDigit(x: array<int64>, i: int)
    requires x.Length == 64 && 32 <= i <= 63 && Shape(x[..], i)
    modifies x
    ensures Shape(x[..], i - 1)
    ensures Cong(Eval(x[..], 256), Eval(old(x[..]), 256), L)
  {
    hide Eval, Pow, Mod, LBytes;
    ghost var X: seq<int> := x[..];
    ghost var q: int, c: int := X[i], 16 * X[i];
    var carry: int64 := 0;
    var j := i - 32;
    EliminatedStart(X, i - 32, c);
    while j < i - 12
      invariant i - 32 <= j <= i - 12
      invariant Eliminated(X, x[..], i - 32, j, c, carry)
      invariant -CarryMax(j - (i - 32)) <= carry <= CarryMax(j - (i - 32))
      invariant forall k :: i - 32 <= k < j ==> -128 <= x[k] <= 127
    {
      ghost var s: seq<int> := x[..];
      assert x[i] == q && x[j] == X[j] && -130 <= X[j] <= 257;
      var carry' := BalanceDigit(x, i, j, j - (i - 32), carry);
      EliminatedStep(X, s, i - 32, j, c, carry, x[j], carry');
      carry := carry';
      j := j + 1;
    }
    ghost var s: seq<int> := x[..];
    x[j] := x[j] + carry;
    x[i] := 0;
    RoundValue(X, s, i - 32, q, c, carry, s[i - 12] + carry);
    assert x[..] == s[i - 12 := s[i - 12] + carry][i := 0];
    ShapeStep(X, i, x[..]);
  }

  // ---------- the last reduction ----------

  /** Quotient of the top digit by 16, which is within one of the quotient by L. */
  lemma TopQuotient(x: seq<int>, q: int)
    requires |x| == 32 && (forall k :: 0 <= k < 32 ==> -130 <= x[k] <= 129) && q == x[31] / 16
    ensures -L < Eval(x, 256) - q * L < L
  {
    hide Pow, Eval;
    EvalSnoc(x, 31, 256);
    assert x[..32] == x;
    SmallDigits(x[..31]);
    PowValues();
    MulDistr(q, 16 * Pow(256, 31), DELTA);
  }

  lemma {:induction false} SmallDigits(s: seq<int>)
    requires forall k :: 0 <= k < |s| ==> -130 <= s[k] <= 130
    ensures -130 * (Pow(256, |s|) - 1) <= 255 * Eval(s, 256) <= 130 * (Pow(256, |s|) - 1)
  {
    if |s| > 0 {
      SmallDigits(s[1..]);
    }
  }

  /** First pass: subtracts q L and leaves bytes with one final carry. */
  method SubtractQuotient(x: array<int64>) returns (carry: int64)
    requires x.Length == 64 && forall k :: 0 <= k < 32 ==> -130 <= x[k] <= 129
    modifies x
    ensures forall k :: 0 <= k < 32 ==> 0 <= x[k] <= 255
    ensures x[32..] == old(x[32..])
    ensures Eval(x[..32], 256) + carry * TWO256 == old(Eval(x[..32], 256) - (x[31] / 16) * L)
  {
    hide Eval, LBytes, Mod, Pow;
    ghost var X: seq<int> := x[..];
    ghost var q := X[31] / 16;
    carry := 0;
    EliminatedStart(X, 0, q);
    var j := 0;
    while j < 32
      invariant 0 <= j <= 32 && -30 <= carry <= 30
      invariant Eliminated(X, x[..], 0, j, q, carry)
      invariant forall k :: 0 <= k < j ==> 0 <= x[k] <= 255
    {
      ghost var s: seq<int> := x[..];
      var l: int := LBytes()[j];
      QuotientRange(q, l);
      assert x[31] == X[31] && x[j] == X[j];
      x[j] := x[j] + (carry - (x[31] / 16) * l);
      ghost var before := carry;
      carry := x[j] / 256;
      x[j] := x[j] % 256;
      EliminatedStep(X, s, 0, j, q, before, x[j], carry);
      assert x[..] == s[j := x[j]];
      j := j + 1;
    }
    FullElimination(X, x[..], q, carry);
    assert X[..32] == old(x[..32]);
  }

  lemma QuotientRange(q: int, l: int)
    requires -9 <= q <= 8 && 0 <= l <= 255
    ensures -9 * 255 <= q * l <= 8 * 255
  {
    MulLe(-9, q, l);
    MulLe(q, 8, l);
  }

  lemma FullElimination(X: seq<int>, x: seq<int>, q: int, carry: int)
    requires Eliminated(X, x, 0, 32, q, carry)
    ensures Eval(x[..32], 256) + carry * TWO256 == Eval(X[..32], 256) - q * L
    ensures x[32..] == X[32..]
  {
    hide Eval, LBytes;
    LValue();
    assert LBytes()[..32] == LBytes();
    assert Pow(256, 0) == 1;
    PowValues();
    hide Pow;
    MulEq(carry, Pow(256, 32), TWO256);
    MulEq(q, Pow(256, 0) * Eval(LBytes()[..32], 256), L);
  }

  /** Second pass: adds L back when the first pass went below zero. */
  method AddBack(x: array<int64>, carry: int64)
    requires x.Length == 64 && -1 <= carry <= 0 && forall k :: 0 <= k < 32 ==> 0 <= x[k] <= 255
    modifies x
    ensures forall k :: 0 <= k < 32 ==> 0 <= x[k] <= 510
    ensures x[32..] == old(x[32..])
    ensures Eval(x[..32], 256) == old(Eval(x[..32], 256)) - carry * L
  {
    hide Eval, LBytes;
    ghost var X: seq<int> := x[..];
    var j := 0;
    while j < 32
      invariant 0 <= j <= 32 && x[32..] == X[32..]
      invariant forall k :: j <= k < 32 ==> x[k] == X[k]
      invariant forall k :: 0 <= k < j ==> x[k] == X[k] + -carry * LBytes()[k]
    {
      var l: int := LBytes()[j];
      x[j] := x[j] - carry * l;
      j := j + 1;
    }
    EvalAddScaled(X[..32], LBytes(), x[..32], -carry, 256);
    LValue();
    MulEq(-carry, Eval(LBytes(), 256), L);
    assert X[..32] == old(x[..32]);
  }

  /** Digits r and a pending carry that together denote the first n digits of y. */
  ghost predicate Propagated(y: seq<int>, r: seq<int>, n: nat, carry: int) {
    && n <= |y| && n <= |r|
    && Eval(r[..n], 256) + carry * Pow(256, n) == Eval(y[..n], 256)
  }

  lemma PropagateStep(y: seq<int>, r: seq<int>, n: nat, carry: int, v: int, carry': int)
    requires Propagated(y, r, n, carry) && n < |y| && n < |r| && v + 256 * carry' == y[n] + carry
    ensures Propagated(y, r[n := v], n + 1, carry')
  {
    hide Eval;
    EvalSnoc(r[n := v], n, 256);
    EvalSnoc(y, n, 256);
    assert r[n := v][..n] == r[..n];
    PowStep(n);
    hide Pow;
    DigitStep(Eval(r[..n], 256), Pow(256, n), Eval(y[..n], 256), 0, 1, 0, Pow(256, n), y[n], 0, carry, v, carry');
  }

  /** Third pass: carries up and writes the bytes. */
  method WriteBytes(r: array<byte>, x: array<int64>)
    requires x.Length == 64 && r.Length >= 32 && x[32] == 0
    requires forall k :: 0 <= k < 32 ==> 0 <= x[k] <= 510
    modifies r, x
    ensures r[32..] == old(r[32..])
    ensures Eval(r[..32], 256) == old(Eval(x[..32], 256)) % TWO256
  {
    hide Eval, Pow;
    ghost var y: seq<int> := x[..32];
    ghost var carry := 0;
    var i := 0;
    assert Propagated(y, r[..], 0, 0) by { assert r[..][..0] == y[..0]; }
    while i < 32
      invariant 0 <= i <= 32 && 0 <= carry <= 2
      invariant forall k :: i < k < 32 ==> x[k] == y[k]
      invariant i < 32 ==> x[32] == 0
      invariant x[i] == (if i < 32 then y[i] else 0) + carry
      invariant r[32..] == old(r[32..])
      invariant Propagated(y, r[..], i, carry)
    {
      ghost var s: seq<int> := r[..];
      x[i + 1] := x[i + 1] + x[i] / 256;
      r[i] := x[i] % 256;
      PropagateStep(y, s, i, carry, r[i], x[i] / 256);
      assert r[..] == s[i := r[i]];
      carry := x[i] / 256;
      i := i + 1;
    }
    assert r[..][..32] == r[..32] && y[..32] == y;
    EvalBound(r[..32], 256);
    PowValues();
    MulEq(carry, Pow(256, 32), TWO256);
    DivModUnique(Eval(y, 256), TWO256, carry, Eval(r[..32], 256));
  }

  /** r[..32] := x mod L for 64 byte digits x, fully reduced. */
  method ModL(r: array<byte>, x: array<int64>)
    requires x.Length == 64 && r.Length >= 32
    requires forall k :: 0 <= k < 64 ==> 0 <= x[k] <= 255
    modifies r, x
    ensures r[32..] == old(r[32..])
    ensures Eval(r[..32], 256) == old(Eval(x[..], 256)) % L
  {
    hide Eval, Pow, Mod, LBytes;
    ghost var X := Eval(x[..], 256);
    var i := 63;
    while i >= 32
      invariant 31 <= i <= 63 && Shape(x[..], i)
      invariant Cong(Eval(x[..], 256), X, L)
      invariant r[..] == old(r[..])
    {
      EliminateDigit(x, i);
      i := i - 1;
    }
    ghost var low: seq<int> := x[..32];
    LowOnly(x[..]);
    TopQuotient(low, low[31] / 16);
    var carry := SubtractQuotient(x);
    ghost var after: seq<int> := x[..32];
    EvalBound(after, 256);
    PowValues();
    AddBack(x, carry);
    ghost var back := Eval(x[..32], 256);
    WriteBytes(r, x);
    FinalValue(X, Eval(low, 256), low[31] / 16, Eval(after, 256), carry, back, Eval(r[..32], 256));
  }

  lemma LowOnly(x: seq<int>)
    requires |x| == 64 && forall k :: 32 <= k < 64 ==> x[k] == 0
    ensures Eval(x[..32], 256) == Eval(x, 256)
  {
    EvalSplit(x, 32, 256);
    EvalZeros(x[32..], 256);
  }

  lemma FinalValue(X: int, low: int, q: int, after: int, carry: int, back: int, r: int)
    requires Cong(low, X, L) && -L < low - q * L < L
    requires after + carry * TWO256 == low - q * L && 0 <= after < TWO256
    requires back == after - carry * L && r == back % TWO256
    ensures r == X % L
  {
    hide Mod;
    CongResidue(low, X, L);
    var v := low - q * L;
    assert carry == if v < 0 then -1 else 0;
    var w := v - carry * L;
    DivModUnique(back, TWO256, -carry, w);
    CongFrom(w, low, -q - carry, L);
    CongResidue(w, low, L);
    DivModUnique(w, L, 0, w);
  }

  /** Reduces a 64-byte value modulo L into its first 32 bytes and clears the rest. */
  method Reduce64(r: array<byte>)
    requires r.Length == 64
    modifies r
    ensures Eval(r[..32], 256) == old(Eval(r[..], 256)) % L
    ensures Eval(r[..], 256) == Eval(r[..32], 256)
    ensures forall k :: 32 <= k < 64 ==> r[k] == 0
  {
    hide Eval;
    var x := new int64[64](_ => 0);
    var i := 0;
    while i < 64
      invariant 0 <= i <= 64 && r[..] == old(r[..])
      invariant forall k :: 0 <= k < i ==> x[k] == r[k]
    {
      x[i] := r[i];
      i := i + 1;
    }
    assert x[..] == r[..];
    ModL(r, x);
    ghost var low: seq<int> := r[..32];
    i := 32;
    while i < 64
      invariant 32 <= i <= 64 && r[..32] == low
      invariant forall k :: 32 <= k < i ==> r[k] == 0
    {
      r[i] := 0;
      i := i + 1;
    }
    LowOnly(r[..]);
    assert r[..][..32] == low;
  }

  // ---------- range check ----------

  /** 1 exactly when the 32 bytes denote a number below L. */
  method IsCanonical(s: seq<byte>) returns (r: int)
    requires |s| == 32
    ensures r == if Eval(s, 256) < L then 1 else 0
  {
    hide Eval;
    LValue();
    var l := LBytes();
    var i := 31;
    while i >= 0
      invariant -1 <= i <= 31 && s[i + 1..] == l[i + 1..]
    {
      if s[i] < l[i] {
        TopDifference(s, l, i, 256);
        return 1;
      }
      if s[i] > l[i] {
        TopDifference(l, s, i, 256);
        return 0;
      }
      i := i - 1;
    }
    assert s == l;
    return 0;
  }
}
