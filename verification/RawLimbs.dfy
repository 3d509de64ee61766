/** Limb loops of the big-number engine: schoolbook product, comparison, subtraction, binary division. */
module RawLimbs {
  import opened Arith
  import opened Radix
  import opened Bits

  /** The number in the first n limbs. */
  function Num(s: seq<int>): int { Eval(s, B32) }

  lemma NumNat(s: seq<uint32>)
    ensures 0 <= Num(s) < Pow(B32, |s|)
  {
    EvalBound(s, B32);
  }

  lemma PowB32Step(n: nat)
    ensures Pow(B32, n + 1) == B32 * Pow(B32, n)
  {}

  // ---------- product ----------

  /** One limb product taken into column i+j, with the pending carry moved up. */
  lemma ProductStep(lo: int, x: int, y: int, p: int, q: int, pq: int, prev: int, next: int, e: int, u: int, v: int, e': int, carry: int, carry': int)
    requires pq == p * q && next == prev + q * y && e + carry * pq == lo + (x * p) * prev
    requires v + B32 * carry' == x * y + u + carry && e' == e + (v - u) * pq
    ensures e' + carry' * (B32 * pq) == lo + (x * p) * next
  {
    MulEq(pq, v - u + B32 * carry', x * y + carry);
    MulDistr(pq, v - u, B32 * carry');
    MulDistr(pq, x * y, carry);
    MulEq(x * y, pq, p * q);
    MulEq(x * p, next, prev + q * y);
    MulDistr(x * p, prev, q * y);
    ProductSwap(x, p, q, y);
  }

  lemma ProductSwap(x: int, p: int, q: int, y: int)
    ensures (x * p) * (q * y) == (x * y) * (p * q)
  {}

  /** Row i in progress: the columns plus the carry hold A[..i] B and the part A[i] B[..j]. */
  ghost predicate RowPart(out: seq<int>, A: seq<int>, B: seq<int>, i: nat, j: nat, carry: int) {
    && i < |A| && j <= |B| && |out| == |A| + |B|
    && (forall k :: i + |B| <= k < |out| ==> out[k] == 0)
    && Num(out) + carry * Pow(B32, i + j) == Num(A[..i]) * Num(B) + (A[i] * Pow(B32, i)) * Num(B[..j])
  }

  lemma RowStep(out: seq<int>, A: seq<int>, B: seq<int>, i: nat, j: nat, carry: int, v: int, carry': int)
    requires RowPart(out, A, B, i, j, carry) && j < |B|
    requires v + B32 * carry' == A[i] * B[j] + out[i + j] + carry
    ensures RowPart(out[i + j := v], A, B, i, j + 1, carry')
  {
    hide Eval;
    EvalUpdate(out, i + j, v, B32);
    EvalSnoc(B, j, B32);
    PowAdd(B32, i, j);
    PowB32Step(i + j);
    hide Pow;
    ProductStep(Num(A[..i]) * Num(B), A[i], B[j], Pow(B32, i), Pow(B32, j), Pow(B32, i + j), Num(B[..j]), Num(B[..j + 1]),
      Num(out), out[i + j], v, Num(out[i + j := v]), carry, carry');
  }

  /** The last carry goes into the first untouched column. */
  lemma RowEnd(out: seq<int>, A: seq<int>, B: seq<int>, i: nat, carry: int)
    requires RowPart(out, A, B, i, |B|, carry)
    ensures var done := out[i + |B| := carry];
            && Num(done) == Num(A[..i + 1]) * Num(B)
            && forall k :: i + 1 + |B| <= k < |done| ==> done[k] == 0
  {
    hide Eval;
    EvalUpdate(out, i + |B|, carry, B32);
    EvalSnoc(A, i, B32);
    assert B[..|B|] == B;
    RowEndArith(Num(A[..i]), A[i], Pow(B32, i), Num(B), Num(A[..i + 1]));
  }

  lemma RowEndArith(a: int, x: int, p: int, b: int, a': int)
    requires a' == a + p * x
    ensures a * b + (x * p) * b == a' * b
  {
    MulEq(b, a', a + p * x);
    MulDistr(b, a, p * x);
  }

  lemma LimbProduct(x: uint32, y: uint32, u: uint32, carry: uint32)
    ensures 0 <= x * y + u + carry < B64
  {
    MulLe(0, x, y);
    MulLe(x, 0xffff_ffff, y);
  }

  method MulRow(out: array<uint32>, a: array<uint32>, an: nat, b: array<uint32>, bn: nat, i: nat)
    requires an <= a.Length && bn <= b.Length && i < an && an + bn <= out.Length && out != a && out != b
    requires Num(out[..an + bn]) == Num(a[..i]) * Num(b[..bn])
    requires forall k :: i + bn <= k < an + bn ==> out[k] == 0
    modifies out
    ensures Num(out[..an + bn]) == Num(a[..i + 1]) * Num(b[..bn])
    ensures forall k :: i + 1 + bn <= k < an + bn ==> out[k] == 0
  {
    hide Eval, Pow;
    ghost var A: seq<int>, B: seq<int> := a[..an], b[..bn];
    var carry: uint64 := 0;
    var ai: uint64 := a[i];
    var j := 0;
    assert A[..i] == a[..i];
    RowStart(out[..an + bn], A, B, i);
    while j < bn
      invariant 0 <= j <= bn && 0 <= carry < B32
      invariant a[..an] == A && b[..bn] == B
      invariant RowPart(out[..an + bn], A, B, i, j, carry)
    {
      ghost var s: seq<int> := out[..an + bn];
      LimbProduct(A[i], B[j], out[i + j], carry);
      var t: uint64 := ai * b[j] + out[i + j] + carry;
      out[i + j] := t % B32;
      assert out[..an + bn] == s[i + j := t % B32];
      RowStep(s, A, B, i, j, carry, t % B32, t / B32);
      carry := t / B32;
      j := j + 1;
    }
    ghost var s: seq<int> := out[..an + bn];
    RowEnd(s, A, B, i, carry);
    out[i + bn] := carry;
    assert out[..an + bn] == s[i + bn := carry];
    assert A[..i + 1] == a[..i + 1];
  }

  lemma RowStart(out: seq<int>, A: seq<int>, B: seq<int>, i: nat)
    requires i < |A| && |out| == |A| + |B| && Num(out) == Num(A[..i]) * Num(B)
    requires forall k :: i + |B| <= k < |out| ==> out[k] == 0
    ensures RowPart(out, A, B, i, 0, 0)
  {
    assert Num(B[..0]) == 0;
  }

  /** out[..an+bn] := a[..an] * b[..bn]; no 64-bit sum overflows. */
  method RawMul(a: array<uint32>, an: nat, b: array<uint32>, bn: nat, out: array<uint32>)
    requires an <= a.Length && bn <= b.Length && an + bn <= out.Length && out != a && out != b
    modifies out
    ensures Num(out[..an + bn]) == Num(a[..an]) * Num(b[..bn])
  {
    hide Eval, Pow;
    var i := 0;
    while i < an + bn
      invariant 0 <= i <= an + bn
      invariant forall k :: 0 <= k < i ==> out[k] == 0
    {
      out[i] := 0;
      i := i + 1;
    }
    EvalZeros(out[..an + bn], B32);
    assert Num(a[..0]) == 0 by { EvalZeros(a[..0], B32); }
    i := 0;
    while i < an
      invariant 0 <= i <= an
      invariant Num(out[..an + bn]) == Num(a[..i]) * Num(b[..bn])
      invariant forall k :: i + bn <= k < an + bn ==> out[k] == 0
    {
      MulRow(out, a, an, b, bn, i);
      i := i + 1;
    }
  }

  // ---------- bit length ----------

  /** n has exactly `bits` bits; zero has none. */
  ghost predicate HasBits(n: int, bits: int) {
    bits >= 0 && 0 <= n < Pow(2, bits) && (bits > 0 ==> Pow(2, bits - 1) <= n)
  }

  lemma ShiftPositive(n: int, i: nat)
    requires n >= 0
    ensures Shifted(n, i) > 0 <==> n >= Pow(2, i)
  {
    PowPositive(2, i);
    if n < Pow(2, i) {
      ShiftAll(n, i);
    } else {
      var p := Pow(2, i);
      assert n == p * (n / p) + n % p;
      if n / p <= 0 {
        MulLe(n / p, 0, p);
      }
    }
  }

  lemma ShiftHalf(n: int, i: nat)
    requires n >= 0
    ensures Shifted(n, i) / 2 == Shifted(n, i + 1)
  {
    ShiftStep(n, i);
  }

  /** while (x != 0) { x >>= 1; b++; } */
  method WordBits(word: uint32) returns (b: nat)
    requires word > 0
    ensures 0 < b <= 32 && HasBits(word, b)
  {
    hide Pow, Shifted;
    var x: int := word;
    b := 0;
    ShiftZero(word);
    assert Pow(2, 32) == B32 by { PowMul(2, 16, 2); TwoTo16(); }
    while x != 0
      invariant 0 <= b <= 32 && x == Shifted(word, b)
      invariant b > 0 ==> word >= Pow(2, b - 1)
      decreases x
    {
      ShiftPositive(word, b);
      if b == 32 {
        assert false;
      }
      ShiftHalf(word, b);
      x := x / 2;
      b := b + 1;
    }
    ShiftPositive(word, b);
  }

  lemma TwoTo16()
    ensures Pow(2, 16) == 0x1_0000 && Pow(0x1_0000, 2) == B32
  {
    assert Pow(2, 8) == 256;
    PowAdd(2, 8, 8);
  }

  lemma PowB32(i: nat)
    ensures Pow(B32, i) == Pow(2, 32 * i)
  {
    TwoTo16();
    PowMul(2, 16, 2);
    PowMul(2, 32, i);
  }

  /** Bits of the top limb plus 32 for every limb below it. */
  lemma LimbBits(s: seq<int>, i: nat, b: nat)
    requires Digits(s, B32) && i < |s| && 0 < b && HasBits(s[i], b)
    requires forall k :: i < k < |s| ==> s[k] == 0
    ensures HasBits(Num(s), 32 * i + b)
  {
    EvalSplit(s, i + 1, B32);
    EvalZeros(s[i + 1..], B32);
    EvalSnoc(s, i, B32);
    EvalBound(s[..i], B32);
    hide Eval, Pow;
    MulEq(Pow(B32, i + 1), Num(s[i + 1..]), 0);
    PowB32(i);
    PowAdd(2, 32 * i, b);
    PowAdd(2, 32 * i, b - 1);
    BitsArith(Num(s[..i]), Pow(B32, i), s[i], Pow(2, b), Pow(2, b - 1));
  }

  lemma BitsArith(low: int, p: int, x: int, top: int, half: int)
    requires 0 <= low < p && half <= x < top
    ensures p * half <= low + p * x < p * top
  {
    MulLe(half, x, p);
    MulLe(x + 1, top, p);
    MulDistr(p, x, 1);
  }

  method RawBitlen(a: array<uint32>, an: nat) returns (bits: nat)
    requires an <= a.Length
    ensures bits <= 32 * an && HasBits(Num(a[..an]), bits)
  {
    hide Eval, Pow;
    var i := an - 1;
    while i >= 0
      invariant -1 <= i < an
      invariant forall k :: i < k < an ==> a[k] == 0
    {
      if a[i] != 0 {
        var b := WordBits(a[i]);
        LimbBits(a[..an], i, b);
        return i * 32 + b;
      }
      i := i - 1;
    }
    EvalZeros(a[..an], B32);
    assert Pow(2, 0) == 1 by { PowZero(); }
    return 0;
  }

  lemma PowZero()
    ensures Pow(2, 0) == 1
  {}

  // ---------- comparison and subtraction over one extra limb ----------

  function Sign(x: int): int {
    if x > 0 then 1 else if x == 0 then 0 else -1
  }

  /** The first differing limb from the top decides. */
  method LimbCmp(a: array<uint32>, b: array<uint32>, n: nat) returns (c: int)
    requires n <= a.Length && n <= b.Length
    ensures c == Sign(Num(a[..n]) - Num(b[..n]))
  {
    hide Eval;
    var i := n - 1;
    while i >= 0
      invariant -1 <= i < n
      invariant a[i + 1..n] == b[i + 1..n]
    {
      if a[i] != b[i] {
        assert a[..n][i + 1..] == a[i + 1..n] && b[..n][i + 1..] == b[i + 1..n];
        if a[i] > b[i] {
          TopDifference(b[..n], a[..n], i, B32);
          return 1;
        }
        TopDifference(a[..n], b[..n], i, B32);
        return -1;
      }
      i := i - 1;
    }
    assert a[..n] == b[..n];
    return 0;
  }

  /** Sign of r - m, where r has one limb more. */
  method RawCmp(r: array<uint32>, m: array<uint32>, mn: nat) returns (c: int)
    requires mn + 1 <= r.Length && mn <= m.Length
    ensures c == Sign(Num(r[..mn + 1]) - Num(m[..mn]))
  {
    hide Eval;
    ExtraLimb(r[..mn + 1], m[..mn]);
    assert r[..mn + 1][..mn] == r[..mn];
    if r[mn] != 0 {
      return 1;
    }
    c := LimbCmp(r, m, mn);
  }

  lemma ExtraLimb(R: seq<int>, M: seq<int>)
    requires |R| == |M| + 1 && Digits(R, B32) && Digits(M, B32)
    ensures R[|M|] == 0 ==> Num(R) == Num(R[..|M|])
    ensures R[|M|] != 0 ==> Num(R) > Num(M)
  {
    var n := |M|;
    EvalSnoc(R, n, B32);
    assert R[..n + 1] == R;
    EvalBound(R[..n], B32);
    EvalBound(M, B32);
    hide Eval, Pow;
    if R[n] != 0 {
      MulLe(1, R[n], Pow(B32, n));
    }
  }

  /** Digits r' of R - M over the first n limbs, with a pending borrow. */
  ghost predicate Borrowed(R: seq<int>, M: seq<int>, r: seq<int>, n: nat, borrow: int) {
    && n <= |M| && n <= |R| == |r|
    && (forall k :: n <= k < |R| ==> r[k] == R[k])
    && Num(r[..n]) - borrow * Pow(B32, n) == Num(R[..n]) - Num(M[..n])
  }

  lemma BorrowedStep(R: seq<int>, M: seq<int>, r: seq<int>, n: nat, borrow: int, v: int, borrow': int)
    requires Borrowed(R, M, r, n, borrow) && n < |M| && n < |R|
    requires v - B32 * borrow' == R[n] - M[n] - borrow
    ensures Borrowed(R, M, r[n := v], n + 1, borrow')
  {
    hide Eval;
    EvalSnoc(r[n := v], n, B32);
    EvalSnoc(R, n, B32);
    EvalSnoc(M, n, B32);
    assert r[n := v][..n] == r[..n];
    PowB32Step(n);
    hide Pow;
    BorrowArith(Pow(B32, n), v, borrow', R[n], M[n], borrow);
  }

  lemma BorrowArith(p: int, v: int, b': int, x: int, y: int, b: int)
    requires v - B32 * b' == x - y - b
    ensures p * v - b' * (B32 * p) == p * x - p * y - b * p
  {
    MulEq(p, v - B32 * b', x - y - b);
    MulDistr(p, v, -(B32 * b'));
    MulDistr(p, x - y, -b);
    MulDistr(p, x, -y);
  }

  /** One limb of a subtraction in wrapped 64-bit arithmetic. */
  lemma WrappedBorrow(x: uint32, y: uint32, borrow: int, t: int)
    requires 0 <= borrow <= 1 && t == (x - y - borrow) % B64
    ensures 0 <= (t / B32) % 2 <= 1 && t % B32 - B32 * ((t / B32) % 2) == x - y - borrow
  {
    if x - y - borrow >= 0 {
      assert t == x - y - borrow;
    } else {
      assert t == x - y - borrow + B64;
    }
  }

  /** r := r - m over mn+1 limbs. */
  method RawSub(r: array<uint32>, m: array<uint32>, mn: nat)
    requires mn + 1 <= r.Length && mn <= m.Length && r != m
    requires Num(r[..mn + 1]) >= Num(m[..mn])
    modifies r
    ensures Num(r[..mn + 1]) == old(Num(r[..mn + 1])) - Num(m[..mn])
  {
    hide Eval, Pow;
    ghost var R: seq<int>, M: seq<int> := r[..mn + 1], m[..mn];
    var borrow := 0;
    var i := 0;
    assert Borrowed(R, M, R, 0, 0) by { EvalZeros(R[..0], B32); EvalZeros(M[..0], B32); }
    while i < mn
      invariant 0 <= i <= mn && 0 <= borrow <= 1
      invariant m[..mn] == M && Borrowed(R, M, r[..mn + 1], i, borrow)
    {
      ghost var s: seq<int> := r[..mn + 1];
      var t: uint64 := (r[i] as int - m[i] - borrow) % B64;
      WrappedBorrow(r[i], m[i], borrow, t);
      r[i] := t % B32;
      BorrowedStep(R, M, s, i, borrow, t % B32, (t / B32) % 2);
      assert r[..mn + 1] == s[i := t % B32];
      borrow := (t / B32) % 2;
      i := i + 1;
    }
    ghost var s: seq<int> := r[..mn + 1];
    TopBorrow(R, M, s, mn, borrow);
    r[mn] := (r[mn] as int - borrow) % B32;
    assert r[..mn + 1] == s[mn := R[mn] - borrow];
  }

  lemma TopBorrow(R: seq<int>, M: seq<int>, r: seq<int>, n: nat, borrow: int)
    requires |R| == n + 1 && |M| == n && Digits(R, B32) && Digits(M, B32) && Digits(r, B32)
    requires Borrowed(R, M, r, n, borrow) && 0 <= borrow <= 1 && Num(R) >= Num(M)
    ensures 0 <= R[n] - borrow < B32
    ensures Num(r[n := R[n] - borrow]) == Num(R) - Num(M)
  {
    hide Eval, Pow;
    var t := r[n := R[n] - borrow];
    EvalSnoc(R, n, B32);
    EvalSnoc(t, n, B32);
    assert R[..n + 1] == R && M[..n] == M && t[..n + 1] == t && t[..n] == r[..n];
    EvalBound(r[..n], B32);
    MulDistr(Pow(B32, n), R[n], -borrow);
  }

  // ---------- binary long division ----------

  /** Doubled limbs below n, with the bit that left the last one. */
  ghost predicate Doubled(W: seq<int>, w: seq<int>, n: nat, bit: int, carry: int) {
    && n <= |W| == |w|
    && (forall k :: n <= k < |W| ==> w[k] == W[k])
    && Num(w[..n]) + carry * Pow(B32, n) == 2 * Num(W[..n]) + bit
  }

  lemma DoubledStep(W: seq<int>, w: seq<int>, n: nat, bit: int, carry: int, v: int, carry': int)
    requires Doubled(W, w, n, bit, carry) && n < |W| && v + B32 * carry' == 2 * W[n] + carry
    ensures Doubled(W, w[n := v], n + 1, bit, carry')
  {
    hide Eval;
    EvalSnoc(w[n := v], n, B32);
    EvalSnoc(W, n, B32);
    assert w[n := v][..n] == w[..n];
    PowB32Step(n);
    hide Pow;
    DoubleArith(Pow(B32, n), v, carry', W[n], carry);
  }

  lemma DoubleArith(p: int, v: int, c': int, x: int, c: int)
    requires v + B32 * c' == 2 * x + c
    ensures p * v + c' * (B32 * p) == 2 * (p * x) + c * p
  {
    MulEq(p, v + B32 * c', 2 * x + c);
    MulDistr(p, v, B32 * c');
    MulDistr(p, 2 * x, c);
  }

  /** w := 2w + bit over n limbs; the bit shifted out is returned. */
  method ShiftIn(w: array<uint32>, n: nat, bit: int) returns (carry: int)
    requires n <= w.Length && 0 <= bit <= 1
    modifies w
    ensures 0 <= carry <= 1
    ensures Num(w[..n]) + carry * Pow(B32, n) == 2 * old(Num(w[..n])) + bit
  {
    hide Eval, Pow;
    ghost var W: seq<int> := w[..n];
    carry := bit;
    var j := 0;
    assert Doubled(W, W, 0, bit, bit) by { DoubledStart(W, bit); }
    while j < n
      invariant 0 <= j <= n && 0 <= carry <= 1
      invariant Doubled(W, w[..n], j, bit, carry)
    {
      ghost var s: seq<int> := w[..n];
      var nc := w[j] / 0x8000_0000;
      var v: uint32 := (2 * (w[j] as int)) % B32 + carry;
      DoubledStep(W, s, j, bit, carry, v, nc);
      w[j] := v;
      assert w[..n] == s[j := v];
      carry := nc;
      j := j + 1;
    }
    assert w[..n][..n] == w[..n] && W[..n] == W;
  }

  lemma DoubledStart(W: seq<int>, bit: int)
    ensures Doubled(W, W, 0, bit, bit)
  {
    assert Pow(B32, 0) == 1 && Num(W[..0]) == 0;
  }

  /** What one division step does to the remainder. */
  lemma RemainderStep(n: int, i: nat, m: int, w: int, bit: int, w2: int, w': int)
    requires n >= 0 && m > 0 && w == Shifted(n, i + 1) % m && bit == BitOf(n, i)
    requires w2 == 2 * w + bit && w' == (if w2 >= m then w2 - m else w2)
    ensures 0 <= w' < m && w' == Shifted(n, i) % m
  {
    hide Shifted, BitOf;
    ShiftStep(n, i);
    var s := Shifted(n, i + 1);
    var q := s / m;
    assert s == m * q + w;
    DoubleQuotient(m, q);
    DivModUnique(Shifted(n, i), m, if w2 >= m then 2 * q + 1 else 2 * q, w');
  }

  lemma DoubleQuotient(m: int, q: int)
    ensures (2 * q + 1) * m == 2 * (m * q) + m && (2 * q) * m == 2 * (m * q)
  {}

  /** The shifted remainder still fits in one limb more than the modulus. */
  lemma NoTopCarry(w2: int, carry: int, w: int, bit: int, m: int, p: int, bp: int)
    requires 0 <= w < m < p && 0 <= bit <= 1 && 0 <= carry <= 1 && bp == B32 * p
    requires w2 + carry * bp == 2 * w + bit && 0 <= w2
    ensures carry == 0
  {
    assert carry * bp == if carry == 1 then bp else 0;
  }

  /** The bit of the number that limb i/32 holds. */
  lemma NumBit(s: seq<int>, i: nat)
    requires Digits(s, B32) && i < 32 * |s|
    ensures Num(s) >= 0 && BitOf(Num(s), i) == BitOf(s[i / 32], i % 32)
  {
    TwoTo16();
    PowMul(2, 16, 2);
    DigitBit(s, B32, 32, i / 32, i % 32, 32 * (i / 32));
  }

  /** r[..mn] := num[..numn] mod m[..mn]. */
  method RawMod(num: array<uint32>, numn: nat, m: array<uint32>, mn: nat, r: array<uint32>)
    requires numn <= num.Length && mn <= m.Length && mn <= r.Length && Num(m[..mn]) > 0
    modifies r
    ensures Num(r[..mn]) == old(Num(num[..numn])) % old(Num(m[..mn]))
  {
    hide Eval, Pow, Shifted, BitOf;
    ghost var numS, mS := num[..numn], m[..mn];
    ghost var N, M := Num(numS), Num(mS);
    NumNat(num[..numn]);
    var w := new uint32[mn + 1](_ => 0);
    EvalZeros(w[..mn + 1], B32);
    var bits := RawBitlen(num, numn);
    ShiftAll(N, bits);
    DivModUnique(0, M, 0, 0);
    var i := bits - 1;
    while i >= 0
      invariant -1 <= i < bits && num[..numn] == numS && m[..mn] == mS
      invariant Num(w[..mn + 1]) == Shifted(N, i + 1) % M
    {
      DivideStep(num, numn, m, mn, w, i, N, M);
      i := i - 1;
    }
    ShiftZero(N);
    LowLimbs(w[..mn + 1], m[..mn]);
    i := 0;
    assert w[..mn + 1][..mn] == w[..mn];
    ghost var W := w[..mn];
    while i < mn
      invariant 0 <= i <= mn && r[..i] == w[..i] && w[..mn] == W
    {
      r[i] := w[i];
      i := i + 1;
    }
  }

  lemma LowLimbs(w: seq<int>, m: seq<int>)
    requires |w| == |m| + 1 && Digits(w, B32) && Digits(m, B32) && Num(w) < Num(m)
    ensures Num(w[..|m|]) == Num(w)
  {
    ExtraLimb(w, m);
  }

  method DivideStep(num: array<uint32>, numn: nat, m: array<uint32>, mn: nat, w: array<uint32>, i: nat, ghost N: int, ghost M: int)
    requires numn <= num.Length && mn <= m.Length && w.Length == mn + 1 && w != num && w != m
    requires N == Num(num[..numn]) && M == Num(m[..mn]) && M > 0 && i < 32 * numn && N >= 0
    requires Num(w[..mn + 1]) == Shifted(N, i + 1) % M
    modifies w
    ensures Num(w[..mn + 1]) == Shifted(N, i) % M
  {
    hide Eval, Pow, Shifted, BitOf;
    var bit := BitOf(num[i / 32], i % 32);
    NumBit(num[..numn], i);
    ghost var w0 := Num(w[..mn + 1]);
    var carry := ShiftIn(w, mn + 1, bit);
    ghost var w2 := Num(w[..mn + 1]);
    NumNat(w[..mn + 1]);
    NumNat(m[..mn]);
    PowB32Step(mn);
    NoTopCarry(w2, carry, w0, bit, M, Pow(B32, mn), Pow(B32, mn + 1));
    MulEq(Pow(B32, mn + 1), carry, 0);
    var c := RawCmp(w, m, mn);
    if c >= 0 {
      RawSub(w, m, mn);
    }
    RemainderStep(N, i, M, w0, bit, w2, Num(w[..mn + 1]));
  }
}
