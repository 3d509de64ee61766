/** The field of integers modulo 2^255-19: sixteen signed limbs of radix 2^16, carries and multiplication. */
module Fe25519 {
  import opened Arith
  import opened Radix

  const FIELD_BITS: nat := 255

  /** The field prime. */
  const P: int := FieldPrime()

  function FieldPrime(): (p: int)
    ensures p > 0x1_0000_0000
  {
    FieldPower255();
    Pow(2, FIELD_BITS) - 19
  }

  lemma FieldPower255()
    ensures Pow(2, FIELD_BITS) == 0x8000_0000_0000_0000_0000_0000_0000_0000_0000_0000_0000_0000_0000_0000_0000_0000
  {
    assert Pow(2, 7) == 0x80 && Pow(2, 8) == 0x100;
    hide Pow;
    PowJoin(2, 8, 8, 0x100, 0x100);
    PowJoin(2, 8, 7, 0x100, 0x80);
    PowJoin(2, 16, 16, 0x1_0000, 0x1_0000);
    PowJoin(2, 32, 32, 0x1_0000_0000, 0x1_0000_0000);
    PowJoin(2, 64, 64, 0x1_0000_0000_0000_0000, 0x1_0000_0000_0000_0000);
    PowJoin(2, 128, 64, 0x1_0000_0000_0000_0000_0000_0000_0000_0000, 0x1_0000_0000_0000_0000);
    PowJoin(2, 192, 32, 0x1_0000_0000_0000_0000_0000_0000_0000_0000_0000_0000_0000_0000, 0x1_0000_0000);
    PowJoin(2, 224, 16, 0x1_0000_0000_0000_0000_0000_0000_0000_0000_0000_0000_0000_0000_0000_0000, 0x1_0000);
    PowJoin(2, 240, 15, 0x1_0000_0000_0000_0000_0000_0000_0000_0000_0000_0000_0000_0000_0000_0000_0000, 0x8000);
  }

  lemma PrimeValue()
    ensures P == 0x7fff_ffff_ffff_ffff_ffff_ffff_ffff_ffff_ffff_ffff_ffff_ffff_ffff_ffff_ffff_ffed
  {
    FieldPower255();
  }

  const B16: int := 0x1_0000

  function Val(s: seq<int>): int { Eval(s, B16) }

  ghost predicate Within(s: seq<int>, bound: int) {
    forall i :: 0 <= i < |s| ==> -bound <= s[i] <= bound
  }

  /** Limbs 1..15 are digits, limb 0 is within the bound. */
  ghost predicate Loose(s: seq<int>, low: int, high: int) {
    |s| == 16 && low <= s[0] <= high && forall i :: 1 <= i < 16 ==> 0 <= s[i] < B16
  }

  ghost predicate Carried(s: seq<int>) {
    Loose(s, -38, 65573)
  }

  const WIDE: int := 0x4000_0000_0000_0000
  const MID: int := 0x10_0000_0000_0000

  lemma Pow256()
    ensures Pow(B16, 16) == 2 * P + 38
  {
    PrimeValue();
    PowAdd(B16, 8, 8);
    PowAdd(B16, 4, 4);
    PowAdd(B16, 2, 2);
  }

  /** d is s with the carries cs moved up: cs[k] enters limb k and cs[k+1] leaves it. */
  ghost predicate Chain(s: seq<int>, d: seq<int>, cs: seq<int>) {
    && |d| <= |s| && |cs| == |d| + 1 && cs[0] == 0
    && forall k :: 0 <= k < |d| ==> 0 <= d[k] < B16 && d[k] == s[k] + cs[k] - B16 * cs[k + 1]
  }

  lemma {:induction false} ChainValue(s: seq<int>, d: seq<int>, cs: seq<int>)
    requires Chain(s, d, cs)
    ensures Eval(d, B16) == Val(s[..|d|]) - cs[|d|] * Pow(B16, |d|)
  {
    if |d| > 0 {
      var n := |d| - 1;
      ChainValue(s, d[..n], cs[..n + 1]);
      EvalSnoc(d, n, B16);
      EvalSnoc(s, n, B16);
      assert d[..n + 1] == d;
      ChainStep(Pow(B16, n), s[n], cs[n], cs[n + 1]);
      assert Pow(B16, n + 1) == B16 * Pow(B16, n);
    }
  }

  lemma ChainStep(w: int, x: int, c: int, c': int)
    ensures w * (x + c - B16 * c') == w * x + c * w - c' * (B16 * w)
  {
  }

  /** Limbs inside the wide bound send out carries below 2^47. */
  lemma {:induction false} ChainWide(s: seq<int>, d: seq<int>, cs: seq<int>)
    requires Chain(s, d, cs) && Within(s, WIDE)
    ensures -0x4001_0000_0000 <= cs[|d|] <= 0x4001_0000_0000
  {
    if |d| > 0 {
      ChainWide(s, d[..|d| - 1], cs[..|d|]);
    }
  }

  function CarryOut(n: nat): int {
    if n == 0 then 0 else if n == 1 then 0x10_0000_0001 else if n == 2 then 0x10_0002 else if n == 3 then 0x12 else 1
  }

  /** A wide limb 0 sends a carry that dies out over three digits. */
  lemma {:induction false} ChainLoose(s: seq<int>, d: seq<int>, cs: seq<int>)
    requires Chain(s, d, cs) && Loose(s, -MID, MID)
    ensures -CarryOut(|d|) <= cs[|d|] <= CarryOut(|d|)
  {
    if |d| > 0 {
      ChainLoose(s, d[..|d| - 1], cs[..|d|]);
    }
  }

  /** Once limb 0 is almost a digit, a carry out of any limb fixes limb 0. */
  lemma {:induction false} ChainCarried(s: seq<int>, d: seq<int>, cs: seq<int>)
    requires Chain(s, d, cs) && Carried(s) && |d| > 0
    ensures -1 <= cs[|d|] <= 1
    ensures cs[|d|] == -1 ==> d[0] >= 65498
    ensures cs[|d|] == 1 ==> d[0] <= 37
  {
    if |d| > 1 {
      ChainCarried(s, d[..|d| - 1], cs[..|d|]);
    }
  }

  /** What one pass does to the limb bounds. */
  lemma CarryBounds(s: seq<int>, d: seq<int>, cs: seq<int>, o: seq<int>)
    requires Within(s, WIDE) && |s| == |d| == |o| == 16 && Chain(s, d, cs)
    requires o[0] == d[0] + 38 * cs[16] && forall k :: 0 < k < 16 ==> o[k] == d[k]
    ensures Loose(o, -MID, MID)
    ensures Loose(s, -MID, MID) ==> Carried(o)
    ensures Carried(s) ==> Loose(o, 0, 65535)
  {
    ChainWide(s, d, cs);
    if Loose(s, -MID, MID) {
      ChainLoose(s, d, cs);
    }
    if Carried(s) {
      ChainCarried(s, d, cs);
    }
  }

  method Carry(o: array<int64>)
    requires o.Length == 16 && Within(o[..], WIDE)
    modifies o
    ensures Cong(Val(o[..]), Val(old(o[..])), P)
    ensures Loose(o[..], -MID, MID)
    ensures Loose(old(o[..]), -MID, MID) ==> Carried(o[..])
    ensures Carried(old(o[..])) ==> Loose(o[..], 0, 65535)
  {
    hide Val, Mod;
    ghost var s := o[..];
    ghost var d, cs: seq<int> := [], [0];
    var i := 0;
    while i < 16
      invariant 0 <= i <= 16 && |d| == i && Chain(s, d, cs)
      invariant forall k :: 0 < k < i ==> o[k] == d[k]
      invariant forall k :: i < k < 16 ==> o[k] == s[k]
      invariant i == 0 ==> o[0] == s[0]
      invariant 0 < i < 16 ==> o[0] == d[0] && o[i] == s[i] + cs[i]
      invariant i == 16 ==> o[0] == d[0] + 38 * cs[16]
    {
      ChainWide(s, d, cs);
      ghost var x := s[i] + cs[i];
      assert o[i] == x && -WIDE - 0x4001_0000_0000 <= x <= WIDE + 0x4001_0000_0000;
      o[i] := o[i] + B16;
      var c: int64 := o[i] / B16;
      CarryQuotient(x, c);
      var c37: int64 := 37 * (c - 1);
      var j := if i < 15 then i + 1 else 0;
      o[j] := o[j] + (c - 1 + (if i == 15 then c37 else 0));
      o[i] := o[i] - c * 65536;
      assert o[i] == x - B16 * (c - 1);
      ChainExtend(s, d, cs, c - 1);
      d := d + [o[i]];
      cs := cs + [c - 1];
      i := i + 1;
    }
    CarryValue(s, d, cs, o[..]);
    CarryBounds(s, d, cs, o[..]);
  }

  lemma CarryQuotient(x: int, c: int)
    requires c == (x + B16) / B16
    ensures 0 <= x - B16 * (c - 1) < B16
  {
  }

  lemma ChainExtend(s: seq<int>, d: seq<int>, cs: seq<int>, c: int)
    requires Chain(s, d, cs) && |d| < |s| && 0 <= s[|d|] + cs[|d|] - B16 * c < B16
    ensures Chain(s, d + [s[|d|] + cs[|d|] - B16 * c], cs + [c])
  {
  }

  lemma CarryValue(s: seq<int>, d: seq<int>, cs: seq<int>, t: seq<int>)
    requires |s| == |d| == |t| == 16 && Chain(s, d, cs)
    requires t == d[0 := d[0] + 38 * cs[16]]
    ensures Cong(Val(t), Val(s), P)
  {
    assert Pow(B16, 0) == 1;
    hide FieldPrime, Eval, Pow, Chain;
    ChainValue(s, d, cs);
    assert s[..16] == s;
    EvalUpdate(d, 0, t[0], B16);
    Pow256();
    CarryFold(Val(t), Val(s), cs[16], Pow(B16, 16));
  }

  lemma CarryFold(t: int, s: int, c: int, w: int)
    requires t == s - c * w + 38 * c && w == 2 * P + 38
    ensures Cong(t, s, P)
  {
    hide FieldPrime, Mod;
    MulEq(c, w, 2 * P + 38);
    MulDistr(c, 2 * P, 38);
    CongFrom(t, s, -2 * c, P);
  }

  // ---------- multiplication ----------

  /** Largest limb magnitude the multiplication accepts. */
  const LIMB: int := 0x400_0000
  const PROD: int := 0x10_0000_0000_0000

  lemma ProductBound(x: int, y: int)
    requires -LIMB <= x <= LIMB && -LIMB <= y <= LIMB
    ensures -PROD <= x * y <= PROD
  {
    var ax, ay := if x < 0 then -x else x, if y < 0 then -y else y;
    MulLe(ax, LIMB, ay);
    MulLe(ay, LIMB, LIMB);
    MulLe(0, ax, ay);
  }

  lemma MulSwap(x: int, p: int, q: int, y: int)
    ensures (x * p) * (q * y) == (x * y) * (p * q)
  {}

  lemma MulPartial(lo: int, x: int, y: int, p: int, q: int, prev: int)
    ensures lo + (x * p) * prev + (x * y) * (p * q) == lo + (x * p) * (prev + q * y)
  {
    MulDistr(x * p, prev, q * y);
    MulSwap(x, p, q, y);
  }

  lemma MulRow(va: int, x: int, p: int, vb: int)
    ensures va * vb + (x * p) * vb == (va + p * x) * vb
  {
    MulDistr(vb, va, p * x);
  }

  /** Magnitude bound on the first n columns and on the others. */
  ghost predicate Columns(t: seq<int>, n: int, first: int, rest: int) {
    && |t| == 31
    && (forall k :: 0 <= k < n && k < 31 ==> -first * PROD <= t[k] <= first * PROD)
    && (forall k :: n <= k < 31 && 0 <= k ==> -rest * PROD <= t[k] <= rest * PROD)
  }

  /** Adds one product to column i+j of the partial result t of A times B. */
  lemma ColumnStep(t: seq<int>, A: seq<int>, B: seq<int>, i: nat, j: nat, v: int)
    requires |A| == |B| == 16 && i < 16 && j < 16 && |t| == 31
    requires v == t[i + j] + A[i] * B[j]
    requires Eval(t, B16) == Eval(A[..i], B16) * Eval(B, B16) + (A[i] * Pow(B16, i)) * Eval(B[..j], B16)
    ensures Eval(t[i + j := v], B16) == Eval(A[..i], B16) * Eval(B, B16) + (A[i] * Pow(B16, i)) * Eval(B[..j + 1], B16)
  {
    hide *;
    EvalUpdate(t, i + j, v, B16);
    PowAdd(B16, i, j);
    EvalSnoc(B, j, B16);
    ColumnArith(Eval(A[..i], B16) * Eval(B, B16), A[i], B[j], Pow(B16, i), Pow(B16, j), Pow(B16, i + j),
      Eval(B[..j], B16), Eval(B[..j + 1], B16), Eval(t, B16), t[i + j], v, Eval(t[i + j := v], B16));
  }

  lemma ColumnArith(lo: int, x: int, y: int, p: int, q: int, pq: int, prev: int, next: int, e: int, u: int, v: int, e': int)
    requires pq == p * q && next == prev + q * y && e == lo + (x * p) * prev
    requires v == u + x * y && e' == e + (v - u) * pq
    ensures e' == lo + (x * p) * next
  {
    MulPartial(lo, x, y, p, q, prev);
    assert v - u == x * y;
    MulEq(x * y, pq, p * q);
    MulEq(pq, v - u, x * y);
    MulEq(x * p, next, prev + q * y);
  }

  method MulColumns(t: array<int64>, a: array<int64>, b: array<int64>)
    requires t.Length == 31 && a.Length == b.Length == 16 && t != a && t != b
    requires Within(a[..], LIMB) && Within(b[..], LIMB)
    requires forall k :: 0 <= k < 31 ==> t[k] == 0
    modifies t
    ensures Columns(t[..], 31, 16, 16)
    ensures Eval(t[..], B16) == Val(a[..]) * Val(b[..])
  {
    ghost var A, B := a[..], b[..];
    EvalZeros(t[..], B16);
    var i := 0;
    while i < 16
      invariant 0 <= i <= 16 && a[..] == A && b[..] == B
      invariant Columns(t[..], 31, i, i)
      invariant Eval(t[..], B16) == Val(A[..i]) * Val(B)
    {
      MulColumn(t, a, b, i);
      i := i + 1;
    }
    assert A[..16] == A;
  }

  method MulColumn(t: array<int64>, a: array<int64>, b: array<int64>, i: nat)
    requires t.Length == 31 && a.Length == b.Length == 16 && t != a && t != b && i < 16
    requires Within(a[..], LIMB) && Within(b[..], LIMB)
    requires Columns(t[..], 31, i, i)
    requires Eval(t[..], B16) == Val(a[..i]) * Val(b[..])
    modifies t
    ensures Columns(t[..], 31, i + 1, i + 1)
    ensures Eval(t[..], B16) == Val(a[..i + 1]) * Val(b[..])
  {
    ghost var A, B := a[..], b[..];
    assert a[..i] == A[..i];
    var j := 0;
    while j < 16
      invariant 0 <= j <= 16 && a[..] == A && b[..] == B
      invariant Columns(t[..], i + j, i + 1, i)
      invariant Eval(t[..], B16) == Val(A[..i]) * Val(B) + (A[i] * Pow(B16, i)) * Val(B[..j])
    {
      ProductBound(A[i], B[j]);
      ghost var s := t[..];
      var product: int64 := a[i] * b[j];
      t[i + j] := t[i + j] + product;
      ColumnStep(s, A, B, i, j, t[i + j]);
      assert t[..] == s[i + j := t[i + j]];
      j := j + 1;
    }
    assert B[..16] == B && a[..i + 1] == A[..i + 1];
    EvalSnoc(A, i, B16);
    MulRow(Val(A[..i]), A[i], Pow(B16, i), Val(B));
  }

  /** 2^256 is 38 modulo P, so limb k+16 counts 38 times into limb k. */
  lemma FoldValue(full: seq<int>, folded: seq<int>)
    requires |full| == 31 && |folded| == 16
    requires forall k :: 0 <= k < 15 ==> folded[k] == full[k] + 38 * full[k + 16]
    requires folded[15] == full[15]
    ensures Cong(Eval(folded, B16), Eval(full, B16), P)
  {
    hide FieldPrime;
    EvalSplit(full, 16, B16);
    EvalAddScaled(full[..16], full[16..], folded, 38, B16);
    Pow256();
    CongFrom(Eval(folded, B16), Eval(full, B16), -2 * Eval(full[16..], B16), P);
  }

  method Fold(t: array<int64>)
    requires t.Length == 31 && Columns(t[..], 31, 16, 16)
    modifies t
    ensures Within(t[..16], WIDE)
    ensures Cong(Val(t[..16]), Eval(old(t[..]), B16), P)
  {
    ghost var full := t[..];
    var i := 0;
    while i < 15
      invariant 0 <= i <= 15
      invariant forall k :: i <= k < 31 ==> t[k] == full[k]
      invariant forall k :: 0 <= k < i ==> t[k] == full[k] + 38 * full[k + 16]
    {
      var high: int64 := 38 * t[i + 16];
      t[i] := t[i] + high;
      i := i + 1;
    }
    FoldValue(full, t[..16]);
    forall k | 0 <= k < 16
      ensures -WIDE <= t[k] <= WIDE
    {
      assert -16 * PROD <= full[k] <= 16 * PROD;
      assert k < 15 ==> -16 * PROD <= full[k + 16] <= 16 * PROD;
    }
  }

  method CopyLow(o: array<int64>, t: array<int64>)
    requires o.Length == 16 && t.Length >= 16 && o != t
    modifies o
    ensures o[..] == t[..16]
  {
    var i := 0;
    while i < 16
      invariant 0 <= i <= 16
      invariant forall k :: 0 <= k < i ==> o[k] == t[k]
    {
      o[i] := t[i];
      i := i + 1;
    }
  }

  /** o := a * b. The output may be either input: products are collected in t first. */
  method Mul(o: array<int64>, a: array<int64>, b: array<int64>)
    requires o.Length == a.Length == b.Length == 16
    requires Within(a[..], LIMB) && Within(b[..], LIMB)
    modifies o
    ensures Carried(o[..])
    ensures Cong(Val(o[..]), Val(old(a[..])) * Val(old(b[..])), P)
  {
    var t := new int64[31](_ => 0);
    MulColumns(t, a, b);
    Fold(t);
    CopyLow(o, t);
    Carry(o);
    Carry(o);
  }
}
