/** Canonical bytes of a field element: packing, unpacking, comparison and parity. */
module FieldCodec {
  import opened Arith
  import opened Radix
  import opened Fe25519

  // ---------- conditional swap ----------

  /** On 64-bit words the masked exclusive-or exchange is a conditional swap. */
  lemma MaskedExchange(p: bv64, q: bv64, b: bv64)
    requires b == 0 || b == 1
    ensures var mask := !(b - 1); var t := mask & (p ^ q);
            p ^ t == (if b == 1 then q else p) && q ^ t == (if b == 1 then p else q)
  {
    if b == 1 {
      ExchangeOn(p, q);
    } else {
      ExchangeOff(p, q);
    }
  }

  lemma ExchangeOn(p: bv64, q: bv64)
    ensures var t := 0xffff_ffff_ffff_ffff & (p ^ q); p ^ t == q && q ^ t == p
  {}

  lemma ExchangeOff(p: bv64, q: bv64)
    ensures var t := 0 & (p ^ q); p ^ t == p && q ^ t == q
  {}

  /** Swaps the limbs of p and q exactly when b is 1. */
  method Sel(p: array<int64>, q: array<int64>, b: int)
    requires p.Length == q.Length == 16 && p != q && 0 <= b <= 1
    modifies p, q
    ensures p[..] == old(if b == 1 then q[..] else p[..])
    ensures q[..] == old(if b == 1 then p[..] else q[..])
  {
    var i := 0;
    while i < 16
      invariant 0 <= i <= 16
      invariant forall k :: 0 <= k < i ==> p[k] == old(if b == 1 then q[k] else p[k])
      invariant forall k :: 0 <= k < i ==> q[k] == old(if b == 1 then p[k] else q[k])
      invariant forall k :: i <= k < 16 ==> p[k] == old(p[k]) && q[k] == old(q[k])
    {
      p[i], q[i] := if b == 1 then q[i] else p[i], if b == 1 then p[i] else q[i];
      i := i + 1;
    }
  }

  method Copy(r: array<int64>, a: array<int64>)
    requires r.Length == a.Length == 16
    modifies r
    ensures r[..] == old(a[..])
  {
    var i := 0;
    while i < 16
      invariant 0 <= i <= 16
      invariant forall k :: 0 <= k < i ==> r[k] == old(a[k])
      invariant forall k :: i <= k < 16 ==> a[k] == old(a[k])
    {
      r[i] := a[i];
      i := i + 1;
    }
  }

  // ---------- pack ----------

  /** Limb k of P. */
  function PLimb(k: nat): int {
    if k == 0 then 0xffed else if k < 15 then 0xffff else 0x7fff
  }

  function PLimbs(): (s: seq<int>)
    ensures |s| == 16 && forall k :: 0 <= k < 16 ==> s[k] == PLimb(k)
  {
    seq(16, k requires 0 <= k < 16 => PLimb(k))
  }

  lemma Pow240()
    ensures Pow(B16, 15) == 0x1_0000_0000_0000_0000_0000_0000_0000_0000_0000_0000_0000_0000_0000_0000_0000
  {
    Pow256();
    assert Pow(B16, 16) == B16 * Pow(B16, 15);
  }

  lemma PValue()
    ensures Val(PLimbs()) == P
  {
    PrimeValue();
    hide FieldPrime;
    var s := PLimbs();
    EvalTop(s);
    AllOnes(s[..15], 15);
    Pow240();
  }

  lemma EvalTop(s: seq<int>)
    requires |s| == 16
    ensures Val(s) == Val(s[..15]) + Pow(B16, 15) * s[15]
  {
    EvalSnoc(s, 15, B16);
    assert s[..16] == s;
  }

  lemma {:induction false} AllOnes(s: seq<int>, n: nat)
    requires |s| == n && n > 0 && s[0] == 0xffed && forall k :: 0 < k < n ==> s[k] == 0xffff
    ensures Val(s) == Pow(B16, n) - 19
    decreases n
  {
    if n == 1 {
      assert Eval(s[1..], B16) == 0;
      assert Pow(B16, 1) == B16 * Pow(B16, 0);
    } else {
      AllOnes(s[..n - 1], n - 1);
      EvalSnoc(s, n - 1, B16);
      assert s[..n] == s;
      assert Pow(B16, n) == B16 * Pow(B16, n - 1);
    }
  }

  lemma {:induction false} EvalMinus(s: seq<int>, t: seq<int>, r: seq<int>, b: int)
    requires |s| == |t| == |r| && forall k :: 0 <= k < |s| ==> r[k] == s[k] - t[k]
    ensures Eval(r, b) == Eval(s, b) - Eval(t, b)
  {
    EvalAddScaled(s, t, r, -1, b);
  }

  ghost predicate Reduced(s: seq<int>) {
    Loose(s, 0, 65535)
  }

  /** The limbs m hold t - P with the borrow left in the sign of limb 15. */
  ghost predicate Difference(t: seq<int>, m: seq<int>) {
    && |t| == |m| == 16
    && (forall k :: 0 <= k < 15 ==> 0 <= m[k] < B16)
    && -0x8000 <= m[15] <= 0x8000
    && Val(m) == Val(t) - P
  }

  /** Limbs of t - P before borrows are taken. */
  ghost predicate RawDifference(t: seq<int>, s: seq<int>) {
    |t| == |s| == 16 && forall k :: 0 <= k < 16 ==> s[k] == t[k] - PLimb(k)
  }

  lemma DifferenceFromChain(t: seq<int>, s: seq<int>, d: seq<int>, cs: seq<int>, m: seq<int>)
    requires RawDifference(t, s) && |d| == 15 && Chain(s, d, cs)
    requires |m| == 16 && m[..15] == d && m[15] == s[15] + cs[15]
    requires Reduced(t) && -1 <= cs[15] <= 0
    ensures Difference(t, m)
  {
    hide Eval, Pow, PLimbs;
    PValue();
    EvalMinus(t, PLimbs(), s, B16);
    ChainValue(s, d, cs);
    EvalTop(m);
    EvalTop(s);
    DifferenceArith(Pow(B16, 15), s[15], cs[15], m[15], Val(d), Val(s[..15]), Val(s), Val(m));
  }

  lemma DifferenceArith(p: int, x: int, c: int, top: int, d: int, low: int, s: int, m: int)
    requires top == x + c && d == low - c * p && s == low + p * x && m == d + p * top
    ensures m == s
  {
    MulEq(p, top, x + c);
    MulDistr(p, x, c);
  }

  /** m := t - P with limb 15 keeping the sign; the result is the final borrow. */
  method SubtractP(m: array<int64>, t: array<int64>) returns (b: int)
    requires m.Length == t.Length == 16 && m != t && Reduced(t[..])
    modifies m
    ensures Difference(t[..], m[..])
    ensures b == if m[15] < 0 then 1 else 0
  {
    ghost var T: seq<int> := t[..];
    ghost var s: seq<int> := seq(16, k requires 0 <= k < 16 => T[k] - PLimb(k));
    ghost var d, cs: seq<int> := [], [0];
    m[0] := t[0] - 0xffed;
    var i := 1;
    while i < 15
      invariant 1 <= i <= 15 && |d| == i - 1 && t[..] == T
      invariant Borrows(s, d, cs, m[i - 1])
      invariant forall k :: 0 <= k < i - 1 ==> m[k] == d[k]
    {
      var borrow := (m[i - 1] / 65536) % 2;
      m[i] := t[i] - 0xffff - borrow;
      d, cs := BorrowStep(s, d, cs, m[i - 1], borrow);
      m[i - 1] := m[i - 1] % 65536;
      i := i + 1;
    }
    var borrow := (m[14] / 65536) % 2;
    m[15] := t[15] - 0x7fff - borrow;
    b := (m[15] / 65536) % 2;
    d, cs := BorrowStep(s, d, cs, m[14], borrow);
    m[14] := m[14] % 65536;
    assert m[..15] == d;
    DifferenceFromChain(T, s, d, cs, m[..]);
  }

  /** x is the next limb of the difference, before its own borrow is taken. */
  ghost predicate Borrows(s: seq<int>, d: seq<int>, cs: seq<int>, x: int) {
    && Chain(s, d, cs) && |d| < |s|
    && x == s[|d|] + cs[|d|] && -0x10000 <= x < 0x10000 && -1 <= cs[|d|] <= 0
  }

  lemma BorrowStep(s: seq<int>, d: seq<int>, cs: seq<int>, x: int, borrow: int) returns (d': seq<int>, cs': seq<int>)
    requires Borrows(s, d, cs, x) && borrow == (x / 65536) % 2
    ensures borrow == if x < 0 then 1 else 0
    ensures Chain(s, d', cs') && d' == d + [x % 65536] && cs' == cs + [-borrow]
  {
    BorrowValue(x, borrow);
    ChainExtend(s, d, cs, -borrow);
    d', cs' := d + [x % 65536], cs + [-borrow];
  }

  lemma BorrowValue(x: int, borrow: int)
    requires -0x10000 <= x < 0x10000 && borrow == (x / 65536) % 2
    ensures borrow == if x < 0 then 1 else 0
    ensures x % 65536 == x + B16 * borrow && 0 <= x % 65536 < B16
  {}

  /** A reduced t below 3P minus P is negative exactly when the sign limb is. */
  lemma DifferenceSign(t: seq<int>, m: seq<int>)
    requires Difference(t, m)
    ensures m[15] < 0 <==> Val(t) < P
    ensures m[15] >= 0 ==> Reduced(m)
  {
    EvalTop(m);
    EvalBound(m[..15], B16);
    Pow240();
  }

  lemma ReducedBound(t: seq<int>)
    requires Reduced(t)
    ensures 0 <= Val(t) < 2 * P + 38
  {
    EvalBound(t, B16);
    Pow256();
  }

  /** Subtracts P once if the value is at least P. */
  method ReduceOnce(t: array<int64>, m: array<int64>)
    requires m.Length == t.Length == 16 && m != t && Reduced(t[..])
    modifies t, m
    ensures Reduced(t[..])
    ensures Val(t[..]) == old(Val(t[..])) - (if old(Val(t[..])) < P then 0 else P)
  {
    var b := SubtractP(m, t);
    DifferenceSign(t[..], m[..]);
    Sel(t, m, 1 - b);
  }

  /** Three carries give digits; two conditional subtractions give the canonical value. */
  method Canonical(t: array<int64>, n: array<int64>)
    requires n.Length == t.Length == 16 && n != t && Within(n[..], WIDE)
    modifies t
    ensures Reduced(t[..]) && Val(t[..]) == Val(n[..]) % P
  {
    var m := new int64[16](_ => 0);
    Copy(t, n);
    Carry(t);
    Carry(t);
    Carry(t);
    ReducedBound(t[..]);
    ghost var v := Val(t[..]);
    ReduceOnce(t, m);
    ReduceOnce(t, m);
    CanonicalValue(v, Val(t[..]), Val(n[..]));
  }

  lemma CanonicalValue(v: int, w: int, n: int)
    requires Cong(v, n, P) && 0 <= v < 2 * P + 38
    requires w == (if v < P then v else if v - P < P then v - P else v - 2 * P)
    ensures w == n % P
  {
    hide Mod;
    CongResidue(v, n, P);
    DivModUnique(v, P, if v < P then 0 else if v - P < P then 1 else 2, w);
  }

  // ---------- bytes ----------

  /** The low and high bytes of every limb, in order. */
  ghost predicate BytesOf(o: seq<int>, t: seq<int>) {
    |o| == 2 * |t| && forall k :: 0 <= k < |t| ==> o[2 * k] == t[k] % 256 && o[2 * k + 1] == t[k] / 256
  }

  lemma {:induction false} BytesValue(o: seq<int>, t: seq<int>)
    requires BytesOf(o, t)
    ensures Eval(o, 256) == Val(t)
  {
    if |t| > 0 {
      forall k | 0 <= k < |t| - 1
        ensures o[2..][2 * k] == t[1..][k] % 256 && o[2..][2 * k + 1] == t[1..][k] / 256
      {
        assert o[2 * (k + 1)] == t[k + 1] % 256;
      }
      BytesValue(o[2..], t[1..]);
      assert o[1..][1..] == o[2..];
      assert Eval(o[1..], 256) == o[1] + 256 * Eval(o[2..], 256);
      assert o[2 * 0] == t[0] % 256 && o[2 * 0 + 1] == t[0] / 256;
    }
  }

  /** The canonical 32 bytes of a field element. */
  method Pack(o: array<byte>, n: array<int64>)
    requires o.Length == 32 && n.Length == 16 && Within(n[..], WIDE)
    modifies o
    ensures Eval(o[..], 256) == Val(n[..]) % P
  {
    hide FieldPrime, Val, Eval, Mod;
    var t := new int64[16](_ => 0);
    Canonical(t, n);
    ghost var limbs := t[..];
    var i := 0;
    while i < 16
      invariant 0 <= i <= 16 && Reduced(limbs) && t[..] == limbs
      invariant forall k :: 0 <= k < i ==> o[2 * k] == t[k] % 256 && o[2 * k + 1] == t[k] / 256
    {
      o[2 * i] := t[i] % 256;
      o[2 * i + 1] := (t[i] / 256) % 256;
      i := i + 1;
    }
    BytesValue(o[..], t[..]);
  }

  function LimbOf(low: int, high: int): int {
    low + high * 256
  }

  /** Reads 255 bits; the top bit of the last byte is ignored. */
  method Unpack(o: array<int64>, n: seq<byte>)
    requires o.Length == 16 && |n| == 32
    modifies o
    ensures Reduced(o[..])
    ensures Val(o[..]) == Eval(n, 256) % (P + 19)
  {
    var i := 0;
    while i < 16
      invariant 0 <= i <= 16
      invariant forall k :: 0 <= k < i ==> o[k] == LimbOf(n[2 * k], n[2 * k + 1])
    {
      o[i] := LimbOf(n[2 * i], n[2 * i + 1]);
      i := i + 1;
    }
    ghost var s := o[..];
    forall k | 0 <= k < 16
      ensures n[2 * k] == s[k] % 256 && n[2 * k + 1] == s[k] / 256
    {}
    BytesValue(n, s);
    o[15] := o[15] % 0x8000;
    TopBit(s, o[..]);
  }

  lemma TopBit(s: seq<int>, t: seq<int>)
    requires Reduced(s) && t == s[15 := s[15] % 0x8000]
    ensures Val(t) == Val(s) % (P + 19)
  {
    EvalTop(s);
    EvalTop(t);
    assert t[..15] == s[..15];
    EvalBound(s[..15], B16);
    Pow240();
    PrimeValue();
    hide FieldPrime;
    DivModUnique(Val(s), P + 19, s[15] / 0x8000, Val(t));
  }

  /** Unpacking and packing again reduces the low 255 bits, so canonical bytes come back unchanged. */
  method Repack(n: seq<byte>) returns (o: seq<byte>)
    requires |n| == 32
    ensures |o| == 32 && Eval(o, 256) == (Eval(n, 256) % (P + 19)) % P
    ensures 0 <= Eval(n, 256) < P ==> o == n
  {
    hide Eval, Val;
    var limbs := new int64[16](_ => 0);
    var bytes := new byte[32](_ => 0);
    Unpack(limbs, n);
    Pack(bytes, limbs);
    o := bytes[..];
    ghost var v := Eval(n, 256);
    if 0 <= v < P {
      DivModUnique(v, P + 19, 0, v);
      DivModUnique(v, P, 0, v);
      EvalUnique(o, n, 256);
    }
  }
}
