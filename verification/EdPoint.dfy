/** Point arithmetic on limb arrays: addition, the ladder, compression and decompression. */
module EdPoint {
  import opened Arith
  import opened Primes
  import opened Bits
  import opened Radix
  import opened Fe25519
  import opened FieldCodec
  import opened FieldPower
  import opened EdLimbs
  import opened Edwards
  import opened Extended

  /** Limb bound of every stored coordinate. */
  const N: int := 65573

  /** gf[4]: four coordinate arrays, updated in place. */
  class Point {
    const x: array<int64>
    const y: array<int64>
    const z: array<int64>
    const t: array<int64>

    constructor ()
      ensures Valid() && fresh(x) && fresh(y) && fresh(z) && fresh(t)
    {
      x := new int64[16](_ => 0);
      y := new int64[16](_ => 0);
      z := new int64[16](_ => 0);
      t := new int64[16](_ => 0);
    }

    ghost predicate Valid() {
      && x.Length == y.Length == z.Length == t.Length == 16
      && x != y && x != z && x != t && y != z && y != t && z != t
    }

    ghost predicate Small()
      requires Valid()
      reads x, y, z, t
    {
      Within(x[..], N) && Within(y[..], N) && Within(z[..], N) && Within(t[..], N)
    }

    /** The limbs represent the affine point a. */
    ghost predicate Is(a: Pt)
      requires Valid()
      reads x, y, z, t
    {
      Small() && Represents(Val(x[..]), Val(y[..]), Val(z[..]), Val(t[..]), a)
    }
  }

  /** The same point, or points that share no array. */
  ghost predicate SameOrApart(p: Point, q: Point) {
    p == q || Apart(p, q)
  }

  ghost predicate Apart(p: Point, q: Point) {
    && p.x != q.x && p.x != q.y && p.x != q.z && p.x != q.t
    && p.y != q.x && p.y != q.y && p.y != q.z && p.y != q.t
    && p.z != q.x && p.z != q.y && p.z != q.z && p.z != q.t
    && p.t != q.x && p.t != q.y && p.t != q.z && p.t != q.t
  }

  /** o := a + b, doubling the limb bound. */
  method AddB(o: array<int64>, a: array<int64>, b: array<int64>, ghost bound: int)
    requires o.Length == a.Length == b.Length == 16 && 0 <= bound <= LIMB
    requires Within(a[..], bound) && Within(b[..], bound)
    modifies o
    ensures Within(o[..], 2 * bound)
    ensures Val(o[..]) == old(Val(a[..]) + Val(b[..]))
  {
    ghost var A, B := a[..], b[..];
    FieldPower.Add(o, a, b);
    assert forall k :: 0 <= k < 16 ==> o[k] == A[k] + B[k];
  }

  /** o := a - b, doubling the limb bound. */
  method SubB(o: array<int64>, a: array<int64>, b: array<int64>, ghost bound: int)
    requires o.Length == a.Length == b.Length == 16 && 0 <= bound <= LIMB
    requires Within(a[..], bound) && Within(b[..], bound)
    modifies o
    ensures Within(o[..], 2 * bound)
    ensures Val(o[..]) == old(Val(a[..]) - Val(b[..]))
  {
    ghost var A, B := a[..], b[..];
    FieldPower.Sub(o, a, b);
    assert forall k :: 0 <= k < 16 ==> o[k] == A[k] - B[k];
  }

  /** o := a * b with the bound every coordinate keeps. */
  method MulN(o: array<int64>, a: array<int64>, b: array<int64>)
    requires o.Length == a.Length == b.Length == 16
    requires Within(a[..], LIMB) && Within(b[..], LIMB)
    modifies o
    ensures Within(o[..], N)
    ensures Eq(Val(o[..]), old(Val(a[..]) * Val(b[..])))
  {
    Mul(o, a, b);
  }

  /** A read-only limb constant. */
  method Constant(s: seq<int64>) returns (a: array<int64>)
    requires |s| == 16
    ensures fresh(a) && a.Length == 16 && a[..] == s
  {
    a := new int64[16](i requires 0 <= i < 16 => s[i]);
    assert a[..] == s;
  }

  /** o := (a1 - b1)(a2 - b2). */
  method DifferenceProduct(o: array<int64>, a1: array<int64>, b1: array<int64>, a2: array<int64>, b2: array<int64>)
    requires o.Length == a1.Length == b1.Length == a2.Length == b2.Length == 16 && o !in {a1, b1, a2, b2}
    requires Within(a1[..], N) && Within(b1[..], N) && Within(a2[..], N) && Within(b2[..], N)
    modifies o
    ensures Within(o[..], N)
    ensures Eq(Val(o[..]), (Val(a1[..]) - Val(b1[..])) * (Val(a2[..]) - Val(b2[..])))
  {
    hide Val, Mod, FieldPrime;
    var t := new int64[16];
    SubB(o, a1, b1, N);
    SubB(t, a2, b2, N);
    MulN(o, o, t);
  }

  /** o := (a1 + b1)(a2 + b2). */
  method SumProductOf(o: array<int64>, a1: array<int64>, b1: array<int64>, a2: array<int64>, b2: array<int64>)
    requires o.Length == a1.Length == b1.Length == a2.Length == b2.Length == 16 && o !in {a1, b1, a2, b2}
    requires Within(a1[..], N) && Within(b1[..], N) && Within(a2[..], N) && Within(b2[..], N)
    modifies o
    ensures Within(o[..], N)
    ensures Eq(Val(o[..]), (Val(a1[..]) + Val(b1[..])) * (Val(a2[..]) + Val(b2[..])))
  {
    hide Val, Mod, FieldPrime;
    var t := new int64[16];
    AddB(o, a1, b1, N);
    AddB(t, a2, b2, N);
    MulN(o, o, t);
  }

  /** The products a, b, c and d of the addition formula; c0 is c before the factor 2d. */
  method AddTerms(p: Point, q: Point, a: array<int64>, b: array<int64>, c: array<int64>, d: array<int64>)
    returns (ghost c0: int)
    requires p.Valid() && q.Valid() && p.Small() && q.Small()
    requires a.Length == b.Length == c.Length == d.Length == 16
    requires {a, b, c, d} !! {p.x, p.y, p.z, p.t, q.x, q.y, q.z, q.t}
    requires a != b && a != c && a != d && b != c && b != d && c != d
    modifies a, b, c, d
    ensures Within(a[..], N) && Within(b[..], N) && Within(c[..], N) && Within(d[..], N)
    ensures Eq(Val(a[..]), (Val(p.y[..]) - Val(p.x[..])) * (Val(q.y[..]) - Val(q.x[..])))
    ensures Eq(Val(b[..]), (Val(p.x[..]) + Val(p.y[..])) * (Val(q.x[..]) + Val(q.y[..])))
    ensures Eq(c0, Val(p.t[..]) * Val(q.t[..])) && Eq(Val(c[..]), c0 * D2)
    ensures Eq(Val(d[..]), Val(p.z[..]) * Val(q.z[..]))
  {
    hide Val, Mod, D2Limbs, FieldPrime;
    var d2 := Constant(D2Limbs());
    D2LimbsValue();
    DifferenceProduct(a, p.y, p.x, q.y, q.x);
    SumProductOf(b, p.x, p.y, q.x, q.y);
    MulN(c, p.t, q.t);
    c0 := Val(c[..]);
    MulN(c, c, d2);
    MulN(d, p.z, q.z);
  }

  /** p := p + q. The two points may be the same one: every read of q comes before the first write of p. */
  method PointAdd(p: Point, q: Point, ghost u: Pt, ghost v: Pt)
    requires Prime(P) && p.Valid() && q.Valid() && SameOrApart(p, q) && p.Is(u) && q.Is(v)
    modifies p.x, p.y, p.z, p.t
    ensures p.Is(Edwards.Add(u, v))
    ensures p != q ==> q.Is(v)
  {
    hide Val, Mod, OnCurve, Prime, Edwards.Add, FieldPrime;
    ghost var x1, y1, z1, t1 := Val(p.x[..]), Val(p.y[..]), Val(p.z[..]), Val(p.t[..]);
    ghost var x2, y2, z2, t2 := Val(q.x[..]), Val(q.y[..]), Val(q.z[..]), Val(q.t[..]);
    var a, b, c, d := new int64[16], new int64[16], new int64[16], new int64[16];
    ghost var c0 := AddTerms(p, q, a, b, c, d);
    ghost var pa, pb, pc, d0 := Val(a[..]), Val(b[..]), Val(c[..]), Val(d[..]);
    AddProducts(p, a, b, c, d);
    AddRepresents(x1, y1, z1, t1, u, x2, y2, z2, t2, v, pa, pb, c0, pc, d0, Val(p.x[..]), Val(p.y[..]), Val(p.z[..]), Val(p.t[..]));
  }

  /** The closing sums and products: X = EF, Y = HG, Z = GF, T = EH. */
  method AddProducts(p: Point, a: array<int64>, b: array<int64>, c: array<int64>, d: array<int64>)
    requires p.Valid() && a.Length == b.Length == c.Length == d.Length == 16
    requires {a, b, c, d} !! {p.x, p.y, p.z, p.t} && d !in {a, b, c}
    requires Within(a[..], N) && Within(b[..], N) && Within(c[..], N) && Within(d[..], N)
    modifies p.x, p.y, p.z, p.t, d
    ensures p.Small()
    ensures var pa, pb, pc, d0 := old(Val(a[..])), old(Val(b[..])), old(Val(c[..])), old(Val(d[..]));
            && Eq(Val(p.x[..]), (pb - pa) * (d0 + d0 - pc)) && Eq(Val(p.y[..]), (pb + pa) * (d0 + d0 + pc))
            && Eq(Val(p.z[..]), (d0 + d0 + pc) * (d0 + d0 - pc)) && Eq(Val(p.t[..]), (pb - pa) * (pb + pa))
  {
    hide Val, Mod, FieldPrime;
    var e, f, g, h := AddSums(a, b, c, d);
    MulN(p.x, e, f);
    MulN(p.y, h, g);
    MulN(p.z, g, f);
    MulN(p.t, e, h);
  }

  method AddSums(a: array<int64>, b: array<int64>, c: array<int64>, d: array<int64>)
    returns (e: array<int64>, f: array<int64>, g: array<int64>, h: array<int64>)
    requires a.Length == b.Length == c.Length == d.Length == 16 && d !in {a, b, c}
    requires Within(a[..], N) && Within(b[..], N) && Within(c[..], N) && Within(d[..], N)
    modifies d
    ensures fresh(e) && fresh(f) && fresh(g) && fresh(h)
    ensures e.Length == f.Length == g.Length == h.Length == 16
    ensures Within(e[..], LIMB) && Within(f[..], LIMB) && Within(g[..], LIMB) && Within(h[..], LIMB)
    ensures Val(e[..]) == old(Val(b[..]) - Val(a[..])) && Val(h[..]) == old(Val(b[..]) + Val(a[..]))
    ensures Val(f[..]) == old(Val(d[..]) + Val(d[..]) - Val(c[..]))
    ensures Val(g[..]) == old(Val(d[..]) + Val(d[..]) + Val(c[..]))
  {
    hide Val, Mod, FieldPrime;
    e, f, g, h := new int64[16], new int64[16], new int64[16], new int64[16];
    AddB(d, d, d, N);
    SubB(e, b, a, N);
    SubB(f, d, c, 2 * N);
    AddB(g, d, c, 2 * N);
    AddB(h, b, a, N);
  }

  // ---------- scalar multiplication ----------

  /** Exchanges the contents of p and q exactly when b is 1. */
  method PointCswap(p: Point, q: Point, b: int, ghost u: Pt, ghost v: Pt)
    requires p.Valid() && q.Valid() && Apart(p, q) && 0 <= b <= 1 && p.Is(u) && q.Is(v)
    modifies p.x, p.y, p.z, p.t, q.x, q.y, q.z, q.t
    ensures p.Is(if b == 1 then v else u) && q.Is(if b == 1 then u else v)
  {
    hide Val, Represents, FieldPrime;
    Sel(p.x, q.x, b);
    Sel(p.y, q.y, b);
    Sel(p.z, q.z, b);
    Sel(p.t, q.t, b);
  }

  lemma NeutralRepresents()
    ensures Represents(0, 1, 1, 0, ZERO)
  {
    hide Val, FieldPrime;
  }

  lemma UnitValues(zero: seq<int>, one: seq<int>)
    requires |zero| == |one| == 16 && (forall k :: 0 <= k < 16 ==> zero[k] == 0)
    requires one[0] == 1 && (forall k :: 1 <= k < 16 ==> one[k] == 0)
    ensures Val(zero) == 0 && Val(one) == 1
  {
    EvalZeros(zero, B16);
    EvalZeros(one[1..], B16);
  }

  /** Loads the neutral element (0 : 1 : 1 : 0). */
  method SetZero(p: Point)
    requires p.Valid()
    modifies p.x, p.y, p.z, p.t
    ensures p.Is(ZERO)
  {
    hide Val, Represents, FieldPrime;
    var zero, one := new int64[16](_ => 0), new int64[16](i => if i == 0 then 1 else 0);
    UnitValues(zero[..], one[..]);
    NeutralRepresents();
    Copy(p.x, zero);
    Copy(p.y, one);
    Copy(p.z, one);
    Copy(p.t, zero);
  }

  /** One ladder step keeps p = [k]u and q = [k+1]u while k takes in the next bit. */
  lemma LadderStep(k: nat, bit: int, u: Pt)
    requires Prime(P) && Associative() && OnCurve(u) && 0 <= bit <= 1
    ensures var pk, qk := Times(k + bit, u), Times(k + 1 - bit, u);
            && Edwards.Add(qk, pk) == Times(2 * k + 1, u)
            && Edwards.Add(pk, pk) == Times(2 * k + 2 * bit, u)
  {
    hide Prime, OnCurve, Times, Edwards.Add, FieldPrime;
    TimesAdd(k + 1 - bit, k + bit, u);
    TimesAdd(k + bit, k + bit, u);
  }

  lemma TimesOne(u: Pt)
    requires Prime(P) && OnCurve(u)
    ensures Times(0, u) == ZERO && Times(1, u) == u
  {
    hide Prime, OnCurve, Edwards.Add, FieldPrime;
    AddZero(u);
    assert Times(1, u) == Edwards.Add(Times(0, u), u);
  }

  /** Bit i of a byte string, as the ladder reads it. */
  lemma ScalarBit(s: seq<byte>, i: nat)
    requires |s| == 32 && i < 256
    ensures Eval(s, 256) >= 0 && BitOf(s[i / 8], i % 8) == BitOf(Eval(s, 256), i)
  {
    assert Pow(2, 8) == 256;
    DigitBit(s, 256, 8, i / 8, i % 8, 8 * (i / 8));
  }

  /** p := [s]q by the swap ladder; q is used up. */
  method ScalarMult(p: Point, q: Point, s: seq<byte>, ghost u: Pt)
    requires Prime(P) && Associative()
    requires p.Valid() && q.Valid() && Apart(p, q) && q.Is(u) && |s| == 32
    modifies p.x, p.y, p.z, p.t, q.x, q.y, q.z, q.t
    ensures Eval(s, 256) >= 0 && p.Is(Times(Eval(s, 256), u))
  {
    hide Val, Represents, Prime, OnCurve, Edwards.Add, Times, Eval, Pow, BitOf, Shifted, Associative, FieldPrime;
    EvalBound(s, 256);
    ghost var n: nat := Eval(s, 256);
    assert Pow(256, 32) == Pow(2, 256) by { TopPower(); }
    assert OnCurve(u) by { IsOnCurve(q, u); }
    SetZero(p);
    TimesOne(u);
    ShiftAll(n, 256);
    var i := 255;
    while i >= 0
      invariant -1 <= i <= 255
      invariant p.Is(Times(Shifted(n, i + 1), u)) && q.Is(Times(Shifted(n, i + 1) + 1, u))
    {
      ghost var k: nat := Shifted(n, i + 1);
      var bit := BitOf(s[i / 8], i % 8);
      ScalarBit(s, i);
      ShiftStep(n, i);
      LadderStep(k, bit, u);
      ghost var pk, qk := Times(k + bit, u), Times(k + 1 - bit, u);
      PointCswap(p, q, bit, Times(k, u), Times(k + 1, u));
      PointAdd(q, p, qk, pk);
      PointAdd(p, p, pk, pk);
      PointCswap(p, q, bit, Edwards.Add(pk, pk), Edwards.Add(qk, pk));
      i := i - 1;
    }
    ShiftZero(n);
  }

  lemma TopPower()
    ensures Pow(256, 32) == Pow(2, 256)
  {
    assert Pow(2, 8) == 256;
    PowMul(2, 8, 32);
  }

  lemma IsOnCurve(p: Point, u: Pt)
    requires p.Valid() && p.Is(u)
    ensures OnCurve(u)
  {}
}
