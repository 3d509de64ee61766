/** P-256 point routines on big numbers: doubling, addition and scalar multiplication. */
module P256Point {
  import opened Arith
  import opened Primes
  import opened Radix
  import opened Bits
  import opened Bignum
  import opened P256Curve
  import opened P256Jacobian

  // ---------- field operations ----------

  /** Uninitialised locals. */
  method Locals() returns (t1: Bn, t2: Bn, t3: Bn)
    ensures t1.Valid() && t2.Valid() && t3.Valid()
    ensures fresh(t1) && fresh(t1.v) && fresh(t2) && fresh(t2.v) && fresh(t3) && fresh(t3.v)
    ensures t1 != t2 && t1 != t3 && t2 != t3 && t1.v != t2.v && t1.v != t3.v && t2.v != t3.v
  {
    t1 := new Bn();
    t2 := new Bn();
    t3 := new Bn();
  }

  /** A number reduced modulo the field prime. */
  ghost predicate Field(a: Bn)
    reads a, a.v
    ensures Field(a) ==> a.Valid()
  {
    a.Valid() && a.Value() < Q
  }

  /** The context's prime p. */
  ghost predicate IsPrimeP(p: Bn)
    reads p, p.v
    ensures IsPrimeP(p) ==> p.Valid()
  {
    p.Valid() && p.Value() == Q
  }

  lemma RoomForSum()
    ensures 2 * Q < Capacity()
  {
    PrimeValue();
    assert Pow(B32, 9) > 2 * Q;
    PowMonotone(9, MAX);
  }

  lemma ReducedEq(n: int)
    ensures 0 <= n % Q < Q && Eq(n % Q, n)
  {
    CongMod(n, Q);
  }

  method FMul(r: Bn, a: Bn, b: Bn, p: Bn)
    requires r.Valid() && Field(a) && Field(b) && IsPrimeP(p) && Separate(r, a) && Separate(r, b) && Separate(r, p)
    modifies r, r.v
    ensures Field(r) && Eq(r.Value(), old(a.Value() * b.Value()))
  {
    hide Bn.Value, Mod, FieldPrime, CoefficientWords;
    ReducedEq(a.Value() * b.Value());
    ModMul(r, a, b, p);
  }

  method FAdd(r: Bn, a: Bn, b: Bn, p: Bn)
    requires r.Valid() && Field(a) && Field(b) && IsPrimeP(p) && Separate(r, a) && Separate(r, b) && Separate(r, p)
    modifies r, r.v
    ensures Field(r) && Eq(r.Value(), old(a.Value() + b.Value()))
  {
    hide Bn.Value, Mod, Capacity, FieldPrime, CoefficientWords;
    RoomForSum();
    ReducedEq(a.Value() + b.Value());
    ModAdd(r, a, b, p);
  }

  method FSub(r: Bn, a: Bn, b: Bn, p: Bn)
    requires r.Valid() && Field(a) && Field(b) && IsPrimeP(p) && Separate(r, a) && Separate(r, b) && Separate(r, p)
    modifies r, r.v
    ensures Field(r) && Eq(r.Value(), old(a.Value() - b.Value()))
  {
    hide Bn.Value, Mod, FieldPrime, CoefficientWords;
    ReducedEq(a.Value() - b.Value());
    ModSub(r, a, b, p);
  }

  // ---------- points ----------

  class JPoint {
    const x: Bn
    const y: Bn
    const z: Bn

    constructor ()
      ensures Valid() && fresh(Cells())
    {
      x := new Bn();
      y := new Bn();
      z := new Bn();
    }

    ghost function Cells(): set<object> {
      {x, x.v, y, y.v, z, z.v}
    }

    ghost predicate Valid()
      reads x, y, z
    {
      && x.Valid() && y.Valid() && z.Valid()
      && x != y && x != z && y != z && x.v != y.v && x.v != z.v && y.v != z.v
    }

    /** The coordinates represent the affine point a. */
    ghost predicate Is(a: Point)
      reads Cells()
    {
      Valid() && Represents(x.Value(), y.Value(), z.Value(), a)
    }
  }

  ghost predicate Apart(p: JPoint, q: JPoint) {
    p.Cells() !! q.Cells()
  }

  method SetInfinity(r: JPoint)
    requires r.Valid()
    modifies r.Cells()
    ensures r.Is(Infinity)
  {
    hide Bn.Value, FieldPrime, CoefficientWords;
    FromU32(r.x, 1);
    FromU32(r.y, 1);
    Zero(r.z);
  }

  /** *r = *a */
  method CopyPoint(r: JPoint, a: JPoint, ghost u: Point)
    requires r.Valid() && a.Is(u) && (r == a || Apart(r, a))
    modifies r.Cells()
    ensures r.Is(u)
  {
    hide Bn.Value, Represents, FieldPrime, CoefficientWords;
    Copy(r.x, a.x);
    Copy(r.y, a.y);
    Copy(r.z, a.z);
  }

  method FromAffine(r: JPoint, x: Bn, y: Bn)
    requires r.Valid() && Field(x) && Field(y) && {x, x.v, y, y.v} !! r.Cells()
    requires CurveEq(x.Value(), y.Value())
    modifies r.Cells()
    ensures r.Is(Affine(old(x.Value()), old(y.Value())))
  {
    hide Bn.Value, CurveEq, FieldPrime, CoefficientWords;
    Copy(r.x, x);
    Copy(r.y, y);
    FromU32(r.z, 1);
  }

  // ---------- doubling ----------

  lemma TripleCong(x: int, d: int, m: int, q: int, t1: int, t2: int, alpha: int)
    requires Eq(m, x - d) && Eq(q, x + d) && Eq(t1, m * q) && Eq(t2, t1 + t1) && Eq(alpha, t2 + t1)
    ensures Eq(alpha, 3 * ((x - d) * (x + d)))
  {
    hide Mod, FieldPrime, CoefficientWords;
    var k := (x - d) * (x + d);
    CongMul(m, x - d, q, x + d, Q);
    CongAdd(t1, k, t1, k, Q);
    CongAdd(t2, k + k, t1, k, Q);
  }

  /** 3 (x - delta)(x + delta) */
  method Alpha(x: Bn, delta: Bn, p: Bn) returns (alpha: Bn)
    requires Field(x) && Field(delta) && IsPrimeP(p)
    ensures fresh(alpha) && fresh(alpha.v) && Field(alpha)
    ensures Eq(alpha.Value(), 3 * ((x.Value() - delta.Value()) * (x.Value() + delta.Value())))
  {
    hide Bn.Value, Bn.Valid, Field, IsPrimeP, Mod, FieldPrime, CoefficientWords;
    var t1, t2;
    alpha, t1, t2 := Locals();
    FSub(t1, x, delta, p);
    FAdd(t2, x, delta, p);
    ghost var m, q := t1.Value(), t2.Value();
    FMul(t1, t1, t2, p);
    FAdd(t2, t1, t1, p);
    FAdd(alpha, t2, t1, p);
    TripleCong(x.Value(), delta.Value(), m, q, t1.Value(), t2.Value(), alpha.Value());
  }

  lemma DoubleXCong(alpha: int, beta: int, sq: int, b2: int, b4: int, b8: int, x3: int)
    requires Eq(sq, alpha * alpha) && Eq(b2, beta + beta) && Eq(b4, b2 + b2) && Eq(b8, b4 + b4) && Eq(x3, sq - b8)
    ensures Eq(b4, 4 * beta) && Eq(x3, alpha * alpha - 8 * beta)
  {
    hide Mod, FieldPrime, CoefficientWords;
    CongAdd(b2, beta + beta, b2, beta + beta, Q);
    CongAdd(b4, 4 * beta, b4, 4 * beta, Q);
    CongSub(sq, alpha * alpha, b8, 8 * beta, Q);
  }

  /** alpha^2 - 8 beta and 4 beta */
  method DoubleX(alpha: Bn, beta: Bn, p: Bn) returns (t1: Bn, t2: Bn)
    requires Field(alpha) && Field(beta) && IsPrimeP(p)
    ensures fresh(t1) && fresh(t1.v) && fresh(t2) && fresh(t2.v) && t1 != t2 && t1.v != t2.v && Field(t1) && Field(t2)
    ensures Eq(t2.Value(), 4 * beta.Value()) && Eq(t1.Value(), alpha.Value() * alpha.Value() - 8 * beta.Value())
  {
    hide Bn.Value, Bn.Valid, Field, IsPrimeP, Mod, FieldPrime, CoefficientWords;
    var t3;
    t1, t2, t3 := Locals();
    FMul(t1, alpha, alpha, p);
    ghost var sq := t1.Value();
    FAdd(t2, beta, beta, p);
    ghost var b2 := t2.Value();
    FAdd(t2, t2, t2, p);
    FAdd(t3, t2, t2, p);
    FSub(t1, t1, t3, p);
    DoubleXCong(alpha.Value(), beta.Value(), sq, b2, t2.Value(), t3.Value(), t1.Value());
  }

  lemma DoubleZCong(s: int, sq: int, gamma: int, delta: int, d: int, z3: int, h: int)
    requires Eq(s, h) && Eq(sq, s * s) && Eq(d, sq - gamma) && Eq(z3, d - delta)
    ensures Eq(z3, h * h - gamma - delta)
  {
    hide Mod, FieldPrime, CoefficientWords;
    CongMul(s, h, s, h, Q);
    CongSub(sq, h * h, gamma, gamma, Q);
    CongSub(d, h * h - gamma, delta, delta, Q);
  }

  /** (y + z)^2 - gamma - delta */
  method DoubleZ(y: Bn, z: Bn, gamma: Bn, delta: Bn, p: Bn) returns (t3: Bn)
    requires Field(y) && Field(z) && Field(gamma) && Field(delta) && IsPrimeP(p)
    ensures fresh(t3) && fresh(t3.v) && Field(t3)
    ensures Eq(t3.Value(), (y.Value() + z.Value()) * (y.Value() + z.Value()) - gamma.Value() - delta.Value())
  {
    hide Bn.Value, Bn.Valid, Field, IsPrimeP, Mod, FieldPrime, CoefficientWords;
    t3 := new Bn();
    FAdd(t3, y, z, p);
    ghost var s := t3.Value();
    FMul(t3, t3, t3, p);
    ghost var sq := t3.Value();
    FSub(t3, t3, gamma, p);
    ghost var d := t3.Value();
    FSub(t3, t3, delta, p);
    DoubleZCong(s, sq, gamma.Value(), delta.Value(), d, t3.Value(), y.Value() + z.Value());
  }

  lemma EightCong(g: int, g2: int, g4: int, g8: int)
    requires Eq(g2, g + g) && Eq(g4, g2 + g2) && Eq(g8, g4 + g4)
    ensures Eq(g8, 8 * g)
  {
    hide Mod, FieldPrime, CoefficientWords;
    CongAdd(g2, g + g, g2, g + g, Q);
    CongAdd(g4, 4 * g, g4, 4 * g, Q);
  }

  /** t2 := t2 - 8 gamma */
  method SubEight(t2: Bn, gamma: Bn, p: Bn)
    requires Field(t2) && Field(gamma) && IsPrimeP(p) && {t2, t2.v} !! {gamma, gamma.v, p, p.v}
    modifies t2, t2.v
    ensures Field(t2) && Eq(t2.Value(), old(t2.Value()) - 8 * gamma.Value())
  {
    hide Bn.Value, Bn.Valid, Field, IsPrimeP, Mod, FieldPrime, CoefficientWords;
    var g2 := new Bn();
    FAdd(g2, gamma, gamma, p);
    ghost var v2 := g2.Value();
    FAdd(g2, g2, g2, p);
    ghost var v4 := g2.Value();
    FAdd(g2, g2, g2, p);
    EightCong(gamma.Value(), v2, v4, g2.Value());
    CongSub(t2.Value(), t2.Value(), g2.Value(), 8 * gamma.Value(), Q);
    FSub(t2, t2, g2, p);
  }

  lemma DoubleYCong(alpha: int, b4: int, beta: int, x3: int, d: int, m: int, g: int, y3: int)
    requires Eq(b4, 4 * beta) && Eq(d, b4 - x3) && Eq(m, alpha * d) && Eq(y3, m - 8 * g)
    ensures Eq(y3, alpha * (4 * beta - x3) - 8 * g)
  {
    hide Mod, FieldPrime, CoefficientWords;
    CongSub(b4, 4 * beta, x3, x3, Q);
    CongMul(alpha, alpha, d, 4 * beta - x3, Q);
    CongSub(m, alpha * (4 * beta - x3), 8 * g, 8 * g, Q);
  }

  /** t2 := alpha (t2 - t1) - 8 gamma^2, squaring gamma in place */
  method DoubleY(t2: Bn, gamma: Bn, alpha: Bn, t1: Bn, p: Bn, ghost beta: int)
    requires Field(t2) && Field(gamma) && Field(alpha) && Field(t1) && IsPrimeP(p)
    requires {t2, t2.v} !! {gamma, gamma.v} !! {alpha, alpha.v, t1, t1.v, p, p.v}
    requires Eq(t2.Value(), 4 * beta)
    modifies t2, t2.v, gamma, gamma.v
    ensures Field(t2) && Field(gamma) && Eq(gamma.Value(), old(gamma.Value() * gamma.Value()))
    ensures Eq(t2.Value(), alpha.Value() * (4 * beta - t1.Value()) - 8 * gamma.Value())
  {
    hide Bn.Value, Bn.Valid, Field, IsPrimeP, Mod, FieldPrime, CoefficientWords;
    ghost var b4 := t2.Value();
    FSub(t2, t2, t1, p);
    ghost var d := t2.Value();
    FMul(t2, alpha, t2, p);
    ghost var m := t2.Value();
    FMul(gamma, gamma, gamma, p);
    SubEight(t2, gamma, p);
    DoubleYCong(alpha.Value(), b4, beta, t1.Value(), d, m, gamma.Value(), t2.Value());
  }

  /** r := 2a, on every input. */
  method Double(r: JPoint, a: JPoint, p: Bn, ghost u: Point)
    requires Prime(Q) && r.Valid() && a.Is(u) && IsPrimeP(p) && (r == a || Apart(r, a)) && {p, p.v} !! r.Cells()
    modifies r.Cells()
    ensures r.Is(P256Curve.Add(u, u))
  {
    hide Bn.Value, Bn.Valid, Field, IsPrimeP, Mod, Prime, CurveEq, P256Curve.Add, FieldPrime, CoefficientWords;
    var infinite := IsZero(a.z);
    var flat := IsZero(a.y);
    DoubleCases(a.x.Value(), a.y.Value(), a.z.Value(), u);
    if infinite || flat {
      SetInfinity(r);
      return;
    }
    DoubleFinite(r, a, p, u);
  }

  lemma DoubleCases(x: int, y: int, z: int, u: Point)
    requires Prime(Q) && Represents(x, y, z, u)
    ensures z == 0 || y == 0 ==> P256Curve.Add(u, u) == Infinity
    ensures z != 0 && y != 0 ==> u.Affine? && u.y != 0
  {
    hide Mod, Prime, CurveEq, Slope, FieldPrime, CoefficientWords;
    if u.Affine? {
      ZeroY(x, y, z, u);
    }
  }

  /** The doubling formula; all of a is read before r is written. */
  method DoubleFinite(r: JPoint, a: JPoint, p: Bn, ghost u: Point)
    requires Prime(Q) && r.Valid() && a.Is(u) && IsPrimeP(p) && (r == a || Apart(r, a)) && {p, p.v} !! r.Cells()
    requires u.Affine? && u.y != 0
    modifies r.Cells()
    ensures r.Is(P256Curve.Add(u, u))
  {
    hide Bn.Value, Bn.Valid, Field, IsPrimeP, Mod, Prime, OnCurve, P256Curve.Add, FieldPrime, CoefficientWords;
    var t1, t2, t3 := DoubleTriple(a, p, u);
    Store(r, t1, t2, t3, P256Curve.Add(u, u));
  }

  method Store(r: JPoint, x: Bn, y: Bn, z: Bn, ghost u: Point)
    requires r.Valid() && x.Valid() && y.Valid() && z.Valid() && {x, x.v, y, y.v, z, z.v} !! r.Cells()
    requires Represents(x.Value(), y.Value(), z.Value(), u)
    modifies r.Cells()
    ensures r.Is(u)
  {
    hide Bn.Value, Represents, FieldPrime, CoefficientWords;
    Copy(r.x, x);
    Copy(r.y, y);
    Copy(r.z, z);
  }

  ghost predicate DoubleTerms(X: int, Y: int, Z: int, delta: int, gamma: int, beta: int, alpha: int) {
    Eq(delta, Z * Z) && Eq(gamma, Y * Y) && Eq(beta, X * gamma) && Eq(alpha, 3 * ((X - delta) * (X + delta)))
  }

  /** delta = Z^2, gamma = Y^2, beta = X gamma and alpha = 3 (X - delta)(X + delta) */
  method DoubleStart(a: JPoint, p: Bn) returns (delta: Bn, gamma: Bn, beta: Bn, alpha: Bn)
    requires Field(a.x) && Field(a.y) && Field(a.z) && IsPrimeP(p)
    ensures fresh(gamma) && fresh(gamma.v) && gamma != alpha && gamma.v != alpha.v
    ensures Field(delta) && Field(gamma) && Field(beta) && Field(alpha)
    ensures DoubleTerms(a.x.Value(), a.y.Value(), a.z.Value(), delta.Value(), gamma.Value(), beta.Value(), alpha.Value())
  {
    hide Bn.Value, Bn.Valid, Field, IsPrimeP, Mod, FieldPrime, CoefficientWords;
    delta, gamma, beta := Locals();
    FMul(delta, a.z, a.z, p);
    FMul(gamma, a.y, a.y, p);
    FMul(beta, a.x, gamma, p);
    alpha := Alpha(a.x, delta, p);
  }

  method DoubleTriple(a: JPoint, p: Bn, ghost u: Point) returns (t1: Bn, t2: Bn, t3: Bn)
    requires Prime(Q) && a.Is(u) && IsPrimeP(p) && u.Affine? && u.y != 0
    ensures fresh(t1) && fresh(t1.v) && fresh(t2) && fresh(t2.v) && fresh(t3) && fresh(t3.v)
    ensures t1.Valid() && t2.Valid() && t3.Valid()
    ensures Represents(t1.Value(), t2.Value(), t3.Value(), P256Curve.Add(u, u))
  {
    hide Bn.Value, Bn.Valid, IsPrimeP, Mod, Prime, OnCurve, P256Curve.Add, DoubleTerms, Represents, FieldPrime, CoefficientWords;
    ghost var X, Y, Z := a.x.Value(), a.y.Value(), a.z.Value();
    InField(a, u);
    var delta, gamma, beta, alpha := DoubleStart(a, p);
    ghost var d, g, b, l := delta.Value(), gamma.Value(), beta.Value(), alpha.Value();
    t1, t2 := DoubleX(alpha, beta, p);
    t3 := DoubleZ(a.y, a.z, gamma, delta, p);
    DoubleY(t2, gamma, alpha, t1, p, b);
    DoubleDone(X, Y, Z, u, d, g, b, l, gamma.Value(), t1.Value(), t2.Value(), t3.Value());
  }

  lemma InField(a: JPoint, u: Point)
    requires a.Is(u)
    ensures Field(a.x) && Field(a.y) && Field(a.z)
  {}

  lemma DoubleDone(X: int, Y: int, Z: int, u: Point, d: int, g: int, b: int, l: int, g2: int, X3: int, Y3: int, Z3: int)
    requires Prime(Q) && Represents(X, Y, Z, u) && u.Affine? && u.y != 0 && DoubleTerms(X, Y, Z, d, g, b, l)
    requires 0 <= X3 < Q && 0 <= Y3 < Q && 0 <= Z3 < Q && Eq(g2, g * g) && Eq(X3, l * l - 8 * b)
    requires Eq(Z3, (Y + Z) * (Y + Z) - g - d) && Eq(Y3, l * (4 * b - X3) - 8 * g2)
    ensures Represents(X3, Y3, Z3, P256Curve.Add(u, u))
  {
    hide Represents, Prime, Mod, FieldPrime, CoefficientWords;
    DoubleRepresents(X, Y, Z, u, d, g, b, l, g2, X3, Y3, Z3);
  }

  // ---------- addition ----------

  /** X z^2 and Y z^3, the coordinates of one point over the common denominator. */
  method CrossHalf(X: Bn, Y: Bn, z: Bn, p: Bn) returns (u: Bn, s: Bn, ghost zz: int, ghost c: int)
    requires Field(X) && Field(Y) && Field(z) && IsPrimeP(p)
    ensures Field(u) && Field(s)
    ensures Eq(zz, z.Value() * z.Value()) && Eq(c, z.Value() * zz)
    ensures Eq(u.Value(), X.Value() * zz) && Eq(s.Value(), Y.Value() * c)
  {
    hide Bn.Value, Bn.Valid, Field, IsPrimeP, Mod, FieldPrime, CoefficientWords;
    var d;
    d, u, s := Locals();
    FMul(d, z, z, p);
    FMul(u, X, d, p);
    FMul(s, z, d, p);
    zz, c := d.Value(), s.Value();
    FMul(s, Y, s, p);
  }

  method Cross(a: JPoint, b: JPoint, p: Bn, ghost u: Point, ghost v: Point) returns (u1: Bn, u2: Bn, s1: Bn, s2: Bn)
    requires Prime(Q) && a.Is(u) && b.Is(v) && u.Affine? && v.Affine? && IsPrimeP(p)
    ensures Field(u1) && Field(u2) && Field(s1) && Field(s2)
    ensures CrossTerms(u, v, a.z.Value() * b.z.Value(), u1.Value(), u2.Value(), s1.Value(), s2.Value())
  {
    hide Bn.Value, Bn.Valid, IsPrimeP, Mod, Prime, OnCurve, Represents, CrossTerms, FieldPrime, CoefficientWords;
    InField(a, u);
    InField(b, v);
    ghost var z1z1, z2z2, c1, c2;
    u1, s1, z2z2, c1 := CrossHalf(a.x, a.y, b.z, p);
    u2, s2, z1z1, c2 := CrossHalf(b.x, b.y, a.z, p);
    CrossProducts(a.x.Value(), a.y.Value(), a.z.Value(), u, b.x.Value(), b.y.Value(), b.z.Value(), v,
      z1z1, z2z2, c1, c2, u1.Value(), u2.Value(), s1.Value(), s2.Value());
  }

  ghost predicate ChordStartTerms(u1: int, u2: int, s1: int, s2: int, h: int, rr: int, hh: int, hhh: int, t: int) {
    Eq(h, u2 - u1) && Eq(rr, s2 - s1) && Eq(hh, h * h) && Eq(hhh, h * hh) && Eq(t, u1 * hh)
  }

  method Differences(u1: Bn, u2: Bn, s1: Bn, s2: Bn, p: Bn) returns (h: Bn, rr: Bn)
    requires Field(u1) && Field(u2) && Field(s1) && Field(s2) && IsPrimeP(p)
    ensures Field(h) && Field(rr)
    ensures Eq(h.Value(), u2.Value() - u1.Value()) && Eq(rr.Value(), s2.Value() - s1.Value())
  {
    hide Bn.Value, Bn.Valid, Field, IsPrimeP, Mod, FieldPrime, CoefficientWords;
    var unused;
    h, rr, unused := Locals();
    FSub(h, u2, u1, p);
    FSub(rr, s2, s1, p);
  }

  /** H^3 and U1 H^2 */
  method Powers(h: Bn, u1: Bn, p: Bn) returns (hhh: Bn, t1: Bn, ghost hh: int)
    requires Field(h) && Field(u1) && IsPrimeP(p)
    ensures fresh(t1) && fresh(t1.v) && t1 != hhh && t1.v != hhh.v && Field(hhh) && Field(t1)
    ensures Eq(hh, h.Value() * h.Value()) && Eq(hhh.Value(), h.Value() * hh) && Eq(t1.Value(), u1.Value() * hh)
  {
    hide Bn.Value, Bn.Valid, Field, IsPrimeP, Mod, FieldPrime, CoefficientWords;
    var sq;
    sq, hhh, t1 := Locals();
    FMul(sq, h, h, p);
    FMul(hhh, h, sq, p);
    FMul(t1, u1, sq, p);
    hh := sq.Value();
  }

  method ChordStart(u1: Bn, u2: Bn, s1: Bn, s2: Bn, p: Bn) returns (h: Bn, rr: Bn, hhh: Bn, t1: Bn, ghost hh: int)
    requires Field(u1) && Field(u2) && Field(s1) && Field(s2) && IsPrimeP(p)
    ensures fresh(t1) && fresh(t1.v) && t1 != rr && t1.v != rr.v && t1 != h && t1.v != h.v && t1 != hhh && t1.v != hhh.v
    ensures Field(h) && Field(rr) && Field(hhh) && Field(t1)
    ensures ChordStartTerms(u1.Value(), u2.Value(), s1.Value(), s2.Value(), h.Value(), rr.Value(), hh, hhh.Value(), t1.Value())
  {
    hide Bn.Value, Bn.Valid, Field, IsPrimeP, Mod, FieldPrime, CoefficientWords;
    h, rr := Differences(u1, u2, s1, s2, p);
    hhh, t1, hh := Powers(h, u1, p);
  }

  lemma ChordXCong(r: int, hhh: int, t: int, sq: int, d1: int, d2: int, x3: int)
    requires Eq(sq, r * r) && Eq(d1, sq - hhh) && Eq(d2, d1 - t) && Eq(x3, d2 - t)
    ensures Eq(x3, r * r - hhh - t - t)
  {
    hide Mod, FieldPrime, CoefficientWords;
    CongSub(sq, r * r, hhh, hhh, Q);
    CongSub(d1, r * r - hhh, t, t, Q);
    CongSub(d2, r * r - hhh - t, t, t, Q);
  }

  /** R^2 - H^3 - 2 U1 H^2 */
  method ChordX(rr: Bn, hhh: Bn, t1: Bn, p: Bn) returns (t2: Bn)
    requires Field(rr) && Field(hhh) && Field(t1) && IsPrimeP(p)
    ensures fresh(t2) && fresh(t2.v) && Field(t2)
    ensures Eq(t2.Value(), rr.Value() * rr.Value() - hhh.Value() - t1.Value() - t1.Value())
  {
    hide Bn.Value, Bn.Valid, Field, IsPrimeP, Mod, FieldPrime, CoefficientWords;
    t2 := new Bn();
    FMul(t2, rr, rr, p);
    ghost var sq := t2.Value();
    FSub(t2, t2, hhh, p);
    ghost var d1 := t2.Value();
    FSub(t2, t2, t1, p);
    ghost var d2 := t2.Value();
    FSub(t2, t2, t1, p);
    ChordXCong(rr.Value(), hhh.Value(), t1.Value(), sq, d1, d2, t2.Value());
  }

  lemma ChordYCong(r: int, t: int, x3: int, sh: int, d: int, m: int, y3: int)
    requires Eq(d, t - x3) && Eq(m, r * d) && Eq(y3, m - sh)
    ensures Eq(y3, r * (t - x3) - sh)
  {
    hide Mod, FieldPrime, CoefficientWords;
    CongMul(r, r, d, t - x3, Q);
    CongSub(m, r * (t - x3), sh, sh, Q);
  }

  /** R (U1 H^2 - X3) - S1 H^3, overwriting t1 */
  method ChordY(rr: Bn, t1: Bn, x3: Bn, s1: Bn, hhh: Bn, p: Bn) returns (y3: Bn, ghost sh: int)
    requires Field(rr) && Field(t1) && Field(x3) && Field(s1) && Field(hhh) && IsPrimeP(p)
    requires {t1, t1.v} !! {rr, rr.v, x3, x3.v, s1, s1.v, hhh, hhh.v, p, p.v}
    modifies t1, t1.v
    ensures fresh(y3) && fresh(y3.v) && Field(y3)
    ensures Eq(sh, s1.Value() * hhh.Value())
    ensures Eq(y3.Value(), rr.Value() * (old(t1.Value()) - x3.Value()) - sh)
  {
    hide Bn.Value, Bn.Valid, Field, IsPrimeP, Mod, FieldPrime, CoefficientWords;
    ghost var t := t1.Value();
    y3 := new Bn();
    var t2 := new Bn();
    FSub(t1, t1, x3, p);
    ghost var d := t1.Value();
    FMul(t1, rr, t1, p);
    FMul(t2, s1, hhh, p);
    sh := t2.Value();
    FSub(y3, t1, t2, p);
    ChordYCong(rr.Value(), t, x3.Value(), sh, d, t1.Value(), y3.Value());
  }

  /** Z1 Z2 H */
  method ChordZ(z1: Bn, z2: Bn, h: Bn, p: Bn) returns (z3: Bn, ghost z: int)
    requires Field(z1) && Field(z2) && Field(h) && IsPrimeP(p)
    ensures fresh(z3) && fresh(z3.v) && Field(z3)
    ensures Eq(z, z1.Value() * z2.Value()) && Eq(z3.Value(), z * h.Value())
  {
    hide Bn.Value, Bn.Valid, Field, IsPrimeP, Mod, FieldPrime, CoefficientWords;
    z3 := new Bn();
    var t1 := new Bn();
    FMul(t1, z1, z2, p);
    z := t1.Value();
    FMul(z3, t1, h, p);
  }

  method ChordTriple(a: JPoint, b: JPoint, p: Bn, u1: Bn, u2: Bn, s1: Bn, s2: Bn, ghost u: Point, ghost v: Point)
    returns (x3: Bn, y3: Bn, z3: Bn)
    requires Prime(Q) && a.Is(u) && b.Is(v) && IsPrimeP(p) && Field(u1) && Field(u2) && Field(s1) && Field(s2)
    requires u.Affine? && v.Affine? && u.x != v.x
    requires CrossTerms(u, v, a.z.Value() * b.z.Value(), u1.Value(), u2.Value(), s1.Value(), s2.Value())
    ensures fresh(x3) && fresh(x3.v) && fresh(y3) && fresh(y3.v) && fresh(z3) && fresh(z3.v)
    ensures x3.Valid() && y3.Valid() && z3.Valid()
    ensures Represents(x3.Value(), y3.Value(), z3.Value(), P256Curve.Add(u, v))
  {
    hide Bn.Value, Bn.Valid, IsPrimeP, Mod, Prime, OnCurve, Represents, CrossTerms, ChordStartTerms, P256Curve.Add, FieldPrime, CoefficientWords;
    InField(a, u);
    InField(b, v);
    assert OnCurve(u) && OnCurve(v) by { IsOnCurve(a, u); IsOnCurve(b, v); }
    ghost var Z1, Z2, n1, n2, m1, m2 := a.z.Value(), b.z.Value(), u1.Value(), u2.Value(), s1.Value(), s2.Value();
    var h, rr, hhh, t1;
    ghost var hh, sh, z;
    h, rr, hhh, t1, hh := ChordStart(u1, u2, s1, s2, p);
    ghost var hv, rv, cv, t := h.Value(), rr.Value(), hhh.Value(), t1.Value();
    x3 := ChordX(rr, hhh, t1, p);
    z3, z := ChordZ(a.z, b.z, h, p);
    y3, sh := ChordY(rr, t1, x3, s1, hhh, p);
    ChordDone(u, v, Z1, Z2, n1, n2, m1, m2, hv, rv, hh, cv, t, sh, x3.Value(), y3.Value(), z, z3.Value());
  }

  lemma ChordDone(a: Point, b: Point, Z1: int, Z2: int, u1: int, u2: int, s1: int, s2: int,
                  h: int, r: int, hh: int, hhh: int, t: int, sh: int, X3: int, Y3: int, z: int, Z3: int)
    requires Prime(Q) && OnCurve(a) && OnCurve(b) && CrossTerms(a, b, Z1 * Z2, u1, u2, s1, s2) && a.x != b.x
    requires ChordStartTerms(u1, u2, s1, s2, h, r, hh, hhh, t) && Eq(sh, s1 * hhh)
    requires 0 <= X3 < Q && 0 <= Y3 < Q && 0 <= Z3 < Q
    requires Eq(X3, r * r - hhh - t - t) && Eq(Y3, r * (t - X3) - sh) && Eq(z, Z1 * Z2) && Eq(Z3, z * h)
    ensures Represents(X3, Y3, Z3, P256Curve.Add(a, b))
  {
    hide Mod, Prime, OnCurve, Represents, CrossTerms, P256Curve.Add, FieldPrime, CoefficientWords;
    AddRepresents(a, b, Z1, Z2, u1, u2, s1, s2, h, r, hh, hhh, t, sh, X3, Y3, z, Z3);
  }

  /** r := a + b for finite points: different x, opposite, or equal. */
  method AddFinite(r: JPoint, a: JPoint, b: JPoint, p: Bn, ghost u: Point, ghost v: Point)
    requires Prime(Q) && r.Valid() && a.Is(u) && b.Is(v) && IsPrimeP(p) && {p, p.v} !! r.Cells()
    requires (r == a || Apart(r, a)) && (r == b || Apart(r, b)) && u.Affine? && v.Affine?
    modifies r.Cells()
    ensures r.Is(P256Curve.Add(u, v))
  {
    hide Bn.Value, Bn.Valid, IsPrimeP, Mod, Prime, OnCurve, Represents, CrossTerms, P256Curve.Add, FieldPrime, CoefficientWords;
    var u1, u2, s1, s2 := Cross(a, b, p, u, v);
    assert OnCurve(u) && OnCurve(v) by { IsOnCurve(a, u); IsOnCurve(b, v); }
    CrossDecides(u, v, a.z.Value() * b.z.Value(), u1.Value(), u2.Value(), s1.Value(), s2.Value());
    var c := Cmp(u1, u2);
    if c == 0 {
      SameXCases(u, v);
      c := Cmp(s1, s2);
      if c != 0 {
        SetInfinity(r);
      } else {
        Double(r, a, p, u);
      }
      return;
    }
    var x3, y3, z3 := ChordTriple(a, b, p, u1, u2, s1, s2, u, v);
    Store(r, x3, y3, z3, P256Curve.Add(u, v));
  }

  lemma IsOnCurve(a: JPoint, u: Point)
    requires a.Is(u)
    ensures OnCurve(u)
  {}

  lemma SameXCases(u: Point, v: Point)
    requires u.Affine? && v.Affine? && u.x == v.x
    ensures u.y != v.y ==> P256Curve.Add(u, v) == Infinity
    ensures u.y == v.y ==> u == v
  {}

  /** r := a + b on every pair of inputs. */
  method Add(r: JPoint, a: JPoint, b: JPoint, p: Bn, ghost u: Point, ghost v: Point)
    requires Prime(Q) && r.Valid() && a.Is(u) && b.Is(v) && IsPrimeP(p) && {p, p.v} !! r.Cells()
    requires (r == a || Apart(r, a)) && (r == b || Apart(r, b))
    modifies r.Cells()
    ensures r.Is(P256Curve.Add(u, v))
  {
    hide Bn.Value, Mod, Prime, CurveEq, P256Curve.Add, FieldPrime, CoefficientWords;
    AddInfinity(u);
    AddInfinity(v);
    var infinite := IsZero(a.z);
    if infinite {
      CopyPoint(r, b, v);
      return;
    }
    infinite := IsZero(b.z);
    if infinite {
      CopyPoint(r, a, u);
      return;
    }
    AddFinite(r, a, b, p, u, v);
  }

  // ---------- scalar multiplication ----------

  /** acc = (k >> i) a for the bits taken in so far. */
  lemma ScalarStep(k: nat, bit: int, u: Point)
    requires Prime(Q) && Associative() && OnCurve(u) && 0 <= bit <= 1
    ensures P256Curve.Add(Times(k, u), Times(k, u)) == Times(2 * k, u)
    ensures bit == 1 ==> P256Curve.Add(Times(2 * k, u), u) == Times(2 * k + 1, u)
  {
    TimesAdd(k, k, u);
  }

  /** One round: t := 2 acc, then acc := t or t + a. */
  method ScalarRound(acc: JPoint, k: Bn, i: nat, a: JPoint, p: Bn, ghost n: nat, ghost u: Point)
    requires Prime(Q) && Associative() && a.Is(u) && IsPrimeP(p) && k.Valid() && Apart(acc, a)
    requires {p, p.v, k, k.v} !! acc.Cells() && k.Value() == n && acc.Is(Times(Shifted(n, i + 1), u))
    modifies acc.Cells()
    ensures acc.Is(Times(Shifted(n, i), u))
  {
    hide Bn.Value, Bn.Valid, IsPrimeP, Mod, Prime, OnCurve, Represents, P256Curve.Add, Times, Shifted, BitOf, Associative, FieldPrime, CoefficientWords;
    assert OnCurve(u) by { IsOnCurve(a, u); }
    ghost var m := Shifted(n, i + 1);
    ShiftStep(n, i);
    ScalarStep(m, BitOf(n, i), u);
    var t := new JPoint();
    Double(t, acc, p, Times(m, u));
    var bit := Bit(k, i);
    if bit != 0 {
      Add(acc, t, a, p, Times(2 * m, u), u);
    } else {
      CopyPoint(acc, t, Times(2 * m, u));
    }
  }

  /** r := k a */
  method ScalarMul(r: JPoint, k: Bn, a: JPoint, p: Bn, ghost u: Point)
    requires Prime(Q) && Associative() && r.Valid() && a.Is(u) && IsPrimeP(p) && k.Valid()
    requires Apart(r, a) && {p, p.v, k, k.v} !! r.Cells()
    modifies r.Cells()
    ensures r.Is(Times(old(k.Value()), u))
  {
    hide Bn.Value, Bn.Valid, IsPrimeP, Mod, Prime, OnCurve, Represents, P256Curve.Add, Times, Shifted, BitOf, Associative, FieldPrime, CoefficientWords;
    ghost var n := k.Value();
    var bits := Bitlen(k);
    ShiftAll(n, bits);
    TimesZero(u);
    var acc := new JPoint();
    SetInfinity(acc);
    var i: int := bits as int - 1;
    while i >= 0
      modifies acc.Cells()
      invariant -1 <= i < bits
      invariant acc.Is(Times(Shifted(n, i + 1), u))
    {
      ScalarRound(acc, k, i, a, p, n, u);
      i := i - 1;
    }
    ShiftZero(n);
    CopyPoint(r, acc, Times(n, u));
  }

  lemma TimesZero(u: Point)
    ensures Times(0, u) == Infinity
  {}
}
