/** Extended coordinates (X, Y, Z, T) with x = X/Z, y = Y/Z and xy = T/Z. */
module Extended {
  import opened Arith
  import opened Primes
  import opened Fe25519
  import opened EdLimbs
  import opened Edwards

  ghost predicate Represents(x: int, y: int, z: int, t: int, a: Pt) {
    OnCurve(a) && !Eq(z, 0) && Eq(x, a.x * z) && Eq(y, a.y * z) && Eq(t, (a.x * a.y) * z)
  }

  /** The representation invariant XY = ZT. */
  lemma CrossProducts(x: int, y: int, z: int, t: int, a: Pt)
    requires Represents(x, y, z, t, a)
    ensures Eq(x * y, z * t)
  {
    hide Mod, Val, FieldPrime;
    CongMul(x, a.x * z, y, a.y * z, P);
    CongMul(z, z, t, (a.x * a.y) * z, P);
    assert (a.x * z) * (a.y * z) == z * ((a.x * a.y) * z);
  }

  lemma OneRatio(z: int, p: int, q: int, x: int)
    requires Prime(P) && !Eq(z, 0) && 0 <= p < P && 0 <= q < P && Eq(x, p * z) && Eq(x, q * z)
    ensures p == q
  {
    hide Prime, Mod, FieldPrime;
    assert z * p == p * z && z * q == q * z;
    Cancel(z, p, q, P);
    SmallEqual(p, q);
  }

  /** A coordinate quadruple stands for only one point. */
  lemma RepresentsOne(x: int, y: int, z: int, t: int, a: Pt, b: Pt)
    requires Prime(P) && Represents(x, y, z, t, a) && Represents(x, y, z, t, b)
    ensures a == b
  {
    hide Prime, Mod, Val, CurveEq, FieldPrime;
    OneRatio(z, a.x, b.x, x);
    OneRatio(z, a.y, b.y, y);
  }

  /** The difference and sum products of the two inputs, over the common factor z = z1 z2. */
  lemma CrossTerm(x1: int, y1: int, z1: int, x2: int, y2: int, z2: int, u: int, v: int, w: int, k: int, a: Pt, b: Pt)
    requires Eq(x1, a.x * z1) && Eq(y1, a.y * z1) && Eq(x2, b.x * z2) && Eq(y2, b.y * z2)
    requires k == 1 || k == -1
    requires u == y1 + k * x1 && v == y2 + k * x2 && Eq(w, u * v)
    ensures Eq(w, (z1 * z2) * ((a.y + k * a.x) * (b.y + k * b.x)))
  {
    hide Mod, Val, FieldPrime;
    CongMul(k, k, x1, a.x * z1, P);
    CongMul(k, k, x2, b.x * z2, P);
    CongAdd(y1, a.y * z1, k * x1, k * (a.x * z1), P);
    CongAdd(y2, b.y * z2, k * x2, k * (b.x * z2), P);
    CommonFactor(a.y, a.x, z1, k);
    CommonFactor(b.y, b.x, z2, k);
    CongMul(u, (a.y + k * a.x) * z1, v, (b.y + k * b.x) * z2, P);
    assert ((a.y + k * a.x) * z1) * ((b.y + k * b.x) * z2) == (z1 * z2) * ((a.y + k * a.x) * (b.y + k * b.x));
  }

  lemma CommonFactor(y: int, x: int, z: int, k: int)
    ensures y * z + k * (x * z) == (y + k * x) * z
  {}

  /** e, h, g and f of the addition formula over the common factor w = 2 z1 z2. */
  lemma Quarters(z: int, pa: int, pb: int, pc: int, pd: int, a: Pt, b: Pt, e: int)
    requires e == Mixed(a, b)
    requires Eq(pa, z * ((a.y - a.x) * (b.y - b.x))) && Eq(pb, z * ((a.y + a.x) * (b.y + b.x)))
    requires Eq(pc, 2 * z * e) && Eq(pd, 2 * z)
    ensures Eq(pb - pa, 2 * z * SumX(a, b)) && Eq(pb + pa, 2 * z * SumY(a, b))
    ensures Eq(pd - pc, 2 * z * (1 - e)) && Eq(pd + pc, 2 * z * (1 + e))
  {
    hide Mod, Val, FieldPrime, Mixed;
    var s, d := z * ((a.y + a.x) * (b.y + b.x)), z * ((a.y - a.x) * (b.y - b.x));
    CongSub(pb, s, pa, d, P);
    CongAdd(pb, s, pa, d, P);
    CongSub(pd, 2 * z, pc, 2 * z * e, P);
    CongAdd(pd, 2 * z, pc, 2 * z * e, P);
    QuarterSums(z, a.x, a.y, b.x, b.y, e);
  }

  lemma QuarterSums(z: int, x1: int, y1: int, x2: int, y2: int, e: int)
    ensures z * ((y1 + x1) * (y2 + x2)) - z * ((y1 - x1) * (y2 - x2)) == 2 * z * (x1 * y2 + x2 * y1)
    ensures z * ((y1 + x1) * (y2 + x2)) + z * ((y1 - x1) * (y2 - x2)) == 2 * z * (y1 * y2 + x1 * x2)
    ensures 2 * z - 2 * z * e == 2 * z * (1 - e) && 2 * z + 2 * z * e == 2 * z * (1 + e)
  {}

  /** Multiplying the four quarters gives the coordinates of the sum. */
  lemma ProductsRepresent(w: int, e: int, nx: int, ny: int, qe: int, qf: int, qg: int, qh: int,
                          x3: int, y3: int, z3: int, t3: int, r: Pt)
    requires Prime(P) && OnCurve(r) && !Eq(w, 0) && !Eq(1 + e, 0) && !Eq(1 - e, 0)
    requires Eq(r.x * (1 + e), nx) && Eq(r.y * (1 - e), ny)
    requires Eq(qe, w * nx) && Eq(qh, w * ny) && Eq(qf, w * (1 - e)) && Eq(qg, w * (1 + e))
    requires Eq(x3, qe * qf) && Eq(y3, qh * qg) && Eq(z3, qg * qf) && Eq(t3, qe * qh)
    ensures Represents(x3, y3, z3, t3, r)
  {
    hide Mod, Val, FieldPrime, Prime, OnCurve;
    var p, q := 1 + e, 1 - e;
    CongMul(w, w, r.x * p, nx, P);
    CongMul(w, w, r.y * q, ny, P);
    CongMul(qe, w * (r.x * p), qf, w * q, P);
    CongMul(qh, w * (r.y * q), qg, w * p, P);
    CongMul(qg, w * p, qf, w * q, P);
    CongMul(qe, w * (r.x * p), qh, w * (r.y * q), P);
    var z := (w * p) * (w * q);
    CongMul(r.x, r.x, z3, z, P);
    CongMul(r.y, r.y, z3, z, P);
    CongMul(r.x * r.y, r.x * r.y, z3, z, P);
    RegroupProducts(w, p, q, r.x, r.y);
    NonzeroProduct(w, p, P);
    NonzeroProduct(w, q, P);
    NonzeroProduct(w * p, w * q, P);
  }

  lemma RegroupProducts(w: int, p: int, q: int, x: int, y: int)
    ensures (w * (x * p)) * (w * q) == x * ((w * p) * (w * q))
    ensures (w * (y * q)) * (w * p) == y * ((w * p) * (w * q))
    ensures (w * (x * p)) * (w * (y * q)) == (x * y) * ((w * p) * (w * q))
  {}

  lemma AddQuarters(x1: int, y1: int, z1: int, t1: int, a: Pt, x2: int, y2: int, z2: int, t2: int, b: Pt,
                    pa: int, pb: int, c0: int, pc: int, d0: int, e: int, z: int)
    requires Eq(x1, a.x * z1) && Eq(y1, a.y * z1) && Eq(t1, (a.x * a.y) * z1)
    requires Eq(x2, b.x * z2) && Eq(y2, b.y * z2) && Eq(t2, (b.x * b.y) * z2)
    requires Eq(pa, (y1 - x1) * (y2 - x2)) && Eq(pb, (x1 + y1) * (x2 + y2))
    requires Eq(c0, t1 * t2) && Eq(pc, c0 * D2) && Eq(d0, z1 * z2) && e == Mixed(a, b) && z == z1 * z2
    ensures Eq(pb - pa, 2 * z * SumX(a, b)) && Eq(pb + pa, 2 * z * SumY(a, b))
    ensures Eq(d0 + d0 - pc, 2 * z * (1 - e)) && Eq(d0 + d0 + pc, 2 * z * (1 + e))
  {
    hide Mod, Val, FieldPrime, Mixed, SumX, SumY;
    MixedTerm(t1, t2, z1, z2, c0, pc, a, b, e);
    var pd := d0 + d0;
    var u, v := y1 - x1, y2 - x2;
    CrossTerm(x1, y1, z1, x2, y2, z2, u, v, pa, -1, a, b);
    var u', v' := x1 + y1, x2 + y2;
    CrossTerm(x1, y1, z1, x2, y2, z2, u', v', pb, 1, a, b);
    CongAdd(d0, z, d0, z, P);
    Quarters(z, pa, pb, pc, pd, a, b, e);
  }

  /** The addition formula of hlm_ed25519 on representatives. */
  lemma AddRepresents(x1: int, y1: int, z1: int, t1: int, a: Pt, x2: int, y2: int, z2: int, t2: int, b: Pt,
                      pa: int, pb: int, c0: int, pc: int, d0: int, x3: int, y3: int, z3: int, t3: int)
    requires Prime(P) && Represents(x1, y1, z1, t1, a) && Represents(x2, y2, z2, t2, b)
    requires Eq(pa, (y1 - x1) * (y2 - x2)) && Eq(pb, (x1 + y1) * (x2 + y2))
    requires Eq(c0, t1 * t2) && Eq(pc, c0 * D2) && Eq(d0, z1 * z2)
    requires Eq(x3, (pb - pa) * (d0 + d0 - pc)) && Eq(y3, (pb + pa) * (d0 + d0 + pc))
    requires Eq(z3, (d0 + d0 + pc) * (d0 + d0 - pc)) && Eq(t3, (pb - pa) * (pb + pa))
    ensures Represents(x3, y3, z3, t3, Add(a, b))
  {
    hide Mod, Val, FieldPrime, Prime, CurveEq, Add, Mixed, SumX, SumY;
    var e, z := Mixed(a, b), z1 * z2;
    OnCurveEq(a);
    OnCurveEq(b);
    Complete(a, b);
    AddOnCurve(a, b);
    AddCleared(a, b);
    var pd := d0 + d0;
    AddQuarters(x1, y1, z1, t1, a, x2, y2, z2, t2, b, pa, pb, c0, pc, d0, e, z);
    hide OnCurve;
    Constants();
    NonzeroProduct(z1, z2, P);
    NonzeroProduct(2, z, P);
    var qe, qf, qg, qh := pb - pa, pd - pc, pd + pc, pb + pa;
    ProductsRepresent(2 * z, e, SumX(a, b), SumY(a, b), qe, qf, qg, qh, x3, y3, z3, t3, Add(a, b));
  }

  lemma MixedTerm(t1: int, t2: int, z1: int, z2: int, c0: int, pc: int, a: Pt, b: Pt, e: int)
    requires Eq(t1, (a.x * a.y) * z1) && Eq(t2, (b.x * b.y) * z2) && Eq(c0, t1 * t2) && Eq(pc, c0 * D2)
    requires e == Mixed(a, b)
    ensures Eq(pc, 2 * (z1 * z2) * e)
  {
    hide Mod, Val, FieldPrime;
    Constants();
    CongMul(t1, (a.x * a.y) * z1, t2, (b.x * b.y) * z2, P);
    CongMul(c0, ((a.x * a.y) * z1) * ((b.x * b.y) * z2), D2, 2 * D, P);
    MixedRegroup(a.x * a.y, b.x * b.y, z1, z2, D, e);
  }

  lemma MixedRegroup(u: int, v: int, z1: int, z2: int, d: int, e: int)
    requires e == d * (u * v)
    ensures ((u * z1) * (v * z2)) * (2 * d) == 2 * (z1 * z2) * e
  {
    MulEq(2 * (z1 * z2), e, d * (u * v));
  }
}
