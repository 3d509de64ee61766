/** The twisted Edwards curve -x^2 + y^2 = 1 + d x^2 y^2 over the integers modulo P. */
module Edwards {
  import opened Arith
  import opened Primes
  import opened Fe25519
  import opened EdLimbs

  const HALF_D_ROOT: int := 0x42a9_8e6d_817a_9cbb_779a_5f9c_e7da_a4a4_1224_e00f_2f1f_5129_51dc_42f2_375e_b395

  ghost predicate Eq(a: int, b: int) {
    Cong(a, b, P)
  }

  lemma Constants()
    ensures Eq(D * 121666, -121665) && Eq(D2, 2 * D)
    ensures Eq(ROOT * ROOT, -1)
    ensures Eq(2 * (HALF_D_ROOT * HALF_D_ROOT), D)
    ensures !Eq(1, -1) && !Eq(2, 0) && !Eq(D, 0) && !Eq(ROOT, 0) && !Eq(HALF_D_ROOT, 0) && !Eq(1, 0)
  {
    DLimbsValue();
    D2LimbsValue();
    RootLimbsValue();
    PrimeValue();
    hide Mod, Val, FieldPrime;
    CongFrom(D * 121666, -121665, 0x1_3083, P);
    CongFrom(D2, 2 * D, -1, P);
    MulEq(ROOT, ROOT, 0x2b83_2480_4fc1_df0b_2b4d_0099_3dfb_d7a7_2f43_1806_ad2f_e478_c4ee_1b27_4a0e_a0b0);
    CongFrom(ROOT * ROOT, -1, 0xeca_a2e2_f6a2_302c_cedb_31ac_0572_0688_238c_ed20_78f3_eb0e_c9f2_2e8f_6219_72e5, P);
    CongFrom(2 * (HALF_D_ROOT * HALF_D_ROOT), D, 0x456f_76f7_4a57_5cbc_8bd7_0083_c5ab_bbc5_4fe1_48aa_2464_0627_b52f_1a35_c073_442b, P);
    OneAndMinusOne();
    CongSmall(2, P);
    CongSmall(D, P);
    CongSmall(ROOT, P);
    CongSmall(HALF_D_ROOT, P);
    CongSmall(1, P);
  }

  lemma OneAndMinusOne()
    ensures !Eq(1, -1)
  {
    hide Mod, FieldPrime;
    if Eq(1, -1) {
      CongAdd(1, -1, 1, 1, P);
      CongSmall(2, P);
    }
  }

  // ---------- d is not a square ----------

  lemma {:induction false} MinusOnePower(n: nat)
    ensures Pow(-1, 2 * n) == 1 && Pow(-1, 2 * n + 1) == -1
  {
    if n == 0 {
      assert Pow(-1, 1) == -1 * Pow(-1, 0);
    } else {
      MinusOnePower(n - 1);
      assert Pow(-1, 2 * n) == -1 * Pow(-1, 2 * n - 1);
    }
  }

  /** P - 1 is 4 modulo 8, so no element squares to a square root of -1. */
  lemma NoEighthRoot(z: int)
    requires Prime(P)
    ensures !Eq((z * z) * (z * z), -1)
  {
    hide Mod, Prime, Val, FieldPrime, Pow;
    Constants();
    if Eq(z, 0) {
      CongMul(z, 0, z, 0, P);
      CongMul(z * z, 0, z * z, 0, P);
      if Eq(0, -1) {
        CongAdd(1, 1, 0, -1, P);
      }
    } else if Eq((z * z) * (z * z), -1) {
      FourthPower(z);
      var q: nat := (P - 1) / 8;
      assert P - 1 == 4 * (2 * q + 1) by { PrimeValue(); }
      PowMul(z, 4, 2 * q + 1);
      CongPow(Pow(z, 4), -1, 2 * q + 1, P);
      MinusOnePower(q);
      Fermat(z, P);
    }
  }

  lemma FourthPower(z: int)
    ensures Pow(z, 4) == (z * z) * (z * z)
  {
    assert Pow(z, 1) == z * Pow(z, 0);
    assert Pow(z, 2) == z * z;
    hide Pow;
    PowAdd(z, 2, 2);
  }

  /** If D were a square then so would 2 be, and (1+i)/sqrt(2) would be an eighth root of unity. */
  lemma DNotSquare(r: int)
    requires Prime(P)
    ensures !Eq(r * r, D)
  {
    hide Mod, Val, FieldPrime, Prime;
    if Eq(r * r, D) {
      Constants();
      var h := HALF_D_ROOT;
      var w := Inverse(h, P);
      var t := r * w;
      SquareOfProduct(r, w);
      CongMul(r * r, 2 * (h * h), w * w, w * w, P);
      CongMul(h * w, 1, h * w, 1, P);
      CongMul(2, 2, (h * w) * (h * w), 1, P);
      HalfRoot(h, w);
      assert Eq(t * t, 2);
      if Eq(t, 0) {
        CongMul(t, 0, t, t, P);
        assert false;
      }
      var u := Inverse(t, P);
      var z := (1 + ROOT) * u;
      EighthRoot(t, u);
      CongMul(z * z, ROOT, z * z, ROOT, P);
      NoEighthRoot(z);
    }
  }

  lemma HalfRoot(h: int, w: int)
    ensures (2 * (h * h)) * (w * w) == 2 * ((h * w) * (h * w))
  {}

  lemma SquareOfProduct(a: int, b: int)
    ensures (a * b) * (a * b) == (a * a) * (b * b)
  {}

  lemma EighthRoot(t: int, u: int)
    requires Eq(t * t, 2) && Eq(t * u, 1)
    ensures var z := (1 + ROOT) * u; Eq(z * z, ROOT)
  {
    var z := (1 + ROOT) * u;
    hide Mod, Val, FieldPrime;
    Constants();
    CongAdd(ROOT * ROOT, -1, 1 + 2 * ROOT, 1 + 2 * ROOT, P);
    assert (1 + ROOT) * (1 + ROOT) == ROOT * ROOT + (1 + 2 * ROOT);
    CongMul((1 + ROOT) * (1 + ROOT), 2 * ROOT, u * u, u * u, P);
    SquareOfProduct(1 + ROOT, u);
    CongMul(t * u, 1, t * u, 1, P);
    SquareOfProduct(t, u);
    CongMul(t * t, 2, u * u, u * u, P);
    CongMul(2 * (u * u), 1, ROOT, ROOT, P);
    assert 2 * ROOT * (u * u) == 2 * (u * u) * ROOT;
  }

  // ---------- the affine law ----------

  datatype Pt = Pt(x: int, y: int)

  const ZERO: Pt := Pt(0, 1)

  /** Both sides of the curve equation. */
  ghost predicate CurveEq(x: int, y: int) {
    Eq(y * y - x * x, 1 + D * ((x * y) * (x * y)))
  }

  ghost predicate OnCurve(a: Pt) {
    0 <= a.x < P && 0 <= a.y < P && CurveEq(a.x, a.y)
  }

  /** d x1 x2 y1 y2. */
  function Mixed(a: Pt, b: Pt): int {
    D * ((a.x * a.y) * (b.x * b.y))
  }

  function SumX(a: Pt, b: Pt): int {
    a.x * b.y + b.x * a.y
  }

  function SumY(a: Pt, b: Pt): int {
    a.y * b.y + a.x * b.x
  }

  ghost predicate IsInverse(a: int, r: int) {
    0 <= r < P && Eq(a * r, 1)
  }

  /** The reduced inverse; a multiple of P has none and gives 0. */
  ghost function FieldInv(a: int): int {
    if exists r :: IsInverse(a, r) then var r :| IsInverse(a, r); r else 0
  }

  /** Section 5.1.4 of RFC 8032: the complete addition law. */
  ghost function Add(a: Pt, b: Pt): Pt {
    Pt(Mod(SumX(a, b) * FieldInv(1 + Mixed(a, b)), P), Mod(SumY(a, b) * FieldInv(1 - Mixed(a, b)), P))
  }

  lemma InverseOf(a: int)
    requires Prime(P) && !Eq(a, 0)
    ensures Eq(a * FieldInv(a), 1)
  {
    hide Mod, Val, FieldPrime, Prime;
    var b := Inverse(a, P);
    CongSelf(b, P);
    CongMul(a, a, Mod(b, P), b, P);
    assert IsInverse(a, Mod(b, P));
  }

  /** D times a square is a square only for zero. */
  lemma SquareRatio(w: int, f: int)
    requires Prime(P) && Eq(D * (w * w), f * f)
    ensures Eq(w, 0)
  {
    hide Mod, Val, FieldPrime, Prime;
    if !Eq(w, 0) {
      var k := Inverse(w, P);
      CongMul(D * (w * w), f * f, k * k, k * k, P);
      CongMul(w * k, 1, w * k, 1, P);
      CongMul(D, D, (w * k) * (w * k), 1, P);
      assert D * (w * w) * (k * k) == D * ((w * k) * (w * k));
      SquareOfProduct(f, k);
      DNotSquare(f * k);
    }
  }

  /** (i x + t y)^2 with i^2 = -1 and t^2 = 1. */
  lemma RootSquare(x: int, y: int, t: int)
    requires Eq(t * t, 1)
    ensures Eq((ROOT * x + t * y) * (ROOT * x + t * y), (y * y - x * x) + 2 * (ROOT * t * (x * y)))
  {
    hide Mod, Val, FieldPrime;
    Constants();
    var g := ROOT * x + t * y;
    SquareExpansion(ROOT, x, t, y);
    CongMul(ROOT * ROOT, -1, x * x, x * x, P);
    CongMul(t * t, 1, y * y, y * y, P);
    CongAdd((ROOT * ROOT) * (x * x), -1 * (x * x), (t * t) * (y * y), y * y, P);
    CongAdd((ROOT * ROOT) * (x * x) + (t * t) * (y * y), y * y - x * x, 2 * (ROOT * t * (x * y)), 2 * (ROOT * t * (x * y)), P);
  }

  lemma SquareExpansion(i: int, x: int, t: int, y: int)
    ensures (i * x + t * y) * (i * x + t * y) == ((i * i) * (x * x) + (t * t) * (y * y)) + 2 * (i * t * (x * y))
  {}

  /** With (d x1 x2 y1 y2)^2 = 1, the product x1 y1 (i x2 + t y2) would give a square root of d. */
  lemma MixedRoot(a: Pt, b: Pt, e: int, t: int)
    requires Prime(P) && CurveEq(a.x, a.y) && CurveEq(b.x, b.y)
    requires e == Mixed(a, b) && Eq(e * e, 1) && Eq(t * t, 1)
    ensures Eq((a.x * a.y) * (ROOT * b.x + t * b.y), 0)
  {
    hide Mod, Val, FieldPrime, Prime;
    var u, v := a.x * a.y, b.x * b.y;
    var f, g := ROOT * a.x + (t * e) * a.y, ROOT * b.x + t * b.y;
    var ra, rb := a.y * a.y - a.x * a.x, b.y * b.y - b.x * b.x;
    CongMul(t * t, 1, e * e, 1, P);
    SquareOfProduct(t, e);
    RootSquare(a.x, a.y, t * e);
    RootSquare(b.x, b.y, t);
    var k := 2 * (ROOT * t * v);
    CongAdd(rb, 1 + D * (v * v), k, k, P);
    CongMul(D * (u * u), D * (u * u), g * g, 1 + D * (v * v) + k, P);
    MixedExpansion(D, u, v, e, ROOT * t);
    var m := 2 * (ROOT * t * e * u);
    CongAdd(e * e, 1, D * (u * u) + m, D * (u * u) + m, P);
    CongAdd(ra, 1 + D * (u * u), m, m, P);
    assert 2 * (ROOT * (t * e) * u) == m;
    SquareOfProduct(u, g);
    assert D * ((u * g) * (u * g)) == D * (u * u) * (g * g);
    SquareRatio(u * g, f);
  }

  lemma MixedPolynomial(d: int, u: int, v: int, r: int)
    ensures d * (u * u) * (1 + d * (v * v) + 2 * (r * v))
         == (d * (u * v)) * (d * (u * v)) + (d * (u * u) + 2 * (r * (d * (u * v)) * u))
  {}

  lemma MixedExpansion(d: int, u: int, v: int, e: int, r: int)
    requires e == d * (u * v)
    ensures d * (u * u) * (1 + d * (v * v) + 2 * (r * v)) == e * e + (d * (u * u) + 2 * (r * e * u))
  {
    MixedPolynomial(d, u, v, r);
    MulEq(e, e, d * (u * v));
    MulEq(d * (u * v), e, d * (u * v));
    MulEq(2 * r * u, e, d * (u * v));
  }

  /** The addition law is complete: no denominator vanishes on the curve. */
  lemma Complete(a: Pt, b: Pt)
    requires Prime(P) && CurveEq(a.x, a.y) && CurveEq(b.x, b.y)
    ensures !Eq(1 + Mixed(a, b), 0) && !Eq(1 - Mixed(a, b), 0)
  {
    hide Mod, Val, FieldPrime, Prime;
    var e := Mixed(a, b);
    if Eq(1 + e, 0) || Eq(1 - e, 0) {
      assert (1 + e) * (1 - e) == 1 - e * e by { MulDistr(1 + e, 1, -e); }
      CongMul(1 + e, if Eq(1 + e, 0) then 0 else 1 + e, 1 - e, if Eq(1 + e, 0) then 1 - e else 0, P);
      assert Eq(1 - e * e, 0);
      CongAdd(1 - e * e, 0, e * e, e * e, P);
      NoUnitMixed(a, b, e);
    }
  }

  lemma NoUnitMixed(a: Pt, b: Pt, e: int)
    requires Prime(P) && CurveEq(a.x, a.y) && CurveEq(b.x, b.y) && e == Mixed(a, b)
    ensures !Eq(e * e, 1)
  {
    hide Mod, Prime, Val, FieldPrime, CurveEq;
    if Eq(e * e, 1) {
      Constants();
      var u, x, y := a.x * a.y, b.x, b.y;
      MixedRoot(a, b, e, 1);
      MixedRoot(a, b, e, -1);
      BothVanish(u, ROOT, x, y);
      CongMul(D, D, u * (x * y), 0, P);
      CongMul(e, 0, e, e, P);
    }
  }

  lemma BothVanish(u: int, r: int, x: int, y: int)
    requires Prime(P) && !Eq(2, 0) && !Eq(r, 0)
    requires Eq(u * (r * x + 1 * y), 0) && Eq(u * (r * x + -1 * y), 0)
    ensures Eq(u * (x * y), 0)
  {
    hide Mod, Prime, Val, FieldPrime;
    if Eq(u, 0) {
      CongMul(u, 0, x * y, x * y, P);
    } else {
      Euclid(u, r * x + 1 * y, P);
      Euclid(u, r * x + -1 * y, P);
      CongAdd(r * x + 1 * y, 0, r * x + -1 * y, 0, P);
      NonzeroProduct(2, r, P);
      Euclid(2 * r, x, P);
      CongMul(x, 0, u * y, u * y, P);
      assert x * (u * y) == u * (x * y);
    }
  }

  // ---------- sums stay on the curve ----------

  /** Coordinates with the denominators cleared determine the sum. */
  lemma AddCleared(a: Pt, b: Pt)
    requires Prime(P) && CurveEq(a.x, a.y) && CurveEq(b.x, b.y)
    ensures var r := Add(a, b); var e := Mixed(a, b);
            0 <= r.x < P && 0 <= r.y < P && Eq(r.x * (1 + e), SumX(a, b)) && Eq(r.y * (1 - e), SumY(a, b))
  {
    var r, e := Add(a, b), Mixed(a, b);
    hide Mod, Val, FieldPrime, Prime, FieldInv, Mixed, SumX, SumY;
    assert r.x == Mod(SumX(a, b) * FieldInv(1 + e), P) && r.y == Mod(SumY(a, b) * FieldInv(1 - e), P);
    Complete(a, b);
    Cleared(SumX(a, b), 1 + e, r.x);
    Cleared(SumY(a, b), 1 - e, r.y);
  }

  lemma Cleared(n: int, d: int, r: int)
    requires Prime(P) && !Eq(d, 0) && r == Mod(n * FieldInv(d), P)
    ensures Eq(r * d, n)
  {
    hide Mod, Val, FieldPrime, Prime, FieldInv;
    InverseOf(d);
    CongSelf(n * FieldInv(d), P);
    CongMul(r, n * FieldInv(d), d, d, P);
    CongMul(n, n, d * FieldInv(d), 1, P);
    assert n * FieldInv(d) * d == n * (d * FieldInv(d));
  }

  lemma SquaresDifference(x1: int, y1: int, x2: int, y2: int)
    ensures var nx, ny := x1 * y2 + x2 * y1, y1 * y2 + x1 * x2;
            ny * ny - nx * nx == (y1 * y1 - x1 * x1) * (y2 * y2 - x2 * x2)
  {}

  lemma SquaresSum(x1: int, y1: int, x2: int, y2: int)
    ensures var nx, ny := x1 * y2 + x2 * y1, y1 * y2 + x1 * x2;
            ny * ny + nx * nx == (x1 * x1 + y1 * y1) * (x2 * x2 + y2 * y2) + 4 * ((x1 * y1) * (x2 * y2))
  {}

  lemma SumProduct(x1: int, y1: int, x2: int, y2: int)
    ensures var nx, ny := x1 * y2 + x2 * y1, y1 * y2 + x1 * x2;
            nx * ny == (x2 * y2) * (x1 * x1 + y1 * y1) + (x1 * y1) * (x2 * x2 + y2 * y2)
  {}

  /** The part of the closure identity that uses the two curve equations. */
  lemma ClosureCore(al: int, be: int, e2: int, p1: int, p2: int, g: int)
    requires Eq(p1, 1 + al) && Eq(p2, 1 + be) && e2 == al * be
    ensures Eq((p1 * p2) * (1 + e2) + 8 * g, (1 - e2) * (1 - e2) + be * (p1 * p1) + al * (p2 * p2) + 8 * g)
  {
    hide Mod, Val, FieldPrime;
    CongMul(p1, 1 + al, p2, 1 + be, P);
    CongMul(p1 * p2, (1 + al) * (1 + be), 1 + e2, 1 + e2, P);
    CongAdd((p1 * p2) * (1 + e2), ((1 + al) * (1 + be)) * (1 + e2), 8 * g, 8 * g, P);
    CongMul(p1, 1 + al, p1, 1 + al, P);
    CongMul(be, be, p1 * p1, (1 + al) * (1 + al), P);
    CongMul(p2, 1 + be, p2, 1 + be, P);
    CongMul(al, al, p2 * p2, (1 + be) * (1 + be), P);
    CongAdd(be * (p1 * p1), be * ((1 + al) * (1 + al)), al * (p2 * p2), al * ((1 + be) * (1 + be)), P);
    var k := (1 - e2) * (1 - e2) + 8 * g;
    CongAdd(be * (p1 * p1) + al * (p2 * p2), be * ((1 + al) * (1 + al)) + al * ((1 + be) * (1 + be)), k, k, P);
    CorePolynomial(al, be, e2);
  }

  lemma CorePolynomial(al: int, be: int, e2: int)
    requires e2 == al * be
    ensures ((1 + al) * (1 + be)) * (1 + e2) == (1 - e2) * (1 - e2) + be * ((1 + al) * (1 + al)) + al * ((1 + be) * (1 + be))
  {}

  /** The curve equation of the sum with denominators cleared. */
  lemma ClosureIdentity(a: Pt, b: Pt, e: int)
    requires CurveEq(a.x, a.y) && CurveEq(b.x, b.y) && e == Mixed(a, b)
    ensures var nx, ny, p, q := SumX(a, b), SumY(a, b), 1 + e, 1 - e;
            Eq((ny * ny) * (p * p) - (nx * nx) * (q * q), (p * q) * (p * q) + D * ((nx * ny) * (nx * ny)))
  {
    hide Mod, Val, FieldPrime;
    var x1, y1, x2, y2 := a.x, a.y, b.x, b.y;
    var nx, ny, u, v := SumX(a, b), SumY(a, b), x1 * y1, x2 * y2;
    assert nx == x1 * y2 + x2 * y1 && ny == y1 * y2 + x1 * x2 && e == D * (u * v);
    assert Eq(y1 * y1 - x1 * x1, 1 + D * (u * u)) && Eq(y2 * y2 - x2 * x2, 1 + D * (v * v));
    hide CurveEq, Mixed, SumX, SumY;
    SquaresDifference(x1, y1, x2, y2);
    SquaresSum(x1, y1, x2, y2);
    SumProduct(x1, y1, x2, y2);
    SquareSplit(x1, y1);
    SquareSplit(x2, y2);
    ClosureTerms(nx, ny, e, u, v, x1 * x1 + y1 * y1, x2 * x2 + y2 * y2, y1 * y1 - x1 * x1, y2 * y2 - x2 * x2);
  }

  lemma SquareSplit(x: int, y: int)
    ensures (x * x + y * y) * (x * x + y * y) == (y * y - x * x) * (y * y - x * x) + 4 * ((x * y) * (x * y))
  {}

  lemma ClosureTerms(nx: int, ny: int, e: int, u: int, v: int, m: int, n: int, p1: int, p2: int)
    requires ny * ny - nx * nx == p1 * p2 && ny * ny + nx * nx == m * n + 4 * (u * v) && nx * ny == v * m + u * n
    requires m * m == p1 * p1 + 4 * (u * u) && n * n == p2 * p2 + 4 * (v * v)
    requires e == D * (u * v) && Eq(p1, 1 + D * (u * u)) && Eq(p2, 1 + D * (v * v))
    ensures var p, q := 1 + e, 1 - e;
            Eq((ny * ny) * (p * p) - (nx * nx) * (q * q), (p * q) * (p * q) + D * ((nx * ny) * (nx * ny)))
  {
    hide Mod, Val, FieldPrime;
    var al, be, e2, g, t := D * (u * u), D * (v * v), e * e, e * (u * v), 2 * (e * (m * n));
    ClearedLeft(nx * nx, ny * ny, e, p1 * p2, m * n, u * v);
    ClearedRight(D, nx * ny, e, u, v, m, n, p1, p2, al, be);
    MixedSquare(D, u, v, e, al, be);
    ClosureCore(al, be, e2, p1, p2, g);
    CongAdd((p1 * p2) * (1 + e2) + 8 * g, (1 - e2) * (1 - e2) + be * (p1 * p1) + al * (p2 * p2) + 8 * g, t, t, P);
  }

  lemma MixedSquare(d: int, u: int, v: int, e: int, al: int, be: int)
    requires e == d * (u * v) && al == d * (u * u) && be == d * (v * v)
    ensures e * e == al * be
  {
    SquareOfProduct(d, u * v);
  }

  lemma ClearedLeft(x2: int, y2: int, e: int, diff: int, mn: int, uv: int)
    requires y2 - x2 == diff && y2 + x2 == mn + 4 * uv
    ensures y2 * ((1 + e) * (1 + e)) - x2 * ((1 - e) * (1 - e)) == diff * (1 + e * e) + 8 * (e * uv) + 2 * (e * mn)
  {}

  lemma InnerSquare(u: int, v: int, m: int, n: int)
    ensures (v * m + u * n) * (v * m + u * n) == (v * v) * (m * m) + (u * u) * (n * n) + 2 * ((u * v) * (m * n))
  {}

  lemma ClearedRight(d: int, w: int, e: int, u: int, v: int, m: int, n: int, p1: int, p2: int, al: int, be: int)
    requires w == v * m + u * n && e == d * (u * v) && al == d * (u * u) && be == d * (v * v)
    requires m * m == p1 * p1 + 4 * (u * u) && n * n == p2 * p2 + 4 * (v * v)
    ensures ((1 + e) * (1 - e)) * ((1 + e) * (1 - e)) + d * (w * w)
         == (1 - e * e) * (1 - e * e) + be * (p1 * p1) + al * (p2 * p2) + 8 * (e * (u * v)) + 2 * (e * (m * n))
  {
    assert (1 + e) * (1 - e) == 1 - e * e;
    WeightedSquare(d, w, u, v, m, n);
    WeightedTerm(d, v * v, m * m, p1 * p1, u * u, be);
    WeightedTerm(d, u * u, n * n, p2 * p2, v * v, al);
    MulEq(m * n, e, d * (u * v));
    MulEq(u * v, e, d * (u * v));
  }

  lemma WeightedSquare(d: int, w: int, u: int, v: int, m: int, n: int)
    requires w == v * m + u * n
    ensures d * (w * w) == d * ((v * v) * (m * m)) + d * ((u * u) * (n * n)) + 2 * (d * ((u * v) * (m * n)))
  {
    InnerSquare(u, v, m, n);
    MulEq(w, w, v * m + u * n);
    MulEq(v * m + u * n, w, v * m + u * n);
  }

  lemma WeightedTerm(d: int, v2: int, m2: int, p2: int, u2: int, be: int)
    requires m2 == p2 + 4 * u2 && be == d * v2
    ensures d * (v2 * m2) == be * p2 + 4 * (d * (v2 * u2))
  {
    MulEq(v2, m2, p2 + 4 * u2);
    MulEq(p2, be, d * v2);
  }

  /** The law is closed on the curve. */
  lemma AddOnCurve(a: Pt, b: Pt)
    requires Prime(P) && CurveEq(a.x, a.y) && CurveEq(b.x, b.y)
    ensures OnCurve(Add(a, b))
  {
    hide Mod, Val, FieldPrime, Prime, Add, Mixed, SumX, SumY;
    var r, e, nx, ny := Add(a, b), Mixed(a, b), SumX(a, b), SumY(a, b);
    var p, q := 1 + e, 1 - e;
    AddCleared(a, b);
    ClosureIdentity(a, b, e);
    Complete(a, b);
    var xp, yq := r.x * p, r.y * q;
    CongMul(xp, nx, xp, nx, P);
    CongMul(yq, ny, yq, ny, P);
    CongMul(yq * yq, ny * ny, p * p, p * p, P);
    CongMul(xp * xp, nx * nx, q * q, q * q, P);
    CongSub((yq * yq) * (p * p), (ny * ny) * (p * p), (xp * xp) * (q * q), (nx * nx) * (q * q), P);
    CongMul(xp, nx, yq, ny, P);
    CongMul(xp * yq, nx * ny, xp * yq, nx * ny, P);
    CongMul(D, D, (xp * yq) * (xp * yq), (nx * ny) * (nx * ny), P);
    CongAdd((p * q) * (p * q), (p * q) * (p * q), D * ((xp * yq) * (xp * yq)), D * ((nx * ny) * (nx * ny)), P);
    ClearedCurve(r.x, r.y, p, q, D);
    NonzeroProduct(p, q, P);
    NonzeroProduct(p * q, p * q, P);
    Cancel((p * q) * (p * q), r.y * r.y - r.x * r.x, 1 + D * ((r.x * r.y) * (r.x * r.y)), P);
  }

  lemma ClearedCurve(x: int, y: int, p: int, q: int, d: int)
    ensures ((y * q) * (y * q)) * (p * p) - ((x * p) * (x * p)) * (q * q) == ((p * q) * (p * q)) * (y * y - x * x)
    ensures (p * q) * (p * q) + d * (((x * p) * (y * q)) * ((x * p) * (y * q))) == ((p * q) * (p * q)) * (1 + d * ((x * y) * (x * y)))
  {}

  lemma AddCommutes(a: Pt, b: Pt)
    ensures Add(a, b) == Add(b, a)
  {
    hide FieldInv, Mod, FieldPrime;
  }

  /** r is the representative of x in [0, P). */
  ghost predicate IsResidue(r: int, x: int) {
    0 <= r < P && Eq(r, x)
  }

  lemma Residue(x: int)
    ensures IsResidue(x % P, x)
  {
    hide Mod, FieldPrime;
    CongMod(x, P);
  }

  lemma SmallEqual(a: int, b: int)
    requires 0 <= a < P && 0 <= b < P && Eq(a, b)
    ensures a == b
  {
    ModSmall(a, P);
    ModSmall(b, P);
  }

  lemma AddZero(a: Pt)
    requires Prime(P) && OnCurve(a)
    ensures OnCurve(ZERO) && Add(ZERO, a) == a
  {
    hide Mod, Prime, Add, FieldPrime;
    assert CurveEq(ZERO.x, ZERO.y);
    AddCleared(ZERO, a);
    assert Mixed(ZERO, a) == 0;
    SmallEqual(Add(ZERO, a).x, a.x);
    SmallEqual(Add(ZERO, a).y, a.y);
  }

  // ---------- scalar multiples ----------

  /** The one fact about the group law that is taken as given. */
  ghost predicate Associative() {
    forall a: Pt, b: Pt, c: Pt :: OnCurve(a) && OnCurve(b) && OnCurve(c) ==> Add(Add(a, b), c) == Add(a, Add(b, c))
  }

  /** [n]a by repeated addition. */
  ghost function Times(n: nat, a: Pt): Pt {
    if n == 0 then ZERO else Add(Times(n - 1, a), a)
  }

  lemma {:induction false} TimesOnCurve(n: nat, a: Pt)
    requires Prime(P) && OnCurve(a)
    ensures OnCurve(Times(n, a))
  {
    hide Mod, Prime, OnCurve, CurveEq, Add, FieldPrime;
    if n == 0 {
      AddZero(a);
    } else {
      TimesOnCurve(n - 1, a);
      OnCurveEq(a);
      OnCurveEq(Times(n - 1, a));
      AddOnCurve(Times(n - 1, a), a);
    }
  }

  lemma OnCurveEq(a: Pt)
    requires OnCurve(a)
    ensures CurveEq(a.x, a.y)
  {}

  lemma {:induction false} TimesAdd(m: nat, n: nat, a: Pt)
    requires Prime(P) && Associative() && OnCurve(a)
    ensures Add(Times(m, a), Times(n, a)) == Times(m + n, a)
  {
    hide Mod, Prime, OnCurve, Add, FieldPrime;
    TimesOnCurve(m, a);
    if n == 0 {
      AddCommutes(Times(m, a), ZERO);
      AddZero(Times(m, a));
    } else {
      TimesAdd(m, n - 1, a);
      TimesOnCurve(n - 1, a);
      assert Times(m + n, a) == Add(Times(m + n - 1, a), a);
    }
  }
}
