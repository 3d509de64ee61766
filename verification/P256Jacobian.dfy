/** Jacobian coordinates (X, Y, Z) with x = X/Z^2 and y = Y/Z^3; infinity has Z = 0. */
module P256Jacobian {
  import opened Arith
  import opened Primes
  import opened P256Curve

  ghost predicate Represents(x: int, y: int, z: int, a: Point) {
    && 0 <= x < Q && 0 <= y < Q && 0 <= z < Q && OnCurve(a)
    && (z == 0 <==> a.Infinity?)
    && (a.Affine? ==> Eq(x, a.x * (z * z)) && Eq(y, a.y * ((z * z) * z)))
  }

  /** A coordinate triple stands for only one point. */
  lemma RepresentsOne(x: int, y: int, z: int, a: Point, b: Point)
    requires Prime(Q) && Represents(x, y, z, a) && Represents(x, y, z, b)
    ensures a == b
  {
    hide Mod, Prime, CurveEq, FieldPrime, CoefficientWords;
    if z != 0 {
      SmallNonzero(z);
      NonzeroProduct(z, z, Q);
      NonzeroProduct(z * z, z, Q);
      CrossEqual(a.x, b.x, z * z, x, x);
      CrossEqual(a.y, b.y, (z * z) * z, y, y);
    }
  }

  /** The Jacobian curve equation Y^2 = X^3 - 3 X Z^4 + b Z^6, with z4 and z6 the powers of Z. */
  lemma JacobianEquation(x: int, y: int, z: int, z4: int, z6: int, a: Point)
    requires Represents(x, y, z, a) && a.Affine? && z4 == (z * z) * (z * z) && z6 == z4 * (z * z)
    ensures Eq(y * y, x * x * x - 3 * x * z4 + B * z6)
  {
    hide Mod, OnCurve, FieldPrime, CoefficientWords;
    var s := z * z;
    CongMul(y, a.y * (s * z), y, a.y * (s * z), Q);
    assert (a.y * (s * z)) * (a.y * (s * z)) == (a.y * a.y) * (s * s * s) by { SquareScale(a.y, s, z); }
    assert Eq(a.y * a.y, Cubic(a.x)) by { CurveEquation(a); }
    CongMul(a.y * a.y, Cubic(a.x), s * s * s, s * s * s, Q);
    CongMul(x, a.x * s, x, a.x * s, Q);
    CongMul(x * x, (a.x * s) * (a.x * s), x, a.x * s, Q);
    CongMul(3 * (s * s), 3 * (s * s), x, a.x * s, Q);
    CongSub(x * x * x, (a.x * s) * (a.x * s) * (a.x * s), 3 * (s * s) * x, 3 * (s * s) * (a.x * s), Q);
    var k := B * (s * s * s);
    CongAdd(x * x * x - 3 * (s * s) * x, (a.x * s) * (a.x * s) * (a.x * s) - 3 * (s * s) * (a.x * s), k, k, Q);
    CubicScale(a.x, s, B);
    assert 3 * (s * s) * x == 3 * x * (s * s);
  }

  lemma CurveEquation(a: Point)
    requires OnCurve(a) && a.Affine?
    ensures Eq(a.y * a.y, Cubic(a.x))
  {}

  lemma SquareScale(y: int, s: int, z: int)
    requires s == z * z
    ensures (y * (s * z)) * (y * (s * z)) == (y * y) * (s * s * s)
  {
    assert (y * (s * z)) * (y * (s * z)) == (y * y) * ((s * s) * (z * z));
    MulEq((y * y) * (s * s), s, z * z);
  }

  lemma CubicScale(x: int, s: int, b: int)
    ensures (x * s) * (x * s) * (x * s) - 3 * (s * s) * (x * s) + b * (s * s * s) == (x * x * x - 3 * x + b) * (s * s * s)
  {}

  /** Y vanishes exactly when y does. */
  lemma ZeroY(x: int, y: int, z: int, a: Point)
    requires Prime(Q) && Represents(x, y, z, a) && a.Affine?
    ensures y == 0 <==> a.y == 0
  {
    hide Mod, Prime, CurveEq, FieldPrime, CoefficientWords;
    if a.y != 0 {
      SmallNonzero(a.y);
      SmallNonzero(z);
      NonzeroProduct(z, z, Q);
      NonzeroProduct(z * z, z, Q);
      NonzeroProduct(a.y, (z * z) * z, Q);
    } else {
      SmallEqual(y, 0);
    }
  }

  // ---------- from the scaled line to the sum ----------

  /** X3 and Y3 over W^2 and W^3 are the reflected third point of the line with slope l. */
  lemma ScaledThird(l: int, x1: int, y1: int, x2: int, w: int, X3: int, Y3: int, Z3: int)
    requires 0 <= X3 < Q && 0 <= Y3 < Q && 0 <= Z3 < Q && !Eq(w, 0) && Eq(Z3, w)
    requires var x3 := Mod(l * l - x1 - x2, Q); OnCurve(Affine(x3, Mod(l * (x1 - x3) - y1, Q)))
    requires Eq(X3, (l * l - x1 - x2) * (w * w))
    requires Eq(Y3, (l * w) * (x1 * (w * w) - X3) - y1 * ((w * w) * w))
    ensures var x3 := Mod(l * l - x1 - x2, Q); Represents(X3, Y3, Z3, Affine(x3, Mod(l * (x1 - x3) - y1, Q)))
  {
    hide Mod, CurveEq, FieldPrime, CoefficientWords;
    var t := l * l - x1 - x2;
    var x3 := Mod(t, Q);
    var u := l * (x1 - x3) - y1;
    var y3 := Mod(u, Q);
    CongSelf(t, Q);
    CongSelf(u, Q);
    CongMul(w, Z3, w, Z3, Q);
    CongMul(w * w, Z3 * Z3, w, Z3, Q);
    CongMul(x3, t, w * w, w * w, Q);
    CongMul(x3, x3, w * w, Z3 * Z3, Q);
    CongSub(x1 * (w * w), x1 * (w * w), X3, x3 * (w * w), Q);
    CongMul(l * w, l * w, x1 * (w * w) - X3, x1 * (w * w) - x3 * (w * w), Q);
    var k := y1 * ((w * w) * w);
    CongSub((l * w) * (x1 * (w * w) - X3), (l * w) * (x1 * (w * w) - x3 * (w * w)), k, k, Q);
    ThirdY(l, w, x1, x3, y1);
    CongMul(y3, u, (w * w) * w, (w * w) * w, Q);
    CongMul(y3, y3, (w * w) * w, (Z3 * Z3) * Z3, Q);
    assert Eq(X3, x3 * (Z3 * Z3)) && Eq(Y3, y3 * ((Z3 * Z3) * Z3));
    NonzeroValue(Z3, w);
  }

  lemma NonzeroValue(z: int, w: int)
    requires Eq(z, w) && !Eq(w, 0)
    ensures z != 0
  {
    hide Mod, FieldPrime, CoefficientWords;
  }

  lemma ThirdY(l: int, w: int, x1: int, x3: int, y1: int)
    ensures (l * w) * (x1 * (w * w) - x3 * (w * w)) - y1 * ((w * w) * w) == (l * (x1 - x3) - y1) * ((w * w) * w)
  {}

  // ---------- doubling ----------

  /** Z3 = 2YZ = 2 y Z^4. */
  lemma DoubleZ(y: int, s: int, Y: int, Z: int, delta: int, gamma: int, Z3: int)
    requires s == Z * Z && Eq(Y, y * (s * Z)) && Eq(delta, Z * Z) && Eq(gamma, Y * Y)
    requires Eq(Z3, (Y + Z) * (Y + Z) - gamma - delta)
    ensures Eq(Z3, 2 * (y * (s * s)))
  {
    hide Mod, FieldPrime, CoefficientWords;
    var h := (Y + Z) * (Y + Z);
    CongSub(h, h, gamma, Y * Y, Q);
    CongSub(h - gamma, h - Y * Y, delta, Z * Z, Q);
    assert h - Y * Y - Z * Z == 2 * Z * Y;
    CongMul(2 * Z, 2 * Z, Y, y * (s * Z), Q);
    assert 2 * Z * (y * (s * Z)) == (2 * y * s) * (Z * Z);
    MulEq(2 * y * s, s, Z * Z);
  }

  /** alpha = 3 (X - Z^2)(X + Z^2) is the slope times W. */
  lemma DoubleAlpha(l: int, x: int, y: int, s: int, X: int, delta: int, alpha: int, w: int)
    requires Eq(X, x * s) && Eq(delta, s) && Eq(alpha, 3 * ((X - delta) * (X + delta)))
    requires Eq(l * (2 * y), 3 * (x * x - 1)) && w == 2 * (y * (s * s))
    ensures Eq(alpha, l * w)
  {
    hide Mod, FieldPrime, CoefficientWords;
    CongSub(X, x * s, delta, s, Q);
    CongAdd(X, x * s, delta, s, Q);
    CongMul(X - delta, x * s - s, X + delta, x * s + s, Q);
    CongMul(3, 3, (X - delta) * (X + delta), (x * s - s) * (x * s + s), Q);
    CongMul(l * (2 * y), 3 * (x * x - 1), s * s, s * s, Q);
    DoubleAlphaIdentity(x, s);
    assert l * (2 * y) * (s * s) == l * w by { MulEq(l, w, 2 * (y * (s * s))); }
  }

  lemma DoubleAlphaIdentity(x: int, s: int)
    ensures 3 * ((x * s - s) * (x * s + s)) == 3 * (x * x - 1) * (s * s)
  {}

  /** gamma = y^2 Z^6. */
  lemma DoubleGamma(y: int, s: int, Y: int, Z: int, gamma: int)
    requires s == Z * Z && Eq(Y, y * (s * Z)) && Eq(gamma, Y * Y)
    ensures Eq(gamma, (y * y) * (s * s * s))
  {
    hide Mod, FieldPrime, CoefficientWords;
    CongMul(Y, y * (s * Z), Y, y * (s * Z), Q);
    SquareScale(y, s, Z);
  }

  /** 4 beta = x W^2 and 8 gamma^2 = y W^3. */
  lemma DoubleBeta(x: int, y: int, s: int, X: int, gamma: int, beta: int, gamma2: int, w: int)
    requires Eq(X, x * s) && Eq(gamma, (y * y) * (s * s * s)) && Eq(beta, X * gamma) && Eq(gamma2, gamma * gamma)
    requires w == 2 * (y * (s * s))
    ensures Eq(4 * beta, x * (w * w)) && Eq(8 * gamma2, y * ((w * w) * w))
  {
    hide Mod, FieldPrime, CoefficientWords;
    var g := (y * y) * (s * s * s);
    CongMul(X, x * s, gamma, g, Q);
    CongMul(4, 4, beta, (x * s) * g, Q);
    CongMul(gamma, g, gamma, g, Q);
    CongMul(8, 8, gamma2, g * g, Q);
    BetaIdentity(x, y, s, w);
    GammaIdentity(y, s, w);
  }

  lemma BetaIdentity(x: int, y: int, s: int, w: int)
    requires w == 2 * (y * (s * s))
    ensures 4 * ((x * s) * ((y * y) * (s * s * s))) == x * (w * w)
  {
    var a := y * (s * s);
    assert w * w == 4 * (a * a);
    assert a * a == (y * y) * ((s * s * s) * s);
    MulEq(x, w * w, 4 * ((y * y) * ((s * s * s) * s)));
  }

  lemma GammaIdentity(y: int, s: int, w: int)
    requires w == 2 * (y * (s * s))
    ensures 8 * (((y * y) * (s * s * s)) * ((y * y) * (s * s * s))) == y * ((w * w) * w)
  {
    var a, q := y * (s * s), s * s;
    assert (w * w) * w == 8 * (a * a * a);
    MulEq(y, (w * w) * w, 8 * (a * a * a));
    assert ((y * y) * (s * s * s)) * ((y * y) * (s * s * s)) == (y * y * y * y) * ((s * s * s) * (s * s * s));
    assert (s * s * s) * (s * s * s) == q * q * q;
    MulEq(y * y * y * y, (s * s * s) * (s * s * s), q * q * q);
    assert y * ((y * q) * (y * q) * (y * q)) == (y * y * y * y) * (q * q * q);
  }

  /** The doubling formula dbl-2001-b computes a + a. */
  lemma DoubleRepresents(X: int, Y: int, Z: int, a: Point, delta: int, gamma: int, beta: int, alpha: int, gamma2: int, X3: int, Y3: int, Z3: int)
    requires Prime(Q) && Represents(X, Y, Z, a) && a.Affine? && a.y != 0
    requires 0 <= X3 < Q && 0 <= Y3 < Q && 0 <= Z3 < Q
    requires Eq(delta, Z * Z) && Eq(gamma, Y * Y) && Eq(beta, X * gamma) && Eq(alpha, 3 * ((X - delta) * (X + delta)))
    requires Eq(gamma2, gamma * gamma) && Eq(X3, alpha * alpha - 8 * beta)
    requires Eq(Z3, (Y + Z) * (Y + Z) - gamma - delta) && Eq(Y3, alpha * (4 * beta - X3) - 8 * gamma2)
    ensures Represents(X3, Y3, Z3, Add(a, a))
  {
    hide Mod, Prime, CurveEq, Slope, FieldPrime, CoefficientWords;
    AddOnCurve(a, a);
    var s := Z * Z;
    var w := 2 * (a.y * (s * s));
    var l := Slope(a.x, a.y, a.x, a.y);
    TangentSlope(a.x, a.y);
    DoubleZ(a.y, s, Y, Z, delta, gamma, Z3);
    DoubleAlpha(l, a.x, a.y, s, X, delta, alpha, w);
    DoubleGamma(a.y, s, Y, Z, gamma);
    DoubleBeta(a.x, a.y, s, X, gamma, beta, gamma2, w);
    DoubleScaled(l, a.x, a.y, w, alpha, beta, gamma2, X3, Y3);
    SmallNonzero(a.y);
    SmallNonzero(Z);
    TwoNonzero();
    NonzeroProduct(Z, Z, Q);
    NonzeroProduct(s, s, Q);
    NonzeroProduct(a.y, s * s, Q);
    NonzeroProduct(2, a.y * (s * s), Q);
    ScaledThird(l, a.x, a.y, a.x, w, X3, Y3, Z3);
  }

  lemma DoubleScaled(l: int, x: int, y: int, w: int, alpha: int, beta: int, gamma2: int, X3: int, Y3: int)
    requires Eq(alpha, l * w) && Eq(4 * beta, x * (w * w)) && Eq(8 * gamma2, y * ((w * w) * w))
    requires Eq(X3, alpha * alpha - 8 * beta) && Eq(Y3, alpha * (4 * beta - X3) - 8 * gamma2)
    ensures Eq(X3, (l * l - x - x) * (w * w))
    ensures Eq(Y3, (l * w) * (x * (w * w) - X3) - y * ((w * w) * w))
  {
    hide Mod, FieldPrime, CoefficientWords;
    CongMul(alpha, l * w, alpha, l * w, Q);
    CongMul(2, 2, 4 * beta, x * (w * w), Q);
    CongSub(alpha * alpha, (l * w) * (l * w), 2 * (4 * beta), 2 * (x * (w * w)), Q);
    assert (l * w) * (l * w) - 2 * (x * (w * w)) == (l * l - x - x) * (w * w);
    CongSub(4 * beta, x * (w * w), X3, X3, Q);
    CongMul(alpha, l * w, 4 * beta - X3, x * (w * w) - X3, Q);
    CongSub(alpha * (4 * beta - X3), (l * w) * (x * (w * w) - X3), 8 * gamma2, y * ((w * w) * w), Q);
  }

  // ---------- addition ----------

  /** u1 = x1 V^2 with V = Z1 Z2. */
  lemma CrossX(x: int, X: int, Z: int, z: int, zz: int, u: int, v: int)
    requires Eq(X, x * (Z * Z)) && Eq(zz, z * z) && Eq(u, X * zz) && v == Z * z
    ensures Eq(u, x * (v * v))
  {
    hide Mod, FieldPrime, CoefficientWords;
    CongMul(X, x * (Z * Z), zz, z * z, Q);
    assert (x * (Z * Z)) * (z * z) == x * ((Z * z) * (Z * z));
  }

  /** s1 = y1 V^3. */
  lemma CrossY(y: int, Y: int, Z: int, z: int, zz: int, c: int, s: int, v: int)
    requires Eq(Y, y * ((Z * Z) * Z)) && Eq(zz, z * z) && Eq(c, z * zz) && Eq(s, Y * c) && v == Z * z
    ensures Eq(s, y * ((v * v) * v))
  {
    hide Mod, FieldPrime, CoefficientWords;
    CongMul(z, z, zz, z * z, Q);
    CongMul(Y, y * ((Z * Z) * Z), c, z * (z * z), Q);
    CrossYIdentity(y, Z, z);
  }

  lemma CrossYIdentity(y: int, Z: int, z: int)
    ensures (y * ((Z * Z) * Z)) * (z * (z * z)) == y * (((Z * z) * (Z * z)) * (Z * z))
  {}

  /** Cross-multiplied coordinates compare like the coordinates themselves. */
  lemma CrossEqual(x1: int, x2: int, k: int, u1: int, u2: int)
    requires Prime(Q) && !Eq(k, 0) && Eq(u1, x1 * k) && Eq(u2, x2 * k)
    requires 0 <= x1 < Q && 0 <= x2 < Q && 0 <= u1 < Q && 0 <= u2 < Q
    ensures u1 == u2 <==> x1 == x2
  {
    hide Mod, Prime, FieldPrime, CoefficientWords;
    if u1 == u2 {
      Cancel(k, x1, x2, Q);
      SmallEqual(x1, x2);
    } else if x1 == x2 {
      SmallEqual(u1, u2);
    }
  }

  ghost predicate CrossTerms(a: Point, b: Point, v: int, u1: int, u2: int, s1: int, s2: int) {
    && a.Affine? && b.Affine? && !Eq(v, 0)
    && 0 <= u1 < Q && 0 <= u2 < Q && 0 <= s1 < Q && 0 <= s2 < Q
    && Eq(u1, a.x * (v * v)) && Eq(u2, b.x * (v * v))
    && Eq(s1, a.y * ((v * v) * v)) && Eq(s2, b.y * ((v * v) * v))
  }

  lemma CrossProducts(X1: int, Y1: int, Z1: int, a: Point, X2: int, Y2: int, Z2: int, b: Point,
                      z1z1: int, z2z2: int, c1: int, c2: int, u1: int, u2: int, s1: int, s2: int)
    requires Prime(Q) && Represents(X1, Y1, Z1, a) && Represents(X2, Y2, Z2, b) && a.Affine? && b.Affine?
    requires 0 <= u1 < Q && 0 <= u2 < Q && 0 <= s1 < Q && 0 <= s2 < Q
    requires Eq(z1z1, Z1 * Z1) && Eq(z2z2, Z2 * Z2) && Eq(u1, X1 * z2z2) && Eq(u2, X2 * z1z1)
    requires Eq(c1, Z2 * z2z2) && Eq(s1, Y1 * c1) && Eq(c2, Z1 * z1z1) && Eq(s2, Y2 * c2)
    ensures CrossTerms(a, b, Z1 * Z2, u1, u2, s1, s2)
  {
    hide Mod, Prime, CurveEq, FieldPrime, CoefficientWords;
    var v := Z1 * Z2;
    assert v == Z2 * Z1;
    CrossX(a.x, X1, Z1, Z2, z2z2, u1, v);
    CrossX(b.x, X2, Z2, Z1, z1z1, u2, v);
    CrossY(a.y, Y1, Z1, Z2, z2z2, c1, s1, v);
    CrossY(b.y, Y2, Z2, Z1, z1z1, c2, s2, v);
    SmallNonzero(Z1);
    SmallNonzero(Z2);
    NonzeroProduct(Z1, Z2, Q);
  }

  lemma CrossDecides(a: Point, b: Point, v: int, u1: int, u2: int, s1: int, s2: int)
    requires Prime(Q) && OnCurve(a) && OnCurve(b) && CrossTerms(a, b, v, u1, u2, s1, s2)
    ensures u1 == u2 <==> a.x == b.x
    ensures s1 == s2 <==> a.y == b.y
  {
    hide Mod, Prime, CurveEq, FieldPrime, CoefficientWords;
    NonzeroProduct(v, v, Q);
    NonzeroProduct(v * v, v, Q);
    CrossEqual(a.x, b.x, v * v, u1, u2);
    CrossEqual(a.y, b.y, (v * v) * v, s1, s2);
  }

  /** h V = W and R = l W, with W = (x2 - x1) V^3. */
  lemma ChordScale(l: int, a: Point, b: Point, v: int, u1: int, u2: int, s1: int, s2: int, h: int, r: int, w: int)
    requires CrossTerms(a, b, v, u1, u2, s1, s2) && Eq(h, u2 - u1) && Eq(r, s2 - s1)
    requires Eq(l * (b.x - a.x), b.y - a.y) && w == (b.x - a.x) * ((v * v) * v)
    ensures Eq(h, (b.x - a.x) * (v * v)) && Eq(r, l * w) && Eq(v * h, w)
  {
    hide Mod, FieldPrime, CoefficientWords;
    var p, q := v * v, (v * v) * v;
    CongSub(u2, b.x * p, u1, a.x * p, Q);
    assert b.x * p - a.x * p == (b.x - a.x) * p;
    CongSub(s2, b.y * q, s1, a.y * q, Q);
    assert b.y * q - a.y * q == (b.y - a.y) * q;
    CongMul(l * (b.x - a.x), b.y - a.y, q, q, Q);
    MulAssoc(l, b.x - a.x, q);
    MulEq(l, w, (b.x - a.x) * q);
    CongMul(v, v, h, (b.x - a.x) * p, Q);
    assert v * ((b.x - a.x) * p) == (b.x - a.x) * (p * v);
  }

  /** u1 h^2 = x1 W^2, h^3 = (x2 - x1) W^2 and s1 h^3 = y1 W^3. */
  lemma ChordTerms(x1: int, y1: int, d: int, v: int, u1: int, s1: int, h: int, hh: int, hhh: int, t: int, sh: int, w: int)
    requires Eq(u1, x1 * (v * v)) && Eq(s1, y1 * ((v * v) * v)) && Eq(h, d * (v * v)) && w == d * ((v * v) * v)
    requires Eq(hh, h * h) && Eq(hhh, h * hh) && Eq(t, u1 * hh) && Eq(sh, s1 * hhh)
    ensures Eq(t, x1 * (w * w)) && Eq(hhh, d * (w * w)) && Eq(sh, y1 * ((w * w) * w))
  {
    hide Mod, FieldPrime, CoefficientWords;
    var p := v * v;
    var g := d * p;
    CongMul(h, g, h, g, Q);
    CongMul(h, g, hh, g * g, Q);
    CongMul(u1, x1 * p, hh, g * g, Q);
    CongMul(s1, y1 * (p * v), hhh, g * (g * g), Q);
    SquareW(d, v, p, g, w);
    assert (x1 * p) * (g * g) == x1 * (p * (g * g));
    MulEq(x1, p * (g * g), w * w);
    assert g * (g * g) == d * (p * (g * g));
    MulEq(d, p * (g * g), w * w);
    assert (y1 * (p * v)) * (g * (g * g)) == y1 * (((p * v) * g) * (g * g));
    CubeW(d, v, p, g, w);
    MulEq(y1, ((p * v) * g) * (g * g), (w * w) * w);
  }

  lemma SquareW(d: int, v: int, p: int, g: int, w: int)
    requires p == v * v && g == d * p && w == d * (p * v)
    ensures p * (g * g) == w * w
  {
    assert w == g * v;
    assert (g * v) * (g * v) == (v * v) * (g * g);
  }

  lemma CubeW(d: int, v: int, p: int, g: int, w: int)
    requires p == v * v && g == d * p && w == d * (p * v)
    ensures ((p * v) * g) * (g * g) == (w * w) * w
  {
    assert w == g * v;
    assert ((g * v) * (g * v)) * (g * v) == (((v * v) * v) * g) * (g * g);
  }

  /** The addition formula add-1998-cmo-2 computes a + b for different x. */
  lemma AddRepresents(a: Point, b: Point, Z1: int, Z2: int, u1: int, u2: int, s1: int, s2: int,
                      h: int, r: int, hh: int, hhh: int, t: int, sh: int, X3: int, Y3: int, z: int, Z3: int)
    requires Prime(Q) && OnCurve(a) && OnCurve(b) && CrossTerms(a, b, Z1 * Z2, u1, u2, s1, s2) && a.x != b.x
    requires 0 <= X3 < Q && 0 <= Y3 < Q && 0 <= Z3 < Q
    requires Eq(h, u2 - u1) && Eq(r, s2 - s1) && Eq(hh, h * h) && Eq(hhh, h * hh) && Eq(t, u1 * hh) && Eq(sh, s1 * hhh)
    requires Eq(X3, r * r - hhh - t - t) && Eq(Y3, r * (t - X3) - sh) && Eq(z, Z1 * Z2) && Eq(Z3, z * h)
    ensures Represents(X3, Y3, Z3, Add(a, b))
  {
    hide Mod, Prime, CurveEq, Slope, FieldPrime, CoefficientWords;
    AddOnCurve(a, b);
    var v := Z1 * Z2;
    var d := b.x - a.x;
    var w := d * ((v * v) * v);
    var l := Slope(a.x, a.y, b.x, b.y);
    ChordSlope(a.x, a.y, b.x, b.y);
    ChordScale(l, a, b, v, u1, u2, s1, s2, h, r, w);
    ChordTerms(a.x, a.y, d, v, u1, s1, h, hh, hhh, t, sh, w);
    CongMul(z, v, h, h, Q);
    NonzeroProduct(v, v, Q);
    NonzeroProduct(v * v, v, Q);
    NonzeroProduct(d, (v * v) * v, Q);
    AddScaled(l, a.x, a.y, b.x, w, r, hhh, t, sh, X3, Y3);
    ScaledThird(l, a.x, a.y, b.x, w, X3, Y3, Z3);
  }

  lemma AddScaled(l: int, x1: int, y1: int, x2: int, w: int, r: int, hhh: int, t: int, sh: int, X3: int, Y3: int)
    requires Eq(r, l * w) && Eq(hhh, (x2 - x1) * (w * w)) && Eq(t, x1 * (w * w)) && Eq(sh, y1 * ((w * w) * w))
    requires Eq(X3, r * r - hhh - t - t) && Eq(Y3, r * (t - X3) - sh)
    ensures Eq(X3, (l * l - x1 - x2) * (w * w))
    ensures Eq(Y3, (l * w) * (x1 * (w * w) - X3) - y1 * ((w * w) * w))
  {
    hide Mod, FieldPrime, CoefficientWords;
    var k := x1 * (w * w);
    CongMul(r, l * w, r, l * w, Q);
    CongSub(r * r, (l * w) * (l * w), hhh, (x2 - x1) * (w * w), Q);
    CongSub(r * r - hhh, (l * w) * (l * w) - (x2 - x1) * (w * w), t, k, Q);
    CongSub(r * r - hhh - t, (l * w) * (l * w) - (x2 - x1) * (w * w) - k, t, k, Q);
    AddScaledIdentity(l, w, x1, x2);
    CongSub(t, k, X3, X3, Q);
    CongMul(r, l * w, t - X3, k - X3, Q);
    CongSub(r * (t - X3), (l * w) * (k - X3), sh, y1 * ((w * w) * w), Q);
  }

  lemma AddScaledIdentity(l: int, w: int, x1: int, x2: int)
    ensures (l * w) * (l * w) - (x2 - x1) * (w * w) - x1 * (w * w) - x1 * (w * w) == (l * l - x1 - x2) * (w * w)
  {}
}
