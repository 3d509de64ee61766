/** The curve y^2 = x^3 - 3x + b over the integers modulo the P-256 prime, with the chord-and-tangent law. */
module P256Curve {
  import opened Arith
  import opened Primes
  import opened Radix

  const FIELD_BITS: nat := 256

  /** The field prime. */
  const Q: int := FieldPrime()

  function FieldPrime(): (q: int)
    ensures q > 0x1_0000_0000
  {
    FieldPowers();
    Pow(2, FIELD_BITS) - Pow(2, FIELD_BITS - 32) + Pow(2, FIELD_BITS - 64) + Pow(2, FIELD_BITS - 160) - 1
  }

  lemma FieldPowers()
    ensures Pow(2, FIELD_BITS - 160) == 0x1_0000_0000_0000_0000_0000_0000
    ensures Pow(2, FIELD_BITS - 64) == 0x1_0000_0000_0000_0000_0000_0000_0000_0000_0000_0000_0000_0000
    ensures Pow(2, FIELD_BITS - 32) == 0x1_0000_0000_0000_0000_0000_0000_0000_0000_0000_0000_0000_0000_0000_0000
    ensures Pow(2, FIELD_BITS) == 0x1_0000_0000_0000_0000_0000_0000_0000_0000_0000_0000_0000_0000_0000_0000_0000_0000
  {
    assert Pow(2, 8) == 0x100;
    hide Pow;
    PowJoin(2, 8, 8, 0x100, 0x100);
    PowJoin(2, 16, 16, 0x1_0000, 0x1_0000);
    PowJoin(2, 32, 32, 0x1_0000_0000, 0x1_0000_0000);
    PowJoin(2, 64, 32, 0x1_0000_0000_0000_0000, 0x1_0000_0000);
    PowJoin(2, 96, 96, 0x1_0000_0000_0000_0000_0000_0000, 0x1_0000_0000_0000_0000_0000_0000);
    PowJoin(2, 192, 32, 0x1_0000_0000_0000_0000_0000_0000_0000_0000_0000_0000_0000_0000, 0x1_0000_0000);
    PowJoin(2, 224, 32, 0x1_0000_0000_0000_0000_0000_0000_0000_0000_0000_0000_0000_0000_0000_0000, 0x1_0000_0000);
  }

  lemma PrimeValue()
    ensures Q == 0xffff_ffff_0000_0001_0000_0000_0000_0000_0000_0000_ffff_ffff_ffff_ffff_ffff_ffff
  {
    FieldPowers();
  }

  /** The curve coefficient, from its 32-bit words. */
  const B: int := Eval(CoefficientWords(), B32)

  function CoefficientWords(): seq<int> {
    [0x27d2_604b, 0x3bce_3c3e, 0xcc53_b0f6, 0x651d_06b0, 0x7698_86bc, 0xb3eb_bd55, 0xaa3a_93e7, 0x5ac6_35d8]
  }

  lemma CoefficientValue()
    ensures B == 0x5ac6_35d8_aa3a_93e7_b3eb_bd55_7698_86bc_651d_06b0_cc53_b0f6_3bce_3c3e_27d2_604b
  {
    var s := CoefficientWords();
    assert s[8..] == [];
    assert Eval(s[8..], B32) == 0;
    hide Eval;
    EvalHead(s, 7, 0);
    EvalHead(s, 6, 0x5ac6_35d8);
    EvalHead(s, 5, 0x5ac6_35d8_aa3a_93e7);
    EvalHead(s, 4, 0x5ac6_35d8_aa3a_93e7_b3eb_bd55);
    EvalHead(s, 3, 0x5ac6_35d8_aa3a_93e7_b3eb_bd55_7698_86bc);
    EvalHead(s, 2, 0x5ac6_35d8_aa3a_93e7_b3eb_bd55_7698_86bc_651d_06b0);
    EvalHead(s, 1, 0x5ac6_35d8_aa3a_93e7_b3eb_bd55_7698_86bc_651d_06b0_cc53_b0f6);
    EvalHead(s, 0, 0x5ac6_35d8_aa3a_93e7_b3eb_bd55_7698_86bc_651d_06b0_cc53_b0f6_3bce_3c3e);
    assert s[0..] == s;
  }

  lemma EvalHead(s: seq<int>, i: nat, v: int)
    requires i < |s| && Eval(s[i + 1..], B32) == v
    ensures Eval(s[i..], B32) == s[i] + B32 * v
  {
    assert s[i..][1..] == s[i + 1..];
  }
  const GX: int := 0x6b17_d1f2_e12c_4247_f8bc_e6e5_63a4_40f2_7703_7d81_2deb_33a0_f4a1_3945_d898_c296
  const GY: int := 0x4fe3_42e2_fe1a_7f9b_8ee7_eb4a_7c0f_9e16_2bce_3357_6b31_5ece_cbb6_4068_37bf_51f5

  ghost predicate Eq(a: int, b: int) {
    Cong(a, b, Q)
  }

  datatype Point = Infinity | Affine(x: int, y: int)

  function Cubic(x: int): int {
    x * x * x - 3 * x + B
  }

  ghost predicate CurveEq(x: int, y: int) {
    Eq(y * y, Cubic(x))
  }

  ghost predicate OnCurve(a: Point) {
    a.Affine? ==> 0 <= a.x < Q && 0 <= a.y < Q && CurveEq(a.x, a.y)
  }

  const G: Point := Affine(GX, GY)

  lemma GeneratorOnCurve()
    ensures OnCurve(G)
  {
    PrimeValue();
    CoefficientValue();
    hide Mod, FieldPrime, Eval, CoefficientWords;
    CongFrom(GY * GY, Cubic(GX), -0x12bd_d1ad_23df_c833_dccf_5f61_41d6_bb4a_1f36_5dc1_430b_0e60_0b52_dd85_1938_d2d6_9331_06a7_2efb_f035_fdaf_4396_3b37_fd54_56e9_0c65_81a8_fb7a_0d8a_46a3_629f_0458, Q);
  }

  ghost predicate IsInverse(a: int, r: int) {
    0 <= r < Q && Eq(a * r, 1)
  }

  /** The reduced inverse; a multiple of Q has none and gives 0. */
  ghost function FieldInv(a: int): int {
    if exists r :: IsInverse(a, r) then var r :| IsInverse(a, r); r else 0
  }

  /** Slope of the chord, or of the tangent at a repeated point. */
  ghost function Slope(x1: int, y1: int, x2: int, y2: int): int {
    if x1 == x2 then Mod(3 * (x1 * x1 - 1) * FieldInv(2 * y1), Q) else Mod((y2 - y1) * FieldInv(x2 - x1), Q)
  }

  /** The group law: infinity is neutral, opposite points cancel, otherwise the third point of the line, reflected. */
  ghost function Add(a: Point, b: Point): Point {
    if a.Infinity? then b
    else if b.Infinity? then a
    else if a.x == b.x && (a.y != b.y || a.y == 0) then Infinity
    else
      var l := Slope(a.x, a.y, b.x, b.y);
      var x3 := Mod(l * l - a.x - b.x, Q);
      Affine(x3, Mod(l * (a.x - x3) - a.y, Q))
  }

  // ---------- the slope ----------

  lemma InverseOf(a: int)
    requires Prime(Q) && !Eq(a, 0)
    ensures Eq(a * FieldInv(a), 1)
  {
    hide Mod, Prime, FieldPrime, CoefficientWords;
    var b := Inverse(a, Q);
    CongSelf(b, Q);
    CongMul(a, a, Mod(b, Q), b, Q);
    assert IsInverse(a, Mod(b, Q));
  }

  lemma Quotient(n: int, d: int, r: int)
    requires Prime(Q) && !Eq(d, 0) && r == Mod(n * FieldInv(d), Q)
    ensures Eq(r * d, n)
  {
    hide Mod, Prime, FieldInv, FieldPrime, CoefficientWords;
    InverseOf(d);
    CongSelf(n * FieldInv(d), Q);
    CongMul(r, n * FieldInv(d), d, d, Q);
    CongMul(n, n, d * FieldInv(d), 1, Q);
    assert n * FieldInv(d) * d == n * (d * FieldInv(d));
  }

  lemma SmallEqual(a: int, b: int)
    requires 0 <= a < Q && 0 <= b < Q && Eq(a, b)
    ensures a == b
  {
    ModSmall(a, Q);
    ModSmall(b, Q);
  }

  lemma SmallDifference(a: int, b: int)
    requires 0 <= a < Q && 0 <= b < Q && a != b
    ensures !Eq(a - b, 0)
  {
    hide Mod, FieldPrime, CoefficientWords;
    if Eq(a - b, 0) {
      CongAdd(a - b, 0, b, b, Q);
      SmallEqual(a, b);
    }
  }

  lemma SmallNonzero(a: int)
    requires 0 < a < Q
    ensures !Eq(a, 0)
  {
    SmallDifference(a, 0);
  }

  lemma TwoNonzero()
    ensures !Eq(2, 0)
  {}

  lemma TangentSlope(x: int, y: int)
    requires Prime(Q) && 0 < y < Q
    ensures Eq(Slope(x, y, x, y) * (2 * y), 3 * (x * x - 1))
  {
    hide Mod, Prime, FieldInv, FieldPrime, CoefficientWords;
    TwoNonzero();
    SmallNonzero(y);
    NonzeroProduct(2, y, Q);
    Quotient(3 * (x * x - 1), 2 * y, Slope(x, y, x, y));
  }

  lemma ChordSlope(x1: int, y1: int, x2: int, y2: int)
    requires Prime(Q) && 0 <= x1 < Q && 0 <= x2 < Q && x1 != x2
    ensures !Eq(x2 - x1, 0)
    ensures Eq(Slope(x1, y1, x2, y2) * (x2 - x1), y2 - y1)
  {
    hide Mod, Prime, FieldInv, FieldPrime, CoefficientWords;
    SmallDifference(x2, x1);
    Quotient(y2 - y1, x2 - x1, Slope(x1, y1, x2, y2));
  }

  // ---------- sums stay on the curve ----------

  /** The line through (x1, y1) meets the cubic where (X-x1)(X-x2)(X-x3) plus a linear rest vanishes. */
  function LinearPart(l: int, x1: int, y1: int, x2: int): int {
    -3 + 2 * (l * l) * x1 - 2 * l * y1 - (x1 * x2 + (x1 + x2) * (l * l - x1 - x2))
  }

  function ConstantPart(l: int, x1: int, y1: int, x2: int): int {
    B - (y1 - l * x1) * (y1 - l * x1) + x1 * x2 * (l * l - x1 - x2)
  }

  lemma Vieta(x1: int, x2: int, x3: int, X: int)
    ensures (X - x1) * (X - x2) * (X - x3) == X * X * X - (x1 + x2 + x3) * (X * X) + (x1 * x2 + (x1 + x2) * x3) * X - x1 * x2 * x3
  {}

  lemma LineSquare(l: int, x1: int, y1: int, X: int)
    ensures (l * (X - x1) + y1) * (l * (X - x1) + y1)
         == (l * l) * (X * X) - 2 * ((l * l) * x1) * X + 2 * (l * y1) * X + (y1 - l * x1) * (y1 - l * x1)
  {}

  lemma LineIdentity(l: int, x1: int, y1: int, x2: int, x3: int, X: int)
    requires x3 == l * l - x1 - x2
    ensures Cubic(X) - (l * (X - x1) + y1) * (l * (X - x1) + y1)
         == (X - x1) * (X - x2) * (X - x3) + LinearPart(l, x1, y1, x2) * X + ConstantPart(l, x1, y1, x2)
  {
    Vieta(x1, x2, x3, X);
    LineSquare(l, x1, y1, X);
    LineCollect(l * l, x1, x2, x3, X, l * y1, (y1 - l * x1) * (y1 - l * x1), LinearPart(l, x1, y1, x2));
  }

  lemma LineCollect(w: int, x1: int, x2: int, x3: int, X: int, t: int, k: int, c1: int)
    requires x3 == w - x1 - x2 && c1 == -3 + 2 * w * x1 - 2 * t - (x1 * x2 + (x1 + x2) * x3)
    ensures X * X * X - 3 * X + B - (w * (X * X) - 2 * (w * x1) * X + 2 * t * X + k)
         == (X * X * X - (x1 + x2 + x3) * (X * X) + (x1 * x2 + (x1 + x2) * x3) * X - x1 * x2 * x3)
            + c1 * X + (B - k + x1 * x2 * x3)
  {
    MulEq(X, c1, -3 + 2 * w * x1 - 2 * t - (x1 * x2 + (x1 + x2) * x3));
    MulEq(X * X, x1 + x2 + x3, w);
  }

  /** Both given points lie on the line, so the linear rest vanishes at both. */
  lemma LineMeets(l: int, x1: int, y1: int, x2: int, y2: int)
    requires CurveEq(x1, y1) && CurveEq(x2, y2) && Eq(l * (x2 - x1), y2 - y1)
    ensures var c1, c0 := LinearPart(l, x1, y1, x2), ConstantPart(l, x1, y1, x2);
            Eq(c1 * x1 + c0, 0) && Eq(c1 * x2 + c0, 0)
  {
    var c1, c0, x3 := LinearPart(l, x1, y1, x2), ConstantPart(l, x1, y1, x2), l * l - x1 - x2;
    LineIdentity(l, x1, y1, x2, x3, x1);
    LineIdentity(l, x1, y1, x2, x3, x2);
    hide Mod, Cubic, LinearPart, ConstantPart, FieldPrime, CoefficientWords;
    CongSub(Cubic(x1), y1 * y1, y1 * y1, y1 * y1, Q);
    assert Cubic(x1) - y1 * y1 == c1 * x1 + c0;
    var h := l * (x2 - x1) + y1;
    CongAdd(l * (x2 - x1), y2 - y1, y1, y1, Q);
    CongMul(h, y2, h, y2, Q);
    CongSub(Cubic(x2), h * h, h * h, h * h, Q);
    assert Cubic(x2) - h * h == c1 * x2 + c0;
  }

  lemma FlatChord(c1: int, c0: int, x1: int, x2: int)
    requires Prime(Q) && !Eq(x2 - x1, 0) && Eq(c1 * x1 + c0, 0) && Eq(c1 * x2 + c0, 0)
    ensures Eq(c1, 0) && Eq(c0, 0)
  {
    hide Mod, Prime, FieldPrime, CoefficientWords;
    CongSub(c1 * x2 + c0, 0, c1 * x1 + c0, 0, Q);
    MulDistr(c1, x2, -x1);
    Euclid(c1, x2 - x1, Q);
    FlatConstant(c1, c0, x1);
  }

  lemma FlatConstant(c1: int, c0: int, x1: int)
    requires Eq(c1, 0) && Eq(c1 * x1 + c0, 0)
    ensures Eq(c0, 0)
  {
    hide Mod, FieldPrime, CoefficientWords;
    CongMul(c1, 0, x1, x1, Q);
    CongSub(c1 * x1 + c0, 0, c1 * x1, 0, Q);
  }

  lemma FlatTangent(l: int, x: int, y: int)
    requires CurveEq(x, y) && Eq(l * (2 * y), 3 * (x * x - 1))
    ensures Eq(LinearPart(l, x, y, x), 0) && Eq(ConstantPart(l, x, y, x), 0)
  {
    TangentPart(l, x, y);
    LineMeets(l, x, y, x, y);
    hide Mod, LinearPart, ConstantPart, CurveEq, FieldPrime, CoefficientWords;
    CongSub(3 * (x * x - 1), l * (2 * y), l * (2 * y), l * (2 * y), Q);
    FlatConstant(LinearPart(l, x, y, x), ConstantPart(l, x, y, x), x);
  }

  lemma TangentPart(l: int, x: int, y: int)
    ensures LinearPart(l, x, y, x) == 3 * (x * x - 1) - l * (2 * y)
  {}

  /** The third intersection lies on the curve. */
  lemma ThirdPoint(l: int, x1: int, y1: int, x2: int, x3: int)
    requires x3 == l * l - x1 - x2 && Eq(LinearPart(l, x1, y1, x2), 0) && Eq(ConstantPart(l, x1, y1, x2), 0)
    ensures CurveEq(x3, l * (x3 - x1) + y1)
  {
    var c1, c0 := LinearPart(l, x1, y1, x2), ConstantPart(l, x1, y1, x2);
    LineIdentity(l, x1, y1, x2, x3, x3);
    hide Mod, Cubic, LinearPart, ConstantPart, FieldPrime, CoefficientWords;
    CongMul(c1, 0, x3, x3, Q);
    CongAdd(c1 * x3, 0, c0, 0, Q);
    var h := l * (x3 - x1) + y1;
    CongAdd(Cubic(x3) - h * h, 0, h * h, h * h, Q);
  }

  lemma CubicCong(x: int, x': int)
    requires Eq(x, x')
    ensures Eq(Cubic(x), Cubic(x'))
  {
    hide Mod, FieldPrime, CoefficientWords;
    CongMul(x, x', x, x', Q);
    CongMul(x * x, x' * x', x, x', Q);
    CongMul(3, 3, x, x', Q);
    CongSub(x * x * x, x' * x' * x', 3 * x, 3 * x', Q);
    CongAdd(x * x * x - 3 * x, x' * x' * x' - 3 * x', B, B, Q);
  }

  /** Reducing the coordinates and negating y stays on the curve. */
  lemma Reflect(x: int, y: int, x': int, y': int)
    requires CurveEq(x, y) && Eq(x', x) && Eq(y', -y)
    ensures CurveEq(x', y')
  {
    hide Mod, Cubic, FieldPrime, CoefficientWords;
    CubicCong(x', x);
    CongMul(y', -y, y', -y, Q);
    assert -y * -y == y * y;
  }

  lemma ThirdReflected(l: int, x1: int, y1: int, x2: int, x3: int, y3: int)
    requires Eq(LinearPart(l, x1, y1, x2), 0) && Eq(ConstantPart(l, x1, y1, x2), 0)
    requires Eq(x3, l * l - x1 - x2) && Eq(y3, l * (x1 - x3) - y1)
    ensures CurveEq(x3, y3)
  {
    hide Mod, Cubic, CurveEq, LinearPart, ConstantPart, FieldPrime, CoefficientWords;
    var t := l * l - x1 - x2;
    ThirdPoint(l, x1, y1, x2, t);
    CongSub(x1, x1, x3, t, Q);
    CongMul(l, l, x1 - x3, x1 - t, Q);
    CongSub(l * (x1 - x3), l * (x1 - t), y1, y1, Q);
    assert l * (x1 - t) - y1 == -(l * (t - x1) + y1) by { MulDistr(l, x1, -t); MulDistr(l, t, -x1); }
    Reflect(t, l * (t - x1) + y1, x3, y3);
  }

  /** The line of the slope meets the curve in both points, counting a repeated one twice. */
  lemma LineThrough(a: Point, b: Point)
    requires Prime(Q) && OnCurve(a) && OnCurve(b) && a.Affine? && b.Affine? && !(a.x == b.x && (a.y != b.y || a.y == 0))
    ensures var l := Slope(a.x, a.y, b.x, b.y);
            Eq(LinearPart(l, a.x, a.y, b.x), 0) && Eq(ConstantPart(l, a.x, a.y, b.x), 0)
  {
    hide Mod, Prime, Cubic, CurveEq, Slope, LinearPart, ConstantPart, FieldPrime, CoefficientWords;
    var l := Slope(a.x, a.y, b.x, b.y);
    if a.x == b.x {
      TangentSlope(a.x, a.y);
      FlatTangent(l, a.x, a.y);
    } else {
      ChordSlope(a.x, a.y, b.x, b.y);
      LineMeets(l, a.x, a.y, b.x, b.y);
      FlatChord(LinearPart(l, a.x, a.y, b.x), ConstantPart(l, a.x, a.y, b.x), a.x, b.x);
    }
  }

  /** The law is closed on the curve. */
  lemma AddOnCurve(a: Point, b: Point)
    requires Prime(Q) && OnCurve(a) && OnCurve(b)
    ensures OnCurve(Add(a, b))
  {
    hide Mod, Prime, Cubic, CurveEq, Slope, LinearPart, ConstantPart, FieldPrime, CoefficientWords;
    if a.Affine? && b.Affine? && !(a.x == b.x && (a.y != b.y || a.y == 0)) {
      var l := Slope(a.x, a.y, b.x, b.y);
      LineThrough(a, b);
      var t := l * l - a.x - b.x;
      var x3 := Mod(t, Q);
      var u := l * (a.x - x3) - a.y;
      CongSelf(t, Q);
      CongSelf(u, Q);
      ThirdReflected(l, a.x, a.y, b.x, x3, Mod(u, Q));
    }
  }

  /** Two points over one x are equal or opposite, so the cancelling branch is exactly a = -b. */
  lemma SameX(a: Point, b: Point)
    requires Prime(Q) && OnCurve(a) && OnCurve(b) && a.Affine? && b.Affine? && a.x == b.x
    ensures a.y == b.y || a.y + b.y == Q
  {
    hide Mod, Prime, Cubic, FieldPrime, CoefficientWords;
    CongSub(a.y * a.y, Cubic(a.x), b.y * b.y, Cubic(a.x), Q);
    assert a.y * a.y - b.y * b.y == (a.y - b.y) * (a.y + b.y);
    assert Eq((a.y - b.y) * (a.y + b.y), 0);
    Euclid(a.y - b.y, a.y + b.y, Q);
    if Eq(a.y - b.y, 0) {
      CongAdd(a.y - b.y, 0, b.y, b.y, Q);
      SmallEqual(a.y, b.y);
    } else {
      SumToZero(a.y, b.y);
    }
  }

  lemma SumToZero(u: int, v: int)
    requires 0 <= u < Q && 0 <= v < Q && Eq(u + v, 0)
    ensures u + v == Q || (u == 0 && v == 0)
  {
    hide Mod, FieldPrime, CoefficientWords;
    CongResidue(u + v, 0, Q);
    if u + v >= Q {
      DivModUnique(u + v, Q, 1, u + v - Q);
    } else {
      DivModUnique(u + v, Q, 0, u + v);
    }
  }

  /** A line through a with this slope holds the opposite of the sum. */
  lemma OnLine(l: int, d: int, n: int, ax: int, ay: int, cx: int, cy: int)
    requires Eq(l * d, n) && Eq(cy, l * (ax - cx) - ay)
    ensures Eq((-cy - ay) * d, n * (cx - ax))
  {
    hide Mod, FieldPrime, CoefficientWords;
    CongSub(-ay, -ay, cy, l * (ax - cx) - ay, Q);
    CongMul(-ay - cy, -ay - (l * (ax - cx) - ay), d, d, Q);
    CongMul(l * d, n, cx - ax, cx - ax, Q);
    LineTerms(l, d, ax, ay, cx, cy);
  }

  lemma LineTerms(l: int, d: int, ax: int, ay: int, cx: int, cy: int)
    ensures (-cy - ay) * d == (-ay - cy) * d
    ensures (-ay - (l * (ax - cx) - ay)) * d == (l * d) * (cx - ax)
  {}

  /** Chord and tangent: a, b and the opposite of a + b lie on one line, the tangent where a and b are the same point. */
  lemma Collinear(a: Point, b: Point)
    requires Prime(Q) && OnCurve(a) && OnCurve(b) && a.Affine? && b.Affine? && Add(a, b).Affine?
    ensures var c := Add(a, b);
            && (a.x != b.x ==> Eq((-c.y - a.y) * (b.x - a.x), (b.y - a.y) * (c.x - a.x)))
            && (a.x == b.x ==> a == b && Eq((-c.y - a.y) * (2 * a.y), (3 * (a.x * a.x - 1)) * (c.x - a.x)))
  {
    hide Mod, Prime, CurveEq, Slope, FieldPrime, CoefficientWords;
    var c, l := Add(a, b), Slope(a.x, a.y, b.x, b.y);
    CongSelf(l * (a.x - c.x) - a.y, Q);
    if a.x == b.x {
      TangentSlope(a.x, a.y);
      OnLine(l, 2 * a.y, 3 * (a.x * a.x - 1), a.x, a.y, c.x, c.y);
    } else {
      ChordSlope(a.x, a.y, b.x, b.y);
      OnLine(l, b.x - a.x, b.y - a.y, a.x, a.y, c.x, c.y);
    }
  }

  /** Two points cancel exactly when they are opposite. */
  lemma CancelExact(a: Point, b: Point)
    requires Prime(Q) && OnCurve(a) && OnCurve(b) && a.Affine? && b.Affine?
    ensures Add(a, b).Infinity? <==> a.x == b.x && Eq(a.y + b.y, 0)
  {
    hide Mod, Prime, CurveEq, Slope, FieldPrime, CoefficientWords;
    if a.x == b.x {
      SameX(a, b);
      CongFrom(Q, 0, 1, Q);
      if a.y == b.y && Eq(a.y + b.y, 0) {
        TwoNonzero();
        assert a.y + b.y == 2 * a.y;
        if a.y != 0 {
          SmallNonzero(a.y);
          NonzeroProduct(2, a.y, Q);
        }
      }
    }
  }

  /** The chord has one slope, whichever end it is taken from. */
  lemma SlopeSymmetric(x1: int, y1: int, x2: int, y2: int)
    requires Prime(Q) && 0 <= x1 < Q && 0 <= x2 < Q && x1 != x2
    ensures Slope(x1, y1, x2, y2) == Slope(x2, y2, x1, y1)
  {
    hide Mod, Prime, Slope, FieldPrime, CoefficientWords;
    var l, k := Slope(x1, y1, x2, y2), Slope(x2, y2, x1, y1);
    ChordSlope(x1, y1, x2, y2);
    ChordSlope(x2, y2, x1, y1);
    CongSub(0, 0, k * (x1 - x2), y1 - y2, Q);
    Backwards(k, x1, x2);
    var d := x2 - x1;
    assert d * l == l * d && d * k == k * d;
    Cancel(d, l, k, Q);
    SlopeReduced(x1, y1, x2, y2);
    SlopeReduced(x2, y2, x1, y1);
    SmallEqual(l, k);
  }

  lemma Backwards(k: int, x1: int, x2: int)
    ensures 0 - k * (x1 - x2) == k * (x2 - x1)
  {}

  lemma AddCommutes(a: Point, b: Point)
    requires Prime(Q) && OnCurve(a) && OnCurve(b)
    ensures Add(a, b) == Add(b, a)
  {
    hide Mod, Prime, Slope, CurveEq, FieldPrime, CoefficientWords;
    if a.Affine? && b.Affine? && a.x != b.x {
      var l := Slope(a.x, a.y, b.x, b.y);
      SlopeSymmetric(a.x, a.y, b.x, b.y);
      ChordSlope(a.x, a.y, b.x, b.y);
      var x3 := Mod(l * l - a.x - b.x, Q);
      CongAdd(l * (b.x - a.x), b.y - a.y, l * (a.x - x3) - b.y, l * (a.x - x3) - b.y, Q);
      EitherEnd(l, a.x, b.x, x3);
      SameResidue(l * (b.x - x3) - b.y, l * (a.x - x3) - a.y);
    }
  }

  lemma EitherEnd(l: int, x1: int, x2: int, x3: int)
    ensures l * (x2 - x1) + l * (x1 - x3) == l * (x2 - x3)
  {}

  lemma SameResidue(u: int, v: int)
    requires Eq(u, v)
    ensures Mod(u, Q) == Mod(v, Q)
  {
    CongResidue(u, v, Q);
  }

  lemma SlopeReduced(x1: int, y1: int, x2: int, y2: int)
    ensures 0 <= Slope(x1, y1, x2, y2) < Q
  {
    hide FieldInv;
  }

  // ---------- scalar multiples ----------

  /** The one fact about the group law that is taken as given. */
  ghost predicate Associative() {
    forall a: Point, b: Point, c: Point :: OnCurve(a) && OnCurve(b) && OnCurve(c) ==> Add(Add(a, b), c) == Add(a, Add(b, c))
  }

  /** k a by repeated addition. */
  ghost function Times(k: nat, a: Point): Point {
    if k == 0 then Infinity else Add(Times(k - 1, a), a)
  }

  lemma {:induction false} TimesOnCurve(k: nat, a: Point)
    requires Prime(Q) && OnCurve(a)
    ensures OnCurve(Times(k, a))
  {
    hide Prime, CurveEq, Add, FieldPrime, CoefficientWords;
    if k > 0 {
      TimesOnCurve(k - 1, a);
      AddOnCurve(Times(k - 1, a), a);
    }
  }

  lemma AddInfinity(a: Point)
    ensures Add(Infinity, a) == a && Add(a, Infinity) == a
  {}

  lemma Regroup(a: Point, b: Point, c: Point)
    requires Associative() && OnCurve(a) && OnCurve(b) && OnCurve(c)
    ensures Add(Add(a, b), c) == Add(a, Add(b, c))
  {
    hide OnCurve, Add;
  }

  lemma {:induction false} TimesAdd(m: nat, n: nat, a: Point)
    requires Prime(Q) && Associative() && OnCurve(a)
    ensures Add(Times(m, a), Times(n, a)) == Times(m + n, a)
  {
    hide Prime, OnCurve, Add, Associative, FieldPrime, CoefficientWords;
    if n == 0 {
      AddInfinity(Times(m, a));
    } else {
      TimesOnCurve(m, a);
      TimesOnCurve(n - 1, a);
      TimesAdd(m, n - 1, a);
      Regroup(Times(m, a), Times(n - 1, a), a);
      assert Times(m + n, a) == Add(Times(m + n - 1, a), a);
    }
  }
}
