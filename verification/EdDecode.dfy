/** Which byte strings decode to a point: the square root behind decompression. */
module EdDecode {
  import opened Arith
  import opened Primes
  import opened Radix
  import opened Fe25519
  import opened EdLimbs
  import opened Edwards

  /** The y coordinate of an encoding; the top bit is the sign of x. */
  function EncodedY(p: seq<byte>): int
    requires |p| == 32
  {
    Eval(p, 256) % (P + 19)
  }

  /** a is the negated point of the encoding p: same y, and x of the other sign unless it is zero. */
  ghost predicate DecodesNeg(p: seq<byte>, a: Pt)
    requires |p| == 32
  {
    OnCurve(a) && IsResidue(a.y, EncodedY(p)) && (a.x == 0 || a.x % 2 != p[31] / 128)
  }

  lemma CurveCong(x: int, y: int, x': int, y': int)
    requires Eq(x, x') && Eq(y, y') && CurveEq(x, y)
    ensures CurveEq(x', y')
  {
    hide Mod, Val, FieldPrime;
    CongMul(x, x', x, x', P);
    CongMul(y, y', y, y', P);
    CongMul(x, x', y, y', P);
    CongMul(x * y, x' * y', x * y, x' * y', P);
    CongMul(D, D, (x * y) * (x * y), (x' * y') * (x' * y'), P);
    CongAdd(1, 1, D * ((x * y) * (x * y)), D * ((x' * y') * (x' * y')), P);
    CongSub(y * y, y' * y', x * x, x' * x', P);
  }

  /** The curve equation solved for x^2: x^2 (d y^2 + 1) = y^2 - 1. */
  lemma SolvedForX(x: int, y: int, den: int)
    requires den == D * (y * y) + 1
    ensures CurveEq(x, y) <==> Eq((x * x) * den, y * y - 1)
  {
    hide Mod, Val, FieldPrime;
    var l, r := (x * x) * den, y * y - 1;
    SolvedPolynomial(x, y, D, den);
    if CurveEq(x, y) {
      CongSub(y * y - x * x, 1 + D * ((x * y) * (x * y)), 1 - x * x, 1 - x * x, P);
    }
    if Eq(l, r) {
      CongAdd(l, r, 1 - x * x, 1 - x * x, P);
    }
  }

  lemma SolvedPolynomial(x: int, y: int, d: int, den: int)
    requires den == d * (y * y) + 1
    ensures (x * x) * den == (1 + d * ((x * y) * (x * y))) - (1 - x * x)
  {
    MulEq(x * x, den, d * (y * y) + 1);
  }

  /** d y^2 + 1 never vanishes, because -1 is a square and d is not. */
  lemma DenominatorNonzero(y: int, den: int)
    requires Prime(P) && den == D * (y * y) + 1
    ensures !Eq(den, 0)
  {
    hide Mod, Val, FieldPrime, Prime;
    if Eq(den, 0) {
      Constants();
      CongAdd(den, 0, -1, -1, P);
      SquareRatio(y, ROOT);
      CongMul(y, 0, y, y, P);
      CongMul(D, D, y * y, 0, P);
      CongAdd(0, -1, 1, 1, P);
      assert false;
    }
  }

  /** x is determined up to sign by y. */
  lemma SquaresAgree(x: int, x': int, y: int)
    requires Prime(P) && CurveEq(x, y) && CurveEq(x', y)
    ensures Eq(x, x') || Eq(x + x', 0)
  {
    hide *;
    var den := D * (y * y) + 1;
    SolvedForX(x, y, den);
    SolvedForX(x', y, den);
    DenominatorNonzero(y, den);
    RootsAgree(x, x', den, y * y - 1);
  }

  lemma RootsAgree(x: int, x': int, den: int, num: int)
    requires Prime(P) && !Eq(den, 0) && Eq((x * x) * den, num) && Eq((x' * x') * den, num)
    ensures Eq(x, x') || Eq(x + x', 0)
  {
    hide Mod, Val, FieldPrime, Prime;
    Cancel(den, x * x, x' * x', P);
    CongSub(x * x, x' * x', x' * x', x' * x', P);
    assert x * x - x' * x' == (x - x') * (x + x');
    Euclid(x - x', x + x', P);
    if Eq(x - x', 0) {
      CongAdd(x - x', 0, x', x', P);
    }
  }

  /** Two points with one y and one sign bit are the same point. */
  lemma DecodeUnique(p: seq<byte>, a: Pt, b: Pt)
    requires Prime(P) && |p| == 32 && DecodesNeg(p, a) && DecodesNeg(p, b)
    ensures a == b
  {
    hide Mod, Val, FieldPrime, Prime, Eval, CurveEq, EncodedY;
    OnCurveEq(a);
    OnCurveEq(b);
    SmallEqual(a.y, b.y);
    SquaresAgree(a.x, b.x, a.y);
    if Eq(a.x, b.x) {
      SmallEqual(a.x, b.x);
    } else {
      OppositeRoots(a.x, b.x);
      if a.x + b.x == P {
        OppositeParity(a.x, b.x);
      }
    }
  }

  /** The prime is odd, so opposite nonzero residues differ in their low bit. */
  lemma OppositeParity(x: int, y: int)
    requires x + y == P
    ensures x % 2 != y % 2
  {
    PrimeValue();
    hide FieldPrime;
  }

  lemma OppositeRoots(x: int, y: int)
    requires 0 <= x < P && 0 <= y < P && Eq(x + y, 0)
    ensures x + y == 0 || x + y == P
  {
    hide Mod, Val, FieldPrime;
    CongResidue(x + y, 0, P);
    DivModUnique(x + y, P, if x + y >= P then 1 else 0, if x + y >= P then x + y - P else x + y);
  }

  // ---------- the candidate root ----------

  /** The power chain turns num den^7 into a fourth root of unity factor. */
  lemma CandidateSquare(num: int, den: int, s: int, w: int, k: int, c: int)
    requires Prime(P) && !Eq(s, 0)
    requires Eq(w, s * s) && Eq(k, Pow(w, (P - 5) / 8)) && Eq(c * c, (num * num) * ((w * w) * ((k * k) * (k * k))))
    ensures Eq(c, num) || Eq(c, -num)
  {
    hide Mod, Val, FieldPrime, Prime, Pow;
    PrimeValue();
    hide FieldPrime;
    var q: nat := (P - 5) / 8;
    CongMul(k, Pow(w, q), k, Pow(w, q), P);
    CongMul(k * k, Pow(w, q) * Pow(w, q), k * k, Pow(w, q) * Pow(w, q), P);
    PowAdd(w, q, q);
    PowAdd(w, 2 * q, 2 * q);
    PowSquare(w);
    PowAdd(w, 2, 4 * q);
    MulEq(w * w, (k * k) * (k * k), (k * k) * (k * k));
    CongMul(w * w, w * w, (k * k) * (k * k), Pow(w, 4 * q), P);
    EulerSquare(w, s, 4 * q + 2);
    CongMul(num * num, num * num, (w * w) * ((k * k) * (k * k)), 1, P);
    CongSub(c * c, num * num, num * num, num * num, P);
    assert c * c - num * num == (c - num) * (c + num);
    Euclid(c - num, c + num, P);
    if Eq(c - num, 0) {
      CongAdd(c - num, 0, num, num, P);
    } else {
      CongSub(c + num, 0, num, num, P);
    }
  }

  lemma PowSquare(w: int)
    ensures Pow(w, 2) == w * w
  {
    assert Pow(w, 1) == w * Pow(w, 0);
  }

  lemma EulerSquare(w: int, s: int, e: nat)
    requires Prime(P) && !Eq(s, 0) && Eq(w, s * s) && 2 * e == P - 1
    ensures Eq(Pow(w, e), 1)
  {
    hide Mod, Val, FieldPrime, Prime, Pow;
    CongPow(w, s * s, e, P);
    PowSquare(s);
    PowMul(s, 2, e);
    Fermat(s, P);
  }

  /** The chain of products from num and den to the candidate and its check value. */
  ghost predicate CandidateChain(u: int, v: int, w: int, k: int, x: int, c: int) {
    && Eq(w, ((((v * v) * (v * v)) * (v * v)) * u) * v)
    && Eq(k, Pow(w, (P - 5) / 8))
    && Eq(x, (((k * u) * v) * v) * v)
    && Eq(c, (x * x) * v)
  }

  lemma ChainSquare(u: int, v: int, w: int, k: int, x: int, c: int)
    requires CandidateChain(u, v, w, k, x, c)
    ensures Eq(c * c, (u * u) * ((w * w) * ((k * k) * (k * k))))
  {
    hide Mod, Val, FieldPrime, Pow;
    var w', x' := ((((v * v) * (v * v)) * (v * v)) * u) * v, (((k * u) * v) * v) * v;
    CongMul(x, x', x, x', P);
    CongMul(x * x, x' * x', v, v, P);
    CongMul(c, (x' * x') * v, c, (x' * x') * v, P);
    CongMul(w, w', w, w', P);
    CongMul(w * w, w' * w', (k * k) * (k * k), (k * k) * (k * k), P);
    CongMul(u * u, u * u, (w * w) * ((k * k) * (k * k)), (w' * w') * ((k * k) * (k * k)), P);
    ChainMonomials(u, v, k);
  }

  lemma ChainMonomials(u: int, v: int, k: int)
    ensures var w, x := ((((v * v) * (v * v)) * (v * v)) * u) * v, (((k * u) * v) * v) * v;
            ((x * x) * v) * ((x * x) * v) == (u * u) * ((w * w) * ((k * k) * (k * k)))
  {
    var w, x := ((((v * v) * (v * v)) * (v * v)) * u) * v, (((k * u) * v) * v) * v;
    CheckMonomial(u, v, k);
    CheckSquare(u, w, k, (x * x) * v);
  }

  lemma CheckMonomial(u: int, v: int, k: int)
    ensures ((((k * u) * v) * v) * v) * ((((k * u) * v) * v) * v) * v == (k * k) * (u * (((((v * v) * (v * v)) * (v * v)) * u) * v))
  {}

  lemma CheckSquare(u: int, w: int, k: int, c: int)
    requires c == (k * k) * (u * w)
    ensures c * c == (u * u) * ((w * w) * ((k * k) * (k * k)))
  {
    MulEq(c, c, (k * k) * (u * w));
    MulEq((k * k) * (u * w), c, (k * k) * (u * w));
  }

  /** If any x solves x^2 den = num, the candidate or the candidate times sqrt(-1) does. */
  lemma CandidateComplete(u: int, v: int, w: int, k: int, x: int, c: int, z: int)
    requires Prime(P) && CandidateChain(u, v, w, k, x, c) && !Eq(v, 0) && Eq((z * z) * v, u)
    ensures Eq(c, u) || Eq(c, -u)
  {
    hide Mod, Val, FieldPrime, Prime, Pow;
    if Eq(u, 0) {
      ChainZero(u, v, k, x, c);
    } else {
      var v2, v4 := v * v, (v * v) * (v * v);
      var s := z * v4;
      CongMul((v4 * v2) * v, (v4 * v2) * v, (z * z) * v, u, P);
      RootMonomials(z, v, u);
      if Eq(s, 0) {
        CongMul(s, 0, s, s, P);
        NonzeroProduct(v, v, P);
        NonzeroProduct(v2, v2, P);
        NonzeroProduct(v4, v2, P);
        NonzeroProduct(v4 * v2, u, P);
        NonzeroProduct((v4 * v2) * u, v, P);
        assert false;
      }
      ChainSquare(u, v, w, k, x, c);
      CandidateSquare(u, v, s, w, k, c);
    }
  }

  lemma RootMonomials(z: int, v: int, u: int)
    ensures var v2, v4 := v * v, (v * v) * (v * v);
            && ((v4 * v2) * v) * ((z * z) * v) == (z * v4) * (z * v4)
            && ((v4 * v2) * v) * u == ((v4 * v2) * u) * v
  {}

  lemma ChainZero(u: int, v: int, k: int, x: int, c: int)
    requires Eq(u, 0) && Eq(x, (((k * u) * v) * v) * v) && Eq(c, (x * x) * v)
    ensures Eq(c, u)
  {
    hide Mod, Val, FieldPrime;
    CongMul(k * v * v * v, k * v * v * v, u, 0, P);
    assert (((k * u) * v) * v) * v == (k * v * v * v) * u;
    CongMul(x, 0, x * v, x * v, P);
    assert (x * x) * v == x * (x * v);
  }

  /** Multiplying the candidate by sqrt(-1) negates its check value. */
  lemma RootTimesI(x: int, v: int, c: int, u: int, x': int, c': int)
    requires Eq(c, (x * x) * v) && Eq(x', x * ROOT) && Eq(c', (x' * x') * v)
    ensures Eq(c, -u) ==> Eq(c', u)
  {
    hide Mod, Val, FieldPrime;
    Constants();
    CongMul(x', x * ROOT, x', x * ROOT, P);
    CongMul(x' * x', (x * ROOT) * (x * ROOT), v, v, P);
    CongMul(ROOT * ROOT, -1, (x * x) * v, c, P);
    RootTimesMonomials(x, v, ROOT);
    if Eq(c, -u) {
      CongMul(-1, -1, c, -u, P);
    }
  }

  lemma RootTimesMonomials(x: int, v: int, i: int)
    ensures ((x * i) * (x * i)) * v == (i * i) * ((x * x) * v)
  {}
}
