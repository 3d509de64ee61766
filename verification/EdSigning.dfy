/** Signatures made with the private scalar are accepted: signing and verification are inverse (sections 5.1.6 and 5.1.7 of RFC 8032). */
module EdSigning {
  import opened Arith
  import opened Primes
  import opened Radix
  import opened Fe25519
  import opened EdLimbs
  import opened Edwards
  import opened EdConstants
  import opened EdDecode
  import opened EdCodec
  import opened Scalar25519
  import opened Ed25519
  import Sha512
  import Streaming

  /** The opposite point. */
  ghost function Neg(a: Pt): Pt {
    Pt(Mod(-a.x, P), a.y)
  }

  lemma NegOnCurve(a: Pt)
    requires OnCurve(a)
    ensures OnCurve(Neg(a)) && Eq(Neg(a).x, -a.x) && Neg(a).y == a.y
  {
    hide Mod, Val, FieldPrime;
    CongSelf(-a.x, P);
    SquareOfNegation(a.x, a.y);
    assert CurveEq(-a.x, a.y);
    CurveCong(-a.x, a.y, Neg(a).x, a.y);
  }

  lemma SquareOfNegation(x: int, y: int)
    ensures (-x) * (-x) == x * x && ((-x) * y) * ((-x) * y) == (x * y) * (x * y)
  {}

  /** A point and its opposite cancel. */
  lemma AddNeg(a: Pt)
    requires Prime(P) && OnCurve(a)
    ensures Edwards.Add(a, Neg(a)) == ZERO
  {
    hide Mod, Val, FieldPrime, Prime, Edwards.Add, SumX, SumY, Mixed, CurveEq, Neg;
    NegOnCurve(a);
    var b := Neg(a);
    var e := Mixed(a, b);
    AddCleared(a, b);
    Complete(a, b);
    CancelTerms(a, b, e);
    UnitSolution(Edwards.Add(a, b), 1 + e, 1 - e);
  }

  /** x p = 0 and y q = q have one reduced solution. */
  lemma UnitSolution(r: Pt, p: int, q: int)
    requires Prime(P) && 0 <= r.x < P && 0 <= r.y < P && !Eq(p, 0) && !Eq(q, 0) && Eq(r.x * p, 0) && Eq(r.y * q, q)
    ensures r == ZERO
  {
    hide Mod, Val, FieldPrime, Prime;
    Euclid(r.x, p, P);
    SmallEqual(r.x, 0);
    assert r.y * q == q * r.y && q * 1 == q;
    Cancel(q, r.y, 1, P);
    SmallEqual(r.y, 1);
  }

  lemma CancelTerms(a: Pt, b: Pt, e: int)
    requires CurveEq(a.x, a.y) && Eq(b.x, -a.x) && b.y == a.y && e == Mixed(a, b)
    ensures Eq(SumX(a, b), 0) && Eq(SumY(a, b), 1 - e)
  {
    hide Mod, Val, FieldPrime;
    var x, y := a.x, a.y;
    CongMul(1, 1, b.x, -x, P);
    CongMul(b.x, -x, y, y, P);
    CongAdd(x * y, x * y, b.x * y, -x * y, P);
    CongMul(x, x, b.x, -x, P);
    CongAdd(y * y, y * y, x * b.x, x * -x, P);
    var u := x * y;
    CongMul(u, u, b.x * y, -x * y, P);
    CongMul(D, D, u * (b.x * y), u * (-x * y), P);
    CongSub(1, 1, D * (u * (b.x * y)), D * (u * (-x * y)), P);
    NegatedTerms(x, y, D);
  }

  lemma NegatedTerms(x: int, y: int, d: int)
    ensures x * y + -x * y == 0 && y * y + x * -x == y * y - x * x
    ensures 1 - d * ((x * y) * (-x * y)) == 1 + d * ((x * y) * (x * y))
  {}

  lemma Regroup(a: Pt, b: Pt, c: Pt)
    requires Associative() && OnCurve(a) && OnCurve(b) && OnCurve(c)
    ensures Edwards.Add(Edwards.Add(a, b), c) == Edwards.Add(a, Edwards.Add(b, c))
  {
    hide OnCurve, Edwards.Add;
  }

  lemma SumOnCurve(a: Pt, b: Pt)
    requires Prime(P) && OnCurve(a) && OnCurve(b)
    ensures OnCurve(Edwards.Add(a, b))
  {
    hide Prime, Edwards.Add, CurveEq, FieldPrime;
    AddOnCurve(a, b);
  }

  /** (a + b) + (c + d) = (a + c) + (b + d) */
  lemma Shuffle(a: Pt, b: Pt, c: Pt, d: Pt)
    requires Prime(P) && Associative() && OnCurve(a) && OnCurve(b) && OnCurve(c) && OnCurve(d)
    ensures Edwards.Add(Edwards.Add(a, b), Edwards.Add(c, d)) == Edwards.Add(Edwards.Add(a, c), Edwards.Add(b, d))
  {
    hide Prime, OnCurve, Edwards.Add, Associative, FieldPrime;
    SumOnCurve(c, d);
    SumOnCurve(b, d);
    Regroup(a, b, Edwards.Add(c, d));
    Regroup(b, c, d);
    AddCommutes(b, c);
    Regroup(c, b, d);
    Regroup(a, c, Edwards.Add(b, d));
  }

  /** [h](-a) cancels [h]a. */
  lemma {:induction false} TimesNeg(h: nat, a: Pt)
    requires Prime(P) && Associative() && OnCurve(a)
    ensures Edwards.Add(Times(h, a), Times(h, Neg(a))) == ZERO
  {
    hide Prime, OnCurve, Edwards.Add, Associative, Neg, FieldPrime;
    NegOnCurve(a);
    AddZero(a);
    if h == 0 {
      AddZero(ZERO);
    } else {
      TimesNeg(h - 1, a);
      TimesOnCurve(h - 1, a);
      TimesOnCurve(h - 1, Neg(a));
      Shuffle(Times(h - 1, a), a, Times(h - 1, Neg(a)), Neg(a));
      AddNeg(a);
      AddZero(ZERO);
    }
  }

  lemma {:induction false} TimesTimes(m: nat, d: nat, a: Pt)
    requires Prime(P) && Associative() && OnCurve(a)
    ensures 0 <= m * d && Times(m, Times(d, a)) == Times(m * d, a)
  {
    hide Prime, OnCurve, Edwards.Add, Associative, FieldPrime;
    if m > 0 {
      TimesTimes(m - 1, d, a);
      assert m * d == (m - 1) * d + d by { MulDistr(d, m, -1); }
      TimesAdd((m - 1) * d, d, a);
    }
  }

  lemma {:induction false} TimesZero(m: nat)
    requires Prime(P)
    ensures Times(m, ZERO) == ZERO
  {
    hide Prime, OnCurve, Edwards.Add, FieldPrime;
    if m > 0 {
      TimesZero(m - 1);
      ZeroOnCurve();
      AddZero(ZERO);
    }
  }

  lemma ZeroOnCurve()
    ensures OnCurve(ZERO)
  {}

  lemma TimesWrap(j: nat, k: nat, n: nat, a: Pt)
    requires Prime(P) && Associative() && OnCurve(a) && Times(n, a) == ZERO
    ensures 0 <= k * n && Times(j + k * n, a) == Times(j, a)
  {
    hide Prime, OnCurve, Edwards.Add, Associative, Times, FieldPrime;
    TimesTimes(k, n, a);
    TimesZero(k);
    TimesAdd(j, k * n, a);
    TimesOnCurve(j, a);
    AddCommutes(Times(j, a), ZERO);
    AddZero(Times(j, a));
  }

  lemma TimesPeriod(i: nat, j: nat, n: nat, a: Pt)
    requires Prime(P) && Associative() && OnCurve(a) && n > 0 && Times(n, a) == ZERO && Cong(i, j, n)
    ensures Times(i, a) == Times(j, a)
  {
    hide Prime, OnCurve, Associative, Mod, Val, FieldPrime, Times;
    if i < j {
      var k := WrapCount(j, i, n);
      TimesWrap(i, k, n, a);
    } else {
      var k := WrapCount(i, j, n);
      TimesWrap(j, k, n, a);
    }
  }

  /** [h](-A) + [s]B = [r]B when A = [k]B and s = r + h k modulo the order. */
  lemma Recombined(h: nat, k: nat, r: nat, s: nat, b: Pt, n: nat)
    requires Prime(P) && Associative() && OnCurve(b) && n > 0 && Times(n, b) == ZERO && Cong(s, r + h * k, n)
    ensures Edwards.Add(Times(h, Neg(Times(k, b))), Times(s, b)) == Times(r, b)
  {
    hide Prime, OnCurve, Edwards.Add, Associative, Mod, Val, FieldPrime, Times, Neg;
    var a := Times(k, b);
    TimesOnCurve(k, b);
    NegOnCurve(a);
    TimesTimes(h, k, b);
    TimesPeriod(s, r + h * k, n, b);
    TimesAdd(r, h * k, b);
    TimesNeg(h, a);
    var t, u, v := Times(h, a), Times(h, Neg(a)), Times(r, b);
    TimesOnCurve(h, a);
    TimesOnCurve(h, Neg(a));
    TimesOnCurve(r, b);
    AddCommutes(u, Edwards.Add(v, t));
    Regroup(v, t, u);
    AddCommutes(v, ZERO);
    AddZero(v);
  }

  // ---------- encodings ----------

  lemma NegX(a: Pt)
    requires 0 <= a.x < P
    ensures Neg(a).x == if a.x == 0 then 0 else P - a.x
  {
    if a.x != 0 {
      assert Mod(-a.x, P) == Mod(-a.x + P, P);
    }
  }

  /** The encoding of a point decodes to its opposite. */
  lemma EncodingDecodes(p: seq<byte>, a: Pt)
    requires |p| == 32 && OnCurve(a) && Eval(p, 256) == EncodedValue(a)
    ensures DecodesNeg(p, Neg(a))
  {
    hide Mod, Val, FieldPrime, Eval, CurveEq, Neg;
    NegOnCurve(a);
    NegX(a);
    EncodingParts(p, a);
    PrimeValue();
  }

  lemma EncodingParts(p: seq<byte>, a: Pt)
    requires |p| == 32 && 0 <= a.x < P && 0 <= a.y < P && Eval(p, 256) == EncodedValue(a)
    ensures EncodedY(p) == a.y && p[31] / 128 == a.x % 2
  {
    hide Eval, Pow;
    var bit := a.x % 2;
    EvalSnoc(p, 31, 256);
    assert p[..32] == p;
    EvalBound(p[..31], 256);
    TopWeight();
    DivModUnique(Eval(p, 256), P + 19, bit, a.y);
    var w, low, hi, rest := Pow(256, 31), Eval(p[..31], 256), p[31] / 128, p[31] % 128;
    assert p[31] == 128 * hi + rest;
    TopSplit(Eval(p, 256), w, low, hi, rest);
  }

  lemma TopSplit(v: int, w: int, low: int, hi: int, rest: int)
    requires v == low + w * (128 * hi + rest) && 0 <= low < w && 0 <= rest < 128 && 128 * w == P + 19
    ensures v / (P + 19) == hi
  {
    MulLe(rest, 127, w);
    MulDistr(w, 128 * hi, rest);
    assert w * (128 * hi) == hi * (P + 19) by { MulEq(hi, 128 * w, P + 19); }
    MulLe(0, rest, w);
    DivModUnique(v, P + 19, hi, low + w * rest);
  }

  /** Encodings whose lower 255 bits agree modulo p and whose sign bits agree decode alike, reduced or not. */
  lemma SameDecoding(p: seq<byte>, p': seq<byte>, a: Pt)
    requires |p| == |p'| == 32 && Eq(Eval(p, 256) % (P + 19), Eval(p', 256) % (P + 19)) && p[31] / 128 == p'[31] / 128
    ensures DecodesNeg(p, a) <==> DecodesNeg(p', a)
  {
    hide Eval, Mod, Val, FieldPrime, OnCurve;
  }

  /** For x = 0 the sign bit does not matter. */
  lemma SignOfZero(p: seq<byte>, p': seq<byte>, a: Pt)
    requires |p| == |p'| == 32 && p[..31] == p'[..31] && p[31] % 128 == p'[31] % 128 && a.x == 0
    ensures DecodesNeg(p, a) <==> DecodesNeg(p', a)
  {
    hide Eval, Mod, Val, FieldPrime, OnCurve, Pow;
    LowerBits(p);
    LowerBits(p');
  }

  lemma LowerBits(p: seq<byte>)
    requires |p| == 32
    ensures EncodedY(p) == Eval(p[..31], 256) + Pow(256, 31) * (p[31] % 128)
  {
    hide Eval, Pow;
    EvalSnoc(p, 31, 256);
    assert p[..32] == p;
    EvalBound(p[..31], 256);
    TopWeight();
    var w, low, hi, rest := Pow(256, 31), Eval(p[..31], 256), p[31] / 128, p[31] % 128;
    assert p[31] == 128 * hi + rest;
    TopRest(Eval(p, 256), w, low, hi, rest);
  }

  lemma TopRest(v: int, w: int, low: int, hi: int, rest: int)
    requires v == low + w * (128 * hi + rest) && 0 <= low < w && 0 <= rest < 128 && 128 * w == P + 19
    ensures v % (P + 19) == low + w * rest
  {
    MulLe(rest, 127, w);
    MulDistr(w, 128 * hi, rest);
    assert w * (128 * hi) == hi * (P + 19) by { MulEq(hi, 128 * w, P + 19); }
    MulLe(0, rest, w);
    DivModUnique(v, P + 19, hi, low + w * rest);
  }

  /** A signature R S over a message M, with R the encoding of [r]B, h the digest of R, A and M, and S = r + h k modulo L, is
      accepted under the public key A that encodes [k]B. */
  lemma HonestAccepted(f: Streaming.Compress, A: seq<byte>, M: seq<byte>, R: seq<byte>, S: seq<byte>, k: nat, r: nat, h: int)
    requires Prime(P) && Associative() && Times(L, BASE) == ZERO && |A| == |R| == |S| == 32
    requires Eval(A, 256) == EncodedValue(Times(k, BASE)) && Eval(R, 256) == EncodedValue(Times(r, BASE))
    requires h == Eval(Sha512.Hash(f, R + A + M), 256) && 0 <= Eval(S, 256) < L && Cong(Eval(S, 256), r + h * k, L)
    ensures Accepts(f, A, M, R + S, Eval(S, 256), Neg(Times(k, BASE)))
  {
    hide Prime, OnCurve, Associative, Cong, FieldPrime, Times, Edwards.Add, Neg, Eval, EncodedValue, DecodesNeg, Sha512.Hash;
    var sig := R + S;
    assert sig[..32] == R && sig[32..] == S;
    SignedEquation(A, h, Eval(S, 256), k, r);
  }

  lemma SignedEquation(A: seq<byte>, h: int, s: nat, k: nat, r: nat)
    requires Prime(P) && Associative() && Times(L, BASE) == ZERO && |A| == 32 && Eval(A, 256) == EncodedValue(Times(k, BASE))
    requires Cong(s, r + h * k, L)
    ensures DecodesNeg(A, Neg(Times(k, BASE)))
    ensures Edwards.Add(Times(h % L, Neg(Times(k, BASE))), Times(s, BASE)) == Times(r, BASE)
  {
    BaseOnCurve();
    hide Prime, OnCurve, CurveEq, Edwards.Add, Associative, Mod, Val, FieldPrime, Times, Neg, Eval, EncodedValue, DecodesNeg;
    TimesOnCurve(k, BASE);
    EncodingDecodes(A, Times(k, BASE));
    ReducedFactor(s, r, h, k);
    Recombined(h % L, k, r, s, BASE, L);
  }

  /** The challenge may be reduced before it is used. */
  lemma ReducedFactor(s: int, r: int, h: int, k: int)
    requires Cong(s, r + h * k, L)
    ensures Cong(s, r + (h % L) * k, L)
  {
    hide Mod;
    CongMod(h, L);
    CongMul(h % L, h, k, k, L);
    CongAdd(r, r, (h % L) * k, h * k, L);
  }

  /** Verify answers 1 for a signature made with the private scalar of the public key. */
  method HonestVerified(f: Streaming.Compress, A: seq<byte>, M: seq<byte>, R: seq<byte>, S: seq<byte>, ghost k: nat, ghost r: nat, ghost h: int) returns (ok: int)
    requires Prime(P) && Associative() && Times(L, BASE) == ZERO && |A| == |R| == |S| == 32 && |M| < B64
    requires Eval(A, 256) == EncodedValue(Times(k, BASE)) && Eval(R, 256) == EncodedValue(Times(r, BASE))
    requires h == Eval(Sha512.Hash(f, R + A + M), 256) && 0 <= Eval(S, 256) < L && Cong(Eval(S, 256), r + h * k, L)
    ensures ok == 1
  {
    hide Prime, OnCurve, Edwards.Add, Associative, Mod, Val, FieldPrime, Times, Neg, Eval, EncodedValue, Accepts, DecodesNeg, Sha512.Hash;
    ok := Verify(f, A, M, R + S);
    HonestAccepted(f, A, M, R, S, k, r, h);
  }
}
