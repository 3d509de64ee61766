/** Signatures made with the private key are accepted: signing and verification are inverse (sections 4.1.3 and 4.1.4 of SEC 1). */
module P256Signing {
  import opened Arith
  import opened Primes
  import opened P256Curve
  import opened Radix
  import opened BignumBytes
  import opened P256
  import Sha256
  import Streaming

  lemma {:induction false} TimesTimes(m: nat, d: nat, a: Point)
    requires Prime(Q) && Associative() && OnCurve(a)
    ensures 0 <= m * d && Times(m, Times(d, a)) == Times(m * d, a)
  {
    hide Prime, OnCurve, P256Curve.Add, Associative, FieldPrime, CoefficientWords;
    if m > 0 {
      TimesTimes(m - 1, d, a);
      assert m * d == (m - 1) * d + d by { MulDistr(d, m, -1); }
      TimesAdd((m - 1) * d, d, a);
    }
  }

  lemma {:induction false} TimesInfinity(m: nat)
    ensures Times(m, Infinity) == Infinity
  {
    if m > 0 {
      TimesInfinity(m - 1);
    }
  }

  lemma TimesWrap(j: nat, k: nat, n: nat, a: Point)
    requires Prime(Q) && Associative() && OnCurve(a) && Times(n, a) == Infinity
    ensures 0 <= k * n && Times(j + k * n, a) == Times(j, a)
  {
    hide Prime, OnCurve, P256Curve.Add, Associative, Times, FieldPrime, CoefficientWords;
    TimesTimes(k, n, a);
    TimesInfinity(k);
    TimesAdd(j, k * n, a);
    AddInfinity(Times(j, a));
  }

  /** Multiples of a point depend on the factor modulo the point's order only. */
  lemma TimesPeriod(i: nat, j: nat, n: nat, a: Point)
    requires Prime(Q) && Associative() && OnCurve(a) && n > 0 && Times(n, a) == Infinity && Cong(i, j, n)
    ensures Times(i, a) == Times(j, a)
  {
    hide Prime, OnCurve, Associative, Mod, Times, FieldPrime, CoefficientWords;
    if i < j {
      var k := WrapCount(j, i, n);
      TimesWrap(i, k, n, a);
    } else {
      var k := WrapCount(i, j, n);
      TimesWrap(j, k, n, a);
    }
  }

  /** (e/s + (r/s) d) s = e + r d. */
  lemma NonceRecovered(e: int, r: int, s: int, d: int, k: int, w: int, u1: int, u2: int)
    requires Prime(N) && !Cong(s, 0, N) && Cong(s * w, 1, N) && Cong(s * k, e + r * d, N)
    requires Cong(u1, e * w, N) && Cong(u2, r * w, N)
    ensures Cong(u1 + u2 * d, k, N)
  {
    hide Prime, Mod, FieldPrime, CoefficientWords;
    CongMul(u2, r * w, d, d, N);
    CongAdd(u1, e * w, u2 * d, r * w * d, N);
    CongMul(s, s, u1 + u2 * d, e * w + r * w * d, N);
    CongMul(e + r * d, e + r * d, s * w, 1, N);
    assert s * (e * w + r * w * d) == (e + r * d) * (s * w) by { Collect(s, e, w, r, d); }
    Cancel(s, u1 + u2 * d, k, N);
  }

  lemma Collect(s: int, e: int, w: int, r: int, d: int)
    ensures s * (e * w + r * w * d) == (e + r * d) * (s * w)
  {}

  /** A signature (r, s) formed with private key d and nonce k satisfies the verification equation. */
  lemma HonestAccepted(d: nat, k: nat, e: nat, r: int, s: int)
    requires Prime(Q) && Prime(N) && Associative() && Times(N, G) == Infinity
    requires Times(k, G).Affine? && r == Times(k, G).x % N && r != 0
    requires 0 < s < N && Cong(s * k, e + r * d, N)
    ensures Signs(Times(d, G), e, r, s)
  {
    GeneratorOnCurve();
    var w := FermatPower(s, N);
    var u1, u2 := (e * w) % N, (r * w) % N;
    CongSmall(s, N);
    FermatPowerInverts(s, N);
    CongMod(e * w, N);
    CongMod(r * w, N);
    hide Prime, OnCurve, Associative, Mod, Times, FermatPower, FieldPrime, CoefficientWords;
    NonceRecovered(e, r, s, d, k, w, u1, u2);
    CombinedMultiple(u1, u2, d, k);
  }

  /** u1 G + u2 (d G) = k G when u1 + u2 d = k modulo the order. */
  lemma CombinedMultiple(u1: nat, u2: nat, d: nat, k: nat)
    requires Prime(Q) && Associative() && Times(N, G) == Infinity && Cong(u1 + u2 * d, k, N)
    ensures P256Curve.Add(Times(u1, G), Times(u2, Times(d, G))) == Times(k, G)
  {
    GeneratorOnCurve();
    hide Prime, OnCurve, P256Curve.Add, Associative, Mod, Times, FieldPrime, CoefficientWords;
    TimesTimes(u2, d, G);
    TimesAdd(u1, u2 * d, G);
    TimesPeriod(u1 + u2 * d, k, N, G);
  }

  lemma OriginOffCurve()
    ensures !CurveEq(0, 0)
  {
    PrimeValue();
    CoefficientValue();
    hide Mod, FieldPrime, CoefficientWords;
    CongSmall(B, Q);
  }

  /** No point of the curve is at the origin, so the coordinates of any finite point pass the key checks. */
  lemma KeyUsable(a: Point)
    requires OnCurve(a) && a.Affine?
    ensures 0 <= a.x < Q && 0 <= a.y < Q && !(a.x == 0 && a.y == 0) && CurveEq(a.x, a.y)
  {
    hide CurveEq;
    OriginOffCurve();
  }

  /** Verify answers 1 for a signature made with the private key of the public key: s = (e + r d)/k for the digest e. */
  method HonestVerified(f: Streaming.Compress, qx: seq<byte>, qy: seq<byte>, msg: seq<byte>, r: seq<byte>, s: seq<byte>, ghost d: nat, ghost k: nat, ghost e: int)
    returns (ok: int)
    requires Prime(Q) && Prime(N) && Associative() && Times(N, G) == Infinity
    requires |qx| == |qy| == |r| == |s| == 32 && Times(d, G) == Affine(BeNum(qx), BeNum(qy))
    requires Times(k, G).Affine? && BeNum(r) == Times(k, G).x % N != 0
    requires e == BeNum(Sha256.Hash(f, msg)) && 0 < BeNum(s) < N && Cong(BeNum(s) * k, e + BeNum(r) * d, N)
    ensures ok == 1
  {
    GeneratorOnCurve();
    hide Prime, OnCurve, CurveEq, Associative, Mod, Times, Signs, Sha256.Hash, BeNum, FieldPrime, CoefficientWords;
    TimesOnCurve(d, G);
    KeyUsable(Times(d, G));
    CongMod(e, N);
    CongAdd(e % N, e, BeNum(r) * d, BeNum(r) * d, N);
    HonestAccepted(d, k, e % N, BeNum(r), BeNum(s));
    assert (r + s)[..32] == r && (r + s)[32..] == s;
    ok := Verify(f, qx, qy, msg, r + s);
  }
}
