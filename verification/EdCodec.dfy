/** Point compression and decompression on limb arrays. */
module EdCodec {
  import opened Arith
  import opened Primes
  import opened Radix
  import opened Fe25519
  import opened FieldCodec
  import opened FieldPower
  import opened EdLimbs
  import opened Edwards
  import opened Extended
  import opened EdPoint
  import opened EdDecode

  // ---------- decompression ----------

  /** num := y^2 - 1 and den := d y^2 + 1 for the encoded y; z := 1. */
  method UnpackFraction(r: Point, p: seq<byte>, num: array<int64>, den: array<int64>)
    requires r.Valid() && |p| == 32 && num.Length == den.Length == 16 && num != den
    requires {num, den} !! {r.x, r.y, r.z, r.t}
    modifies r.y, r.z, num, den
    ensures Within(r.y[..], N) && Val(r.y[..]) == EncodedY(p)
    ensures Within(r.z[..], N) && Val(r.z[..]) == 1
    ensures Within(num[..], 2 * N) && Within(den[..], 2 * N)
    ensures Eq(Val(num[..]), EncodedY(p) * EncodedY(p) - 1)
    ensures Eq(Val(den[..]), D * (EncodedY(p) * EncodedY(p)) + 1)
  {
    hide Val, Mod, DLimbs, FieldPrime;
    SetOne(r.z);
    Unpack(r.y, p);
    assert Within(r.y[..], N);
    ghost var y := Val(r.y[..]);
    var d := Constant(DLimbs());
    DLimbsValue();
    MulN(num, r.y, r.y);
    MulN(den, num, d);
    FractionValues(y, Val(num[..]), Val(den[..]));
    SubB(num, num, r.z, N);
    AddB(den, r.z, den, N);
  }

  lemma FractionValues(y: int, y2: int, m: int)
    requires Eq(y2, y * y) && Eq(m, y2 * D)
    ensures Eq(y2 - 1, y * y - 1) && Eq(1 + m, D * (y * y) + 1)
  {
    hide Mod, FieldPrime;
    CongSub(y2, y * y, 1, 1, P);
    CongMul(y2, y * y, D, D, P);
    CongAdd(1, 1, m, (y * y) * D, P);
  }

  method SetOne(a: array<int64>)
    requires a.Length == 16
    modifies a
    ensures Within(a[..], N) && Val(a[..]) == 1
  {
    var one := new int64[16](i => if i == 0 then 1 else 0);
    EvalZeros(one[..][1..], B16);
    assert Val(one[..]) == 1;
    Copy(a, one);
  }

  /** w := num den^7. */
  method SeventhPower(w: array<int64>, num: array<int64>, den: array<int64>)
    requires w.Length == num.Length == den.Length == 16 && w != num && w != den
    requires Within(num[..], 2 * N) && Within(den[..], 2 * N)
    modifies w
    ensures Within(w[..], N)
    ensures var u, v := Val(num[..]), Val(den[..]);
            Eq(Val(w[..]), ((((v * v) * (v * v)) * (v * v)) * u) * v)
  {
    hide Val, Mod, FieldPrime;
    var den2, den4, den6 := new int64[16], new int64[16], new int64[16];
    ghost var u, v := Val(num[..]), Val(den[..]);
    MulN(den2, den, den);
    MulN(den4, den2, den2);
    MulN(den6, den4, den2);
    ghost var v2, v4, v6 := Val(den2[..]), Val(den4[..]), Val(den6[..]);
    MulN(w, den6, num);
    ghost var t := Val(w[..]);
    MulN(w, w, den);
    SeventhValues(u, v, v2, v4, v6, t, Val(w[..]));
  }

  lemma SeventhValues(u: int, v: int, v2: int, v4: int, v6: int, t: int, w: int)
    requires Eq(v2, v * v) && Eq(v4, v2 * v2) && Eq(v6, v4 * v2) && Eq(t, v6 * u) && Eq(w, t * v)
    ensures Eq(w, ((((v * v) * (v * v)) * (v * v)) * u) * v)
  {
    hide Mod, FieldPrime;
    CongMul(v2, v * v, v2, v * v, P);
    CongMul(v4, (v * v) * (v * v), v2, v * v, P);
    CongMul(v6, ((v * v) * (v * v)) * (v * v), u, u, P);
    CongMul(t, (((v * v) * (v * v)) * (v * v)) * u, v, v, P);
  }

  /** x := (num den^7)^((P-5)/8) num den^3. */
  method Candidate(x: array<int64>, num: array<int64>, den: array<int64>) returns (ghost w: int, ghost k: int)
    requires x.Length == num.Length == den.Length == 16 && x != num && x != den
    requires Within(num[..], 2 * N) && Within(den[..], 2 * N)
    modifies x
    ensures Within(x[..], N)
    ensures var u, v := Val(num[..]), Val(den[..]); var c := (Val(x[..]) * Val(x[..])) * v;
            CandidateChain(u, v, w, k, Val(x[..]), c)
  {
    hide Val, Mod, Pow, FieldPrime;
    ghost var u, v := Val(num[..]), Val(den[..]);
    var t := new int64[16];
    SeventhPower(t, num, den);
    w := Val(t[..]);
    PowRoot(t, t);
    k := Val(t[..]);
    MulN(t, t, num);
    ghost var x1 := Val(t[..]);
    MulN(t, t, den);
    ghost var x2 := Val(t[..]);
    MulN(t, t, den);
    ghost var x3 := Val(t[..]);
    MulN(x, t, den);
    CandidateValues(u, v, k, x1, x2, x3, Val(x[..]));
  }

  lemma CandidateValues(u: int, v: int, k: int, x1: int, x2: int, x3: int, x: int)
    requires Eq(x1, k * u) && Eq(x2, x1 * v) && Eq(x3, x2 * v) && Eq(x, x3 * v)
    ensures Eq(x, (((k * u) * v) * v) * v)
  {
    hide Mod, FieldPrime;
    CongMul(x1, k * u, v, v, P);
    CongMul(x2, (k * u) * v, v, v, P);
    CongMul(x3, ((k * u) * v) * v, v, v, P);
  }

  /** 1 if x^2 den differs from num. */
  method CheckRoot(x: array<int64>, num: array<int64>, den: array<int64>) returns (r: int)
    requires x.Length == num.Length == den.Length == 16
    requires Within(x[..], N) && Within(num[..], 2 * N) && Within(den[..], 2 * N)
    ensures r == if Eq((Val(x[..]) * Val(x[..])) * Val(den[..]), Val(num[..])) then 0 else 1
  {
    hide Val, Mod, FieldPrime;
    var chk := new int64[16];
    ghost var v := Val(den[..]);
    ghost var xv := Val(x[..]);
    MulN(chk, x, x);
    ghost var sq := Val(chk[..]);
    MulN(chk, chk, den);
    CongMul(sq, xv * xv, v, v, P);
    r := Neq(chk, num);
  }

  ghost predicate Solves(z: int, u: int, v: int) {
    Eq((z * z) * v, u)
  }

  /** x := a square root of num/den if there is one; the result is -1 otherwise. */
  method SquareRoot(x: array<int64>, num: array<int64>, den: array<int64>) returns (r: int)
    requires Prime(P) && x.Length == num.Length == den.Length == 16 && x != num && x != den
    requires Within(num[..], 2 * N) && Within(den[..], 2 * N) && !Eq(Val(den[..]), 0)
    modifies x
    ensures Within(x[..], N) && (r == 0 || r == -1)
    ensures r == 0 ==> Eq((Val(x[..]) * Val(x[..])) * Val(den[..]), Val(num[..]))
    ensures r == -1 ==> forall z: int :: !Solves(z, Val(num[..]), Val(den[..]))
  {
    hide Val, Mod, Pow, Prime, CandidateChain, RootLimbs, FieldPrime;
    ghost var u, v := Val(num[..]), Val(den[..]);
    ghost var w, k := Candidate(x, num, den);
    ghost var x0 := Val(x[..]);
    ghost var c0 := (x0 * x0) * v;
    var differs := CheckRoot(x, num, den);
    if differs != 0 {
      var root := Constant(RootLimbs());
      RootLimbsValue();
      MulN(x, x, root);
      ghost var x1 := Val(x[..]);
      RootTimesI(x0, v, c0, u, x1, (x1 * x1) * v);
    }
    differs := CheckRoot(x, num, den);
    if differs != 0 {
      forall z: int
        ensures !Solves(z, u, v)
      {
        if Solves(z, u, v) {
          CandidateComplete(u, v, w, k, x0, c0, z);
        }
      }
      return -1;
    }
    return 0;
  }

  lemma Mirrored(x: int, y: int)
    requires CurveEq(x, y)
    ensures CurveEq(-x, y)
  {
    assert (-x) * (-x) == x * x && ((-x) * y) * ((-x) * y) == (x * y) * (x * y);
  }

  /** The affine point of a decoded x and y, before its sign is chosen. */
  lemma DecodedPoint(x: int, y: int, a: Pt)
    requires CurveEq(x, y) && IsResidue(a.x, x) && IsResidue(a.y, y)
    ensures OnCurve(a) && Represents(x, y, 1, x * y, a) && CurveEq(-x, y)
  {
    hide Mod, Val, CurveEq, FieldPrime;
    CurveCong(x, y, a.x, a.y);
    CongMul(a.x, x, a.y, y, P);
    Constants();
    Mirrored(x, y);
  }

  lemma SignFlip(x: int, r: int, r': int)
    requires IsResidue(r, x) && IsResidue(r', -x)
    ensures r' == if r == 0 then 0 else P - r
  {
    hide Mod, FieldPrime;
    CongAdd(r, x, r', -x, P);
    OppositeRoots(r, r');
  }

  /** r := the negated point of the encoding p. Returns 0, or -1 exactly when p encodes no point. */
  method UnpackNeg(r: Point, p: seq<byte>) returns (code: int, ghost a: Pt)
    requires Prime(P) && r.Valid() && |p| == 32
    modifies r.x, r.y, r.z, r.t
    ensures code == 0 || code == -1
    ensures code == 0 ==> r.Is(a) && DecodesNeg(p, a) && Val(r.z[..]) == 1
    ensures code == -1 ==> forall b: Pt :: !DecodesNeg(p, b)
  {
    hide Val, Mod, Prime, Represents, DecodesNeg, OnCurve, CurveEq, FieldPrime;
    var num, den := new int64[16], new int64[16];
    UnpackFraction(r, p, num, den);
    ghost var y := EncodedY(p);
    ghost var u, v := Val(num[..]), Val(den[..]);
    FractionNonzero(y, v);
    ghost var numLimbs, denLimbs := num[..], den[..];
    code := SquareRoot(r.x, num, den);
    assert num[..] == numLimbs && den[..] == denLimbs;
    a := ZERO;
    if code == -1 {
      assert forall z: int :: !Solves(z, u, v);
      NoDecoding(p, u, v);
      return;
    }
    ghost var x0 := Val(r.x[..]);
    RootOnCurve(x0, y, u, v);
    var parity := Parity(r.x);
    if parity == p[31] / 128 {
      Negate(r.x);
    }
    ghost var x := Val(r.x[..]);
    a := Pt(x % P, y % P);
    Residue(x0);
    Residue(x);
    Residue(y);
    SignChosen(x0, x0 % P, x, y, a, p);
    MulN(r.t, r.x, r.y);
    TimesOneRepresents(x, y, Val(r.t[..]), a);
  }

  method Negate(x: array<int64>)
    requires x.Length == 16 && Within(x[..], N)
    modifies x
    ensures Within(x[..], N) && Val(x[..]) == -old(Val(x[..]))
  {
    ghost var X := x[..];
    var zero := new int64[16](_ => 0);
    EvalZeros(zero[..], B16);
    FieldPower.Sub(x, zero, x);
    assert forall k :: 0 <= k < 16 ==> x[k] == 0 - X[k];
  }

  lemma FractionNonzero(y: int, v: int)
    requires Prime(P) && Eq(v, D * (y * y) + 1)
    ensures !Eq(v, 0)
  {
    DenominatorNonzero(y, D * (y * y) + 1);
  }

  lemma RootOnCurve(x: int, y: int, u: int, v: int)
    requires Eq((x * x) * v, u) && Eq(u, y * y - 1) && Eq(v, D * (y * y) + 1)
    ensures CurveEq(x, y)
  {
    hide Mod, FieldPrime;
    var den := D * (y * y) + 1;
    CongMul(x * x, x * x, v, den, P);
    SolvedForX(x, y, den);
  }

  lemma DecodingSolves(p: seq<byte>, u: int, v: int, b: Pt)
    requires |p| == 32 && DecodesNeg(p, b)
    requires Eq(u, EncodedY(p) * EncodedY(p) - 1) && Eq(v, D * (EncodedY(p) * EncodedY(p)) + 1)
    ensures Solves(b.x, u, v)
  {
    hide Mod, Eval, CurveEq, FieldPrime;
    var y := EncodedY(p);
    CurveCong(b.x, b.y, b.x, y);
    var den := D * (y * y) + 1;
    SolvedForX(b.x, y, den);
    CongMul(b.x * b.x, b.x * b.x, v, den, P);
  }

  lemma NoDecoding(p: seq<byte>, u: int, v: int)
    requires |p| == 32
    requires Eq(u, EncodedY(p) * EncodedY(p) - 1) && Eq(v, D * (EncodedY(p) * EncodedY(p)) + 1)
    requires forall z: int :: !Solves(z, u, v)
    ensures forall b: Pt :: !DecodesNeg(p, b)
  {
    hide Mod, Eval, DecodesNeg, Solves, EncodedY, FieldPrime;
    forall b: Pt
      ensures !DecodesNeg(p, b)
    {
      if DecodesNeg(p, b) {
        DecodingSolves(p, u, v, b);
      }
    }
  }

  lemma SignChosen(x0: int, r0: int, x: int, y: int, a: Pt, p: seq<byte>)
    requires |p| == 32 && y == EncodedY(p) && CurveEq(x0, y) && IsResidue(r0, x0) && IsResidue(a.x, x) && IsResidue(a.y, y)
    requires x == if r0 % 2 == p[31] / 128 then -x0 else x0
    ensures DecodesNeg(p, a) && CurveEq(x, y)
  {
    hide Mod, Eval, CurveEq, FieldPrime;
    DecodedPoint(x0, y, Pt(r0, a.y));
    DecodedPoint(x, y, a);
    if r0 % 2 == p[31] / 128 {
      SignFlip(x0, r0, a.x);
      if r0 != 0 {
        OppositeParity(r0, a.x);
      }
    } else {
      SmallEqual(a.x, r0);
    }
  }

  lemma TimesOneRepresents(x: int, y: int, t: int, a: Pt)
    requires CurveEq(x, y) && IsResidue(a.x, x) && IsResidue(a.y, y) && Eq(t, x * y)
    ensures Represents(x, y, 1, t, a)
  {
    hide Mod, CurveEq, FieldPrime;
    DecodedPoint(x, y, a);
  }

  // ---------- compression ----------

  /** The number a point's 32 bytes denote: y, and the parity of x as bit 255. */
  function EncodedValue(a: Pt): int {
    a.y + (P + 19) * (a.x % 2)
  }

  /** Exclusive or of the top bit of a byte. */
  function FlipTop(x: byte, bit: int): (r: byte)
    requires 0 <= bit <= 1
  {
    if bit == 0 then x else if x < 128 then x + 128 else x - 128
  }

  lemma FlipTopIsXor(x: bv8)
    ensures FlipTop(x as int, 1) == (x ^ 128) as int && FlipTop(x as int, 0) == (x ^ 0) as int
  {
    if x < 128 {
      assert x ^ 128 == x + 128;
    } else {
      assert x ^ 128 == x - 128;
    }
    assert x ^ 0 == x;
  }

  /** r := the 32-byte encoding of p. */
  method PointPack(r: array<byte>, p: Point, ghost a: Pt)
    requires Prime(P) && r.Length == 32 && p.Valid() && p.Is(a)
    modifies r
    ensures Eval(r[..], 256) == EncodedValue(a)
  {
    hide Val, Mod, Prime, Eval, Pow, OnCurve, FieldPrime;
    var zi, tx, ty := new int64[16], new int64[16], new int64[16];
    ghost var x, y, z := Val(p.x[..]), Val(p.y[..]), Val(p.z[..]);
    Inv(zi, p.z);
    ghost var w := Val(zi[..]);
    MulN(tx, p.x, zi);
    MulN(ty, p.y, zi);
    AffineValue(x, z, w, Val(tx[..]), a.x);
    AffineValue(y, z, w, Val(ty[..]), a.y);
    assert 0 <= a.x < P && 0 <= a.y < P by { InRange(p, a); }
    Pack(r, ty);
    ghost var s: seq<int> := r[..];
    var bit := Parity(tx);
    TopByte(s);
    r[31] := FlipTop(r[31], bit);
    EvalUpdate(s, 31, r[31], 256);
    assert r[..] == s[31 := r[31]];
    TopWeight();
  }

  lemma InRange(p: Point, a: Pt)
    requires p.Valid() && p.Is(a)
    ensures 0 <= a.x < P && 0 <= a.y < P
  {}

  /** Multiplying by the inverse of z gives the affine coordinate. */
  lemma AffineValue(x: int, z: int, w: int, t: int, ax: int)
    requires Prime(P) && !Eq(z, 0) && Eq(x, ax * z) && Eq(w, Pow(z, P - 2)) && Eq(t, x * w)
    ensures Eq(t, ax)
    ensures 0 <= ax < P ==> t % P == ax
  {
    hide Mod, Prime, Pow, FieldPrime;
    AffineCong(x, z, w, t, ax);
    CongResidue(t, ax, P);
    if 0 <= ax < P {
      DivModUnique(ax, P, 0, ax);
    }
  }

  lemma AffineCong(x: int, z: int, w: int, t: int, ax: int)
    requires Prime(P) && !Eq(z, 0) && Eq(x, ax * z) && Eq(w, Pow(z, P - 2)) && Eq(t, x * w)
    ensures Eq(t, ax)
  {
    hide Mod, Prime, Pow, FieldPrime;
    FermatInverse(z, P);
    CongMul(z, z, w, Pow(z, P - 2), P);
    CongMul(x, ax * z, w, w, P);
    CongMul(ax, ax, z * w, 1, P);
    assert (ax * z) * w == ax * (z * w);
  }

  lemma TopByte(s: seq<int>)
    requires |s| == 32 && Digits(s, 256) && Eval(s, 256) < P
    ensures s[31] < 128
  {
    hide Eval, Pow;
    EvalSnoc(s, 31, 256);
    assert s[..32] == s;
    EvalBound(s[..31], 256);
    TopWeight();
  }

  lemma TopWeight()
    ensures 128 * Pow(256, 31) == P + 19
  {
    assert Pow(256, 7) == 0x100_0000_0000_0000 && Pow(256, 8) == 0x1_0000_0000_0000_0000;
    hide Pow;
    PowAdd(256, 8, 8);
    PowAdd(256, 16, 8);
    PowAdd(256, 24, 7);
    PrimeValue();
  }
}
