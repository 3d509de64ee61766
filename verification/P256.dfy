/** ECDSA verification over P-256 with SHA-256 (sections 4.1.3 and 4.1.4 of SEC 1). */
module P256 {
  import opened Arith
  import opened Primes
  import opened Radix
  import opened Bignum
  import opened BignumBytes
  import opened P256Curve
  import opened P256Jacobian
  import opened P256Point
  import Streaming
  import Sha256

  /** Order of the base point. */
  const N: int := 0xffff_ffff_0000_0000_ffff_ffff_ffff_ffff_bce6_faad_a717_9e84_f3b9_cac2_fc63_2551

  // ---------- domain parameters ----------

  lemma EightBytes(b0: byte, b1: byte, b2: byte, b3: byte, b4: byte, b5: byte, b6: byte, b7: byte)
    ensures BeNum([b0, b1, b2, b3, b4, b5, b6, b7]) == Word(b7, b6, b5, b4) + B32 * Word(b3, b2, b1, b0)
  {
    var r := Rev([b0, b1, b2, b3, b4, b5, b6, b7]);
    FirstFour(r);
    var t := r[4..];
    FirstFour(t);
    assert t[4..] == [];
    assert Eval(t[4..], 256) == 0;
  }

  lemma EightValue(b0: byte, b1: byte, b2: byte, b3: byte, b4: byte, b5: byte, b6: byte, b7: byte, v: int)
    requires v == b7 + 0x100 * b6 + 0x1_0000 * b5 + 0x100_0000 * b4 + 0x1_0000_0000 * (b3 + 0x100 * b2 + 0x1_0000 * b1 + 0x100_0000 * b0)
    ensures BeNum([b0, b1, b2, b3, b4, b5, b6, b7]) == v
  {
    EightBytes(b0, b1, b2, b3, b4, b5, b6, b7);
  }

  /** A 32-byte constant in four groups of known value. */
  lemma FourGroups(a: seq<byte>, b: seq<byte>, c: seq<byte>, d: seq<byte>, va: int, vb: int, vc: int, vd: int)
    requires |a| == |b| == |c| == |d| == 8
    requires BeNum(a) == va && BeNum(b) == vb && BeNum(c) == vc && BeNum(d) == vd
    ensures BeNum(((a + b) + c) + d) == vd + 0x1_0000_0000_0000_0000 * vc
      + 0x1_0000_0000_0000_0000_0000_0000_0000_0000 * vb
      + 0x1_0000_0000_0000_0000_0000_0000_0000_0000_0000_0000_0000_0000 * va
  {
    assert Pow(256, 8) == 0x1_0000_0000_0000_0000;
    hide BeNum, Pow;
    BeConcat(a + b + c, d);
    BeConcat(a + b, c);
    BeConcat(a, b);
  }

  function PrimeBytes(): (s: seq<byte>)
    ensures |s| == 32
  {
    (([0xff, 0xff, 0xff, 0xff, 0x00, 0x00, 0x00, 0x01] + [0x00, 0x00, 0x00, 0x00, 0x00, 0x00, 0x00, 0x00])
      + [0x00, 0x00, 0x00, 0x00, 0xff, 0xff, 0xff, 0xff]) + [0xff, 0xff, 0xff, 0xff, 0xff, 0xff, 0xff, 0xff]
  }

  lemma PrimeBytesValue()
    ensures BeNum(PrimeBytes()) == Q
  {
    PrimeValue();
    hide BeNum, FieldPrime;
    EightValue(0xff, 0xff, 0xff, 0xff, 0x00, 0x00, 0x00, 0x01, 0xffff_ffff_0000_0001);
    EightValue(0x00, 0x00, 0x00, 0x00, 0x00, 0x00, 0x00, 0x00, 0x0);
    EightValue(0x00, 0x00, 0x00, 0x00, 0xff, 0xff, 0xff, 0xff, 0xffff_ffff);
    EightValue(0xff, 0xff, 0xff, 0xff, 0xff, 0xff, 0xff, 0xff, 0xffff_ffff_ffff_ffff);
    FourGroups([0xff, 0xff, 0xff, 0xff, 0x00, 0x00, 0x00, 0x01], [0x00, 0x00, 0x00, 0x00, 0x00, 0x00, 0x00, 0x00],
      [0x00, 0x00, 0x00, 0x00, 0xff, 0xff, 0xff, 0xff], [0xff, 0xff, 0xff, 0xff, 0xff, 0xff, 0xff, 0xff],
      0xffff_ffff_0000_0001, 0x0, 0xffff_ffff, 0xffff_ffff_ffff_ffff);
  }

  function OrderBytes(): (s: seq<byte>)
    ensures |s| == 32
  {
    (([0xff, 0xff, 0xff, 0xff, 0x00, 0x00, 0x00, 0x00] + [0xff, 0xff, 0xff, 0xff, 0xff, 0xff, 0xff, 0xff])
      + [0xbc, 0xe6, 0xfa, 0xad, 0xa7, 0x17, 0x9e, 0x84]) + [0xf3, 0xb9, 0xca, 0xc2, 0xfc, 0x63, 0x25, 0x51]
  }

  lemma OrderBytesValue()
    ensures BeNum(OrderBytes()) == N
  {
    hide BeNum;
    EightValue(0xff, 0xff, 0xff, 0xff, 0x00, 0x00, 0x00, 0x00, 0xffff_ffff_0000_0000);
    EightValue(0xff, 0xff, 0xff, 0xff, 0xff, 0xff, 0xff, 0xff, 0xffff_ffff_ffff_ffff);
    EightValue(0xbc, 0xe6, 0xfa, 0xad, 0xa7, 0x17, 0x9e, 0x84, 0xbce6_faad_a717_9e84);
    EightValue(0xf3, 0xb9, 0xca, 0xc2, 0xfc, 0x63, 0x25, 0x51, 0xf3b9_cac2_fc63_2551);
    FourGroups([0xff, 0xff, 0xff, 0xff, 0x00, 0x00, 0x00, 0x00], [0xff, 0xff, 0xff, 0xff, 0xff, 0xff, 0xff, 0xff],
      [0xbc, 0xe6, 0xfa, 0xad, 0xa7, 0x17, 0x9e, 0x84], [0xf3, 0xb9, 0xca, 0xc2, 0xfc, 0x63, 0x25, 0x51],
      0xffff_ffff_0000_0000, 0xffff_ffff_ffff_ffff, 0xbce6_faad_a717_9e84, 0xf3b9_cac2_fc63_2551);
  }

  function CoefficientBytes(): (s: seq<byte>)
    ensures |s| == 32
  {
    (([0x5a, 0xc6, 0x35, 0xd8, 0xaa, 0x3a, 0x93, 0xe7] + [0xb3, 0xeb, 0xbd, 0x55, 0x76, 0x98, 0x86, 0xbc])
      + [0x65, 0x1d, 0x06, 0xb0, 0xcc, 0x53, 0xb0, 0xf6]) + [0x3b, 0xce, 0x3c, 0x3e, 0x27, 0xd2, 0x60, 0x4b]
  }

  lemma CoefficientBytesValue()
    ensures BeNum(CoefficientBytes()) == B
  {
    CoefficientValue();
    hide BeNum;
    EightValue(0x5a, 0xc6, 0x35, 0xd8, 0xaa, 0x3a, 0x93, 0xe7, 0x5ac6_35d8_aa3a_93e7);
    EightValue(0xb3, 0xeb, 0xbd, 0x55, 0x76, 0x98, 0x86, 0xbc, 0xb3eb_bd55_7698_86bc);
    EightValue(0x65, 0x1d, 0x06, 0xb0, 0xcc, 0x53, 0xb0, 0xf6, 0x651d_06b0_cc53_b0f6);
    EightValue(0x3b, 0xce, 0x3c, 0x3e, 0x27, 0xd2, 0x60, 0x4b, 0x3bce_3c3e_27d2_604b);
    FourGroups([0x5a, 0xc6, 0x35, 0xd8, 0xaa, 0x3a, 0x93, 0xe7], [0xb3, 0xeb, 0xbd, 0x55, 0x76, 0x98, 0x86, 0xbc],
      [0x65, 0x1d, 0x06, 0xb0, 0xcc, 0x53, 0xb0, 0xf6], [0x3b, 0xce, 0x3c, 0x3e, 0x27, 0xd2, 0x60, 0x4b],
      0x5ac6_35d8_aa3a_93e7, 0xb3eb_bd55_7698_86bc, 0x651d_06b0_cc53_b0f6, 0x3bce_3c3e_27d2_604b);
  }

  function BaseXBytes(): (s: seq<byte>)
    ensures |s| == 32
  {
    (([0x6b, 0x17, 0xd1, 0xf2, 0xe1, 0x2c, 0x42, 0x47] + [0xf8, 0xbc, 0xe6, 0xe5, 0x63, 0xa4, 0x40, 0xf2])
      + [0x77, 0x03, 0x7d, 0x81, 0x2d, 0xeb, 0x33, 0xa0]) + [0xf4, 0xa1, 0x39, 0x45, 0xd8, 0x98, 0xc2, 0x96]
  }

  lemma BaseXBytesValue()
    ensures BeNum(BaseXBytes()) == GX
  {
    hide BeNum;
    EightValue(0x6b, 0x17, 0xd1, 0xf2, 0xe1, 0x2c, 0x42, 0x47, 0x6b17_d1f2_e12c_4247);
    EightValue(0xf8, 0xbc, 0xe6, 0xe5, 0x63, 0xa4, 0x40, 0xf2, 0xf8bc_e6e5_63a4_40f2);
    EightValue(0x77, 0x03, 0x7d, 0x81, 0x2d, 0xeb, 0x33, 0xa0, 0x7703_7d81_2deb_33a0);
    EightValue(0xf4, 0xa1, 0x39, 0x45, 0xd8, 0x98, 0xc2, 0x96, 0xf4a1_3945_d898_c296);
    FourGroups([0x6b, 0x17, 0xd1, 0xf2, 0xe1, 0x2c, 0x42, 0x47], [0xf8, 0xbc, 0xe6, 0xe5, 0x63, 0xa4, 0x40, 0xf2],
      [0x77, 0x03, 0x7d, 0x81, 0x2d, 0xeb, 0x33, 0xa0], [0xf4, 0xa1, 0x39, 0x45, 0xd8, 0x98, 0xc2, 0x96],
      0x6b17_d1f2_e12c_4247, 0xf8bc_e6e5_63a4_40f2, 0x7703_7d81_2deb_33a0, 0xf4a1_3945_d898_c296);
  }

  function BaseYBytes(): (s: seq<byte>)
    ensures |s| == 32
  {
    (([0x4f, 0xe3, 0x42, 0xe2, 0xfe, 0x1a, 0x7f, 0x9b] + [0x8e, 0xe7, 0xeb, 0x4a, 0x7c, 0x0f, 0x9e, 0x16])
      + [0x2b, 0xce, 0x33, 0x57, 0x6b, 0x31, 0x5e, 0xce]) + [0xcb, 0xb6, 0x40, 0x68, 0x37, 0xbf, 0x51, 0xf5]
  }

  lemma BaseYBytesValue()
    ensures BeNum(BaseYBytes()) == GY
  {
    hide BeNum;
    EightValue(0x4f, 0xe3, 0x42, 0xe2, 0xfe, 0x1a, 0x7f, 0x9b, 0x4fe3_42e2_fe1a_7f9b);
    EightValue(0x8e, 0xe7, 0xeb, 0x4a, 0x7c, 0x0f, 0x9e, 0x16, 0x8ee7_eb4a_7c0f_9e16);
    EightValue(0x2b, 0xce, 0x33, 0x57, 0x6b, 0x31, 0x5e, 0xce, 0x2bce_3357_6b31_5ece);
    EightValue(0xcb, 0xb6, 0x40, 0x68, 0x37, 0xbf, 0x51, 0xf5, 0xcbb6_4068_37bf_51f5);
    FourGroups([0x4f, 0xe3, 0x42, 0xe2, 0xfe, 0x1a, 0x7f, 0x9b], [0x8e, 0xe7, 0xeb, 0x4a, 0x7c, 0x0f, 0x9e, 0x16],
      [0x2b, 0xce, 0x33, 0x57, 0x6b, 0x31, 0x5e, 0xce], [0xcb, 0xb6, 0x40, 0x68, 0x37, 0xbf, 0x51, 0xf5],
      0x4fe3_42e2_fe1a_7f9b, 0x8ee7_eb4a_7c0f_9e16, 0x2bce_3357_6b31_5ece, 0xcbb6_4068_37bf_51f5);
  }

  // ---------- field inversion ----------

  /** The power m-2, the inverse of a nonzero residue of a prime. */
  function FermatPower(a: int, m: int): (r: int)
    requires m > 2
    ensures 0 <= r < m
  {
    Pow(a, m - 2) % m
  }

  lemma FermatPowerInverts(a: int, m: int)
    requires Prime(m) && m > 2 && !Cong(a, 0, m)
    ensures Cong(a * FermatPower(a, m), 1, m)
  {
    hide Mod, Prime, FieldPrime, CoefficientWords;
    FermatInverse(a, m);
    CongMod(Pow(a, m - 2), m);
    CongMul(a, a, FermatPower(a, m), Pow(a, m - 2), m);
  }

  method InverseFermat(out: Bn, a: Bn, m: Bn)
    requires out.Valid() && a.Valid() && m.Valid() && Separate(out, a) && Separate(out, m) && m.Value() > 2
    modifies out, out.v
    ensures out.Valid() && out.Value() == old(FermatPower(a.Value(), m.Value()))
  {
    hide Bn.Value, Pow, FieldPrime, CoefficientWords;
    var mm2, two, unused := Locals();
    FromU32(two, 2);
    Sub(mm2, m, two);
    ModExp(out, a, mm2, m);
  }

  lemma AffineXValue(X: int, Y: int, Z: int, u: Point, inv: int, inv2: int, x: int)
    requires Prime(Q) && Represents(X, Y, Z, u) && u.Affine? && inv == FermatPower(Z, Q)
    requires Eq(inv2, inv * inv) && Eq(x, X * inv2) && 0 <= x < Q
    ensures x == u.x
  {
    hide Mod, Prime, CurveEq, FermatPower, FieldPrime, CoefficientWords;
    SmallNonzero(Z);
    FermatPowerInverts(Z, Q);
    var zi := Z * inv;
    CongMul(zi, 1, zi, 1, Q);
    CongMul(u.x, u.x, zi * zi, 1, Q);
    CongMul(X, u.x * (Z * Z), inv2, inv * inv, Q);
    assert (u.x * (Z * Z)) * (inv * inv) == u.x * ((Z * inv) * (Z * inv));
    SmallEqual(x, u.x);
  }

  /** out := X / Z^2; false for infinity. */
  method AffineX(out: Bn, a: JPoint, p: Bn, ghost u: Point) returns (ok: bool)
    requires Prime(Q) && out.Valid() && a.Is(u) && IsPrimeP(p) && {out, out.v} !! a.Cells() + {p, p.v}
    modifies out, out.v
    ensures out.Valid() && (ok <==> u.Affine?) && (ok ==> out.Value() == u.x)
  {
    hide Bn.Value, Mod, Prime, OnCurve, FermatPower, FieldPrime, CoefficientWords;
    ghost var X, Y, Z := a.x.Value(), a.y.Value(), a.z.Value();
    InField(a, u);
    var infinite := IsZero(a.z);
    if infinite {
      return false;
    }
    var zinv, zinv2, unused := Locals();
    InverseFermat(zinv, a.z, p);
    FMul(zinv2, zinv, zinv, p);
    FMul(out, a.x, zinv2, p);
    AffineXValue(X, Y, Z, u, zinv.Value(), zinv2.Value(), out.Value());
    ok := true;
  }

  // ---------- the key ----------

  lemma RightSide(x: int, x2: int, x3: int, d: int, t: int, m: int, r: int)
    requires Eq(x2, x * x) && Eq(x3, x2 * x) && Eq(d, x + x) && Eq(t, d + x) && Eq(m, x3 - t) && Eq(r, m + B)
    ensures Eq(r, Cubic(x))
  {
    hide Mod, FieldPrime, CoefficientWords;
    CongMul(x2, x * x, x, x, Q);
    CongAdd(d, x + x, x, x, Q);
    CongSub(x3, x * x * x, t, 3 * x, Q);
    CongAdd(m, x * x * x - 3 * x, B, B, Q);
  }

  method CubicSide(x: Bn, b: Bn, p: Bn) returns (rhs: Bn)
    requires Field(x) && Field(b) && b.Value() == B && IsPrimeP(p)
    ensures Field(rhs) && Eq(rhs.Value(), Cubic(x.Value()))
  {
    hide Bn.Value, Bn.Valid, Field, IsPrimeP, Mod, Cubic, FieldPrime, CoefficientWords;
    var t, unused;
    rhs, t, unused := Locals();
    FMul(rhs, x, x, p);
    ghost var x2 := rhs.Value();
    FMul(rhs, rhs, x, p);
    ghost var x3 := rhs.Value();
    FAdd(t, x, x, p);
    ghost var d := t.Value();
    FAdd(t, t, x, p);
    FSub(rhs, rhs, t, p);
    ghost var m := rhs.Value();
    FAdd(rhs, rhs, b, p);
    RightSide(x.Value(), x2, x3, d, t.Value(), m, rhs.Value());
  }

  method IsOnCurveEq(x: Bn, y: Bn, b: Bn, p: Bn) returns (ok: bool)
    requires Field(x) && Field(y) && Field(b) && b.Value() == B && IsPrimeP(p)
    ensures ok <==> CurveEq(x.Value(), y.Value())
  {
    hide Bn.Value, Bn.Valid, IsPrimeP, Mod, Cubic, FieldPrime, CoefficientWords;
    var lhs := new Bn();
    FMul(lhs, y, y, p);
    var rhs := CubicSide(x, b, p);
    var c := Cmp(lhs, rhs);
    ok := c == 0;
    if lhs.Value() != rhs.Value() && Eq(lhs.Value(), rhs.Value()) {
      SmallEqual(lhs.Value(), rhs.Value());
    }
  }

  // ---------- verification ----------

  /** u1 G + u2 q with u1 = e/s and u2 = r/s modulo the group order. */
  ghost function Recovered(q: Point, e: int, r: int, s: int): Point {
    var w := FermatPower(s, N);
    P256Curve.Add(Times((e * w) % N, G), Times((r * w) % N, q))
  }

  /** The signature equation. */
  ghost predicate Signs(q: Point, e: int, r: int, s: int) {
    && 0 < r < N && 0 < s < N
    && var R := Recovered(q, e, r, s); R.Affine? && R.x % N == r
  }

  /** With any inverse w of s modulo the order, u = e w and v = r w, the equation compares r with the x coordinate of u G + v q. */
  lemma SignsExact(q: Point, e: int, r: int, s: int, w: int, u: nat, v: nat)
    requires Prime(N) && 0 < s < N && Cong(s * w, 1, N)
    requires u < N && v < N && Cong(u, e * w, N) && Cong(v, r * w, N)
    ensures Signs(q, e, r, s) <==> 0 < r < N && var R := P256Curve.Add(Times(u, G), Times(v, q)); R.Affine? && R.x % N == r
  {
    CongSmall(s, N);
    FermatPowerInverts(s, N);
    hide Prime, Mod, FieldPrime, CoefficientWords, FermatPower, P256Curve.Add, Times;
    Cancel(s, FermatPower(s, N), w, N);
    SameResidue(e, FermatPower(s, N), w, u);
    SameResidue(r, FermatPower(s, N), w, v);
  }

  lemma SameResidue(e: int, f: int, w: int, u: int)
    requires Cong(f, w, N) && 0 <= u < N && Cong(u, e * w, N)
    ensures (e * f) % N == u
  {
    hide Mod;
    CongMul(e, e, f, w, N);
    CongResidue(e * f, u, N);
    DivModUnique(u, N, 0, u);
  }

  /** The loaded domain parameters. */
  class Context {
    const p: Bn
    const n: Bn
    const b: Bn
    const gx: Bn
    const gy: Bn

    constructor (p: Bn, n: Bn, b: Bn, gx: Bn, gy: Bn)
      ensures this.p == p && this.n == n && this.b == b && this.gx == gx && this.gy == gy
    {
      this.p, this.n, this.b, this.gx, this.gy := p, n, b, gx, gy;
    }

    ghost predicate Valid()
      reads p, p.v, n, n.v, b, b.v, gx, gx.v, gy, gy.v
    {
      && IsPrimeP(p) && n.Valid() && n.Value() == N
      && Field(b) && b.Value() == B && Field(gx) && gx.Value() == GX && Field(gy) && gy.Value() == GY
    }
  }

  method NewContext() returns (c: Context)
    ensures c.Valid()
  {
    PrimeValue();
    CoefficientValue();
    hide FieldPrime, CoefficientWords, Eval, BeNum, Bn.Value, PrimeBytes, OrderBytes, CoefficientBytes, BaseXBytes, BaseYBytes, Mod;
    PrimeBytesValue();
    OrderBytesValue();
    CoefficientBytesValue();
    BaseXBytesValue();
    BaseYBytesValue();
    var p := Load(PrimeBytes());
    var n := Load(OrderBytes());
    var b := Load(CoefficientBytes());
    var gx := Load(BaseXBytes());
    var gy := Load(BaseYBytes());
    c := new Context(p, n, b, gx, gy);
  }

  method Load(bytes: seq<byte>) returns (a: Bn)
    requires |bytes| == 32
    ensures fresh(a) && fresh(a.v) && a.Valid() && a.Value() == BeNum(bytes)
  {
    hide BeNum, Bn.Value, FieldPrime, CoefficientWords;
    a := new Bn();
    var code := FromBytesBe(a, bytes);
  }

  /** e := H(msg) mod n */
  method HashMessage(f: Streaming.Compress, msg: seq<byte>, n: Bn) returns (e: Bn)
    requires n.Valid() && n.Value() == N
    ensures fresh(e) && fresh(e.v) && e.Valid() && e.Value() == BeNum(Sha256.Hash(f, msg)) % N
  {
    hide BeNum, Bn.Value, Sha256.Hash, FieldPrime, CoefficientWords;
    var c := new Sha256.Context(f);
    c.Update(msg);
    assert c.fed == msg;
    var digest := c.Final();
    e := Load(digest);
    ModBn(e, e, n);
  }

  /** u1 := e/s mod n and u2 := r/s mod n */
  method Scalars(e: Bn, r: Bn, s: Bn, n: Bn) returns (u1: Bn, u2: Bn)
    requires e.Valid() && r.Valid() && s.Valid() && n.Valid() && n.Value() == N
    ensures u1.Valid() && u2.Valid()
    ensures u1.Value() == (e.Value() * FermatPower(s.Value(), N)) % N
    ensures u2.Value() == (r.Value() * FermatPower(s.Value(), N)) % N
  {
    hide Bn.Value, FermatPower, FieldPrime, CoefficientWords;
    var w;
    w, u1, u2 := Locals();
    InverseFermat(w, s, n);
    ModMul(u1, e, w, n);
    ModMul(u2, r, w, n);
  }

  /** sum := u1 G + u2 (x, y) */
  method Combine(c: Context, x: Bn, y: Bn, u1: Bn, u2: Bn, ghost q: Point) returns (sum: JPoint)
    requires Prime(Q) && Associative() && c.Valid() && Field(x) && Field(y) && u1.Valid() && u2.Valid()
    requires q == Affine(x.Value(), y.Value()) && CurveEq(x.Value(), y.Value())
    ensures fresh(sum.Cells()) && sum.Is(P256Curve.Add(Times(u1.Value(), G), Times(u2.Value(), q)))
  {
    hide Bn.Value, Field, Prime, CurveEq, Represents, P256Curve.Add, Times, Associative, FieldPrime, CoefficientWords;
    GeneratorOnCurve();
    ghost var k1, k2 := u1.Value(), u2.Value();
    var p1 := MulAffine(c.p, u1, c.gx, c.gy, G);
    var p2 := MulAffine(c.p, u2, x, y, q);
    sum := new JPoint();
    P256Point.Add(sum, p1, p2, c.p, Times(k1, G), Times(k2, q));
  }

  method MulAffine(p: Bn, k: Bn, x: Bn, y: Bn, ghost q: Point) returns (r: JPoint)
    requires Prime(Q) && Associative() && IsPrimeP(p) && k.Valid() && Field(x) && Field(y)
    requires q == Affine(x.Value(), y.Value()) && CurveEq(x.Value(), y.Value())
    ensures fresh(r.Cells()) && r.Is(Times(k.Value(), q))
  {
    hide Bn.Value, Field, Prime, CurveEq, Represents, Times, Associative, FieldPrime, CoefficientWords;
    var a := new JPoint();
    FromAffine(a, x, y);
    r := new JPoint();
    ScalarMul(r, k, a, p, q);
  }

  /** Compares the x coordinate of u1 G + u2 q, reduced modulo n, with r. */
  method CheckEquation(c: Context, x: Bn, y: Bn, e: Bn, r: Bn, s: Bn, ghost q: Point) returns (ok: bool)
    requires Prime(Q) && Associative() && c.Valid() && Field(x) && Field(y) && e.Valid() && r.Valid() && s.Valid()
    requires q == Affine(x.Value(), y.Value()) && CurveEq(x.Value(), y.Value())
    ensures ok <==> var R := Recovered(q, e.Value(), r.Value(), s.Value()); R.Affine? && R.x % N == r.Value()
  {
    hide Bn.Value, Field, Prime, CurveEq, Represents, P256Curve.Add, Times, Associative, FermatPower, FieldPrime, CoefficientWords;
    ghost var R := Recovered(q, e.Value(), r.Value(), s.Value());
    var u1, u2 := Scalars(e, r, s, c.n);
    var sum := Combine(c, x, y, u1, u2, q);
    var v := new Bn();
    var finite := AffineX(v, sum, c.p, R);
    if !finite {
      return false;
    }
    ModBn(v, v, c.n);
    var d := Cmp(v, r);
    ok := d == 0;
  }

  /** Coordinates below p, not both zero, on the curve. */
  method KeyOk(c: Context, x: Bn, y: Bn) returns (ok: bool)
    requires c.Valid() && x.Valid() && y.Valid()
    ensures ok <==> x.Value() < Q && y.Value() < Q && !(x.Value() == 0 && y.Value() == 0) && CurveEq(x.Value(), y.Value())
  {
    hide Bn.Value, CurveEq, FieldPrime, CoefficientWords;
    var dx := Cmp(x, c.p);
    var dy := Cmp(y, c.p);
    if dx >= 0 || dy >= 0 {
      return false;
    }
    var zx := IsZero(x);
    var zy := IsZero(y);
    if zx && zy {
      return false;
    }
    ok := IsOnCurveEq(x, y, c.b, c.p);
  }

  /** r and s in [1, n-1]. */
  method InRange(n: Bn, r: Bn, s: Bn) returns (ok: bool)
    requires n.Valid() && r.Valid() && s.Valid() && n.Value() == N
    ensures ok <==> 0 < r.Value() < N && 0 < s.Value() < N
  {
    hide Bn.Value, FieldPrime, CoefficientWords;
    var zr := IsZero(r);
    var zs := IsZero(s);
    if zr || zs {
      return false;
    }
    var dr := Cmp(r, n);
    var ds := Cmp(s, n);
    ok := dr < 0 && ds < 0;
  }

  /** 1 for a signature of msg under (qx, qy), 0 for a forgery, -1 for an unusable key. */
  method Verify(f: Streaming.Compress, qx: seq<byte>, qy: seq<byte>, msg: seq<byte>, sig: seq<byte>) returns (ok: int)
    requires Prime(Q) && Associative()
    requires |qx| == |qy| == 32 && |sig| == 64
    ensures var x, y := BeNum(qx), BeNum(qy);
            && (ok == -1 <==> x >= Q || y >= Q || (x == 0 && y == 0) || !CurveEq(x, y))
            && (ok == 1 <==> ok != -1 && Signs(Affine(x, y), BeNum(Sha256.Hash(f, msg)) % N, BeNum(sig[..32]), BeNum(sig[32..])))
            && (ok == -1 || ok == 0 || ok == 1)
  {
    hide BeNum, Bn.Value, Prime, CurveEq, Associative, Recovered, Sha256.Hash, FieldPrime, CoefficientWords;
    var c := NewContext();
    var x := Load(qx);
    var y := Load(qy);
    var r := Load(sig[..32]);
    var s := Load(sig[32..]);
    ok := VerifyNumbers(c, f, msg, x, y, r, s);
  }

  method VerifyNumbers(c: Context, f: Streaming.Compress, msg: seq<byte>, x: Bn, y: Bn, r: Bn, s: Bn) returns (ok: int)
    requires Prime(Q) && Associative() && c.Valid() && x.Valid() && y.Valid() && r.Valid() && s.Valid()
    ensures var u, v := x.Value(), y.Value();
            && (ok == -1 <==> u >= Q || v >= Q || (u == 0 && v == 0) || !CurveEq(u, v))
            && (ok == 1 <==> ok != -1 && Signs(Affine(u, v), BeNum(Sha256.Hash(f, msg)) % N, r.Value(), s.Value()))
            && (ok == -1 || ok == 0 || ok == 1)
  {
    hide BeNum, Bn.Value, Prime, CurveEq, Associative, Recovered, Sha256.Hash, FieldPrime, CoefficientWords;
    var key := KeyOk(c, x, y);
    if !key {
      return -1;
    }
    var range := InRange(c.n, r, s);
    if !range {
      return 0;
    }
    var e := HashMessage(f, msg, c.n);
    var good := CheckEquation(c, x, y, e, r, s, Affine(x.Value(), y.Value()));
    ok := if good then 1 else 0;
  }
}
