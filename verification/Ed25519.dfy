/** Ed25519 signature verification: accepted signatures are exactly the ones the curve equation accepts. */
module Ed25519 {
  import opened Arith
  import opened Primes
  import opened Radix
  import opened Fe25519
  import opened FieldCodec
  import opened EdLimbs
  import opened Edwards
  import opened Extended
  import opened EdConstants
  import opened EdPoint
  import opened EdDecode
  import opened EdCodec
  import opened Scalar25519
  import opened ByteCompare
  import Streaming
  import Sha512

  const BASE: Pt := Pt(BASE_X, BASE_Y)

  /** p := [s]B. */
  method ScalarBase(p: Point, s: seq<byte>)
    requires Prime(P) && Associative() && p.Valid() && |s| == 32
    modifies p.x, p.y, p.z, p.t
    ensures Eval(s, 256) >= 0 && p.Is(Times(Eval(s, 256), BASE))
  {
    hide Val, Mod, Eval, Prime, OnCurve, CurveEq, Times, Associative, BaseXLimbs, BaseYLimbs, FieldPrime;
    var q := new Point();
    var x := Constant(BaseXLimbs());
    var y := Constant(BaseYLimbs());
    BaseXLimbsValue();
    BaseYLimbsValue();
    Copy(q.x, x);
    Copy(q.y, y);
    SetOne(q.z);
    MulN(q.t, x, y);
    BaseRepresents(Val(q.t[..]));
    ScalarMult(p, q, s, BASE);
  }

  lemma BaseRepresents(t: int)
    requires Eq(t, BASE_X * BASE_Y)
    ensures Represents(BASE_X, BASE_Y, 1, t, BASE)
  {
    hide Val, FieldPrime, OnCurve;
    BaseOnCurve();
    OneNotZero();
  }

  lemma OneNotZero()
    ensures !Eq(1, 0)
  {
    PrimeValue();
    hide Val, FieldPrime;
    CongSmall(1, P);
  }

  /** Section 5.1.7 of RFC 8032 without the cofactor: S < L, A decodes, and S B - h A encodes to R, where h is the
      SHA-512 digest of R, A and the message modulo L. */
  ghost predicate Accepts(f: Streaming.Compress, pub: seq<byte>, msg: seq<byte>, sig: seq<byte>, s: nat, negA: Pt)
    requires |pub| == 32 && |sig| == 64
  {
    && s == Eval(sig[32..], 256) && s < L && DecodesNeg(pub, negA)
    && Eval(sig[..32], 256) == EncodedValue(Edwards.Add(Times(Eval(Sha512.Hash(f, sig[..32] + pub + msg), 256) % L, negA), Times(s, BASE)))
  }

  method HashChallenge(f: Streaming.Compress, pub: seq<byte>, msg: seq<byte>, sig: seq<byte>) returns (h: seq<byte>)
    requires |pub| == 32 && |sig| == 64 && |msg| < B64
    ensures h == Sha512.Hash(f, sig[..32] + pub + msg)
  {
    hide Sha512.Hash;
    var sc := new Sha512.Context(f);
    sc.Update(sig[..32]);
    sc.Update(pub);
    assert sc.fed == sig[..32] + pub;
    if |msg| > 0 {
      sc.Update(msg);
    }
    assert sc.fed == sig[..32] + pub + msg;
    h := sc.Final();
  }

  /** The challenge as 32 reduced bytes. */
  method ReducedChallenge(f: Streaming.Compress, pub: seq<byte>, msg: seq<byte>, sig: seq<byte>) returns (h: seq<byte>)
    requires |pub| == 32 && |sig| == 64 && |msg| < B64
    ensures |h| == 32 && Eval(h, 256) == Eval(Sha512.Hash(f, sig[..32] + pub + msg), 256) % L
  {
    hide Eval, Sha512.Hash;
    var digest := HashChallenge(f, pub, msg, sig);
    var r := new byte[64](i requires 0 <= i < 64 => digest[i]);
    assert r[..] == digest;
    Reduce64(r);
    h := r[..32];
  }

  /** R' := the encoding of [h](-A) + [S]B. */
  method Recompute(q: Point, h: seq<byte>, s: seq<byte>, ghost negA: Pt) returns (rcheck: array<byte>)
    requires Prime(P) && Associative() && q.Valid() && q.Is(negA) && |h| == |s| == 32
    modifies q.x, q.y, q.z, q.t
    ensures fresh(rcheck) && rcheck.Length == 32 && Eval(h, 256) >= 0 && Eval(s, 256) >= 0
    ensures Eval(rcheck[..], 256) == EncodedValue(Edwards.Add(Times(Eval(h, 256), negA), Times(Eval(s, 256), BASE)))
  {
    hide Val, Mod, Prime, Eval, OnCurve, Represents, Times, Edwards.Add, Associative, EncodedValue, FieldPrime;
    var p := new Point();
    rcheck := new byte[32](_ => 0);
    ScalarMult(p, q, h, negA);
    ScalarBase(q, s);
    PointAdd(p, q, Times(Eval(h, 256), negA), Times(Eval(s, 256), BASE));
    PointPack(rcheck, p, Edwards.Add(Times(Eval(h, 256), negA), Times(Eval(s, 256), BASE)));
  }

  /** Returns 1 exactly for the accepted signatures, and 0 for every other input. */
  method Verify(f: Streaming.Compress, pub: seq<byte>, msg: seq<byte>, sig: seq<byte>) returns (ok: int)
    requires Prime(P) && Associative()
    requires |pub| == 32 && |sig| == 64 && |msg| < B64
    ensures ok == 0 || ok == 1
    ensures ok == 1 <==> exists s: nat, a: Pt :: Accepts(f, pub, msg, sig, s, a)
    ensures ok == 1 <==> exists s: nat, a: Pt :: s == Eval(sig[32..], 256) && s < L && DecodesNeg(pub, a)
                           && Eval(sig[..32], 256) == EncodedValue(Edwards.Add(Times(Eval(Sha512.Hash(f, sig[..32] + pub + msg), 256) % L, a), Times(s, BASE)))
  {
    hide Prime, Eval, OnCurve, Represents, Times, Edwards.Add, Associative, DecodesNeg, EncodedValue, Sha512.Hash, FieldPrime;
    ghost var n := Eval(sig[32..], 256);
    EvalBound(sig[32..], 256);
    var canonical := IsCanonical(sig[32..]);
    if canonical == 0 {
      return 0;
    }
    var q := new Point();
    var code: int;
    ghost var negA;
    code, negA := UnpackNeg(q, pub);
    if code != 0 {
      return 0;
    }
    var h := ReducedChallenge(f, pub, msg, sig);
    var rcheck := Recompute(q, h, sig[32..], negA);
    var d := Differences(rcheck[..], sig[..32]);
    if d == 0 {
      assert Accepts(f, pub, msg, sig, n, negA);
      ok := 1;
    } else {
      ok := 0;
      if Accepts(f, pub, msg, sig, n, negA) {
        EvalUnique(rcheck[..], sig[..32], 256);
      }
      OnlyDecoding(f, pub, msg, sig, n, negA);
    }
    AcceptedExactly(f, pub, msg, sig);
  }

  lemma AcceptedExactly(f: Streaming.Compress, pub: seq<byte>, msg: seq<byte>, sig: seq<byte>)
    requires |pub| == 32 && |sig| == 64
    ensures (exists s: nat, a: Pt :: Accepts(f, pub, msg, sig, s, a)) <==>
              exists s: nat, a: Pt :: s == Eval(sig[32..], 256) && s < L && DecodesNeg(pub, a)
                && Eval(sig[..32], 256) == EncodedValue(Edwards.Add(Times(Eval(Sha512.Hash(f, sig[..32] + pub + msg), 256) % L, a), Times(s, BASE)))
  {
    hide Eval, Times, Edwards.Add, OnCurve, DecodesNeg, EncodedValue, Sha512.Hash;
    var h := Eval(Sha512.Hash(f, sig[..32] + pub + msg), 256) % L;
    if s: nat, a: Pt :| Accepts(f, pub, msg, sig, s, a) {
      assert DecodesNeg(pub, a) && Eval(sig[..32], 256) == EncodedValue(Edwards.Add(Times(h, a), Times(s, BASE)));
    }
    if s: nat, a: Pt :| s == Eval(sig[32..], 256) && s < L && DecodesNeg(pub, a) && Eval(sig[..32], 256) == EncodedValue(Edwards.Add(Times(h, a), Times(s, BASE))) {
      assert Accepts(f, pub, msg, sig, s, a);
    }
  }

  /** Rejecting the one candidate rejects every witness. */
  lemma OnlyDecoding(f: Streaming.Compress, pub: seq<byte>, msg: seq<byte>, sig: seq<byte>, s: nat, negA: Pt)
    requires Prime(P) && |pub| == 32 && |sig| == 64
    requires DecodesNeg(pub, negA) && s == Eval(sig[32..], 256) && !Accepts(f, pub, msg, sig, s, negA)
    ensures forall n: nat, a: Pt :: !Accepts(f, pub, msg, sig, n, a)
  {
    hide Prime, Eval, Times, Edwards.Add, DecodesNeg, EncodedValue, Sha512.Hash, FieldPrime;
    forall n: nat, a: Pt
      ensures !Accepts(f, pub, msg, sig, n, a)
    {
      if DecodesNeg(pub, a) {
        DecodeUnique(pub, a, negA);
      }
    }
  }
}
