/** Signatures made with the private exponent are accepted: signing and verification are inverse (section 8.2 of RFC 8017). */
module RsaSigning {
  import opened Arith
  import opened Primes
  import opened Radix
  import opened BignumBytes
  import Der
  import opened Rsa
  import Streaming
  import Sha256

  lemma {:induction false} PowOne(j: nat)
    ensures Pow(1, j) == 1
  {
    if j > 0 {
      PowOne(j - 1);
    }
  }

  /** m^(1 + j (p-1)) = m modulo p, also when p divides m. */
  lemma PrimePart(m: int, x: nat, j: nat, p: nat)
    requires Prime(p) && x == 1 + j * (p - 1)
    ensures Cong(Pow(m, x), m, p)
  {
    assert p >= 2;
    hide Prime, Mod;
    PowMul(m, p - 1, j);
    var w: nat := (p - 1) * j;
    assert x == 1 + w;
    assert Pow(m, x) == m * Pow(m, w);
    hide Pow;
    if Cong(m, 0, p) {
      CongMul(m, 0, Pow(m, w), Pow(m, w), p);
    } else {
      Fermat(m, p);
      CongPow(Pow(m, p - 1), 1, j, p);
      PowOne(j);
      CongMul(m, m, Pow(m, w), 1, p);
    }
  }

  lemma OtherPrime(p: nat, q: nat)
    requires Prime(p) && Prime(q) && p != q
    ensures !Cong(p, 0, q)
  {
    if p < q {
      CongSmall(p, q);
    } else {
      CongResidue(p, 0, q);
      DivModUnique(0, q, 0, 0);
    }
  }

  /** Congruence modulo two different primes is congruence modulo their product. */
  lemma Combine(a: int, b: int, p: nat, q: nat)
    requires Prime(p) && Prime(q) && p != q && Cong(a, b, p) && Cong(a, b, q)
    ensures p * q > 0 && Cong(a, b, p * q)
  {
    assert p >= 2 && q >= 2;
    hide Prime, Mod;
    var k := CongTo(a, b, p);
    MulPositive(p, q);
    OtherPrime(p, q);
    CongSub(a, b, b, b, q);
    assert a - b == k * p;
    Euclid(k, p, q);
    var l := CongTo(k, 0, q);
    ThroughBoth(a, b, k, l, p, q);
    CongFrom(a, b, l, p * q);
  }

  lemma ThroughBoth(a: int, b: int, k: int, l: int, p: int, q: int)
    requires a == b + k * p && k == 0 + l * q
    ensures a == b + l * (p * q)
  {
    MulEq(p, k, l * q);
  }

  /** (m^d)^e = m modulo n = p q when d e = 1 modulo p-1 and q-1. */
  lemma Inverse(m: int, d: nat, e: nat, i: nat, j: nat, p: nat, q: nat)
    requires Prime(p) && Prime(q) && p != q && d * e == 1 + i * (p - 1) && d * e == 1 + j * (q - 1)
    ensures p * q > 0 && Cong(Pow(Pow(m, d) % (p * q), e), m, p * q)
  {
    MulPositive(p, q);
    hide Prime, Mod, Pow;
    var n := p * q;
    CongMod(Pow(m, d), n);
    CongPow(Pow(m, d) % n, Pow(m, d), e, n);
    PowMul(m, d, e);
    PrimePart(m, d * e, i, p);
    PrimePart(m, d * e, j, q);
    Combine(Pow(m, d * e), m, p, q);
  }

  /** The encoded message starts with a zero byte, so it is smaller than a modulus that does not. */
  lemma BlockBelowModulus(n: seq<byte>, digest: seq<byte>)
    requires |n| >= 62 && n[0] != 0 && |digest| == 32
    ensures 0 <= BeNum(Block(|n|, digest)) < BeNum(n)
  {
    var k := |n|;
    var b := Block(k, digest);
    assert b[0] == 0;
    TopDigit(b);
    TopDigit(n);
    hide BeNum, Block;
    BeNumBound(b[1..]);
    BeNumBound(n[1..]);
    PowPositive(256, k - 1);
    MulLe(1, n[0], Pow(256, k - 1));
  }

  lemma TopDigit(s: seq<byte>)
    requires |s| > 0
    ensures BeNum(s) == BeNum(s[1..]) + Pow(256, |s| - 1) * s[0]
  {
    hide BeNum, Pow;
    assert s == [s[0]] + s[1..];
    BeConcat([s[0]], s[1..]);
    OneByte(s[0]);
  }

  lemma OneByte(b: byte)
    ensures BeNum([b]) == b
  {
    assert Rev([b]) == [b];
    assert Eval([b][1..], 256) == 0;
  }

  /** A two-prime modulus n with exponents e and d that are inverse modulo both p - 1 and q - 1. */
  ghost predicate KeyPair(n: int, e: nat, d: nat, i: nat, j: nat, p: nat, q: nat) {
    n > 0 && n == p * q && p != q && Prime(p) && Prime(q) && d * e == 1 + i * (p - 1) && d * e == 1 + j * (q - 1)
  }

  /** A signature s = EM^d mod n satisfies the verification equation. */
  lemma HonestAccepted(f: Streaming.Compress, n: seq<byte>, e: seq<byte>, msg: seq<byte>, sig: seq<byte>, d: nat, i: nat, j: nat, p: nat, q: nat)
    requires |n| == |sig| >= 62 && n[0] != 0 && KeyPair(BeNum(n), BeNum(e), d, i, j, p, q)
    requires BeNum(sig) == Pow(BeNum(Block(|n|, Sha256.Hash(f, msg))), d) % BeNum(n)
    ensures Signs(f, n, e, msg, sig)
  {
    hide BeNum, Block, Prime, Pow, Mod, Sha256.Hash;
    var m := BeNum(Block(|n|, Sha256.Hash(f, msg)));
    BlockBelowModulus(n, Sha256.Hash(f, msg));
    Inverse(m, d, BeNum(e), i, j, p, q);
    Reduced(Pow(BeNum(sig), BeNum(e)), m, p * q);
  }

  lemma Reduced(a: int, m: int, n: int)
    requires n > 0 && Cong(a, m, n) && 0 <= m < n
    ensures a % n == m
  {
    CongResidue(a, m, n);
    DivModUnique(m, n, 0, m);
  }

  /** Verify answers 1 for a signature EM^d mod n, where EM is 00 01 ff..ff 00 and the DER DigestInfo of the message's SHA-256
      digest, when modulus and exponent are in the accepted range; zeros in front of the modulus do not matter. */
  method HonestVerified(f: Streaming.Compress, z: nat, n: seq<byte>, e: seq<byte>, msg: seq<byte>, sig: seq<byte>, ghost ps: seq<byte>,
                        ghost d: nat, ghost i: nat, ghost j: nat, ghost p: nat, ghost q: nat) returns (r: int)
    requires 256 <= |n| == |sig| <= 512 && n[0] != 0 && KeyPair(BeNum(n), BeNum(e), d, i, j, p, q)
    requires |e| <= 512 && BeNum(e) % 2 == 1 && BeNum(e) >= 3
    requires |ps| == |n| - 54 && forall k :: 0 <= k < |ps| ==> ps[k] == 0xff
    requires BeNum(sig) == Pow(BeNum([0x00, 0x01] + ps + [0x00] + Der.DigestInfo(Sha256.Hash(f, msg))), d) % BeNum(n)
    ensures r == 1
  {
    hide BeNum, Block, KeyPair, Pow, Sha256.Hash, Signs, Der.DigestInfo, EncodedMessage, SignedMessage;
    ghost var em := [0x00, 0x01] + ps + [0x00] + Der.DigestInfo(Sha256.Hash(f, msg));
    assert EncodedMessage(em, Sha256.Hash(f, msg)) by { Encoded(em, ps, Sha256.Hash(f, msg)); }
    BlockExact(em, Sha256.Hash(f, msg));
    HonestAccepted(f, n, e, msg, sig, d, i, j, p, q);
    SignsExact(f, n, e, msg, sig);
    ZerosStripped(z, n);
    r := Verify(f, Zeros(z) + n, e, msg, sig);
  }

  lemma Encoded(em: seq<byte>, ps: seq<byte>, digest: seq<byte>)
    requires |digest| == 32 && AllOnes(ps) && em == [0x00, 0x01] + ps + [0x00] + Der.DigestInfo(digest)
    ensures EncodedMessage(em, digest)
  {}
}
