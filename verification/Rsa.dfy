/** RSASSA-PKCS1-v1_5 verification with SHA-256 (sections 8.2.2 and 9.2 of RFC 8017). */
module Rsa {
  import opened Arith
  import opened Radix
  import opened Bits
  import opened RawLimbs
  import opened Bignum
  import opened BignumBytes
  import opened ByteCompare
  import Der
  import Streaming
  import Sha256

  const DIGEST_INFO: seq<byte> := [0x30, 0x31, 0x30, 0x0d, 0x06, 0x09, 0x60, 0x86, 0x48, 0x01,
                                   0x65, 0x03, 0x04, 0x02, 0x01, 0x05, 0x00, 0x04, 0x20]

  function Ones(n: nat): (s: seq<byte>)
    ensures |s| == n && forall k :: 0 <= k < n ==> s[k] == 0xff
  {
    seq(n, _ => 0xff)
  }

  /** EMSA-PKCS1-v1_5: 00 01 ff..ff 00 DigestInfo H(msg), k bytes long. */
  function Block(k: nat, digest: seq<byte>): (s: seq<byte>)
    requires k >= 62 && |digest| == 32
    ensures |s| == k
  {
    [0x00, 0x01] + Ones(k - 54) + [0x00] + DIGEST_INFO + digest
  }

  /** The prefix and the digest are the DER encoding of its DigestInfo. */
  lemma DigestInfoIsDer(digest: seq<byte>)
    requires |digest| == 32
    ensures DIGEST_INFO + digest == Der.DigestInfo(digest)
  {
    Der.Sha256Components();
    var id := Der.ObjectIdentifier(Der.SHA256_ID);
    DerParts(digest);
    hide Der.ObjectIdentifier, Der.Null, Der.OctetString, Der.Components;
    assert Der.Sequence(id + Der.Null()) == [0x30, 0x0d] + (id + Der.Null());
    assert Der.DigestInfo(digest) == [0x30, 0x31] + (Der.Sequence(id + Der.Null()) + Der.OctetString(digest));
  }

  lemma DerParts(digest: seq<byte>)
    requires |digest| == 32
    ensures |Der.Components(Der.SHA256_ID[2..])| < 127
    ensures Der.ObjectIdentifier(Der.SHA256_ID) == [0x06, 0x09, 0x60, 0x86, 0x48, 0x01, 0x65, 0x03, 0x04, 0x02, 0x01]
    ensures Der.Null() == [0x05, 0x00] && Der.OctetString(digest) == [0x04, 0x20] + digest
  {
    Der.Sha256Components();
    hide Der.Components;
  }

  /** EMSA-PKCS1-v1_5 of section 9.2 of RFC 8017: 00 01, at least eight bytes ff, 00 and the encoded DigestInfo. */
  ghost predicate EncodedMessage(em: seq<byte>, digest: seq<byte>)
    requires |digest| == 32
  {
    exists ps: seq<byte> :: AllOnes(ps) && em == [0x00, 0x01] + ps + [0x00] + Der.DigestInfo(digest)
  }

  ghost predicate AllOnes(ps: seq<byte>) {
    |ps| >= 8 && forall k :: 0 <= k < |ps| ==> ps[k] == 0xff
  }

  /** The block of length k is the one encoded message of that length. */
  lemma BlockExact(em: seq<byte>, digest: seq<byte>)
    requires |em| >= 62 && |digest| == 32
    ensures em == Block(|em|, digest) <==> EncodedMessage(em, digest)
  {
    hide Der.DigestInfo;
    DigestInfoIsDer(digest);
    var k := |em|;
    assert Block(k, digest) == [0x00, 0x01] + Ones(k - 54) + [0x00] + (DIGEST_INFO + digest);
    assert AllOnes(Ones(k - 54));
    if ps: seq<byte> :| AllOnes(ps) && em == [0x00, 0x01] + ps + [0x00] + Der.DigestInfo(digest) {
      assert ps == Ones(k - 54);
    }
  }

  /** The modulus without its leading zero bytes. */
  function Stripped(modulus: seq<byte>): (s: seq<byte>)
    ensures |s| > 0 ==> s[0] != 0
    decreases |modulus|
  {
    if |modulus| > 0 && modulus[0] == 0 then Stripped(modulus[1..]) else modulus
  }

  lemma {:induction false} StrippedExact(modulus: seq<byte>)
    ensures |Stripped(modulus)| <= |modulus| && modulus == Zeros(|modulus| - |Stripped(modulus)|) + Stripped(modulus)
    decreases |modulus|
  {
    if |modulus| > 0 && modulus[0] == 0 {
      StrippedExact(modulus[1..]);
      hide Zeros;
      var rest := Stripped(modulus[1..]);
      var z: nat := |modulus| - |rest|;
      assert modulus == [0] + (Zeros(z - 1) + rest);
      MoreZeros(z, rest);
    }
  }

  lemma MoreZeros(z: nat, rest: seq<byte>)
    requires z > 0
    ensures [0] + (Zeros(z - 1) + rest) == Zeros(z) + rest
  {}

  /** Leading zeros make no difference. */
  lemma {:induction false} ZerosStripped(z: nat, n: seq<byte>)
    requires |n| > 0 && n[0] != 0
    ensures Stripped(Zeros(z) + n) == n
  {
    if z > 0 {
      ZerosStripped(z - 1, n);
      assert (Zeros(z) + n)[1..] == Zeros(z - 1) + n;
    } else {
      assert Zeros(0) + n == n;
    }
  }

  /** The signature equation: s < n and s^e mod n is the encoded digest block. */
  ghost predicate Signs(f: Streaming.Compress, n: seq<byte>, e: seq<byte>, msg: seq<byte>, sig: seq<byte>)
    requires |n| == |sig| >= 62
  {
    && BeNum(sig) < BeNum(n)
    && Pow(BeNum(sig), BeNum(e)) % BeNum(n) == BeNum(Block(|n|, Sha256.Hash(f, msg)))
  }

  /** while (modulus_len > 0 && modulus[0] == 0) drop the byte. */
  method Strip(modulus: seq<byte>) returns (s: seq<byte>)
    ensures s == Stripped(modulus)
  {
    s := modulus;
    while |s| > 0 && s[0] == 0
      invariant Stripped(s) == Stripped(modulus)
      decreases |s|
    {
      s := s[1..];
    }
  }

  /** A leading nonzero byte makes the number positive. */
  lemma NonzeroModulus(s: seq<byte>)
    requires |s| > 0 && s[0] != 0
    ensures BeNum(s) > 0
  {
    var r := Rev(s);
    EvalSnoc(r, |s| - 1, 256);
    assert r[..|s|] == r;
    EvalBound(r[..|s| - 1], 256);
    PowPositive(256, |s| - 1);
    MulLe(1, r[|s| - 1], Pow(256, |s| - 1));
  }

  /** The padding 00 01 ff..ff 00. */
  function Padding(k: nat): (s: seq<byte>)
    requires k >= 62
    ensures |s| == k - 51
  {
    [0x00, 0x01] + Ones(k - 54) + [0x00]
  }

  method MatchesPadding(em: seq<byte>) returns (ok: bool)
    requires |em| >= 62
    ensures ok <==> em[..|em| - 51] == Padding(|em|)
  {
    var psLen := |em| - 3 - 19 - 32;
    ghost var pad, head := Padding(|em|), em[..|em| - 51];
    assert forall j :: 0 <= j < |head| ==> head[j] == em[j];
    if em[0] != 0x00 || em[1] != 0x01 {
      return false;
    }
    var i := 2;
    while i < 2 + psLen
      invariant 2 <= i <= 2 + psLen
      invariant forall j :: 2 <= j < i ==> em[j] == 0xff
    {
      if em[i] != 0xff {
        assert pad[i] == 0xff && head[i] == em[i];
        return false;
      }
      i := i + 1;
    }
    ok := em[2 + psLen] == 0x00;
    assert pad[2 + psLen] == 0 && head[2 + psLen] == em[2 + psLen];
    if ok {
      assert head[2..2 + psLen] == Ones(psLen);
      assert head == head[..2] + head[2..2 + psLen] + [head[2 + psLen]];
    }
  }

  /** The byte-by-byte check of the encoded message: padding, algorithm, digest. */
  method MatchesBlock(em: seq<byte>, f: Streaming.Compress, msg: seq<byte>) returns (ok: bool)
    requires |em| >= 256
    ensures ok <==> em == Block(|em|, Sha256.Hash(f, msg))
  {
    hide Sha256.Hash, Padding;
    var k := |em|;
    ghost var digest0 := Sha256.Hash(f, msg);
    BlockParts(em, digest0);
    var padded := MatchesPadding(em);
    if !padded {
      return false;
    }
    var differ := CtDiff(em[k - 51..k - 32], DIGEST_INFO);
    if differ {
      return false;
    }
    var c := new Sha256.Context(f);
    c.Update(msg);
    assert c.fed == msg;
    var digest := c.Final();
    differ := CtDiff(em[k - 32..], digest);
    ok := !differ;
  }

  lemma BlockParts(em: seq<byte>, digest: seq<byte>)
    requires |em| >= 62 && |digest| == 32
    ensures var k := |em|;
            em == Block(k, digest) <==> em[..k - 51] == Padding(k) && em[k - 51..k - 32] == DIGEST_INFO && em[k - 32..] == digest
  {
    hide Padding;
    var k := |em|;
    assert Block(k, digest) == Padding(k) + DIGEST_INFO + digest by { BlockIs(k, digest); }
    assert em == em[..k - 51] + em[k - 51..k - 32] + em[k - 32..];
    hide Block;
    var b := Padding(k) + DIGEST_INFO + digest;
    assert b[..k - 51] == Padding(k) && b[k - 51..k - 32] == DIGEST_INFO && b[k - 32..] == digest;
  }

  lemma BlockIs(k: nat, digest: seq<byte>)
    requires k >= 62 && |digest| == 32
    ensures Block(k, digest) == Padding(k) + DIGEST_INFO + digest
  {}

  /** s^e mod n in k bytes, compared with the block. */
  method CheckPower(f: Streaming.Compress, n: Bn, e: Bn, s: Bn, k: nat, msg: seq<byte>, ghost modulus: seq<byte>, ghost exponent: seq<byte>, ghost sig: seq<byte>)
    returns (ok: bool)
    requires n.Valid() && e.Valid() && s.Valid() && k >= 256 && |modulus| == |sig| == k
    requires n.Value() == BeNum(modulus) && e.Value() == BeNum(exponent) && s.Value() == BeNum(sig)
    requires 0 < e.Value() && s.Value() < n.Value()
    ensures ok <==> Signs(f, modulus, exponent, msg, sig)
  {
    hide BeNum, Bn.Value, Sha256.Hash, Pow, Block;
    var em := new Bn();
    ModExp(em, s, e, n);
    BeNumBound(modulus);
    var embytes := new byte[k];
    var code := ToBytesBe(em, embytes);
    if code < 0 {
      return false;
    }
    ok := MatchesBlock(embytes[..], f, msg);
    if BeNum(embytes[..]) == BeNum(Block(k, Sha256.Hash(f, msg))) {
      BeNumUnique(embytes[..], Block(k, Sha256.Hash(f, msg)));
    }
  }

  /** A block is signed exactly when the power is the number of an encoded message of the modulus' length. */
  lemma SignsExact(f: Streaming.Compress, n: seq<byte>, e: seq<byte>, msg: seq<byte>, sig: seq<byte>)
    requires |n| == |sig| >= 62
    ensures Signs(f, n, e, msg, sig) <==> BeNum(sig) < BeNum(n) && exists em: seq<byte> :: SignedMessage(f, n, e, msg, sig, em)
  {
    hide BeNum, Block, EncodedMessage, Pow, Sha256.Hash;
    var block := Block(|n|, Sha256.Hash(f, msg));
    BlockExact(block, Sha256.Hash(f, msg));
    if Signs(f, n, e, msg, sig) {
      assert SignedMessage(f, n, e, msg, sig, block);
    }
    if BeNum(sig) < BeNum(n) {
      forall em | SignedMessage(f, n, e, msg, sig, em)
        ensures em == block
      {
        BlockExact(em, Sha256.Hash(f, msg));
      }
    }
  }

  /** s^e mod n is the number of the encoded message em, which is as long as the modulus. */
  ghost predicate SignedMessage(f: Streaming.Compress, n: seq<byte>, e: seq<byte>, msg: seq<byte>, sig: seq<byte>, em: seq<byte>)
    requires BeNum(sig) < BeNum(n)
  {
    |em| == |n| && EncodedMessage(em, Sha256.Hash(f, msg)) && Pow(BeNum(sig), BeNum(e)) % BeNum(n) == BeNum(em)
  }

  /** 1 for a signature, 0 for a forgery, -1 for a key outside the accepted range. */
  method Verify(f: Streaming.Compress, modulus: seq<byte>, exponent: seq<byte>, msg: seq<byte>, sig: seq<byte>) returns (r: int)
    ensures r == -1 || r == 0 || r == 1
    ensures var n := Stripped(modulus); var inRange := 256 <= |n| <= 512; var badExponent := |exponent| > 512 || BeNum(exponent) % 2 == 0 || BeNum(exponent) < 3;
            && (r == -1 <==> !inRange || (|sig| == |n| && badExponent))
            && (r == 1 <==> inRange && |sig| == |n| && !badExponent && BeNum(sig) < BeNum(n) && exists em: seq<byte> :: SignedMessage(f, n, exponent, msg, sig, em))
  {
    hide BeNum, Bn.Value, Signs, BitOf, SignedMessage;
    if |sig| == |Stripped(modulus)| >= 62 {
      SignsExact(f, Stripped(modulus), exponent, msg, sig);
    }
    var m := Strip(modulus);
    var k := |m|;
    if k < 2048 / 8 || k > MAX * 4 {
      return -1;
    }
    if |sig| != k {
      return 0;
    }
    var n := new Bn();
    var e := new Bn();
    var s := new Bn();
    var code := FromBytesBe(n, m);
    code := FromBytesBe(e, exponent);
    if code < 0 {
      return -1;
    }
    code := FromBytesBe(s, sig);
    NonzeroModulus(m);
    var zero := IsZero(e);
    if zero {
      return -1;
    }
    var odd := Bit(e, 0);
    var bits := Bitlen(e);
    OddAndLong(BeNum(exponent), odd, bits);
    if odd == 0 || bits < 2 {
      return -1;
    }
    var c := Cmp(s, n);
    if c >= 0 {
      assert !Signs(f, m, exponent, msg, sig) by { NotReduced(f, m, exponent, msg, sig); }
      return 0;
    }
    var ok := CheckPower(f, n, e, s, k, msg, m, exponent, sig);
    r := if ok then 1 else 0;
  }

  lemma NotReduced(f: Streaming.Compress, n: seq<byte>, e: seq<byte>, msg: seq<byte>, sig: seq<byte>)
    requires |n| == |sig| >= 62 && BeNum(sig) >= BeNum(n)
    ensures !Signs(f, n, e, msg, sig)
  {}

  /** An odd number with at least two bits is an odd number of at least three. */
  lemma OddAndLong(e: int, odd: int, bits: nat)
    requires e > 0 && odd == BitOf(e, 0) && HasBits(e, bits)
    ensures odd == 0 || bits < 2 <==> e % 2 == 0 || e < 3
  {
    assert Pow(2, 0) == 1 && Pow(2, 1) == 2;
    if bits >= 2 {
      TwoMonotone(1, bits - 1);
    }
  }
}
