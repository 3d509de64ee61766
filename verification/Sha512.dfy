/** The SHA-512 streaming context with its 128-bit length counter. */
module Sha512 {
  import opened Arith
  import opened Radix
  import opened Streaming

  const BLOCK: nat := 128
  const IV: State := [0x6a09e667f3bcc908, 0xbb67ae8584caa73b, 0x3c6ef372fe94f82b, 0xa54ff53a5f1d36f1,
                      0x510e527fade682d1, 0x9b05688c2b3e6c1f, 0x1f83d9abfb41bd6b, 0x5be0cd19137e2179]
  const B128: int := 0x1_0000_0000_0000_0000_0000_0000_0000_0000
  const B61: int := 0x2000_0000_0000_0000

  function Hash(f: Compress, m: seq<byte>): (h: seq<byte>)
    ensures |h| == 64
  {
    Digest(HashState(f, IV, m, BLOCK, 16), 8)
  }

  /** The two length words hold the bit count of n bytes. */
  ghost predicate Counts(hi: int, lo: int, n: int) {
    0 <= hi < B64 && 0 <= lo < B64 && hi * B64 + lo == (8 * n) % B128
  }

  /** Adding len bytes to the counter, with the carry read off the wrapped low word. */
  lemma CounterStep(hi: uint64, lo: uint64, n: nat, len: uint64, add: uint64, lo': uint64, hi1: uint64, hi': uint64)
    requires Counts(hi, lo, n)
    requires add == (8 * len) % B64 && lo' == (lo + add) % B64
    requires hi1 == (if lo' < add then (hi + 1) % B64 else hi) && hi' == (hi1 + len / B61) % B64
    ensures Counts(hi', lo', n + len)
  {
    var carry := if lo' < add then 1 else 0;
    assert lo + add == carry * B64 + lo';
    var w1 := (hi + carry) / B64;
    var w2 := (hi1 + len / B61) / B64;
    assert hi + carry == w1 * B64 + hi1;
    assert hi1 + len / B61 == w2 * B64 + hi';
    CounterSum(8 * n, (8 * n) / B128, hi, lo, 8 * len, len / B61, add, carry, w1 + w2, hi', lo');
  }

  lemma CounterSum(n8: int, q: int, hi: int, lo: int, l8: int, top: int, add: int, carry: int, w: int, hi': int, lo': int)
    requires n8 == q * B128 + hi * B64 + lo && l8 == top * B64 + add && lo + add == carry * B64 + lo'
    requires hi + carry + top == w * B64 + hi' && 0 <= hi' < B64 && 0 <= lo' < B64
    ensures hi' * B64 + lo' == (n8 + l8) % B128
  {
    DivModUnique(n8 + l8, B128, q + w, hi' * B64 + lo');
  }

  lemma LengthField(n: nat, hi: nat, lo: nat)
    requires 0 <= hi < B64 && 0 <= lo < B64 && hi * B64 + lo == n % B128
    ensures BigEndian(n, 16) == BigEndian(hi, 8) + BigEndian(lo, 8)
  {
    assert Pow(256, 8) == B64;
    hide Pow, BigEndian;
    PowAdd(256, 8, 8);
    assert Pow(256, 16) == B128;
    var m, q := hi * B64 + lo, n / B128;
    assert n == q * Pow(256, 16) + m;
    BigEndianMod(n, 16, m, q);
    BigEndianSplit(m, 8, 8, hi, lo);
  }

  /** x is the integer part of the square root of p scaled by 2^64. */
  ghost predicate RootOf(p: int, x: int) {
    x >= 0 && x * x <= p * B128 < (x + 1) * (x + 1)
  }

  /** Sections 5.1.2, 5.2.2 and 6.4 of FIPS 180-4 around the compression function: byte j of word i of the digest, for the one text p that
      is the message, a one bit, zeros and the bit length in whole blocks of 128 bytes. */
  lemma HashExact(f: Compress, m: seq<byte>, p: seq<byte>, i: nat, j: nat)
    requires |p| % 128 == 0 && |m| + 17 <= |p| < |m| + 145 && p[..|m|] == m && p[|m|] == 0x80
    requires (forall k :: |m| < k < |p| - 16 ==> p[k] == 0) && (forall k :: |p| - 16 <= k < |p| ==> LengthByte(p, k, 8 * |m|))
    requires i < 8 && j < 8
    ensures 8 * i + j < 64 && Pow(256, 7 - j) > 0
    ensures Hash(f, m)[8 * i + j] == Fold(f, IV, p, 128)[i] / Pow(256, 7 - j) % 256
  {
    hide Fold, Digest, Pow, LengthByte, Pad;
    PaddedExact(p, m, 128, 16);
    DigestByte(Fold(f, IV, p, 128), 8, i, j);
  }

  /** The initial words are the first 64 bits of the fractional parts of the square roots of the first eight primes. */
  lemma InitialWords()
    ensures forall i :: 0 <= i < 8 ==> InitialWord(i)
  {
    assert InitialWord(0) && InitialWord(1) && InitialWord(2) && InitialWord(3);
    assert InitialWord(4) && InitialWord(5) && InitialWord(6) && InitialWord(7);
  }

  ghost predicate InitialWord(i: nat)
    requires i < 8
  {
    var p: int := [2, 3, 5, 7, 11, 13, 17, 19][i];
    var root: int := [1, 1, 2, 2, 3, 3, 4, 4][i];
    var word: int := IV[i];
    RootOf(p, root * B64 + word)
  }

  lemma PadForm(m: seq<byte>)
    ensures Pad(m, BLOCK, 16) == m + [0x80] + Zeros(ZeroCount(|m|, BLOCK, 16)) + BigEndian(8 * |m|, 16)
  {}

  class Context {
    const f: Compress
    const buf: array<byte>
    var state: State
    var bitlenHi: uint64
    var bitlenLo: uint64
    var bufLen: nat
    /** Everything passed to Update since Init. */
    ghost var fed: seq<byte>

    constructor (f: Compress)
      ensures Valid() && fed == [] && this.f == f && fresh(buf)
    {
      this.f := f;
      buf := new byte[128](_ => 0);
      state := IV;
      bitlenHi, bitlenLo, bufLen := 0, 0, 0;
      fed := [];
    }

    ghost predicate Valid()
      reads this, buf
    {
      && buf.Length == BLOCK && Holds(f, IV, fed, state, buf[..], bufLen, BLOCK)
      && Counts(bitlenHi, bitlenLo, |fed|)
    }

    method Update(data: seq<byte>)
      requires Valid() && |data| < B64
      modifies this, buf
      ensures Valid() && fed == old(fed) + data
    {
      hide Holds, Counts;
      ghost var hi, lo := bitlenHi, bitlenLo;
      var len: uint64 := |data|;
      var add: uint64 := (8 * len) % B64;
      bitlenLo := (bitlenLo + add) % B64;
      if bitlenLo < add {
        bitlenHi := (bitlenHi + 1) % B64;
      }
      ghost var hi1 := bitlenHi;
      bitlenHi := (bitlenHi + len / B61) % B64;
      CounterStep(hi, lo, |fed|, len, add, bitlenLo, hi1, bitlenHi);
      state, bufLen := Absorb(f, IV, fed, state, buf, bufLen, data, BLOCK);
      fed := fed + data;
    }

    /** Zero bytes until only the length field is missing from the block. */
    method PadZeros(ghost m: seq<byte>)
      requires Valid() && fed == m + [0x80]
      modifies this, buf
      ensures Valid() && fed == m + [0x80] + Zeros(ZeroCount(|m|, BLOCK, 16)) && bufLen == 112
    {
      hide Fold, Counts, ZeroCount;
      ghost var zeros := 0;
      ghost var count := ZeroCount(|m|, BLOCK, 16);
      assert fed == m + [0x80] + Zeros(0);
      while bufLen != BLOCK - 16
        invariant Valid() && 0 <= zeros <= count
        invariant fed == m + [0x80] + Zeros(zeros)
        decreases count - zeros
      {
        ZerosDone(f, IV, fed, state, buf[..], bufLen, BLOCK, 16, m, zeros);
        Update([0]);
        assert Zeros(zeros) + [0] == Zeros(zeros + 1);
        zeros := zeros + 1;
      }
      ZerosDone(f, IV, fed, state, buf[..], bufLen, BLOCK, 16, m, zeros);
    }

    /** Pads, writes the length field past the counter, and compresses the last block. */
    method Final() returns (out: seq<byte>)
      requires Valid()
      modifies this, buf
      ensures out == Hash(f, old(fed))
    {
      hide Fold, Pad, Holds, ZeroCount, BigEndian;
      ghost var m := fed;
      var hi, lo := bitlenHi, bitlenLo;
      Update([0x80]);
      PadZeros(m);
      var high := PutBigEndian(hi, 8);
      var low := PutBigEndian(lo, 8);
      var lenb := high + low;
      LengthField(8 * |m|, hi, lo);
      ghost var before := buf[..];
      assert buf.Length == BLOCK by { BufferSize(this); }
      CopyInto(buf, bufLen, lenb);
      assert buf[..] == before[..112] + lenb;
      HoldsBlock(f, IV, fed, state, before, bufLen, BLOCK, lenb, buf[..], buf[..]);
      state := f(state, buf[..]);
      PadForm(m);
      PaddedState(f, IV, m, state, buf[..], 0, BLOCK, 16);
      out := Digest(state, 8);
    }
  }

  lemma BufferSize(c: Context)
    requires c.Valid()
    ensures c.buf.Length == BLOCK
  {}

  /** However the message is cut into updates, the digest is that of the whole message. */
  method HashParts(f: Compress, parts: seq<seq<byte>>) returns (digest: seq<byte>)
    requires forall k :: 0 <= k < |parts| ==> |parts[k]| < B64
    ensures digest == Hash(f, Join(parts))
  {
    hide Hash, Counts;
    var c := new Context(f);
    var i := 0;
    while i < |parts|
      invariant 0 <= i <= |parts| && c.Valid() && c.f == f && fresh(c) && fresh(c.buf)
      invariant c.fed == Join(parts[..i])
    {
      JoinSnoc(parts, i);
      c.Update(parts[i]);
      i := i + 1;
    }
    assert parts[..|parts|] == parts;
    digest := c.Final();
  }
}
