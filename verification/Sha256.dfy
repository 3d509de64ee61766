/** The SHA-256 streaming context. */
module Sha256 {
  import opened Arith
  import opened Radix
  import opened Streaming

  const BLOCK: nat := 64
  const IV: State := [0x6a09e667, 0xbb67ae85, 0x3c6ef372, 0xa54ff53a, 0x510e527f, 0x9b05688c, 0x1f83d9ab, 0x5be0cd19]

  /** The digest of the whole message, hashed at once. */
  function Hash(f: Compress, m: seq<byte>): (h: seq<byte>)
    ensures |h| == 32
  {
    Digest(HashState(f, IV, m, BLOCK, 8), 4)
  }

  lemma LengthField(n: nat, length: nat)
    requires length == n % B64
    ensures BigEndian(n, 8) == BigEndian(length, 8)
  {
    assert Pow(256, 8) == B64;
    BigEndianMod(n, 8, length, n / B64);
  }

  /** x is the integer part of the square root of p scaled by 2^32. */
  ghost predicate RootOf(p: int, x: int) {
    x >= 0 && x * x <= p * B64 < (x + 1) * (x + 1)
  }

  /** Sections 5.1.1, 5.2.1 and 6.2 of FIPS 180-4 around the compression function: byte j of word i of the digest, for the one text p that
      is the message, a one bit, zeros and the bit length in whole blocks of 64 bytes. */
  lemma HashExact(f: Compress, m: seq<byte>, p: seq<byte>, i: nat, j: nat)
    requires |p| % 64 == 0 && |m| + 9 <= |p| < |m| + 73 && p[..|m|] == m && p[|m|] == 0x80
    requires (forall k :: |m| < k < |p| - 8 ==> p[k] == 0) && (forall k :: |p| - 8 <= k < |p| ==> LengthByte(p, k, 8 * |m|))
    requires i < 8 && j < 4
    ensures 4 * i + j < 32 && Pow(256, 3 - j) > 0
    ensures Hash(f, m)[4 * i + j] == Fold(f, IV, p, 64)[i] / Pow(256, 3 - j) % 256
  {
    hide Fold, Digest, Pow, LengthByte, Pad;
    PaddedExact(p, m, 64, 8);
    DigestByte(Fold(f, IV, p, 64), 4, i, j);
  }

  /** The initial words are the first 32 bits of the fractional parts of the square roots of the first eight primes. */
  lemma InitialWords()
    ensures forall i :: 0 <= i < 8 ==> InitialWord(i)
  {
    assert InitialWord(0) && InitialWord(1) && InitialWord(2) && InitialWord(3);
    assert InitialWord(4) && InitialWord(5) && InitialWord(6) && InitialWord(7);
  }

  ghost predicate InitialWord(i: nat)
    requires i < 8
  {
    var p: int := [2, 3, 5, 7, 11, 13, 17, 19][i];
    var root: int := [1, 1, 2, 2, 3, 3, 4, 4][i];
    var word: int := IV[i];
    RootOf(p, root * B32 + word)
  }

  lemma PadForm(m: seq<byte>)
    ensures Pad(m, BLOCK, 8) == m + [0x80] + Zeros(ZeroCount(|m|, BLOCK, 8)) + BigEndian(8 * |m|, 8)
  {}

  class Context {
    const f: Compress
    const buffer: array<byte>
    var state: State
    var bitlen: uint64
    var bufferLen: nat
    /** Everything passed to Update since Init. */
    ghost var fed: seq<byte>

    constructor (f: Compress)
      ensures Valid() && fed == [] && bitlen == 0 && this.f == f && fresh(buffer)
    {
      this.f := f;
      buffer := new byte[64](_ => 0);
      state := IV;
      bitlen, bufferLen := 0, 0;
      fed := [];
    }

    ghost predicate Valid()
      reads this, buffer
    {
      buffer.Length == BLOCK && Holds(f, IV, fed, state, buffer[..], bufferLen, BLOCK)
    }

    method Update(data: seq<byte>)
      requires Valid()
      modifies this, buffer
      ensures Valid() && fed == old(fed) + data
      ensures bitlen == (old(bitlen) + 8 * |data|) % B64
    {
      hide Holds;
      bitlen := (bitlen + 8 * |data|) % B64;
      state, bufferLen := Absorb(f, IV, fed, state, buffer, bufferLen, data, BLOCK);
      fed := fed + data;
    }

    /** One padding byte: it goes through Update, and its bits come back off the length. */
    method PadByte(b: byte)
      requires Valid()
      modifies this, buffer
      ensures Valid() && fed == old(fed) + [b] && bitlen == old(bitlen)
    {
      Update([b]);
      bitlen := (bitlen - 8) % B64;
    }

    /** Zero bytes until 56 are buffered. */
    method PadZeros(ghost m: seq<byte>)
      requires Valid() && fed == m + [0x80]
      modifies this, buffer
      ensures Valid() && fed == m + [0x80] + Zeros(ZeroCount(|m|, BLOCK, 8))
    {
      hide Fold, ZeroCount;
      ghost var zeros := 0;
      ghost var count := ZeroCount(|m|, BLOCK, 8);
      assert fed == m + [0x80] + Zeros(0);
      while bufferLen != 56
        invariant Valid() && 0 <= zeros <= count
        invariant fed == m + [0x80] + Zeros(zeros)
        decreases count - zeros
      {
        ZerosDone(f, IV, fed, state, buffer[..], bufferLen, BLOCK, 8, m, zeros);
        PadByte(0);
        assert Zeros(zeros) + [0] == Zeros(zeros + 1);
        zeros := zeros + 1;
      }
      ZerosDone(f, IV, fed, state, buffer[..], bufferLen, BLOCK, 8, m, zeros);
    }

    /** Appends mark, zeros and the bit length through Update. */
    method Final() returns (digest: seq<byte>)
      requires Valid() && bitlen == (8 * |fed|) % B64
      modifies this, buffer
      ensures digest == Hash(f, old(fed))
    {
      hide Fold, Pad, Holds, ZeroCount, BigEndian;
      ghost var m := fed;
      var length := bitlen;
      PadByte(0x80);
      PadZeros(m);
      var lenbytes := PutBigEndian(length, 8);
      LengthField(8 * |m|, length);
      Update(lenbytes);
      PadForm(m);
      PaddedState(f, IV, m, state, buffer[..], bufferLen, BLOCK, 8);
      digest := Digest(state, 4);
      state, bitlen, bufferLen := [0, 0, 0, 0, 0, 0, 0, 0], 0, 0;
      forall i | 0 <= i < buffer.Length {
        buffer[i] := 0;
      }
    }
  }

  /** The context has counted the bits of all it was fed. */
  ghost predicate Counting(c: Context)
    reads c, c.buffer
  {
    c.Valid() && c.bitlen == (8 * |c.fed|) % B64
  }

  method Feed(c: Context, data: seq<byte>)
    requires Counting(c)
    modifies c, c.buffer
    ensures Counting(c) && c.fed == old(c.fed) + data
  {
    hide Holds, Fold;
    BitsAdd(|c.fed|, |data|);
    c.Update(data);
  }

  /** Wrapping at each step is wrapping once. */
  lemma BitsAdd(a: nat, b: nat)
    ensures ((8 * a) % B64 + 8 * b) % B64 == (8 * (a + b)) % B64
  {}

  /** However the message is cut into updates, the digest is that of the whole message. */
  method HashParts(f: Compress, parts: seq<seq<byte>>) returns (digest: seq<byte>)
    ensures digest == Hash(f, Join(parts))
  {
    hide Hash, Holds, Fold;
    var c := new Context(f);
    var i := 0;
    while i < |parts|
      invariant 0 <= i <= |parts| && Counting(c) && c.f == f && fresh(c) && fresh(c.buffer)
      invariant c.fed == Join(parts[..i])
    {
      JoinSnoc(parts, i);
      Feed(c, parts[i]);
      i := i + 1;
    }
    assert parts[..|parts|] == parts;
    digest := c.Final();
  }
}
