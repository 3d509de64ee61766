/** Conversion between big-endian byte strings and limbs. */
module BignumBytes {
  import opened Arith
  import opened Radix
  import opened RawLimbs
  import opened Bignum

  function Rev(s: seq<byte>): (r: seq<byte>)
    ensures |r| == |s| && forall k :: 0 <= k < |s| ==> r[k] == s[|s| - 1 - k]
  {
    seq(|s|, k requires 0 <= k < |s| => s[|s| - 1 - k])
  }

  /** The number a big-endian byte string denotes. */
  function BeNum(s: seq<byte>): (n: int)
    ensures n >= 0
  {
    EvalBound(Rev(s), 256);
    Eval(Rev(s), 256)
  }

  lemma BeNumBound(s: seq<byte>)
    ensures 0 <= BeNum(s) < Pow(256, |s|)
  {
    EvalBound(Rev(s), 256);
  }

  lemma BeNumUnique(s: seq<byte>, t: seq<byte>)
    requires |s| == |t| && BeNum(s) == BeNum(t)
    ensures s == t
  {
    EvalUnique(Rev(s), Rev(t), 256);
    forall k | 0 <= k < |s|
      ensures s[k] == t[k]
    {
      assert Rev(s)[|s| - 1 - k] == s[k] && Rev(t)[|s| - 1 - k] == t[k];
    }
  }

  lemma BeConcat(s: seq<byte>, t: seq<byte>)
    ensures BeNum(s + t) == BeNum(t) + Pow(256, |t|) * BeNum(s)
  {
    assert Rev(s + t) == Rev(t) + Rev(s);
    EvalConcat(Rev(t), Rev(s), 256);
  }

  // ---------- bytes inside a limb ----------

  function Word(b0: int, b1: int, b2: int, b3: int): int {
    b0 + 0x100 * b1 + 0x1_0000 * b2 + 0x100_0000 * b3
  }

  /** Weight of byte c of a limb. */
  function Weight(c: nat): (w: int)
    requires c < 4
    ensures w > 0
  {
    if c == 0 then 1 else if c == 1 then 0x100 else if c == 2 then 0x1_0000 else 0x100_0000
  }

  function ByteOf(w: uint32, c: nat): byte
    requires c < 4
  {
    (w / Weight(c)) % 256
  }

  lemma WordBytes(w: uint32)
    ensures w == Word(ByteOf(w, 0), ByteOf(w, 1), ByteOf(w, 2), ByteOf(w, 3))
  {
    var q1 := w / 0x100;
    var q2 := q1 / 0x100;
    assert w / 0x1_0000 == q2;
    assert w / 0x100_0000 == q2 / 0x100;
    assert q1 == 0x100 * q2 + q1 % 0x100;
  }

  /** v[l] |= b << 8c writes a byte whose place is still zero, so it adds it. */
  lemma OrIsAdd(w: bv32, b: bv32)
    requires b < 256
    ensures w & 0xff == 0 ==> w | b == w + b
    ensures w & 0xff00 == 0 ==> w | (b << 8) == w + (b << 8)
    ensures w & 0xff_0000 == 0 ==> w | (b << 16) == w + (b << 16)
    ensures w & 0xff00_0000 == 0 ==> w | (b << 24) == w + (b << 24)
  {
    Or0(w, b);
    Or8(w, b);
    Or16(w, b);
    Or24(w, b);
  }

  lemma Or0(w: bv32, b: bv32)
    ensures b < 256 && w & 0xff == 0 ==> w | b == w + b
  {}

  lemma Or8(w: bv32, b: bv32)
    ensures b < 256 && w & 0xff00 == 0 ==> w | (b << 8) == w + (b << 8)
  {}

  lemma Or16(w: bv32, b: bv32)
    ensures b < 256 && w & 0xff_0000 == 0 ==> w | (b << 16) == w + (b << 16)
  {}

  lemma Or24(w: bv32, b: bv32)
    ensures b < 256 && w & 0xff00_0000 == 0 ==> w | (b << 24) == w + (b << 24)
  {}

  /** Four bytes to a limb. */
  ghost predicate Grouped(le: seq<int>, words: seq<int>) {
    |le| == 4 * |words| && forall l :: 0 <= l < |words| ==> words[l] == Word(le[4 * l], le[4 * l + 1], le[4 * l + 2], le[4 * l + 3])
  }

  lemma {:induction false} GroupedValue(le: seq<int>, words: seq<int>)
    requires Grouped(le, words)
    ensures Eval(le, 256) == Num(words)
  {
    if |words| > 0 {
      forall l | 0 <= l < |words| - 1
        ensures words[1..][l] == Word(le[4..][4 * l], le[4..][4 * l + 1], le[4..][4 * l + 2], le[4..][4 * l + 3])
      {
        assert words[l + 1] == Word(le[4 * (l + 1)], le[4 * (l + 1) + 1], le[4 * (l + 1) + 2], le[4 * (l + 1) + 3]);
      }
      GroupedValue(le[4..], words[1..]);
      assert words[0] == Word(le[4 * 0], le[4 * 0 + 1], le[4 * 0 + 2], le[4 * 0 + 3]);
      FirstFour(le);
    }
  }

  lemma FirstFour(le: seq<int>)
    requires |le| >= 4
    ensures Eval(le, 256) == Word(le[0], le[1], le[2], le[3]) + B32 * Eval(le[4..], 256)
  {
    assert le[1..][1..] == le[2..] && le[2..][1..] == le[3..] && le[3..][1..] == le[4..];
    assert Eval(le[3..], 256) == le[3] + 256 * Eval(le[4..], 256);
    assert Eval(le[2..], 256) == le[2] + 256 * Eval(le[3..], 256);
    assert Eval(le[1..], 256) == le[1] + 256 * Eval(le[2..], 256);
  }

  /** The bytes read so far, least significant first, with zeros for the rest. */
  function Filled(bytes: seq<byte>, i: nat, size: nat): (s: seq<byte>)
    requires i <= |bytes| <= size
    ensures |s| == size
  {
    seq(size, j requires 0 <= j < size => if |bytes| - i <= j < |bytes| then bytes[|bytes| - 1 - j] else 0)
  }

  lemma FilledStep(bytes: seq<byte>, i: nat, size: nat, words: seq<int>)
    requires i < |bytes| <= size && Grouped(Filled(bytes, i, size), words)
    ensures var j := |bytes| - 1 - i;
            && j / 4 < |words|
            && Grouped(Filled(bytes, i + 1, size), words[j / 4 := words[j / 4] + bytes[i] * Weight(j % 4)])
  {
    hide Grouped, Weight;
    var j := |bytes| - 1 - i;
    FilledNext(bytes, i, size);
    var le := Filled(bytes, i, size);
    assert le[j] == 0;
    hide Filled;
    GroupedLength(le, words);
    SetByte(le, words, j / 4, j % 4, bytes[i]);
    assert 4 * (j / 4) + j % 4 == j;
  }

  lemma FilledNext(bytes: seq<byte>, i: nat, size: nat)
    requires i < |bytes| <= size
    ensures Filled(bytes, i + 1, size) == Filled(bytes, i, size)[|bytes| - 1 - i := bytes[i]]
  {}

  lemma GroupedLength(le: seq<int>, words: seq<int>)
    requires Grouped(le, words)
    ensures |le| == 4 * |words|
  {}

  lemma SetByte(le: seq<int>, words: seq<int>, l: nat, c: nat, b: int)
    requires Grouped(le, words) && l < |words| && c < 4 && le[4 * l + c] == 0
    ensures Grouped(le[4 * l + c := b], words[l := words[l] + b * Weight(c)])
  {
    var le', words' := le[4 * l + c := b], words[l := words[l] + b * Weight(c)];
    forall k | 0 <= k < |words|
      ensures words'[k] == Word(le'[4 * k], le'[4 * k + 1], le'[4 * k + 2], le'[4 * k + 3])
    {
      assert words[k] == Word(le[4 * k], le[4 * k + 1], le[4 * k + 2], le[4 * k + 3]);
    }
  }

  lemma FilledValue(bytes: seq<byte>, size: nat)
    requires |bytes| <= size
    ensures Eval(Filled(bytes, |bytes|, size), 256) == BeNum(bytes)
  {
    var s := Filled(bytes, |bytes|, size);
    EvalSplit(s, |bytes|, 256);
    EvalZeros(s[|bytes|..], 256);
    assert s[..|bytes|] == Rev(bytes);
  }

  /** a := the big-endian number in bytes, or -1 when it is longer than the capacity. */
  method FromBytesBe(a: Bn, bytes: seq<byte>) returns (code: int)
    requires a.Valid()
    modifies a, a.v
    ensures a.Valid() && code == (if |bytes| <= 512 then 0 else -1)
    ensures code == 0 ==> a.Value() == BeNum(bytes)
  {
    hide Eval, Word, Filled;
    var len := |bytes|;
    if len > MAX * 4 {
      return -1;
    }
    var limbs := (len + 3) / 4;
    if limbs == 0 {
      limbs := 1;
    }
    var i := 0;
    while i < limbs
      invariant 0 <= i <= limbs && a.Valid() && forall k :: 0 <= k < i ==> a.v[k] == 0
    {
      a.v[i] := 0;
      i := i + 1;
    }
    i := 0;
    AllZero(bytes, 4 * limbs, a.v[..limbs]);
    while i < len
      invariant 0 <= i <= len && a.Valid()
      invariant Grouped(Filled(bytes, i, 4 * limbs), a.v[..limbs])
    {
      ghost var words: seq<int> := a.v[..limbs];
      var j := len - 1 - i;
      FilledStep(bytes, i, 4 * limbs, words);
      FitsLimb(Filled(bytes, i + 1, 4 * limbs), words[j / 4 := words[j / 4] + bytes[i] * Weight(j % 4)], j / 4);
      a.v[j / 4] := (a.v[j / 4] as int) + bytes[i] * Weight(j % 4);
      assert a.v[..limbs] == words[j / 4 := words[j / 4] + bytes[i] * Weight(j % 4)];
      i := i + 1;
    }
    GroupedValue(Filled(bytes, len, 4 * limbs), a.v[..limbs]);
    FilledValue(bytes, 4 * limbs);
    a.n := limbs;
    Normalize(a);
    code := 0;
  }

  lemma AllZero(bytes: seq<byte>, size: nat, words: seq<int>)
    requires |bytes| <= size == 4 * |words| && forall k :: 0 <= k < |words| ==> words[k] == 0
    ensures Grouped(Filled(bytes, 0, size), words)
  {}

  lemma FitsLimb(le: seq<byte>, words: seq<int>, l: nat)
    requires Grouped(le, words) && l < |words|
    ensures 0 <= words[l] < B32
  {
    assert words[l] == Word(le[4 * l], le[4 * l + 1], le[4 * l + 2], le[4 * l + 3]);
  }

  // ---------- output ----------

  /** The bytes of the limbs, least significant first. */
  function LimbBytes(words: seq<uint32>): (s: seq<byte>)
    ensures |s| == 4 * |words|
  {
    seq(4 * |words|, j requires 0 <= j < 4 * |words| => ByteOf(words[j / 4], j % 4))
  }

  lemma LimbByteAt(words: seq<uint32>, l: nat, c: nat)
    requires l < |words| && c < 4
    ensures LimbBytes(words)[4 * l + c] == ByteOf(words[l], c)
  {
    hide ByteOf;
    assert (4 * l + c) / 4 == l && (4 * l + c) % 4 == c;
  }

  lemma LimbBytesValue(words: seq<uint32>)
    ensures Eval(LimbBytes(words), 256) == Num(words)
  {
    hide ByteOf, Word, Eval, LimbBytes;
    var le := LimbBytes(words);
    forall l | 0 <= l < |words|
      ensures words[l] == Word(le[4 * l], le[4 * l + 1], le[4 * l + 2], le[4 * l + 3])
    {
      WordBytes(words[l]);
      LimbByteAt(words, l, 0);
      LimbByteAt(words, l, 1);
      LimbByteAt(words, l, 2);
      LimbByteAt(words, l, 3);
    }
    GroupedValue(le, words);
  }

  /** Bytes beyond the bit length are zero and may be left out. */
  lemma NeededBytes(s: seq<byte>, bits: nat, need: nat)
    requires HasBits(Eval(s, 256), bits) && need == (bits + 7) / 8 && need <= |s|
    ensures Eval(s[..need], 256) == Eval(s, 256) < Pow(256, need)
    ensures forall len: nat :: len < need ==> Eval(s, 256) >= Pow(256, len)
  {
    hide Eval, Pow;
    EvalSplit(s, need, 256);
    EvalBound(s[..need], 256);
    EvalBound(s[need..], 256);
    BytesAbove(bits, need);
    var high := Eval(s[need..], 256);
    if high >= 1 {
      MulLe(1, high, Pow(256, need));
    }
    MulEq(Pow(256, need), high, 0);
    forall len: nat | len < need
      ensures Eval(s, 256) >= Pow(256, len)
    {
      BytesBelow(bits, len);
    }
  }

  lemma BytePower(n: nat)
    ensures Pow(256, n) == Pow(2, 8 * n)
  {
    assert Pow(2, 8) == 256;
    PowMul(2, 8, n);
  }

  lemma TwoMonotone(i: nat, j: nat)
    requires i <= j
    ensures Pow(2, i) <= Pow(2, j)
  {
    PowAdd(2, i, j - i);
    PowPositive(2, i);
    PowPositive(2, j - i);
    hide Pow;
    MulLe(1, Pow(2, j - i), Pow(2, i));
  }

  lemma BytesAbove(bits: nat, need: nat)
    requires need == (bits + 7) / 8
    ensures Pow(2, bits) <= Pow(256, need)
  {
    BytePower(need);
    TwoMonotone(bits, 8 * need);
  }

  lemma BytesBelow(bits: nat, len: nat)
    requires len < (bits + 7) / 8
    ensures bits > 0 && Pow(256, len) <= Pow(2, bits - 1)
  {
    BytePower(len);
    TwoMonotone(8 * len, bits - 1);
  }

  /** The low `need` bytes of the number at the end of a zeroed buffer. */
  lemma PaddedOutput(out: seq<byte>, le: seq<byte>, need: nat)
    requires need <= |out| && need <= |le|
    requires forall k :: 0 <= k < |out| ==> out[k] == (if |out| - 1 - k < need then le[|out| - 1 - k] else 0)
    ensures BeNum(out) == Eval(le[..need], 256)
  {
    var r := Rev(out);
    EvalSplit(r, need, 256);
    EvalZeros(r[need..], 256);
    assert r[..need] == le[..need];
  }

  /** Writes exactly out.Length bytes, or returns -1 when the number needs more. */
  method ToBytesBe(a: Bn, out: array<byte>) returns (code: int)
    requires a.Valid()
    modifies out
    ensures code == if a.Value() < Pow(256, out.Length) then 0 else -1
    ensures code == 0 ==> BeNum(out[..]) == a.Value()
  {
    hide Eval, Pow, Num;
    var bl := Bitlen(a);
    var need := (bl + 7) / 8;
    ghost var words: seq<uint32> := a.v[..a.n];
    ghost var le := LimbBytes(words);
    LimbBytesValue(words);
    NeededBytes(le, bl, need);
    var len := out.Length;
    if need > len {
      return -1;
    }
    PowMonotone256(need, len);
    var i := 0;
    while i < len
      invariant 0 <= i <= len && forall k :: 0 <= k < i ==> out[k] == 0
    {
      out[i] := 0;
      i := i + 1;
    }
    i := 0;
    while i < need
      invariant 0 <= i <= need && a.v[..a.n] == words
      invariant forall k :: 0 <= k < len ==> out[k] == (if len - 1 - k < i then le[len - 1 - k] else 0)
    {
      out[len - 1 - i] := ByteOf(a.v[i / 4], i % 4);
      i := i + 1;
    }
    PaddedOutput(out[..], le, need);
    code := 0;
  }

  lemma PowMonotone256(i: nat, j: nat)
    requires i <= j
    ensures Pow(256, i) <= Pow(256, j)
  {
    BytePower(i);
    BytePower(j);
    TwoMonotone(8 * i, 8 * j);
  }
}
