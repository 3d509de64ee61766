/** Block-buffered hashing: the part hlm_sha256.c and hlm_sha512.c share, and the padded message of FIPS 180-4. */
module Streaming {
  import opened Arith
  import opened Radix

  /** Eight chaining words. */
  type State = s: seq<uint64> | |s| == 8 witness [0, 0, 0, 0, 0, 0, 0, 0]
  type Compress = (State, seq<byte>) -> State

  // ---------- specification ----------

  /** The state after every whole block of the message; a partial last block is not absorbed. */
  function Fold(f: Compress, st: State, m: seq<byte>, block: nat): State
    requires block > 0
    decreases |m|
  {
    if |m| < block then st else Fold(f, f(st, m[..block]), m[block..], block)
  }

  /** Number of zero bytes between the mark and the length field. */
  function ZeroCount(len: nat, block: nat, field: nat): (n: nat)
    requires block > 0
    ensures n < block && (len + 1 + n + field) % block == 0
  {
    var r := (len + 1 + field) % block;
    var n := if r == 0 then 0 else block - r;
    ZeroCountModulus(len + 1 + field, block, n);
    n
  }

  lemma ZeroCountModulus(a: nat, block: nat, n: nat)
    requires block > 0 && n == if a % block == 0 then 0 else block - a % block
    ensures (a + n) % block == 0
  {
    var q, r := a / block, a % block;
    assert a == block * q + r;
    if r == 0 {
      DivModUnique(a, block, q, 0);
    } else {
      MulDistr(block, q, 1);
      DivModUnique(a + n, block, q + 1, 0);
    }
  }

  /** n in len bytes, most significant first. */
  function BigEndian(n: nat, len: nat): (s: seq<byte>)
    ensures |s| == len
    decreases len
  {
    if len == 0 then [] else BigEndian(n / 256, len - 1) + [n % 256]
  }

  /** The words of a state as a digest of `width` bytes a word. */
  function Digest(st: State, width: nat): (s: seq<byte>) {
    BigEndian(st[0], width) + BigEndian(st[1], width) + BigEndian(st[2], width) + BigEndian(st[3], width)
    + BigEndian(st[4], width) + BigEndian(st[5], width) + BigEndian(st[6], width) + BigEndian(st[7], width)
  }

  /** Sections 5.1.1 and 5.1.2 of FIPS 180-4: mark, zeros and the bit length. */
  function Pad(m: seq<byte>, block: nat, field: nat): (s: seq<byte>)
    requires block > 0
    ensures |s| % block == 0
  {
    m + [0x80] + Zeros(ZeroCount(|m|, block, field)) + BigEndian(8 * |m|, field)
  }

  /** The final state of the whole message hashed at once. */
  function HashState(f: Compress, iv: State, m: seq<byte>, block: nat, field: nat): State
    requires block > 0
  {
    Fold(f, iv, Pad(m, block, field), block)
  }

  function Join(parts: seq<seq<byte>>): seq<byte> {
    if |parts| == 0 then [] else Join(parts[..|parts| - 1]) + parts[|parts| - 1]
  }

  lemma JoinSnoc(parts: seq<seq<byte>>, i: nat)
    requires i < |parts|
    ensures Join(parts[..i + 1]) == Join(parts[..i]) + parts[i]
  {
    assert parts[..i + 1][..i] == parts[..i];
  }

  // ---------- what the padding and the digest are, byte by byte ----------

  /** The padded message: a whole number of blocks and no more than needed, the message, one bit, zeros, and the bit length
      in the last bytes, most significant first. */
  ghost predicate IsPadded(p: seq<byte>, m: seq<byte>, block: nat, field: nat)
    requires block > 0
  {
    && |m| + 1 + field <= |p| < |m| + 1 + field + block && |p| % block == 0
    && p[..|m|] == m && p[|m|] == 0x80 && (forall i :: |m| < i < |p| - field ==> p[i] == 0)
    && forall k :: |p| - field <= k < |p| ==> LengthByte(p, k, 8 * |m|)
  }

  ghost predicate LengthByte(p: seq<byte>, k: nat, bits: nat)
    requires k < |p|
  {
    Pow(256, |p| - 1 - k) > 0 && p[k] as int == bits / Pow(256, |p| - 1 - k) % 256
  }

  lemma PadIsPadded(m: seq<byte>, block: nat, field: nat)
    requires block > 0
    ensures IsPadded(Pad(m, block, field), m, block, field)
  {
    hide BigEndian, Pow;
    var p, be := Pad(m, block, field), BigEndian(8 * |m|, field);
    forall k | |p| - field <= k < |p|
      ensures LengthByte(p, k, 8 * |m|)
    {
      var i := k - (|p| - field);
      PowPositive(256, field - 1 - i);
      BigEndianAt(8 * |m|, field, i);
      assert p[k] == be[i];
    }
  }

  /** There is only one such string, and it is what is hashed. */
  lemma PaddedExact(p: seq<byte>, m: seq<byte>, block: nat, field: nat)
    requires block > 0
    ensures IsPadded(p, m, block, field) <==> p == Pad(m, block, field)
  {
    hide BigEndian, Pad, Pow;
    var r := Pad(m, block, field);
    PadIsPadded(m, block, field);
    if IsPadded(p, m, block, field) {
      SameLength(|p|, |r|, block);
      forall k | 0 <= k < |p|
        ensures p[k] == r[k]
      {
        if k < |m| {
          assert p[k] == p[..|m|][k] && r[k] == r[..|m|][k];
        } else if k >= |p| - field {
          assert LengthByte(p, k, 8 * |m|) && LengthByte(r, k, 8 * |m|);
        }
      }
    }
  }

  lemma SameLength(a: nat, b: nat, block: nat)
    requires block > 0 && a % block == 0 && b % block == 0 && a < b + block && b < a + block
    ensures a == b
  {
    var q, r := a / block, b / block;
    assert a == block * q && b == block * r;
    MulDistr(block, q, -r);
    if q > r {
      MulLe(1, q - r, block);
    } else if r > q {
      MulLe(1, r - q, block);
      MulDistr(block, r, -q);
    }
  }

  /** One block is one application of the compression function. */
  lemma SingleBlock(f: Compress, st: State, b: seq<byte>, block: nat)
    requires block > 0 && |b| == block
    ensures Fold(f, st, b, block) == f(st, b)
  {
    assert b[..block] == b && b[block..] == [];
  }

  /** Byte j of word i of the digest. */
  lemma DigestByte(st: State, width: nat, i: nat, j: nat)
    requires i < 8 && j < width
    ensures 0 <= width * i + j < |Digest(st, width)| && Pow(256, width - 1 - j) > 0
    ensures Digest(st, width)[width * i + j] as int == st[i] / Pow(256, width - 1 - j) % 256
  {
    hide BigEndian, Pow;
    PowPositive(256, width - 1 - j);
    BigEndianAt(st[i], width, j);
    DigestWord(st, width, i, j);
  }

  lemma DigestWord(st: State, width: nat, i: nat, j: nat)
    requires i < 8 && j < width
    ensures 0 <= width * i + j < |Digest(st, width)| && Digest(st, width)[width * i + j] == BigEndian(st[i], width)[j]
  {
    hide BigEndian;
    assert width * 0 == 0 && width * 1 == width && width * 2 == width + width && width * 3 == width + width + width;
    assert width * 4 == width * 3 + width && width * 5 == width * 4 + width && width * 6 == width * 5 + width && width * 7 == width * 6 + width;
  }

  // ---------- folding in pieces ----------

  lemma {:induction false} FoldAppend(f: Compress, st: State, a: seq<byte>, b: seq<byte>, block: nat)
    requires block > 0 && |a| % block == 0
    ensures Fold(f, st, a + b, block) == Fold(f, Fold(f, st, a, block), b, block)
    decreases |a|
  {
    if |a| == 0 {
      assert a + b == b;
    } else {
      WholeBlocks(|a|, block);
      assert (a + b)[..block] == a[..block] && (a + b)[block..] == a[block..] + b;
      FoldAppend(f, f(st, a[..block]), a[block..], b, block);
    }
  }

  lemma WholeBlocks(n: nat, block: nat)
    requires block > 0 && n % block == 0 && n > 0
    ensures n >= block && (n - block) % block == 0
  {
    var q := n / block;
    assert n == block * q;
    if q <= 0 {
      MulLe(q, 0, block);
    }
    MulLe(1, q, block);
    MulDistr(block, q, -1);
    DivModUnique(n - block, block, q - 1, 0);
  }

  // ---------- the buffer ----------

  /** The buffer holds the last len bytes of what was fed; the state holds all blocks before them. */
  ghost predicate Holds(f: Compress, iv: State, fed: seq<byte>, state: State, buffer: seq<byte>, len: nat, block: nat) {
    && block > 0 && |buffer| == block && len < block && len <= |fed|
    && (|fed| - len) % block == 0
    && fed[|fed| - len..] == buffer[..len]
    && state == Fold(f, iv, fed[..|fed| - len], block)
  }

  lemma ModBack(n: int, m: int, block: nat)
    requires block > 0 && n % block == 0 && m == n + block
    ensures m % block == 0
  {
    assert n == block * (n / block);
    MulDistr(block, n / block, 1);
    DivModUnique(m, block, n / block + 1, 0);
  }

  /** Bytes that do not fill the buffer only move its end. */
  lemma HoldsMore(f: Compress, iv: State, fed: seq<byte>, state: State, buffer: seq<byte>, len: nat, block: nat,
                  d: seq<byte>, buffer': seq<byte>)
    requires Holds(f, iv, fed, state, buffer, len, block)
    requires len + |d| < block && |buffer'| == block && buffer'[..len + |d|] == buffer[..len] + d
    ensures Holds(f, iv, fed + d, state, buffer', len + |d|, block)
  {
    hide Fold;
    var m := fed + d;
    assert m[..|m| - (len + |d|)] == fed[..|fed| - len];
    assert m[|m| - (len + |d|)..] == fed[|fed| - len..] + d;
  }

  /** Bytes that complete a block empty the buffer and absorb the block. */
  lemma HoldsBlock(f: Compress, iv: State, fed: seq<byte>, state: State, buffer: seq<byte>, len: nat, block: nat,
                   d: seq<byte>, chunk: seq<byte>, buffer': seq<byte>)
    requires Holds(f, iv, fed, state, buffer, len, block)
    requires len + |d| == block && chunk == buffer[..len] + d && |buffer'| == block
    ensures Holds(f, iv, fed + d, f(state, chunk), buffer', 0, block)
  {
    var m, old' := fed + d, fed[..|fed| - len];
    assert m[..|m|] == m && m == old' + chunk by { assert fed == old' + fed[|fed| - len..]; }
    FoldAppend(f, iv, old', chunk, block);
    assert chunk[..block] == chunk && |chunk[block..]| == 0;
    assert Fold(f, state, chunk, block) == f(state, chunk);
    ModBack(|fed| - len, |m|, block);
  }

  // ---------- the update loop ----------

  /** memcpy(buffer + at, data, |data|). */
  method CopyInto(buffer: array<byte>, at: nat, data: seq<byte>)
    requires at + |data| <= buffer.Length
    modifies buffer
    ensures buffer[..at] == old(buffer[..at])
    ensures buffer[at..at + |data|] == data
    ensures buffer[at + |data|..] == old(buffer[at + |data|..])
  {
    var i := 0;
    while i < |data|
      invariant 0 <= i <= |data|
      invariant buffer[..at] == old(buffer[..at])
      invariant forall k :: 0 <= k < i ==> buffer[at + k] == data[k]
      invariant buffer[at + |data|..] == old(buffer[at + |data|..])
    {
      buffer[at + i] := data[i];
      i := i + 1;
    }
  }

  /** Fills the buffer, then takes whole blocks straight from the data, then keeps the rest. */
  method Absorb(f: Compress, ghost iv: State, ghost fed: seq<byte>, state: State, buffer: array<byte>, len: nat, data: seq<byte>, block: nat)
    returns (state': State, len': nat)
    requires block == buffer.Length && Holds(f, iv, fed, state, buffer[..], len, block)
    modifies buffer
    ensures Holds(f, iv, fed + data, state', buffer[..], len', block)
  {
    hide Fold, Holds;
    var p := 0;
    state', len', p := TopUp(f, iv, fed, state, buffer, len, data, block);
    while |data| - p >= block
      invariant 0 <= p <= |data| && block > 0 && buffer.Length == block
      invariant Holds(f, iv, fed + data[..p], state', buffer[..], len', block)
      invariant p < |data| ==> len' == 0
    {
      var chunk := data[p..p + block];
      HoldsBlock(f, iv, fed + data[..p], state', buffer[..], 0, block, chunk, chunk, buffer[..]);
      assert fed + data[..p] + chunk == fed + data[..p + block];
      state' := f(state', chunk);
      p := p + block;
    }
    len' := KeepRest(f, iv, fed + data[..p], state', buffer, len', data[p..], block);
    assert fed + data[..p] + data[p..] == fed + data;
  }

  /** What is left is shorter than a block and waits in the buffer. */
  method KeepRest(f: Compress, ghost iv: State, ghost fed: seq<byte>, state: State, buffer: array<byte>, len: nat, rest: seq<byte>, block: nat)
    returns (len': nat)
    requires block == buffer.Length && Holds(f, iv, fed, state, buffer[..], len, block)
    requires |rest| < block && (|rest| > 0 ==> len == 0)
    modifies buffer
    ensures Holds(f, iv, fed + rest, state, buffer[..], len', block)
  {
    hide Fold, Holds;
    len' := len;
    if |rest| > 0 {
      ghost var before := buffer[..];
      CopyInto(buffer, 0, rest);
      HoldsMore(f, iv, fed, state, before, 0, block, rest, buffer[..]);
      len' := |rest|;
    } else {
      assert fed + rest == fed;
    }
  }

  method TopUp(f: Compress, ghost iv: State, ghost fed: seq<byte>, state: State, buffer: array<byte>, len: nat, data: seq<byte>, block: nat)
    returns (state': State, len': nat, p: nat)
    requires block == buffer.Length && Holds(f, iv, fed, state, buffer[..], len, block)
    modifies buffer
    ensures p <= |data| && Holds(f, iv, fed + data[..p], state', buffer[..], len', block)
    ensures block > 0 && (p < |data| ==> len' == 0)
  {
    hide Fold;
    state', len', p := state, len, 0;
    assert fed + data[..0] == fed;
    if len > 0 {
      var fill := block - len;
      if fill > |data| {
        fill := |data|;
      }
      var d := data[..fill];
      ghost var before := buffer[..];
      CopyInto(buffer, len, d);
      p := fill;
      len' := len + fill;
      assert buffer[..len'] == before[..len] + d;
      if len' == block {
        HoldsBlock(f, iv, fed, state, before, len, block, d, buffer[..], buffer[..]);
        state' := f(state', buffer[..]);
        len' := 0;
      } else {
        HoldsMore(f, iv, fed, state, before, len, block, d, buffer[..]);
      }
    }
  }

  // ---------- big-endian bytes ----------

  lemma {:induction false} BigEndianSplit(n: nat, a: nat, b: nat, high: nat, low: nat)
    requires n == high * Pow(256, b) + low && 0 <= low < Pow(256, b)
    ensures BigEndian(n, a + b) == BigEndian(high, a) + BigEndian(low, b)
    decreases b
  {
    if b == 0 {
      assert Pow(256, 0) == 1;
    } else {
      var p := Pow(256, b - 1);
      assert Pow(256, b) == 256 * p;
      SplitStep(n, high, low, p);
      BigEndianSplit(n / 256, a, b - 1, high, low / 256);
      assert BigEndian(n, a + b) == BigEndian(n / 256, a + b - 1) + [n % 256];
    }
  }

  lemma SplitStep(n: int, high: int, low: int, p: int)
    requires n == high * (256 * p) + low && 0 <= low < 256 * p
    ensures n / 256 == high * p + low / 256 && n % 256 == low % 256 && 0 <= low / 256 < p
  {
    assert n == 256 * (high * p) + low;
  }

  /** Only the number modulo 256^len shows in len bytes. */
  lemma BigEndianMod(n: nat, len: nat, m: nat, q: nat)
    requires n == q * Pow(256, len) + m && 0 <= m < Pow(256, len)
    ensures BigEndian(n, len) == BigEndian(m, len)
  {
    BigEndianSplit(n, 0, len, q, m);
    assert BigEndian(q, 0) == [];
  }

  /** Byte i of the field, as the length and digest loops shift it out. */
  lemma {:induction false} BigEndianAt(n: nat, len: nat, i: nat)
    requires i < len
    ensures Pow(256, len - 1 - i) > 0 && BigEndian(n, len)[i] == (n / Pow(256, len - 1 - i)) % 256
    decreases len
  {
    PowPositive(256, len - 1 - i);
    if i == len - 1 {
      assert Pow(256, 0) == 1;
    } else {
      BigEndianAt(n / 256, len - 1, i);
      Quotients(n, Pow(256, len - 2 - i));
      assert Pow(256, len - 1 - i) == 256 * Pow(256, len - 2 - i);
    }
  }

  lemma Quotients(n: nat, p: int)
    requires p > 0
    ensures (n / 256) / p == n / (256 * p)
  {
    var q, r := n / 256, n % 256;
    var q', r' := q / p, q % p;
    assert q == p * q' + r';
    DivModUnique(n, 256 * p, q', 256 * r' + r);
  }

  /** out[i] := n >> 8 (len-1-i), for every byte of the field. */
  method PutBigEndian(n: nat, len: nat) returns (out: seq<byte>)
    ensures out == BigEndian(n, len)
  {
    out := [];
    var i := 0;
    while i < len
      invariant 0 <= i <= len && |out| == i
      invariant forall k :: 0 <= k < i ==> out[k] == BigEndian(n, len)[k]
    {
      BigEndianAt(n, len, i);
      out := out + [(n / Pow(256, len - 1 - i)) % 256];
      i := i + 1;
    }
  }

  /** With the padded message fed, the buffer is empty and the state is final. */
  lemma PaddedState(f: Compress, iv: State, m: seq<byte>, state: State, buffer: seq<byte>, len: nat, block: nat, field: nat)
    requires block > 0 && Holds(f, iv, Pad(m, block, field), state, buffer, len, block)
    ensures len == 0 && state == HashState(f, iv, m, block, field)
  {
    hide Fold;
    var p := Pad(m, block, field);
    hide Pad;
    NoRemainder(|p|, len, block);
    assert p[..|p|] == p;
  }

  lemma NoRemainder(n: nat, len: nat, block: nat)
    requires block > 0 && n % block == 0 && len <= n && (n - len) % block == 0 && len < block
    ensures len == 0
  {
    var a, b := n / block, (n - len) / block;
    assert n == block * a && n - len == block * b;
    MulDistr(block, a, -b);
    DivModUnique(len, block, a - b, 0);
    DivModUnique(len, block, 0, len);
  }

  /** The buffer reaches the length field's place exactly when every zero is in. */
  lemma ZerosDone(f: Compress, iv: State, fed: seq<byte>, state: State, buffer: seq<byte>, len: nat, block: nat, field: nat, m: seq<byte>, zeros: nat)
    requires block > field > 0 && Holds(f, iv, fed, state, buffer, len, block)
    requires fed == m + [0x80] + Zeros(zeros) && zeros <= ZeroCount(|m|, block, field)
    ensures len == block - field <==> zeros == ZeroCount(|m|, block, field)
  {
    hide Fold;
    var count := ZeroCount(|m|, block, field);
    var a, b := (|fed| - len) / block, (|m| + 1 + count + field) / block;
    assert |fed| - len == block * a && |m| + 1 + count + field == block * b;
    hide *;
    MulDistr(block, b, -a);
    var gap := (count - zeros) + field + len;
    assert gap == block * (b - a);
    if len == block - field {
      MulDistr(block, b - a, -1);
      DivModUnique(count - zeros, block, b - a - 1, 0);
      DivModUnique(count - zeros, block, 0, count - zeros);
    }
    if zeros == count {
      OneBlock(field + len, block, b - a, field);
    }
  }

  lemma OneBlock(n: int, block: int, k: int, field: int)
    requires n == block * k && field <= n < block + field && 0 < field < block
    ensures n == block
  {
    if k <= 0 {
      MulLe(k, 0, block);
    } else if k >= 2 {
      MulLe(2, k, block);
    }
  }
}
