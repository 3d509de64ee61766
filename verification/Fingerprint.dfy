/** Machine fingerprints: the SHA-256 digest of the components in Crockford base 32. */
module Fingerprint {
  import opened Arith
  import opened Radix
  import opened Bits
  import BignumBytes
  import License
  import Streaming
  import Sha256

  const E_ARG: int := -1
  const E_BUFFER: int := -2

  /** Entry v of the alphabet: 0-9 and the letters without I, L, O and U. */
  function Symbol(v: int): byte
    requires 0 <= v < 32
  {
    if v < 10 then 0x30 + v else if v < 18 then 0x41 + v - 10 else if v < 20 then 0x4a + v - 18
    else if v < 22 then 0x4d + v - 20 else if v < 27 then 0x50 + v - 22 else 0x56 + v - 27
  }

  /** Bit i of a byte string, most significant first; zero beyond its end. */
  function StreamBit(data: seq<byte>, i: nat): (b: int)
    ensures 0 <= b <= 1
  {
    if i / 8 < |data| then BitOf(data[i / 8], 7 - i % 8) else 0
  }

  /** Five consecutive bits from i on. */
  function Group(data: seq<byte>, i: nat): (v: int)
    ensures 0 <= v < 32
  {
    16 * StreamBit(data, i) + 8 * StreamBit(data, i + 1) + 4 * StreamBit(data, i + 2) + 2 * StreamBit(data, i + 3) + StreamBit(data, i + 4)
  }

  function Length(n: nat): nat {
    (8 * n + 4) / 5
  }

  /** One symbol per group of five bits. */
  function Encode(data: seq<byte>): (s: seq<byte>)
    ensures |s| == Length(|data|)
  {
    seq(Length(|data|), j requires 0 <= j < Length(|data|) => Symbol(Group(data, 5 * j)))
  }

  // ---------- the encoding is injective ----------

  lemma SymbolInjective(v: int, w: int)
    requires 0 <= v < 32 && 0 <= w < 32 && Symbol(v) == Symbol(w)
    ensures v == w
  {}

  /** A group determines its bits. */
  lemma GroupBits(a: seq<byte>, b: seq<byte>, i: nat)
    requires Group(a, i) == Group(b, i)
    ensures forall k :: i <= k < i + 5 ==> StreamBit(a, k) == StreamBit(b, k)
  {
    hide StreamBit;
    forall k | i <= k < i + 5
      ensures StreamBit(a, k) == StreamBit(b, k)
    {
      assert k == i || k == i + 1 || k == i + 2 || k == i + 3 || k == i + 4;
    }
  }

  /** The bits of a byte determine it. */
  lemma EightBits(a: byte, b: byte)
    requires forall c :: 0 <= c < 8 ==> BitOf(a, c) == BitOf(b, c)
    ensures a == b
  {
    assert Pow(2, 8) == 256;
    ShiftAll(a, 8);
    ShiftAll(b, 8);
    SameShifts(a, b, 0);
    ShiftZero(a);
    ShiftZero(b);
  }

  lemma {:induction false} SameShifts(a: byte, b: byte, i: nat)
    requires i <= 8 && Shifted(a, 8) == Shifted(b, 8) && forall c :: 0 <= c < 8 ==> BitOf(a, c) == BitOf(b, c)
    ensures Shifted(a, i) == Shifted(b, i)
    decreases 8 - i
  {
    hide Shifted, BitOf;
    if i < 8 {
      SameShifts(a, b, i + 1);
      ShiftStep(a, i);
      ShiftStep(b, i);
    }
  }

  /** Byte strings of one length with the same encoding are the same. */
  lemma EncodeInjective(a: seq<byte>, b: seq<byte>)
    requires |a| == |b| && Encode(a) == Encode(b)
    ensures a == b
  {
    hide Group;
    forall k | 0 <= k < |a|
      ensures a[k] == b[k]
    {
      forall c | 0 <= c < 8
        ensures BitOf(a[k], c) == BitOf(b[k], c)
      {
        SameBit(a, b, 8 * k + (7 - c));
        assert StreamBit(a, 8 * k + (7 - c)) == BitOf(a[k], c) && StreamBit(b, 8 * k + (7 - c)) == BitOf(b[k], c);
      }
      EightBits(a[k], b[k]);
    }
  }

  lemma SameBit(a: seq<byte>, b: seq<byte>, i: nat)
    requires |a| == |b| && Encode(a) == Encode(b) && i < 8 * |a|
    ensures StreamBit(a, i) == StreamBit(b, i)
  {
    hide Group, StreamBit, Symbol;
    var j := i / 5;
    assert j < Length(|a|);
    assert Encode(a)[j] == Symbol(Group(a, 5 * j)) && Encode(b)[j] == Symbol(Group(b, 5 * j));
    SymbolInjective(Group(a, 5 * j), Group(b, 5 * j));
    GroupBits(a, b, 5 * j);
  }

  // ---------- what the encoding denotes ----------

  /** The alphabet: digits and capitals in rising order, none of I, L, O and U. There are just 32 of these characters. */
  lemma SymbolAlphabet(v: int, w: int)
    requires 0 <= v < w < 32
    ensures Symbol(v) < Symbol(w)
    ensures forall c :: c in [Symbol(v), Symbol(w)] ==> '0' as int <= c <= '9' as int || 'A' as int <= c <= 'Z' as int
    ensures forall c :: c in [Symbol(v), Symbol(w)] ==> c !in ['I' as int, 'L' as int, 'O' as int, 'U' as int]
  {}

  /** The place of a symbol in the alphabet. */
  ghost function SymbolValue(c: byte): int {
    if exists v :: 0 <= v < 32 && Symbol(v) == c then
      var v :| 0 <= v < 32 && Symbol(v) == c;
      v
    else -1
  }

  lemma ValueOfSymbol(v: int)
    requires 0 <= v < 32
    ensures SymbolValue(Symbol(v)) == v
  {
    var w := SymbolValue(Symbol(v));
    SymbolInjective(v, w);
  }

  /** A text of symbols as a number, first symbol most significant. */
  ghost function SymbolNumber(s: seq<byte>): int {
    if |s| == 0 then 0 else 32 * SymbolNumber(s[..|s| - 1]) + SymbolValue(s[|s| - 1])
  }

  /** The first i bits as a number. */
  ghost function Leading(data: seq<byte>, i: nat): int {
    if i == 0 then 0 else 2 * Leading(data, i - 1) + StreamBit(data, i - 1)
  }

  lemma FiveMore(data: seq<byte>, i: nat)
    ensures Leading(data, i + 5) == 32 * Leading(data, i) + Group(data, i)
  {
    hide StreamBit;
    assert Leading(data, i + 5) == 2 * Leading(data, i + 4) + StreamBit(data, i + 4);
    assert Leading(data, i + 4) == 2 * Leading(data, i + 3) + StreamBit(data, i + 3);
    assert Leading(data, i + 3) == 2 * Leading(data, i + 2) + StreamBit(data, i + 2);
    assert Leading(data, i + 2) == 2 * Leading(data, i + 1) + StreamBit(data, i + 1);
  }

  lemma {:induction false} SymbolsLeading(data: seq<byte>, j: nat)
    requires j <= Length(|data|)
    ensures SymbolNumber(Encode(data)[..j]) == Leading(data, 5 * j)
  {
    hide Group, Symbol, StreamBit, SymbolValue;
    var s := Encode(data);
    if j > 0 {
      SymbolsLeading(data, j - 1);
      FiveMore(data, 5 * (j - 1));
      ValueOfSymbol(Group(data, 5 * (j - 1)));
      assert s[..j][..j - 1] == s[..j - 1];
      assert s[..j][j - 1] == Symbol(Group(data, 5 * (j - 1)));
    }
  }

  lemma BitInByte(data: seq<byte>, k: nat, c: nat)
    requires k < |data| && c < 8
    ensures StreamBit(data, 8 * k + c) == BitOf(data[k], 7 - c)
  {
    hide BitOf;
    DivModUnique(8 * k + c, 8, k, c);
  }

  /** Within byte k. */
  lemma {:induction false} LeadingInByte(data: seq<byte>, k: nat, c: nat)
    requires k < |data| && c <= 8
    ensures Leading(data, 8 * k + c) == Pow(2, c) * Leading(data, 8 * k) + Shifted(data[k], 8 - c)
  {
    hide Shifted, BitOf, StreamBit;
    if c == 0 {
      assert Pow(2, 8) == 256;
      ShiftAll(data[k], 8);
    } else {
      LeadingInByte(data, k, c - 1);
      ShiftStep(data[k], 8 - c);
      BitInByte(data, k, c - 1);
      MulAssoc(2, Pow(2, c - 1), Leading(data, 8 * k));
    }
  }

  lemma {:induction false} LeadingBytes(data: seq<byte>, k: nat)
    requires k <= |data|
    ensures Leading(data, 8 * k) == BignumBytes.BeNum(data[..k])
  {
    hide StreamBit, Shifted;
    if k > 0 {
      LeadingBytes(data, k - 1);
      LeadingInByte(data, k - 1, 8);
      ShiftZero(data[k - 1]);
      BignumBytes.BeConcat(data[..k - 1], [data[k - 1]]);
      assert data[..k] == data[..k - 1] + [data[k - 1]];
      OneByte(data[k - 1]);
    }
  }

  lemma OneByte(b: byte)
    ensures BignumBytes.BeNum([b]) == b && Pow(256, |[b]|) == 256 && Pow(2, 8) == 256
  {
    assert BignumBytes.Rev([b]) == [b] && [b][1..] == [];
    assert Eval([b], 256) == b as int + 256 * Eval([], 256);
    assert Pow(256, 1) == 256 * Pow(256, 0);
  }

  lemma {:induction false} LeadingBeyond(data: seq<byte>, c: nat)
    ensures Leading(data, 8 * |data| + c) == BignumBytes.BeNum(data) * Pow(2, c)
  {
    hide BignumBytes.BeNum;
    if c == 0 {
      assert data[..|data|] == data;
      LeadingBytes(data, |data|);
    } else {
      LeadingBeyond(data, c - 1);
      assert StreamBit(data, 8 * |data| + c - 1) == 0;
      assert Leading(data, 8 * |data| + c) == 2 * Leading(data, 8 * |data| + c - 1);
      assert Pow(2, c) == 2 * Pow(2, c - 1);
      MulAssoc(BignumBytes.BeNum(data), 2, Pow(2, c - 1));
    }
  }

  /** The encoding is the byte string as a number, written in base 32 after filling up the last symbol with zero bits. */
  lemma EncodedNumber(data: seq<byte>, fill: nat)
    requires 5 * |Encode(data)| == 8 * |data| + fill
    ensures fill < 5 && SymbolNumber(Encode(data)) == BignumBytes.BeNum(data) * Pow(2, fill)
  {
    hide BignumBytes.BeNum, Pow, SymbolNumber, Leading, Group, Symbol, Encode;
    var s := Encode(data);
    assert s[..|s|] == s;
    SymbolsLeading(data, |s|);
    LeadingBeyond(data, fill);
  }

  /** Ignoring case adds nothing: symbols are never small letters, so fingerprints match only when the digests agree. */
  lemma MatchingFingerprints(a: seq<byte>, b: seq<byte>)
    requires |a| == |b| && License.Names(Encode(a), Encode(b))
    ensures a == b
  {
    hide Group, StreamBit;
    var s, t := Encode(a), Encode(b);
    forall j | 0 <= j < |s|
      ensures s[j] == t[j]
    {
      assert s[j] == Symbol(Group(a, 5 * j)) && t[j] == Symbol(Group(b, 5 * j));
    }
    assert s == t;
    EncodeInjective(a, b);
  }

  // ---------- the code ----------

  /** Two neighbouring bytes hold the five bits from any offset. */
  lemma Window(d0: byte, d1: byte, off: nat)
    requires off < 8
    ensures var w := d0 * 256 + d1;
            Shifted(w, 11 - off) % 32 == 16 * BitOf(w, 15 - off) + 8 * BitOf(w, 14 - off) + 4 * BitOf(w, 13 - off) + 2 * BitOf(w, 12 - off) + BitOf(w, 11 - off)
  {
    hide Shifted, BitOf;
    var w: nat := d0 as int * 256 + d1;
    ShiftStep(w, 11 - off);
    ShiftStep(w, 12 - off);
    ShiftStep(w, 13 - off);
    ShiftStep(w, 14 - off);
    ShiftStep(w, 15 - off);
    var hi := Shifted(w, 16 - off);
    var low := 16 * BitOf(w, 15 - off) + 8 * BitOf(w, 14 - off) + 4 * BitOf(w, 13 - off) + 2 * BitOf(w, 12 - off) + BitOf(w, 11 - off);
    DivModUnique(Shifted(w, 11 - off), 32, hi, low);
  }

  lemma WordBit(d0: byte, d1: byte, t: nat)
    requires t < 16
    ensures BitOf(d0 as int * 256 + d1, t) == if t >= 8 then BitOf(d0, t - 8) else BitOf(d1, t)
  {
    var s := [d1, d0];
    assert Pow(2, 8) == 256;
    assert s[1..] == [d0] && s[1..][1..] == [];
    assert Eval(s[1..], 256) == d0 as int + 256 * Eval([], 256);
    assert Eval(s, 256) == d0 as int * 256 + d1;
    hide Eval, Pow, BitOf;
    if t >= 8 {
      DigitBit(s, 256, 8, 1, t - 8, 8);
    } else {
      DigitBit(s, 256, 8, 0, t, 0);
    }
  }

  /** The byte after k, or zero at the end. */
  function NextByte(data: seq<byte>, k: nat): byte {
    if k + 1 < |data| then data[k + 1] else 0
  }

  lemma ZeroBits(t: nat)
    ensures BitOf(0, t) == 0
  {
    BitDefinition(0, t);
    DivModUnique(0, Pow(2, t), 0, 0);
  }

  /** The bit at distance c from bit i, read from the two-byte window. */
  lemma WindowBit(data: seq<byte>, i: nat, c: nat)
    requires i / 8 < |data| && c < 5
    ensures BitOf(data[i / 8] as int * 256 + NextByte(data, i / 8), 15 - i % 8 - c) == StreamBit(data, i + c)
  {
    hide BitOf;
    var k, off := i / 8, i % 8;
    assert i == 8 * k + off;
    WordBit(data[k], NextByte(data, k), 15 - off - c);
    ZeroBits(15 - off - c);
    if off + c < 8 {
      DivModUnique(i + c, 8, k, off + c);
    } else {
      DivModUnique(i + c, 8, k + 1, off + c - 8);
    }
  }

  /** The shifted and masked window is the group. */
  lemma ChunkIsGroup(data: seq<byte>, i: nat)
    requires i / 8 < |data|
    ensures Shifted(data[i / 8] as int * 256 + NextByte(data, i / 8), 11 - i % 8) % 32 == Group(data, i)
  {
    hide Shifted, BitOf, StreamBit, NextByte;
    Window(data[i / 8], NextByte(data, i / 8), i % 8);
    WindowBit(data, i, 0);
    WindowBit(data, i, 1);
    WindowBit(data, i, 2);
    WindowBit(data, i, 3);
    WindowBit(data, i, 4);
  }

  /** crockford_b32: the symbols and a NUL. */
  method CrockfordB32(data: seq<byte>, out: array<byte>)
    requires out.Length > Length(|data|)
    modifies out
    ensures out[..Length(|data|)] == Encode(data) && out[Length(|data|)] == 0
  {
    hide Group, Symbol, Shifted;
    var totalBits := |data| * 8;
    var i, o := 0, 0;
    while i < totalBits
      invariant 0 <= o <= Length(|data|) && i == 5 * o
      invariant forall j :: 0 <= j < o ==> out[j] == Symbol(Group(data, 5 * j))
      decreases totalBits - i
    {
      var byteI, bitOff := i / 8, i % 8;
      ChunkIsGroup(data, i);
      var chunk := data[byteI] as int * 0x100;
      if byteI + 1 < |data| {
        chunk := chunk + data[byteI + 1];
      }
      out[o] := Symbol(Shifted(chunk, 11 - bitOff) % 32);
      o := o + 1;
      i := i + 5;
    }
    assert out[..o] == Encode(data);
    out[o] := 0;
    assert out[..o] == Encode(data);
  }

  /** The components with commas between them. */
  function WithCommas(parts: seq<seq<byte>>): seq<byte> {
    if |parts| == 0 then [] else if |parts| == 1 then parts[0] else WithCommas(parts[..|parts| - 1]) + [0x2c] + parts[|parts| - 1]
  }

  /** One component is hashed as it is, and a comma stands between any two. */
  lemma {:induction false} CommasBetween(a: seq<seq<byte>>, b: seq<seq<byte>>)
    requires |a| > 0 && |b| > 0
    ensures |a| == 1 ==> WithCommas(a) == a[0]
    ensures WithCommas(a + b) == WithCommas(a) + Ascii(",") + WithCommas(b)
  {
    var n := |b| - 1;
    var comma := Ascii(",");
    assert comma == [0x2c];
    assert (a + b)[..|a| + n] == a + b[..n];
    if n == 0 {
      assert a + b[..n] == a;
    } else {
      CommasBetween(a, b[..n]);
      hide WithCommas, Ascii;
      assert WithCommas(a + b) == WithCommas(a) + comma + (WithCommas(b[..n]) + [0x2c] + b[n]) by { LastComponent(a + b); }
      LastComponent(b);
    }
  }

  lemma LastComponent(parts: seq<seq<byte>>)
    requires |parts| > 1
    ensures WithCommas(parts) == WithCommas(parts[..|parts| - 1]) + [0x2c] + parts[|parts| - 1]
  {}

  /** hlm_fingerprint: 52 symbols for the digest of the joined components. */
  method Compute(f: Streaming.Compress, components: seq<seq<byte>>, out: array<byte>) returns (code: int)
    modifies out
    ensures code == if |components| == 0 then E_ARG else if out.Length < 53 then E_BUFFER else 0
    ensures code == 0 ==> out[..52] == Encode(Sha256.Hash(f, WithCommas(components))) && out[52] == 0
  {
    hide Sha256.Hash, Encode;
    if |components| == 0 {
      return E_ARG;
    }
    if out.Length < 53 {
      return E_BUFFER;
    }
    var digest := DigestOf(f, components);
    CrockfordB32(digest, out);
    code := 0;
  }

  /** Hashes the components through one context, a comma before each but the first. */
  method DigestOf(f: Streaming.Compress, components: seq<seq<byte>>) returns (digest: seq<byte>)
    requires |components| > 0
    ensures digest == Sha256.Hash(f, WithCommas(components))
  {
    hide Sha256.Hash, Streaming.Holds, Streaming.Fold, WithCommas;
    NoComponents();
    var ctx := new Sha256.Context(f);
    var i := 0;
    while i < |components|
      invariant 0 <= i <= |components| && Sha256.Counting(ctx) && ctx.f == f && fresh(ctx) && fresh(ctx.buffer)
      invariant ctx.fed == WithCommas(components[..i])
    {
      CommaStep(components, i);
      if i > 0 {
        Sha256.Feed(ctx, [0x2c]);
      }
      Sha256.Feed(ctx, components[i]);
      i := i + 1;
    }
    assert components[..|components|] == components;
    digest := ctx.Final();
  }

  lemma CommaStep(parts: seq<seq<byte>>, i: nat)
    requires i < |parts|
    ensures WithCommas(parts[..i + 1]) == (if i > 0 then WithCommas(parts[..i]) + [0x2c] else []) + parts[i]
  {
    assert parts[..i + 1][..i] == parts[..i];
  }

  lemma NoComponents()
    ensures WithCommas([]) == []
  {}
}
