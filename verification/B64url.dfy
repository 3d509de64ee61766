/** base64url without padding (sections 3.5 and 5 of RFC 4648). */
module B64url {
  import opened Arith
  import opened Options
  import opened Radix
  import opened JsonTokenizer

  const PAD: byte := 0x3d

  // ---------- the alphabet ----------

  /** dec_val without its separate code for padding: -1 outside the alphabet. */
  function DecVal(c: byte): (v: int)
    ensures -1 <= v < 64
    ensures v >= 0 ==> EncChar(v) == c
  {
    if 0x41 <= c <= 0x5a then c - 0x41
    else if 0x61 <= c <= 0x7a then c - 0x61 + 26
    else if 0x30 <= c <= 0x39 then c as int - 0x30 + 52
    else if c == 0x2d then 62
    else if c == 0x5f then 63
    else -1
  }

  /** Entry v of the alphabet table. */
  function EncChar(v: int): byte
    requires 0 <= v < 64
  {
    if v < 26 then 0x41 + v else if v < 52 then 0x61 + v - 26 else if v < 62 then 0x30 + v - 52 else if v == 62 then 0x2d else 0x5f
  }

  /** The URL-safe alphabet of table 2 in RFC 4648. */
  lemma Alphabet(v: int)
    requires 0 <= v < 64
    ensures v < 26 ==> EncChar(v) == 'A' as int + v
    ensures 26 <= v < 52 ==> EncChar(v) == 'a' as int + (v - 26)
    ensures 52 <= v < 62 ==> EncChar(v) == '0' as int + (v - 52)
    ensures EncChar(62) == '-' as int && EncChar(63) == '_' as int
  {}

  lemma DecEnc(v: int)
    requires 0 <= v < 64
    ensures DecVal(EncChar(v)) == v
  {}

  // ---------- specification ----------

  function EncodedSize(n: nat): nat {
    (n / 3) * 4 + (if n % 3 == 1 then 2 else if n % 3 == 2 then 3 else 0)
  }

  /** -1 for the one length no byte string encodes to. */
  function DecodedSize(n: nat): int {
    if n % 4 == 1 then -1 else (n / 4) * 3 + (if n % 4 == 2 then 1 else if n % 4 == 3 then 2 else 0)
  }

  /** Three bytes make four characters; one or two bytes at the end make two or three. */
  function Encode(b: seq<byte>): Text {
    if |b| == 0 then []
    else if |b| == 1 then [EncChar(b[0] / 4), EncChar(b[0] % 4 * 16)]
    else if |b| == 2 then [EncChar(b[0] / 4), EncChar(b[0] % 4 * 16 + b[1] / 16), EncChar(b[1] % 16 * 4)]
    else EncodeGroup(b) + Encode(b[3..])
  }

  function EncodeGroup(b: seq<byte>): Text
    requires |b| >= 3
  {
    [EncChar(b[0] / 4), EncChar(b[0] % 4 * 16 + b[1] / 16), EncChar(b[1] % 16 * 4 + b[2] / 64), EncChar(b[2] % 64)]
  }

  /** Four characters make three bytes; the unused bits of a shorter last group must be zero. */
  function Decode(t: Text): Option<seq<byte>> {
    if |t| == 0 then Some([])
    else if |t| == 1 then None
    else
      var v0, v1 := DecVal(t[0]), DecVal(t[1]);
      if v0 < 0 || v1 < 0 then None
      else if |t| == 2 then (if v1 % 16 == 0 then Some([v0 * 4 + v1 / 16]) else None)
      else
        var v2 := DecVal(t[2]);
        if v2 < 0 then None
        else if |t| == 3 then (if v2 % 4 == 0 then Some([v0 * 4 + v1 / 16, v1 % 16 * 16 + v2 / 4]) else None)
        else
          var v3 := DecVal(t[3]);
          if v3 < 0 then None
          else Prepend([v0 * 4 + v1 / 16, v1 % 16 * 16 + v2 / 4, v2 % 4 * 64 + v3], Decode(t[4..]))
  }

  function Trim(t: Text): (r: Text)
    ensures |r| > 0 ==> r[|r| - 1] != PAD
  {
    if |t| > 0 && t[|t| - 1] == PAD then Trim(t[..|t| - 1]) else t
  }

  /** All the trailing equals signs go, and nothing else. */
  lemma {:induction false} TrimExact(t: Text)
    ensures var n := |Trim(t)|; n <= |t| && Trim(t) == t[..n] && (forall i :: n <= i < |t| ==> t[i] == '=' as int) && (n > 0 ==> t[n - 1] != '=' as int)
  {
    if |t| > 0 && t[|t| - 1] == PAD {
      TrimExact(t[..|t| - 1]);
    }
  }

  // ---------- encode and decode are inverse ----------

  lemma {:induction false} DecodeEncode(b: seq<byte>)
    ensures Decode(Encode(b)) == Some(b)
  {
    hide DecVal, EncChar, Encode, Decode;
    if |b| >= 3 {
      DecodeEncode(b[3..]);
      ByteBits(b[0], b[1], b[2]);
      EncodedGroup(b);
      DecodedGroup(Encode(b));
      assert b == [b[0], b[1], b[2]] + b[3..];
    } else if |b| == 2 {
      ByteBits(b[0], b[1], 0);
      EncodedTwo(b);
      DecodedThree(Encode(b));
      assert b == [b[0], b[1]];
    } else if |b| == 1 {
      ByteBits(b[0], 0, 0);
      EncodedOne(b);
      DecodedTwo(Encode(b));
      assert b == [b[0]];
    } else {
      EncodedNone(b);
    }
  }

  /** The six-bit digits of a text, most significant first, as a number. */
  ghost function SextetNumber(t: Text): int {
    if |t| == 0 then 0 else DecVal(t[0]) * Pow(64, |t| - 1) + SextetNumber(t[1..])
  }

  /** A byte string, most significant byte first, as a number. */
  ghost function OctetNumber(b: seq<byte>): int {
    if |b| == 0 then 0 else b[0] as int * Pow(256, |b| - 1) + OctetNumber(b[1..])
  }

  /** Zero bits that fill up the last character: none, four or two. */
  function Filling(n: nat): int {
    if n % 3 == 0 then 1 else if n % 3 == 1 then 16 else 4
  }

  /** An encoding writes the bits of the bytes in order, filled up with zero bits to whole characters. */
  lemma {:induction false} EncodedNumber(b: seq<byte>)
    ensures SextetNumber(Encode(b)) == OctetNumber(b) * Filling(|b|)
    ensures Pow(64, |Encode(b)|) == Pow(256, |b|) * Filling(|b|)
  {
    hide DecVal, EncChar;
    if |b| >= 3 {
      EncodedNumber(b[3..]);
      EncodedGroup(b);
      var t := Encode(b);
      OctetThree(b);
      SextetFour(t);
      GroupValue(b[0], b[1], b[2], DecVal(t[0]), DecVal(t[1]), DecVal(t[2]), DecVal(t[3]));
      hide Encode, OctetNumber, SextetNumber, Filling;
      assert Filling(|b|) == Filling(|b| - 3) by { FillingStep(|b|); }
      var w, v := Pow(256, |b| - 3), Pow(64, |t| - 4);
      assert |t[4..]| == |t| - 4 && |b[3..]| == |b| - 3;
      NumberStep((b[0] as int * 256 + b[1] as int) * 256 + b[2] as int, w, v, OctetNumber(b[3..]), SextetNumber(t[4..]), Filling(|b|));
      PowersStep(|b|, |t|, Filling(|b|));
    } else {
      EncodedTail(b);
    }
  }

  lemma FillingStep(n: nat)
    requires n >= 3
    ensures Filling(n) == Filling(n - 3)
  {}

  lemma NumberStep(n: int, w: int, v: int, o: int, x: int, k: int)
    requires v == w * k && x == o * k
    ensures n * v + x == (n * w + o) * k
  {
    MulEq(n, v, w * k);
  }

  lemma PowersStep(n: nat, m: nat, k: int)
    requires n >= 3 && m >= 4 && Pow(64, m - 4) == Pow(256, n - 3) * k
    ensures Pow(64, m) == Pow(256, n) * k
  {
    assert Pow(64, 4) == 0x100_0000 && Pow(256, 3) == 0x100_0000;
    PowAdd(64, 4, m - 4);
    PowAdd(256, 3, n - 3);
  }

  lemma OctetThree(b: seq<byte>)
    requires |b| >= 3
    ensures OctetNumber(b) == ((b[0] as int * 256 + b[1] as int) * 256 + b[2] as int) * Pow(256, |b| - 3) + OctetNumber(b[3..])
  {
    var w := Pow(256, |b| - 3);
    assert Pow(256, |b| - 2) == 256 * w && Pow(256, |b| - 1) == 256 * Pow(256, |b| - 2);
    assert b[1..][1..] == b[2..] && b[2..][1..] == b[3..];
    assert OctetNumber(b[2..]) == b[2] as int * w + OctetNumber(b[3..]);
    assert OctetNumber(b[1..]) == b[1] as int * (256 * w) + OctetNumber(b[2..]);
    ThreeWeights(b[0], b[1], b[2], w);
  }

  lemma ThreeWeights(x: int, y: int, z: int, w: int)
    ensures ((x * 256 + y) * 256 + z) * w == x * (256 * (256 * w)) + y * (256 * w) + z * w
  {}

  lemma SextetFour(t: Text)
    requires |t| >= 4
    ensures SextetNumber(t) == (((DecVal(t[0]) * 64 + DecVal(t[1])) * 64 + DecVal(t[2])) * 64 + DecVal(t[3])) * Pow(64, |t| - 4) + SextetNumber(t[4..])
  {
    hide DecVal;
    var w := Pow(64, |t| - 4);
    assert Pow(64, |t| - 3) == 64 * w && Pow(64, |t| - 2) == 64 * Pow(64, |t| - 3) && Pow(64, |t| - 1) == 64 * Pow(64, |t| - 2);
    assert t[1..][1..] == t[2..] && t[2..][1..] == t[3..] && t[3..][1..] == t[4..];
    assert SextetNumber(t[3..]) == DecVal(t[3]) * w + SextetNumber(t[4..]);
    assert SextetNumber(t[2..]) == DecVal(t[2]) * (64 * w) + SextetNumber(t[3..]);
    assert SextetNumber(t[1..]) == DecVal(t[1]) * (64 * (64 * w)) + SextetNumber(t[2..]);
    FourWeights(DecVal(t[0]), DecVal(t[1]), DecVal(t[2]), DecVal(t[3]), w);
  }

  lemma FourWeights(x: int, y: int, z: int, u: int, w: int)
    ensures (((x * 64 + y) * 64 + z) * 64 + u) * w == x * (64 * (64 * (64 * w))) + y * (64 * (64 * w)) + z * (64 * w) + u * w
  {}

  lemma GroupValue(b0: byte, b1: byte, b2: byte, v0: int, v1: int, v2: int, v3: int)
    requires v0 == b0 / 4 && v1 == b0 % 4 * 16 + b1 / 16 && v2 == b1 % 16 * 4 + b2 / 64 && v3 == b2 % 64
    ensures ((v0 * 64 + v1) * 64 + v2) * 64 + v3 == (b0 as int * 256 + b1 as int) * 256 + b2 as int
  {}

  lemma EncodedTail(b: seq<byte>)
    requires |b| < 3
    ensures SextetNumber(Encode(b)) == OctetNumber(b) * Filling(|b|)
    ensures Pow(64, |Encode(b)|) == Pow(256, |b|) * Filling(|b|)
  {
    assert Pow(64, 2) == 4096 && Pow(64, 3) == 0x4_0000 && Pow(256, 2) == 0x1_0000 && Pow(256, 1) == 256 && Pow(64, 0) == Pow(256, 0) == 1;
    hide DecVal, EncChar, Pow;
    var t := Encode(b);
    if |b| == 1 {
      EncodedOne(b);
      ShortSextets(t);
      ShortOctets(b);
    } else if |b| == 2 {
      EncodedTwo(b);
      ShortSextets(t);
      ShortOctets(b);
    }
  }

  lemma ShortSextets(t: Text)
    ensures |t| == 2 ==> SextetNumber(t) == DecVal(t[0]) * 64 + DecVal(t[1])
    ensures |t| == 3 ==> SextetNumber(t) == DecVal(t[0]) * 4096 + DecVal(t[1]) * 64 + DecVal(t[2])
  {
    assert Pow(64, 2) == 4096 && Pow(64, 1) == 64 && Pow(64, 0) == 1;
    hide DecVal, Pow;
    if 2 <= |t| <= 3 {
      assert t[1..][1..] == t[2..];
      if |t| == 3 {
        assert t[2..][1..] == [];
        assert SextetNumber(t[2..]) == DecVal(t[2]);
      }
      assert SextetNumber(t[1..]) == if |t| == 2 then DecVal(t[1]) else DecVal(t[1]) * 64 + DecVal(t[2]);
    }
  }

  lemma ShortOctets(b: seq<byte>)
    ensures |b| == 1 ==> OctetNumber(b) == b[0]
    ensures |b| == 2 ==> OctetNumber(b) == b[0] as int * 256 + b[1] as int
  {
    assert Pow(256, 1) == 256 && Pow(256, 0) == 1;
    hide Pow;
    if 1 <= |b| <= 2 {
      assert |b| == 2 ==> b[1..][1..] == [] && OctetNumber(b[1..]) == b[1];
    }
  }

  lemma EncodedNone(b: seq<byte>)
    requires |b| == 0
    ensures Decode(Encode(b)) == Some(b)
  {}

  lemma EncodedOne(b: seq<byte>)
    requires |b| == 1
    ensures var t := Encode(b); |t| == 2 && DecVal(t[0]) == b[0] / 4 && DecVal(t[1]) == b[0] % 4 * 16
  {
    hide DecVal, EncChar;
    DecEnc(b[0] / 4);
    DecEnc(b[0] % 4 * 16);
  }

  lemma EncodedTwo(b: seq<byte>)
    requires |b| == 2
    ensures var t := Encode(b);
            |t| == 3 && DecVal(t[0]) == b[0] / 4 && DecVal(t[1]) == b[0] % 4 * 16 + b[1] / 16 && DecVal(t[2]) == b[1] % 16 * 4
  {
    hide DecVal, EncChar;
    DecEnc(b[0] / 4);
    DecEnc(b[0] % 4 * 16 + b[1] / 16);
    DecEnc(b[1] % 16 * 4);
  }

  lemma DecodedTwo(t: Text)
    requires |t| == 2 && DecVal(t[0]) >= 0 && DecVal(t[1]) >= 0 && DecVal(t[1]) % 16 == 0
    ensures Decode(t) == Some([DecVal(t[0]) * 4 + DecVal(t[1]) / 16])
  {
    hide DecVal;
  }

  lemma DecodedThree(t: Text)
    requires |t| == 3 && (forall j :: 0 <= j < 3 ==> DecVal(t[j]) >= 0) && DecVal(t[2]) % 4 == 0
    ensures Decode(t) == Some([DecVal(t[0]) * 4 + DecVal(t[1]) / 16, DecVal(t[1]) % 16 * 16 + DecVal(t[2]) / 4])
  {
    hide DecVal;
  }

  lemma EncodedGroup(b: seq<byte>)
    requires |b| >= 3
    ensures var t := Encode(b);
            && |t| >= 4 && DecVal(t[0]) == b[0] / 4 && DecVal(t[1]) == b[0] % 4 * 16 + b[1] / 16
            && DecVal(t[2]) == b[1] % 16 * 4 + b[2] / 64 && DecVal(t[3]) == b[2] % 64 && t[4..] == Encode(b[3..])
  {
    hide DecVal, EncChar;
    DecEnc(b[0] / 4);
    DecEnc(b[0] % 4 * 16 + b[1] / 16);
    DecEnc(b[1] % 16 * 4 + b[2] / 64);
    DecEnc(b[2] % 64);
    assert Encode(b)[4..] == Encode(b[3..]);
  }

  lemma DecodedGroup(t: Text)
    requires |t| >= 4 && forall j :: 0 <= j < 4 ==> DecVal(t[j]) >= 0
    ensures var v0, v1, v2, v3 := DecVal(t[0]), DecVal(t[1]), DecVal(t[2]), DecVal(t[3]);
            Decode(t) == Prepend([v0 * 4 + v1 / 16, v1 % 16 * 16 + v2 / 4, v2 % 4 * 64 + v3], Decode(t[4..]))
  {
    hide DecVal;
  }

  lemma ByteBits(b0: int, b1: int, b2: int)
    requires 0 <= b0 < 256 && 0 <= b1 < 256 && 0 <= b2 < 256
    ensures var v0, v1, v2, v3 := b0 / 4, b0 % 4 * 16 + b1 / 16, b1 % 16 * 4 + b2 / 64, b2 % 64;
            && 0 <= v0 < 64 && 0 <= v1 < 64 && 0 <= v2 < 64 && 0 <= v3 < 64
            && v0 * 4 + v1 / 16 == b0 && v1 % 16 * 16 + v2 / 4 == b1 && v2 % 4 * 64 + v3 == b2
  {}

  /** Each byte string has one text: an accepted text is the encoding of what it decodes to. */
  lemma {:induction false} EncodeDecode(t: Text)
    requires Decode(t).Some?
    ensures Encode(Decode(t).value) == t
  {
    hide DecVal, EncChar;
    if |t| >= 4 {
      EncodeDecode(t[4..]);
      assert Decode(t).value[3..] == Decode(t[4..]).value;
      assert t == [t[0], t[1], t[2], t[3]] + t[4..];
      GroupBits(DecVal(t[0]), DecVal(t[1]), DecVal(t[2]), DecVal(t[3]));
    } else if |t| > 0 {
      GroupBits(DecVal(t[0]), DecVal(t[1]), if |t| == 3 then DecVal(t[2]) else 0, 0);
    }
  }

  lemma GroupBits(v0: int, v1: int, v2: int, v3: int)
    requires 0 <= v0 < 64 && 0 <= v1 < 64 && 0 <= v2 < 64 && 0 <= v3 < 64
    ensures var b0, b1, b2 := v0 * 4 + v1 / 16, v1 % 16 * 16 + v2 / 4, v2 % 4 * 64 + v3;
            && 0 <= b0 < 256 && 0 <= b1 < 256 && 0 <= b2 < 256
            && b0 / 4 == v0 && b0 % 4 * 16 + b1 / 16 == v1 && b1 % 16 * 4 + b2 / 64 == v2 && b2 % 64 == v3
  {}

  /** Two texts that decode to the same bytes are the same text. */
  lemma DecodeInjective(s: Text, t: Text)
    requires Decode(s).Some? && Decode(s) == Decode(t)
    ensures s == t
  {
    EncodeDecode(s);
    EncodeDecode(t);
  }

  lemma {:induction false} EncodeSize(b: seq<byte>)
    ensures |Encode(b)| == EncodedSize(|b|)
  {
    if |b| >= 3 {
      EncodeSize(b[3..]);
    }
  }

  /** An accepted text has a possible length, and its byte count is the announced one. */
  lemma {:induction false} DecodeSize(t: Text)
    requires Decode(t).Some?
    ensures |Decode(t).value| == DecodedSize(|t|)
  {
    if |t| >= 4 {
      DecodeSize(t[4..]);
    }
  }

  /** The two size functions are inverse. */
  lemma SizesAgree(n: nat)
    ensures DecodedSize(EncodedSize(n)) == n
  {}

  /** An encoding carries no padding, so trimming leaves it alone. */
  lemma {:induction false} EncodeUnpadded(b: seq<byte>)
    ensures forall i :: 0 <= i < |Encode(b)| ==> Encode(b)[i] != PAD
    ensures Trim(Encode(b)) == Encode(b)
  {
    if |b| >= 3 {
      EncodeUnpadded(b[3..]);
    }
  }

  // ---------- encoding ----------

  /** A 24-bit group in the four shifts of the loop. */
  lemma GroupShifts(b0: int, b1: int, b2: int)
    requires 0 <= b0 < 256 && 0 <= b1 < 256 && 0 <= b2 < 256
    ensures var n := b0 * 0x1_0000 + b1 * 0x100 + b2;
            && n / 0x4_0000 % 64 == b0 / 4 && n / 0x1000 % 64 == b0 % 4 * 16 + b1 / 16
            && n / 0x40 % 64 == b1 % 16 * 4 + b2 / 64 && n % 64 == b2 % 64
  {
    var n := b0 * 0x1_0000 + b1 * 0x100 + b2;
    Arith.DivModUnique(n, 0x40, b0 * 0x400 + b1 * 4 + b2 / 64, b2 % 64);
    Arith.DivModUnique(n, 0x1000, b0 * 0x10 + b1 / 16, b1 % 16 * 0x100 + b2);
    Arith.DivModUnique(n, 0x4_0000, b0 / 4, b0 % 4 * 0x1_0000 + b1 * 0x100 + b2);
    Arith.DivModUnique(b0 * 0x400 + b1 * 4 + b2 / 64, 64, b0 * 0x10 + b1 / 16, b1 % 16 * 4 + b2 / 64);
    Arith.DivModUnique(b0 * 0x10 + b1 / 16, 64, b0 / 4, b0 % 4 * 16 + b1 / 16);
    Arith.DivModUnique(n, 64, b0 * 0x400 + b1 * 4 + b2 / 64, b2 % 64);
  }

  /** hlm_b64url_encode: the text and a NUL, or -1 when they do not fit. */
  method EncodeTo(input: seq<byte>, out: array<byte>) returns (r: int)
    modifies out
    ensures if out.Length < |Encode(input)| + 1 then r == -1
            else r == |Encode(input)| && out[..r] == Encode(input) && out[r] == 0
  {
    hide Encode, EncChar;
    var len := |input|;
    var need := EncodedSize(len);
    EncodeSize(input);
    if out.Length < need + 1 {
      return -1;
    }
    var o, i := 0, 0;
    while len - i >= 3
      invariant 0 <= i <= len && 3 * o == 4 * i
      invariant Encode(input) == out[..o] + Encode(input[i..])
    {
      EncodeSize(input[i..]);
      o := PutGroup(input, i, out, o);
      i := i + 3;
    }
    EncodeSize(input[i..]);
    o := PutTail(input[i..], input, out, o);
    out[o] := 0;
    assert out[..o] == Encode(input);
    r := o;
  }

  /** The one or two bytes after the last full group. */
  method PutTail(b: seq<byte>, ghost input: seq<byte>, out: array<byte>, o: nat) returns (o': nat)
    requires |b| < 3 && o + EncodedSize(|b|) < out.Length && Encode(input) == out[..o] + Encode(b)
    modifies out
    ensures o' == o + EncodedSize(|b|) && out[..o'] == Encode(input)
  {
    hide Encode, EncChar;
    ghost var done := out[..o];
    EncodeTail(b);
    o' := o;
    if |b| == 1 {
      GroupShifts(b[0], 0, 0);
      var n := b[0] as int * 0x1_0000;
      out[o], out[o + 1] := EncChar(n / 0x4_0000 % 64), EncChar(n / 0x1000 % 64);
      o' := o + 2;
    } else if |b| == 2 {
      GroupShifts(b[0], b[1], 0);
      var n := b[0] as int * 0x1_0000 + b[1] as int * 0x100;
      out[o], out[o + 1], out[o + 2] := EncChar(n / 0x4_0000 % 64), EncChar(n / 0x1000 % 64), EncChar(n / 0x40 % 64);
      o' := o + 3;
    }
    assert out[..o'] == done + Encode(b);
  }

  lemma EncodeTail(b: seq<byte>)
    ensures |b| == 0 ==> Encode(b) == []
    ensures |b| == 1 ==> Encode(b) == [EncChar(b[0] / 4), EncChar(b[0] % 4 * 16)]
    ensures |b| == 2 ==> Encode(b) == [EncChar(b[0] / 4), EncChar(b[0] % 4 * 16 + b[1] / 16), EncChar(b[1] % 16 * 4)]
    ensures |b| >= 3 ==> Encode(b) == EncodeGroup(b) + Encode(b[3..])
  {}

  /** One turn of the main loop. */
  method PutGroup(input: seq<byte>, i: nat, out: array<byte>, o: nat) returns (o': nat)
    requires i + 3 <= |input| && o + 4 <= out.Length && Encode(input) == out[..o] + Encode(input[i..])
    modifies out
    ensures o' == o + 4 && Encode(input) == out[..o'] + Encode(input[i + 3..])
  {
    hide Encode, EncChar;
    ghost var done, b := out[..o], input[i..];
    GroupShifts(b[0], b[1], b[2]);
    EncodeTail(b);
    assert b[3..] == input[i + 3..];
    var n := input[i] as int * 0x1_0000 + input[i + 1] as int * 0x100 + input[i + 2];
    out[o], out[o + 1] := EncChar(n / 0x4_0000 % 64), EncChar(n / 0x1000 % 64);
    out[o + 2], out[o + 3] := EncChar(n / 0x40 % 64), EncChar(n % 64);
    o' := o + 4;
    ghost var g := EncodeGroup(b);
    assert out[..o'] == done + g;
    assert done + (g + Encode(b[3..])) == done + g + Encode(b[3..]);
  }

  // ---------- decoding ----------

  /** The number of the k characters of the current group. */
  function GroupNumber(t: Text, k: nat): int
    requires k <= |t|
  {
    if k == 0 then 0 else GroupNumber(t, k - 1) * 64 + DecVal(t[k - 1])
  }

  /** Bytes already complete in a group of k characters. */
  function GroupBytes(t: Text, k: nat): (b: seq<byte>)
    requires k <= 3 && k <= |t| && forall j :: 0 <= j < k ==> DecVal(t[j]) >= 0
    ensures |b| == if k < 2 then 0 else k - 1
  {
    if k < 2 then []
    else if k == 2 then [DecVal(t[0]) * 4 + DecVal(t[1]) / 16]
    else [DecVal(t[0]) * 4 + DecVal(t[1]) / 16, DecVal(t[1]) % 16 * 16 + DecVal(t[2]) / 4]
  }

  function Modulus(k: nat): int {
    if k == 0 then 1 else if k == 1 then 64 else if k == 2 then 0x1000 else 0x4_0000
  }

  /** Loop state: g is the start of the current group, k characters of it are read. */
  ghost predicate Phase(t: Text, g: nat, k: nat, acc: int, bits: nat) {
    && k < 4 && g + k <= |t| && (forall j :: 0 <= j < k ==> DecVal(t[g..][j]) >= 0)
    && 0 <= acc < B32 && bits == (if k == 0 then 0 else 8 - 2 * k)
    && acc % Modulus(k) == GroupNumber(t[g..], k)
  }

  /** The 32-bit accumulator drops its old characters, but keeps the current group. */
  lemma AccStep(acc: int, v: int, k: nat, n: int)
    requires 0 <= acc < B32 && 0 <= v < 64 && k <= 3 && acc % Modulus(k) == n
    ensures var a := (acc * 64 + v) % B32; 0 <= a < B32 && a % (Modulus(k) * 64) == n * 64 + v
  {
    var m := Modulus(k);
    var w := acc * 64 + v;
    var q := acc / m;
    assert w == q * (m * 64) + (n * 64 + v);
    assert 0 <= n * 64 + v < m * 64;
    WrapMod(w, m * 64);
    Arith.DivModUnique(w, m * 64, q, n * 64 + v);
  }

  lemma WrapMod(w: int, m: int)
    requires m == 64 || m == 0x1000 || m == 0x4_0000 || m == 0x100_0000
    ensures w % B32 % m == w % m
  {
    var c := B32 / m;
    assert B32 == c * m;
    var q, r := w / B32, w % B32;
    assert w == (q * c) * m + r;
    var q', r' := r / m, r % m;
    assert w == (q * c + q') * m + r';
    Arith.DivModUnique(w, m, q * c + q', r');
  }

  lemma SecondByte(acc: int, n: int)
    requires acc >= 0 && acc % 0x1000 == n
    ensures acc / 16 % 256 == n / 16 && acc % 16 == n % 16
  {
    var q, r, c := acc / 0x1000, n / 16, n % 16;
    assert acc == 16 * (256 * q + r) + c;
    Arith.DivModUnique(acc, 16, 256 * q + r, c);
    Arith.DivModUnique(256 * q + r, 256, q, r);
  }

  lemma ThirdByte(acc: int, n: int)
    requires acc >= 0 && acc % 0x4_0000 == n
    ensures acc / 4 % 256 == n / 4 % 256 && acc % 4 == n % 4
  {
    var q, r, c := acc / 0x4_0000, n / 4, n % 4;
    assert acc == 4 * (0x1_0000 * q + r) + c;
    Arith.DivModUnique(acc, 4, 0x1_0000 * q + r, c);
    var d, e := r / 256, r % 256;
    Arith.DivModUnique(0x1_0000 * q + r, 256, 256 * q + d, e);
  }

  lemma FourthByte(acc: int, n: int)
    requires acc >= 0 && acc % 0x100_0000 == n
    ensures acc % 256 == n % 256
  {
    var q, d, e := acc / 0x100_0000, n / 256, n % 256;
    assert acc == 256 * (0x1_0000 * q + d) + e;
    Arith.DivModUnique(acc, 256, 0x1_0000 * q + d, e);
  }

  /** 1 << bits */
  function OneShifted(bits: nat): (p: int)
    ensures p > 0
  {
    Arith.PowPositive(2, bits);
    Arith.Pow(2, bits)
  }

  lemma SmallPowers()
    ensures OneShifted(0) == 1 && OneShifted(2) == 4 && OneShifted(4) == 16
  {
    assert Arith.Pow(2, 0) == 1 && Arith.Pow(2, 2) == 4 && Arith.Pow(2, 4) == 16;
  }

  /** Taking in character k of a group extends its number. */
  lemma PhaseAcc(t: Text, g: nat, k: nat, acc: int, bits: nat, v: int)
    requires Phase(t, g, k, acc, bits) && g + k < |t| && v == DecVal(t[g + k]) && v >= 0
    ensures var a, s := (acc * 64 + v) % B32, t[g..];
            && 0 <= a < B32 && a % (Modulus(k) * 64) == GroupNumber(s, k + 1)
            && (k < 3 ==> Phase(t, g, k + 1, a, 6 - 2 * k)) && (k == 3 ==> Phase(t, g + 4, 0, a, 0))
            && forall j :: 0 <= j <= k ==> DecVal(s[j]) >= 0
  {
    hide DecVal;
    var s := t[g..];
    assert s[k] == t[g + k];
    AccStep(acc, v, k, GroupNumber(s, k));
    assert GroupNumber(s, k + 1) == GroupNumber(s, k) * 64 + v;
  }

  /** The bits of the extended number complete a byte from the second character on. */
  lemma PhaseByte(s: Text, k: nat, a: int)
    requires 1 <= k <= 3 && k < |s| && a >= 0 && a % (Modulus(k) * 64) == GroupNumber(s, k + 1)
    requires forall j :: 0 <= j <= k ==> DecVal(s[j]) >= 0
    ensures k == 1 ==> GroupBytes(s, 2) == [a / 16 % 256]
    ensures k == 2 ==> GroupBytes(s, 3) == GroupBytes(s, 2) + [a / 4 % 256]
    ensures k == 3 ==> a % 256 == DecVal(s[2]) % 4 * 64 + DecVal(s[3])
  {
    hide DecVal, GroupNumber;
    if k == 1 {
      PhaseSecond(s, a);
    } else if k == 2 {
      PhaseThird(s, a);
    } else {
      PhaseFourth(s, a);
    }
  }

  lemma PhaseSecond(s: Text, a: int)
    requires |s| > 1 && a >= 0 && a % (Modulus(1) * 64) == GroupNumber(s, 2) && DecVal(s[0]) >= 0 && DecVal(s[1]) >= 0
    ensures GroupBytes(s, 2) == [a / 16 % 256]
  {
    GroupUnfold(s, 1);
    hide DecVal, GroupNumber;
    var v0, v1 := DecVal(s[0]), DecVal(s[1]);
    SecondByte(a, v0 * 64 + v1);
    assert (v0 * 64 + v1) / 16 == v0 * 4 + v1 / 16;
  }

  lemma PhaseThird(s: Text, a: int)
    requires |s| > 2 && a >= 0 && a % (Modulus(2) * 64) == GroupNumber(s, 3)
    requires DecVal(s[0]) >= 0 && DecVal(s[1]) >= 0 && DecVal(s[2]) >= 0
    ensures GroupBytes(s, 3) == GroupBytes(s, 2) + [a / 4 % 256]
  {
    GroupUnfold(s, 2);
    hide DecVal, GroupNumber;
    var v0, v1, v2 := DecVal(s[0]), DecVal(s[1]), DecVal(s[2]);
    ThirdByte(a, v0 * 0x1000 + v1 * 64 + v2);
    MiddleByte(v0, v1, v2);
  }

  lemma PhaseFourth(s: Text, a: int)
    requires |s| > 3 && a >= 0 && a % (Modulus(3) * 64) == GroupNumber(s, 4)
    requires forall j :: 0 <= j <= 3 ==> DecVal(s[j]) >= 0
    ensures a % 256 == DecVal(s[2]) % 4 * 64 + DecVal(s[3])
  {
    GroupUnfold(s, 3);
    hide DecVal, GroupNumber;
    var v0, v1, v2, v3 := DecVal(s[0]), DecVal(s[1]), DecVal(s[2]), DecVal(s[3]);
    FourthByte(a, v0 * 0x4_0000 + v1 * 0x1000 + v2 * 64 + v3);
    LowByte(v0, v1, v2, v3);
  }

  lemma MiddleByte(v0: int, v1: int, v2: int)
    requires 0 <= v0 < 64 && 0 <= v1 < 64 && 0 <= v2 < 64
    ensures (v0 * 0x1000 + v1 * 64 + v2) / 4 % 256 == v1 % 16 * 16 + v2 / 4
  {
    var d1, e1, d2, e2 := v1 / 16, v1 % 16, v2 / 4, v2 % 4;
    assert v1 == 16 * d1 + e1 && v2 == 4 * d2 + e2;
    Arith.DivModUnique(v0 * 0x1000 + v1 * 64 + v2, 4, v0 * 0x400 + v1 * 16 + d2, e2);
    Arith.DivModUnique(v0 * 0x400 + v1 * 16 + d2, 256, v0 * 4 + d1, e1 * 16 + d2);
  }

  lemma LowByte(v0: int, v1: int, v2: int, v3: int)
    requires 0 <= v0 < 64 && 0 <= v1 < 64 && 0 <= v2 < 64 && 0 <= v3 < 64
    ensures (v0 * 0x4_0000 + v1 * 0x1000 + v2 * 64 + v3) % 256 == v2 % 4 * 64 + v3
  {
    var d, e := v2 / 4, v2 % 4;
    assert v2 == 4 * d + e;
    Arith.DivModUnique(v0 * 0x4_0000 + v1 * 0x1000 + v2 * 64 + v3, 256, v0 * 0x400 + v1 * 0x10 + d, e * 64 + v3);
  }

  lemma GroupUnfold(s: Text, k: nat)
    requires k < 4 && k < |s|
    ensures k >= 1 ==> GroupNumber(s, 2) == DecVal(s[0]) * 64 + DecVal(s[1])
    ensures k >= 2 ==> GroupNumber(s, 3) == DecVal(s[0]) * 0x1000 + DecVal(s[1]) * 64 + DecVal(s[2])
    ensures k == 3 ==> GroupNumber(s, 4) == DecVal(s[0]) * 0x4_0000 + DecVal(s[1]) * 0x1000 + DecVal(s[2]) * 64 + DecVal(s[3])
  {
    hide DecVal;
    assert GroupNumber(s, 1) == DecVal(s[0]);
  }

  lemma FullGroup(s: Text)
    requires |s| >= 4 && forall j :: 0 <= j < 4 ==> DecVal(s[j]) >= 0
    ensures Decode(s) == Prepend(GroupBytes(s, 3) + [DecVal(s[2]) % 4 * 64 + DecVal(s[3])], Decode(s[4..]))
  {
    var v0, v1, v2, v3 := DecVal(s[0]), DecVal(s[1]), DecVal(s[2]), DecVal(s[3]);
    hide DecVal;
    assert GroupBytes(s, 3) + [v2 % 4 * 64 + v3] == [v0 * 4 + v1 / 16, v1 % 16 * 16 + v2 / 4, v2 % 4 * 64 + v3];
  }

  /** A finished group moves its three bytes to the decoded part. */
  lemma GroupDone(t: Text, g: nat, done: seq<byte>)
    requires g + 4 <= |t| && Decode(t) == Prepend(done, Decode(t[g..])) && forall j :: 0 <= j < 4 ==> DecVal(t[g..][j]) >= 0
    ensures var s := t[g..];
            Decode(t) == Prepend(done + GroupBytes(s, 3) + [DecVal(s[2]) % 4 * 64 + DecVal(s[3])], Decode(t[g + 4..]))
  {
    hide DecVal, Decode, GroupBytes;
    var s := t[g..];
    assert s[4..] == t[g + 4..];
    var b := GroupBytes(s, 3) + [DecVal(s[2]) % 4 * 64 + DecVal(s[3])];
    FullGroup(s);
    if Decode(s[4..]).Some? {
      var rest := Decode(s[4..]).value;
      assert done + (b + rest) == done + GroupBytes(s, 3) + [DecVal(s[2]) % 4 * 64 + DecVal(s[3])] + rest;
    }
  }

  lemma {:induction false} InvalidCharacter(t: Text, i: nat)
    requires i < |t| && DecVal(t[i]) < 0
    ensures Decode(t).None?
  {
    hide DecVal;
    if i >= 4 {
      assert t[4..][i - 4] == t[i];
      InvalidCharacter(t[4..], i - 4);
    }
  }

  /** The last group: its spare bits decide. */
  lemma LastGroup(t: Text, g: nat, k: nat, acc: int, bits: nat, written: seq<byte>, done: seq<byte>)
    requires g + k == |t| && |t| % 4 != 1 && Phase(t, g, k, acc, bits) && GroupProgress(t, g, k, written, done)
    ensures Decode(t) == if bits > 0 && acc % OneShifted(bits) != 0 then None else Some(written)
  {
    hide DecVal;
    SmallPowers();
    var s := t[g..];
    if k >= 2 {
      GroupUnfold(s, k - 1);
      if k == 2 {
        SecondByte(acc, GroupNumber(s, k));
      } else {
        ThirdByte(acc, GroupNumber(s, k));
      }
      LastBits(DecVal(s[0]), DecVal(s[1]), if k == 3 then DecVal(s[2]) else 0);
    } else {
      assert done + [] == done;
    }
  }

  lemma LastBits(v0: int, v1: int, v2: int)
    ensures (v0 * 64 + v1) % 16 == v1 % 16
    ensures (v0 * 0x1000 + v1 * 64 + v2) % 4 == v2 % 4
  {
    var d, e, f, g := v1 / 16, v1 % 16, v2 / 4, v2 % 4;
    Arith.DivModUnique(v0 * 64 + v1, 16, v0 * 4 + d, e);
    Arith.DivModUnique(v0 * 0x1000 + v1 * 64 + v2, 4, v0 * 0x400 + v1 * 16 + f, g);
  }

  /** What a call returns: the bytes at the start of out, or -1. */
  ghost predicate DecodedInto(b: Option<seq<byte>>, out: seq<byte>, r: int) {
    if b.None? || |b.value| > |out| then r == -1 else r == |b.value| && out[..r] == b.value
  }

  /** A group yields nothing before its second character. */
  lemma ShortGroups(s: Text)
    ensures GroupBytes(s, 0) == []
    ensures |s| > 0 && DecVal(s[0]) >= 0 ==> GroupBytes(s, 1) == []
  {}

  /** The decoded part and the bytes of the current group are what has been written. */
  ghost predicate GroupProgress(t: Text, g: nat, k: nat, written: seq<byte>, done: seq<byte>)
    requires g <= |t|
  {
    && g % 4 == 0 && |done| == 3 * (g / 4) && Decode(t) == Prepend(done, Decode(t[g..]))
    && k <= 3 && k <= |t[g..]| && (forall j :: 0 <= j < k ==> DecVal(t[g..][j]) >= 0)
    && written == done + GroupBytes(t[g..], k)
  }

  /** A byte that does not fit is one byte too many for the whole text. */
  lemma TooLong(t: Text, g: nat, k: nat, written: seq<byte>, done: seq<byte>)
    requires g + k < |t| && k > 0 && |t| % 4 != 1 && GroupProgress(t, g, k, written, done)
    ensures Decode(t).None? || |Decode(t).value| > |written|
  {
    hide DecVal, Decode;
    if Decode(t).Some? {
      DecodeSize(t);
    }
  }

  /** The byte completed by character k of a group joins the written ones. */
  lemma GroupProgressByte(t: Text, g: nat, k: nat, written: seq<byte>, done: seq<byte>, b: byte)
    requires g + k < |t| && 1 <= k <= 3 && GroupProgress(t, g, k, written, done) && DecVal(t[g..][k]) >= 0
    requires k == 1 ==> GroupBytes(t[g..], 2) == [b]
    requires k == 2 ==> GroupBytes(t[g..], 3) == GroupBytes(t[g..], 2) + [b]
    requires k == 3 ==> b == DecVal(t[g..][2]) % 4 * 64 + DecVal(t[g..][3])
    ensures k < 3 ==> GroupProgress(t, g, k + 1, written + [b], done)
    ensures k == 3 ==> GroupProgress(t, g + 4, 0, written + [b], done + GroupBytes(t[g..], 3) + [b])
  {
    hide DecVal, Decode, GroupBytes;
    if k == 1 {
      ShortGroups(t[g..]);
      assert done + [] + [b] == done + [b];
    } else if k == 2 {
      assert done + GroupBytes(t[g..], 2) + [b] == done + (GroupBytes(t[g..], 2) + [b]);
    } else {
      GroupDone(t, g, done);
      ShortGroups(t[g + 4..]);
    }
  }

  /** One character of the loop; false when it is invalid or its byte does not fit. */
  method DecodeOne(t: Text, i: nat, ghost g: nat, ghost k: nat, acc: uint32, bits: nat, out: array<byte>, written: nat, ghost done: seq<byte>)
    returns (ok: bool, acc': uint32, bits': nat, written': nat, ghost done': seq<byte>)
    requires Phase(t, g, k, acc, bits) && i == g + k < |t| && written <= out.Length && |t| % 4 != 1
    requires GroupProgress(t, g, k, out[..written], done)
    modifies out
    ensures !ok ==> Decode(t).None? || |Decode(t).value| > out.Length
    ensures ok ==> var g', k' := (if k == 3 then g + 4 else g), (if k == 3 then 0 else k + 1);
                   && Phase(t, g', k', acc', bits') && written' <= out.Length && GroupProgress(t, g', k', out[..written'], done')
  {
    hide DecVal, Decode, GroupNumber, GroupBytes, GroupProgress;
    acc', bits', written', done' := acc, bits, written, done;
    ghost var before := out[..written];
    var v := DecVal(t[i]);
    if v < 0 {
      InvalidCharacter(t, i);
      return false, acc', bits', written', done';
    }
    PhaseAcc(t, g, k, acc, bits, v);
    acc' := (acc as int * 64 + v) % B32;
    bits' := bits + 6;
    if bits' >= 8 {
      bits' := bits' - 8;
      SmallPowers();
      PhaseByte(t[g..], k, acc');
      ok := PutByte(out, written, acc' / OneShifted(bits') % 256);
      if !ok {
        TooLong(t, g, k, before, done);
        return;
      }
      GroupProgressByte(t, g, k, before, done, acc' / OneShifted(bits') % 256);
      written' := written + 1;
      if k == 3 {
        done' := done + GroupBytes(t[g..], 3) + [acc' % 256];
      }
    } else {
      FirstCharacter(t, g, before, done);
    }
    ok := true;
  }

  /** The first character of a group yields no byte. */
  lemma FirstCharacter(t: Text, g: nat, written: seq<byte>, done: seq<byte>)
    requires g < |t| && GroupProgress(t, g, 0, written, done) && DecVal(t[g..][0]) >= 0
    ensures GroupProgress(t, g, 1, written, done)
  {
    hide DecVal, Decode;
    ShortGroups(t[g..]);
  }

  /** Stores a decoded byte if there is room. */
  method PutByte(out: array<byte>, written: nat, b: byte) returns (ok: bool)
    requires written <= out.Length
    modifies out
    ensures ok <==> written < out.Length
    ensures ok ==> out[..written + 1] == old(out[..written]) + [b]
  {
    if written >= out.Length {
      return false;
    }
    out[written] := b;
    assert out[..written + 1] == old(out[..written]) + [b];
    ok := true;
  }

  method TrimPadding(input: Text) returns (t: Text)
    ensures t == Trim(input)
  {
    var len := |input|;
    assert input[..len] == input;
    while len > 0 && input[len - 1] == PAD
      invariant 0 <= len <= |input| && Trim(input[..len]) == Trim(input)
      decreases len
    {
      assert input[..len][..len - 1] == input[..len - 1];
      len := len - 1;
    }
    t := input[..len];
  }

  /** hlm_b64url_decode: the bytes of the text without trailing padding, or -1. */
  method DecodeTo(input: Text, out: array<byte>) returns (r: int)
    modifies out
    ensures DecodedInto(Decode(Trim(input)), out[..], r)
    ensures var b := Decode(Trim(input)); if b.None? || |b.value| > out.Length then r == -1 else r == |b.value| && out[..r] == b.value
  {
    hide Decode, DecVal, GroupNumber, GroupBytes, GroupProgress, Phase;
    var t := TrimPadding(input);
    var len := |t|;
    if DecodedSize(len) == -1 {
      if Decode(t).Some? {
        DecodeSize(t);
      }
      return -1;
    }
    var acc: uint32, bits: nat, written: nat, i: nat := 0, 0, 0, 0;
    ghost var g: nat, k: nat, done := 0, 0, [];
    StartPhase(t);
    while i < len
      invariant i == g + k <= len && written <= out.Length
      invariant Phase(t, g, k, acc, bits) && GroupProgress(t, g, k, out[..written], done)
      decreases len - i
    {
      var ok;
      ok, acc, bits, written, done := DecodeOne(t, i, g, k, acc, bits, out, written, done);
      if !ok {
        return -1;
      }
      g, k := (if k == 3 then g + 4 else g), (if k == 3 then 0 else k + 1);
      i := i + 1;
    }
    LastGroup(t, g, k, acc, bits, out[..written], done);
    if bits > 0 && acc % OneShifted(bits) != 0 {
      return -1;
    }
    r := written;
  }

  lemma StartPhase(t: Text)
    ensures Phase(t, 0, 0, 0, 0) && GroupProgress(t, 0, 0, [], [])
  {
    assert t[0..] == t;
    if Decode(t).Some? {
      assert [] + Decode(t).value == Decode(t).value;
    }
  }
}
