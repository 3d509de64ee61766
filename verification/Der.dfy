/** The distinguished encoding rules (X.690) a digest is wrapped in before it is signed. */
module Der {
  import opened Radix

  /** A definite length below 128 in one byte: section 8.1.3.4. */
  function Tagged(tag: byte, content: seq<byte>): (s: seq<byte>)
    requires |content| < 128
    ensures |s| == 2 + |content|
  {
    [tag, |content|] + content
  }

  function Sequence(content: seq<byte>): (s: seq<byte>)
    requires |content| < 128
    ensures |s| == 2 + |content|
  {
    Tagged(0x30, content)
  }

  function OctetString(content: seq<byte>): (s: seq<byte>)
    requires |content| < 128
    ensures |s| == 2 + |content|
  {
    Tagged(0x04, content)
  }

  function Null(): (s: seq<byte>)
    ensures |s| == 2
  {
    Tagged(0x05, [])
  }

  /** The digits of n in base 128, all but the last marked with the high bit: section 8.19.2. */
  function Base128(n: nat): seq<byte> {
    Marked(n / 128) + [n % 128]
  }

  function Marked(n: nat): seq<byte> {
    if n == 0 then [] else Marked(n / 128) + [128 + n % 128]
  }

  /** Every component from the third on in base 128. */
  function Components(arcs: seq<nat>): seq<byte> {
    if |arcs| == 0 then [] else Base128(arcs[0]) + Components(arcs[1..])
  }

  /** The first two components share a byte: section 8.19.4. */
  function ObjectIdentifier(arcs: seq<nat>): (s: seq<byte>)
    requires |arcs| >= 2 && arcs[0] <= 2 && 40 * arcs[0] + arcs[1] < 128 && |Components(arcs[2..])| < 127
    ensures |s| == 3 + |Components(arcs[2..])|
  {
    Tagged(0x06, [40 * arcs[0] + arcs[1]] + Components(arcs[2..]))
  }

  /** id-sha256: joint-iso-itu-t(2) country(16) us(840) organization(1) gov(101) csor(3) nistAlgorithm(4) hashAlgs(2) sha256(1). */
  const SHA256_ID: seq<nat> := [2, 16, 840, 1, 101, 3, 4, 2, 1]

  lemma SmallComponent(n: nat, rest: seq<nat>)
    requires n < 128
    ensures Components([n] + rest) == [n as int] + Components(rest)
  {
    assert Marked(n / 128) == [];
    assert ([n] + rest)[1..] == rest;
  }

  lemma Component840()
    ensures Base128(840) == [0x86, 0x48]
  {
    assert Marked(840 / 128 / 128) == [];
    assert Marked(840 / 128) == Marked(840 / 128 / 128) + [128 + 6];
  }

  lemma Sha256Components()
    ensures Components(SHA256_ID[2..]) == [0x86, 0x48, 0x01, 0x65, 0x03, 0x04, 0x02, 0x01]
  {
    var a, tail := SHA256_ID[2..], [3] + ([4] + ([2] + ([1] + [])));
    Component840();
    assert a[0] == 840 && a[1..] == [1] + ([101] + tail);
    assert Components(a) == Base128(840) + Components(a[1..]);
    hide Components, Base128;
    AlgorithmTail();
    SmallComponent(101, tail);
    SmallComponent(1, [101] + tail);
  }

  lemma AlgorithmTail()
    ensures Components([3] + ([4] + ([2] + ([1] + [])))) == [3, 4, 2, 1]
  {
    assert Components([]) == [];
    hide Components, Base128;
    SmallComponent(1, []);
    SmallComponent(2, [1] + []);
    SmallComponent(4, [2] + ([1] + []));
    SmallComponent(3, [4] + ([2] + ([1] + [])));
  }

  /** DigestInfo for SHA-256: the algorithm with NULL parameters, and the digest (section 9.2 of RFC 8017, note 1). */
  function DigestInfo(digest: seq<byte>): (s: seq<byte>)
    requires |digest| == 32
    ensures |s| == 51
  {
    Sha256Components();
    Sequence(Sequence(ObjectIdentifier(SHA256_ID) + Null()) + OctetString(digest))
  }
}
