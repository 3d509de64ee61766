/** Facts about machine words, stated away from integer arithmetic. */
module Words {
  lemma Known(a: int, b: bv8)
    requires 0 <= a < 256 && b as int == a
    ensures a as bv8 == b
  {}

  lemma Successor(b: bv8)
    requires b < 255
    ensures (b + 1) as int == b as int + 1
  {}

  lemma {:induction false} ByteOf(a: int) returns (b: bv8)
    requires 0 <= a < 256
    ensures b as int == a
  {
    b := 0;
    if a > 0 {
      b := ByteOf(a - 1);
      Successor(b);
      b := b + 1;
    }
  }

  lemma ByteRoundTrip(a: int)
    requires 0 <= a < 256
    ensures (a as bv8) as int == a
  {
    var b := ByteOf(a);
    Known(a, b);
  }
}

/** Comparison that ors together the exclusive or of every byte pair. */
module ByteCompare {
  import opened Radix
  import Words

  lemma XorWidened(d: bv32, a: bv8, b: bv8)
    ensures (d | ((a ^ b) as bv32)) == 0 <==> d == 0 && a == b
  {}

  lemma ByteBits(a: byte, b: byte)
    ensures a as bv8 == b as bv8 <==> a == b
  {
    Words.ByteRoundTrip(a);
    Words.ByteRoundTrip(b);
  }

  /** Zero exactly when the two strings agree; every byte is read. */
  method Differences(x: seq<byte>, y: seq<byte>) returns (d: bv32)
    requires |x| == |y|
    ensures d == 0 <==> x == y
  {
    d := 0;
    var i := 0;
    while i < |x|
      invariant 0 <= i <= |x|
      invariant d == 0 <==> x[..i] == y[..i]
    {
      ByteBits(x[i], y[i]);
      XorWidened(d, x[i] as bv8, y[i] as bv8);
      assert x[..i + 1] == x[..i] + [x[i]] && y[..i + 1] == y[..i] + [y[i]];
      d := d | (((x[i] as bv8) ^ (y[i] as bv8)) as bv32);
      i := i + 1;
    }
    assert x[..|x|] == x && y[..|y|] == y;
  }

  lemma XorNarrow(d: bv8, a: bv8, b: bv8)
    ensures d | (a ^ b) == 0 <==> d == 0 && a == b
  {}

  /** The same with an 8-bit accumulator: true exactly when the strings differ. */
  method CtDiff(x: seq<byte>, y: seq<byte>) returns (differ: bool)
    requires |x| == |y|
    ensures differ <==> x != y
  {
    var d: bv8 := 0;
    var i := 0;
    while i < |x|
      invariant 0 <= i <= |x|
      invariant d == 0 <==> x[..i] == y[..i]
    {
      ByteBits(x[i], y[i]);
      XorNarrow(d, x[i] as bv8, y[i] as bv8);
      assert x[..i + 1] == x[..i] + [x[i]] && y[..i + 1] == y[..i] + [y[i]];
      d := d | ((x[i] as bv8) ^ (y[i] as bv8));
      i := i + 1;
    }
    assert x[..|x|] == x && y[..|y|] == y;
    differ := d != 0;
  }
}
