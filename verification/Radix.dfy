/** Little-endian digit sequences and the machine integer types. */
module Radix {
  import opened Arith

  type byte = x: int | 0 <= x < 0x100
  type uint32 = x: int | 0 <= x < 0x1_0000_0000
  type uint64 = x: int | 0 <= x < 0x1_0000_0000_0000_0000
  type int64 = x: int | -0x8000_0000_0000_0000 <= x < 0x8000_0000_0000_0000

  const B32: int := 0x1_0000_0000
  const B64: int := 0x1_0000_0000_0000_0000

  function Zeros(n: nat): (s: seq<byte>)
    ensures |s| == n && forall k :: 0 <= k < n ==> s[k] == 0
  {
    seq(n, _ => 0)
  }

  /** The bytes of an ASCII text. */
  function Ascii(s: string): (t: seq<byte>)
    ensures |t| == |s|
  {
    seq(|s|, i requires 0 <= i < |s| => if s[i] < 128 as char then s[i] as int else 0)
  }

  /** The number a digit sequence denotes, least significant digit first. */
  function Eval(s: seq<int>, b: int): int
    decreases |s|
  {
    if |s| == 0 then 0 else s[0] + b * Eval(s[1..], b)
  }

  ghost predicate Digits(s: seq<int>, b: int) {
    forall i :: 0 <= i < |s| ==> 0 <= s[i] < b
  }

  lemma {:induction false} EvalConcat(s: seq<int>, t: seq<int>, b: int)
    ensures Eval(s + t, b) == Eval(s, b) + Pow(b, |s|) * Eval(t, b)
  {
    if |s| == 0 {
      assert s + t == t;
    } else {
      assert (s + t)[1..] == s[1..] + t;
      EvalConcat(s[1..], t, b);
      MulDistr(b, Eval(s[1..], b), Pow(b, |s| - 1) * Eval(t, b));
      MulAssoc(b, Pow(b, |s| - 1), Eval(t, b));
    }
  }

  lemma EvalSplit(s: seq<int>, i: nat, b: int)
    requires i <= |s|
    ensures Eval(s, b) == Eval(s[..i], b) + Pow(b, i) * Eval(s[i..], b)
  {
    assert s == s[..i] + s[i..];
    EvalConcat(s[..i], s[i..], b);
  }

  lemma EvalSnoc(s: seq<int>, i: nat, b: int)
    requires i < |s|
    ensures Eval(s[..i + 1], b) == Eval(s[..i], b) + Pow(b, i) * s[i]
  {
    assert s[..i + 1] == s[..i] + [s[i]];
    EvalConcat(s[..i], [s[i]], b);
    assert Eval([s[i]], b) == s[i] + b * Eval([], b);
  }

  lemma EvalUpdate(s: seq<int>, i: nat, v: int, b: int)
    requires i < |s|
    ensures Eval(s[i := v], b) == Eval(s, b) + (v - s[i]) * Pow(b, i)
  {
    var t := s[i := v];
    EvalSplit(s, i, b);
    EvalSplit(t, i, b);
    assert t[..i] == s[..i] && t[i..][1..] == s[i..][1..];
    UpdateDelta(Pow(b, i), s[i], v, b * Eval(s[i..][1..], b));
  }

  lemma UpdateDelta(p: int, x: int, v: int, rest: int)
    ensures p * (v + rest) == p * (x + rest) + (v - x) * p
  {
    MulDistr(p, v, rest);
    MulDistr(p, x, rest);
    MulDistr(p, v, -x);
  }

  lemma {:induction false} EvalBound(s: seq<int>, b: int)
    requires b > 0 && Digits(s, b)
    ensures 0 <= Eval(s, b) < Pow(b, |s|)
  {
    if |s| > 0 {
      EvalBound(s[1..], b);
      DigitBound(s[0], Eval(s[1..], b), b, Pow(b, |s| - 1));
    }
  }

  lemma DigitBound(x: int, e: int, b: int, p: int)
    requires 0 <= x < b && 0 <= e < p
    ensures 0 <= x + b * e < b * p
  {
    MulLe(0, e, b);
    MulLe(e + 1, p, b);
    MulDistr(b, e, 1);
  }

  /** Digits in range are determined by the number they denote. */
  lemma {:induction false} EvalUnique(s: seq<int>, t: seq<int>, b: int)
    requires b > 0 && |s| == |t| && Digits(s, b) && Digits(t, b) && Eval(s, b) == Eval(t, b)
    ensures s == t
  {
    if |s| > 0 {
      DivModUnique(Eval(s, b), b, Eval(s[1..], b), s[0]);
      DivModUnique(Eval(t, b), b, Eval(t[1..], b), t[0]);
      EvalUnique(s[1..], t[1..], b);
      assert s == [s[0]] + s[1..] && t == [t[0]] + t[1..];
    }
  }

  lemma {:induction false} EvalZeros(s: seq<int>, b: int)
    requires forall k :: 0 <= k < |s| ==> s[k] == 0
    ensures Eval(s, b) == 0
  {
    if |s| > 0 {
      EvalZeros(s[1..], b);
    }
  }

  lemma {:induction false} EvalAddScaled(s: seq<int>, t: seq<int>, r: seq<int>, c: int, b: int)
    requires |s| == |r| && |t| <= |s|
    requires forall k :: 0 <= k < |s| ==> r[k] == s[k] + (if k < |t| then c * t[k] else 0)
    ensures Eval(r, b) == Eval(s, b) + c * Eval(t, b)
  {
    if |t| == 0 {
      assert r == s;
    } else {
      EvalAddScaled(s[1..], t[1..], r[1..], c, b);
      ScaledStep(s[0], t[0], Eval(s[1..], b), Eval(t[1..], b), c, b);
    }
  }

  lemma ScaledStep(x: int, y: int, u: int, v: int, c: int, b: int)
    ensures (x + c * y) + b * (u + c * v) == (x + b * u) + c * (y + b * v)
  {
    MulDistr(b, u, c * v);
    MulDistr(c, y, b * v);
  }

  /** The most significant differing digit decides the comparison. */
  lemma TopDifference(s: seq<int>, t: seq<int>, i: nat, b: int)
    requires b > 0 && |s| == |t| && Digits(s, b) && Digits(t, b) && i < |s|
    requires s[i + 1..] == t[i + 1..] && s[i] < t[i]
    ensures Eval(s, b) < Eval(t, b)
  {
    hide Pow;
    EvalSplit(s, i, b);
    EvalSplit(t, i, b);
    EvalBound(s[..i], b);
    EvalBound(t[..i], b);
    assert s[i..][1..] == t[i..][1..];
    CompareArith(Pow(b, i), Eval(s[..i], b), Eval(t[..i], b), s[i], t[i], b * Eval(s[i..][1..], b), Eval(s[i..], b), Eval(t[i..], b));
  }

  lemma CompareArith(p: int, ls: int, lt: int, x: int, y: int, rest: int, hs: int, ht: int)
    requires 0 <= ls < p && 0 <= lt && x < y && hs == x + rest && ht == y + rest
    ensures ls + p * hs < lt + p * ht
  {
    MulLe(hs + 1, ht, p);
    MulDistr(p, hs, 1);
  }
}
