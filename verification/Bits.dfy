/** Single bits of a number and of the digits it is written with. */
module Bits {
  import opened Arith
  import opened Radix

  /** Bit i of the natural number n. */
  function BitOf(n: int, i: nat): (b: int)
    requires n >= 0
    ensures 0 <= b <= 1
  {
    PowPositive(2, i);
    (n / Pow(2, i)) % 2
  }

  /** n without its lowest i bits. */
  function Shifted(n: int, i: nat): (r: int)
    requires n >= 0
    ensures r >= 0
  {
    PowPositive(2, i);
    DivNonNegative(n, Pow(2, i));
    n / Pow(2, i)
  }

  lemma DivNonNegative(n: int, d: int)
    requires n >= 0 && d > 0
    ensures n / d >= 0
  {
    if n / d < 0 {
      MulLe(n / d, -1, d);
    }
  }

  lemma DivDiv(n: int, a: int, b: int)
    requires a > 0 && b > 0
    ensures a * b > 0 && (n / a) / b == n / (a * b)
  {
    MulPositive(a, b);
    var q, r := n / a, n % a;
    var q', r' := q / b, q % b;
    assert n == a * q + r && q == b * q' + r';
    MulEq(a, q, b * q' + r');
    MulDistr(a, b * q', r');
    MulLe(r' + 1, b, a);
    MulDistr(a, r', 1);
    MulLe(0, r', a);
    assert a * (b * q') == q' * (a * b);
    DivModUnique(n, a * b, q', a * r' + r);
  }

  /** Shifting one bit less appends bit i. */
  lemma ShiftStep(n: int, i: nat)
    requires n >= 0
    ensures Shifted(n, i) == 2 * Shifted(n, i + 1) + BitOf(n, i)
  {
    PowPositive(2, i);
    DivDiv(n, Pow(2, i), 2);
  }

  lemma ShiftZero(n: int)
    requires n >= 0
    ensures Shifted(n, 0) == n
  {
    DivModUnique(n, 1, n, 0);
  }

  lemma ShiftAll(n: int, i: nat)
    requires 0 <= n < Pow(2, i)
    ensures Shifted(n, i) == 0
  {
    DivModUnique(n, Pow(2, i), 0, n);
  }

  /** Dropping whole digits. */
  lemma DropDigits(s: seq<int>, b: int, k: nat)
    requires b > 0 && Digits(s, b) && k < |s|
    ensures Pow(b, k) > 0 && Eval(s, b) / Pow(b, k) == Eval(s[k..], b)
  {
    hide Eval, Pow;
    EvalBound(s[..k], b);
    EvalSplit(s, k, b);
    PowPositive(b, k);
    DivModUnique(Eval(s, b), Pow(b, k), Eval(s[k..], b), Eval(s[..k], b));
  }

  /** For digits of w bits, bit low + r with low = w k is bit r of digit k. */
  lemma DigitBit(s: seq<int>, b: int, w: nat, k: nat, r: nat, low: nat)
    requires b == Pow(2, w) && b > 0 && Digits(s, b) && k < |s| && r < w && low == w * k
    ensures Eval(s, b) >= 0 && BitOf(Eval(s, b), low + r) == BitOf(s[k], r)
  {
    EvalBound(s, b);
    var high := Eval(s[k + 1..], b);
    assert s[k..][1..] == s[k + 1..];
    assert Eval(s[k..], b) == s[k] + b * high;
    PowMul(2, w, k);
    hide Eval, Pow, BitOf;
    DropDigits(s, b, k);
    ShiftedBit(Eval(s, b), Pow(b, k), Eval(s[k..], b), low + r, low, r);
    LowDigitBit(s[k], b, high, w, r);
    BitDefinition(s[k], r);
  }

  lemma ShiftedBit(n: int, p: int, m: int, i: nat, low: nat, r: nat)
    requires n >= 0 && p > 0 && p == Pow(2, low) && n / p == m && i == low + r
    ensures Pow(2, r) > 0 && BitOf(n, i) == (m / Pow(2, r)) % 2
  {
    hide Pow, BitOf;
    PowAdd(2, low, r);
    PowPositive(2, r);
    DivDiv(n, p, Pow(2, r));
    BitDefinition(n, i);
  }

  lemma BitDefinition(n: int, i: nat)
    requires n >= 0
    ensures Pow(2, i) > 0 && BitOf(n, i) == (n / Pow(2, i)) % 2
  {
    PowPositive(2, i);
  }

  /** Whole digits above do not reach bit r of the lowest digit. */
  lemma LowDigitBit(x: int, b: int, high: int, w: nat, r: nat)
    requires r < w && b == Pow(2, w) && x >= 0
    ensures Pow(2, r) > 0 && ((x + b * high) / Pow(2, r)) % 2 == (x / Pow(2, r)) % 2
  {
    PowPositive(2, r);
    PowAdd(2, r, w - r);
    var p, h := Pow(2, r), Pow(2, w - r - 1);
    assert Pow(2, w - r) == 2 * h;
    hide Pow;
    EvenMultiple(b, p, h, high);
    QuotientParity(x, p, h * high, b * high);
  }

  lemma EvenMultiple(b: int, p: int, h: int, high: int)
    requires b == p * (2 * h)
    ensures b * high == p * (2 * (h * high))
  {
    MulEq(high, b, p * (2 * h));
  }

  lemma EvenShift(q: int, k: int)
    ensures (q + 2 * k) % 2 == q % 2
  {}

  lemma QuotientParity(x: int, p: int, k: int, m: int)
    requires p > 0 && m == p * (2 * k)
    ensures ((x + m) / p) % 2 == (x / p) % 2
  {
    var q, r := x / p, x % p;
    assert x == p * q + r;
    MulDistr(p, q, 2 * k);
    DivModUnique(x + m, p, q + 2 * k, r);
    EvenShift(q, k);
  }
}
