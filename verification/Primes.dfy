/** Arithmetic modulo a prime: inverses, cancellation and Fermat's little theorem. */
module Primes {
  import opened Arith

  ghost predicate Prime(p: int) {
    p >= 2 && forall d :: 1 < d < p ==> p % d != 0
  }

  /** Euclid's remainders give every 0 < a < p an inverse. */
  lemma {:induction false} InverseBelow(a: int, p: int) returns (b: int)
    requires Prime(p) && 0 < a < p
    ensures Cong(a * b, 1, p)
    decreases a
  {
    if a == 1 {
      b := 1;
    } else {
      var q, r := p / a, p % a;
      assert p == a * q + r;
      var s := InverseBelow(r, p);
      b := -(q * s);
      var k := CongTo(r * s, 1, p);
      InverseArith(a, q, r, s, k, p);
      CongFrom(a * b, 1, k - s, p);
    }
  }

  lemma InverseArith(a: int, q: int, r: int, s: int, k: int, p: int)
    requires p == a * q + r && r * s == 1 + k * p
    ensures a * -(q * s) == 1 + (k - s) * p
  {
    MulEq(s, p, a * q + r);
    MulDistr(s, a * q, r);
    MulDistr(p, k, -s);
  }

  lemma Inverse(a: int, p: int) returns (b: int)
    requires Prime(p) && !Cong(a, 0, p)
    ensures Cong(a * b, 1, p)
  {
    ModIs(a, p);
    ModIs(0, p);
    hide Mod;
    b := InverseBelow(a % p, p);
    CongMod(a, p);
    CongMul(a, a % p, b, b, p);
  }

  /** A product vanishes only if a factor does. */
  lemma Euclid(a: int, b: int, p: int)
    requires Prime(p) && Cong(a * b, 0, p)
    ensures Cong(a, 0, p) || Cong(b, 0, p)
  {
    hide Mod;
    if !Cong(a, 0, p) {
      var c := Inverse(a, p);
      CongMul(a * c, 1, b, b, p);
      CongMul(a * b, 0, c, c, p);
      assert (a * c) * b == (a * b) * c;
    }
  }

  lemma NonzeroProduct(a: int, b: int, p: int)
    requires Prime(p) && !Cong(a, 0, p) && !Cong(b, 0, p)
    ensures !Cong(a * b, 0, p)
  {
    if Cong(a * b, 0, p) {
      Euclid(a, b, p);
    }
  }

  lemma Cancel(a: int, x: int, y: int, p: int)
    requires Prime(p) && !Cong(a, 0, p) && Cong(a * x, a * y, p)
    ensures Cong(x, y, p)
  {
    hide Mod;
    MulDistr(a, x, -y);
    CongSub(a * x, a * y, a * y, a * y, p);
    Euclid(a, x - y, p);
    CongAdd(x - y, 0, y, y, p);
  }

  // ---------- Fermat ----------

  function Choose(n: nat, k: nat): nat {
    if k == 0 then 1 else if n == 0 then 0 else Choose(n - 1, k) + Choose(n - 1, k - 1)
  }

  lemma {:induction false} ChooseAbove(n: nat, k: nat)
    requires k > n
    ensures Choose(n, k) == 0
  {
    if n > 0 {
      ChooseAbove(n - 1, k);
      ChooseAbove(n - 1, k - 1);
    }
  }

  lemma {:induction false} ChooseAbsorb(n: nat, k: nat)
    requires n > 0 && k > 0
    ensures k * Choose(n, k) == n * Choose(n - 1, k - 1)
  {
    if n == 1 {
      if k > 1 {
        ChooseAbove(1, k);
        ChooseAbove(0, k - 1);
      }
    } else {
      ChooseAbsorb(n - 1, k);
      if k > 1 {
        ChooseAbsorb(n - 1, k - 1);
        AbsorbStep(n, k, Choose(n - 1, k), Choose(n - 1, k - 1), Choose(n - 2, k - 1), Choose(n - 2, k - 2));
      }
    }
  }

  lemma AbsorbStep(n: int, k: int, a: int, b: int, c: int, d: int)
    requires k * a == (n - 1) * c && (k - 1) * b == (n - 1) * d && b == c + d
    ensures k * (a + b) == n * b
  {
    MulDistr(k, a, b);
    MulDistr(n - 1, c, d);
    MulEq(n - 1, b, c + d);
    MulDistr(b, k, -1);
    MulDistr(b, n, -1);
  }

  lemma {:induction false} ChooseZero(p: nat, k: nat)
    requires Prime(p) && 0 < k < p
    ensures Cong(Choose(p, k), 0, p)
  {
    ChooseAbsorb(p, k);
    CongFrom(k * Choose(p, k), 0, Choose(p - 1, k - 1), p);
    Euclid(k, Choose(p, k), p);
    CongSmall(k, p);
  }

  /** Sum of the terms Choose(n, j) * a^j for j <= k. */
  function Binomial(n: nat, a: int, k: nat): int {
    Choose(n, k) * Pow(a, k) + (if k == 0 then 0 else Binomial(n, a, k - 1))
  }

  lemma {:induction false} BinomialStep(n: nat, a: int, k: nat)
    requires k > 0
    ensures Binomial(n + 1, a, k) == Binomial(n, a, k) + a * Binomial(n, a, k - 1)
  {
    var c, c' := Choose(n, k), Choose(n, k - 1);
    assert Choose(n + 1, k) == c + c' && Pow(a, k) == a * Pow(a, k - 1);
    if k == 1 {
      assert Binomial(n, a, 0) == 1 == Binomial(n + 1, a, 0);
      PascalStep(a, Pow(a, k - 1), Pow(a, k), c, c', 1, 1, 0, Binomial(n, a, 0));
    } else {
      BinomialStep(n, a, k - 1);
      PascalStep(a, Pow(a, k - 1), Pow(a, k), c, c', Binomial(n + 1, a, k - 1), Binomial(n, a, k - 1),
        Binomial(n, a, k - 2), Binomial(n, a, k - 1));
    }
  }

  lemma PascalStep(a: int, w: int, aw: int, c: int, c': int, low: int, here: int, below: int, sum: int)
    requires aw == a * w && low == here + a * below && sum == c' * w + below
    ensures (c + c') * aw + low == c * aw + here + a * sum
  {
    MulDistr(aw, c, c');
    MulEq(a, sum, c' * w + below);
    MulDistr(a, c' * w, below);
    MulEq(c', aw, a * w);
  }

  lemma {:induction false} BinomialTheorem(n: nat, a: int)
    ensures Binomial(n, a, n) == Pow(a + 1, n)
  {
    if n > 0 {
      BinomialTheorem(n - 1, a);
      BinomialStep(n - 1, a, n);
      ChooseAbove(n - 1, n);
      MulDistr(Pow(a + 1, n - 1), a, 1);
    }
  }

  lemma {:induction false} BinomialPrime(p: nat, a: int, k: nat)
    requires Prime(p) && k < p
    ensures Cong(Binomial(p, a, k), 1, p)
  {
    if k > 0 {
      BinomialPrime(p, a, k - 1);
      ChooseZero(p, k);
      CongMul(Choose(p, k), 0, Pow(a, k), Pow(a, k), p);
      CongAdd(Choose(p, k) * Pow(a, k), 0, Binomial(p, a, k - 1), 1, p);
    }
  }

  lemma {:induction false} ChooseTop(n: nat)
    ensures Choose(n, n) == 1
  {
    if n > 0 {
      ChooseTop(n - 1);
      ChooseAbove(n - 1, n);
    }
  }

  lemma {:induction false} FermatNat(a: nat, p: nat)
    requires Prime(p)
    ensures Cong(Pow(a, p), a, p)
    decreases a
  {
    if a == 0 {
      assert Pow(0, p) == 0 * Pow(0, p - 1);
    } else {
      FermatNat(a - 1, p);
      BinomialTheorem(p, a - 1);
      BinomialPrime(p, a - 1, p - 1);
      ChooseTop(p);
      CongAdd(Pow(a - 1, p), a - 1, Binomial(p, a - 1, p - 1), 1, p);
    }
  }

  lemma {:induction false} CongPow(a: int, b: int, e: nat, m: int)
    requires m > 0 && Cong(a, b, m)
    ensures Cong(Pow(a, e), Pow(b, e), m)
  {
    if e > 0 {
      CongPow(a, b, e - 1, m);
      CongMul(a, b, Pow(a, e - 1), Pow(b, e - 1), m);
    }
  }

  /** Fermat's little theorem. */
  lemma Fermat(a: int, p: nat)
    requires Prime(p) && !Cong(a, 0, p)
    ensures Cong(Pow(a, p - 1), 1, p)
  {
    hide Mod;
    FermatNat(a % p, p);
    CongMod(a, p);
    CongPow(a % p, a, p, p);
    Cancel(a, Pow(a, p - 1), 1, p);
  }

  /** The power p-2 is the inverse of a nonzero residue. */
  lemma FermatInverse(a: int, p: nat)
    requires Prime(p) && !Cong(a, 0, p)
    ensures Cong(a * Pow(a, p - 2), 1, p)
  {
    Fermat(a, p);
  }
}
