/** Integer arithmetic shared by every layer: powers, congruences and radix values. */
module Arith {

  // ---------- powers ----------

  function Pow(b: int, e: nat): int
    decreases e
  {
    if e == 0 then 1 else b * Pow(b, e - 1)
  }

  lemma {:induction false} PowPositive(b: int, e: nat)
    requires b > 0
    ensures Pow(b, e) > 0
  {
    if e > 0 {
      PowPositive(b, e - 1);
      MulPositive(b, Pow(b, e - 1));
    }
  }

  lemma {:induction false} PowAdd(b: int, e: nat, f: nat)
    ensures Pow(b, e + f) == Pow(b, e) * Pow(b, f)
  {
    if e > 0 {
      PowAdd(b, e - 1, f);
      assert e + f - 1 == (e - 1) + f;
      MulAssoc(b, Pow(b, e - 1), Pow(b, f));
    }
  }

  lemma PowJoin(b: int, e: nat, f: nat, x: int, y: int)
    requires Pow(b, e) == x && Pow(b, f) == y
    ensures Pow(b, e + f) == x * y
  {
    PowAdd(b, e, f);
  }

  lemma {:induction false} PowMul(b: int, e: nat, f: nat)
    ensures 0 <= e * f && Pow(b, e * f) == Pow(Pow(b, e), f)
  {
    if f > 0 {
      PowMul(b, e, f - 1);
      assert e * f == e * (f - 1) + e by { MulDistr(e, f - 1, 1); }
      PowAdd(b, e, e * (f - 1));
    }
  }

  // ---------- products ----------

  lemma MulPositive(a: int, b: int)
    requires a > 0 && b > 0
    ensures a * b > 0
  {}

  lemma MulAssoc(a: int, b: int, c: int)
    ensures (a * b) * c == a * (b * c)
  {}

  lemma MulDistr(a: int, b: int, c: int)
    ensures a * (b + c) == a * b + a * c
  {}

  lemma MulEq(x: int, a: int, b: int)
    requires a == b
    ensures x * a == x * b
  {}

  lemma MulLe(a: int, b: int, c: int)
    requires a <= b && 0 <= c
    ensures a * c <= b * c
  {}

  // ---------- division ----------

  /** Quotient and remainder are the only q and r with a == q*m + r and 0 <= r < m. */
  lemma DivModUnique(a: int, m: int, q: int, r: int)
    requires m > 0 && a == q * m + r && 0 <= r < m
    ensures a / m == q && a % m == r
  {
    var q', r' := a / m, a % m;
    assert a == m * q' + r';
    if q' < q {
      MulLe(q' + 1, q, m);
      MulDistr(m, q', 1);
    } else if q < q' {
      MulLe(q + 1, q', m);
      MulDistr(m, q, 1);
    }
  }

  // ---------- congruence ----------

  /** The residue of a modulo m, approached one m at a time. */
  ghost function Mod(a: int, m: int): (r: int)
    requires m > 0
    ensures 0 <= r < m
    decreases if a < 0 then -a else if a >= m then a else 0, 1
  {
    Approach(a, m)
  }

  ghost function Approach(a: int, m: int): (r: int)
    requires m > 0
    ensures 0 <= r < m
    decreases if a < 0 then -a else if a >= m then a else 0, 0
  {
    if a < 0 then Mod(a + m, m) else if a >= m then Mod(a - m, m) else a
  }

  lemma ModSmall(a: int, m: int)
    requires 0 <= a < m
    ensures Mod(a, m) == a
  {
    assert Mod(a, m) == Approach(a, m);
  }

  lemma {:induction false} ModIs(a: int, m: int)
    requires m > 0
    ensures Mod(a, m) == a % m
    decreases if a < 0 then -a else if a >= m then a else 0
  {
    var q, r := a / m, a % m;
    assert a == q * m + r;
    assert Mod(a, m) == Approach(a, m);
    if a < 0 {
      MulDistr(m, q, 1);
      ModIs(a + m, m);
      DivModUnique(a + m, m, q + 1, r);
    } else if a >= m {
      MulDistr(m, q, -1);
      ModIs(a - m, m);
      DivModUnique(a - m, m, q - 1, r);
    } else {
      DivModUnique(a, m, 0, a);
    }
  }

  ghost predicate Cong(a: int, b: int, m: int)
    requires m > 0
  {
    Mod(a, m) == Mod(b, m)
  }

  lemma CongResidue(a: int, b: int, m: int)
    requires m > 0
    ensures Cong(a, b, m) <==> a % m == b % m
  {
    hide Mod;
    ModIs(a, m);
    ModIs(b, m);
  }

  lemma CongSmall(a: int, m: int)
    requires 0 < a < m
    ensures !Cong(a, 0, m)
  {
    ModSmall(a, m);
    ModSmall(0, m);
  }

  lemma CongFrom(a: int, b: int, k: int, m: int)
    requires m > 0 && a == b + k * m
    ensures Cong(a, b, m)
  {
    hide Mod;
    ModIs(a, m);
    ModIs(b, m);
    var q, r := b / m, b % m;
    assert a == (q + k) * m + r by { MulDistr(m, q, k); }
    DivModUnique(a, m, q + k, r);
  }

  lemma CongTo(a: int, b: int, m: int) returns (k: int)
    requires m > 0 && Cong(a, b, m)
    ensures a == b + k * m
  {
    hide Mod;
    ModIs(a, m);
    ModIs(b, m);
    k := a / m - b / m;
    MulDistr(m, a / m, -(b / m));
  }

  lemma WrapCount(i: nat, j: nat, n: nat) returns (k: nat)
    requires j <= i && n > 0 && Cong(i, j, n)
    ensures i == j + k * n
  {
    var c := CongTo(i, j, n);
    if c < 0 {
      MulLe(c, -1, n);
    }
    k := c;
  }

  lemma CongAdd(a: int, b: int, c: int, d: int, m: int)
    requires m > 0 && Cong(a, b, m) && Cong(c, d, m)
    ensures Cong(a + c, b + d, m)
  {
    hide Mod;
    var k := CongTo(a, b, m);
    var l := CongTo(c, d, m);
    MulDistr(m, k, l);
    CongFrom(a + c, b + d, k + l, m);
  }

  lemma CongSub(a: int, b: int, c: int, d: int, m: int)
    requires m > 0 && Cong(a, b, m) && Cong(c, d, m)
    ensures Cong(a - c, b - d, m)
  {
    hide Mod;
    var k := CongTo(a, b, m);
    var l := CongTo(c, d, m);
    MulDistr(m, k, -l);
    CongFrom(a - c, b - d, k - l, m);
  }

  lemma CongMul(a: int, b: int, c: int, d: int, m: int)
    requires m > 0 && Cong(a, b, m) && Cong(c, d, m)
    ensures Cong(a * c, b * d, m)
  {
    hide Mod;
    var k := CongTo(a, b, m);
    var l := CongTo(c, d, m);
    var x := a;
    MulDistr(x, d, l * m);
    MulDistr(d, b, k * m);
    MulDistr(m, k * d, x * l);
    CongFrom(a * c, b * d, k * d + x * l, m);
  }

  lemma CongSelf(a: int, m: int)
    requires m > 0
    ensures Cong(Mod(a, m), a, m)
  {
    ModSmall(Mod(a, m), m);
  }

  lemma CongMod(a: int, m: int)
    requires m > 0
    ensures Cong(a % m, a, m)
  {
    assert a == m * (a / m) + a % m;
    CongFrom(a % m, a, -(a / m), m);
  }
}
