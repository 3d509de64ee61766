/** Field comparison, sign and the two fixed exponent chains. */
module FieldPower {
  import opened Arith
  import opened Radix
  import opened Fe25519
  import opened FieldCodec
  import opened ByteCompare

  // ---------- comparison and sign ----------

  lemma TopBitOfNegation(d: bv32)
    ensures (d | (0 - d)) >> 31 == if d == 0 then 0 else 1
  {}

  /** 1 if a and b differ modulo P, 0 if they are congruent. */
  method Neq(a: array<int64>, b: array<int64>) returns (r: int)
    requires a.Length == b.Length == 16 && Within(a[..], WIDE) && Within(b[..], WIDE)
    ensures r == if Cong(Val(a[..]), Val(b[..]), P) then 0 else 1
  {
    hide Eval, Val, Mod, FieldPrime;
    ghost var A, B := a[..], b[..];
    CongResidue(Val(A), Val(B), P);
    var x, y := new byte[32](_ => 0), new byte[32](_ => 0);
    Pack(x, a);
    ghost var X := x[..];
    assert Eval(X, 256) == Val(A) % P;
    Pack(y, b);
    ghost var Y := y[..];
    assert a[..] == A && b[..] == B && x[..] == X;
    assert Eval(Y, 256) == Val(B) % P;
    var d := Differences(x[..], y[..]);
    if Eval(X, 256) == Eval(Y, 256) {
      EvalUnique(X, Y, 256);
    }
    TopBitOfNegation(d);
    r := ((d | (0 - d)) >> 31) as int;
  }

  /** The low bit of the canonical value. */
  method Parity(a: array<int64>) returns (r: int)
    requires a.Length == 16 && Within(a[..], WIDE)
    ensures r == (Val(a[..]) % P) % 2
  {
    hide Val, FieldPrime;
    var d := new byte[32](_ => 0);
    Pack(d, a);
    r := d[0] % 2;
    assert Eval(d[..], 256) == d[0] + 256 * Eval(d[..][1..], 256);
  }

  // ---------- addition, subtraction ----------

  method Add(o: array<int64>, a: array<int64>, b: array<int64>)
    requires o.Length == a.Length == b.Length == 16
    requires Within(a[..], WIDE / 2) && Within(b[..], WIDE / 2)
    modifies o
    ensures forall k :: 0 <= k < 16 ==> o[k] == old(a[k] + b[k])
    ensures Val(o[..]) == old(Val(a[..]) + Val(b[..]))
  {
    var i := 0;
    while i < 16
      invariant 0 <= i <= 16
      invariant forall k :: 0 <= k < i ==> o[k] == old(a[k] + b[k])
      invariant forall k :: i <= k < 16 ==> a[k] == old(a[k]) && b[k] == old(b[k])
    {
      o[i] := a[i] + b[i];
      i := i + 1;
    }
    EvalAddScaled(old(a[..]), old(b[..]), o[..], 1, B16);
  }

  method Sub(o: array<int64>, a: array<int64>, b: array<int64>)
    requires o.Length == a.Length == b.Length == 16
    requires Within(a[..], WIDE / 2) && Within(b[..], WIDE / 2)
    modifies o
    ensures forall k :: 0 <= k < 16 ==> o[k] == old(a[k] - b[k])
    ensures Val(o[..]) == old(Val(a[..]) - Val(b[..]))
  {
    var i := 0;
    while i < 16
      invariant 0 <= i <= 16
      invariant forall k :: 0 <= k < i ==> o[k] == old(a[k] - b[k])
      invariant forall k :: i <= k < 16 ==> a[k] == old(a[k]) && b[k] == old(b[k])
    {
      o[i] := a[i] - b[i];
      i := i + 1;
    }
    EvalMinus(old(a[..]), old(b[..]), o[..], B16);
  }

  // ---------- fixed powers ----------

  /** One squaring, and a multiplication by the base when the chain has a 1. */
  lemma ChainPower(c: int, c2: int, c3: int, x: int, e: nat, mul: bool)
    requires Cong(c, Pow(x, e), P) && Cong(c2, c * c, P)
    requires if mul then Cong(c3, c2 * x, P) else c3 == c2
    ensures Cong(c3, Pow(x, 2 * e + (if mul then 1 else 0)), P)
  {
    hide Mod, FieldPrime;
    CongMul(c, Pow(x, e), c, Pow(x, e), P);
    PowAdd(x, e, e);
    if mul {
      CongMul(c2, Pow(x, 2 * e), x, x, P);
    }
  }

  lemma Pow255()
    ensures Pow(2, 255) == P + 19
  {
  }

  lemma Doubling(n: nat)
    ensures Pow(2, n + 1) == 2 * Pow(2, n) && Pow(2, n) > 0
  {
    PowPositive(2, n);
  }

  /** Exponent held by the inversion chain when step `a` is next. */
  function InvExp(a: int): int
    requires -1 <= a <= 253
  {
    if a >= 4 then Pow(2, 254 - a) - 1
    else if a == 3 then Pow(2, 251) - 2
    else if a == 2 then Pow(2, 252) - 3
    else if a == 1 then Pow(2, 253) - 6
    else if a == 0 then Pow(2, 254) - 11
    else Pow(2, 255) - 21
  }

  lemma InvExpStep(a: int)
    requires 0 <= a <= 253
    ensures InvExp(a) >= 0
    ensures InvExp(a - 1) == 2 * InvExp(a) + (if a != 2 && a != 4 then 1 else 0)
  {
    if a >= 4 {
      Doubling(254 - a);
    } else {
      Doubling(250);
      Doubling(251);
      Doubling(252);
      Doubling(253);
      Doubling(254);
    }
  }

  /** Exponent held by the square-root chain when step `a` is next. */
  function RootExp(a: int): int
    requires -1 <= a <= 250
  {
    if a >= 1 then Pow(2, 251 - a) - 1
    else if a == 0 then Pow(2, 251) - 2
    else Pow(2, 252) - 3
  }

  lemma RootExpStep(a: int)
    requires 0 <= a <= 250
    ensures RootExp(a) >= 0
    ensures RootExp(a - 1) == 2 * RootExp(a) + (if a != 1 then 1 else 0)
  {
    Doubling(251 - a);
    Doubling(250);
  }

  /** Limbs that every field routine accepts as a factor. */
  ghost predicate Factor(a: array<int64>)
    reads a
  {
    a.Length == 16 && Within(a[..], LIMB)
  }

  /** o := x^(P-2). */
  method Inv(o: array<int64>, x: array<int64>)
    requires Factor(x) && o.Length == 16
    modifies o
    ensures Within(o[..], LIMB)
    ensures Cong(Val(o[..]), Pow(old(Val(x[..])), P - 2), P)
  {
    ghost var v := Val(x[..]);
    var c := new int64[16](_ => 0);
    Copy(c, x);
    var a := 253;
    assert Pow(v, 1) == v * Pow(v, 0);
    while a >= 0
      invariant -1 <= a <= 253 && c.Length == 16 && Within(c[..], LIMB)
      invariant Within(x[..], LIMB) && Val(x[..]) == v
      invariant InvExp(a) >= 0 && Cong(Val(c[..]), Pow(v, InvExp(a)), P)
    {
      InvExpStep(a);
      ghost var c1 := Val(c[..]);
      Mul(c, c, c);
      ghost var c2 := Val(c[..]);
      if a != 2 && a != 4 {
        Mul(c, c, x);
      }
      ChainPower(c1, c2, Val(c[..]), v, InvExp(a), a != 2 && a != 4);
      a := a - 1;
    }
    Pow255();
    Copy(o, c);
  }

  /** o := x^((P-5)/8). */
  method PowRoot(o: array<int64>, x: array<int64>)
    requires Factor(x) && o.Length == 16
    modifies o
    ensures Within(o[..], LIMB)
    ensures Cong(Val(o[..]), Pow(old(Val(x[..])), (P - 5) / 8), P)
  {
    ghost var v := Val(x[..]);
    var c := new int64[16](_ => 0);
    Copy(c, x);
    var a := 250;
    assert Pow(v, 1) == v * Pow(v, 0);
    while a >= 0
      invariant -1 <= a <= 250 && c.Length == 16 && Within(c[..], LIMB)
      invariant Within(x[..], LIMB) && Val(x[..]) == v
      invariant RootExp(a) >= 0 && Cong(Val(c[..]), Pow(v, RootExp(a)), P)
    {
      RootExpStep(a);
      ghost var c1 := Val(c[..]);
      Mul(c, c, c);
      ghost var c2 := Val(c[..]);
      if a != 1 {
        Mul(c, c, x);
      }
      ChainPower(c1, c2, Val(c[..]), v, RootExp(a), a != 1);
      a := a - 1;
    }
    Pow255();
    Doubling(252);
    Doubling(253);
    Doubling(254);
    Copy(o, c);
  }
}
