/** Inversion and the square-root exponent, by chains of squarings and products. */
module FieldInvert {
  import opened Arith
  import opened MachineInts
  import opened Field
  import opened FieldMul

  ghost function Power(x: int, n: nat): int {
    if n == 0 then 1 else x * Power(x, n - 1)
  }

  lemma {:induction false} PowerAdd(x: int, m: nat, n: nat)
    ensures Power(x, m + n) == Power(x, m) * Power(x, n)
  {
    if n > 0 {
      PowerAdd(x, m, n - 1);
      var p, q := Power(x, m), Power(x, n - 1);
      assert x * (p * q) == p * (x * q);
    }
  }

  /** `h` represents v^e modulo p within the bounds that products and squares accept. */
  ghost predicate IsPower(h: seq<int>, v: int, e: nat) {
    Loose(h) && Congruent(Value(h), Power(v, e))
  }

  lemma ProductOfPowers(r: int, a: int, b: int, v: int, m: nat, n: nat)
    requires Congruent(a, Power(v, m)) && Congruent(b, Power(v, n)) && Congruent(r, a * b)
    ensures Congruent(r, Power(v, m + n))
  {
    PowerAdd(v, m, n);
    CongruentMul(a, Power(v, m), b);
    CongruentMul(b, Power(v, n), Power(v, m));
    CongruentTrans(r, b * a, b * Power(v, m));
    CongruentTrans(r, Power(v, m) * b, Power(v, m) * Power(v, n));
  }

  /** One product of powers; the destination may be a factor. */
  method MulPowers(h: array<int32>, f: array<int32>, g: array<int32>, ghost v: int, ghost m: nat, ghost n: nat)
    requires h.Length == f.Length == g.Length == 10
    requires IsPower(f[..], v, m) && IsPower(g[..], v, n)
    modifies h
    ensures Tight(h[..]) && IsPower(h[..], v, m + n)
  {
    ghost var a, b := Value(f[..]), Value(g[..]);
    FeMul(h, f, g);
    ProductOfPowers(Value(h[..]), a, b, v, m, n);
  }

  ghost function Doubled(m: nat, n: nat): nat {
    if n == 0 then m else Doubled(m, n - 1) + Doubled(m, n - 1)
  }

  lemma {:induction false} DoubledIsProduct(m: nat, n: nat)
    ensures Doubled(m, n) == m * Two(n)
  {
    if n > 0 {
      DoubledIsProduct(m, n - 1);
      var t := Two(n - 1);
      assert m * t + m * t == m * (2 * t);
    }
  }

  /** `h` = `f` squared `n` times; `h` may be `f`. */
  method SquareTimes(h: array<int32>, f: array<int32>, n: nat, ghost v: int, ghost m: nat)
    requires h.Length == f.Length == 10 && n > 0
    requires IsPower(f[..], v, m)
    modifies h
    ensures IsPower(h[..], v, Doubled(m, n))
  {
    ghost var a := Value(f[..]);
    FeSquare(h, f);
    ProductOfPowers(Value(h[..]), a, a, v, m, m);
    for i := 1 to n
      invariant IsPower(h[..], v, Doubled(m, i))
    {
      a := Value(h[..]);
      FeSquare(h, h);
      ProductOfPowers(Value(h[..]), a, a, v, Doubled(m, i), Doubled(m, i));
    }
  }

  /** The number whose binary form is `n` ones. */
  ghost function Ones(n: nat): nat
    decreases n, 0
  {
    if n == 0 then 0 else Ones(n - 1) + Ones(n - 1) + 1
  }

  lemma {:induction false} OnesAdd(m: nat, n: nat)
    ensures Doubled(Ones(m), n) + Ones(n) == Ones(m + n)
  {
    if n > 0 { OnesAdd(m, n - 1); }
  }

  lemma {:induction false} OnesIsTwo(n: nat)
    ensures Ones(n) == Two(n) - 1
  {
    if n > 0 { OnesIsTwo(n - 1); }
  }

  /** From z^m with m of `a` ones, by `b` squarings and one product with z^(b ones). */
  method Extend(h: array<int32>, t: array<int32>, f: array<int32>, g: array<int32>, ghost v: int, a: nat, b: nat)
    requires h.Length == t.Length == f.Length == g.Length == 10 && t != g && b > 0
    requires IsPower(f[..], v, Ones(a)) && IsPower(g[..], v, Ones(b))
    modifies h, t
    ensures IsPower(h[..], v, Ones(a + b))
  {
    SquareTimes(t, f, b, v, Ones(a));
    MulPowers(h, t, g, v, Doubled(Ones(a), b), Ones(b));
    OnesAdd(a, b);
  }

  /** From 5 ones in `t1` to 50. */
  method OnesTo50(t1: array<int32>, t2: array<int32>, t3: array<int32>, ghost v: int)
    requires t1.Length == t2.Length == t3.Length == 10 && t1 != t2 && t1 != t3 && t2 != t3
    requires IsPower(t1[..], v, Ones(5))
    modifies t1, t2, t3
    ensures IsPower(t1[..], v, Ones(50))
  {
    Extend(t1, t2, t1, t1, v, 5, 5);
    Extend(t2, t2, t1, t1, v, 10, 10);
    Extend(t2, t3, t2, t2, v, 20, 20);
    Extend(t1, t2, t2, t1, v, 40, 10);
  }

  /** From 50 ones in `t1` to 250. */
  method OnesTo250(t1: array<int32>, t2: array<int32>, t3: array<int32>, ghost v: int)
    requires t1.Length == t2.Length == t3.Length == 10 && t1 != t2 && t1 != t3 && t2 != t3
    requires IsPower(t1[..], v, Ones(50))
    modifies t1, t2, t3
    ensures IsPower(t1[..], v, Ones(250))
  {
    Extend(t2, t2, t1, t1, v, 50, 50);
    Extend(t2, t3, t2, t2, v, 100, 100);
    Extend(t1, t2, t2, t1, v, 200, 50);
  }

  /** z^11 in `t0` and z^31 in `t1`. */
  method Start(t0: array<int32>, t1: array<int32>, t2: array<int32>, z: array<int32>, ghost v: int)
    requires t0.Length == t1.Length == t2.Length == z.Length == 10 && t0 != t1 && t0 != t2 && t1 != t2
    requires z != t0 && z != t1 && IsPower(z[..], v, 1)
    modifies t0, t1, t2
    ensures IsPower(t0[..], v, 11) && IsPower(t1[..], v, 31)
  {
    SquareTimes(t0, z, 1, v, 1);
    SquareTimes(t1, t0, 2, v, 2);
    MulPowers(t1, z, t1, v, 1, 8);
    MulPowers(t0, t0, t1, v, 2, 9);
    SquareTimes(t2, t0, 1, v, 11);
    MulPowers(t1, t1, t2, v, 9, 22);
  }

  lemma InverseExponent()
    ensures Ones(5) == 31 && Doubled(Ones(250), 5) + 11 == P - 2 && Doubled(Ones(250), 2) + 1 == (P - 5) / 8
  {
    OnesIsTwo(250);
    DoubledIsProduct(Ones(250), 5);
    DoubledIsProduct(Ones(250), 2);
    TwoValues();
    TwoAdd(25, 25);
    assert Two(50) == 0x4_0000_0000_0000;
    TwoAdd(50, 50);
    assert Two(100) == 0x10_0000_0000_0000_0000_0000_0000;
    TwoAdd(100, 100);
    assert Two(200) == 0x100_0000_0000_0000_0000_0000_0000_0000_0000_0000_0000_0000_0000;
    TwoAdd(200, 50);
    assert Two(250) == 0x400_0000_0000_0000_0000_0000_0000_0000_0000_0000_0000_0000_0000_0000_0000_0000;
  }

  /** out = z^(p - 2); `out` may be `z`. */
  method FeInvert(out: array<int32>, z: array<int32>)
    requires out.Length == z.Length == 10 && Loose(z[..])
    modifies out
    ensures Tight(out[..]) && IsPower(out[..], old(Value(z[..])), P - 2)
  {
    ghost var v := Value(z[..]);
    var t0, t1, t2, t3 := new int32[10], new int32[10], new int32[10], new int32[10];
    assert IsPower(z[..], v, 1) by { assert Power(v, 1) == v; }
    Start(t0, t1, t2, z, v);
    InverseExponent();
    OnesTo50(t1, t2, t3, v);
    OnesTo250(t1, t2, t3, v);
    SquareTimes(t1, t1, 5, v, Ones(250));
    MulPowers(out, t1, t0, v, Doubled(Ones(250), 5), 11);
  }

  /** out = z^((p - 5) / 8), the candidate square root's exponent; `out` may be `z`. */
  method FePow22523(out: array<int32>, z: array<int32>)
    requires out.Length == z.Length == 10 && Loose(z[..])
    modifies out
    ensures Tight(out[..]) && IsPower(out[..], old(Value(z[..])), (P - 5) / 8)
  {
    ghost var v := Value(z[..]);
    var t0, t1, t2 := new int32[10], new int32[10], new int32[10];
    assert IsPower(z[..], v, 1) by { assert Power(v, 1) == v; }
    SquareTimes(t0, z, 1, v, 1);
    SquareTimes(t1, t0, 2, v, 2);
    MulPowers(t1, z, t1, v, 1, 8);
    MulPowers(t0, t0, t1, v, 2, 9);
    SquareTimes(t0, t0, 1, v, 11);
    MulPowers(t0, t1, t0, v, 9, 22);
    InverseExponent();
    OnesTo50(t0, t1, t2, v);
    OnesTo250(t0, t1, t2, v);
    SquareTimes(t0, t0, 2, v, Ones(250));
    MulPowers(out, t0, z, v, Doubled(Ones(250), 2), 1);
  }
}
