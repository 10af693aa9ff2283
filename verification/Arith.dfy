/** Facts about products that the solver is slow to find by itself. */
module Arith {
  lemma MulMono(a: int, b: int, c: int)
    requires a <= b && 0 <= c
    ensures a * c <= b * c
  {
  }

  lemma MulBound(x: int, y: int, m: int, n: int)
    requires -m <= x <= m && -n <= y <= n
    ensures -(m * n) <= x * y <= m * n
  {
    MulMono(if y >= 0 then y else -y, n, m);
    if y >= 0 {
      MulMono(-m, x, y);
      MulMono(x, m, y);
    } else {
      MulMono(-m, x, -y);
      MulMono(x, m, -y);
    }
  }

  lemma DivUnique(x: int, d: int, q: int, r: int)
    requires x == d * q + r && 0 <= r < d
    ensures x / d == q && x % d == r
  {
    var k := x / d - q;
    assert d * k == r - x % d;
    if k >= 1 { MulMono(1, k, d); }
    if k <= -1 { MulMono(k, -1, d); }
  }

  lemma DivAdd(w: int, x: int, d: int, m: int)
    requires d > 0 && w == x + d * m
    ensures w / d == x / d + m && w % d == x % d
  {
    assert w == d * (x / d + m) + x % d;
    DivUnique(w, d, x / d + m, x % d);
  }

  lemma Distribute(d: int, e: int, u: int, v: int)
    ensures d * (e * u + v) == (d * e) * u + d * v && (e - 1) * d == d * e - d
  {
  }

  lemma DivDiv(x: int, d: int, e: int)
    requires d > 0 && e > 0
    ensures d * e > 0 && x / d / e == x / (d * e)
  {
    var q, r := x / d, x % d;
    var u, v := q / e, q % e;
    MulMono(1, d, e);
    MulMono(v, e - 1, d);
    MulMono(0, v, d);
    Distribute(d, e, u, v);
    DivUnique(x, d * e, u, d * v + r);
  }

  /** 2^n, the factor of a shift by n. */
  function Two(n: nat): (p: nat)
    ensures p > 0
  {
    if n == 0 then 1 else 2 * Two(n - 1)
  }

  lemma TwoNext(n: nat)
    ensures Two(0) == 1 && Two(n + 1) == 2 * Two(n)
  {
  }

  lemma {:induction false} TwoAdd(m: nat, n: nat)
    ensures Two(m + n) == Two(m) * Two(n)
  {
    hide Two;
    if n == 0 {
      TwoNext(0);
    } else {
      TwoAdd(m, n - 1);
      TwoNext(m + n - 1);
      TwoNext(n - 1);
      MulAssoc(2, Two(n - 1), Two(n), Two(m));
    }
  }

  lemma ModMultiple(m: int, d: int)
    requires d > 0
    ensures m * d % d == 0 && m * d / d == m
    ensures m >= 0 ==> m * d >= 0
  {
    DivUnique(m * d, d, m, 0);
    if m >= 0 { MulMono(0, m, d); }
  }

  lemma TwoValues()
    ensures Two(0) == 1 && Two(3) == 8 && Two(7) == 0x80 && Two(8) == 0x100 && Two(16) == 0x1_0000
    ensures Two(21) == 0x20_0000 && Two(24) == 0x100_0000 && Two(25) == 0x200_0000 && Two(26) == 0x400_0000 && Two(32) == 0x1_0000_0000
  {
    assert Two(4) == 16;
    TwoAdd(4, 4);
    TwoAdd(8, 8);
    assert Two(5) == 32;
    assert Two(7) == 4 * Two(5);
    TwoAdd(16, 5);
    TwoAdd(16, 8);
    assert Two(26) == 4 * Two(24);
    TwoAdd(16, 16);
  }

  lemma DivBelow(x: int, s: int, t: int)
    requires s > 0 && x < s * t
    ensures x / s < t
  {
    if x / s >= t { MulMono(t, x / s, s); }
  }

  lemma ShiftJoin(x: nat, s: nat, t: nat, y: nat)
    requires s > 0 && t > 0 && x < s * t
    ensures 0 <= x / s < t && y * t >= 0 && y * t % t == 0
  {
    DivBelow(x, s, t);
    ModMultiple(y, t);
  }

  lemma MulAssoc(a: int, b: int, c: int, y: int)
    requires c == a * b
    ensures c * y == a * (b * y)
  {
  }
}
