/**
  Curve points as elements of an arbitrary abelian group: the point formulas and the various
  coordinate systems of the source all stand for these three operations.
 */
module Group {
  datatype Group<!T> = Group(zero: T, add: (T, T) -> T, neg: T -> T) {
    function Sub(x: T, y: T): T {
      add(x, neg(y))
    }

    function Double(x: T): T {
      add(x, x)
    }
  }

  // Each law is a predicate of its own so that a proof names the instances it uses.

  ghost predicate Associates<T>(g: Group<T>, x: T, y: T, z: T) {
    g.add(g.add(x, y), z) == g.add(x, g.add(y, z))
  }

  ghost predicate Commutes<T>(g: Group<T>, x: T, y: T) {
    g.add(x, y) == g.add(y, x)
  }

  ghost predicate Neutral<T>(g: Group<T>, x: T) {
    g.add(x, g.zero) == x && g.add(x, g.neg(x)) == g.zero
  }

  ghost predicate IsAbelian<T(!new)>(g: Group<T>) {
    && (forall x, y, z {:trigger Associates(g, x, y, z)} :: Associates(g, x, y, z))
    && (forall x, y {:trigger Commutes(g, x, y)} :: Commutes(g, x, y))
    && (forall x {:trigger Neutral(g, x)} :: Neutral(g, x))
  }

  /** n times x, for any integer n. */
  ghost function Times<T>(g: Group<T>, n: int, x: T): T
    decreases if n < 0 then 1 - n else n
  {
    if n == 0 then g.zero
    else if n > 0 then g.add(Times(g, n - 1, x), x)
    else g.Sub(Times(g, n + 1, x), x)
  }

  lemma Cancel<T(!new)>(g: Group<T>, a: T, x: T)
    requires IsAbelian(g)
    ensures g.add(g.Sub(a, x), x) == a && g.Sub(g.add(a, x), x) == a
  {
    assert Associates(g, a, g.neg(x), x) && Commutes(g, g.neg(x), x) && Neutral(g, x) && Neutral(g, a);
    assert Associates(g, a, x, g.neg(x));
  }

  lemma TimesNext<T(!new)>(g: Group<T>, n: int, x: T)
    requires IsAbelian(g)
    ensures Times(g, n + 1, x) == g.add(Times(g, n, x), x)
  {
    if n < 0 { Cancel(g, Times(g, n + 1, x), x); }
  }

  lemma {:induction false} TimesAdd<T(!new)>(g: Group<T>, m: int, n: int, x: T)
    requires IsAbelian(g)
    ensures Times(g, m + n, x) == g.add(Times(g, m, x), Times(g, n, x))
    decreases if n < 0 then 1 - n else n
  {
    var p, q := Times(g, m, x), Times(g, n, x);
    if n == 0 {
      assert Neutral(g, p);
    } else if n > 0 {
      TimesAdd(g, m, n - 1, x);
      TimesNext(g, m + n - 1, x);
      assert Associates(g, p, Times(g, n - 1, x), x);
    } else {
      TimesAdd(g, m, n + 1, x);
      TimesNext(g, m + n, x);
      Cancel(g, Times(g, m + n, x), x);
      assert Associates(g, p, Times(g, n + 1, x), g.neg(x));
    }
  }

  lemma TimesOne<T(!new)>(g: Group<T>, x: T)
    requires IsAbelian(g)
    ensures Times(g, 1, x) == x
  {
    assert Commutes(g, g.zero, x) && Neutral(g, x);
    TimesNext(g, 0, x);
  }

  lemma {:induction false} TimesNegate<T(!new)>(g: Group<T>, n: int, x: T)
    requires IsAbelian(g)
    ensures Times(g, -n, x) == g.neg(Times(g, n, x))
  {
    TimesAdd(g, -n, n, x);
    var p, q := Times(g, -n, x), Times(g, n, x);
    assert Associates(g, p, q, g.neg(q)) && Neutral(g, q) && Neutral(g, p);
    assert Commutes(g, g.zero, g.neg(q)) && Neutral(g, g.neg(q));
  }

  /** x * A + y * B. */
  ghost function Combine<T>(g: Group<T>, x: int, a: T, y: int, b: T): T {
    g.add(Times(g, x, a), Times(g, y, b))
  }

  lemma Interchange<T(!new)>(g: Group<T>, p: T, q: T, r: T, s: T)
    requires IsAbelian(g)
    ensures g.add(g.add(p, q), g.add(r, s)) == g.add(g.add(p, r), g.add(q, s))
  {
    assert Associates(g, p, q, g.add(r, s)) && Associates(g, q, r, s);
    assert Commutes(g, q, r) && Associates(g, r, q, s) && Associates(g, p, r, g.add(q, s));
  }

  lemma CombineAdd<T(!new)>(g: Group<T>, a: T, b: T, x: int, y: int, u: int, v: int)
    requires IsAbelian(g)
    ensures g.add(Combine(g, x, a, y, b), Combine(g, u, a, v, b)) == Combine(g, x + u, a, y + v, b)
  {
    Interchange(g, Times(g, x, a), Times(g, y, b), Times(g, u, a), Times(g, v, b));
    TimesAdd(g, x, u, a);
    TimesAdd(g, y, v, b);
  }

  lemma CombineSub<T(!new)>(g: Group<T>, a: T, b: T, x: int, y: int, u: int, v: int)
    requires IsAbelian(g)
    ensures g.Sub(Combine(g, x, a, y, b), Combine(g, u, a, v, b)) == Combine(g, x - u, a, y - v, b)
  {
    var p, q := Combine(g, x - u, a, y - v, b), Combine(g, u, a, v, b);
    CombineAdd(g, a, b, x - u, y - v, u, v);
    Cancel(g, p, q);
  }

  /** `c` maps pairs of integers into the group and turns sums into sums. */
  ghost predicate LinearAt<T>(g: Group<T>, c: (int, int) -> T, x: int, y: int, u: int, v: int) {
    g.add(c(x, y), c(u, v)) == c(x + u, y + v) && g.Sub(c(x, y), c(u, v)) == c(x - u, y - v)
  }

  ghost predicate IsLinear<T>(g: Group<T>, c: (int, int) -> T) {
    c(0, 0) == g.zero && forall x, y, u, v {:trigger LinearAt(g, c, x, y, u, v)} :: LinearAt(g, c, x, y, u, v)
  }

  lemma CombineIsLinear<T(!new)>(g: Group<T>, a: T, b: T, c: (int, int) -> T)
    requires IsAbelian(g) && forall x, y {:trigger c(x, y)} :: c(x, y) == Combine(g, x, a, y, b)
    ensures IsLinear(g, c) && c(1, 0) == a && c(0, 1) == b
  {
    forall x, y, u, v {:trigger LinearAt(g, c, x, y, u, v)} ensures LinearAt(g, c, x, y, u, v) {
      CombineAdd(g, a, b, x, y, u, v);
      CombineSub(g, a, b, x, y, u, v);
    }
    assert Neutral(g, g.zero);
    TimesOne(g, a);
    TimesOne(g, b);
    assert Neutral(g, a) && Neutral(g, b) && Commutes(g, g.zero, b);
  }
}
