/** The two scalar multiplications, over any abelian group. */
module ScalarMult {
  import opened Group
  import opened MachineInts
  import opened Slide

  // `c(x, y)` below stands for x * A + y * B.

  /** `t` holds A, 3A, 5A, ..., 15A. */
  ghost predicate IsTableOfA<T>(c: (int, int) -> T, t: seq<T>) {
    |t| == 8 && forall k {:trigger t[k]} :: 0 <= k < 8 ==> t[k] == c(2 * k + 1, 0)
  }

  /** `t` holds B, 3B, 5B, ..., 15B. */
  ghost predicate IsTableOfB<T>(c: (int, int) -> T, t: seq<T>) {
    |t| == 8 && forall k {:trigger t[k]} :: 0 <= k < 8 ==> t[k] == c(0, 2 * k + 1)
  }

  method OddMultiples<T(!new)>(g: Group<T>, a: T, ghost c: (int, int) -> T) returns (t: seq<T>)
    requires IsLinear(g, c) && a == c(1, 0)
    ensures IsTableOfA(c, t)
  {
    t := [a];
    var a2 := g.Double(a);
    assert LinearAt(g, c, 1, 0, 1, 0);
    for i := 0 to 7
      invariant |t| == i + 1 && forall k {:trigger t[k]} :: 0 <= k <= i ==> t[k] == c(2 * k + 1, 0)
    {
      assert LinearAt(g, c, 2, 0, 2 * i + 1, 0);
      t := t + [g.add(a2, t[i])];
    }
  }

  ghost predicate IsDigit(d: int) {
    d == 0 || (d % 2 == 1 && -15 <= d <= 15)
  }

  ghost predicate AreDigits(r: seq<int>) {
    forall k {:trigger r[k]} :: 0 <= k < |r| ==> IsDigit(r[k])
  }

  lemma SpreadDigits(r: seq<int>)
    requires Spread(r, |r|)
    ensures AreDigits(r)
  {
  }

  /** One round: doubles, and adds the next digit of either scalar. */
  method AddDigits<T(!new)>(g: Group<T>, r: T, ai: seq<T>, da: int8, bi: seq<T>, db: int8,
                            ghost c: (int, int) -> T, ghost x: int, ghost y: int) returns (t: T)
    requires IsLinear(g, c) && r == c(x, y) && IsTableOfA(c, ai) && IsTableOfB(c, bi) && IsDigit(da) && IsDigit(db)
    ensures t == c(2 * x + da, 2 * y + db)
  {
    t := g.Double(r);
    assert LinearAt(g, c, x, y, x, y);
    if da > 0 {
      assert LinearAt(g, c, 2 * x, 2 * y, da, 0);
      t := g.add(t, ai[da / 2]);
    } else if da < 0 {
      assert LinearAt(g, c, 2 * x, 2 * y, -da, 0);
      t := g.Sub(t, ai[-da / 2]);
    }
    assert t == c(2 * x + da, 2 * y);
    if db > 0 {
      assert LinearAt(g, c, 2 * x + da, 2 * y, 0, db);
      t := g.add(t, bi[db / 2]);
    } else if db < 0 {
      assert LinearAt(g, c, 2 * x + da, 2 * y, 0, -db);
      t := g.Sub(t, bi[-db / 2]);
    }
  }

  lemma DropDigit(r: seq<int>, i: nat)
    requires i < |r|
    ensures Binary(r[i..]) == r[i] + 2 * Binary(r[i + 1..])
  {
    assert r[i..][1..] == r[i + 1..];
  }

  /** The highest position at which one of the two has a digit, or -1. */
  method HighestDigit(a: array<int8>, b: array<int8>) returns (i: int)
    requires a.Length == b.Length == 256
    ensures -1 <= i <= 255 && Binary(a[..][i + 1..]) == 0 && Binary(b[..][i + 1..]) == 0
  {
    i := 255;
    while i >= 0 && a[i] == 0 && b[i] == 0
      invariant -1 <= i <= 255
      invariant Binary(a[..][i + 1..]) == 0 && Binary(b[..][i + 1..]) == 0
    {
      DropDigit(a[..], i);
      DropDigit(b[..], i);
      i := i - 1;
    }
  }

  /** From the highest digits down. */
  method AddAllDigits<T(!new)>(g: Group<T>, ai: seq<T>, a: array<int8>, bi: seq<T>, b: array<int8>, ghost c: (int, int) -> T)
    returns (r: T)
    requires IsLinear(g, c) && IsTableOfA(c, ai) && IsTableOfB(c, bi)
    requires a.Length == b.Length == 256 && AreDigits(a[..]) && AreDigits(b[..])
    ensures r == c(Binary(a[..]), Binary(b[..]))
  {
    r := g.zero;
    ghost var sa, sb := a[..], b[..];
    var i := HighestDigit(a, b);
    ghost var x: int, y: int := 0, 0;
    while i >= 0
      invariant -1 <= i <= 255
      invariant x == Binary(sa[i + 1..]) && y == Binary(sb[i + 1..])
      invariant r == c(x, y)
    {
      DropDigit(sa, i);
      DropDigit(sb, i);
      r := AddDigits(g, r, ai, a[i], bi, b[i], c, x, y);
      x, y := 2 * x + a[i], 2 * y + b[i];
      i := i - 1;
    }
    WholeSlice(sa);
    WholeSlice(sb);
  }

  lemma WholeSlice(s: seq<int>)
    ensures s[0..] == s
  {
  }

  /** r = a * A + b * B, given the odd multiples of B. */
  method GeDoubleScalarMultVartime<T(!new)>(g: Group<T>, a: array<byte>, pointA: T, b: array<byte>, bi: seq<T>, ghost pointB: T)
    returns (r: T)
    requires IsAbelian(g) && a.Length == b.Length == 32 && a[31] <= 127 && b[31] <= 127
    requires |bi| == 8 && forall k :: 0 <= k < 8 ==> bi[k] == Times(g, 2 * k + 1, pointB)
    ensures r == g.add(Times(g, LittleEndian(a[..]), pointA), Times(g, LittleEndian(b[..]), pointB))
  {
    ghost var c := (x: int, y: int) => Combine(g, x, pointA, y, pointB);
    CombineIsLinear(g, pointA, pointB, c);
    forall k | 0 <= k < 8 ensures bi[k] == c(0, 2 * k + 1) {
      assert Commutes(g, g.zero, bi[k]) && Neutral(g, bi[k]);
    }
    var aSlide, bSlide := new int8[256], new int8[256];
    Slide.Slide(aSlide, a);
    Slide.Slide(bSlide, b);
    SpreadDigits(aSlide[..]);
    SpreadDigits(bSlide[..]);
    var ai := OddMultiples(g, pointA, c);
    r := AddAllDigits(g, ai, aSlide, bi, bSlide, c);
  }
}
