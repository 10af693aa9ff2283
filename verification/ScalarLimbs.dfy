/**
  Arithmetic modulo the order of the Ed25519 base point (crypto/edwards25519/edwards25519.go).
  The twenty-four locals s0 ... s23 are one sequence here, and runs of unrolled statements that
  differ only in their index are loops over that index, in the order of the source.
 */
module ScalarLimbs {
  import opened Arith
  import opened MachineInts

  /** The order of the base point. */
  const L: int := 0x1000_0000_0000_0000_0000_0000_0000_0000_14DE_F9DE_A2F7_9CD6_5812_631A_5CF5_D3ED

  ghost function Pow(n: nat): (p: int)
    ensures p > 0
  {
    if n == 0 then 1 else 0x20_0000 * Pow(n - 1)
  }

  /** The number that limbs of 21 bits each, least significant first, stand for. */
  ghost function Eval(s: seq<int>): int
  {
    if s == [] then 0 else s[0] + 0x20_0000 * Eval(s[1..])
  }

  ghost predicate Bounded(s: seq<int>, lo: nat, hi: nat, m: int)
    requires hi <= |s|
  {
    forall k {:trigger s[k]} :: lo <= k < hi ==> -m <= s[k] <= m
  }

  lemma {:induction false} EvalSplit(s: seq<int>, i: nat)
    requires i <= |s|
    ensures Eval(s) == Eval(s[..i]) + Pow(i) * Eval(s[i..])
  {
    if i == 0 {
      assert s[0..] == s;
    } else {
      EvalSplit(s[1..], i - 1);
      assert s[1..][..i - 1] == s[..i][1..];
      assert s[1..][i - 1..] == s[i..];
      var p, x := Pow(i - 1), Eval(s[i..]);
      assert 0x20_0000 * (p * x) == 0x20_0000 * p * x;
    }
  }

  lemma {:induction false} EvalZeros(s: seq<int>)
    requires forall k :: 0 <= k < |s| ==> s[k] == 0
    ensures Eval(s) == 0
  {
    if s != [] { EvalZeros(s[1..]); }
  }

  lemma {:induction false} EvalBound(s: seq<int>, m: int)
    requires s != [] && Bounded(s, 0, |s|, m) && m >= 0
    ensures -(m * (2 * Pow(|s| - 1) - 1)) <= Eval(s) <= m * (2 * Pow(|s| - 1) - 1)
  {
    if |s| > 1 {
      var p := Pow(|s| - 2);
      EvalBound(s[1..], m);
      assert 0x20_0000 * (m * (2 * p - 1)) == m * (2 * (0x20_0000 * p) - 0x20_0000);
      assert m * (2 * (0x20_0000 * p) - 0x20_0000) + m <= m * (2 * (0x20_0000 * p) - 1);
    } else {
      assert Eval(s[1..]) == 0;
    }
  }

  /** Limbs that are all proper digits stand for a number below the next power of the radix. */
  lemma {:induction false} EvalDigits(s: seq<int>)
    requires forall k :: 0 <= k < |s| ==> 0 <= s[k] < 0x20_0000
    ensures 0 <= Eval(s) < Pow(|s|)
  {
    if s != [] { EvalDigits(s[1..]); }
  }

  lemma PowValues()
    ensures Pow(4) == 0x10_0000_0000_0000_0000_0000
    ensures Pow(5) == 0x200_0000_0000_0000_0000_0000_0000
    ensures Pow(6) == 0x4000_0000_0000_0000_0000_0000_0000_0000
    ensures Pow(11) == 0x80_0000_0000_0000_0000_0000_0000_0000_0000_0000_0000_0000_0000_0000_0000
    ensures Pow(12) == 0x1000_0000_0000_0000_0000_0000_0000_0000_0000_0000_0000_0000_0000_0000_0000_0000
  {
    assert Pow(4) == 0x20_0000 * (0x20_0000 * Pow(2));
    assert Pow(8) == 0x20_0000 * (0x20_0000 * Pow(6));
    assert Pow(10) == 0x20_0000 * (0x20_0000 * Pow(8));
  }

  /** 2^252 minus the order, in signed limbs, and -1 for the limb folded away. */
  ghost function FoldLimb(n: int): int
  {
    match n
    case 0 => 666643
    case 1 => 470296
    case 2 => 654183
    case 3 => -997805
    case 4 => 136657
    case 5 => -683901
    case 12 => -1
    case _ => 0
  }

  /** Adding `x` times the constant `k` at position `i` adds that multiple of its value. */
  lemma {:induction false} EvalWindow(r: seq<int>, s: seq<int>, x: int, i: nat, k: seq<int>)
    requires |r| == |s| && i + |k| <= |s|
    requires forall n :: 0 <= n < |s| ==> r[n] == s[n] + if i <= n < i + |k| then x * k[n - i] else 0
    ensures Eval(r) == Eval(s) + x * Pow(i) * Eval(k)
  {
    if i > 0 {
      EvalWindow(r[1..], s[1..], x, i - 1, k);
      Regroup(x, Pow(i - 1), Eval(k));
    } else if k == [] {
      assert r == s;
    } else {
      EvalWindow(r[1..], s[1..], x, 0, k[1..]);
      Regroup(x, 1, Eval(k[1..]));
    }
  }

  lemma Regroup(x: int, p: int, e: int)
    ensures 0x20_0000 * (x * p * e) == x * (0x20_0000 * p) * e
    ensures 0x20_0000 * (x * p * e) == x * p * (0x20_0000 * e)
  {
  }

  ghost function FoldLimbs(n: nat): (k: seq<int>)
    requires n <= 13
    ensures |k| == 13 - n && forall m :: 0 <= m < |k| ==> k[m] == FoldLimb(n + m)
    decreases 13 - n
  {
    if n == 13 then [] else [FoldLimb(n)] + FoldLimbs(n + 1)
  }

  ghost function FoldValue(n: nat): int
    requires n <= 13
    decreases 13 - n
  {
    if n == 13 then 0 else FoldLimb(n) + 0x20_0000 * FoldValue(n + 1)
  }

  lemma {:induction false} FoldConstant(n: nat)
    requires n <= 13
    ensures Eval(FoldLimbs(n)) == FoldValue(n)
    ensures FoldValue(0) == -L
    decreases 13 - n
  {
    if n < 13 {
      assert FoldLimbs(n)[1..] == FoldLimbs(n + 1);
      FoldConstant(n + 1);
    } else {
      assert FoldValue(6) == -0x4000_0000_0000_0000_0000_0000_0000_0000;
    }
  }

  ghost predicate Congruent(x: int, y: int) {
    (x - y) % L == 0
  }

  /** `r` is `s` with limb `j` replaced by its equivalent further down. */
  ghost predicate IsFold(r: seq<int>, s: seq<int>, j: nat)
    requires 12 <= j < |s|
  {
    |r| == |s| && forall n {:trigger r[n]} :: 0 <= n < |s| ==> r[n] == s[n] + s[j] * FoldLimb(n - (j - 12))
  }

  lemma MultipleOfOrder(x: int, y: int, p: int, e: int)
    requires x == y + p * e && e == -L
    ensures Congruent(x, y)
    ensures p == 0 ==> x == y
    ensures p == -1 ==> x == y + L
  {
    assert p * e == -p * L;
  }

  /** A fold changes the value by a multiple of the order. */
  lemma FoldEval(r: seq<int>, s: seq<int>, j: nat)
    requires 12 <= j < |s| && IsFold(r, s, j)
    ensures Congruent(Eval(r), Eval(s))
    ensures j == 12 && s[j] == 0 ==> Eval(r) == Eval(s)
    ensures j == 12 && s[j] == -1 ==> Eval(r) == Eval(s) + L
  {
    hide Eval;
    var k := FoldLimbs(0);
    EvalWindow(r, s, s[j], j - 12, k);
    FoldConstant(0);
    var p := s[j] * Pow(j - 12);
    assert j == 12 ==> p == s[j] by { assert Pow(0) == 1; }
    MultipleOfOrder(Eval(r), Eval(s), p, Eval(k));
  }

  lemma CarryEval(r: seq<int>, s: seq<int>, i: nat, c: int)
    requires i + 1 < |s| == |r|
    requires r[i] == s[i] - c * 0x20_0000 && r[i + 1] == s[i + 1] + c
    requires forall k :: 0 <= k < |s| && k != i && k != i + 1 ==> r[k] == s[k]
    ensures Eval(r) == Eval(s)
  {
    hide Eval;
    var k := [-0x20_0000, 1];
    forall n | 0 <= n < |s| ensures r[n] == s[n] + if i <= n < i + |k| then c * k[n - i] else 0 {
    }
    EvalWindow(r, s, c, i, k);
    CarryIsZero();
  }

  lemma CarryIsZero()
    ensures Eval([-0x20_0000, 1]) == 0
  {
    assert [-0x20_0000, 1][1..] == [1] && Eval([1]) == 1;
  }

  /** One carry with rounding: leaves limb `i` within half a radix of zero. */
  method CarryRounded(s: seq<int64>, i: nat) returns (r: seq<int64>)
    requires i + 1 < |s|
    requires -0x4000_0000_0000_0000 <= s[i] <= 0x4000_0000_0000_0000
    requires -0x4000_0000_0000_0000 <= s[i + 1] <= 0x4000_0000_0000_0000
    ensures |r| == |s| && Eval(r) == Eval(s)
    ensures forall k :: 0 <= k < |s| && k != i && k != i + 1 ==> r[k] == s[k]
    ensures -0x10_0000 <= r[i] < 0x10_0000
    ensures r[i + 1] == s[i + 1] + (s[i] + 0x10_0000) / 0x20_0000
  {
    var c: int64 := (s[i] + 0x10_0000) / 0x20_0000;
    r := s[i + 1 := s[i + 1] + c];
    r := r[i := r[i] - c * 0x20_0000];
    CarryEval(r, s, i, c);
  }

  /** One carry towards minus infinity: leaves limb `i` a proper digit. */
  method CarryFloor(s: seq<int64>, i: nat) returns (r: seq<int64>)
    requires i + 1 < |s|
    requires -0x4000_0000_0000_0000 <= s[i + 1] <= 0x4000_0000_0000_0000
    ensures |r| == |s| && Eval(r) == Eval(s)
    ensures forall k :: 0 <= k < |s| && k != i && k != i + 1 ==> r[k] == s[k]
    ensures 0 <= r[i] < 0x20_0000
    ensures r[i + 1] == s[i + 1] + s[i] / 0x20_0000
  {
    var c: int64 := s[i] / 0x20_0000;
    r := s[i + 1 := s[i + 1] + c];
    r := r[i := r[i] - c * 0x20_0000];
    CarryEval(r, s, i, c);
  }

  /** Replaces limb `j` by its equivalent in the limbs `j - 12` to `j - 7`. */
  method Fold(s: seq<int64>, j: nat, ghost t: int) returns (r: seq<int64>)
    requires 12 <= j < |s|
    requires 0 <= t <= 0x100_0000_0000 && -t <= s[j] <= t
    requires Bounded(s, j - 12, j - 6, 0x4000_0000_0000_0000)
    ensures |r| == |s| && Congruent(Eval(r), Eval(s))
    ensures j == 12 && s[j] == 0 ==> Eval(r) == Eval(s)
    ensures j == 12 && s[j] == -1 ==> Eval(r) == Eval(s) + L
    ensures r[j] == 0
    ensures forall n :: 0 <= n < |s| && n != j ==>
      if j - 12 <= n < j - 6 then -0x10_0000 * t <= r[n] - s[n] <= 0x10_0000 * t else r[n] == s[n]
  {
    r := s[j - 12 := s[j - 12] + s[j] * 666643];
    r := r[j - 11 := r[j - 11] + s[j] * 470296];
    r := r[j - 10 := r[j - 10] + s[j] * 654183];
    r := r[j - 9 := r[j - 9] - s[j] * 997805];
    r := r[j - 8 := r[j - 8] + s[j] * 136657];
    r := r[j - 7 := r[j - 7] - s[j] * 683901];
    r := r[j := 0];
    FoldEval(r, s, j);
  }

  /** Rounded carries out of the limbs `lo`, `lo + 2`, ..., `hi`. */
  method CarryEveryOther(s: seq<int64>, lo: nat, hi: nat, ghost m: int) returns (r: seq<int64>)
    requires lo <= hi && (hi - lo) % 2 == 0 && hi + 1 < |s|
    requires 0 <= m <= 0x2000_0000_0000_0000 && Bounded(s, lo, hi + 2, m)
    ensures |r| == |s| && Eval(r) == Eval(s)
    ensures forall k :: 0 <= k < |s| && !(lo <= k <= hi + 1) ==> r[k] == s[k]
    ensures forall k :: lo <= k <= hi + 1 ==>
      if (k - lo) % 2 == 0 then -0x10_0000 <= r[k] <= 0x10_0000 else -m / 0x20_0000 <= r[k] - s[k] <= m / 0x20_0000 + 1
  {
    r := s;
    var i := lo;
    while i <= hi
      invariant lo <= i <= hi + 2 && (i - lo) % 2 == 0
      invariant |r| == |s| && Eval(r) == Eval(s)
      invariant forall k :: 0 <= k < |s| && !(lo <= k < i) ==> r[k] == s[k]
      invariant forall k :: lo <= k < i ==>
        if (k - lo) % 2 == 0 then -0x10_0000 <= r[k] <= 0x10_0000 else -m / 0x20_0000 <= r[k] - s[k] <= m / 0x20_0000 + 1
    {
      r := CarryRounded(r, i);
      i := i + 2;
    }
  }

  ghost function Copies(n: int, w: int): int {
    n * w
  }

  lemma CopiesOf(n: int, w: int)
    requires 0 <= n < 6 && w >= 0
    ensures Copies(0, w) == 0 && Copies(n + 1, w) == Copies(n, w) + w && 0 <= Copies(n, w) && Copies(n + 1, w) <= 6 * w
  {
    MulMono(n + 1, 6, w);
    MulMono(0, n, w);
  }

  /** Folds limbs `hi`, `hi - 1`, ..., `lo`, which are small against the limbs they fold into. */
  method FoldDown(s: seq<int64>, hi: nat, lo: nat, ghost m: int, ghost t: int) returns (r: seq<int64>)
    requires 12 <= lo <= hi < |s| && hi - lo <= 5
    requires 0 <= t <= 0x40_0000_0000 && 0 <= m <= 0x2000_0000_0000_0000
    requires Bounded(s, 0, lo, m) && Bounded(s, lo, hi + 1, t)
    ensures |r| == |s| && Congruent(Eval(r), Eval(s))
    ensures forall k :: hi < k < |s| ==> r[k] == s[k]
    ensures forall k :: lo <= k <= hi ==> r[k] == 0
    ensures Bounded(r, 0, lo, m + 0x60_0000 * t)
    ensures forall k :: 0 <= k < lo - 12 || hi - 6 <= k < lo ==> r[k] == s[k]
  {
    hide Eval, Copies;
    r := s;
    ghost var w := 0x10_0000 * t;
    CopiesOf(0, w);
    var j := hi + 1;
    while j > lo
      invariant lo <= j <= hi + 1
      invariant |r| == |s| && Congruent(Eval(r), Eval(s))
      invariant forall k :: lo <= k < j || hi < k < |s| ==> r[k] == s[k]
      invariant forall k :: j <= k <= hi ==> r[k] == 0
      invariant Copies(hi + 1 - j, w) <= 6 * w && Bounded(r, 0, lo, m + Copies(hi + 1 - j, w))
      invariant forall k :: 0 <= k < j - 12 || hi - 6 <= k < lo ==> r[k] == s[k]
    {
      j := j - 1;
      CopiesOf(hi - j, w);
      r := Fold(r, j, t);
    }
  }

  /** Floor carries out of the limbs 0 to `n - 1`. */
  method CarryDigits(s: seq<int64>, n: nat) returns (r: seq<int64>)
    requires n < |s| && Bounded(s, 0, n + 1, 0x2000_0000_0000_0000)
    ensures |r| == |s| && Eval(r) == Eval(s)
    ensures forall k :: 0 <= k < n ==> 0 <= r[k] < 0x20_0000
    ensures forall k :: n < k < |s| ==> r[k] == s[k]
  {
    r := s;
    for i := 0 to n
      invariant |r| == |s| && Eval(r) == Eval(s)
      invariant forall k :: 0 <= k < i ==> 0 <= r[k] < 0x20_0000
      invariant -0x3000_0000_0000_0000 <= r[i] <= 0x3000_0000_0000_0000
      invariant forall k :: i < k < |s| ==> r[k] == s[k]
    {
      r := CarryFloor(r, i);
    }
  }

  /** Limbs above position `n` that are zero do not count. */
  lemma EvalTop(s: seq<int>, n: nat)
    requires n < |s| && forall k :: n < k < |s| ==> s[k] == 0
    ensures Eval(s) == Eval(s[..n]) + Pow(n) * s[n]
  {
    hide Pow, Eval;
    EvalSplit(s, n);
    OneLimb(s[n..]);
  }

  lemma OneLimb(high: seq<int>)
    requires high != [] && forall k :: 0 < k < |high| ==> high[k] == 0
    ensures Eval(high) == high[0]
  {
    EvalZeros(high[1..]);
  }

  /** The value before the last two folds: within three quarters of 2^252. */
  lemma AlmostReduced(s: seq<int>)
    requires |s| > 12 && forall k :: 12 <= k < |s| ==> s[k] == 0
    requires Bounded(s, 0, 6, 0x1000_0000_0000_0000) && Bounded(s, 6, 11, 0x80_0000_0000)
    requires -0x10_0000 <= s[11] <= 0x10_0000
    ensures -Pow(12) < Eval(s) < Pow(12)
    ensures -L < Eval(s) < L
  {
    hide Eval, Pow;
    EvalTop(s, 11);
    var low := s[..11];
    EvalSplit(low, 6);
    EvalBound(low[..6], 0x1000_0000_0000_0000);
    EvalBound(low[6..], 0x80_0000_0000);
    PowValues();
  }

  /** For the last fold: above a digit string whose value is negative there is a borrow of 1, else nothing. */
  lemma Borrow(s: seq<int>)
    requires |s| > 12 && forall k :: 12 < k < |s| ==> s[k] == 0
    requires forall k :: 0 <= k < 12 ==> 0 <= s[k] < 0x20_0000
    requires -Pow(12) < Eval(s) < Pow(12) && -L < Eval(s) < L
    ensures s[12] == if Eval(s) < 0 then -1 else 0
  {
    hide Eval, Pow;
    EvalTop(s, 12);
    EvalDigits(s[..12]);
    PowValues();
  }

  lemma TopDigit(s: seq<int>)
    requires |s| > 12 && forall k :: 12 <= k < |s| ==> s[k] == 0
    requires forall k :: 0 <= k < 11 ==> 0 <= s[k] < 0x20_0000
    requires 0 <= Eval(s) < L
    ensures 0 <= s[11] <= 0x20_0000
    ensures Eval(s[..12]) == Eval(s)
  {
    EvalTop(s, 11);
    EvalDigits(s[..11]);
    PowValues();
    EvalSplit(s, 12);
    EvalZeros(s[12..]);
  }

  lemma CongruentTrans(x: int, y: int, z: int)
    requires Congruent(x, y) && Congruent(y, z)
    ensures Congruent(x, z)
  {
  }

  method ShrinkHigh(s: seq<int64>) returns (r: seq<int64>)
    requires |s| == 24 && Bounded(s, 0, 24, 0x8000_0000)
    ensures |r| == 24 && Congruent(Eval(r), Eval(s))
    ensures forall k :: 18 <= k < 24 ==> r[k] == 0
    ensures Bounded(r, 0, 12, 0x80_0000_0000_0000) && Bounded(r, 12, 18, 0x8_0000_0000)
  {
    hide Eval;
    r := FoldDown(s, 23, 18, 0x8000_0000, 0x8000_0000);
    r := CarryEveryOther(r, 6, 16, 0x40_0000_0000_0000);
    r := CarryEveryOther(r, 7, 15, 0x80_0000_0000_0000);
  }

  /** From full-size limbs down to a value within 2^252 of zero. */
  method Shrink(s: seq<int64>) returns (r: seq<int64>)
    requires |s| == 24 && Bounded(s, 0, 24, 0x8000_0000)
    ensures |r| == 24 && Congruent(Eval(r), Eval(s))
    ensures forall k :: 12 <= k < 24 ==> r[k] == 0
    ensures Bounded(r, 0, 12, 0x1000_0000_0000_0000)
    ensures -Pow(12) < Eval(r) < Pow(12) && -L < Eval(r) < L
  {
    hide Eval, Pow;
    r := ShrinkHigh(s);
    ghost var e := Eval(r);
    r := FoldDown(r, 17, 12, 0x80_0000_0000_0000, 0x8_0000_0000);
    CongruentTrans(Eval(r), e, Eval(s));
    r := CarryEveryOther(r, 0, 10, 0x400_0000_0000_0000);
    r := CarryEveryOther(r, 1, 11, 0x800_0000_0000_0000);
    e := Eval(r);
    r := Fold(r, 12, 0x80_0000_0000);
    CongruentTrans(Eval(r), e, Eval(s));
    AlmostReduced(r);
  }

  /** The common second half of ScMulAdd and ScReduce. */
  method ReduceLimbs(s: seq<int64>) returns (r: seq<int64>)
    requires |s| == 24 && Bounded(s, 0, 24, 0x8000_0000)
    ensures |r| == 12 && (forall k :: 0 <= k < 11 ==> 0 <= r[k] < 0x20_0000) && 0 <= r[11] <= 0x20_0000
    ensures Eval(r) == Eval(s) % L
  {
    hide Eval, Pow;
    r := Shrink(s);
    ghost var e := Eval(r);
    r := CarryDigits(r, 12);
    Borrow(r);
    r := Fold(r, 12, 1);
    r := CarryDigits(r, 11);
    TopDigit(r);
    CongruentTrans(Eval(r), e, Eval(s));
    Residue(Eval(r), Eval(s));
    r := r[..12];
  }

  lemma Residue(x: int, y: int)
    requires 0 <= x < L && Congruent(x, y)
    ensures x == y % L
  {
  }
}
