/** Products and squares of field elements. */
module FieldMul {
  import opened Arith
  import opened MachineInts
  import opened Field

  /** The factor with which f[i] * g[k - i] enters limb `k`: limbs that wrap around count 19 times, two odd limbs twice. */
  function Factor(i: int, k: int): int {
    (if i % 2 == 1 && k % 2 == 0 then 2 else 1) * (if i <= k then 1 else 19)
  }

  /** Limb `k` of `g` times the unit of limb `i`. */
  function RowLimb(g: seq<int>, i: nat, k: nat): int
    requires |g| == 10 && i < 10 && k < 10
  {
    Factor(i, k) * g[if i <= k then k - i else k - i + 10]
  }

  ghost function Row(g: seq<int>, i: nat): (r: seq<int>)
    requires |g| == 10 && i < 10
    ensures |r| == 10 && forall k :: 0 <= k < 10 ==> r[k] == RowLimb(g, i, k)
  {
    seq(10, k requires 0 <= k < 10 => RowLimb(g, i, k))
  }

  function Weight(i: nat): int
    requires i < 10
  {
    match i
    case 0 => 1
    case 1 => 0x400_0000
    case 2 => 0x8_0000_0000_0000
    case 3 => 0x2000_0000_0000_0000_0000
    case 4 => 0x40_0000_0000_0000_0000_0000_0000
    case 5 => 0x1_0000_0000_0000_0000_0000_0000_0000_0000
    case 6 => 0x200_0000_0000_0000_0000_0000_0000_0000_0000_0000
    case 7 => 0x8_0000_0000_0000_0000_0000_0000_0000_0000_0000_0000_0000
    case 8 => 0x1000_0000_0000_0000_0000_0000_0000_0000_0000_0000_0000_0000_0000
    case 9 => 0x40_0000_0000_0000_0000_0000_0000_0000_0000_0000_0000_0000_0000_0000_0000
  }

  /** One limb up, from an even limb to an odd one: a factor of 2^26. */
  lemma ShiftEven(r: seq<int>, s: seq<int>)
    requires |r| == |s| == 10 && r[0] == 38 * s[9]
    requires forall k :: 0 < k < 10 ==> r[k] == (if k % 2 == 0 then 2 else 1) * s[k - 1]
    ensures Congruent(Value(r), 0x400_0000 * Value(s))
  {
    hide Value;
    Expand(r);
    Expand(s);
    WrapAround(Value(r) - 0x400_0000 * Value(s), -2 * s[9]);
  }

  /** One limb up, from an odd limb to an even one: a factor of 2^25. */
  lemma ShiftOdd(r: seq<int>, s: seq<int>)
    requires |r| == |s| == 10 && r[0] == 19 * s[9]
    requires forall k :: 0 < k < 10 ==> (if k % 2 == 0 then 1 else 2) * r[k] == s[k - 1]
    ensures Congruent(Value(r), 0x200_0000 * Value(s))
  {
    hide Value;
    Expand(r);
    Expand(s);
    WrapAround(Value(r) - 0x200_0000 * Value(s), -s[9]);
  }

  lemma RowShift(g: seq<int>, i: nat)
    requires |g| == 10 && 0 < i < 10
    ensures Congruent(Value(Row(g, i)), (if i % 2 == 1 then 0x400_0000 else 0x200_0000) * Value(Row(g, i - 1)))
  {
    if i % 2 == 1 { ShiftEven(Row(g, i), Row(g, i - 1)); } else { ShiftOdd(Row(g, i), Row(g, i - 1)); }
  }

  /** A row has the value of `g` times the weight of limb `i`, modulo p. */
  lemma {:induction false} RowValue(g: seq<int>, i: nat)
    requires |g| == 10 && i < 10
    ensures Congruent(Value(Row(g, i)), Weight(i) * Value(g))
  {
    if i == 0 {
      assert Row(g, 0) == g;
    } else {
      RowValue(g, i - 1);
      RowShift(g, i);
      Scaled(Value(Row(g, i)), Value(Row(g, i - 1)), Value(g), Weight(i - 1), i);
    }
  }

  lemma Scaled(x: int, y: int, g: int, w: int, i: nat)
    requires 0 < i < 10 && w == Weight(i - 1) && Congruent(y, w * g)
    requires Congruent(x, (if i % 2 == 1 then 0x400_0000 else 0x200_0000) * y)
    ensures Congruent(x, Weight(i) * g)
  {
    hide Weight, Congruent;
    var u := if i % 2 == 1 then 0x400_0000 else 0x200_0000;
    WeightStep(i);
    MulAssoc(u, w, Weight(i), g);
    CongruentMul(y, w * g, u);
    CongruentTrans(x, u * y, u * (w * g));
  }

  lemma WeightStep(i: nat)
    requires 0 < i < 10
    ensures Weight(i) == (if i % 2 == 1 then 0x400_0000 else 0x200_0000) * Weight(i - 1)
  {
  }

  /** The product of limb `i` of `f` with the limb of `g` that brings it to position `k`. */
  function Term(f: seq<int32>, g: seq<int32>, i: nat, k: nat): (t: int64)
    requires Loose(f) && Loose(g) && i < 10 && k < 10
    ensures t == f[i] * RowLimb(g, i, k) && -0x180_0000_0000_0000 <= t <= 0x180_0000_0000_0000
  {
    var a: int32 := if i % 2 == 1 && k % 2 == 0 then 2 * f[i] else f[i];
    var b: int32 := if i <= k then g[k - i] else 19 * g[k - i + 10];
    MulBound(a, b, 0x466_6666, 0x5399_9992);
    a * b
  }

  /** The first `n` summands of limb `k` of a product. */
  function Column(f: seq<int32>, g: seq<int32>, k: nat, n: nat): (c: int64)
    requires Loose(f) && Loose(g) && k < 10 && n <= 10
    ensures -(n * 0x180_0000_0000_0000) <= c <= n * 0x180_0000_0000_0000
  {
    if n == 0 then 0 else Column(f, g, k, n - 1) + Term(f, g, n - 1, k)
  }

  ghost function Columns(f: seq<int32>, g: seq<int32>, n: nat): (c: seq<int>)
    requires Loose(f) && Loose(g) && n <= 10
    ensures |c| == 10 && forall k :: 0 <= k < 10 ==> c[k] == Column(f, g, k, n)
  {
    seq(10, k requires 0 <= k < 10 => Column(f, g, k, n))
  }

  lemma {:induction false} AddScaled(r: seq<int>, s: seq<int>, x: int, t: seq<int>)
    requires |r| == |s| == |t| && forall k :: 0 <= k < |r| ==> r[k] == s[k] + x * t[k]
    ensures Value(r) == Value(s) + x * Value(t)
  {
    if r != [] {
      AddScaled(r[1..], s[1..], x, t[1..]);
      var u, v := if |r| % 2 == 0 then 0x400_0000 else 0x200_0000, Value(t[1..]);
      assert u * (x * v) == x * (u * v);
    }
  }

  ghost function Sum(f: seq<int>, n: nat): int
    requires |f| == 10 && n <= 10
  {
    if n == 0 then 0 else Sum(f, n - 1) + f[n - 1] * Weight(n - 1)
  }

  lemma CongruentMul(a: int, b: int, x: int)
    requires Congruent(a, b)
    ensures Congruent(x * a, x * b)
  {
    var q := (a - b) / P;
    MulAssoc(P, q, a - b, x);
    ModMultiple(q * x, P);
    assert x * a - x * b == (a - b) * x;
  }

  lemma AddScaledValue(m: int, x: int, w: int, g: int)
    ensures (m + x * w) * g == m * g + x * (w * g)
  {
    MulAssoc(x, w, x * w, g);
  }

  lemma CongruentSum(a: int, b: int, c: int, d: int)
    requires Congruent(a, b) && Congruent(c, d)
    ensures Congruent(a + c, b + d)
  {
  }

  /** The step of the next lemma, on plain numbers. */
  lemma AddRow(r: int, s: int, x: int, t: int, m: int, w: int, g: int)
    requires r == s + x * t && Congruent(s, m * g) && Congruent(t, w * g)
    ensures Congruent(r, (m + x * w) * g)
  {
    CongruentMul(t, w * g, x);
    AddScaledValue(m, x, w, g);
    CongruentSum(s, m * g, x * t, x * (w * g));
  }

  lemma {:induction false} ColumnsValue(f: seq<int32>, g: seq<int32>, n: nat)
    requires Loose(f) && Loose(g) && n <= 10
    ensures Congruent(Value(Columns(f, g, n)), Sum(f, n) * Value(g))
  {
    hide Value, RowLimb;
    if n == 0 {
      Expand(Columns(f, g, 0));
    } else {
      ColumnsValue(f, g, n - 1);
      AddScaled(Columns(f, g, n), Columns(f, g, n - 1), f[n - 1], Row(g, n - 1));
      RowValue(g, n - 1);
      AddRow(Value(Columns(f, g, n)), Value(Columns(f, g, n - 1)), f[n - 1], Value(Row(g, n - 1)),
             Sum(f, n - 1), Weight(n - 1), Value(g));
    }
  }

  lemma SumValue(f: seq<int>)
    requires |f| == 10
    ensures Sum(f, 10) == Value(f)
  {
    Expand(f);
    assert Sum(f, 1) == f[0];
    assert Sum(f, 2) == Sum(f, 1) + f[1] * Weight(1);
    assert Sum(f, 3) == Sum(f, 2) + f[2] * Weight(2);
    assert Sum(f, 4) == Sum(f, 3) + f[3] * Weight(3);
    assert Sum(f, 5) == Sum(f, 4) + f[4] * Weight(4);
    assert Sum(f, 6) == Sum(f, 5) + f[5] * Weight(5);
    assert Sum(f, 7) == Sum(f, 6) + f[6] * Weight(6);
    assert Sum(f, 8) == Sum(f, 7) + f[7] * Weight(7);
    assert Sum(f, 9) == Sum(f, 8) + f[8] * Weight(8);
    assert Sum(f, 10) == Sum(f, 9) + f[9] * Weight(9);
  }

  /** The ten sums of products, none of which overflows. */
  method Products(f: seq<int32>, g: seq<int32>) returns (h: seq<int64>)
    requires Loose(f) && Loose(g)
    ensures Within(h, 0x4000_0000_0000_0000, 0x4000_0000_0000_0000)
    ensures Congruent(Value(h), Value(f) * Value(g))
  {
    h := [Column(f, g, 0, 10), Column(f, g, 1, 10), Column(f, g, 2, 10), Column(f, g, 3, 10), Column(f, g, 4, 10),
          Column(f, g, 5, 10), Column(f, g, 6, 10), Column(f, g, 7, 10), Column(f, g, 8, 10), Column(f, g, 9, 10)];
    assert h == Columns(f, g, 10);
    ColumnsValue(f, g, 10);
    SumValue(f);
  }

  /** h = f * g; `h` may be `f` or `g`. */
  method FeMul(h: array<int32>, f: array<int32>, g: array<int32>)
    requires h.Length == f.Length == g.Length == 10
    requires Loose(f[..]) && Loose(g[..])
    modifies h
    ensures Tight(h[..])
    ensures Congruent(Value(h[..]), old(Value(f[..]) * Value(g[..])))
  {
    var t := Products(f[..], g[..]);
    ghost var v := Value(f[..]) * Value(g[..]);
    FeCombine(h, t);
    CongruentTrans(Value(h[..]), Value(t), v);
  }

  const FACTOR := 0x8CC_CCCC
  const SCALED := 0x5399_9992
  const PRODUCT := 0x300_0000_0000_0000

  /** A product within a square. */
  function Product(a: int64, b: int64): (p: int64)
    requires -FACTOR <= a <= FACTOR && -SCALED <= b <= SCALED
    ensures p == a * b && -PRODUCT <= p <= PRODUCT
  {
    MulBound(a, b, FACTOR, SCALED);
    a * b
  }

  predicate AreProducts(a: int, b: int, c: int, d: int, e: int) {
    -PRODUCT <= a <= PRODUCT && -PRODUCT <= b <= PRODUCT && -PRODUCT <= c <= PRODUCT && -PRODUCT <= d <= PRODUCT && -PRODUCT <= e <= PRODUCT
  }

  /** Sums of five and six products, added from the left. */
  function Five(a: int64, b: int64, c: int64, d: int64, e: int64): (s: int64)
    requires AreProducts(a, b, c, d, e)
    ensures s == a + b + c + d + e && -5 * PRODUCT <= s <= 5 * PRODUCT
  {
    var s2: int64 := a + b;
    var s3: int64 := s2 + c;
    var s4: int64 := s3 + d;
    s4 + e
  }

  function Six(a: int64, b: int64, c: int64, d: int64, e: int64, f: int64): (s: int64)
    requires AreProducts(a, b, c, d, e) && -PRODUCT <= f <= PRODUCT
    ensures s == a + b + c + d + e + f
  {
    Five(a, b, c, d, e) + f
  }

  /** The sums for a square, with each product of two different limbs formed once; none of them overflows. */
  function SquareColumn(f: seq<int32>, k: nat): (c: int64)
    requires Loose(f) && k < 10
  {
    var f0: int64, f1: int64, f2: int64, f3: int64, f4: int64 := f[0], f[1], f[2], f[3], f[4];
    var f5: int64, f6: int64, f7: int64, f8: int64, f9: int64 := f[5], f[6], f[7], f[8], f[9];
    var f0_2: int32, f1_2: int32, f2_2: int32, f3_2: int32 := 2 * f0, 2 * f1, 2 * f2, 2 * f3;
    var f4_2: int32, f5_2: int32, f6_2: int32, f7_2: int32 := 2 * f4, 2 * f5, 2 * f6, 2 * f7;
    var f5_38: int64, f6_19: int64, f7_38: int64, f8_19: int64, f9_38: int64 := 38 * f5, 19 * f6, 38 * f7, 19 * f8, 38 * f9;
    match k
    case 0 => Six(Product(f0, f0), Product(f1_2, f9_38), Product(f2_2, f8_19), Product(f3_2, f7_38), Product(f4_2, f6_19), Product(f5, f5_38))
    case 1 => Five(Product(f0_2, f1), Product(f2, f9_38), Product(f3_2, f8_19), Product(f4, f7_38), Product(f5_2, f6_19))
    case 2 => Six(Product(f0_2, f2), Product(f1_2, f1), Product(f3_2, f9_38), Product(f4_2, f8_19), Product(f5_2, f7_38), Product(f6, f6_19))
    case 3 => Five(Product(f0_2, f3), Product(f1_2, f2), Product(f4, f9_38), Product(f5_2, f8_19), Product(f6, f7_38))
    case 4 => Six(Product(f0_2, f4), Product(f1_2, f3_2), Product(f2, f2), Product(f5_2, f9_38), Product(f6_2, f8_19), Product(f7, f7_38))
    case 5 => Five(Product(f0_2, f5), Product(f1_2, f4), Product(f2_2, f3), Product(f6, f9_38), Product(f7_2, f8_19))
    case 6 => Six(Product(f0_2, f6), Product(f1_2, f5_2), Product(f2_2, f4), Product(f3_2, f3), Product(f7_2, f9_38), Product(f8, f8_19))
    case 7 => Five(Product(f0_2, f7), Product(f1_2, f6), Product(f2_2, f5), Product(f3_2, f4), Product(f8, f9_38))
    case 8 => Six(Product(f0_2, f8), Product(f1_2, f7_2), Product(f2_2, f6), Product(f3_2, f5_2), Product(f4, f4), Product(f9, f9_38))
    case 9 => Five(Product(f0_2, f9), Product(f1_2, f8), Product(f2_2, f7), Product(f3_2, f6), Product(f4_2, f5))
  }

  /** The product of limb `i` and the limb that pairs with it in limb `k` of a square, with its factor. */
  ghost function PairTerm(f: seq<int>, i: nat, k: nat): int
    requires |f| == 10 && i < 10 && k < 10
  {
    var m := f[i] * f[if i <= k then k - i else k - i + 10];
    if i % 2 == 1 && k % 2 == 0 then (if i <= k then 2 * m else 38 * m) else (if i <= k then m else 19 * m)
  }

  ghost function PairSum(f: seq<int>, k: nat, n: nat): int
    requires |f| == 10 && k < 10 && n <= 10
    decreases n
  {
    if n == 0 then 0 else PairSum(f, k, n - 1) + PairTerm(f, n - 1, k)
  }

  lemma TermIsPair(f: seq<int32>, i: nat, k: nat)
    requires Loose(f) && i < 10 && k < 10
    ensures Term(f, f, i, k) == PairTerm(f, i, k)
  {
  }

  lemma {:induction false} ColumnPairs(f: seq<int32>, k: nat, n: nat)
    requires Loose(f) && k < 10 && n <= 10
    ensures Column(f, f, k, n) == PairSum(f, k, n)
  {
    if n > 0 {
      ColumnPairs(f, k, n - 1);
      TermIsPair(f, n - 1, k);
    }
  }

  lemma PairSumTerms(f: seq<int>, k: nat)
    requires |f| == 10 && k < 10
    ensures PairSum(f, k, 10) == PairTerm(f, 0, k) + PairTerm(f, 1, k) + PairTerm(f, 2, k) + PairTerm(f, 3, k) + PairTerm(f, 4, k)
                               + PairTerm(f, 5, k) + PairTerm(f, 6, k) + PairTerm(f, 7, k) + PairTerm(f, 8, k) + PairTerm(f, 9, k)
  {
    hide PairTerm;
  }

  lemma FirstSquares(f: seq<int32>, k: nat)
    requires Loose(f) && 0 <= k <= 1
    ensures SquareColumn(f, k) == PairSum(f, k, 10)
  {
    hide PairSum;
    PairSumTerms(f, k);
  }

  lemma SecondSquares(f: seq<int32>, k: nat)
    requires Loose(f) && 2 <= k <= 3
    ensures SquareColumn(f, k) == PairSum(f, k, 10)
  {
    hide PairSum;
    PairSumTerms(f, k);
  }

  lemma ThirdSquares(f: seq<int32>, k: nat)
    requires Loose(f) && 4 <= k <= 5
    ensures SquareColumn(f, k) == PairSum(f, k, 10)
  {
    hide PairSum;
    PairSumTerms(f, k);
  }

  lemma FourthSquares(f: seq<int32>, k: nat)
    requires Loose(f) && 6 <= k <= 7
    ensures SquareColumn(f, k) == PairSum(f, k, 10)
  {
    hide PairSum;
    PairSumTerms(f, k);
  }

  lemma FifthSquares(f: seq<int32>, k: nat)
    requires Loose(f) && 8 <= k <= 9
    ensures SquareColumn(f, k) == PairSum(f, k, 10)
  {
    hide PairSum;
    PairSumTerms(f, k);
  }

  lemma SquareIsPairSum(f: seq<int32>, k: nat)
    requires Loose(f) && k < 10
    ensures SquareColumn(f, k) == PairSum(f, k, 10)
  {
    hide SquareColumn, PairSum;
    match k / 2
    case 0 => FirstSquares(f, k);
    case 1 => SecondSquares(f, k);
    case 2 => ThirdSquares(f, k);
    case 3 => FourthSquares(f, k);
    case 4 => FifthSquares(f, k);
  }

  lemma SquareIsColumn(f: seq<int32>, k: nat)
    requires Loose(f) && k < 10
    ensures SquareColumn(f, k) == Column(f, f, k, 10)
  {
    SquareIsPairSum(f, k);
    ColumnPairs(f, k, 10);
  }

  method SquareSums(f: seq<int32>) returns (h: seq<int64>)
    requires Loose(f)
    ensures Within(h, 0x4000_0000_0000_0000, 0x4000_0000_0000_0000)
    ensures Congruent(Value(h), Value(f) * Value(f))
  {
    forall k | 0 <= k < 10 ensures SquareColumn(f, k) == Column(f, f, k, 10) {
      SquareIsColumn(f, k);
    }
    h := [SquareColumn(f, 0), SquareColumn(f, 1), SquareColumn(f, 2), SquareColumn(f, 3), SquareColumn(f, 4),
          SquareColumn(f, 5), SquareColumn(f, 6), SquareColumn(f, 7), SquareColumn(f, 8), SquareColumn(f, 9)];
    assert h == Columns(f, f, 10);
    ColumnsValue(f, f, 10);
    SumValue(f);
  }

  /** h = f * f; `h` may be `f`. */
  method FeSquare(h: array<int32>, f: array<int32>)
    requires h.Length == f.Length == 10 && Loose(f[..])
    modifies h
    ensures Tight(h[..])
    ensures Congruent(Value(h[..]), old(Value(f[..]) * Value(f[..])))
  {
    var t := SquareSums(f[..]);
    ghost var v := Value(f[..]) * Value(f[..]);
    FeCombine(h, t);
    CongruentTrans(Value(h[..]), Value(t), v);
  }
}
