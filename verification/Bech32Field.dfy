/**
  Which checksum it is: the remainder modulo a polynomial over the field of 32 elements (BIP-173,
  section "Checksum").
 */
module Bech32Field {
  import opened Bech32Checksum

  // The field of 32 elements: sums are exclusive or, and x^5 = x^3 + 1.

  /** Multiplication by x. */
  function TimesX(a: bv32): bv32 {
    X((a << 1) & 31, if a & 16 == 16 then 9 else 0)
  }

  function TimesPower(a: bv32, i: nat): bv32 {
    if i == 0 then a else TimesX(TimesPower(a, i - 1))
  }

  /** What bit `i` of `a` contributes to the product. */
  function Part(a: bv32, b: bv32, i: nat): bv32
    requires i < 5
  {
    if Bit(a, i) == 1 then TimesPower(b, i) else 0
  }

  function Mul(a: bv32, b: bv32): bv32 {
    X(X(X(X(Part(a, b, 0), Part(a, b, 1)), Part(a, b, 2)), Part(a, b, 3)), Part(a, b, 4))
  }

  /** The coefficients of the generator polynomial of BIP-173, highest first. */
  const GENERATOR: seq<bv32> := [1, 29, 22, 20, 21, 29, 18]

  function Low5(w: bv32): bv32 {
    w & 31
  }

  /** The state without its last 5 - j symbols. */
  function Upper(c: bv32, j: nat): bv32
    requires j < 6
  {
    match j
    case 0 => c >> 25
    case 1 => c >> 20
    case 2 => c >> 15
    case 3 => c >> 10
    case 4 => c >> 5
    case _ => c
  }

  /** The six symbols of a state, as coefficients, highest first. */
  function Coefficient(c: bv32, j: nat): bv32
    requires j < 6
  {
    Low5(Upper(c, j))
  }

  lemma Low5OfSum(a: bv32, b: bv32)
    ensures Low5(X(a, b)) == X(Low5(a), Low5(b))
  {
  }

  lemma UpperOfSum0(a: bv32, b: bv32)
    ensures Upper(X(a, b), 0) == X(Upper(a, 0), Upper(b, 0))
  {
  }

  lemma UpperOfSum1(a: bv32, b: bv32)
    ensures Upper(X(a, b), 1) == X(Upper(a, 1), Upper(b, 1))
  {
  }

  lemma UpperOfSum2(a: bv32, b: bv32)
    ensures Upper(X(a, b), 2) == X(Upper(a, 2), Upper(b, 2))
  {
  }

  lemma UpperOfSum3(a: bv32, b: bv32)
    ensures Upper(X(a, b), 3) == X(Upper(a, 3), Upper(b, 3))
  {
  }

  lemma UpperOfSum4(a: bv32, b: bv32)
    ensures Upper(X(a, b), 4) == X(Upper(a, 4), Upper(b, 4))
  {
  }

  lemma UpperOfSum5(a: bv32, b: bv32)
    ensures Upper(X(a, b), 5) == X(Upper(a, 5), Upper(b, 5))
  {
  }

  lemma CoefficientOfSum(a: bv32, b: bv32, j: nat)
    requires j < 6
    ensures Coefficient(X(a, b), j) == X(Coefficient(a, j), Coefficient(b, j))
  {
    hide Upper, X, Low5;
    Low5OfSum(Upper(a, j), Upper(b, j));
    match j
    case 0 => UpperOfSum0(a, b);
    case 1 => UpperOfSum1(a, b);
    case 2 => UpperOfSum2(a, b);
    case 3 => UpperOfSum3(a, b);
    case 4 => UpperOfSum4(a, b);
    case 5 => UpperOfSum5(a, b);
  }

  lemma CoefficientOfShift0(c: bv32)
    ensures Coefficient(Shifted(c), 0) == Coefficient(c, 1)
  {
  }

  lemma CoefficientOfShift1(c: bv32)
    ensures Coefficient(Shifted(c), 1) == Coefficient(c, 2)
  {
  }

  lemma CoefficientOfShift2(c: bv32)
    ensures Coefficient(Shifted(c), 2) == Coefficient(c, 3)
  {
  }

  lemma CoefficientOfShift3(c: bv32)
    ensures Coefficient(Shifted(c), 3) == Coefficient(c, 4)
  {
  }

  lemma CoefficientOfShift4(c: bv32)
    ensures Coefficient(Shifted(c), 4) == Coefficient(c, 5)
  {
  }

  lemma CoefficientOfShift5(c: bv32)
    ensures Coefficient(Shifted(c), 5) == 0
  {
  }

  lemma CoefficientOfSymbol0(v: bv32)
    requires v < 32
    ensures Coefficient(v, 0) == 0
  {
  }

  lemma CoefficientOfSymbol1(v: bv32)
    requires v < 32
    ensures Coefficient(v, 1) == 0
  {
  }

  lemma CoefficientOfSymbol2(v: bv32)
    requires v < 32
    ensures Coefficient(v, 2) == 0
  {
  }

  lemma CoefficientOfSymbol3(v: bv32)
    requires v < 32
    ensures Coefficient(v, 3) == 0
  {
  }

  lemma CoefficientOfSymbol4(v: bv32)
    requires v < 32
    ensures Coefficient(v, 4) == 0
  {
  }

  lemma CoefficientOfSymbol5(v: bv32)
    requires v < 32
    ensures Coefficient(v, 5) == v
  {
  }

  lemma CoefficientOfShift(c: bv32, v: bv32, j: nat)
    requires v < 32 && j < 6
    ensures X(Coefficient(Shifted(c), j), Coefficient(v, j)) == if j < 5 then Coefficient(c, j + 1) else v
  {
    hide Coefficient, Shifted, X;
    if j < 5 { XorSame(Coefficient(c, j + 1)); } else { XorSame(v); }
    match j
    case 0 => CoefficientOfShift0(c); CoefficientOfSymbol0(v);
    case 1 => CoefficientOfShift1(c); CoefficientOfSymbol1(v);
    case 2 => CoefficientOfShift2(c); CoefficientOfSymbol2(v);
    case 3 => CoefficientOfShift3(c); CoefficientOfSymbol3(v);
    case 4 => CoefficientOfShift4(c); CoefficientOfSymbol4(v);
    case 5 => CoefficientOfShift5(c); CoefficientOfSymbol5(v);
  }

  lemma TopIsFirst(c: bv32)
    requires c < 0x4000_0000
    ensures Top(c) == Coefficient(c, 0)
  {
  }

  lemma Generators0(j: nat)
    requires j < 6
    ensures Coefficient(Generator(0), j) == TimesPower(GENERATOR[j + 1], 0)
  {
  }

  lemma Generators1(j: nat)
    requires j < 6
    ensures Coefficient(Generator(1), j) == TimesPower(GENERATOR[j + 1], 1)
  {
  }

  lemma Generators2(j: nat)
    requires j < 6
    ensures Coefficient(Generator(2), j) == TimesPower(GENERATOR[j + 1], 2)
  {
  }

  lemma Generators3(j: nat)
    requires j < 6
    ensures Coefficient(Generator(3), j) == TimesPower(GENERATOR[j + 1], 3)
  {
  }

  lemma Generators4(j: nat)
    requires j < 6
    ensures Coefficient(Generator(4), j) == TimesPower(GENERATOR[j + 1], 4)
  {
  }

  /** The five constants of the code are the lower coefficients of the generator, times 1, x, ..., x^4. */
  lemma Generators(i: nat, j: nat)
    requires i < 5 && j < 6
    ensures Coefficient(Generator(i), j) == TimesPower(GENERATOR[j + 1], i)
  {
    hide Coefficient, Generator, TimesPower;
    match i
    case 0 => Generators0(j);
    case 1 => Generators1(j);
    case 2 => Generators2(j);
    case 3 => Generators3(j);
    case 4 => Generators4(j);
  }

  lemma CoefficientOfFeedback(top: bv32, i: nat, j: nat)
    requires i < 5 && j < 6
    ensures Coefficient(Feedback(top, i), j) == Part(top, GENERATOR[j + 1], i)
  {
    Generators(i, j);
    ZeroCoefficient(j);
    hide Coefficient, TimesPower, Generator, Bit;
  }

  lemma ZeroCoefficient(j: nat)
    requires j < 6
    ensures Coefficient(0, j) == 0
  {
  }

  lemma SumOfFive(x: bv32, a: bv32, b: bv32, c: bv32, d: bv32, e: bv32)
    ensures X(X(X(X(X(x, a), b), c), d), e) == X(x, X(X(X(X(a, b), c), d), e))
  {
    hide X;
    XorLaws(x, a, b);
    XorLaws(x, X(a, b), c);
    XorLaws(x, X(X(a, b), c), d);
    XorLaws(x, X(X(X(a, b), c), d), e);
  }

  /**
   * A step of the checksum is a step of a division: the state is multiplied by the variable, the
   * symbol added, and the generator taken off as often as the highest coefficient says.
   */
  lemma StepDivides(c: bv32, v: bv32, j: nat)
    requires c < 0x4000_0000 && v < 32 && j < 6
    ensures Coefficient(Step(c, v), j) == X(if j < 5 then Coefficient(c, j + 1) else v, Mul(Coefficient(c, 0), GENERATOR[j + 1]))
  {
    hide Coefficient, X, Part, Feedback, Shifted, Top;
    var t, g := Top(c), GENERATOR[j + 1];
    TopIsFirst(c);
    CoefficientOfShift(c, v, j);
    var s := X(Shifted(c), v);
    CoefficientOfSum(Shifted(c), v, j);
    CoefficientOfSum(s, Feedback(t, 0), j);
    var s0 := X(s, Feedback(t, 0));
    CoefficientOfSum(s0, Feedback(t, 1), j);
    var s1 := X(s0, Feedback(t, 1));
    CoefficientOfSum(s1, Feedback(t, 2), j);
    var s2 := X(s1, Feedback(t, 2));
    CoefficientOfSum(s2, Feedback(t, 3), j);
    var s3 := X(s2, Feedback(t, 3));
    CoefficientOfSum(s3, Feedback(t, 4), j);
    CoefficientOfFeedback(t, 0, j);
    CoefficientOfFeedback(t, 1, j);
    CoefficientOfFeedback(t, 2, j);
    CoefficientOfFeedback(t, 3, j);
    CoefficientOfFeedback(t, 4, j);
    SumOfFive(Coefficient(s, j), Part(t, g, 0), Part(t, g, 1), Part(t, g, 2), Part(t, g, 3), Part(t, g, 4));
  }

  // The whole checksum: the remainder of a division of polynomials.

  /** Polynomials are their coefficients, highest first. */
  function Zeros6(): seq<bv32> {
    [0, 0, 0, 0, 0, 0]
  }

  function Repeat0(n: nat): (s: seq<bv32>)
    ensures |s| == n && forall i :: 0 <= i < n ==> s[i] == 0
  {
    seq(n, _ => 0)
  }

  /** `t` times the generator. */
  function TimesGenerator(t: bv32): (s: seq<bv32>)
    ensures |s| == 7 && forall i :: 0 <= i < 7 ==> s[i] == Mul(t, GENERATOR[i])
  {
    seq(7, i requires 0 <= i < 7 => Mul(t, GENERATOR[i]))
  }

  /** The product of `q` with the generator: long multiplication, one coefficient of `q` at a time. */
  function Product(q: seq<bv32>): (s: seq<bv32>)
    ensures |s| == |q| + 6
  {
    if q == [] then Zeros6()
    else Xor(Product(q[..|q| - 1]) + [0], Repeat0(|q| - 1) + TimesGenerator(q[|q| - 1]))
  }

  function Coefficients(c: bv32): (s: seq<bv32>)
    ensures |s| == 6 && forall j :: 0 <= j < 6 ==> s[j] == Coefficient(c, j)
  {
    seq(6, j requires 0 <= j < 6 => Coefficient(c, j))
  }

  /** The quotient: the highest coefficients of the states on the way. */
  function Quotient(values: seq<bv32>): (q: seq<bv32>)
    ensures |q| == |values|
  {
    if values == [] then [] else Quotient(values[..|values| - 1]) + [Coefficient(Run(1, values[..|values| - 1]), 0)]
  }

  /** One position of the division. */
  lemma DividedAt(c: bv32, v: bv32, old_: bv32, r: bv32, j: nat)
    requires c < 0x4000_0000 && v < 32 && j <= 6
    requires j < 6 ==> X(old_, Coefficient(c, j)) == r
    requires j == 6 ==> old_ == 0 && r == v
    ensures X(X(old_, Mul(Coefficient(c, 0), GENERATOR[j])), if j == 0 then 0 else Coefficient(Step(c, v), j - 1)) == r
  {
    hide X, Mul, Step, Coefficient;
    var m := Mul(Coefficient(c, 0), GENERATOR[j]);
    if j == 0 {
      CoefficientSmall(c);
      MulOne(Coefficient(c, 0));
      XorSame(X(old_, m));
    } else {
      StepDivides(c, v, j - 1);
      var x := if j < 6 then Coefficient(c, j) else v;
      XorLaws(old_, m, X(x, m));
      XorLaws(x, m, m);
      XorLaws(m, X(x, m), 0);
      XorLaws(m, x, m);
      XorSame(m);
      XorSame(x);
    }
  }

  lemma CoefficientSmall(c: bv32)
    ensures Coefficient(c, 0) < 32
  {
  }

  lemma MulOne(a: bv32)
    requires a < 32
    ensures Mul(a, 1) == a
  {
  }

  /** A position of the dividend that an earlier step has settled. */
  lemma SettledAt(p: seq<bv32>, r: seq<bv32>, g: seq<bv32>, d: seq<bv32>, n: nat, v: bv32, s: seq<bv32>, i: nat)
    requires |p| == n + 6 && |r| == 6 && |g| == 7 && |d| == n + 6 && |s| == 6 && Xor(p, Repeat0(n) + r) == d && i < n
    ensures Xor(Xor(p + [0], Repeat0(n) + g), Repeat0(n + 1) + s)[i] == (d + [v])[i]
  {
    hide X;
    assert X(p[i], (Repeat0(n) + r)[i]) == d[i];
    XorSame(p[i]);
  }

  /** A position of the dividend that the last step changes. */
  lemma ChangedAt(p: seq<bv32>, d: seq<bv32>, c: bv32, n: nat, v: bv32, j: nat)
    requires |p| == n + 6 && |d| == n + 6 && Xor(p, Repeat0(n) + Coefficients(c)) == d && j <= 6 && c < 0x4000_0000 && v < 32
    ensures Xor(Xor(p + [0], Repeat0(n) + TimesGenerator(Coefficient(c, 0))), Repeat0(n + 1) + Coefficients(Step(c, v)))[n + j] == (d + [v])[n + j]
  {
    hide X, Mul, Step, Coefficient;
    if j < 6 { assert X(p[n + j], (Repeat0(n) + Coefficients(c))[n + j]) == d[n + j]; }
    DividedAt(c, v, (p + [0])[n + j], (d + [v])[n + j], j);
  }

  /** One more symbol of the dividend. */
  lemma DivideOneMore(p: seq<bv32>, d: seq<bv32>, c: bv32, n: nat, v: bv32)
    requires |p| == n + 6 && |d| == n + 6 && Xor(p, Repeat0(n) + Coefficients(c)) == d && c < 0x4000_0000 && v < 32
    ensures Xor(Xor(p + [0], Repeat0(n) + TimesGenerator(Coefficient(c, 0))), Repeat0(n + 1) + Coefficients(Step(c, v))) == d + [v]
  {
    hide X, Mul, Step, Coefficient;
    var all := Xor(Xor(p + [0], Repeat0(n) + TimesGenerator(Coefficient(c, 0))), Repeat0(n + 1) + Coefficients(Step(c, v)));
    forall i | 0 <= i < |all| ensures all[i] == (d + [v])[i] {
      if i < n {
        SettledAt(p, Coefficients(c), TimesGenerator(Coefficient(c, 0)), d, n, v, Coefficients(Step(c, v)), i);
      } else {
        ChangedAt(p, d, c, n, v, i - n);
      }
    }
  }

  const START: seq<bv32> := [0, 0, 0, 0, 0, 1]

  lemma QuotientOneMore(t: seq<bv32>, v: bv32)
    ensures Quotient(t + [v]) == Quotient(t) + [Coefficient(Run(1, t), 0)]
  {
    hide Coefficient, Run;
    assert (t + [v])[..|t|] == t;
  }

  lemma ProductOneMore(q: seq<bv32>, x: bv32)
    ensures Product(q + [x]) == Xor(Product(q) + [0], Repeat0(|q|) + TimesGenerator(x))
  {
    hide X, Mul, Repeat0, TimesGenerator, Xor;
    var s := q + [x];
    assert s[..|s| - 1] == q && s[|s| - 1] == x;
  }

  /**
   * The checksum of a sequence of symbols is the remainder of the polynomial with the coefficients
   * 1 and these symbols modulo the generator: dividend = quotient * generator + remainder, with a
   * remainder of six coefficients.
   */
  lemma {:induction false} RunIsRemainder(values: seq<bv32>)
    requires Symbols(values)
    ensures Xor(Product(Quotient(values)), Repeat0(|values|) + Coefficients(Run(1, values))) == START + values
  {
    hide X, Mul, Step, Coefficient, Run, Repeat0, TimesGenerator, Xor, Quotient, Product;
    if values == [] {
      StartIsOne();
    } else {
      var t, v := values[..|values| - 1], values[|values| - 1];
      assert values == t + [v];
      RunIsRemainder(t);
      RunBound(1, t);
      RunAppend(1, t, [v]);
      RunOne(Run(1, t), v);
      QuotientOneMore(t, v);
      ProductOneMore(Quotient(t), Coefficient(Run(1, t), 0));
      DivideOneMore(Product(Quotient(t)), START + t, Run(1, t), |t|, v);
      assert START + values == START + t + [v];
    }
  }

  lemma RunOne(c: bv32, v: bv32)
    ensures Run(c, [v]) == Step(c, v)
  {
    hide Step;
    assert [v][1..] == [];
    assert Run(Step(c, v), []) == Step(c, v);
  }

  lemma StartIsOne()
    ensures Xor(Product(Quotient([])), Repeat0(0) + Coefficients(Run(1, []))) == START + []
  {
    var c := Coefficients(1);
    assert c[0] == 0 && c[1] == 0 && c[2] == 0 && c[3] == 0 && c[4] == 0 && c[5] == 1;
    assert Repeat0(0) + c == c;
  }
}
