/** The checksum: a linear map on 30-bit states. */
module Bech32Checksum {
  /** A five-bit symbol as a word. */
  type symbol = w: bv32 | w < 32

  function Generator(i: nat): bv32
    requires i < 5
  {
    match i
    case 0 => 0x3b6a57b2
    case 1 => 0x26508e6d
    case 2 => 0x1ea119fa
    case 3 => 0x3d4233dd
    case _ => 0x2a1462b3
  }

  function Bit(top: bv32, i: nat): bv32
    requires i < 5
  {
    match i
    case 0 => top & 1
    case 1 => (top >> 1) & 1
    case 2 => (top >> 2) & 1
    case 3 => (top >> 3) & 1
    case _ => (top >> 4) & 1
  }

  /** What bit `i` of the top feeds back. */
  function Feedback(top: bv32, i: nat): bv32
    requires i < 5
  {
    if Bit(top, i) == 1 then Generator(i) else 0
  }

  function Shifted(chk: bv32): bv32 {
    (chk & 0x1ffffff) << 5
  }

  function Top(chk: bv32): bv32 {
    chk >> 25
  }

  function X(a: bv32, b: bv32): bv32 {
    a ^ b
  }

  /** One step of the checksum. */
  function Step(chk: bv32, v: bv32): bv32 {
    var top := Top(chk);
    X(X(X(X(X(X(Shifted(chk), v), Feedback(top, 0)), Feedback(top, 1)), Feedback(top, 2)), Feedback(top, 3)), Feedback(top, 4))
  }

  function Run(chk: bv32, values: seq<bv32>): bv32
    decreases |values|
  {
    if values == [] then chk else Run(Step(chk, values[0]), values[1..])
  }

  lemma BitLinear0(s: bv32, t: bv32)
    ensures Bit(s, 0) <= 1 && Bit(X(s, t), 0) == X(Bit(s, 0), Bit(t, 0))
  {
  }

  lemma BitLinear1(s: bv32, t: bv32)
    ensures Bit(s, 1) <= 1 && Bit(X(s, t), 1) == X(Bit(s, 1), Bit(t, 1))
  {
  }

  lemma BitLinear2(s: bv32, t: bv32)
    ensures Bit(s, 2) <= 1 && Bit(X(s, t), 2) == X(Bit(s, 2), Bit(t, 2))
  {
  }

  lemma BitLinear3(s: bv32, t: bv32)
    ensures Bit(s, 3) <= 1 && Bit(X(s, t), 3) == X(Bit(s, 3), Bit(t, 3))
  {
  }

  lemma BitLinear4(s: bv32, t: bv32)
    ensures Bit(s, 4) <= 1 && Bit(X(s, t), 4) == X(Bit(s, 4), Bit(t, 4))
  {
  }

  lemma BitLinear(s: bv32, t: bv32, i: nat)
    requires i < 5
    ensures Bit(s, i) <= 1 && Bit(X(s, t), i) == X(Bit(s, i), Bit(t, i))
  {
    hide Bit, X;
    match i
    case 0 => BitLinear0(s, t);
    case 1 => BitLinear1(s, t);
    case 2 => BitLinear2(s, t);
    case 3 => BitLinear3(s, t);
    case 4 => BitLinear4(s, t);
  }

  lemma XorBits(b: bv32, c: bv32)
    requires b <= 1 && c <= 1
    ensures b == 0 || b == 1
    ensures X(b, c) == if b == c then 0 else 1
  {
  }

  lemma FeedbackLinear(s: bv32, t: bv32, i: nat)
    requires i < 5
    ensures Feedback(X(s, t), i) == X(Feedback(s, i), Feedback(t, i))
  {
    hide Bit, X, Generator;
    BitLinear(s, t, i);
    BitLinear(t, s, i);
    XorBits(Bit(s, i), Bit(t, i));
    XorBits(Bit(t, i), Bit(s, i));
    XorSame(Generator(i));
    XorSame(0);
  }

  lemma ShiftLinear(c: bv32, d: bv32)
    ensures Shifted(X(c, d)) == X(Shifted(c), Shifted(d)) && Top(X(c, d)) == X(Top(c), Top(d))
  {
  }

  lemma XorLaws(a: bv32, b: bv32, c: bv32)
    ensures X(a, b) == X(b, a) && X(X(a, b), c) == X(a, X(b, c))
  {
  }

  lemma Exchange(a: bv32, b: bv32, c: bv32, d: bv32)
    ensures X(X(a, b), X(c, d)) == X(X(a, c), X(b, d))
  {
    hide X;
    XorLaws(a, b, X(c, d));
    XorLaws(b, c, d);
    XorLaws(c, b, d);
    XorLaws(a, c, X(b, d));
  }

  /** A step is linear over exclusive or. */
  lemma StepLinear(c: bv32, d: bv32, v: bv32, w: bv32)
    ensures Step(X(c, d), X(v, w)) == X(Step(c, v), Step(d, w))
  {
    hide Feedback, Shifted, Top, X;
    ShiftLinear(c, d);
    Exchange(Shifted(c), Shifted(d), v, w);
    var s, t := Top(c), Top(d);
    var x, y := X(Shifted(c), v), X(Shifted(d), w);
    FeedbackLinear(s, t, 0);
    Exchange(x, y, Feedback(s, 0), Feedback(t, 0));
    x, y := X(x, Feedback(s, 0)), X(y, Feedback(t, 0));
    FeedbackLinear(s, t, 1);
    Exchange(x, y, Feedback(s, 1), Feedback(t, 1));
    x, y := X(x, Feedback(s, 1)), X(y, Feedback(t, 1));
    FeedbackLinear(s, t, 2);
    Exchange(x, y, Feedback(s, 2), Feedback(t, 2));
    x, y := X(x, Feedback(s, 2)), X(y, Feedback(t, 2));
    FeedbackLinear(s, t, 3);
    Exchange(x, y, Feedback(s, 3), Feedback(t, 3));
    x, y := X(x, Feedback(s, 3)), X(y, Feedback(t, 3));
    FeedbackLinear(s, t, 4);
    Exchange(x, y, Feedback(s, 4), Feedback(t, 4));
  }

  lemma StepBound(c: bv32, v: bv32)
    requires c < 0x4000_0000 && v < 32
    ensures Step(c, v) < 0x4000_0000
  {
  }

  /** A step is injective on 30-bit states: only the zero state goes to zero. */
  lemma StepInjective(c: bv32)
    requires c < 0x4000_0000 && Step(c, 0) == 0
    ensures c == 0
  {
  }

  /** While the state has at most 25 bits a step only shifts the symbol in. */
  lemma StepSmall(c: bv32, v: bv32)
    requires c < 0x200_0000
    ensures Step(c, v) == (c << 5) ^ v
  {
    TopSmall(c);
    XorIs(c << 5, v);
    var x := X(c << 5, v);
    XorZero(x);
    hide X;
    assert Feedback(0, 0) == 0 && Feedback(0, 1) == 0 && Feedback(0, 2) == 0 && Feedback(0, 3) == 0 && Feedback(0, 4) == 0;
    assert Step(c, v) == x;
  }

  lemma XorIs(a: bv32, b: bv32)
    ensures X(a, b) == a ^ b
  {
  }

  lemma XorZero(x: bv32)
    ensures X(x, 0) == x
  {
  }

  lemma TopSmall(c: bv32)
    requires c < 0x200_0000
    ensures Top(c) == 0 && Shifted(c) == c << 5
  {
  }

  function Xor(a: seq<bv32>, b: seq<bv32>): (r: seq<bv32>)
    requires |a| == |b|
    ensures |r| == |a|
  {
    seq(|a|, i requires 0 <= i < |a| => X(a[i], b[i]))
  }

  /** The whole checksum is linear. */
  lemma {:induction false} RunLinear(c: bv32, d: bv32, a: seq<bv32>, b: seq<bv32>)
    requires |a| == |b|
    ensures Run(X(c, d), Xor(a, b)) == X(Run(c, a), Run(d, b))
    decreases |a|
  {
    hide Step, X;
    if a != [] {
      StepLinear(c, d, a[0], b[0]);
      assert Xor(a, b)[0] == X(a[0], b[0]) && Xor(a, b)[1..] == Xor(a[1..], b[1..]);
      RunLinear(Step(c, a[0]), Step(d, b[0]), a[1..], b[1..]);
    }
  }

  ghost predicate Symbols(s: seq<bv32>) {
    forall i {:trigger s[i]} :: 0 <= i < |s| ==> s[i] < 32
  }

  lemma {:induction false} RunBound(c: bv32, s: seq<bv32>)
    requires c < 0x4000_0000 && Symbols(s)
    ensures Run(c, s) < 0x4000_0000
    decreases |s|
  {
    hide Step;
    if s != [] {
      StepBound(c, s[0]);
      RunBound(Step(c, s[0]), s[1..]);
    }
  }

  lemma {:induction false} RunAppend(c: bv32, a: seq<bv32>, b: seq<bv32>)
    ensures Run(c, a + b) == Run(Run(c, a), b)
    decreases |a|
  {
    hide Step;
    if a == [] {
      assert a + b == b;
    } else {
      assert (a + b)[1..] == a[1..] + b;
      RunAppend(Step(c, a[0]), a[1..], b);
    }
  }

  ghost predicate Zeros(s: seq<bv32>) {
    forall i {:trigger s[i]} :: 0 <= i < |s| ==> s[i] == 0
  }

  lemma ZeroStep()
    ensures Step(0, 0) == 0
  {
  }

  lemma {:induction false} RunZeros(s: seq<bv32>)
    requires Zeros(s)
    ensures Run(0, s) == 0
    decreases |s|
  {
    ZeroStep();
    hide Step;
    if s != [] { RunZeros(s[1..]); }
  }

  /** Zero symbols never turn another 30-bit state into zero. */
  lemma {:induction false} RunInjective(c: bv32, s: seq<bv32>)
    requires c < 0x4000_0000 && Zeros(s) && Run(c, s) == 0
    ensures c == 0
    decreases |s|
  {
    hide Step;
    if s != [] {
      StepBound(c, 0);
      RunInjective(Step(c, 0), s[1..]);
      StepInjective(c);
    }
  }

  function Push(p: bv32, v: bv32): bv32 {
    (p << 5) ^ v
  }

  /** Up to six symbols packed into 30 bits. */
  function Pack(s: seq<bv32>): bv32 {
    if s == [] then 0 else Push(Pack(s[..|s| - 1]), s[|s| - 1])
  }

  /** The state fits into `n` symbols. */
  predicate FitsIn(p: bv32, n: nat) {
    match n
    case 0 => p == 0
    case 1 => p < 0x20
    case 2 => p < 0x400
    case 3 => p < 0x8000
    case 4 => p < 0x10_0000
    case 5 => p < 0x200_0000
    case _ => p < 0x4000_0000
  }

  lemma PushFits(p: bv32, v: bv32, n: nat)
    requires n < 6 && FitsIn(p, n) && v < 32
    ensures FitsIn(Push(p, v), n + 1) && p < 0x200_0000
  {
  }

  lemma NothingPushed(p: bv32, v: bv32)
    requires p < 0x200_0000 && v < 32 && Push(p, v) == 0
    ensures p == 0 && v == 0
  {
  }

  lemma OneMore(p: bv32, v: bv32, n: nat)
    requires n < 6 && FitsIn(p, n) && v < 32
    ensures Run(p, [v]) == Push(p, v) && FitsIn(Push(p, v), n + 1)
  {
    hide Step, FitsIn;
    PushFits(p, v, n);
    StepSmall(p, v);
    assert [v][1..] == [];
    assert Run(Step(p, v), []) == Step(p, v);
  }

  lemma NonePushed()
    ensures FitsIn(0, 0)
  {
  }

  /** From the zero state, up to six symbols are just packed. */
  lemma {:induction false} RunPacks(s: seq<bv32>)
    requires |s| <= 6 && Symbols(s)
    ensures Run(0, s) == Pack(s) && FitsIn(Pack(s), |s|)
    decreases |s|
  {
    hide Step, FitsIn, Push;
    NonePushed();
    if s != [] {
      var t, v := s[..|s| - 1], s[|s| - 1];
      RunPacks(t);
      OneMore(Pack(t), v, |t|);
      RunAppend(0, t, [v]);
      assert s == t + [v];
    }
  }

  /** Packing up to six symbols gives zero only for zeros. */
  lemma {:induction false} PackInjective(s: seq<bv32>)
    requires |s| <= 6 && Symbols(s) && Pack(s) == 0
    ensures Zeros(s)
    decreases |s|
  {
    hide FitsIn, Step, Push;
    if s != [] {
      var t, v := s[..|s| - 1], s[|s| - 1];
      RunPacks(t);
      PushFits(Pack(t), v, |t|);
      NothingPushed(Pack(t), v);
      PackInjective(t);
      forall i | 0 <= i < |s| ensures s[i] == 0 {
        if i < |t| { assert s[i] == t[i]; }
      }
    }
  }

  function Last(m: bv32): bv32 {
    m & 31
  }

  function Rest(m: bv32): bv32 {
    m >> 5
  }

  /** A state as `n` symbols. */
  function Unpacked(m: bv32, n: nat): (s: seq<bv32>)
    ensures |s| == n
    decreases n
  {
    if n == 0 then [] else Unpacked(Rest(m), n - 1) + [Last(m)]
  }

  lemma PushLast(m: bv32)
    ensures Push(Rest(m), Last(m)) == m && Last(m) < 32
  {
  }

  lemma RestFits(m: bv32, n: nat)
    requires 0 < n <= 6 && FitsIn(m, n)
    ensures FitsIn(Rest(m), n - 1)
  {
  }

  lemma FitsInNone(m: bv32)
    requires FitsIn(m, 0)
    ensures m == 0
  {
  }

  lemma PackAppend(t: seq<bv32>, v: bv32)
    requires Symbols(t) && v < 32
    ensures Pack(t + [v]) == Push(Pack(t), v) && Symbols(t + [v])
  {
    hide Push;
    var s := t + [v];
    assert s[..|s| - 1] == t && s[|s| - 1] == v;
  }

  lemma {:induction false} PackUnpacked(m: bv32, n: nat)
    requires n <= 6 && FitsIn(m, n)
    ensures Pack(Unpacked(m, n)) == m && Symbols(Unpacked(m, n))
    decreases n
  {
    hide Push, Rest, Last, FitsIn, Symbols, Pack;
    if n == 0 {
      FitsInNone(m);
      PackedNone();
    } else {
      RestFits(m, n);
      PackUnpacked(Rest(m), n - 1);
      PushLast(m);
      PackAppend(Unpacked(Rest(m), n - 1), Last(m));
    }
  }

  lemma PackedNone()
    ensures Pack([]) == 0 && Symbols([])
  {
  }

  // Error detection.

  /** Where two sequences agree their difference is zero. */
  lemma XorAt(a: seq<bv32>, b: seq<bv32>, i: nat)
    requires |a| == |b| && i < |a| && Symbols(a) && Symbols(b)
    ensures Xor(a, b)[i] < 32 && (Xor(a, b)[i] == 0 <==> a[i] == b[i])
  {
    XorWords(a[i], b[i]);
  }

  lemma XorWords(x: bv32, y: bv32)
    requires x < 32 && y < 32
    ensures X(x, y) < 32 && (X(x, y) == 0 <==> x == y)
  {
  }

  lemma XorSame(x: bv32)
    ensures X(x, x) == 0 && X(x, 0) == x && X(0, x) == x && X(X(x, 1), 1) == x
  {
  }

  /** A difference confined to six consecutive symbols is never mapped to zero. */
  lemma WindowNotZero(e: seq<bv32>, k: nat)
    requires Symbols(e) && k + 6 <= |e| && Zeros(e[..k]) && Zeros(e[k + 6..]) && Run(0, e) == 0
    ensures Zeros(e)
  {
    hide Step, Pack;
    var a, w, b := e[..k], e[k..k + 6], e[k + 6..];
    assert e == a + (w + b);
    RunAppend(0, a, w + b);
    RunZeros(a);
    RunAppend(0, w, b);
    assert Symbols(w);
    RunBound(0, w);
    RunInjective(Run(0, w), b);
    RunPacks(w);
    PackInjective(w);
    forall i | 0 <= i < |e| ensures e[i] == 0 {
      if i < k { assert e[i] == a[i]; } else if i < k + 6 { assert e[i] == w[i - k]; } else { assert e[i] == b[i - k - 6]; }
    }
  }

  /**
   * Two sequences of symbols with the same checksum that differ only inside a window of six
   * consecutive symbols are the same.
   */
  lemma SixSymbolsDetected(chk: bv32, a: seq<bv32>, b: seq<bv32>, k: nat)
    requires |a| == |b| && Symbols(a) && Symbols(b) && k + 6 <= |a|
    requires a[..k] == b[..k] && a[k + 6..] == b[k + 6..] && Run(chk, a) == Run(chk, b)
    ensures a == b
  {
    hide Step, X;
    var e := Xor(a, b);
    RunLinear(chk, chk, a, b);
    XorSame(chk);
    XorSame(Run(chk, a));
    forall i | 0 <= i < |e| ensures e[i] < 32 && (e[i] == 0 <==> a[i] == b[i]) { XorAt(a, b, i); }
    forall i | 0 <= i < k ensures e[..k][i] == 0 { assert a[i] == a[..k][i] == b[..k][i] == b[i]; }
    var tail := e[k + 6..];
    forall i | 0 <= i < |tail| ensures tail[i] == 0 {
      assert a[i + k + 6] == a[k + 6..][i] == b[k + 6..][i] == b[i + k + 6];
    }
    WindowNotZero(e, k);
  }

  /** Six symbols that make the checksum of `values` one. */
  lemma ChecksumWorks(values: seq<bv32>, zeros: seq<bv32>, c: seq<bv32>)
    requires Symbols(values) && zeros == [0, 0, 0, 0, 0, 0] && c == Unpacked(X(Run(1, values + zeros), 1), 6)
    ensures Symbols(c) && Run(1, values + c) == 1
  {
    hide Step, X, Unpacked, FitsIn, Pack;
    var m := Run(1, values + zeros);
    RunBound(1, values + zeros);
    OneFlipped(m);
    PackUnpacked(X(m, 1), 6);
    RunPacks(c);
    RunAppend(1, values, zeros);
    RunAppend(1, values, c);
    var t := Run(1, values);
    RunLinear(t, 0, zeros, c);
    XorSame(t);
    forall i | 0 <= i < 6 ensures Xor(zeros, c)[i] == c[i] { XorSame(c[i]); }
    assert Xor(zeros, c) == c;
    Cancel(m);
  }

  lemma OneFlipped(m: bv32)
    requires m < 0x4000_0000
    ensures FitsIn(X(m, 1), 6)
  {
  }

  lemma Cancel(m: bv32)
    ensures X(m, X(m, 1)) == 1
  {
  }
}
