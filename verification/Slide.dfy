/** The signed sliding-window recoding of a 256-bit scalar. */
module Slide {
  import opened Arith
  import opened Bytes
  import opened MachineInts

  /** The number that signed binary digits stand for, least significant first. */
  ghost function Binary(r: seq<int>): int {
    if r == [] then 0 else r[0] + 2 * Binary(r[1..])
  }

  lemma {:induction false} BinaryUpdate(r: seq<int>, i: nat, x: int)
    requires i < |r|
    ensures Binary(r[i := x]) == Binary(r) + (x - r[i]) * Two(i)
  {
    if i == 0 {
      assert r[0 := x][1..] == r[1..];
    } else {
      BinaryUpdate(r[1..], i - 1, x);
      assert r[i := x][1..] == r[1..][i - 1 := x];
      MulAssoc(2, Two(i - 1), Two(i), x - r[i]);
    }
  }

  lemma {:induction false} BinarySplit(r: seq<int>, i: nat)
    requires i <= |r|
    ensures Binary(r) == Binary(r[..i]) + Two(i) * Binary(r[i..])
  {
    if i == 0 {
      assert r[0..] == r;
    } else {
      BinarySplit(r[1..], i - 1);
      assert r[1..][..i - 1] == r[..i][1..] && r[1..][i - 1..] == r[i..];
      MulAssoc(2, Two(i - 1), Two(i), Binary(r[i..]));
    }
  }

  ghost predicate Bits(r: seq<int>, lo: nat) {
    forall k {:trigger r[k]} :: lo <= k < |r| ==> 0 <= r[k] <= 1
  }

  lemma {:induction false} BitsRange(r: seq<int>)
    requires Bits(r, 0)
    ensures 0 <= Binary(r) < Two(|r|)
  {
    if r != [] { BitsRange(r[1..]); }
  }

  /** The digits below `n` are 0 or odd and at most 15 in size, and each non-zero one is followed by four zeros. */
  ghost predicate Spread(r: seq<int>, n: nat)
    requires n <= |r|
  {
    && (forall j {:trigger r[j]} :: 0 <= j < n && r[j] != 0 ==> -15 <= r[j] <= 15 && r[j] % 2 == 1)
    && (forall j, k {:trigger r[j], r[k]} :: 0 <= j < n && j < k < |r| && k < j + 5 && r[j] != 0 ==> r[k] == 0)
  }

  lemma TopDigit(r: seq<int>, n: nat)
    requires n < |r|
    ensures Binary(r[..n + 1]) == Binary(r[..n]) + r[n] * Two(n)
  {
    BinarySplit(r[..n + 1], n);
    assert r[..n + 1][..n] == r[..n] && r[..n + 1][n..] == [r[n]];
  }

  lemma {:induction false} SameBelow(r: seq<int>, m: nat, n: nat)
    requires m <= n <= |r| && forall k :: m <= k < n ==> r[k] == 0
    ensures Binary(r[..n]) == Binary(r[..m])
    decreases n - m
  {
    if m < n {
      SameBelow(r, m, n - 1);
      TopDigit(r, n - 1);
    }
  }

  lemma {:induction false} SpreadBound(r: seq<int>, n: nat)
    requires n <= |r| && Spread(r, n)
    ensures -8 * Two(n) < Binary(r[..n]) < 8 * Two(n)
    decreases n, 0
  {
    if n > 0 {
      TopDigit(r, n - 1);
      if r[n - 1] == 0 {
        SpreadBound(r, n - 1);
      } else {
        BelowNonZero(r, n - 1);
        MulMono(r[n - 1], 15, Two(n - 1));
        MulMono(-15, r[n - 1], Two(n - 1));
      }
    }
  }

  /** What lies below a non-zero digit is smaller than its place. */
  lemma {:induction false} BelowNonZero(r: seq<int>, i: nat)
    requires i < |r| && Spread(r, i) && r[i] != 0
    ensures -1 * Two(i) < Binary(r[..i]) < Two(i)
    decreases i, 1
  {
    var m := if i < 4 then 0 else i - 4;
    SameBelow(r, m, i);
    if i >= 4 {
      SpreadBound(r, m);
      TwoAdd(m, 4);
      assert Two(4) == 16;
    }
  }

  lemma SpreadKeep(s: seq<int>, r: seq<int>, i: nat)
    requires i < |r| == |s| && Spread(r, i) && r[i] != 0 && s[..i] == r[..i]
    ensures Spread(s, i)
  {
    forall j {:trigger s[j]} | 0 <= j < i ensures s[j] == r[j] {
      assert s[..i][j] == r[..i][j];
    }
  }

  lemma {:induction false} AllOnes(r: seq<int>)
    requires forall k :: 0 <= k < |r| ==> r[k] == 1
    ensures Binary(r) == Two(|r|) - 1
  {
    if r != [] { AllOnes(r[1..]); }
  }

  /** With a positive digit below, a carry into bit `p` of a number below 2^255 stops before bit 256. */
  lemma CarryStops(r: seq<int>, i: nat, p: nat)
    requires |r| == 256 && i < p < 256 && Spread(r, i) && Bits(r, p) && r[i] > 0
    requires forall k :: i < k < p ==> r[k] == 0
    requires Binary(r) < Two(255)
    ensures exists m :: p <= m < 256 && r[m] == 0
  {
    if forall m :: p <= m < 256 ==> r[m] == 1 { OnesTooGreat(r, i, p); }
  }

  lemma OnesTooGreat(r: seq<int>, i: nat, p: nat)
    requires |r| == 256 && i < p < 256 && Spread(r, i) && r[i] > 0
    requires forall k :: i < k < p ==> r[k] == 0
    requires forall k :: p <= k < 256 ==> r[k] == 1
    ensures Binary(r) >= Two(255)
  {
    hide Two, Binary, Spread;
    OnesAbove(r, p);
    SameBelow(r, i + 1, p);
    TopDigit(r, i);
    BelowNonZero(r, i);
    MulMono(1, r[i], Two(i));
    TwoNext(255);
    TwoMono(p, 255);
  }

  lemma OnesAbove(r: seq<int>, p: nat)
    requires p < |r| && forall m :: p <= m < |r| ==> r[m] == 1
    ensures Binary(r) == Binary(r[..p]) + Two(|r|) - Two(p)
  {
    hide Two, Binary;
    AllOnes(r[p..]);
    BinarySplit(r, p);
    TwoAdd(p, |r| - p);
    LessOne(Two(p), Two(|r| - p), Binary(r[p..]));
  }

  lemma LessOne(t: int, u: int, x: int)
    requires x == u - 1
    ensures t * x == t * u - t
  {
  }

  lemma {:induction false} TwoMono(m: nat, n: nat)
    requires m <= n
    ensures Two(m) <= Two(n)
  {
    if m < n { TwoMono(m, n - 1); }
  }

  /** Adds 1 at bit `p`, whose bits from there on are plain. */
  method CarryUp(r: array<int8>, p: nat)
    requires r.Length == 256 && p < 256 && Bits(r[..], p)
    requires exists m :: p <= m < 256 && r[m] == 0
    modifies r
    ensures Binary(r[..]) == old(Binary(r[..])) + Two(p)
    ensures Bits(r[..], p) && r[..p] == old(r[..p])
    ensures old(r[p]) == 1 ==> r[p] == 0
  {
    ghost var m :| p <= m < 256 && r[m] == 0;
    var k := p;
    while k < 256
      invariant p <= k <= m
      invariant Binary(r[..]) + Two(k) == old(Binary(r[..])) + Two(p)
      invariant forall j :: p <= j < k ==> r[j] == 0
      invariant forall j :: 0 <= j < p || k <= j < 256 ==> r[j] == old(r[j])
    {
      ghost var before := r[..];
      if r[k] == 0 {
        r[k] := 1;
        BinaryUpdate(before, k, 1);
        assert r[..] == before[k := 1];
        break;
      }
      r[k] := 0;
      BinaryUpdate(before, k, 0);
      assert r[..] == before[k := 0];
      k := k + 1;
    }
  }

  /** What is left of the number `a` after dropping `p` bytes and `s` bits. */
  ghost function BitsFrom(a: seq<byte>, p: nat, s: nat): int
    requires p <= |a|
  {
    LittleEndian(a[p..]) / Two(s)
  }

  lemma BitStep(a: seq<byte>, p: nat, s: nat)
    requires p < |a| && s < 8
    ensures BitsFrom(a, p, s) % 2 == a[p] / Two(s) % 2
    ensures BitsFrom(a, p, s) / 2 == if s < 7 then BitsFrom(a, p, s + 1) else BitsFrom(a, p + 1, 0)
  {
    var x, y := LittleEndian(a[p..]), LittleEndian(a[p + 1..]);
    DropByte(a, p);
    TwoValues();
    TwoAdd(s, 8 - s);
    TwoAdd(1, 7 - s);
    MulAssoc(Two(s), Two(8 - s), 0x100, y);
    MulAssoc(2, Two(7 - s), Two(8 - s), y);
    DivAdd(x, a[p], Two(s), Two(8 - s) * y);
    DivAdd(x / Two(s), a[p] / Two(s), 2, Two(7 - s) * y);
    DivDiv(x, Two(s), 2);
    TwoAdd(s, 1);
    if s == 7 { DivAdd(x, a[p], 0x100, y); }
  }

  lemma {:induction false} BinaryOfBits(r: seq<int>, a: seq<byte>, i: nat)
    requires |r| == 8 * |a| && i <= |r|
    requires forall k :: 0 <= k < |r| ==> r[k] == a[k / 8] / Two(k % 8) % 2
    ensures Binary(r[i..]) == BitsFrom(a, i / 8, i % 8)
    decreases |r| - i
  {
    if i < |r| {
      BinaryOfBits(r, a, i + 1);
      BitStep(a, i / 8, i % 8);
      assert r[i..][1..] == r[i + 1..];
    } else {
      assert a[|a|..] == [];
    }
  }

  method LoadBits(r: array<int8>, a: array<byte>)
    requires r.Length == 256 && a.Length == 32
    modifies r
    ensures Bits(r[..], 0) && Binary(r[..]) == LittleEndian(a[..])
  {
    for i := 0 to 256
      invariant forall k :: 0 <= k < i ==> r[k] == a[k / 8] / Two(k % 8) % 2
    {
      r[i] := a[i / 8] / Two(i % 8) % 2;
    }
    BinaryOfBits(r[..], a[..], 0);
    assert r[..][0..] == r[..] && a[..][0..] == a[..];
  }

  /** The array while digit `i` is being widened by the bits up to `i + b`. */
  ghost predicate Widening(r: seq<int>, i: nat, b: nat) {
    && |r| == 256 && i < 256 && i + b <= 256
    && Spread(r, i) && Bits(r, i + 1)
    && r[i] % 2 == 1 && -15 <= r[i] <= 15
    && forall k {:trigger r[k]} :: i < k < i + b ==> r[k] == 0
  }

  lemma WideningKept(t: seq<int>, s: seq<int>, i: nat, b: nat)
    requires Widening(s, i, b) && b >= 1 && i + b < 256 == |t|
    requires forall k {:trigger t[k]} :: 0 <= k < i + b && k != i ==> t[k] == s[k]
    requires t[i] == s[i] + Two(b) <= 15 || -15 <= t[i] == s[i] - Two(b) <= s[i]
    requires Bits(t, i + b)
    ensures Widening(t, i, b)
  {
    assert t[..i] == s[..i];
    SpreadKeep(t, s, i);
  }

  /** Changing digit `i` by a multiple of 2^b changes the number by the bit `i + b`. */
  lemma DigitValue(s: seq<int>, i: nat, b: nat, sign: int)
    requires i < |s|
    ensures Binary(s[i := s[i] + sign * Two(b)]) == Binary(s) + sign * Two(i + b)
  {
    BinaryUpdate(s, i, s[i] + sign * Two(b));
    TwoAdd(b, i);
    MulAssoc(sign, Two(b), sign * Two(b), Two(i));
  }

  method AddBit(r: array<int8>, i: nat, b: nat)
    requires 1 <= b <= 6 && i + b < 256 && r.Length == 256
    requires Widening(r[..], i, b) && r[i + b] == 1 && r[i] + Two(b) <= 15
    modifies r
    ensures Widening(r[..], i, b) && r[i + b] == 0 && Binary(r[..]) == old(Binary(r[..]))
  {
    hide Binary, Two, Spread;
    ghost var before := r[..];
    DigitValue(before, i, b, 1);
    r[i] := r[i] + Two(b);
    ghost var middle := r[..];
    assert middle == before[i := before[i] + 1 * Two(b)];
    BinaryUpdate(middle, i + b, 0);
    r[i + b] := 0;
    assert r[..] == middle[i + b := 0];
    WideningKept(r[..], before, i, b);
  }

  method SubtractBit(r: array<int8>, i: nat, b: nat)
    requires 1 <= b <= 6 && i + b < 256 && r.Length == 256
    requires Widening(r[..], i, b) && r[i + b] == 1 && r[i] + Two(b) > 15 && r[i] - Two(b) >= -15
    requires Binary(r[..]) < Two(255)
    modifies r
    ensures Widening(r[..], i, b) && r[i + b] == 0 && Binary(r[..]) == old(Binary(r[..]))
  {
    hide Binary, Two, Spread;
    ghost var before := r[..];
    Positive(r[i], b);
    CarryStops(before, i, i + b);
    ghost var m :| i + b <= m < 256 && before[m] == 0;
    DigitValue(before, i, b, -1);
    r[i] := r[i] - Two(b);
    ghost var middle := r[..];
    assert middle == before[i := before[i] + -1 * Two(b)];
    assert middle[m] == 0;
    CarryUp(r, i + b);
    PrefixKept(r[..], middle, i + b);
    WideningKept(r[..], before, i, b);
  }

  lemma PrefixKept(r: seq<int>, s: seq<int>, n: nat)
    requires n <= |r| == |s| && r[..n] == s[..n]
    ensures forall k {:trigger r[k]} :: 0 <= k < n ==> r[k] == s[k]
  {
    forall k {:trigger r[k]} | 0 <= k < n ensures r[k] == s[k] {
      assert r[..n][k] == s[..n][k];
    }
  }

  lemma Positive(x: int, b: nat)
    requires 1 <= b <= 6 && x % 2 == 1 && -15 <= x <= 15 && x + Two(b) > 15 && x - Two(b) >= -15
    ensures x > 0
  {
    match b
    case 1 => case 2 => case 3 => case 4 => case 5 => case 6 =>
  }

  lemma WindowFull(r: seq<int>, i: nat, b: nat)
    requires Widening(r, i, b) && (b > 4 || i + b == 256)
    ensures Spread(r, i + 1)
  {
  }

  /** Absorbs the bits above digit `i` into it until its window is full. */
  method Widen(r: array<int8>, i: nat)
    requires r.Length == 256 && i < 256 && Spread(r[..], i) && Bits(r[..], i) && Binary(r[..]) < Two(255) && r[i] != 0
    modifies r
    ensures Spread(r[..], i + 1) && Bits(r[..], i + 1) && Binary(r[..]) == old(Binary(r[..]))
  {
    hide Binary, Two, Spread;
    var b := 1;
    assert r[..][i] == 1;
    while b <= 6 && i + b < 256
      invariant 1 <= b <= 7 && Widening(r[..], i, b) && Binary(r[..]) == old(Binary(r[..]))
    {
      if r[i + b] != 0 {
        assert r[..][i + b] == 1;
        if r[i] + r[i + b] * Two(b) <= 15 {
          AddBit(r, i, b);
        } else if r[i] - r[i + b] * Two(b) >= -15 {
          SubtractBit(r, i, b);
        } else {
          Full(r[i], b);
          break;
        }
      }
      b := b + 1;
    }
    WindowFull(r[..], i, b);
  }

  lemma Full(x: int, b: nat)
    requires 1 <= b <= 6 && x % 2 == 1 && x + Two(b) > 15 && x - Two(b) < -15
    ensures b > 4
  {
    match b
    case 1 => case 2 => case 3 => case 4 => case 5 => case 6 =>
  }

  /** r = the sliding-window form of the scalar `a`. */
  method Slide(r: array<int8>, a: array<byte>)
    requires r.Length == 256 && a.Length == 32 && a[31] <= 127
    modifies r
    ensures Spread(r[..], 256) && Binary(r[..]) == LittleEndian(a[..])
  {
    hide Binary, Two, LittleEndian;
    TopBit(a[..]);
    LoadBits(r, a);
    for i := 0 to 256
      invariant Spread(r[..], i) && Bits(r[..], i) && Binary(r[..]) == LittleEndian(a[..])
    {
      if r[i] != 0 { Widen(r, i); }
    }
  }

  lemma {:induction false} TopBit(a: seq<byte>)
    requires a != [] && a[|a| - 1] <= 127
    ensures LittleEndian(a) < Two(8 * |a| - 1)
  {
    TwoValues();
    if |a| > 1 {
      TopBit(a[1..]);
      TwoAdd(8, 8 * |a| - 9);
    } else {
      assert a[1..] == [];
    }
  }
}
