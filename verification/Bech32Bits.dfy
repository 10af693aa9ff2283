/** Regrouping of bits: the same number in digits of another width. */
module Bech32Bits {
  import opened Arith
  import opened MachineInts
  import opened Wrappers

  /** The number with these digits of `w` bits, most significant first. */
  function Number(s: seq<int>, w: nat): int {
    if s == [] then 0 else Number(s[..|s| - 1], w) * Two(w) + s[|s| - 1]
  }

  /** The last `k` digits of a number. */
  function Digits(n: int, w: nat, k: nat): (s: seq<int>)
    ensures |s| == k
    decreases k
  {
    if k == 0 then [] else Digits(n / Two(w), w, k - 1) + [n % Two(w)]
  }

  ghost predicate Below(s: seq<int>, m: int) {
    forall i {:trigger s[i]} :: 0 <= i < |s| ==> 0 <= s[i] < m
  }

  lemma GroupCounts(count: nat, from: nat, to: nat)
    requires to > 0
    ensures count * from / to >= 0 && 0 <= count * from % to < to
  {
    MulMono(0, count, from);
  }

  /** The complete groups; the bits left over must be fewer than a source digit, and zero, unless they are padded. */
  function Regroup(data: seq<int>, from: nat, to: nat, pad: bool): Option<seq<int>>
    requires to > 0
  {
    GroupCounts(|data|, from, to);
    var n, q, r := Number(data, from), |data| * from / to, |data| * from % to;
    if exists i :: 0 <= i < |data| && data[i] >= Two(from) then None
    else if pad then
      if r > 0 then Some(Digits(n * Two(to - r), to, q + 1)) else Some(Digits(n, to, q))
    else if r >= from || n % Two(r) != 0 then None
    else Some(Digits(n / Two(r), to, q))
  }

  lemma {:induction false} DigitsOfNumber(s: seq<int>, w: nat)
    requires Below(s, Two(w))
    ensures Digits(Number(s, w), w, |s|) == s
  {
    hide Two, Number;
    if s != [] {
      var t, x := s[..|s| - 1], s[|s| - 1];
      assert s == t + [x];
      DigitsOfNumber(t, w);
      NumberAppend(t, x, w);
      LastOf(Number(t, w), Two(w), x);
    }
  }

  lemma LastOf(n: int, b: int, x: int)
    requires 0 <= x < b
    ensures (n * b + x) / b == n && (n * b + x) % b == x
  {
    Commute(n, b);
    DivUnique(n * b + x, b, n, x);
  }

  lemma NumberAppend(s: seq<int>, x: int, w: nat)
    ensures Number(s + [x], w) == Number(s, w) * Two(w) + x
  {
    assert (s + [x])[..|s|] == s;
  }

  lemma NoDigits(w: nat)
    ensures Number([], w) == 0
  {
  }

  lemma Recompose(n: int, p: int)
    requires p > 0
    ensures n / p * p + n % p == n
  {
  }

  lemma OneFactorLess(w: nat, k: nat)
    requires k > 0
    ensures w * k == w + w * (k - 1) && w * (k - 1) >= 0
  {
    MulMono(0, k - 1, w);
  }

  lemma OneDigitLess(n: int, w: nat, k: nat)
    requires k > 0 && 0 <= n < Two(w * k)
    ensures 0 <= n / Two(w) < Two(w * (k - 1)) && 0 <= n % Two(w) < Two(w)
  {
    hide Two;
    OneFactorLess(w, k);
    TwoAdd(w, w * (k - 1));
    SplitDigit(n, Two(w), Two(w * (k - 1)));
  }

  lemma SplitDigit(n: int, b: int, m: int)
    requires b > 0 && 0 <= n < b * m
    ensures 0 <= n / b < m && 0 <= n % b < b
  {
    DivBelow(n, b, m);
  }

  lemma {:induction false} NumberOfDigits(n: int, w: nat, k: nat)
    requires 0 <= n < Two(w * k)
    ensures Number(Digits(n, w, k), w) == n && Below(Digits(n, w, k), Two(w))
    decreases k
  {
    hide Two, Number;
    if k == 0 {
      assert Number([], w) == 0 by { NoDigits(w); }
      assert w * k == 0;
      TwoValues();
    } else {
      OneDigitLess(n, w, k);
      var q, x := n / Two(w), n % Two(w);
      NumberOfDigits(q, w, k - 1);
      NumberAppend(Digits(q, w, k - 1), x, w);
      Recompose(n, Two(w));
    }
  }

  lemma {:induction false} NumberBound(s: seq<int>, w: nat)
    requires Below(s, Two(w))
    ensures 0 <= Number(s, w) < Two(w * |s|)
  {
    if s == [] {
      assert w * 0 == 0;
    } else {
      hide Two;
      var t, x := s[..|s| - 1], s[|s| - 1];
      NumberBound(t, w);
      assert w * |s| == w * |t| + w;
      TwoAdd(w * |t|, w);
      DigitBound(Number(t, w), Two(w * |t|), Two(w), x);
    }
  }

  lemma DigitBound(n: int, m: int, b: int, x: int)
    requires 0 <= n < m && 0 <= x < b
    ensures 0 <= n * b + x < m * b
  {
    MulMono(n + 1, m, b);
    MulMono(0, n, b);
    assert (n + 1) * b == n * b + b;
  }

  // The accumulator of the source, a 32-bit word whose low bits are the pending ones.

  /** The word after a digit is shifted in: its low bits are the old ones and the digit. */
  lemma ShiftIn(acc: int, v: int, f: int, b: int, m: int, k: int)
    requires acc >= 0 && f > 0 && b > 0 && k > 0 && m == k * (b * f) && 0 <= v < f
    ensures b * f > 0 && 0 <= acc * f % m <= m - f && acc * f % m % f == 0
    ensures (acc * f % m + v) % (b * f) == acc % b * f + v
  {
    MulMono(1, b, f);
    MulMono(1, k, b * f);
    MulMono(0, acc, f);
    var q, s := acc * f / m, acc * f % m;
    MulAssoc(k, b * f, m, q);
    var kb := k * b;
    assert m == kb * f by { MulAssoc(k, b, kb, f); }
    MulAssoc(kb, f, m, q);
    assert s == f * (acc - kb * q) by { Rearrange(acc, f, kb, q, m, s); }
    DivUnique(s, f, acc - kb * q, 0);
    Quotients(s, f, acc - kb * q, kb);
    var u, low := acc / b, acc % b;
    assert acc - kb * q == b * (u - k * q) + low by { Split(acc, b, u, low, k, q, kb); }
    LowPart(s, f, b, acc - kb * q, u - k * q, low, v);
  }

  lemma Rearrange(acc: int, f: int, kb: int, q: int, m: int, s: int)
    requires m == kb * f && acc * f == m * q + s
    ensures s == f * (acc - kb * q)
  {
    assert m * q == f * (kb * q);
  }

  lemma Split(acc: int, b: int, u: int, low: int, k: int, q: int, kb: int)
    requires acc == b * u + low && kb == k * b
    ensures acc - kb * q == b * (u - k * q) + low
  {
    assert kb * q == b * (k * q);
  }

  /** A multiple of f below kb * f is at most (kb - 1) * f. */
  lemma Quotients(s: int, f: int, c: int, kb: int)
    requires s == f * c && 0 <= s < kb * f && f > 0
    ensures s <= kb * f - f
  {
    if c >= kb { MulMono(kb, c, f); }
    MulMono(c, kb - 1, f);
    assert (kb - 1) * f == kb * f - f;
  }

  lemma LowPart(s: int, f: int, b: int, c: int, w: int, low: int, v: int)
    requires s == f * c && c == b * w + low && 0 <= low < b && 0 <= v < f && f > 0
    ensures b * f > 0 && (s + v) % (b * f) == low * f + v
  {
    MulMono(1, b, f);
    MulMono(0, low, f);
    MulMono(low, b - 1, f);
    assert (b - 1) * f == b * f - f;
    assert f * (b * w + low) == (b * f) * w + low * f;
    DivUnique(s + v, b * f, w, low * f + v);
  }

  /** Taking the upper `t` of the pending bits off. */
  lemma ShiftOut(acc: int, t: int, b: int)
    requires acc >= 0 && t > 0 && b > 0
    ensures t * b > 0 && acc % (t * b) == acc / b % t * b + acc % b
  {
    var q, low := acc / b, acc % b;
    var u, out := q / t, q % t;
    MulMono(1, t, b);
    MulMono(0, out, b);
    MulMono(out, t - 1, b);
    assert (t - 1) * b == t * b - b;
    assert b * (t * u + out) + low == (t * b) * u + (out * b + low);
    DivUnique(acc, t * b, u, out * b + low);
  }

  lemma ModMod(x: int, d: int, k: int)
    requires d > 0 && k > 0
    ensures k * d > 0 && x % (k * d) % d == x % d
  {
    MulMono(1, k, d);
    var y := x % (k * d);
    var q := x / (k * d);
    assert x == y + d * (k * q) by { MulAssoc(k, d, k * d, q); }
    DivAdd(x, y, d, k * q);
  }

  /** The word and the digits written so far hold the digits read so far. */
  ghost predicate Holds(data: seq<int>, from: nat, ret: seq<int>, to: nat, acc: int, bits: nat) {
    && 0 <= acc < 0x1_0000_0000 && |data| * from == |ret| * to + bits
    && Below(ret, Two(to)) && Number(data, from) == Number(ret, to) * Two(bits) + acc % Two(bits)
  }

  lemma Start(from: nat, to: nat)
    ensures Holds([], from, [], to, 0, 0)
  {
  }

  lemma Widths(f: nat, b: nat)
    requires f + b <= 32
    ensures 0x1_0000_0000 == Two(32 - b - f) * (Two(b) * Two(f)) && Two(b + f) == Two(b) * Two(f)
  {
    TwoAdd(b, f);
    TwoAdd(32 - b - f, b + f);
    TwoValues();
  }

  lemma DigitIn(data: seq<int>, from: nat, v: int, ret: seq<int>, to: nat, acc: int, bits: nat)
    requires Holds(data, from, ret, to, acc, bits) && from + bits <= 32 && 0 <= v < Two(from)
    ensures acc * Two(from) % 0x1_0000_0000 % Two(from) == 0
    ensures Holds(data + [v], from, ret, to, acc * Two(from) % 0x1_0000_0000 + v, bits + from)
  {
    hide Two;
    var f, b := Two(from), Two(bits);
    Widths(from, bits);
    ShiftIn(acc, v, f, b, 0x1_0000_0000, Two(32 - bits - from));
    var n, low := Number(ret, to), acc % b;
    assert (data + [v])[..|data|] == data;
    Grow(n, b, f, low, v);
    assert (|data| + 1) * from == |data| * from + from;
  }

  lemma Grow(n: int, b: int, f: int, low: int, v: int)
    ensures (n * b + low) * f + v == n * (b * f) + (low * f + v)
  {
  }

  lemma DigitOut(data: seq<int>, from: nat, ret: seq<int>, to: nat, acc: int, bits: nat)
    requires Holds(data, from, ret, to, acc, bits) && to <= bits && to <= 8
    ensures acc / Two(bits - to) % 0x100 % Two(to) == acc / Two(bits - to) % Two(to)
    ensures Holds(data, from, ret + [acc / Two(bits - to) % Two(to)], to, acc, bits - to)
  {
    hide Two;
    var t, b := Two(to), Two(bits - to);
    TwoAdd(to, bits - to);
    TwoAdd(8 - to, to);
    TwoValues();
    ModMod(acc / b, t, Two(8 - to));
    ShiftOut(acc, t, b);
    var x := acc / b % t;
    var r := ret + [x];
    assert r[..|ret|] == ret;
    MulAssoc(t, b, t * b, 0);
    Shrink(Number(ret, to), t, b, x, acc % b);
    assert (|ret| + 1) * to == |ret| * to + to;
  }

  lemma Shrink(n: int, t: int, b: int, x: int, low: int)
    ensures n * (t * b) + (x * b + low) == (n * t + x) * b + low
  {
  }

  /** What is written when all digits are read. */
  lemma AllRead(data: seq<int>, from: nat, ret: seq<int>, to: nat, acc: int, bits: nat)
    requires Holds(data, from, ret, to, acc, bits) && bits < to
    ensures |data| * from / to == |ret| && |data| * from % to == bits
    ensures Number(data, from) / Two(bits) == Number(ret, to) && Number(data, from) % Two(bits) == acc % Two(bits)
    ensures ret == Digits(Number(data, from) / Two(bits), to, |ret|)
  {
    hide Two, Number, Digits, Holds;
    HeldNumber(data, from, ret, to, acc, bits);
    DivUnique(|data| * from, to, |ret|, bits);
    DivUnique(Number(data, from), Two(bits), Number(ret, to), acc % Two(bits));
    DigitsOfNumber(ret, to);
  }

  lemma HeldNumber(data: seq<int>, from: nat, ret: seq<int>, to: nat, acc: int, bits: nat)
    requires Holds(data, from, ret, to, acc, bits)
    ensures |data| * from == to * |ret| + bits && Below(ret, Two(to))
    ensures Number(data, from) == Two(bits) * Number(ret, to) + acc % Two(bits) && 0 <= acc % Two(bits) < Two(bits)
  {
    hide Two, Number, Below;
    Commute(|ret|, to);
    Commute(Number(ret, to), Two(bits));
    Remainder(acc, Two(bits));
  }

  lemma Commute(x: int, y: int)
    ensures x * y == y * x
  {
  }

  lemma Remainder(x: int, d: int)
    requires d > 0
    ensures 0 <= x % d < d
  {
  }

  /** The left-over bits moved to the top of a digit. */
  lemma PaddedDigit(acc: int, bits: nat, to: nat)
    requires 0 <= acc < 0x1_0000_0000 && bits <= to <= 8
    ensures acc * Two(to - bits) % 0x1_0000_0000 % 0x100 % Two(to) == acc % Two(bits) * Two(to - bits) < Two(to)
    ensures acc % Two(bits) * Two(to - bits) >= 0
    ensures acc % Two(bits) * Two(to - bits) == 0 <==> acc % Two(bits) == 0
  {
    hide Two;
    var f, b := Two(to - bits), Two(bits);
    Widths(to - bits, bits);
    ShiftIn(acc, 0, f, b, 0x1_0000_0000, Two(32 - to));
    TwoAdd(8 - to, to);
    TwoValues();
    ModMod(acc * f % 0x1_0000_0000, Two(to), Two(8 - to));
    MulMono(0, acc % b, f);
    if acc % b > 0 { MulMono(1, acc % b, f); }
  }

  lemma LastDigit(data: seq<int>, from: nat, ret: seq<int>, to: nat, acc: int, bits: nat)
    requires Holds(data, from, ret, to, acc, bits) && 0 < bits < to <= 8
    ensures ret + [acc % Two(bits) * Two(to - bits)] == Digits(Number(data, from) * Two(to - bits), to, |ret| + 1)
  {
    hide Two;
    var f, b := Two(to - bits), Two(bits);
    TwoAdd(bits, to - bits);
    PaddedDigit(acc, bits, to);
    var x := acc % b * f;
    var r := ret + [x];
    assert r[..|ret|] == ret;
    Grow(Number(ret, to), b, f, acc % b, 0);
    DigitsOfNumber(r, to);
  }

  /** Regroups digits of `from` bits into digits of `to` bits; a digit that is too wide is an error. */
  method ConvertBits(data: seq<byte>, from: nat, to: nat, pad: bool) returns (r: Option<seq<byte>>)
    requires 1 <= from <= 8 && 1 <= to <= 8
    ensures r == Regroup(data, from, to, pad)
  {
    hide Two, Holds, Digits, Number;
    var ret: seq<byte> := [];
    var acc: uint32 := 0;
    var bits := 0;
    TwoBound(from);
    TwoBound(to);
    Start(from, to);
    assert data[..0] == [];
    for idx := 0 to |data|
      invariant 0 <= bits < to && Holds(data[..idx], from, ret, to, acc, bits) && 0 <= acc < 0x1_0000_0000
      invariant forall i {:trigger data[i]} :: 0 <= i < idx ==> data[i] < Two(from)
    {
      var value := data[idx];
      if value >= Two(from) { return None; }
      assert data[..idx + 1] == data[..idx] + [value];
      DigitIn(data[..idx], from, value, ret, to, acc, bits);
      HoldsBound(data[..idx + 1], from, ret, to, acc as int * Two(from) % 0x1_0000_0000 + value, bits + from);
      acc := acc as int * Two(from) % 0x1_0000_0000 + value as int;
      bits := bits + from;
      bits, ret := WriteDigits(acc, bits, ret, to, data[..idx + 1], from);
    }
    assert data[..|data|] == data;
    AllRead(data, from, ret, to, acc, bits);
    PaddedDigit(acc, bits, to);
    var last: byte := acc as int * Two(to - bits) % 0x1_0000_0000 % 0x100;
    if pad {
      if bits > 0 {
        LastDigit(data, from, ret, to, acc, bits);
        ret := ret + [last as int % Two(to)];
      } else {
        assert Two(0) == 1 by { TwoValues(); }
      }
    } else if bits >= from {
      return None;
    } else if last as int % Two(to) != 0 {
      return None;
    }
    r := Some(ret);
  }

  /** Writes out digits as long as enough bits are pending. */
  method WriteDigits(acc: uint32, bits0: nat, ret0: seq<byte>, to: nat, ghost data: seq<int>, ghost from: nat) returns (bits: nat, ret: seq<byte>)
    requires 1 <= to <= 8 && Holds(data, from, ret0, to, acc, bits0)
    ensures bits < to && Holds(data, from, ret, to, acc, bits)
  {
    hide Two, Holds;
    bits, ret := bits0, ret0;
    TwoBound(to);
    while bits >= to
      invariant Holds(data, from, ret, to, acc, bits)
    {
      DigitOut(data, from, ret, to, acc, bits);
      bits := bits - to;
      var x: byte := acc as int / Two(bits) % 0x100;
      ret := ret + [x as int % Two(to)];
    }
  }

  lemma HoldsBound(data: seq<int>, from: nat, ret: seq<int>, to: nat, acc: int, bits: nat)
    requires Holds(data, from, ret, to, acc, bits)
    ensures 0 <= acc < 0x1_0000_0000
  {
  }

  lemma TwoBound(w: nat)
    requires w <= 8
    ensures Two(w) <= 0x100
  {
    hide Two;
    TwoAdd(w, 8 - w);
    TwoValues();
    MulMono(1, Two(8 - w), Two(w));
  }

  // Bytes to five-bit symbols and back.

  lemma Scaled(n: int, a: nat, p: nat)
    requires 0 <= n < Two(a)
    ensures 0 <= n * Two(p) < Two(a + p) && n * Two(p) / Two(p) == n && n * Two(p) % Two(p) == 0
  {
    hide Two;
    TwoAdd(a, p);
    MulMono(n, Two(a) - 1, Two(p));
    assert (Two(a) - 1) * Two(p) == Two(a) * Two(p) - Two(p);
    MulMono(0, n, Two(p));
    DivUnique(n * Two(p), Two(p), n, 0);
  }

  lemma Unscaled(n: int, a: nat, p: nat)
    requires 0 <= n < Two(a + p) && n % Two(p) == 0
    ensures 0 <= n / Two(p) < Two(a) && n / Two(p) * Two(p) == n
  {
    hide Two;
    TwoAdd(a, p);
    DivBelow(n, Two(p), Two(a));
  }

  /** The symbols that `p` zero bits complete. */
  lemma SymbolsOfBytes(data: seq<int>, s: seq<int>, p: nat)
    requires Below(data, 0x100) && |s| * 5 == |data| * 8 + p && p < 5
    requires s == Digits(Number(data, 8) * Two(p), 5, |s|)
    ensures Below(s, 32) && Regroup(s, 5, 8, false) == Some(data)
  {
    hide Two, Digits, Number, Regroup;
    SmallTwos();
    var n := Number(data, 8);
    NumberBound(data, 8);
    Scaled(n, 8 * |data|, p);
    assert Two(8 * |data| + p) == Two(5 * |s|);
    NumberOfDigits(n * Two(p), 5, |s|);
    DigitsOfNumber(data, 8);
    DivUnique(|s| * 5, 8, |data|, p);
    GroupsOfSymbols(s, n, |data|, p);
  }

  lemma SmallTwos()
    ensures Two(0) == 1 && Two(5) == 32 && Two(8) == 0x100
  {
    TwoValues();
  }

  lemma GroupsOfSymbols(s: seq<int>, n: int, k: nat, p: nat)
    requires Below(s, 32) && Number(s, 5) == n * Two(p) && n * Two(p) % Two(p) == 0 && n * Two(p) / Two(p) == n
    requires |s| * 5 / 8 == k && |s| * 5 % 8 == p < 5
    ensures Regroup(s, 5, 8, false) == Some(Digits(n, 8, k))
  {
    hide Two, Digits, Number;
    SmallTwos();
  }

  /** Symbols to bytes is the inverse of bytes to symbols. */
  lemma BytesSymbolsBytes(data: seq<int>)
    requires Below(data, 0x100)
    ensures Regroup(data, 8, 5, true).Some?
    ensures var s := Regroup(data, 8, 5, true).value; Below(s, 32) && Regroup(s, 5, 8, false) == Some(data)
  {
    hide Two, Digits, Number;
    TwoValues();
    var q, r := |data| * 8 / 5, |data| * 8 % 5;
    var s := Regroup(data, 8, 5, true).value;
    if r > 0 {
      SymbolsOfBytes(data, s, 5 - r);
    } else {
      assert Number(data, 8) * Two(0) == Number(data, 8);
      SymbolsOfBytes(data, s, 0);
    }
  }

  /** Bytes to symbols is the inverse of symbols to bytes, where that is not an error. */
  lemma SymbolsBytesSymbols(s: seq<int>)
    requires Below(s, 32) && Regroup(s, 5, 8, false).Some?
    ensures var data := Regroup(s, 5, 8, false).value; Below(data, 0x100) && Regroup(data, 8, 5, true) == Some(s)
  {
    hide Two, Digits, Number;
    SmallTwos();
    var data, n, r := Regroup(s, 5, 8, false).value, |s| * 5 / 8, |s| * 5 % 8;
    NumberBound(s, 5);
    Unscaled(Number(s, 5), 8 * n, r);
    NumberOfDigits(Number(s, 5) / Two(r), 8, n);
    DigitsOfNumber(s, 5);
    if r > 0 {
      DivUnique(n * 8, 5, |s| - 1, 5 - r);
    } else {
      DivUnique(n * 8, 5, |s|, 0);
    }
  }
}
