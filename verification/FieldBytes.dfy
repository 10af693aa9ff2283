/** Field elements to and from their 32-byte encoding. */
module FieldBytes {
  import opened Arith
  import opened Bytes
  import opened MachineInts
  import opened Field

  /** Sixteen bytes, read as chunks of four, three, three, three and three. */
  lemma ChunksValue(a: seq<byte>, p: nat)
    requires p + 16 <= |a|
    ensures LittleEndian(a[p..]) == Load4(a, p) + 0x1_0000_0000 * (Load3(a, p + 4) + 0x100_0000 * (Load3(a, p + 7) +
      0x100_0000 * (Load3(a, p + 10) + 0x100_0000 * (Load3(a, p + 13) + 0x100_0000 * LittleEndian(a[p + 16..])))))
  {
    Load4Tail(a, p);
    Load3Tail(a, p + 4);
    Load3Tail(a, p + 7);
    Load3Tail(a, p + 10);
    Load3Tail(a, p + 13);
  }

  lemma AllChunks(a: seq<byte>)
    requires |a| == 32
    ensures LittleEndian(a) == Load4(a, 0) + 0x1_0000_0000 * (Load3(a, 4) + 0x100_0000 * (Load3(a, 7) + 0x100_0000 *
      (Load3(a, 10) + 0x100_0000 * (Load3(a, 13) + 0x100_0000 * (Load4(a, 16) + 0x1_0000_0000 * (Load3(a, 20) +
      0x100_0000 * (Load3(a, 23) + 0x100_0000 * (Load3(a, 26) + 0x100_0000 * Load3(a, 29)))))))))
  {
    ChunksValue(a, 0);
    ChunksValue(a, 16);
    assert a[0..] == a && a[32..] == [];
  }

  /** The ten chunks, shifted to where their limbs start, without the topmost bit. */
  lemma LimbsValue(h: seq<int>, a0: int, a1: int, a2: int, a3: int, a4: int, a5: int, a6: int, a7: int, a8: int, a9: int)
    requires h == [a0, a1 * 0x40, a2 * 0x20, a3 * 0x8, a4 * 0x4, a5, a6 * 0x80, a7 * 0x20, a8 * 0x10, a9 % 0x80_0000 * 0x4]
    ensures Value(h) + a9 / 0x80_0000 * (P + 19) ==
      a0 + 0x1_0000_0000 * (a1 + 0x100_0000 * (a2 + 0x100_0000 * (a3 + 0x100_0000 * (a4 + 0x100_0000 *
      (a5 + 0x1_0000_0000 * (a6 + 0x100_0000 * (a7 + 0x100_0000 * (a8 + 0x100_0000 * a9))))))))
  {
    Expand(h);
  }

  lemma LimbsRange(h: seq<int>, a0: int, a1: int, a2: int, a3: int, a4: int, a5: int, a6: int, a7: int, a8: int, a9: int)
    requires h == [a0, a1 * 0x40, a2 * 0x20, a3 * 0x8, a4 * 0x4, a5, a6 * 0x80, a7 * 0x20, a8 * 0x10, a9 % 0x80_0000 * 0x4]
    requires 0 <= a0 < 0x1_0000_0000 && 0 <= a1 < 0x100_0000 && 0 <= a2 < 0x100_0000 && 0 <= a3 < 0x100_0000
    requires 0 <= a4 < 0x100_0000 && 0 <= a5 < 0x1_0000_0000 && 0 <= a6 < 0x100_0000 && 0 <= a7 < 0x100_0000
    requires 0 <= a8 < 0x100_0000
    ensures 0 <= Value(h) < P + 19
  {
    Expand(h);
  }

  lemma LimbsAreRemainder(n: int, h: seq<int>,
                          a0: int, a1: int, a2: int, a3: int, a4: int, a5: int, a6: int, a7: int, a8: int, a9: int)
    requires h == [a0, a1 * 0x40, a2 * 0x20, a3 * 0x8, a4 * 0x4, a5, a6 * 0x80, a7 * 0x20, a8 * 0x10, a9 % 0x80_0000 * 0x4]
    requires 0 <= a0 < 0x1_0000_0000 && 0 <= a1 < 0x100_0000 && 0 <= a2 < 0x100_0000 && 0 <= a3 < 0x100_0000
    requires 0 <= a4 < 0x100_0000 && 0 <= a5 < 0x1_0000_0000 && 0 <= a6 < 0x100_0000 && 0 <= a7 < 0x100_0000
    requires 0 <= a8 < 0x100_0000
    requires n == a0 + 0x1_0000_0000 * (a1 + 0x100_0000 * (a2 + 0x100_0000 * (a3 + 0x100_0000 * (a4 + 0x100_0000 *
      (a5 + 0x1_0000_0000 * (a6 + 0x100_0000 * (a7 + 0x100_0000 * (a8 + 0x100_0000 * a9))))))))
    ensures Value(h) == n % (P + 19)
  {
    LimbsValue(h, a0, a1, a2, a3, a4, a5, a6, a7, a8, a9);
    LimbsRange(h, a0, a1, a2, a3, a4, a5, a6, a7, a8, a9);
    DivUnique(n, P + 19, a9 / 0x80_0000, Value(h));
  }

  /** dst = src mod 2^255, modulo p. */
  method FeFromBytes(dst: array<int32>, src: array<byte>)
    requires dst.Length == 10 && src.Length == 32
    modifies dst
    ensures Tight(dst[..])
    ensures Congruent(Value(dst[..]), LittleEndian(src[..]) % (P + 19))
  {
    var a := src[..];
    var h := UnpackLimbs(a);
    FeCombine(dst, h);
  }

  method UnpackLimbs(a: seq<byte>) returns (h: seq<int64>)
    requires |a| == 32
    ensures Within(h, 0x4000_0000_0000_0000, 0x4000_0000_0000_0000)
    ensures Value(h) == LittleEndian(a) % (P + 19)
  {
    h := [Load4(a, 0), Load3(a, 4) * 0x40, Load3(a, 7) * 0x20, Load3(a, 10) * 0x8, Load3(a, 13) * 0x4,
          Load4(a, 16), Load3(a, 20) * 0x80, Load3(a, 23) * 0x20, Load3(a, 26) * 0x10,
          Load3(a, 29) % 0x80_0000 * 0x4];
    AllChunks(a);
    LimbsAreRemainder(LittleEndian(a), h, Load4(a, 0), Load3(a, 4), Load3(a, 7), Load3(a, 10), Load3(a, 13),
                      Load4(a, 16), Load3(a, 20), Load3(a, 23), Load3(a, 26), Load3(a, 29));
  }

  /** Limbs that are proper digits: nonnegative and below 2^26 or 2^25. */
  ghost predicate Digits(d: seq<int>) {
    |d| <= 10 && forall i {:trigger d[i]} :: 0 <= i < |d| ==> 0 <= d[i] < if (|d| - i) % 2 == 0 then 0x400_0000 else 0x200_0000
  }

  function Width(i: nat): nat {
    if i % 2 == 0 then 26 else 25
  }

  /** The first bit of limb `i`: 25.5 * i, rounded up. */
  function Start(i: nat): nat {
    i / 2 * 51 + i % 2 * 26
  }

  lemma StartStep(i: nat)
    ensures Start(i + 1) == Start(i) + Width(i)
  {
  }

  lemma LimbOfByte(k: nat, i: nat, s: nat)
    requires 8 * k == Start(i) + s && s < Width(i)
    ensures i == 16 * k / 51 && s == 8 * k - Start(16 * k / 51)
  {
    var j, b := i / 2, i % 2;
    assert i == 2 * j + b;
    if b == 0 {
      DivUnique(16 * k, 51, i, 2 * s);
    } else {
      DivUnique(16 * k, 51, i, 2 * s + 1);
    }
  }

  /** The byte from bit `s` of limb `i` on, joined with the next limb where it straddles the two. */
  function PackedByte(d: seq<int32>, i: nat, s: nat): byte
    requires |d| == 10 && Digits(d) && i < 10 && s < Width(i)
  {
    if s + 8 <= Width(i) || i == 9 then
      d[i] / Two(s) % 0x100
    else
      (TwoAdd(s, Width(i) - s);
       TwoValues();
       ShiftJoin(d[i], Two(s), Two(Width(i) - s), d[i + 1]);
       OrDisjoint(d[i] / Two(s), d[i + 1] * Two(Width(i) - s), Two(Width(i) - s)) % 0x100)
  }

  function ByteOf(d: seq<int32>, k: nat): byte
    requires |d| == 10 && Digits(d) && k < 32
  {
    var i := 16 * k / 51;
    StartBound(k);
    PackedByte(d, i, 8 * k - Start(i))
  }

  lemma StartBound(k: nat)
    requires k < 32
    ensures var i := 16 * k / 51; i < 10 && Start(i) <= 8 * k < Start(i) + Width(i)
  {
    var i := 16 * k / 51;
    assert i == 2 * (i / 2) + i % 2;
  }

  function Pack(d: seq<int32>): (a: seq<byte>)
    requires |d| == 10 && Digits(d)
    ensures |a| == 32 && forall k :: 0 <= k < 32 ==> a[k] == ByteOf(d, k)
  {
    seq(32, k requires 0 <= k < 32 => ByteOf(d, k))
  }

  lemma {:induction false} DigitsNonNegative(d: seq<int>)
    requires Digits(d)
    ensures Value(d) >= 0
  {
    if d != [] { DigitsNonNegative(d[1..]); }
  }

  lemma Suffix(d: seq<int>, i: nat)
    requires |d| == 10 && Digits(d) && i < 10
    ensures Value(d[i..]) >= 0 && Value(d[i..]) == d[i] + Two(Width(i)) * Value(d[i + 1..])
    ensures Value(d[i..]) / Two(Width(i)) == Value(d[i + 1..])
  {
    TwoValues();
    var t := d[i..];
    assert t[1..] == d[i + 1..];
    DigitsNonNegative(t);
    DivUnique(Value(t), Two(Width(i)), Value(d[i + 1..]), d[i]);
  }

  lemma NoLimbs(d: seq<int>)
    requires d == []
    ensures Value(d) == 0
  {
  }

  lemma DigitAt(d: seq<int>, i: nat)
    requires |d| == 10 && Digits(d) && i < 10
    ensures 0 <= d[i] < Two(Width(i))
  {
    TwoValues();
  }

  lemma ByteAt(d: seq<int32>, i: nat, s: nat)
    requires |d| == 10 && Digits(d) && i < 10 && s < Width(i)
    ensures Value(d[i..]) / Two(s) % 0x100 == PackedByte(d, i, s)
  {
    hide Two, Value, Digits;
    DigitAt(d, i);
    Suffix(d, i);
    if i == 9 {
      NoLimbs(d[10..]);
    } else if s + 8 <= Width(i) {
      LowByte(Value(d[i..]), d[i], Value(d[i + 1..]), Width(i), s);
    } else {
      Suffix(d, i + 1);
      DigitAt(d, i + 1);
      HighByte(Value(d[i..]), d[i], Value(d[i + 1..]), d[i + 1], Value(d[i + 2..]), Width(i), Width(i + 1), s);
    }
  }

  lemma PackStep(d: seq<int32>, k: nat, i: nat, s: nat)
    requires |d| == 10 && Digits(d) && k < 32 && i < 10 && s < Width(i) && 8 * k == Start(i) + s
    ensures LittleEndian(Pack(d)[k..]) == PackedByte(d, i, s) + 0x100 * LittleEndian(Pack(d)[k + 1..])
  {
    DropByte(Pack(d), k);
    LimbOfByte(k, i, s);
  }

  lemma {:induction false} PackFrom(d: seq<int32>, k: nat, i: nat, s: nat)
    requires |d| == 10 && Digits(d) && k < 32 && i < 10 && s < Width(i) && 8 * k == Start(i) + s
    ensures LittleEndian(Pack(d)[k..]) == Value(d[i..]) / Two(s)
    decreases 32 - k
  {
    hide Two, Value, LittleEndian, Pack, PackedByte, Digits;
    PackStep(d, k, i, s);
    ByteAt(d, i, s);
    Suffix(d, i);
    NextByte(Value(d[i..]), Width(i), s);
    if k == 31 {
      LastByte(d);
    } else if s + 8 < Width(i) {
      PackFrom(d, k + 1, i, s + 8);
    } else {
      StartStep(i);
      PackFrom(d, k + 1, i + 1, s + 8 - Width(i));
    }
  }

  lemma LastByte(d: seq<int32>)
    requires |d| == 10 && Digits(d)
    ensures Value(d[9..]) / Two(18) / 0x100 == 0 && LittleEndian(Pack(d)[32..]) == 0
  {
    TwoValues();
    assert d[9..][1..] == [];
    assert Two(18) == 4 * Two(16);
  }

  lemma PackValue(d: seq<int32>)
    requires |d| == 10 && Digits(d)
    ensures LittleEndian(Pack(d)) == Value(d)
  {
    PackFrom(d, 0, 0, 0);
    assert Pack(d)[0..] == Pack(d) && d[0..] == d;
  }

  /** The product of the limb sizes below limb `i`. */
  ghost function Weight(i: nat): (w: int)
    ensures w > 0
  {
    if i == 0 then 1 else Weight(i - 1) * Two(Width(i - 1))
  }

  lemma WeightOfAll()
    ensures Weight(10) == P + 19
  {
    TwoValues();
    assert Weight(2) == 0x8_0000_0000_0000;
    assert Weight(4) == 0x8_0000_0000_0000 * Weight(2);
    assert Weight(6) == 0x8_0000_0000_0000 * Weight(4);
    assert Weight(8) == 0x8_0000_0000_0000 * Weight(6);
    assert Weight(10) == 0x8_0000_0000_0000 * Weight(8);
  }

  lemma NoWeight()
    ensures Weight(0) == 1 && Value([]) == 0
  {
  }

  lemma QuotientStep(h: seq<int>, i: nat, q: int, e: int)
    requires |h| == 10 && i < 10 && Value(h[i..]) + q == e / Weight(i)
    ensures Value(h[i + 1..]) + (h[i] + q) / (if i % 2 == 0 then 0x400_0000 else 0x200_0000) == e / Weight(i + 1)
  {
    var t := h[i..];
    assert t[1..] == h[i + 1..];
    TwoValues();
    DivAdd(Value(t) + q, h[i] + q, Two(Width(i)), Value(h[i + 1..]));
    DivDiv(e, Weight(i), Two(Width(i)));
  }

  /** The quotient of the value by p, estimated from the top limb and carried through all limbs. */
  method Quotient(h: seq<int32>) returns (q: int32)
    requires Tight(h)
    ensures q == (Value(h) + (19 * h[9] + 0x100_0000) / 0x200_0000) / (P + 19)
  {
    hide Value, Weight;
    NoWeight();
    q := (19 * h[9] + 0x100_0000) / 0x200_0000;
    ghost var e := Value(h) + q;
    assert h[0..] == h;
    for i := 0 to 10
      invariant -12 <= q <= 12
      invariant Value(h[i..]) + q == e / Weight(i)
    {
      QuotientStep(h, i, q, e);
      q := (h[i] + q) / (if i % 2 == 0 then 0x400_0000 else 0x200_0000);
    }
    assert h[10..] == [];
    WeightOfAll();
  }

  /** The estimate is right: the value is within p of zero, and the quotient is its sign. */
  lemma QuotientIsSign(h: seq<int>)
    requires Tight(h)
    ensures var q := (Value(h) + (19 * h[9] + 0x100_0000) / 0x200_0000) / (P + 19);
      -P < Value(h) < P && q == if Value(h) < 0 then -1 else 0
  {
    Expand(h);
  }

  /** The floor carry out of limb `i`. */
  method CarryLimb(h: array<int32>, i: nat)
    requires h.Length == 10 && i < 9
    requires -0x300_0000 <= h[i] <= 0x300_0000 && -0x233_3400 <= h[i + 1] <= 0x233_3400
    modifies h
    ensures Value(h[..]) == old(Value(h[..]))
    ensures 0 <= h[i] < (if i % 2 == 0 then 0x400_0000 else 0x200_0000) && -0x300_0000 <= h[i + 1] <= 0x300_0000
    ensures forall k {:trigger h[k]} :: 0 <= k < 10 && k != i && k != i + 1 ==> h[k] == old(h[k])
  {
    hide Value;
    ghost var before := h[..];
    var unit: int32 := if i % 2 == 0 then 0x400_0000 else 0x200_0000;
    var c: int32 := h[i] / unit;
    h[i + 1] := h[i + 1] + c;
    h[i] := h[i] - c * unit;
    CarryValue(h[..], before, i, c);
  }

  /** Floor carries out of the limbs 0 to 8. */
  method CarryLow(h: array<int32>)
    requires h.Length == 10
    requires Within(h[..], 0x233_3400, 0x119_9A00)
    modifies h
    ensures Value(h[..]) == old(Value(h[..]))
    ensures forall k {:trigger h[k]} :: 0 <= k < 9 ==> 0 <= h[k] < if k % 2 == 0 then 0x400_0000 else 0x200_0000
    ensures -0x300_0000 <= h[9] <= 0x300_0000
  {
    hide Value;
    WithinLimbs(h[..]);
    for i := 0 to 9
      invariant Value(h[..]) == old(Value(h[..]))
      invariant forall k {:trigger h[k]} :: 0 <= k < i ==> 0 <= h[k] < if k % 2 == 0 then 0x400_0000 else 0x200_0000
      invariant -0x300_0000 <= h[i] <= 0x300_0000
      invariant forall k {:trigger h[k]} :: i < k < 10 ==> -0x233_3400 <= h[k] <= 0x233_3400
    {
      CarryLimb(h, i);
    }
  }

  lemma WithinLimbs(h: seq<int>)
    requires Within(h, 0x233_3400, 0x119_9A00)
    ensures |h| == 10 && forall k {:trigger h[k]} :: 0 <= k < 10 ==> -0x233_3400 <= h[k] <= 0x233_3400
  {
  }

  /** Floor carries out of all limbs; what the last one carries out is dropped. */
  method CarryDigits(h: array<int32>)
    requires h.Length == 10
    requires Within(h[..], 0x233_3400, 0x119_9A00)
    modifies h
    ensures Digits(h[..])
    ensures Value(h[..]) == old(Value(h[..])) % (P + 19)
  {
    hide Value;
    CarryLow(h);
    ghost var before := h[..];
    var c: int32 := h[9] / 0x200_0000;
    h[9] := h[9] - c * 0x200_0000;
    Expand(before);
    Expand(h[..]);
    DigitsRange(h[..]);
    DivUnique(Value(before), P + 19, c, Value(h[..]));
  }

  lemma DigitsRange(d: seq<int>)
    requires |d| == 10 && Digits(d)
    ensures 0 <= Value(d) < P + 19
  {
    Expand(d);
  }

  /** Subtracting q * p and keeping the low 255 bits is the same. */
  lemma Reduced(v: int, q: int)
    requires -P < v < P && q == if v < 0 then -1 else 0
    ensures (v + 19 * q) % (P + 19) == v % P
  {
    DivUnique(v, P, q, v - q * P);
    DivUnique(v + 19 * q, P + 19, q, v - q * P);
  }

  /** Writes the one representative of `h` in [0, p); `h` is left reduced to it. */
  method FeToBytes(s: array<byte>, h: array<int32>)
    requires s.Length == 32 && h.Length == 10 && Tight(h[..])
    modifies s, h
    ensures LittleEndian(s[..]) == old(Value(h[..])) % P
    ensures Value(h[..]) == old(Value(h[..])) % P
  {
    hide Pack, LittleEndian, Two;
    ghost var before := h[..];
    var q := Quotient(h[..]);
    QuotientIsSign(before);
    Reduced(Value(before), q);
    h[0] := h[0] + 19 * q;
    assert h[..][1..] == before[1..];
    CarryDigits(h);
    PackValue(h[..]);
    Store(s, Pack(h[..]));
  }

  lemma {:induction false} SameBytes(a: seq<byte>, b: seq<byte>)
    requires |a| == |b| && LittleEndian(a) == LittleEndian(b)
    ensures a == b
  {
    if a != [] {
      SameBytes(a[1..], b[1..]);
      assert a == [a[0]] + a[1..] && b == [b[0]] + b[1..];
    }
  }

  /** Reading 32 bytes and writing them back: bit 255 is dropped and the rest reduced; canonical bytes come back as they were. */
  method Recode(s: array<byte>, src: array<byte>)
    requires s.Length == src.Length == 32
    modifies s
    ensures LittleEndian(s[..]) == old(LittleEndian(src[..])) % (P + 19) % P
    ensures old(LittleEndian(src[..])) < P ==> s[..] == old(src[..])
  {
    hide Value, LittleEndian;
    var h := new int32[10];
    FeFromBytes(h, src);
    ghost var n, v := LittleEndian(src[..]), Value(h[..]);
    FeToBytes(s, h);
    assert v % P == n % (P + 19) % P;
    if n < P { SameBytes(s[..], old(src[..])); }
  }
}
