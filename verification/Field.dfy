/**
  Arithmetic modulo p = 2^255 - 19 on ten signed limbs of alternately 26 and 25 bits
  (crypto/edwards25519/edwards25519.go). The ten int64 locals h0 ... h9 are one sequence here.
 */
module Field {
  import opened Arith
  import opened MachineInts

  const P: int := 0x7fff_ffff_ffff_ffff_ffff_ffff_ffff_ffff_ffff_ffff_ffff_ffff_ffff_ffff_ffff_ffed

  /** The integer that limbs of alternately 26 and 25 bits represent, least significant first. */
  ghost function Value(h: seq<int>): int
  {
    if h == [] then 0 else h[0] + (if |h| % 2 == 0 then 0x400_0000 else 0x200_0000) * Value(h[1..])
  }

  lemma Expand(h: seq<int>)
    requires |h| == 10
    ensures Value(h) ==
      h[0] +
      0x400_0000 * h[1] +
      0x8_0000_0000_0000 * h[2] +
      0x2000_0000_0000_0000_0000 * h[3] +
      0x40_0000_0000_0000_0000_0000_0000 * h[4] +
      0x1_0000_0000_0000_0000_0000_0000_0000_0000 * h[5] +
      0x200_0000_0000_0000_0000_0000_0000_0000_0000_0000 * h[6] +
      0x8_0000_0000_0000_0000_0000_0000_0000_0000_0000_0000_0000 * h[7] +
      0x1000_0000_0000_0000_0000_0000_0000_0000_0000_0000_0000_0000_0000 * h[8] +
      0x40_0000_0000_0000_0000_0000_0000_0000_0000_0000_0000_0000_0000_0000_0000 * h[9]
  {
    var h1 := h[1..];
    var h2 := h1[1..];
    var h3 := h2[1..];
    var h4 := h3[1..];
    var h5 := h4[1..];
    var h6 := h5[1..];
    var h7 := h6[1..];
    var h8 := h7[1..];
    var h9 := h8[1..];
    assert Value(h9) == h[9];
    assert Value(h8) == h[8] + 0x400_0000 * Value(h9);
    assert Value(h7) == h[7] + 0x200_0000 * Value(h8);
    assert Value(h6) == h[6] + 0x400_0000 * Value(h7);
    assert Value(h5) == h[5] + 0x200_0000 * Value(h6);
    assert Value(h4) == h[4] + 0x400_0000 * Value(h5);
    assert Value(h3) == h[3] + 0x200_0000 * Value(h4);
    assert Value(h2) == h[2] + 0x400_0000 * Value(h3);
    assert Value(h1) == h[1] + 0x200_0000 * Value(h2);
  }

  ghost predicate Congruent(x: int, y: int) {
    (x - y) % P == 0
  }

  lemma WrapAround(x: int, q: int)
    requires x == 0x7fff_ffff_ffff_ffff_ffff_ffff_ffff_ffff_ffff_ffff_ffff_ffff_ffff_ffff_ffff_ffed * q
    ensures x % P == 0
  {
    assert x == q * P;
    ModMultiple(q, P);
  }

  lemma CongruentTrans(x: int, y: int, z: int)
    requires Congruent(x, y) && Congruent(y, z)
    ensures Congruent(x, z)
  {
  }

  ghost predicate Within(h: seq<int>, even: int, odd: int) {
    |h| == 10 && forall i {:trigger h[i]} :: 0 <= i < 10 ==> if i % 2 == 0 then -even <= h[i] <= even else -odd <= h[i] <= odd
  }

  /** Bounds 1.1 * 2^26 and 1.1 * 2^25: what products take. */
  ghost predicate Loose(h: seq<int>) {
    Within(h, 0x466_6666, 0x233_3333)
  }

  /** Bounds 1.1 * 2^25 and 1.1 * 2^24: what products return. */
  ghost predicate Tight(h: seq<int>) {
    Within(h, 0x233_3333, 0x119_9999)
  }

  /** Moving `c` units of limb `i` up keeps the value. */
  lemma {:induction false} CarryValue(r: seq<int>, h: seq<int>, i: nat, c: int)
    requires |r| == |h| && i + 1 < |h|
    requires r[i] == h[i] - c * (if (|h| - i) % 2 == 0 then 0x400_0000 else 0x200_0000) && r[i + 1] == h[i + 1] + c
    requires forall k :: 0 <= k < |h| && k != i && k != i + 1 ==> r[k] == h[k]
    ensures Value(r) == Value(h)
  {
    if i == 0 {
      assert r[1..][1..] == h[1..][1..];
    } else {
      CarryValue(r[1..], h[1..], i - 1, c);
    }
  }

  /** The limbs from `lo` to `hi - 1` lie within half a unit of zero. */
  ghost predicate Centered(h: seq<int>, lo: nat, hi: nat)
    requires hi <= |h|
  {
    forall k {:trigger h[k]} :: lo <= k < hi ==>
      if k % 2 == 0 then -0x200_0000 <= h[k] <= 0x200_0000 else -0x100_0000 <= h[k] <= 0x100_0000
  }

  /** The rounded carry out of limb `i`, which is at most `m` away from zero. */
  method Carry(h: seq<int64>, i: nat, ghost m: int) returns (r: seq<int64>)
    requires |h| == 10 && i < 9
    requires -m <= h[i] <= m <= 0x4800_0000_0000_0000
    requires -0x4800_0000_0000_0000 <= h[i + 1] <= 0x4800_0000_0000_0000
    ensures |r| == 10 && Value(r) == Value(h)
    ensures Centered(r, i, i + 1)
    ensures -(m / 0x200_0000 + 1) <= r[i + 1] - h[i + 1] <= m / 0x200_0000 + 1
    ensures forall k :: 0 <= k < 10 && k != i && k != i + 1 ==> r[k] == h[k]
  {
    var c: int64;
    if i % 2 == 0 {
      c := (h[i] + 0x200_0000) / 0x400_0000;
      r := h[i + 1 := h[i + 1] + c];
      r := r[i := r[i] - c * 0x400_0000];
    } else {
      c := (h[i] + 0x100_0000) / 0x200_0000;
      r := h[i + 1 := h[i + 1] + c];
      r := r[i := r[i] - c * 0x200_0000];
    }
    CarryValue(r, h, i, c);
  }

  /** The rounded carry out of the last limb comes back into the first, times 19. */
  method CarryLast(h: seq<int64>, ghost m: int) returns (r: seq<int64>)
    requires |h| == 10
    requires -m <= h[9] <= m <= 0x4800_0000_0000_0000
    requires -0x4000_0000_0000 <= h[0] <= 0x4000_0000_0000
    ensures |r| == 10 && Congruent(Value(r), Value(h))
    ensures Centered(r, 9, 10)
    ensures -19 * (m / 0x200_0000 + 1) <= r[0] - h[0] <= 19 * (m / 0x200_0000 + 1)
    ensures forall k :: 0 < k < 9 ==> r[k] == h[k]
  {
    hide Value;
    var c: int64 := (h[9] + 0x100_0000) / 0x200_0000;
    r := h[0 := h[0] + c * 19];
    r := r[9 := r[9] - c * 0x200_0000];
    Expand(r);
    Expand(h);
    WrapAround(Value(r) - Value(h), -(c as int));
  }

  /** Carries 0, 4, 1, 5, 2, 6, 3, 7: after them only limbs 4, 8 and 9 are large. */
  method CombineLow(h: seq<int64>) returns (r: seq<int64>)
    requires Within(h, 0x4000_0000_0000_0000, 0x4000_0000_0000_0000)
    ensures |r| == 10 && Value(r) == Value(h)
    ensures Centered(r, 0, 4) && Centered(r, 5, 8)
    ensures -0x40_0000_0000 <= r[4] <= 0x40_0000_0000
    ensures -0x4100_0000_0000_0000 <= r[8] <= 0x4100_0000_0000_0000 && r[9] == h[9]
  {
    r := h;
    for i := 0 to 4
      invariant |r| == 10 && Value(r) == Value(h)
      invariant Centered(r, 0, i) && (i > 0 ==> Centered(r, 5, 4 + i))
      invariant -0x4100_0000_0000_0000 <= r[i] <= 0x4100_0000_0000_0000
      invariant -0x4100_0000_0000_0000 <= r[i + 4] <= 0x4100_0000_0000_0000
      invariant 0 < i < 4 ==> Centered(r, 4, 5)
      invariant i == 4 ==> -0x40_0000_0000 <= r[4] <= 0x40_0000_0000
      invariant forall k :: i < k < 4 || i + 4 < k < 10 ==> r[k] == h[k]
    {
      r := Carry(r, i, 0x4100_0000_0000_0000);
      r := Carry(r, i + 4, 0x4100_0000_0000_0000);
    }
  }

  /** Carries 4, 8, 9 and 0. */
  method CombineHigh(h: seq<int64>) returns (r: seq<int64>)
    requires |h| == 10 && Centered(h, 0, 4) && Centered(h, 5, 8)
    requires -0x40_0000_0000 <= h[4] <= 0x40_0000_0000
    requires -0x4100_0000_0000_0000 <= h[8] <= 0x4100_0000_0000_0000
    requires -0x4000_0000_0000_0000 <= h[9] <= 0x4000_0000_0000_0000
    ensures Tight(r) && Congruent(Value(r), Value(h))
  {
    r := Carry(h, 4, 0x40_0000_0000);
    r := Carry(r, 8, 0x4100_0000_0000_0000);
    r := CarryLast(r, 0x4200_0000_0000_0000);
    r := Carry(r, 0, 0x400_0000_0000);
  }

  /** Brings ten 64-bit sums down to a tight limb array of the same value modulo p. */
  method FeCombine(dst: array<int32>, h: seq<int64>)
    requires dst.Length == 10
    requires Within(h, 0x4000_0000_0000_0000, 0x4000_0000_0000_0000)
    modifies dst
    ensures Tight(dst[..]) && Congruent(Value(dst[..]), Value(h))
  {
    var t := CombineLow(h);
    t := CombineHigh(t);
    for i := 0 to 10
      invariant dst[..i] == t[..i]
    {
      dst[i] := t[i];
    }
    assert dst[..] == t;
  }
}
