/** Little-endian numbers, byte by byte. Ors of bits that do not overlap are sums here. */
module Bytes {
  import opened Arith
  import opened MachineInts

  function Load3(a: seq<byte>, p: nat): (l: int64)
    requires p + 3 <= |a|
    ensures 0 <= l < 0x100_0000
  {
    a[p] as int + 0x100 * a[p + 1] as int + 0x1_0000 * a[p + 2] as int
  }

  function Load4(a: seq<byte>, p: nat): (l: int64)
    requires p + 4 <= |a|
    ensures 0 <= l < 0x1_0000_0000
  {
    a[p] as int + 0x100 * a[p + 1] as int + 0x1_0000 * a[p + 2] as int + 0x100_0000 * a[p + 3] as int
  }

  lemma DropByte(a: seq<byte>, p: nat)
    requires p < |a|
    ensures LittleEndian(a[p..]) == a[p] as int + 0x100 * LittleEndian(a[p + 1..])
  {
    assert a[p..][1..] == a[p + 1..];
  }

  lemma Load3Tail(a: seq<byte>, p: nat)
    requires p + 3 <= |a|
    ensures LittleEndian(a[p..]) == Load3(a, p) + 0x100_0000 * LittleEndian(a[p + 3..])
  {
    DropByte(a, p);
    DropByte(a, p + 1);
    DropByte(a, p + 2);
  }

  lemma Load4Tail(a: seq<byte>, p: nat)
    requires p + 4 <= |a|
    ensures LittleEndian(a[p..]) == Load4(a, p) + 0x1_0000_0000 * LittleEndian(a[p + 4..])
  {
    Load3Tail(a, p);
    DropByte(a, p + 3);
  }

  lemma DropBytes(a: seq<byte>, p: nat)
    requires p + 3 <= |a|
    ensures LittleEndian(a[p..]) / 0x1_0000 == LittleEndian(a[p + 2..])
    ensures LittleEndian(a[p..]) / 0x100_0000 == LittleEndian(a[p + 3..])
  {
    DropByte(a, p);
    DropByte(a, p + 1);
    DropByte(a, p + 2);
  }

  /** The byte at bit `s` of `x + 2^w * y`, when it lies in the low `w` bits. */
  lemma LowByte(n: int, x: int, y: int, w: nat, s: nat)
    requires s + 8 <= w && n == x + Two(w) * y
    ensures n / Two(s) % 0x100 == x / Two(s) % 0x100
  {
    TwoValues();
    TwoAdd(s, w - s);
    TwoAdd(8, w - s - 8);
    MulAssoc(Two(s), Two(w - s), Two(w), y);
    WholeBytes(n, x, Two(s), Two(w - s), Two(w - s - 8), y);
  }

  lemma WholeBytes(n: int, x: int, d: int, m: int, t: int, y: int)
    requires d > 0 && m == 0x100 * t && n == x + d * (m * y)
    ensures n / d % 0x100 == x / d % 0x100
  {
    MulAssoc(0x100, t, m, y);
    DivAdd(n, x, d, m * y);
    DivAdd(n / d, x / d, 0x100, t * y);
  }

  /** The byte at bit `s` of `x + 2^w * (y + 2^v * z)`, when it reaches from `x` into `y`. */
  lemma HighByte(n: int, x: int, u: int, y: int, z: int, w: nat, v: nat, s: nat)
    requires s < w < s + 8 <= w + v && n == x + Two(w) * u && u == y + Two(v) * z
    ensures n / Two(s) % 0x100 == (x / Two(s) + y * Two(w - s)) % 0x100
  {
    TwoValues();
    var t, r := Two(w - s), Two(w - s + v - 8);
    TwoAdd(s, w - s);
    MulAssoc(Two(s), t, Two(w), u);
    DivAdd(n, x, Two(s), t * u);
    TwoAdd(w - s, v);
    TwoAdd(8, w - s + v - 8);
    DistributeShift(t, y, Two(v), z, r);
    DivAdd(n / Two(s), x / Two(s) + y * t, 0x100, r * z);
  }

  lemma DistributeShift(t: int, y: int, v: int, z: int, r: int)
    requires t * v == 0x100 * r
    ensures t * (y + v * z) == y * t + 0x100 * (r * z)
  {
    MulAssoc(t, v, 0x100 * r, z);
    assert 0x100 * r * z == 0x100 * (r * z);
    assert t * (y + v * z) == t * y + t * (v * z);
  }

  /** What remains above the byte at bit `s` of a number whose low limb has `w` bits. */
  lemma NextByte(x: nat, w: nat, s: nat)
    requires s < w
    ensures x / Two(s) / 0x100 == if s + 8 < w then x / Two(s + 8) else x / Two(w) / Two(s + 8 - w)
  {
    TwoValues();
    TwoAdd(s, 8);
    DivDiv(x, Two(s), 0x100);
    if s + 8 >= w {
      TwoAdd(w, s + 8 - w);
      DivDiv(x, Two(w), Two(s + 8 - w));
    }
  }

  method Store(s: array<byte>, v: seq<byte>)
    requires s.Length == |v|
    modifies s
    ensures s[..] == v
  {
    for i := 0 to |v|
      invariant s[..i] == v[..i]
    {
      s[i] := v[i];
    }
  }
}
