/**
  Moving scalars between bytes and limbs of 21 bits. The source writes one line per limb and per
  byte; here the offset of each is computed from its index.
 */
module ScalarBytes {
  import opened Arith
  import opened Bytes
  import opened MachineInts
  import opened ScalarLimbs

  /** The 21 bits from bit `s` of byte `p` on, from as few bytes as hold them. */
  function LimbAt(a: seq<byte>, p: nat, s: nat): (l: int64)
    requires p + 4 <= |a| && s < 8
    ensures 0 <= l < 0x20_0000
  {
    (if s <= 3 then Load3(a, p) else Load4(a, p)) / Two(s) % 0x20_0000
  }

  /** The limbs of a number of 32 or 64 bytes; the last one keeps all remaining bits. */
  function Unpack(a: seq<byte>, n: nat): (l: seq<int64>)
    requires (n == 12 && |a| == 32) || (n == 24 && |a| == 64)
    ensures |l| == n && forall k :: 0 <= k < n - 1 ==> l[k] == LimbAt(a, 21 * k / 8, 21 * k % 8)
    ensures l[n - 1] == Load4(a, |a| - 4) / (if n == 12 then 0x80 else 0x8)
  {
    seq(n - 1, k requires 0 <= k < n - 1 => LimbAt(a, 21 * k / 8, 21 * k % 8)) +
    [Load4(a, |a| - 4) / (if n == 12 then 0x80 else 0x8)]
  }

  /** What is left of the number `a` after dropping `p` bytes and `s` bits. */
  ghost function Rest(a: seq<byte>, p: nat, s: nat): int
    requires p <= |a|
  {
    LittleEndian(a[p..]) / Two(s)
  }

  /** Bits far enough up do not reach the limb that starts at bit `s`. */
  lemma Cut(x: nat, w: nat, n: nat, y: nat, s: nat)
    requires s + 21 <= n && x == w + Two(n) * y
    ensures x / Two(s) % 0x20_0000 == w / Two(s) % 0x20_0000
  {
    hide Two;
    TwoValues();
    var t := Two(n - s - 21);
    TwoAdd(s, n - s);
    TwoAdd(21, n - s - 21);
    MulAssoc(Two(s), Two(n - s), Two(n), y);
    MulAssoc(0x20_0000, t, Two(n - s), y);
    DivAdd(x, w, Two(s), Two(n - s) * y);
    DivAdd(x / Two(s), w / Two(s), 0x20_0000, t * y);
  }

  /** Dropping 21 more bits is dropping the `n` bits of whole bytes first. */
  lemma Drop(x: nat, s: nat, n: nat)
    requires n <= s + 21
    ensures x / Two(s) / 0x20_0000 == x / Two(n) / Two(s + 21 - n)
  {
    TwoValues();
    TwoAdd(s, 21);
    DivDiv(x, Two(s), 0x20_0000);
    TwoAdd(n, s + 21 - n);
    DivDiv(x, Two(n), Two(s + 21 - n));
  }

  lemma RestStep(a: seq<byte>, p: nat, s: nat)
    requires p + 4 <= |a| && s < 8
    ensures Rest(a, p, s) % 0x20_0000 == LimbAt(a, p, s)
    ensures Rest(a, p, s) / 0x20_0000 == if s < 3 then Rest(a, p + 2, s + 5) else Rest(a, p + 3, s - 3)
  {
    TwoValues();
    Load3Tail(a, p);
    Load4Tail(a, p);
    DropBytes(a, p);
    var x := LittleEndian(a[p..]);
    Drop(x, s, if s < 3 then 16 else 24);
    if s <= 3 {
      Cut(x, Load3(a, p), 24, LittleEndian(a[p + 3..]), s);
    } else {
      Cut(x, Load4(a, p), 32, LittleEndian(a[p + 4..]), s);
    }
  }

  ghost function LimbRest(a: seq<byte>, k: nat): int
    requires 21 * k / 8 <= |a|
  {
    Rest(a, 21 * k / 8, 21 * k % 8)
  }

  lemma UnpackAt(a: seq<byte>, n: nat, k: nat, p: nat, s: nat)
    requires (n == 12 && |a| == 32) || (n == 24 && |a| == 64)
    requires k < n && 21 * k == 8 * p + s && s < 8
    ensures LimbRest(a, k) == if k == n - 1 then Unpack(a, n)[k] else Unpack(a, n)[k] + 0x20_0000 * LimbRest(a, k + 1)
  {
    assert p == 21 * k / 8 && s == 21 * k % 8;
    if k == n - 1 {
      Load4Tail(a, p);
      TwoValues();
    } else {
      assert 21 * (k + 1) == if s < 3 then 8 * (p + 2) + (s + 5) else 8 * (p + 3) + (s - 3);
      RestStep(a, p, s);
    }
  }

  lemma {:induction false} EvalChain(l: seq<int>, t: seq<int>)
    requires |l| == |t| > 0 && t[|t| - 1] == l[|t| - 1]
    requires forall k {:trigger l[k]} :: 0 <= k < |t| - 1 ==> t[k] == l[k] + 0x20_0000 * t[k + 1]
    ensures Eval(l) == t[0]
  {
    if |l| > 1 {
      EvalChain(l[1..], t[1..]);
    } else {
      assert l[1..] == [];
    }
  }

  /** Limbs cut out of a number one after the other stand for that number. */
  lemma UnpackValue(a: seq<byte>, n: nat)
    requires (n == 12 && |a| == 32) || (n == 24 && |a| == 64)
    ensures Eval(Unpack(a, n)) == LittleEndian(a)
  {
    var l := Unpack(a, n);
    var t := seq(n, k requires 0 <= k < n => LimbRest(a, k));
    forall k {:trigger l[k]} | 0 <= k < n ensures t[k] == if k == n - 1 then l[k] else l[k] + 0x20_0000 * t[k + 1] {
      UnpackAt(a, n, k, 21 * k / 8, 21 * k % 8);
    }
    EvalChain(l, t);
    assert a[0..] == a;
  }

  /** The limbs of a reduced scalar: digits, but for the last, which may reach the radix. */
  ghost predicate Reduced(l: seq<int>) {
    |l| == 12 && (forall k :: 0 <= k < 11 ==> 0 <= l[k] < 0x20_0000) && 0 <= l[11] <= 0x20_0000
  }

  /** The byte from bit `s` of limb `i` on, joined with the next limb where it straddles the two. */
  function PackedByte(l: seq<int64>, i: nat, s: nat): byte
    requires Reduced(l) && i < 12 && s < 21
  {
    if s <= 13 || i == 11 then
      l[i] / Two(s) % 0x100
    else
      (TwoAdd(s, 21 - s);
       TwoValues();
       ShiftJoin(l[i], Two(s), Two(21 - s), l[i + 1]);
       OrDisjoint(l[i] / Two(s), l[i + 1] * Two(21 - s), Two(21 - s)) % 0x100)
  }

  function Pack(l: seq<int64>): (a: seq<byte>)
    requires Reduced(l)
    ensures |a| == 32 && forall k :: 0 <= k < 32 ==> a[k] == PackedByte(l, 8 * k / 21, 8 * k % 21)
  {
    seq(32, k requires 0 <= k < 32 => PackedByte(l, 8 * k / 21, 8 * k % 21))
  }

  lemma {:induction false} NonNegative(s: seq<int>)
    requires forall k :: 0 <= k < |s| ==> s[k] >= 0
    ensures Eval(s) >= 0
  {
    if s != [] { NonNegative(s[1..]); }
  }

  lemma ByteAt(l: seq<int64>, i: nat, s: nat)
    requires Reduced(l) && i < 12 && s < 21
    ensures Eval(l[i..]) >= 0
    ensures Eval(l[i..]) / Two(s) % 0x100 == PackedByte(l, i, s)
    ensures i < 11 ==> Eval(l[i..]) / 0x20_0000 == Eval(l[i + 1..])
  {
    TwoValues();
    var t, u := l[i..], l[i + 1..];
    assert t[1..] == u;
    NonNegative(u);
    if i < 11 {
      assert u[1..] == l[i + 2..];
      NonNegative(l[i + 2..]);
      if s <= 13 { LowByte(Eval(t), l[i], Eval(u), 21, s); } else { HighByte(Eval(t), l[i], Eval(u), l[i + 1], Eval(u[1..]), 21, 21, s); }
    }
  }

  lemma PackStep(l: seq<int64>, k: nat, i: nat, s: nat)
    requires Reduced(l) && k < 32 && 8 * k == 21 * i + s && s < 21
    ensures LittleEndian(Pack(l)[k..]) == PackedByte(l, i, s) + 0x100 * LittleEndian(Pack(l)[k + 1..])
  {
    DropByte(Pack(l), k);
    assert i == 8 * k / 21 && s == 8 * k % 21;
  }

  lemma {:induction false} PackFrom(l: seq<int64>, k: nat, i: nat, s: nat)
    requires Reduced(l) && k < 32 && 8 * k == 21 * i + s && s < 21
    ensures LittleEndian(Pack(l)[k..]) == Eval(l[i..]) / Two(s)
    decreases 32 - k
  {
    hide Two, Eval, LittleEndian, Pack, PackedByte;
    PackStep(l, k, i, s);
    ByteAt(l, i, s);
    TwoValues();
    NextByte(Eval(l[i..]), 21, s);
    if k == 31 {
      LastByte(l);
    } else if s < 13 {
      PackFrom(l, k + 1, i, s + 8);
    } else {
      PackFrom(l, k + 1, i + 1, s - 13);
    }
  }

  lemma LastByte(l: seq<int64>)
    requires Reduced(l)
    ensures Eval(l[11..]) / Two(17) / 0x100 == 0 && LittleEndian(Pack(l)[32..]) == 0
  {
    TwoValues();
    assert l[11..][1..] == [];
    TwoAdd(17, 4);
    assert Two(4) == 16;
  }

  lemma PackValue(l: seq<int64>)
    requires Reduced(l)
    ensures LittleEndian(Pack(l)) == Eval(l)
  {
    PackFrom(l, 0, 0, 0);
    assert Pack(l)[0..] == Pack(l) && l[0..] == l;
  }
}
