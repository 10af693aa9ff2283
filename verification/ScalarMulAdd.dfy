/** Multiply-add and reduction modulo the order of the base point. */
module ScalarMulAdd {
  import opened Arith
  import opened Bytes
  import opened MachineInts
  import opened ScalarLimbs
  import opened ScalarBytes

  /** Coefficient `k` of the product of `a` and `b`: the sum of all a[i] * b[k - i]. */
  function Column(a: seq<int>, b: seq<int>, k: int): int
  {
    if a == [] then 0 else (if 0 <= k < |b| then a[0] * b[k] else 0) + Column(a[1..], b, k - 1)
  }

  ghost function Columns(a: seq<int>, b: seq<int>, n: nat): (c: seq<int>)
    ensures |c| == n && forall k :: 0 <= k < n ==> c[k] == Column(a, b, k)
  {
    seq(n, k requires 0 <= k < n => Column(a, b, k))
  }

  lemma {:induction false} ColumnOutside(a: seq<int>, b: seq<int>, k: int)
    requires k < 0
    ensures Column(a, b, k) == 0
  {
    if a != [] { ColumnOutside(a[1..], b, k - 1); }
  }

  lemma {:induction false} ColumnBound(a: seq<int>, b: seq<int>, k: int, p: int)
    requires forall i, j :: 0 <= i < |a| && 0 <= j < |b| ==> 0 <= a[i] * b[j] <= p
    requires p >= 0
    ensures 0 <= Column(a, b, k) <= |a| * p
  {
    if a != [] {
      var t := a[1..];
      forall i, j | 0 <= i < |t| && 0 <= j < |b| ensures 0 <= t[i] * b[j] <= p {
        assert t[i] == a[i + 1];
      }
      ColumnBound(t, b, k - 1, p);
      assert |a| * p == |t| * p + p;
    }
  }

  lemma {:induction false} ColumnSnoc(a: seq<int>, x: int, b: seq<int>, k: int)
    ensures Column(a + [x], b, k) == Column(a, b, k) + if 0 <= k - |a| < |b| then x * b[k - |a|] else 0
  {
    if a == [] {
      assert (a + [x])[1..] == [];
    } else {
      ColumnSnoc(a[1..], x, b, k - 1);
      assert (a + [x])[1..] == a[1..] + [x];
    }
  }

  /** Multiplying limb by limb multiplies the numbers. */
  lemma {:induction false} ColumnsEval(a: seq<int>, b: seq<int>, n: nat)
    requires n >= |a| + |b|
    ensures Eval(Columns(a, b, n)) == Eval(a) * Eval(b)
  {
    var c := Columns(a, b, n);
    if a == [] {
      EvalZeros(c);
    } else {
      var d := Columns(a[1..], b, n - 1);
      var shifted := [0] + d;
      ColumnsEval(a[1..], b, n - 1);
      ColumnOutside(a[1..], b, -1);
      assert shifted[1..] == d;
      EvalWindow(c, shifted, a[0], 0, b);
      assert Pow(0) == 1;
      Distribute(a[0], Eval(a[1..]), Eval(b));
    }
  }

  lemma Distribute(x: int, y: int, z: int)
    ensures (x + 0x20_0000 * y) * z == 0x20_0000 * (y * z) + x * 1 * z
  {
  }

  lemma ProductBound(x: int, y: int, m: int, n: int)
    requires 0 <= x <= m && 0 <= y <= n
    ensures 0 <= x * y <= m * n
  {
    MulMono(x, m, y);
    MulMono(y, n, m);
    MulMono(0, x, y);
  }

  lemma {:induction false} ColumnAbove(a: seq<int>, b: seq<int>, k: int)
    requires k >= |a| + |b| - 1
    ensures Column(a, b, k) == 0
  {
    if a != [] { ColumnAbove(a[1..], b, k - 1); }
  }

  /** Twelve limbs as they are unpacked from 32 bytes. */
  ghost predicate Unpacked(l: seq<int>) {
    |l| == 12 && forall i {:trigger l[i]} :: 0 <= i < 12 ==> 0 <= l[i] < if i < 11 then 0x20_0000 else 0x200_0000
  }

  /** No coefficient of the product of two unpacked scalars overflows. */
  lemma ColumnRange(a: seq<int>, b: seq<int>, k: int)
    requires Unpacked(a) && Unpacked(b)
    ensures 0 <= Column(a, b, k) <= 0x7_8000_0000_0000
  {
    var low := a[..11];
    assert a == low + [a[11]];
    ColumnSnoc(low, a[11], b, k);
    forall i, j | 0 <= i < 11 && 0 <= j < 12 ensures 0 <= low[i] * b[j] <= 0x4000_0000_0000 {
      ProductBound(low[i], b[j], 0x20_0000, 0x200_0000);
    }
    ColumnBound(low, b, k, 0x4000_0000_0000);
    if 0 <= k - 11 < 12 { ProductBound(a[11], b[k - 11], 0x200_0000, 0x200_0000); }
  }

  lemma AddLimbs(r: seq<int>, t: seq<int>, c: seq<int>)
    requires |c| <= |r| == |t|
    requires forall k :: 0 <= k < |r| ==> r[k] == (if k < |c| then c[k] else 0) + t[k]
    ensures Eval(r) == Eval(t) + Eval(c)
  {
    hide Eval;
    EvalWindow(r, t, 1, 0, c);
    assert Pow(0) == 1;
  }

  /** The limbs of a * b + c, before any carry. */
  method Products(a: seq<int64>, b: seq<int64>, c: seq<int64>) returns (s: seq<int64>)
    requires Unpacked(a) && Unpacked(b) && Unpacked(c)
    ensures |s| == 24 && s[23] == 0 && Bounded(s, 0, 24, 0x8_0000_0000_0000)
    ensures Eval(s) == Eval(a) * Eval(b) + Eval(c)
  {
    s := [];
    for k := 0 to 24
      invariant |s| == k
      invariant forall j :: 0 <= j < k ==> s[j] == (if j < 12 then c[j] else 0) + Column(a, b, j)
      invariant Bounded(s, 0, k, 0x8_0000_0000_0000)
    {
      ColumnRange(a, b, k);
      s := s + [(if k < 12 then c[k] else 0) + Column(a, b, k)];
    }
    ColumnAbove(a, b, 23);
    AddLimbs(s, Columns(a, b, 24), c);
    ColumnsEval(a, b, 24);
  }

  method CarryProducts(s: seq<int64>) returns (l: seq<int64>)
    requires |s| == 24 && s[23] == 0 && Bounded(s, 0, 24, 0x8_0000_0000_0000)
    ensures |l| == 24 && Bounded(l, 0, 24, 0x8000_0000) && Eval(l) == Eval(s)
  {
    l := CarryEveryOther(s, 0, 22, 0x8_0000_0000_0000);
    l := CarryEveryOther(l, 1, 21, 0x8_0000_8000_0000);
  }

  /** s = (a * b + c) mod l, on little-endian numbers of 32 bytes; `s` may be one of the inputs. */
  method ScMulAdd(s: array<byte>, a: array<byte>, b: array<byte>, c: array<byte>)
    requires s.Length == a.Length == b.Length == c.Length == 32
    modifies s
    ensures LittleEndian(s[..]) == old((LittleEndian(a[..]) * LittleEndian(b[..]) + LittleEndian(c[..])) % L)
  {
    var la := UnpackScalar(a);
    var lb := UnpackScalar(b);
    var lc := UnpackScalar(c);
    var l := Products(la, lb, lc);
    l := CarryProducts(l);
    l := ReduceLimbs(l);
    PackValue(l);
    Store(s, Pack(l));
  }

  method UnpackScalar(a: array<byte>) returns (l: seq<int64>)
    requires a.Length == 32
    ensures Unpacked(l) && Eval(l) == LittleEndian(a[..])
  {
    l := Unpack(a[..], 12);
    UnpackValue(a[..], 12);
  }

  /** out = s mod l, from a little-endian number of 64 bytes. */
  method ScReduce(out: array<byte>, s: array<byte>)
    requires out.Length == 32 && s.Length == 64
    modifies out
    ensures LittleEndian(out[..]) == old(LittleEndian(s[..]) % L)
  {
    var l := Unpack(s[..], 24);
    UnpackValue(s[..], 24);
    l := ReduceLimbs(l);
    PackValue(l);
    Store(out, Pack(l));
  }
}
