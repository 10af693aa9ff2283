/** Little-endian byte strings as 256-bit numbers. */
module Bip32Bytes {
  import opened Arith
  import opened MachineInts

  lemma {:induction false} LittleEndianAppend(s: seq<byte>, b: byte)
    ensures LittleEndian(s + [b]) == LittleEndian(s) + b * Two(8 * |s|)
  {
    if s == [] {
      assert (s + [b])[1..] == [] && LittleEndian([]) == 0;
      TwoValues();
    } else {
      LittleEndianAppend(s[1..], b);
      assert (s + [b])[1..] == s[1..] + [b];
      ByteWeight(b, |s|);
    }
  }

  lemma ByteWeight(b: int, n: nat)
    requires n > 0
    ensures 0x100 * (b * Two(8 * (n - 1))) == b * Two(8 * n)
  {
    TwoAdd(8 * (n - 1), 8);
    TwoValues();
    assert 8 * n == 8 * (n - 1) + 8;
    MulAssoc(0x100, b, 0x100 * b, Two(8 * (n - 1)));
    MulAssoc(b, 0x100, 0x100 * b, Two(8 * (n - 1)));
  }

  lemma {:induction false} LittleEndianBound(s: seq<byte>)
    ensures LittleEndian(s) < Two(8 * |s|)
  {
    if s != [] {
      LittleEndianBound(s[1..]);
      ByteWeight(1, |s|);
    } else {
      TwoValues();
    }
  }

  lemma LittleEndianLow(s: seq<byte>)
    requires s != []
    ensures LittleEndian(s) % 8 == s[0] % 8
  {
    var n := LittleEndian(s[1..]);
    DivAdd(s[0] + 0x100 * n, s[0], 8, 32 * n);
  }

  const TWO_254: int := 0x4000_0000_0000_0000_0000_0000_0000_0000_0000_0000_0000_0000_0000_0000_0000_0000
  const TWO_256: int := 0x1_0000_0000_0000_0000_0000_0000_0000_0000_0000_0000_0000_0000_0000_0000_0000_0000

  lemma BigTwos(a: nat, b: nat, c: nat)
    requires a == 248 && b == 256 && c == 224
    ensures Two(a) == TWO_254 / 64 && Two(b) == TWO_256 && Two(c) == TWO_256 / 0x1_0000_0000
  {
    hide Two;
    var n: nat := 32;
    TwoValues();
    TwoAdd(n, n);
    var m := n + n;
    assert Two(m) == 0x1_0000_0000_0000_0000;
    TwoAdd(m, n);
    TwoAdd(m, m);
    var p, q := m + n, m + m;
    assert Two(p) == 0x1_0000_0000_0000_0000_0000_0000 && Two(q) == 0x1_0000_0000_0000_0000_0000_0000_0000_0000;
    TwoAdd(q, p);
    TwoAdd(q, q);
    TwoAdd(c, 24);
  }

  /** The top byte against the size of a 32-byte number. */
  lemma TopByte(s: seq<byte>)
    requires |s| == 32
    ensures s[31] * (TWO_254 / 64) <= LittleEndian(s) < (s[31] + 1) * (TWO_254 / 64) && LittleEndian(s) < TWO_256
  {
    hide Two;
    BigTwos(8 * 31, 8 * 32, 224);
    assert s == s[..31] + [s[31]];
    LittleEndianAppend(s[..31], s[31]);
    LittleEndianBound(s[..31]);
    LittleEndianBound(s);
  }

  // Addition with a carry.

  /** One step of a carry loop. */
  lemma CarryStep(out: seq<byte>, xs: seq<byte>, y: nat, carry: nat, x: byte, d: nat, b: byte, next: nat)
    requires |out| == |xs| && LittleEndian(out) + carry * Two(8 * |out|) == LittleEndian(xs) + y
    requires x + d + carry == b + 0x100 * next
    ensures LittleEndian(out + [b]) + next * Two(8 * (|out| + 1)) == LittleEndian(xs + [x]) + (y + d * Two(8 * |out|))
  {
    hide Two, LittleEndian;
    var w := Two(8 * |out|);
    LittleEndianAppend(out, b);
    LittleEndianAppend(xs, x);
    ByteWeight(next, |out| + 1);
    CarryWeights(x, d, carry, b, next, w);
  }

  lemma CarryWeights(x: int, d: int, carry: int, b: int, next: int, w: int)
    requires x + d + carry == b + 0x100 * next
    ensures x * w + d * w + carry * w == b * w + 0x100 * (next * w)
  {
    assert (x + d + carry) * w == (b + 0x100 * next) * w;
  }

  /** The carry that is dropped at the end is a multiple of 2^256. */
  lemma DropCarry(r: seq<byte>, carry: nat, n: nat)
    requires |r| == 32 && LittleEndian(r) + carry * Two(8 * 32) == n
    ensures LittleEndian(r) == n % TWO_256
  {
    hide Two, LittleEndian;
    BigTwos(248, 8 * 32, 224);
    TopByte(r);
    DivUnique(n, TWO_256, carry, LittleEndian(r));
  }

  /** x + 8 times the low 28 bytes of y, modulo 2^256. */
  method Add28Mul8(x: seq<byte>, y: seq<byte>) returns (r: seq<byte>)
    requires |x| == 32 && |y| >= 28
    ensures |r| == 32 && LittleEndian(r) == (LittleEndian(x) + 8 * LittleEndian(y[..28])) % TWO_256
  {
    hide Two, LittleEndian;
    var out := new byte[32];
    ghost var w: seq<byte> := [];
    var carry: uint16 := 0;
    assert x[..0] == [] && y[..0] == [];
    Empty();
    for i := 0 to 28
      invariant |w| == i && out[..i] == w && carry <= 8 && LittleEndian(w) + carry * Two(8 * i) == LittleEndian(x[..i]) + 8 * LittleEndian(y[..i])
    {
      var t: uint16 := x[i] as int + y[i] as int * 8 + carry;
      assert x[..i + 1] == x[..i] + [x[i]] && y[..i + 1] == y[..i] + [y[i]];
      CarryStep(w, x[..i], 8 * LittleEndian(y[..i]), carry, x[i], 8 * y[i] as int, t % 0x100, t / 0x100);
      LittleEndianAppend(y[..i], y[i]);
      MulAssoc(8, y[i], 8 * y[i] as int, Two(8 * i));
      out[i] := t % 0x100;
      w := w + [out[i]];
      carry := t / 0x100;
    }
    ghost var z := 8 * LittleEndian(y[..28]);
    for i := 28 to 32
      invariant |w| == i && out[..i] == w && carry <= 8 && LittleEndian(w) + carry * Two(8 * i) == LittleEndian(x[..i]) + z
    {
      var t: uint16 := x[i] as int + carry;
      assert x[..i + 1] == x[..i] + [x[i]];
      CarryStep(w, x[..i], z, carry, x[i], 0, t % 0x100, t / 0x100);
      out[i] := t % 0x100;
      w := w + [out[i]];
      carry := t / 0x100;
    }
    assert x[..32] == x;
    assert out[..] == w;
    DropCarry(w, carry, LittleEndian(x) + z);
    r := out[..];
  }

  lemma Empty()
    ensures LittleEndian([]) == 0
  {
  }

  /** x + y modulo 2^256. */
  method Add256Bits(x: seq<byte>, y: seq<byte>) returns (r: seq<byte>)
    requires |x| == 32 && |y| == 32
    ensures |r| == 32 && LittleEndian(r) == (LittleEndian(x) + LittleEndian(y)) % TWO_256
  {
    hide Two, LittleEndian;
    var out := new byte[32];
    ghost var w: seq<byte> := [];
    var carry: uint16 := 0;
    assert x[..0] == [] && y[..0] == [];
    Empty();
    for i := 0 to 32
      invariant |w| == i && out[..i] == w && carry <= 1 && LittleEndian(w) + carry * Two(8 * i) == LittleEndian(x[..i]) + LittleEndian(y[..i])
    {
      var t: uint16 := x[i] as int + y[i] as int + carry;
      assert x[..i + 1] == x[..i] + [x[i]] && y[..i + 1] == y[..i] + [y[i]];
      CarryStep(w, x[..i], LittleEndian(y[..i]), carry, x[i], y[i], t % 0x100, t / 0x100);
      LittleEndianAppend(y[..i], y[i]);
      out[i] := t % 0x100;
      w := w + [out[i]];
      carry := t / 0x100;
    }
    assert x[..32] == x && y[..32] == y;
    assert out[..] == w;
    DropCarry(w, carry, LittleEndian(x) + LittleEndian(y));
    r := out[..];
  }
}
