/** What the orders of map keys are, in terms of lengths, bytes and numbers (section 3.9 of RFC 7049). */
module CborKeyOrder {
  import opened Arith
  import opened MachineInts
  import opened CborItems
  import opened CborBytes
  import opened CborNumbers
  import opened CborOrder
  import opened CborEncode

  /** `a` comes before `b`: it is a proper prefix, or has the smaller byte at the first difference. */
  ghost predicate Before(a: seq<byte>, b: seq<byte>) {
    exists k {:trigger a[..k]} :: 0 <= k <= |a| && k < |b| && a[..k] == b[..k] && (k == |a| || a[k] < b[k])
  }

  lemma BeforeAt(a: seq<byte>, b: seq<byte>, k: nat)
    requires k <= |a| && k < |b| && a[..k] == b[..k] && (k == |a| || a[k] < b[k])
    ensures Before(a, b)
  {
  }

  lemma {:induction false} BytesLeqIsBefore(a: seq<byte>, b: seq<byte>)
    ensures BytesLeq(a, b) <==> a == b || Before(a, b)
  {
    if a == [] {
      if b != [] { BeforeAt(a, b, 0); }
    } else if b != [] {
      BytesLeqIsBefore(a[1..], b[1..]);
      assert a == [a[0]] + a[1..] && b == [b[0]] + b[1..];
      if a[0] < b[0] { BeforeAt(a, b, 0); }
      if a[0] == b[0] && Before(a[1..], b[1..]) {
        var k :| 0 <= k <= |a[1..]| && k < |b[1..]| && a[1..][..k] == b[1..][..k] && (k == |a[1..]| || a[1..][k] < b[1..][k]);
        assert a[..k + 1] == [a[0]] + a[1..][..k] && b[..k + 1] == [b[0]] + b[1..][..k];
        BeforeAt(a, b, k + 1);
      }
      if Before(a, b) { BeforeTail(a, b); }
    }
  }

  lemma BeforeTail(a: seq<byte>, b: seq<byte>)
    requires a != [] && b != [] && Before(a, b)
    ensures a[0] < b[0] || (a[0] == b[0] && Before(a[1..], b[1..]))
  {
    var k :| 0 <= k <= |a| && k < |b| && a[..k] == b[..k] && (k == |a| || a[k] < b[k]);
    if k > 0 {
      assert a[0] == a[..k][0] == b[..k][0] == b[0];
      assert a[1..][..k - 1] == a[..k][1..] && b[1..][..k - 1] == b[..k][1..];
      BeforeAt(a[1..], b[1..], k - 1);
    }
  }

  /** Strings of one length are in the order of the numbers they stand for. */
  lemma {:induction false} SameLengthIsNumeric(a: seq<byte>, b: seq<byte>)
    requires |a| == |b|
    ensures BytesLeq(a, b) <==> BigEndian(a) <= BigEndian(b)
  {
    hide Two, BigEndian;
    if a == [] {
      assert b == a;
    } else {
      var s, t := a[1..], b[1..];
      assert a == [a[0]] + s && b == [b[0]] + t;
      FirstByteWeighsMost(a[0], s);
      FirstByteWeighsMost(b[0], t);
      BigEndianBound(s);
      BigEndianBound(t);
      SameLengthIsNumeric(s, t);
      FirstDecides(a[0], b[0], Two(8 * |s|), BigEndian(s), BigEndian(t));
    }
  }

  lemma FirstDecides(x: int, y: int, p: int, u: int, v: int)
    requires 0 <= u < p && 0 <= v < p
    ensures x * p + u <= y * p + v <==> x < y || (x == y && u <= v)
  {
    if x < y { MulMono(x + 1, y, p); }
    if y < x { MulMono(y + 1, x, p); }
  }

  /** The order of two keys. */
  ghost predicate InOrder(a: seq<byte>, b: seq<byte>, order: Order) {
    match order
    case LengthFirst => |a| < |b| || (|a| == |b| && BigEndian(a) < BigEndian(b))
    case Bytewise => Before(a, b)
    case AsIterated => true
  }

  lemma KeysInOrder(a: seq<byte>, b: seq<byte>, order: Order)
    requires order != AsIterated && a != b && KeyLeq(a, b, order)
    ensures InOrder(a, b, order)
  {
    hide BytesLeq, BigEndian, Before;
    BytesLeqIsBefore(a, b);
    if |a| == |b| {
      SameLengthIsNumeric(a, b);
      SameLengthIsNumeric(b, a);
      BytesOrder(a, b);
    }
  }

  /** In both orders the heads of greater numbers come later. */
  lemma HeadsInOrder(n: nat, m: nat, order: Order)
    requires n <= m < 0x1_0000_0000_0000_0000
    ensures KeyLeq(HeadBytes(Shortest(0, n)), HeadBytes(Shortest(0, m)), order)
  {
    hide BigEndian;
    var g, h := Shortest(0, n), Shortest(0, m);
    var a, b := HeadBytes(g), HeadBytes(h);
    assert a[0] == g.ai && b[0] == h.ai;
    if |a| == |b| {
      SameLengthIsNumeric(a, b);
      if |a| > 1 {
        BigEndianOfBytes(n, |a| - 1);
        BigEndianOfBytes(m, |b| - 1);
        FirstByteWeighsMost(g.ai, a[1..]);
        FirstByteWeighsMost(h.ai, b[1..]);
        assert a == [g.ai] + a[1..] && b == [h.ai] + b[1..];
      }
    }
  }
}
