/** Numbers as bytes: the first byte is the most significant one. */
module CborNumbers {
  import opened Arith
  import opened MachineInts
  import opened CborItems

  /** The first byte weighs most: as much as all that come after it can hold. */
  lemma {:induction false} FirstByteWeighsMost(x: byte, s: seq<byte>)
    ensures BigEndian([x] + s) == x * Two(8 * |s|) + BigEndian(s)
  {
    var t := [x] + s;
    if s == [] {
      assert t[..0] == [] && BigEndian(t) == x;
      assert Two(0) == 1;
    } else {
      var u, y := s[..|s| - 1], s[|s| - 1];
      assert t[..|t| - 1] == [x] + u && t[|t| - 1] == y;
      FirstByteWeighsMost(x, u);
      NextByte(|u|);
      MulAssoc(0x100, Two(8 * |u|), Two(8 * |s|), x);
    }
  }

  lemma NextByte(n: nat)
    ensures Two(8 * (n + 1)) == 0x100 * Two(8 * n)
  {
    TwoAdd(8, 8 * n);
    TwoValues();
    assert 8 * (n + 1) == 8 + 8 * n;
  }

  lemma {:induction false} BigEndianBound(s: seq<byte>)
    ensures BigEndian(s) < Two(8 * |s|)
  {
    hide Two;
    if s == [] {
      TwoValues();
    } else {
      BigEndianBound(s[..|s| - 1]);
      NextByte(|s| - 1);
    }
  }

  /** The additional information 24 to 27 announces 1, 2, 4 or 8 more bytes. */
  lemma HeadSizes(ai: nat)
    ensures HeadSize(ai) == if 24 <= ai <= 27 then 1 + Two(ai - 24) else 1
  {
    assert Two(0) == 1 && Two(1) == 2 && Two(2) == 4 && Two(3) == 8;
  }

  /** The greatest int has 63 bits. */
  lemma GreatestInt()
    ensures MAX_INT == Two(63) - 1
  {
    TwoValues();
    TwoAdd(32, 25);
    TwoAdd(57, 3);
    assert Two(63) == 8 * Two(60);
  }
}
