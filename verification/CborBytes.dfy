/** Trees and their bytes determine each other. */
module CborBytes {
  import opened MachineInts
  import opened CborItems

  /** The argument suits the width of the head. */
  predicate IsWritable(h: Head) {
    h.major <= 7 && h.ai <= 31 &&
    match h.ai
    case 24 => h.val < 0x100
    case 25 => h.val < 0x1_0000
    case 26 => h.val < 0x1_0000_0000
    case 27 => h.val < 0x1_0000_0000_0000_0000
    case ai => h.val == ai
  }

  function ToBigEndian(n: nat, width: nat): (s: seq<byte>)
    ensures |s| == width
  {
    if width == 0 then [] else ToBigEndian(n / 0x100, width - 1) + [n % 0x100]
  }

  /** One byte more: the bound on the number grows by a factor 256. */
  lemma BigEndianStep(n: nat, width: nat)
    requires width > 0 && BigEndian(ToBigEndian(n / 0x100, width - 1)) == n / 0x100
    ensures BigEndian(ToBigEndian(n, width)) == n
  {
    var s := ToBigEndian(n, width);
    assert s[..|s| - 1] == ToBigEndian(n / 0x100, width - 1);
  }

  lemma BigEndianOfBytes(n: nat, width: nat)
    requires width == 0 ==> n == 0
    requires width == 1 ==> n < 0x100
    requires width == 2 ==> n < 0x1_0000
    requires width == 3 ==> n < 0x100_0000
    requires width == 4 ==> n < 0x1_0000_0000
    requires width == 5 ==> n < 0x100_0000_0000
    requires width == 6 ==> n < 0x1_0000_0000_0000
    requires width == 7 ==> n < 0x100_0000_0000_0000
    requires width == 8 ==> n < 0x1_0000_0000_0000_0000
    requires width <= 8
    ensures BigEndian(ToBigEndian(n, width)) == n
  {
    if width > 0 {
      BigEndianOfBytes(n / 0x100, width - 1);
      BigEndianStep(n, width);
    }
  }

  function HeadBytes(h: Head): (s: seq<byte>)
    requires h.major <= 7 && h.ai <= 31
    ensures |s| == HeadSize(h.ai)
  {
    [h.major * 32 + h.ai] + ToBigEndian(h.val, HeadSize(h.ai) - 1)
  }

  predicate AllWritable(it: Item) {
    IsWritable(it.h) && (it.Node? ==> AllItemsWritable(it.items))
  }

  predicate AllItemsWritable(items: Items) {
    match items
    case Nil => true
    case Cons(it, rest) => AllWritable(it) && AllItemsWritable(rest)
  }

  /** The serialization of a tree. */
  function ItemBytes(it: Item): (s: seq<byte>)
    requires AllWritable(it)
    ensures |s| == Size(it)
  {
    match it
    case Atom(h) => HeadBytes(h)
    case Str(h, body) => HeadBytes(h) + body
    case Node(h, items) => HeadBytes(h) + AllBytes(items) + if h.ai == 31 then [BREAK] else []
  }

  function AllBytes(items: Items): (s: seq<byte>)
    requires AllItemsWritable(items)
    ensures |s| == SizeAll(items)
  {
    match items
    case Nil => []
    case Cons(it, rest) => ItemBytes(it) + AllBytes(rest)
  }

  lemma HeadBytesAt(data: seq<byte>, off: nat, h: Head)
    requires IsWritable(h) && off + HeadSize(h.ai) <= |data| && data[off..off + HeadSize(h.ai)] == HeadBytes(h)
    ensures HeadAt(data, off, h)
  {
    hide ToBigEndian, BigEndian;
    var n := HeadSize(h.ai);
    var s := HeadBytes(h);
    if n > 1 { BigEndianOfBytes(h.val, n - 1); }
    assert s[0] == data[off];
    assert data[off + 1..off + n] == s[1..] == ToBigEndian(h.val, n - 1);
  }

  /** Where the serialization of a tree stands, the data spells the tree. */
  lemma {:induction false} BytesSpell(data: seq<byte>, off: nat, it: Item)
    requires AllWritable(it) && off + Size(it) <= |data| && data[off..off + Size(it)] == ItemBytes(it)
    ensures Spells(data, off, it)
    decreases it
  {
    hide IsWritable, HeadBytes, HeadAt, SpellsAll, AllItemsWritable, AllBytes, SizeAll;
    var h, o := it.h, off + HeadSize(it.h.ai);
    WritableHead(h);
    match it
    case Atom(_) => HeadBytesAt(data, off, h);
    case Str(_, body) =>
      Pieces(data, off, HeadBytes(h), body, []);
      HeadBytesAt(data, off, h);
    case Node(_, items) =>
      Pieces(data, off, HeadBytes(h), AllBytes(items), if h.ai == 31 then [BREAK] else []);
      HeadBytesAt(data, off, h);
      AllBytesSpell(data, o, items);
  }

  lemma WritableHead(h: Head)
    requires IsWritable(h)
    ensures h.major <= 7 && h.ai <= 31
  {
  }

  lemma Pieces(data: seq<byte>, off: nat, a: seq<byte>, b: seq<byte>, c: seq<byte>)
    requires off + |a| + |b| + |c| <= |data|
    requires data[off..off + |a| + |b| + |c|] == a + b + c || (c == [] && data[off..off + |a| + |b|] == a + b)
    ensures data[off..off + |a|] == a && data[off + |a|..off + |a| + |b|] == b
    ensures |c| == 1 ==> data[off + |a| + |b|] == c[0]
  {
    assert a + b + [] == a + b;
    var s := data[off..off + |a| + |b| + |c|];
    assert data[off..off + |a|] == s[..|a|];
    var t := data[off + |a|..off + |a| + |b|];
    assert forall i {:trigger t[i]} :: 0 <= i < |b| ==> t[i] == s[|a| + i];
    assert t == s[|a|..|a| + |b|];
    if |c| == 1 { assert data[off + |a| + |b|] == s[|a| + |b|]; }
  }

  lemma {:induction false} AllBytesSpell(data: seq<byte>, off: nat, items: Items)
    requires AllItemsWritable(items) && off + SizeAll(items) <= |data| && data[off..off + SizeAll(items)] == AllBytes(items)
    ensures SpellsAll(data, off, items)
    decreases items
  {
    hide Spells, AllWritable;
    if items.Cons? {
      var it, n := items.head, Size(items.head);
      Pieces(data, off, ItemBytes(it), AllBytes(items.tail), []);
      BytesSpell(data, off, it);
      AllBytesSpell(data, off + n, items.tail);
    }
  }

  /** The same bytes elsewhere spell the same tree. */
  lemma {:induction false} SpellsMoved(data: seq<byte>, off: nat, other: seq<byte>, k: int, it: Item)
    requires Spells(data, off, it) && off + Size(it) <= |data| && off + k >= 0 && off + k + Size(it) <= |other|
    requires forall i {:trigger data[i]} :: off <= i < off + Size(it) ==> other[i + k] == data[i]
    ensures Spells(other, off + k, it)
    decreases it
  {
    var h, n := it.h, HeadSize(it.h.ai);
    assert data[off] == other[off + k];
    assert data[off + 1..off + n] == other[off + k + 1..off + k + n];
    match it
    case Atom(_) =>
    case Str(_, body) => assert data[off + n..off + n + |body|] == other[off + k + n..off + k + n + |body|];
    case Node(_, items) =>
      AllSpellsMoved(data, off + n, other, k, items);
      if h.ai == 31 { assert data[off + n + SizeAll(items)] == other[off + n + SizeAll(items) + k]; }
  }

  lemma {:induction false} AllSpellsMoved(data: seq<byte>, off: nat, other: seq<byte>, k: int, items: Items)
    requires SpellsAll(data, off, items) && off + SizeAll(items) <= |data| && off + k >= 0 && off + k + SizeAll(items) <= |other|
    requires forall i {:trigger data[i]} :: off <= i < off + SizeAll(items) ==> other[i + k] == data[i]
    ensures SpellsAll(other, off + k, items)
    decreases items
  {
    hide Spells;
    if items.Cons? {
      SpellsMoved(data, off, other, k, items.head);
      AllSpellsMoved(data, off + Size(items.head), other, k, items.tail);
    }
  }

  /** Data spells at most one well-formed tree at a place. */
  lemma {:induction false} UniqueItem(data: seq<byte>, off: nat, a: Item, b: Item)
    requires Holds(data, off, a) && Holds(data, off, b)
    ensures a == b
    decreases a
  {
    hide Spells, SpellsAll, WellFormed, WellFormedAll, Size, SizeAll, Count, HeadAt, Holds, HoldsAll, AllChunks;
    HeadOf(data, off, a);
    HeadOf(data, off, b);
    SameHead(data, off, a.h, b.h);
    if a.Str? {
      StringParts(data, off, a);
      StringParts(data, off, b);
    } else if a.Node? {
      NodeParts(data, off, a);
      NodeParts(data, off, b);
      if a.h.major == 6 { TagCount(a.items); TagCount(b.items); }
      UniqueItems(data, off + HeadSize(a.h.ai), a.items, b.items, a.h.ai == 31);
    }
  }

  lemma SameHead(data: seq<byte>, off: nat, a: Head, b: Head)
    requires HeadAt(data, off, a) && HeadAt(data, off, b) && IsHead(a) && IsHead(b)
    ensures a == b
  {
    hide BigEndian;
  }

  lemma TagCount(items: Items)
    requires items.Cons? && items.tail == Nil
    ensures Count(items) == 1
  {
    assert Count(Nil) == 0;
  }

  lemma {:induction false} UniqueItems(data: seq<byte>, off: nat, a: Items, b: Items, indefinite: bool)
    requires Ahead(data, off, a, indefinite) && Ahead(data, off, b, indefinite) && (indefinite || Count(a) == Count(b))
    ensures a == b
    decreases a
  {
    hide Spells, SpellsAll, WellFormed, WellFormedAll, Size, SizeAll, Holds, HoldsAll, Ahead;
    AheadParts(data, off, a, indefinite);
    AheadParts(data, off, b, indefinite);
    if a.Cons? && b.Cons? {
      UniqueItem(data, off, a.head, b.head);
      UniqueItems(data, off + Size(a.head), a.tail, b.tail, indefinite);
    }
  }
}
