/**
 * The decoder: a validator that checks bounds, and a reader that checks none and relies on it.
 * Reading is proved to stay within the data on everything the validator accepts.
 */
module CborDecoder {
  import opened MachineInts
  import opened CborItems
  import opened CborScan
  import opened CborValues
  import opened CborBytes
  import opened Wrappers

  /** Go's conversion of an unsigned 64-bit value to int. */
  function ToInt(val: uint64): int64 {
    if val <= MAX_INT then val else val - 0x1_0000_0000_0000_0000
  }

  lemma {:induction false} BigEndianBound(s: seq<byte>)
    requires |s| <= 8
    ensures BigEndian(s) < 0x1_0000_0000_0000_0000
    ensures |s| == 1 ==> BigEndian(s) == s[0]
  {
    if |s| == 1 { assert BigEndian(s[..0]) == 0; }
    var n: int, i := 0, 0;
    while i < |s|
      invariant 0 <= i <= |s| && n == BigEndian(s[..i])
      invariant i == 0 ==> n == 0
      invariant n < if i == 0 then 1 else if i == 1 then 0x100 else if i == 2 then 0x1_0000 else if i == 3 then 0x100_0000
        else if i == 4 then 0x1_0000_0000 else if i == 5 then 0x100_0000_0000 else if i == 6 then 0x1_0000_0000_0000
        else if i == 7 then 0x100_0000_0000_0000 else 0x1_0000_0000_0000_0000
    {
      assert s[..i + 1][..i] == s[..i];
      n := 0x100 * n + s[i];
      i := i + 1;
    }
    assert s[..|s|] == s;
  }

  ghost predicate HasItem(data: seq<byte>, off: nat) {
    exists it :: Holds(data, off, it)
  }

  /** The item that the data spells at `off`; there is only one. */
  ghost function ItemAt(data: seq<byte>, off: nat): Item
    requires HasItem(data, off)
  {
    var it :| Holds(data, off, it);
    it
  }

  lemma TheItemAt(data: seq<byte>, off: nat, it: Item)
    requires Holds(data, off, it)
    ensures HasItem(data, off) && ItemAt(data, off) == it
  {
    hide Holds;
    UniqueItem(data, off, it, ItemAt(data, off));
  }

  ghost function Meaning(data: seq<byte>, off: nat, m: Mode): Parsed
    requires HasItem(data, off)
  {
    Interp(ItemAt(data, off), true, m)
  }

  /** An accepted item is there. */
  lemma AcceptedItem(data: seq<byte>, off: nat, depth: nat, lim: Limits) returns (it: Item)
    requires off <= |data| && Scan(data, off, depth, lim).Done?
    ensures Holds(data, off, it) && HasItem(data, off) && ItemAt(data, off) == it && Scan(data, off, depth, lim).off == off + Size(it)
  {
    hide Scan, Spells, WellFormed, Fits, Size;
    it := ScanFindsItem(data, off, depth, lim, Scan(data, off, depth, lim));
    TheItemAt(data, off, it);
  }

  lemma AcceptedHasItem(data: seq<byte>, off: nat, depth: nat, lim: Limits)
    requires off <= |data| && Scan(data, off, depth, lim).Done?
    ensures HasItem(data, off)
  {
    hide Scan, Holds, Size;
    var _ := AcceptedItem(data, off, depth, lim);
  }

  class Decoder {
    var data: seq<byte>
    var off: nat
    const dm: Mode

    constructor (data: seq<byte>, dm: Mode)
      requires |data| <= MAX_INT
      ensures this.data == data && off == 0 && this.dm == dm && Valid()
    {
      this.data := data;
      this.off := 0;
      this.dm := dm;
    }

    ghost predicate Valid()
      reads this
    {
      off <= |data| <= MAX_INT
    }

    /** The outcome of a validation step, as its two results and the new offset. */
    ghost predicate Ended(o: Outcome, depth: int, err: Option<Fault>)
      reads this
    {
      match o
      case Done(end, d) => err == None && off == end && depth == d
      case Fail(e) => err == Some(e) && depth == 0
    }

    method ValidHead() returns (t: nat, ai: nat, val: uint64, err: Option<Fault>)
      requires Valid()
      modifies this`off
      ensures Valid()
      ensures match ScanHead(data, old(off))
        case GoodHead(h) => err == None && h == Head(t, ai, val) && off == old(off) + HeadSize(ai)
        case BadHead(e) => err == Some(e)
    {
      var dataLen := |data| - off;
      if dataLen == 0 { return 0, 0, 0, Some(UnexpectedEof); }
      t, ai := data[off] / 32, data[off] % 32;
      val, err := ai, None;
      off := off + 1;
      if ai < 24 { return; }
      if ai == 24 {
        if dataLen < 2 { return 0, 0, 0, Some(UnexpectedEof); }
        val := data[off];
        BigEndianBound(data[off..off + 1]);
        off := off + 1;
        if t == 7 && val < 32 { return 0, 0, 0, Some(Syntax); }
        return;
      }
      if ai == 25 {
        if dataLen < 3 { return 0, 0, 0, Some(UnexpectedEof); }
        val := ReadBigEndian(2);
        return;
      }
      if ai == 26 {
        if dataLen < 5 { return 0, 0, 0, Some(UnexpectedEof); }
        val := ReadBigEndian(4);
        return;
      }
      if ai == 27 {
        if dataLen < 9 { return 0, 0, 0, Some(UnexpectedEof); }
        val := ReadBigEndian(8);
        return;
      }
      if ai == 31 {
        if t == 0 || t == 1 || t == 6 { return 0, 0, 0, Some(Syntax); }
        if t == 7 { return 0, 0, 0, Some(Syntax); }
        return;
      }
      return 0, 0, 0, Some(Syntax);
    }

    /** The next `n` bytes as a number; nothing is checked. */
    method ReadBigEndian(n: nat) returns (val: uint64)
      requires off + n <= |data| && n <= 8
      modifies this`off
      ensures val == BigEndian(data[old(off)..old(off) + n]) && off == old(off) + n
    {
      BigEndianBound(data[off..off + n]);
      val := BigEndian(data[off..off + n]);
      off := off + n;
    }

    /** Checks that the data is complete and well-formed. */
    method CheckValid() returns (err: Option<Fault>)
      requires Valid()
      modifies this`off
      ensures Valid()
      ensures old(off) == |data| ==> err == Some(Eof)
      ensures old(off) < |data| ==> match Scan(data, old(off), 0, dm.lim)
        case Done(end, _) => err == None && off == end
        case Fail(e) => err == Some(e)
    {
      if |data| == off { return Some(Eof); }
      var _, e := ValidInternal(0);
      err := e;
    }

    method ValidInternal(depth0: nat) returns (depth: nat, err: Option<Fault>)
      requires Valid()
      modifies this`off
      ensures Valid() && Ended(Scan(data, old(off), depth0, dm.lim), depth, err)
      decreases |data| - off, 1
    {
      depth := depth0;
      var t, ai, val, e := ValidHead();
      if e.Some? { return 0, e; }
      if t == 2 || t == 3 {
        assert Scan(data, old(off), depth0, dm.lim) == ScanString(data, off, depth0, Head(t, ai, val), dm.lim);
        if ai == 31 {
          if !dm.lim.indefinite { return 0, Some(IndefiniteForbidden(t)); }
          depth, err := ValidIndefiniteString(t, depth);
          return;
        }
        var valInt: int := ToInt(val);
        if valInt < 0 { return 0, Some(TooLong); }
        if |data| - off < valInt { return 0, Some(UnexpectedEof); }
        off := off + valInt;
      } else if t == 4 || t == 5 {
        depth := depth + 1;
        assert Scan(data, old(off), depth0, dm.lim) == ScanCollection(data, off, depth, Head(t, ai, val), dm.lim);
        if depth > dm.lim.maxNestedLevels { return 0, Some(TooDeep); }
        if ai == 31 {
          if !dm.lim.indefinite { return 0, Some(IndefiniteForbidden(t)); }
          depth, err := ValidIndefiniteArrayOrMap(t, depth);
          return;
        }
        var valInt := ToInt(val);
        if valInt < 0 { return 0, Some(TooLong); }
        if t == 4 {
          if valInt > dm.lim.maxArrayElements { return 0, Some(TooManyElements); }
        } else {
          if valInt > dm.lim.maxMapPairs { return 0, Some(TooManyPairs); }
        }
        depth, err := ValidItems(if t == 5 then 2 else 1, valInt, depth);
        return;
      } else if t == 6 {
        if !dm.lim.tags { return 0, Some(TagsForbidden); }
        depth, err := ValidTagged(depth);
        return;
      }
      return depth, None;
    }

    /** The definite-length loops: `count` times `valInt` items. */
    method ValidItems(count: nat, valInt: nat, depth: nat) returns (maxDepth: nat, err: Option<Fault>)
      requires Valid() && 1 <= count <= 2
      modifies this`off
      ensures Valid() && Ended(ScanItems(data, old(off), depth, depth, if count == 2 then 2 * valInt else valInt, dm.lim), maxDepth, err)
      decreases |data| - off, 2
    {
      hide Scan;
      maxDepth := depth;
      ghost var all := ScanItems(data, off, depth, depth, if count == 2 then 2 * valInt else valInt, dm.lim);
      var j := 0;
      while j < count
        invariant j <= count && old(off) <= off && Valid()
        invariant all == ScanItems(data, off, depth, maxDepth, if count - j == 2 then 2 * valInt else if count - j == 1 then valInt else 0, dm.lim)
      {
        var i := 0;
        while i < valInt
          invariant 0 <= i <= valInt && old(off) <= off && Valid()
          invariant all == ScanItems(data, off, depth, maxDepth, (if count - j == 2 then 2 * valInt else valInt) - i, dm.lim)
        {
          var dpt, e := ValidInternal(depth);
          if e.Some? { return 0, e; }
          if dpt > maxDepth { maxDepth := dpt; }
          i := i + 1;
        }
        j := j + 1;
      }
      return maxDepth, None;
    }

    /** The tag loop: tag numbers are scanned without recursion, then the content. */
    method ValidTagged(depth0: nat) returns (depth: nat, err: Option<Fault>)
      requires Valid()
      modifies this`off
      ensures Valid() && Ended(ScanTags(data, old(off), depth0, dm.lim), depth, err)
      decreases |data| - off, 2
    {
      hide Scan, ScanHead;
      depth := depth0;
      while true
        invariant Valid() && old(off) <= off
        invariant ScanTags(data, off, depth, dm.lim) == ScanTags(data, old(off), depth0, dm.lim)
        decreases |data| - off
      {
        if |data| == off { return 0, Some(UnexpectedEof); }
        if data[off] / 32 != 6 { break; }
        var _, _, _, e := ValidHead();
        if e.Some? { return 0, e; }
        depth := depth + 1;
        if depth > dm.lim.maxNestedLevels { return 0, Some(TooDeep); }
      }
      depth, err := ValidInternal(depth);
    }

    method ValidIndefiniteString(t: nat, depth0: nat) returns (depth: nat, err: Option<Fault>)
      requires Valid()
      modifies this`off
      ensures Valid() && Ended(ScanChunks(data, old(off), depth0, t, dm.lim), depth, err)
      decreases |data| - off, 2
    {
      hide Scan;
      depth := depth0;
      while true
        invariant Valid() && old(off) <= off
        invariant ScanChunks(data, off, depth, t, dm.lim) == ScanChunks(data, old(off), depth0, t, dm.lim)
        decreases |data| - off
      {
        if |data| == off { return 0, Some(UnexpectedEof); }
        if data[off] == BREAK {
          off := off + 1;
          break;
        }
        var nt := data[off] / 32;
        if t != nt { return 0, Some(Syntax); }
        if data[off] % 32 == 31 { return 0, Some(Syntax); }
        var e;
        depth, e := ValidInternal(depth);
        if e.Some? { return 0, e; }
      }
      return depth, None;
    }

    method ValidIndefiniteArrayOrMap(t: nat, depth: nat) returns (maxDepth: nat, err: Option<Fault>)
      requires Valid() && (t == 4 || t == 5)
      modifies this`off
      ensures Valid() && Ended(ScanUntilBreak(data, old(off), depth, depth, t, 0, dm.lim), maxDepth, err)
      decreases |data| - off, 2
    {
      hide Scan;
      maxDepth := depth;
      var i := 0;
      while true
        invariant Valid() && old(off) <= off && i >= 0
        invariant ScanUntilBreak(data, off, depth, maxDepth, t, i, dm.lim) == ScanUntilBreak(data, old(off), depth, depth, t, 0, dm.lim)
        decreases |data| - off
      {
        if |data| == off { return 0, Some(UnexpectedEof); }
        if data[off] == BREAK {
          off := off + 1;
          break;
        }
        var dpt, e := ValidInternal(depth);
        if e.Some? { return 0, e; }
        if dpt > maxDepth { maxDepth := dpt; }
        i := i + 1;
        if t == 4 {
          if i > dm.lim.maxArrayElements { return 0, Some(TooManyElements); }
        } else {
          if i % 2 == 0 && i / 2 > dm.lim.maxMapPairs { return 0, Some(TooManyPairs); }
        }
      }
      if t == 5 && i % 2 == 1 { return 0, Some(Syntax); }
      return maxDepth, None;
    }

    // Reading. Nothing below checks bounds: each method relies on a well-formed item being there,
    // and its index operations are proved safe from that.

    method GetHead(ghost h: Head) returns (t: nat, ai: nat, val: uint64)
      requires Valid() && HeadAt(data, off, h) && IsHead(h)
      modifies this`off
      ensures Head(t, ai, val) == h && off == old(off) + HeadSize(ai) && Valid()
    {
      t, ai := data[off] / 32, data[off] % 32;
      val := ai;
      off := off + 1;
      if ai < 24 { return; }
      if ai == 24 {
        BigEndianBound(data[off..off + 1]);
        val := data[off];
        off := off + 1;
        return;
      }
      if ai == 25 {
        val := ReadBigEndian(2);
        return;
      }
      if ai == 26 {
        val := ReadBigEndian(4);
        return;
      }
      if ai == 27 {
        val := ReadBigEndian(8);
        return;
      }
    }

    /** Moves past the break code if it is there. */
    method FoundBreak(ghost rest: Items) returns (found: bool)
      requires Valid() && Ahead(data, off, rest, true)
      modifies this`off
      ensures Valid() && found == rest.Nil? && off == old(off) + (if found then 1 else 0)
    {
      AheadParts(data, off, rest, true);
      if data[off] == BREAK {
        off := off + 1;
        return true;
      }
      return false;
    }

    lemma CountNonNil(items: Items)
      ensures Count(items) == 0 <==> items.Nil?
    {
    }

    /** The loop condition of the readers: count down, or look for the break code. */
    method MoreItems(hasSize: bool, left: bool, ghost rest: Items) returns (more: bool)
      requires Valid() && Ahead(data, off, rest, !hasSize) && (hasSize ==> left == (Count(rest) > 0))
      modifies this`off
      ensures Valid() && more == rest.Cons? && off == old(off) + (if !hasSize && rest.Nil? then 1 else 0)
    {
      CountNonNil(rest);
      if hasSize { return left; }
      var found := FoundBreak(rest);
      return !found;
    }

    /** Moves past one item. */
    method Skip(ghost it: Item)
      requires Valid() && Holds(data, off, it)
      modifies this`off
      ensures Valid() && off == old(off) + Size(it)
      decreases Size(it), 0
    {
      hide Spells, SpellsAll, WellFormed, WellFormedAll, Size, SizeAll, Count, HeadAt, Holds, HoldsAll, Ahead, AllChunks;
      HeadOf(data, off, it);
      if it.Str? { StringParts(data, off, it); }
      if it.Node? { Body(it); }
      var t, ai, val := GetHead(it.h);
      if ai == 31 {
        if 2 <= t <= 5 {
          SkipUntilBreak(it.items);
          return;
        }
      }
      if t == 2 || t == 3 {
        off := off + ToInt(val);
      } else if t == 4 {
        SkipItems(ToInt(val), it.items);
      } else if t == 5 {
        var twice: int64 := ToInt(val) * 2;
        SkipItems(twice, it.items);
      } else if t == 6 {
        AheadParts(data, off, it.items, false);
        Skip(it.items.head);
      }
    }

    /** What a node says about the items after its head. */
    lemma Body(it: Item)
      requires Valid() && Holds(data, off, it) && it.Node?
      ensures Ahead(data, off + HeadSize(it.h.ai), it.items, it.h.ai == 31)
      ensures Size(it) == HeadSize(it.h.ai) + SizeAll(it.items) + if it.h.ai == 31 then 1 else 0
      ensures it.h.major < 4 ==> it.h.ai == 31 && AllChunks(it.items, it.h.major)
      ensures it.h.major == 4 && it.h.ai != 31 ==> Count(it.items) == it.h.val <= MAX_INT
      ensures it.h.major == 5 && it.h.ai != 31 ==> Count(it.items) == 2 * it.h.val <= MAX_INT
      ensures it.h.major == 5 ==> Count(it.items) % 2 == 0
      ensures it.h.major == 6 ==> it.h.ai != 31 && it.items.Cons? && it.items.tail == Nil && SizeAll(it.items) == Size(it.items.head)
    {
      hide Spells, SpellsAll, WellFormed, WellFormedAll, Size, SizeAll, Count, HeadAt, AllChunks;
      NodeParts(data, off, it);
      CountBound(it.items);
    }

    method SkipUntilBreak(ghost items: Items)
      requires Valid() && Ahead(data, off, items, true)
      modifies this`off
      ensures Valid() && off == old(off) + SizeAll(items) + 1
      decreases SizeAll(items), 1
    {
      hide Spells, SpellsAll, WellFormed, WellFormedAll, Size, SizeAll, Count, HeadAt, Holds, HoldsAll, Ahead, AllChunks;
      ghost var rest := items;
      ghost var end := off + SizeAll(items);
      AheadParts(data, off, items, true);
      while true
        invariant Valid() && Ahead(data, off, rest, true) && off + SizeAll(rest) == end && SizeAll(rest) <= SizeAll(items)
        invariant off < |data|
        decreases SizeAll(rest)
      {
        AheadParts(data, off, rest, true);
        if data[off] == BREAK {
          off := off + 1;
          return;
        }
        Skip(rest.head);
        rest := rest.tail;
        AheadParts(data, off, rest, true);
      }
    }

    method SkipItems(n: nat, ghost items: Items)
      requires Valid() && Ahead(data, off, items, false) && n == Count(items)
      modifies this`off
      ensures Valid() && off == old(off) + SizeAll(items)
      decreases SizeAll(items), 1
    {
      hide Spells, SpellsAll, WellFormed, WellFormedAll, Size, SizeAll, Count, HeadAt, Holds, HoldsAll, Ahead, AllChunks;
      ghost var rest := items;
      ghost var end := off + SizeAll(items);
      var i := 0;
      while i < n
        invariant Valid() && Ahead(data, off, rest, false) && off + SizeAll(rest) == end && SizeAll(rest) <= SizeAll(items)
        invariant i + Count(rest) == n
      {
        AheadParts(data, off, rest, false);
        Skip(rest.head);
        rest := rest.tail;
        i := i + 1;
      }
      AheadParts(data, off, rest, false);
    }

    /** Counts the items before the break code and goes back. */
    method NumOfItemsUntilBreak(ghost items: Items) returns (i: nat)
      requires Valid() && Ahead(data, off, items, true)
      modifies this`off
      ensures Valid() && off == old(off) && i == Count(items)
    {
      hide Spells, SpellsAll, WellFormed, WellFormedAll, Size, SizeAll, Count, HeadAt, Holds, HoldsAll, Ahead, AllChunks;
      var savedOff := off;
      i := 0;
      ghost var rest := items;
      var found := FoundBreak(rest);
      while !found
        invariant Valid() && found == rest.Nil? && (!found ==> Ahead(data, off, rest, true)) && i + Count(rest) == Count(items)
        decreases SizeAll(rest), !found
      {
        AheadParts(data, off, rest, true);
        Skip(rest.head);
        i := i + 1;
        rest := rest.tail;
        found := FoundBreak(rest);
      }
      assert Count(rest) == 0 by { CountNil(); }
      off := savedOff;
    }

    lemma CountNil()
      ensures Count(Nil) == 0 && SizeAll(Nil) == 0
    {
    }

    /** Copies the `n` bytes ahead. */
    method Take(n: nat) returns (b: seq<byte>)
      requires Valid() && off + n <= |data|
      modifies this`off
      ensures Valid() && b == data[old(off)..old(off) + n] && off == old(off) + n
    {
      b := data[off..off + n];
      off := off + n;
    }

    /** Reads the head and the body of a definite-length string. */
    method Chunk(ghost it: Item) returns (b: seq<byte>)
      requires Valid() && Holds(data, off, it) && it.Str?
      modifies this`off
      ensures Valid() && off == old(off) + Size(it) && b == it.body
    {
      hide Spells, SpellsAll, WellFormed, WellFormedAll, Size, SizeAll, Count, HeadAt, Holds, HoldsAll, Ahead, AllChunks;
      HeadOf(data, off, it);
      StringParts(data, off, it);
      var _, _, val := GetHead(it.h);
      b := Take(ToInt(val));
    }

    method ParseByteString(ghost it: Item) returns (b: seq<byte>)
      requires Valid() && Holds(data, off, it) && it.h.major == 2
      modifies this`off
      ensures Valid() && off == old(off) + Size(it) && b == Content(it)
    {
      hide Spells, SpellsAll, WellFormed, WellFormedAll, Size, SizeAll, Count, HeadAt, Holds, HoldsAll, Ahead, AllChunks, Joined;
      HeadOf(data, off, it);
      if it.Str? { StringParts(data, off, it); }
      if it.Node? { Body(it); }
      ghost var end := off + Size(it);
      var _, ai, val := GetHead(it.h);
      if ai != 31 {
        b := Take(ToInt(val));
        return;
      }
      b := [];
      ghost var rest := it.items;
      var found := FoundBreak(rest);
      while !found
        invariant Valid() && found == rest.Nil? && (!found ==> Ahead(data, off, rest, true)) && AllChunks(rest, 2)
        invariant off + SizeAll(rest) + (if found then 0 else 1) == end
        invariant b + Joined(rest) == Joined(it.items)
        decreases SizeAll(rest), !found
      {
        AheadParts(data, off, rest, true);
        ChunkParts(rest, 2);
        JoinedCons(b, rest);
        var x := Chunk(rest.head);
        b := b + x;
        rest := rest.tail;
        found := FoundBreak(rest);
      }
      NilParts();
    }

    method ParseTextString(ghost it: Item) returns (b: seq<byte>, err: Option<Error>)
      requires Valid() && Holds(data, off, it) && it.h.major == 3
      modifies this`off
      ensures Valid() && off == old(off) + Size(it)
      ensures if IsText(it, dm) then b == Content(it) && err == None else err == Some(InvalidUtf8)
    {
      hide Spells, SpellsAll, WellFormed, WellFormedAll, Size, SizeAll, Count, HeadAt, Holds, HoldsAll, Ahead, AllChunks, Joined, AllValidUtf8;
      HeadOf(data, off, it);
      if it.Str? { StringParts(data, off, it); }
      if it.Node? { Body(it); }
      ghost var end := off + Size(it);
      err := None;
      var _, ai, val := GetHead(it.h);
      if ai != 31 {
        b := Take(ToInt(val));
        if !dm.validUtf8(b) { return [], Some(InvalidUtf8); }
        return;
      }
      b := [];
      ghost var rest := it.items;
      var found := FoundBreak(rest);
      while !found
        invariant Valid() && found == rest.Nil? && (!found ==> Ahead(data, off, rest, true)) && AllChunks(rest, 3)
        invariant off + SizeAll(rest) + (if found then 0 else 1) == end
        invariant b + Joined(rest) == Joined(it.items) && AllValidUtf8(rest, dm) == AllValidUtf8(it.items, dm)
        decreases SizeAll(rest), !found
      {
        AheadParts(data, off, rest, true);
        ChunkParts(rest, 3);
        JoinedCons(b, rest);
        var x := Chunk(rest.head);
        if !dm.validUtf8(x) {
          SkipUntilBreak(rest.tail);
          return [], Some(InvalidUtf8);
        }
        b := b + x;
        rest := rest.tail;
        found := FoundBreak(rest);
      }
      NilParts();
    }

    lemma JoinedCons(b: seq<byte>, rest: Items)
      requires rest.Cons? && rest.head.Str?
      ensures b + Joined(rest) == (b + rest.head.body) + Joined(rest.tail)
      ensures AllValidUtf8(rest, dm) == (dm.validUtf8(rest.head.body) && AllValidUtf8(rest.tail, dm))
    {
    }

    lemma NilParts()
      ensures SizeAll(Nil) == 0 && Count(Nil) == 0 && Joined(Nil) == [] && AllValidUtf8(Nil, dm)
    {
    }

    method NextType() returns (t: nat)
      requires off < |data|
      ensures t == data[off] / 32
    {
      t := data[off] / 32;
    }

    /** The content of a tag whose head has been read. */
    lemma TagContent(it: Item)
      requires Valid() && Holds(data, off, it) && IsTag(it)
      ensures it.items.Cons? && it.h.ai != 31 && Holds(data, off + HeadSize(it.h.ai), it.items.head)
      ensures Size(it) == HeadSize(it.h.ai) + Size(it.items.head)
    {
      hide Spells, SpellsAll, WellFormed, WellFormedAll, Size, SizeAll, Count, HeadAt, Holds, HoldsAll, Ahead, AllChunks;
      Body(it);
      AheadParts(data, off + HeadSize(it.h.ai), it.items, false);
    }

    /** Takes off the self-described tags in front of an item. */
    method StripSelfDescribed(ghost it: Item) returns (ghost inner: Item)
      requires Valid() && Holds(data, off, it)
      modifies this`off
      ensures Valid() && Holds(data, off, inner) && off + Size(inner) == old(off) + Size(it) && Size(inner) <= Size(it)
      ensures inner == Stripped(it) && Interp(it, true, dm) == Interpret(inner, dm)
    {
      hide Spells, SpellsAll, WellFormed, WellFormedAll, Size, SizeAll, Count, HeadAt, Holds, HoldsAll, Ahead, AllChunks, Interpret;
      inner := it;
      StartOf(it);
      while data[off] / 32 == 6
        invariant Valid() && Holds(data, off, inner) && off + Size(inner) == old(off) + Size(it) && Size(inner) <= Size(it)
        invariant off < |data| && (data[off] / 32 == 6 <==> IsTag(inner))
        invariant Stripped(it) == Stripped(inner) && Interp(it, true, dm) == Interp(inner, true, dm)
        decreases Size(inner)
      {
        var here := off;
        HeadOf(data, off, inner);
        TagContent(inner);
        var _, _, tagNum := GetHead(inner.h);
        if tagNum != SELF_DESCRIBED {
          off := here;
          break;
        }
        inner := inner.items.head;
        StartOf(inner);
      }
    }

    lemma StartOf(it: Item)
      requires Valid() && Holds(data, off, it)
      ensures off < |data| && data[off] == it.h.major * 32 + it.h.ai && (data[off] / 32 == 6 <==> IsTag(it))
      ensures data[off] / 32 == it.h.major && it.h.major <= 7
    {
      NotBreak(data, off, it);
    }

    /** Checks a built-in tag in front of an item; an item that fails is skipped. */
    method CheckBuiltinTag(ghost it: Item) returns (err: Option<Error>)
      requires Valid() && Holds(data, off, it)
      modifies this`off
      ensures Valid()
      ensures err == if IsTag(it) && it.items.Cons? && !ValidBuiltinTag(it.h.val, it.items.head.h.major * 32 + it.items.head.h.ai)
        then Some(WrongTagContent(it.h.val)) else None
      ensures off == if err.Some? then old(off) + Size(it) else old(off)
    {
      hide Spells, SpellsAll, WellFormed, WellFormedAll, Size, SizeAll, Count, HeadAt, Holds, HoldsAll, Ahead, AllChunks, ValidBuiltinTag;
      StartOf(it);
      var t := NextType();
      if t == 6 {
        var here := off;
        HeadOf(data, off, it);
        TagContent(it);
        var _, _, tagNum := GetHead(it.h);
        StartOf(it.items.head);
        if !ValidBuiltinTag(tagNum, data[off]) {
          Skip(it.items.head);
          return Some(WrongTagContent(tagNum));
        }
        off := here;
      }
      return None;
    }

    /**
     * Reads one item. Whatever the result, even an error on the way, the decoder is then at the
     * item's end.
     */
    method Parse(skipSelfDescribedTag: bool, ghost it: Item) returns (v: Value, err: Option<Error>)
      requires Valid() && Holds(data, off, it)
      modifies this`off
      ensures Valid() && off == old(off) + Size(it)
      ensures Parsed(v, err) == Interp(it, skipSelfDescribedTag, dm)
      decreases Size(it), 4
    {
      hide Spells, SpellsAll, WellFormed, WellFormedAll, Size, SizeAll, Count, HeadAt, Holds, HoldsAll, Ahead, AllChunks, Interpret;
      ghost var inner := it;
      if skipSelfDescribedTag { inner := StripSelfDescribed(it); }
      v, err := ParseInner(inner);
    }

    method ParseInner(ghost it: Item) returns (v: Value, err: Option<Error>)
      requires Valid() && Holds(data, off, it)
      modifies this`off
      ensures Valid() && off == old(off) + Size(it)
      ensures Parsed(v, err) == Interpret(it, dm)
      decreases Size(it), 3
    {
      hide Spells, SpellsAll, WellFormed, WellFormedAll, Size, SizeAll, Count, HeadAt, Holds, HoldsAll, Ahead, AllChunks, Joined, IsText, InterpArray, InterpMap, ValidBuiltinTag, Interp;
      StartOf(it);
      HeadOf(data, off, it);
      if IsTag(it) { TagContent(it); }
      err := CheckBuiltinTag(it);
      if err.Some? { return Null, err; }
      var t := NextType();
      if t == 0 {
        var _, _, val := GetHead(it.h);
        if !dm.signedInts { return Uint(val), None; }
        if val > MAX_INT { return Null, Some(IntOverflow); }
        return Int(val), None;
      } else if t == 1 {
        var _, _, val := GetHead(it.h);
        if val > MAX_INT { return BigInt(-(val as int + 1)), None; }
        var nValue: int64 := -1 - ToInt(val);
        return Int(nValue), None;
      } else if t == 2 {
        var b := ParseByteString(it);
        return Bytes(b), None;
      } else if t == 3 {
        var b, e := ParseTextString(it);
        if e.Some? { return Null, e; }
        return Text(b), None;
      } else if t == 4 {
        v, err := ParseArray(it);
      } else if t == 5 {
        v, err := ParseMap(it);
      } else if t == 6 {
        v, err := ParseTag(it);
      } else {
        var _, ai, val := GetHead(it.h);
        if ai < 20 || ai == 24 { return Uint(val), None; }
        if ai == 20 || ai == 21 { return Bool(ai == 21), None; }
        if ai == 22 || ai == 23 { return Null, None; }
        return Float(ai, val), None;
      }
    }

    method ParseTag(ghost it: Item) returns (v: Value, err: Option<Error>)
      requires Valid() && Holds(data, off, it) && IsTag(it) && it.items.Cons?
      requires ValidBuiltinTag(it.h.val, it.items.head.h.major * 32 + it.items.head.h.ai)
      modifies this`off
      ensures Valid() && off == old(off) + Size(it)
      ensures Parsed(v, err) == InterpTag(it.h.val, it.items.head, dm)
      decreases Size(it), 2
    {
      hide Spells, SpellsAll, WellFormed, WellFormedAll, Size, SizeAll, Count, HeadAt, Holds, HoldsAll, Ahead, AllChunks, Interp;
      HeadOf(data, off, it);
      TagContent(it);
      ghost var content := it.items.head;
      var tagOff := off;
      var _, _, tagNum := GetHead(it.h);
      HeadOf(data, off, content);
      if tagNum == 0 || tagNum == 1 {
        off := tagOff;
        v, err := ParseToTime(it);
        return;
      }
      if tagNum == 2 {
        var b := ParseByteString(content);
        return BigInt(BigEndian(b)), None;
      }
      if tagNum == 3 {
        var b := ParseByteString(content);
        return BigInt(-(BigEndian(b) + 1)), None;
      }
      v, err := Parse(false, content);
      if err.Some? { return Null, err; }
      return Tag(tagNum, v), None;
    }

    method ParseToTime(ghost it: Item) returns (v: Value, err: Option<Error>)
      requires Valid() && Holds(data, off, it) && IsTag(it) && it.items.Cons? && it.h.val <= 1
      requires ValidBuiltinTag(it.h.val, it.items.head.h.major * 32 + it.items.head.h.ai)
      modifies this`off
      ensures Valid() && off == old(off) + Size(it)
      ensures Parsed(v, err) == InterpTag(it.h.val, it.items.head, dm)
      decreases Size(it), 1
    {
      hide Spells, SpellsAll, WellFormed, WellFormedAll, Size, SizeAll, Count, HeadAt, Holds, HoldsAll, Ahead, AllChunks, Interp;
      ghost var content := it.items.head;
      HeadOf(data, off, it);
      TagContent(it);
      StartOf(it);
      ghost var start, contentOff := off, off + HeadSize(it.h.ai);
      if dm.ignoreTimeTag {
        // Takes off any number of tags; the check of the content leaves just this one.
        var t := NextType();
        while t == 6
          invariant Valid() && if t == 6 then off == start else off == contentOff
          decreases contentOff - off
        {
          var _, _, _ := GetHead(it.h);
          StartOf(content);
          t := NextType();
        }
      } else {
        // The number is 0 or 1 here.
        var _, _, _ := GetHead(it.h);
      }
      var c, e := Parse(false, content);
      if e.Some? { return Time(0), e; }
      var p := dm.toTime(c);
      return p.v, p.err;
    }

    method ParseArray(ghost it: Item) returns (r: Value, err: Option<Error>)
      requires Valid() && Holds(data, off, it) && it.h.major == 4
      modifies this`off
      ensures Valid() && off == old(off) + Size(it)
      ensures it.Node? && Parsed(r, err) == InterpArray(it.items, [], None, dm)
      decreases Size(it), 2
    {
      hide Spells, SpellsAll, WellFormed, WellFormedAll, Size, SizeAll, Count, HeadAt, Holds, HoldsAll, Ahead, AllChunks, Interp, InterpArray, Interpret;
      HeadOf(data, off, it);
      Body(it);
      ghost var items, end := it.items, off + Size(it);
      var _, ai, val := GetHead(it.h);
      var hasSize := ai != 31;
      var count := ToInt(val);
      if !hasSize { count := NumOfItemsUntilBreak(items); }
      var v := new Value[count](_ => Null);
      err := None;
      var i := 0;
      ghost var rest := items;
      NilParts();
      var more := MoreItems(hasSize, i < count, rest);
      while more
        invariant Valid() && more == rest.Cons? && (more ==> Ahead(data, off, rest, !hasSize)) && i + Count(rest) == count
        invariant off + SizeAll(rest) + (if more && !hasSize then 1 else 0) == end && SizeAll(rest) <= SizeAll(items)
        invariant InterpArray(rest, v[..i], err, dm) == InterpArray(items, [], None, dm)
        invariant forall k :: i <= k < v.Length ==> v[k] == Null
        decreases SizeAll(rest), more
      {
        AheadParts(data, off, rest, !hasSize);
        ghost var before := v[..i];
        var e, lastErr := Parse(true, rest.head);
        ArrayStep(rest, before, err, Parsed(e, lastErr));
        if lastErr.Some? {
          if err.None? { err := lastErr; }
        } else {
          v[i] := e;
        }
        assert v[..i + 1] == before + [if lastErr.Some? then Null else e];
        i := i + 1;
        rest := rest.tail;
        more := MoreItems(hasSize, i < count, rest);
      }
      NilParts();
      ArrayEnd(v[..], err);
      assert v[..i] == v[..];
      r := Array(v[..]);
    }

    lemma ArrayStep(rest: Items, vs: seq<Value>, err: Option<Error>, p: Parsed)
      requires rest.Cons? && p == Interp(rest.head, true, dm)
      ensures InterpArray(rest, vs, err, dm)
           == InterpArray(rest.tail, vs + [if p.err.Some? then Null else p.v], First(err, p.err), dm)
    {
    }

    lemma ArrayEnd(vs: seq<Value>, err: Option<Error>)
      ensures InterpArray(Nil, vs, err, dm) == Parsed(Array(vs), err)
    {
    }

    method ParseMap(ghost it: Item) returns (r: Value, err: Option<Error>)
      requires Valid() && Holds(data, off, it) && it.h.major == 5
      modifies this`off
      ensures Valid() && off == old(off) + Size(it)
      ensures it.Node? && Parsed(r, err) == InterpMap(it.items, 0, [], None, dm)
      decreases Size(it), 2
    {
      hide Spells, SpellsAll, WellFormed, WellFormedAll, Size, SizeAll, Count, HeadAt, Holds, HoldsAll, Ahead, AllChunks, InterpMap, Interpret, Interp;
      HeadOf(data, off, it);
      Body(it);
      ghost var items, end := it.items, off + Size(it);
      var _, ai, val := GetHead(it.h);
      var hasSize := ai != 31;
      var count: int := ToInt(val);
      var m, keyCount, i := [], 0, 0;
      err := None;
      ghost var rest := items;
      var more := MoreItems(hasSize, i < count, rest);
      while more
        invariant Valid() && more == rest.Cons? && (more ==> Ahead(data, off, rest, !hasSize))
        invariant Count(rest) % 2 == 0 && i >= 0 && (hasSize ==> Count(rest) == 2 * (count - i))
        invariant off + SizeAll(rest) + (if more && !hasSize then 1 else 0) == end && SizeAll(rest) <= SizeAll(items)
        invariant InterpMap(rest, i, m, err, dm) == InterpMap(items, 0, [], None, dm)
        invariant dm.rejectDuplicates ==> keyCount == |m|
        decreases SizeAll(rest), more
      {
        PairParts(rest, !hasSize);
        var stop;
        m, keyCount, err, stop := ParsePair(rest, i, m, keyCount, err);
        rest := rest.tail.tail;
        i := i + 1;
        if stop {
          SkipPairs(hasSize, count - i, rest);
          return Map(m), err;
        }
        more := MoreItems(hasSize, i < count, rest);
      }
      NilParts();
      MapEnd(i, m, err);
      r := Map(m);
    }

    /** Two items lie ahead, a key and a value. */
    lemma PairParts(rest: Items, indefinite: bool)
      requires Valid() && rest.Cons? && Ahead(data, off, rest, indefinite) && Count(rest) % 2 == 0
      ensures rest.tail.Cons? && Holds(data, off, rest.head) && Holds(data, off + Size(rest.head), rest.tail.head)
      ensures Ahead(data, off + Size(rest.head) + Size(rest.tail.head), rest.tail.tail, indefinite)
      ensures SizeAll(rest) == Size(rest.head) + Size(rest.tail.head) + SizeAll(rest.tail.tail)
      ensures Count(rest) == 2 + Count(rest.tail.tail)
    {
      hide Spells, SpellsAll, WellFormed, WellFormedAll, Size, SizeAll, Count, HeadAt, Holds, HoldsAll, Ahead, AllChunks;
      AheadParts(data, off, rest, indefinite);
      CountNonNil(rest.tail);
      AheadParts(data, off + Size(rest.head), rest.tail, indefinite);
    }

    lemma MapEnd(i: nat, m: seq<(Value, Value)>, err: Option<Error>)
      ensures InterpMap(Nil, i, m, err, dm) == Parsed(Map(m), err)
    {
    }

    /** Reads a key and a value; `stop` is set by a duplicate key. */
    method ParsePair(ghost rest: Items, i: nat, m0: seq<(Value, Value)>, keyCount0: nat, err0: Option<Error>)
      returns (m: seq<(Value, Value)>, keyCount: nat, err: Option<Error>, stop: bool)
      requires Valid() && rest.Cons? && rest.tail.Cons?
      requires Holds(data, off, rest.head) && Holds(data, off + Size(rest.head), rest.tail.head)
      requires dm.rejectDuplicates ==> keyCount0 == |m0|
      modifies this`off
      ensures Valid() && off == old(off) + Size(rest.head) + Size(rest.tail.head)
      ensures InterpMap(rest, i, m0, err0, dm) == if stop then Parsed(Map(m), err) else InterpMap(rest.tail.tail, i + 1, m, err, dm)
      ensures dm.rejectDuplicates && !stop ==> keyCount == |m|
      decreases Size(rest.head) + Size(rest.tail.head), 5
    {
      hide Spells, SpellsAll, WellFormed, WellFormedAll, Size, SizeAll, Count, HeadAt, Holds, HoldsAll, Ahead, AllChunks, Interpret, Interp, Put;
      m, keyCount, err, stop := m0, keyCount0, err0, false;
      var k, lastErr := Parse(true, rest.head);
      if lastErr.Some? {
        if err.None? { err := lastErr; }
        Skip(rest.tail.head);
        return;
      }
      if k.Bytes? && dm.wrapKeys { k := ByteString(k.s); }
      if !Hashable(k) {
        if err.None? { err := Some(UnhashableKey); }
        Skip(rest.tail.head);
        return;
      }
      var e;
      e, lastErr := Parse(true, rest.tail.head);
      if lastErr.Some? {
        if err.None? { err := lastErr; }
        return;
      }
      m := Put(m, k, e, dm);
      if dm.rejectDuplicates {
        var newKeyCount := |m|;
        if newKeyCount == keyCount {
          m := Put(m, k, Null, dm);
          return m, keyCount, Some(DuplicateKey(k, i)), true;
        }
        keyCount := newKeyCount;
      }
    }

    /** Skips the rest of a map. */
    method SkipPairs(hasSize: bool, left: int, ghost items: Items)
      requires Valid() && Ahead(data, off, items, !hasSize) && Count(items) % 2 == 0 && (hasSize ==> Count(items) == 2 * left)
      modifies this`off
      ensures Valid() && off == old(off) + SizeAll(items) + (if hasSize then 0 else 1)
      decreases SizeAll(items), 1
    {
      hide Spells, SpellsAll, WellFormed, WellFormedAll, Size, SizeAll, Count, HeadAt, Holds, HoldsAll, Ahead, AllChunks;
      ghost var rest, end := items, off + SizeAll(items);
      var i := 0;
      var more := MoreItems(hasSize, i < left, rest);
      while more
        invariant Valid() && more == rest.Cons? && (more ==> Ahead(data, off, rest, !hasSize))
        invariant Count(rest) % 2 == 0 && (hasSize ==> Count(rest) == 2 * (left - i))
        invariant off + SizeAll(rest) == end + (if !more && !hasSize then 1 else 0)
        decreases SizeAll(rest), more
      {
        PairParts(rest, !hasSize);
        Skip(rest.head);
        Skip(rest.tail.head);
        rest := rest.tail.tail;
        i := i + 1;
        more := MoreItems(hasSize, i < left, rest);
      }
      NilParts();
    }

    method Reset(data: seq<byte>)
      requires |data| <= MAX_INT
      modifies this
      ensures Valid() && this.data == data && off == 0
    {
      this.data := data;
      this.off := 0;
    }

    /**
     * Decodes the next item into an empty interface. Data that is not valid leaves the offset
     * where it was; a valid item is consumed whole even if its value cannot be built.
     */
    method Value() returns (v: Value, fault: Option<Fault>, err: Option<Error>)
      requires Valid()
      modifies this`off
      ensures Valid()
      ensures old(off) == |data| ==> fault == Some(Eof) && off == old(off)
      ensures old(off) < |data| ==> match Scan(data, old(off), 0, dm.lim)
        case Fail(e) => fault == Some(e) && off == old(off)
        case Done(end, _) => fault == None && off == end && HasItem(data, old(off)) && Parsed(v, err) == Meaning(data, old(off), dm)
    {
      hide Spells, SpellsAll, WellFormed, WellFormedAll, Size, SizeAll, Count, HeadAt, Holds, HoldsAll, Ahead, AllChunks, Scan, Interpret, ValidBuiltinTag;
      var start := off;
      fault := CheckValid();
      off := start;
      if fault.Some? { return Null, fault, None; }
      ghost var it := AcceptedItem(data, off, 0, dm.lim);
      ghost var inner := StripSelfDescribed(it);
      err := CheckBuiltinTag(inner);
      if err.Some? {
        WrongTag(inner, err);
        return Null, None, err;
      }
      v, err := Parse(false, inner);
    }

    lemma WrongTag(it: Item, err: Option<Error>)
      requires IsTag(it) && it.items.Cons? && !ValidBuiltinTag(it.h.val, it.items.head.h.major * 32 + it.items.head.h.ai)
      requires err == Some(WrongTagContent(it.h.val))
      ensures Interpret(it, dm) == Parsed(Null, err)
    {
    }
  }
}
