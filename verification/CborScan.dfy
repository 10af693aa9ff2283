/** The decoder's validator as a function, and what it accepts. */
module CborScan {
  import opened MachineInts
  import opened CborItems

  datatype Fault =
    | Eof | UnexpectedEof | Syntax | TooLong | TooDeep | TooManyElements | TooManyPairs
    | IndefiniteForbidden(major: nat) | TagsForbidden

  datatype HeadOutcome = GoodHead(h: Head) | BadHead(fault: Fault)
  datatype Outcome = Done(off: nat, depth: nat) | Fail(fault: Fault)

  function ScanHead(data: seq<byte>, off: nat): (r: HeadOutcome)
    requires off <= |data|
    ensures r.GoodHead? ==> IsHead(r.h) && HeadAt(data, off, r.h)
  {
    if off == |data| then BadHead(UnexpectedEof) else
    var t, ai := data[off] / 32, data[off] % 32;
    if 28 <= ai <= 30 || (ai == 31 && (t < 2 || t > 5)) then BadHead(Syntax)
    else if off + HeadSize(ai) > |data| then BadHead(UnexpectedEof)
    else if t == 7 && ai == 24 && Argument(data, off, ai) < 32 then BadHead(Syntax)
    else GoodHead(Head(t, ai, Argument(data, off, ai)))
  }

  function Scan(data: seq<byte>, off: nat, depth: nat, lim: Limits): (r: Outcome)
    requires off <= |data|
    ensures r.Done? ==> off < r.off <= |data|
    decreases |data| - off, 1, 0
  {
    match ScanHead(data, off)
    case BadHead(e) => Fail(e)
    case GoodHead(h) =>
      var o := off + HeadSize(h.ai);
      match h.major {
        case 2 => ScanString(data, o, depth, h, lim)
        case 3 => ScanString(data, o, depth, h, lim)
        case 4 => ScanCollection(data, o, depth + 1, h, lim)
        case 5 => ScanCollection(data, o, depth + 1, h, lim)
        case 6 => if !lim.tags then Fail(TagsForbidden) else ScanTags(data, o, depth, lim)
        case _ => Done(o, depth)
      }
  }

  function ScanString(data: seq<byte>, off: nat, depth: nat, h: Head, lim: Limits): (r: Outcome)
    requires off <= |data|
    ensures r.Done? ==> off <= r.off <= |data|
    decreases |data| - off, 2, 0
  {
    if h.ai == 31 then
      if !lim.indefinite then Fail(IndefiniteForbidden(h.major)) else ScanChunks(data, off, depth, h.major, lim)
    else if h.val > MAX_INT then Fail(TooLong)
    else if |data| - off < h.val then Fail(UnexpectedEof)
    else Done(off + h.val, depth)
  }

  function ScanChunks(data: seq<byte>, off: nat, depth: nat, major: nat, lim: Limits): (r: Outcome)
    requires off <= |data|
    ensures r.Done? ==> off < r.off <= |data|
    decreases |data| - off, 1, 1
  {
    if off == |data| then Fail(UnexpectedEof)
    else if data[off] == BREAK then Done(off + 1, depth)
    else if data[off] / 32 != major || data[off] % 32 == 31 then Fail(Syntax)
    else match Scan(data, off, depth, lim)
      case Fail(e) => Fail(e)
      case Done(o, d) => ScanChunks(data, o, d, major, lim)
  }

  function ScanCollection(data: seq<byte>, off: nat, depth: nat, h: Head, lim: Limits): (r: Outcome)
    requires off <= |data|
    ensures r.Done? ==> off <= r.off <= |data|
    decreases |data| - off, 2, 0
  {
    if depth > lim.maxNestedLevels then Fail(TooDeep)
    else if h.ai == 31 then
      if !lim.indefinite then Fail(IndefiniteForbidden(h.major))
      else ScanUntilBreak(data, off, depth, depth, h.major, 0, lim)
    else if h.val > MAX_INT then Fail(TooLong)
    else if h.major == 4 && h.val > lim.maxArrayElements then Fail(TooManyElements)
    else if h.major == 5 && h.val > lim.maxMapPairs then Fail(TooManyPairs)
    else ScanItems(data, off, depth, depth, if h.major == 5 then 2 * h.val else h.val, lim)
  }

  /** The next `n` items, each at level `depth`; `deepest` is the greatest level seen. */
  function ScanItems(data: seq<byte>, off: nat, depth: nat, deepest: nat, n: nat, lim: Limits): (r: Outcome)
    requires off <= |data|
    ensures r.Done? ==> off <= r.off <= |data|
    decreases |data| - off, 1, 1
  {
    if n == 0 then Done(off, deepest)
    else match Scan(data, off, depth, lim)
      case Fail(e) => Fail(e)
      case Done(o, d) => ScanItems(data, o, depth, Max(deepest, d), n - 1, lim)
  }

  /** Items up to the break code; `i` of them came before. */
  function ScanUntilBreak(data: seq<byte>, off: nat, depth: nat, deepest: nat, major: nat, i: nat, lim: Limits): (r: Outcome)
    requires off <= |data|
    ensures r.Done? ==> off < r.off <= |data|
    decreases |data| - off, 1, 1
  {
    if off == |data| then Fail(UnexpectedEof)
    else if data[off] == BREAK then
      if major == 5 && i % 2 == 1 then Fail(Syntax) else Done(off + 1, deepest)
    else match Scan(data, off, depth, lim)
      case Fail(e) => Fail(e)
      case Done(o, d) =>
        if major == 4 && i + 1 > lim.maxArrayElements then Fail(TooManyElements)
        else if major == 5 && (i + 1) % 2 == 0 && (i + 1) / 2 > lim.maxMapPairs then Fail(TooManyPairs)
        else ScanUntilBreak(data, o, depth, Max(deepest, d), major, i + 1, lim)
  }

  /** What follows a tag number: more tag numbers, each one level deeper, and then the content. */
  function ScanTags(data: seq<byte>, off: nat, depth: nat, lim: Limits): (r: Outcome)
    requires off <= |data|
    ensures r.Done? ==> off < r.off <= |data|
    decreases |data| - off, 1, 1
  {
    if off == |data| then Fail(UnexpectedEof)
    else if data[off] / 32 != 6 then Scan(data, off, depth, lim)
    else match ScanHead(data, off)
      case BadHead(e) => Fail(e)
      case GoodHead(h) =>
        if depth + 1 > lim.maxNestedLevels then Fail(TooDeep)
        else ScanTags(data, off + HeadSize(h.ai), depth + 1, lim)
  }

  // Bytes that come later do not matter, nor where the data starts.

  /** From `off` on, `data` is found again in `other`, `k` places further. */
  ghost predicate FoundIn(data: seq<byte>, off: nat, other: seq<byte>, k: int) {
    off <= |data| && off + k >= 0 && |data| + k <= |other| && forall i {:trigger data[i]} :: off <= i < |data| ==> other[i + k] == data[i]
  }

  function Moved(r: Outcome, k: int): Outcome
    requires r.Done? ==> r.off + k >= 0
  {
    match r
    case Done(off, depth) => Done(off + k, depth)
    case Fail(_) => r
  }

  lemma HeadMoved(data: seq<byte>, other: seq<byte>, k: int, off: nat)
    requires FoundIn(data, off, other, k) && ScanHead(data, off) != BadHead(UnexpectedEof)
    ensures ScanHead(other, off + k) == ScanHead(data, off)
  {
    hide BigEndian;
    assert other[off + k] == data[off];
    var n := HeadSize(data[off] % 32);
    if off + n <= |data| { assert other[off + k + 1..off + k + n] == data[off + 1..off + n]; }
  }

  lemma {:induction false} ScanMoved(data: seq<byte>, other: seq<byte>, k: int, off: nat, depth: nat, lim: Limits)
    requires FoundIn(data, off, other, k) && Scan(data, off, depth, lim) != Fail(UnexpectedEof)
    ensures Scan(other, off + k, depth, lim) == Moved(Scan(data, off, depth, lim), k)
    decreases |data| - off, 1, 0
  {
    hide ScanHead;
    HeadMoved(data, other, k, off);
    var r := ScanHead(data, off);
    if r.GoodHead? {
      var h, o := r.h, off + HeadSize(r.h.ai);
      if h.major == 2 || h.major == 3 {
        if h.ai == 31 && lim.indefinite { ChunksMoved(data, other, k, o, depth, h.major, lim); }
      } else if h.major == 4 || h.major == 5 {
        CollectionMoved(data, other, k, o, depth + 1, h, lim);
      } else if h.major == 6 && lim.tags {
        TagsMoved(data, other, k, o, depth, lim);
      }
    }
  }

  lemma {:induction false} CollectionMoved(data: seq<byte>, other: seq<byte>, k: int, off: nat, depth: nat, h: Head, lim: Limits)
    requires FoundIn(data, off, other, k) && ScanCollection(data, off, depth, h, lim) != Fail(UnexpectedEof)
    ensures ScanCollection(other, off + k, depth, h, lim) == Moved(ScanCollection(data, off, depth, h, lim), k)
    decreases |data| - off, 2, 0
  {
    if depth <= lim.maxNestedLevels {
      if h.ai == 31 {
        if lim.indefinite { UntilBreakMoved(data, other, k, off, depth, depth, h.major, 0, lim); }
      } else if h.val <= MAX_INT && !(h.major == 4 && h.val > lim.maxArrayElements) && !(h.major == 5 && h.val > lim.maxMapPairs) {
        ItemsMoved(data, other, k, off, depth, depth, if h.major == 5 then 2 * h.val else h.val, lim);
      }
    }
  }

  lemma {:induction false} ChunksMoved(data: seq<byte>, other: seq<byte>, k: int, off: nat, depth: nat, major: nat, lim: Limits)
    requires FoundIn(data, off, other, k) && ScanChunks(data, off, depth, major, lim) != Fail(UnexpectedEof)
    ensures ScanChunks(other, off + k, depth, major, lim) == Moved(ScanChunks(data, off, depth, major, lim), k)
    decreases |data| - off, 1, 1
  {
    hide Scan;
    assert other[off + k] == data[off];
    if data[off] != BREAK && data[off] / 32 == major && data[off] % 32 != 31 {
      ScanMoved(data, other, k, off, depth, lim);
      var r := Scan(data, off, depth, lim);
      if r.Done? { ChunksMoved(data, other, k, r.off, r.depth, major, lim); }
    }
  }

  lemma {:induction false} ItemsMoved(data: seq<byte>, other: seq<byte>, k: int, off: nat, depth: nat, deepest: nat, n: nat, lim: Limits)
    requires FoundIn(data, off, other, k) && ScanItems(data, off, depth, deepest, n, lim) != Fail(UnexpectedEof)
    ensures ScanItems(other, off + k, depth, deepest, n, lim) == Moved(ScanItems(data, off, depth, deepest, n, lim), k)
    decreases |data| - off, 1, 1
  {
    hide Scan;
    if n > 0 {
      ScanMoved(data, other, k, off, depth, lim);
      var r := Scan(data, off, depth, lim);
      if r.Done? { ItemsMoved(data, other, k, r.off, depth, Max(deepest, r.depth), n - 1, lim); }
    }
  }

  lemma {:induction false} UntilBreakMoved(
    data: seq<byte>, other: seq<byte>, k: int, off: nat, depth: nat, deepest: nat, major: nat, i: nat, lim: Limits)
    requires FoundIn(data, off, other, k) && ScanUntilBreak(data, off, depth, deepest, major, i, lim) != Fail(UnexpectedEof)
    ensures ScanUntilBreak(other, off + k, depth, deepest, major, i, lim) == Moved(ScanUntilBreak(data, off, depth, deepest, major, i, lim), k)
    decreases |data| - off, 1, 1
  {
    hide Scan;
    assert other[off + k] == data[off];
    if data[off] != BREAK {
      ScanMoved(data, other, k, off, depth, lim);
      var r := Scan(data, off, depth, lim);
      if r.Done?
        && !(major == 4 && i + 1 > lim.maxArrayElements)
        && !(major == 5 && (i + 1) % 2 == 0 && (i + 1) / 2 > lim.maxMapPairs)
      {
        UntilBreakMoved(data, other, k, r.off, depth, Max(deepest, r.depth), major, i + 1, lim);
      }
    }
  }

  lemma {:induction false} TagsMoved(data: seq<byte>, other: seq<byte>, k: int, off: nat, depth: nat, lim: Limits)
    requires FoundIn(data, off, other, k) && ScanTags(data, off, depth, lim) != Fail(UnexpectedEof)
    ensures ScanTags(other, off + k, depth, lim) == Moved(ScanTags(data, off, depth, lim), k)
    decreases |data| - off, 1, 1
  {
    hide Scan, ScanHead;
    assert other[off + k] == data[off];
    if data[off] / 32 != 6 {
      ScanMoved(data, other, k, off, depth, lim);
    } else {
      HeadMoved(data, other, k, off);
      var r := ScanHead(data, off);
      if r.GoodHead? && depth < lim.maxNestedLevels { TagsMoved(data, other, k, off + HeadSize(r.h.ai), depth + 1, lim); }
    }
  }

  /** Appending bytes changes no outcome but an unexpected end of input. */
  lemma ScanLonger(data: seq<byte>, more: seq<byte>, off: nat, depth: nat, lim: Limits)
    requires off <= |data| && Scan(data, off, depth, lim) != Fail(UnexpectedEof)
    ensures Scan(data + more, off, depth, lim) == Scan(data, off, depth, lim)
  {
    hide Scan;
    ScanMoved(data, data + more, 0, off, depth, lim);
  }

  /** Dropping what comes before moves the outcome and changes nothing else. */
  lemma ScanSuffix(data: seq<byte>, off: nat, depth: nat, lim: Limits)
    requires off <= |data|
    ensures Scan(data, off, depth, lim) == Moved(Scan(data[off..], 0, depth, lim), off)
  {
    hide Scan;
    if Scan(data[off..], 0, depth, lim) != Fail(UnexpectedEof) {
      ScanMoved(data[off..], data, off, 0, depth, lim);
    } else if Scan(data, off, depth, lim) != Fail(UnexpectedEof) {
      var back: int := -(off as int);
      ScanMoved(data, data[off..], back, off, depth, lim);
    }
  }

  // What is accepted is an item of the grammar, and every item of the grammar within the limits is accepted.

  /** A spelled, well-formed item within the size limits. */
  ghost predicate Reads(data: seq<byte>, off: nat, it: Item, lim: Limits) {
    Spells(data, off, it) && WellFormed(it) && Fits(it, lim)
  }

  ghost predicate ReadsAll(data: seq<byte>, off: nat, items: Items, lim: Limits) {
    SpellsAll(data, off, items) && WellFormedAll(items) && FitsAll(items, lim)
  }

  lemma ReadsCons(data: seq<byte>, off: nat, it: Item, rest: Items, lim: Limits)
    requires Reads(data, off, it, lim) && ReadsAll(data, off + Size(it), rest, lim)
    ensures ReadsAll(data, off, Cons(it, rest), lim)
  {
    hide Spells, WellFormed, Fits, Size;
  }

  lemma {:induction false} ScanFindsItem(data: seq<byte>, off: nat, depth: nat, lim: Limits, r: Outcome) returns (it: Item)
    requires off <= |data| && r.Done? && r == Scan(data, off, depth, lim)
    ensures Reads(data, off, it, lim) && r.off == off + Size(it)
    decreases |data| - off, 1, 0
  {
    var h := ScanHead(data, off).h;
    if h.major == 2 || h.major == 3 {
      it := StringFindsItem(data, off, depth, h, lim, r);
    } else if h.major == 4 || h.major == 5 {
      it := CollectionFindsItem(data, off, depth, h, lim, r);
    } else if h.major == 6 {
      var content := TagsFindItem(data, off + HeadSize(h.ai), depth, lim, r);
      it := TagOf(data, off, h, content, lim);
    } else {
      it := Atom(h);
    }
  }

  lemma TagOf(data: seq<byte>, off: nat, h: Head, content: Item, lim: Limits) returns (it: Item)
    requires HeadAt(data, off, h) && IsHead(h) && h.major == 6 && lim.tags
    requires Reads(data, off + HeadSize(h.ai), content, lim)
    ensures Reads(data, off, it, lim) && Size(it) == HeadSize(h.ai) + Size(content)
  {
    SpellsEnd(data, off + HeadSize(h.ai), content);
    ReadsCons(data, off + HeadSize(h.ai), content, Nil, lim);
    it := Node(h, Cons(content, Nil));
    assert Count(Nil) == 0 && SizeAll(Nil) == 0;
  }

  lemma {:induction false} StringFindsItem(data: seq<byte>, off: nat, depth: nat, h: Head, lim: Limits, r: Outcome) returns (it: Item)
    requires HeadAt(data, off, h) && IsHead(h) && (h.major == 2 || h.major == 3)
    requires r.Done? && r == ScanString(data, off + HeadSize(h.ai), depth, h, lim)
    ensures Reads(data, off, it, lim) && r.off == off + Size(it)
    decreases |data| - off, 0, 0
  {
    hide ScanChunks, SpellsAll, WellFormedAll, FitsAll, BigEndian;
    var o := off + HeadSize(h.ai);
    if h.ai == 31 {
      var items := ChunksFindItems(data, o, depth, h.major, lim, r);
      it := Node(h, items);
    } else {
      it := Str(h, data[o..o + h.val]);
    }
  }

  lemma {:induction false} CollectionFindsItem(data: seq<byte>, off: nat, depth: nat, h: Head, lim: Limits, r: Outcome) returns (it: Item)
    requires HeadAt(data, off, h) && IsHead(h) && (h.major == 4 || h.major == 5)
    requires r.Done? && r == ScanCollection(data, off + HeadSize(h.ai), depth + 1, h, lim)
    ensures Reads(data, off, it, lim) && r.off == off + Size(it)
    decreases |data| - off, 0, 0
  {
    hide ScanItems, ScanUntilBreak, SpellsAll, WellFormedAll, FitsAll, BigEndian;
    var o := off + HeadSize(h.ai);
    var items;
    if h.ai == 31 {
      items := UntilBreakFindsItems(data, o, depth + 1, depth + 1, h.major, 0, lim, r);
    } else {
      items := ItemsFindItems(data, o, depth + 1, depth + 1, if h.major == 5 then 2 * h.val else h.val, lim, r);
    }
    it := Node(h, items);
  }

  lemma {:induction false} ChunksFindItems(data: seq<byte>, off: nat, depth: nat, major: nat, lim: Limits, r: Outcome) returns (items: Items)
    requires off <= |data| && (major == 2 || major == 3)
    requires r.Done? && r == ScanChunks(data, off, depth, major, lim)
    ensures ReadsAll(data, off, items, lim) && AllChunks(items, major)
    ensures off + SizeAll(items) < |data| && data[off + SizeAll(items)] == BREAK
    ensures r.off == off + SizeAll(items) + 1
    decreases |data| - off, 1, 1
  {
    hide Fits, Size, BigEndian;
    if data[off] == BREAK {
      items := Nil;
    } else {
      var first := Scan(data, off, depth, lim);
      var it := ScanFindsItem(data, off, depth, lim, first);
      assert it.Str? && it.h.major == major;
      var rest := ChunksFindItems(data, first.off, first.depth, major, lim, r);
      items := Cons(it, rest);
      ReadsCons(data, off, it, rest, lim);
    }
  }

  lemma {:induction false} ItemsFindItems(data: seq<byte>, off: nat, depth: nat, deepest: nat, n: nat, lim: Limits, r: Outcome)
    returns (items: Items)
    requires off <= |data| && r.Done? && r == ScanItems(data, off, depth, deepest, n, lim)
    ensures ReadsAll(data, off, items, lim) && Count(items) == n && r.off == off + SizeAll(items)
    decreases |data| - off, 1, 1
  {
    hide Spells, WellFormed, Fits, Nest, Size, Scan;
    if n == 0 {
      items := Nil;
    } else {
      var first := Scan(data, off, depth, lim);
      var it := ScanFindsItem(data, off, depth, lim, first);
      var rest := ItemsFindItems(data, first.off, depth, Max(deepest, first.depth), n - 1, lim, r);
      items := Cons(it, rest);
      ReadsCons(data, off, it, rest, lim);
    }
  }

  lemma {:induction false} UntilBreakFindsItems(data: seq<byte>, off: nat, depth: nat, deepest: nat, major: nat, i: nat, lim: Limits, r: Outcome)
    returns (items: Items)
    requires off <= |data| && (major == 4 || major == 5)
    requires r.Done? && r == ScanUntilBreak(data, off, depth, deepest, major, i, lim)
    requires i <= if major == 4 then lim.maxArrayElements else 2 * lim.maxMapPairs + 1
    ensures ReadsAll(data, off, items, lim)
    ensures off + SizeAll(items) < |data| && data[off + SizeAll(items)] == BREAK
    ensures major == 4 ==> i + Count(items) <= lim.maxArrayElements
    ensures major == 5 ==> i + Count(items) <= 2 * lim.maxMapPairs && (i + Count(items)) % 2 == 0
    ensures r.off == off + SizeAll(items) + 1
    decreases |data| - off, 1, 1
  {
    hide Spells, WellFormed, Fits, Nest, Size, Scan;
    if data[off] == BREAK {
      items := Nil;
    } else {
      var first := Scan(data, off, depth, lim);
      var it := ScanFindsItem(data, off, depth, lim, first);
      var rest := UntilBreakFindsItems(data, first.off, depth, Max(deepest, first.depth), major, i + 1, lim, r);
      items := Cons(it, rest);
      ReadsCons(data, off, it, rest, lim);
    }
  }

  lemma {:induction false} TagsFindItem(data: seq<byte>, off: nat, depth: nat, lim: Limits, r: Outcome) returns (it: Item)
    requires off <= |data| && lim.tags
    requires r.Done? && r == ScanTags(data, off, depth, lim)
    ensures Reads(data, off, it, lim) && r.off == off + Size(it)
    decreases |data| - off, 1, 1
  {
    if data[off] / 32 != 6 {
      it := ScanFindsItem(data, off, depth, lim, r);
    } else {
      var h := ScanHead(data, off).h;
      var content := TagsFindItem(data, off + HeadSize(h.ai), depth + 1, lim, r);
      it := TagOf(data, off, h, content, lim);
    }
  }

  /** The one thing that can go wrong with an item of the grammar within the size limits. */
  function Within(off: nat, depth: nat, lim: Limits): Outcome {
    if depth <= lim.maxNestedLevels then Done(off, depth) else Fail(TooDeep)
  }

  /** 1 when the content of a tag is a tag itself. */
  function Extra(it: Item): nat {
    if IsTag(it) then 1 else 0
  }

  /** The greatest of `deepest` and the levels reached by the items. */
  function Deepest(deepest: nat, depth: nat, items: Items): (n: nat)
    ensures n >= deepest
    decreases items
  {
    match items
    case Nil => deepest
    case Cons(it, rest) => Deepest(Max(deepest, depth + Nest(it)), depth, rest)
  }

  lemma {:induction false} DeepestIsNest(deepest: nat, depth: nat, items: Items)
    requires depth <= deepest
    ensures Deepest(deepest, depth, items) == Max(deepest, depth + NestAll(items))
    decreases items
  {
    if items.Cons? { DeepestIsNest(Max(deepest, depth + Nest(items.head)), depth, items.tail); }
  }

  lemma HeadOfItem(data: seq<byte>, off: nat, it: Item)
    requires Spells(data, off, it) && WellFormed(it)
    ensures off < |data| && ScanHead(data, off) == GoodHead(it.h) && off + HeadSize(it.h.ai) <= |data|
  {
  }

  /** An array or map body of the grammar within the limits. */
  ghost predicate IsBody(data: seq<byte>, off: nat, h: Head, items: Items, lim: Limits) {
    && ReadsAll(data, off, items, lim) && off + SizeAll(items) <= |data|
    && (if h.ai == 31 then lim.indefinite && off + SizeAll(items) < |data| && data[off + SizeAll(items)] == BREAK else h.val <= MAX_INT)
    && (h.major == 4 ==> Count(items) <= lim.maxArrayElements && (h.ai != 31 ==> Count(items) == h.val))
    && (h.major == 5 ==> Count(items) <= 2 * lim.maxMapPairs && Count(items) % 2 == 0 && (h.ai != 31 ==> Count(items) == 2 * h.val))
    && (h.major == 2 || h.major == 3 ==> h.ai == 31 && AllChunks(items, h.major))
  }

  lemma BodyParts(data: seq<byte>, off: nat, h: Head, items: Items, lim: Limits)
    requires Reads(data, off, Node(h, items), lim) && h.major != 6
    ensures 2 <= h.major <= 5 && ScanHead(data, off) == GoodHead(h) && IsBody(data, off + HeadSize(h.ai), h, items, lim)
  {
    hide SpellsAll, WellFormedAll, FitsAll, AllChunks, HeadAt, ScanHead, SizeAll, Count;
    HeadOfItem(data, off, Node(h, items));
    SpellsAllEnd(data, off + HeadSize(h.ai), items);
  }

  lemma TagParts(data: seq<byte>, off: nat, h: Head, items: Items, lim: Limits)
    requires Reads(data, off, Node(h, items), lim) && h.major == 6
    ensures ScanHead(data, off) == GoodHead(h) && lim.tags && h.ai != 31 && off + HeadSize(h.ai) <= |data|
    ensures items.Cons? && items.tail == Nil && Reads(data, off + HeadSize(h.ai), items.head, lim) && SizeAll(items) == Size(items.head)
  {
    hide SpellsAll, WellFormedAll, FitsAll, AllChunks, HeadAt, ScanHead, Size;
    HeadOfItem(data, off, Node(h, items));
    assert items.Cons?;
    assert Count(items.tail) == 0;
    HeadOfAll(data, off + HeadSize(h.ai), items, lim);
    assert SizeAll(Nil) == 0;
  }

  lemma HeadOfAll(data: seq<byte>, off: nat, items: Items, lim: Limits)
    requires ReadsAll(data, off, items, lim) && items.Cons?
    ensures Reads(data, off, items.head, lim)
  {
  }

  lemma ScanOfLeaf(data: seq<byte>, off: nat, depth: nat, lim: Limits, it: Item)
    requires Reads(data, off, it, lim) && depth <= lim.maxNestedLevels && off <= |data| && !it.Node?
    ensures Scan(data, off, depth, lim) == Within(off + Size(it), depth + Nest(it), lim)
  {
    HeadOfItem(data, off, it);
  }

  lemma ChunkHead(data: seq<byte>, off: nat, it: Item, major: nat)
    requires Spells(data, off, it) && WellFormed(it) && it.Str? && it.h.major == major
    ensures off < |data| && data[off] != BREAK && data[off] / 32 == major && data[off] % 32 != 31 && Nest(it) == 0
  {
  }

  lemma {:induction false} ScanOfItem(data: seq<byte>, off: nat, depth: nat, lim: Limits, it: Item)
    requires Reads(data, off, it, lim) && depth <= lim.maxNestedLevels && off <= |data|
    ensures Scan(data, off, depth, lim) == Within(off + Size(it), depth + Nest(it), lim)
    decreases it, 0
  {
    hide SpellsAll, WellFormedAll, FitsAll, NestAll, AllChunks, BigEndian, SizeAll, ScanHead, HeadAt, Spells, WellFormed, Fits, ScanCollection, ScanTags, ScanChunks;
    match it
    case Atom(_) => ScanOfLeaf(data, off, depth, lim, it);
    case Str(_, _) => ScanOfLeaf(data, off, depth, lim, it);
    case Node(h, items) =>
      assert Size(it) == HeadSize(h.ai) + SizeAll(items) + (if h.ai == 31 then 1 else 0);
      var o := off + HeadSize(h.ai);
      if h.major == 6 {
        TagParts(data, off, h, items, lim);
        ScanOfTags(data, o, depth, lim, items.head);
        return;
      }
      BodyParts(data, off, h, items, lim);
      if h.major == 4 || h.major == 5 {
        ScanOfCollection(data, o, depth + 1, h, lim, items);
      } else {
        ScanOfChunks(data, o, depth, h.major, lim, items);
      }
  }

  lemma {:induction false} ScanOfCollection(data: seq<byte>, off: nat, depth: nat, h: Head, lim: Limits, items: Items)
    requires IsBody(data, off, h, items, lim) && (h.major == 4 || h.major == 5)
    ensures ScanCollection(data, off, depth, h, lim) == Within(off + SizeAll(items) + (if h.ai == 31 then 1 else 0), depth + NestAll(items), lim)
    decreases items, 1
  {
    if depth <= lim.maxNestedLevels {
      DeepestIsNest(depth, depth, items);
      if h.ai == 31 {
        ScanOfUntilBreak(data, off, depth, depth, h.major, 0, lim, items);
      } else {
        ScanOfItems(data, off, depth, depth, lim, items);
      }
    }
  }

  lemma {:induction false} ScanOfChunks(data: seq<byte>, off: nat, depth: nat, major: nat, lim: Limits, items: Items)
    requires ReadsAll(data, off, items, lim) && AllChunks(items, major) && depth <= lim.maxNestedLevels
    requires off + SizeAll(items) < |data| && data[off + SizeAll(items)] == BREAK
    ensures ScanChunks(data, off, depth, major, lim) == Done(off + SizeAll(items) + 1, depth)
    decreases items, 0
  {
    hide Spells, WellFormed, Fits, Size, Scan;
    if items.Cons? {
      ChunkHead(data, off, items.head, major);
      ScanOfItem(data, off, depth, lim, items.head);
      ScanOfChunks(data, off + Size(items.head), depth, major, lim, items.tail);
    }
  }

  lemma {:induction false} ScanOfItems(data: seq<byte>, off: nat, depth: nat, deepest: nat, lim: Limits, items: Items)
    requires ReadsAll(data, off, items, lim) && depth <= deepest <= lim.maxNestedLevels && off <= |data|
    ensures ScanItems(data, off, depth, deepest, Count(items), lim) == Within(off + SizeAll(items), Deepest(deepest, depth, items), lim)
    decreases items, 0
  {
    hide Spells, WellFormed, Fits, Nest, Size, Scan;
    if items.Cons? {
      ScanOfItem(data, off, depth, lim, items.head);
      if depth + Nest(items.head) <= lim.maxNestedLevels {
        ScanOfItems(data, off + Size(items.head), depth, Max(deepest, depth + Nest(items.head)), lim, items.tail);
      }
    }
  }

  lemma {:induction false} ScanOfUntilBreak(data: seq<byte>, off: nat, depth: nat, deepest: nat, major: nat, i: nat, lim: Limits, items: Items)
    requires ReadsAll(data, off, items, lim) && depth <= deepest <= lim.maxNestedLevels && (major == 4 || major == 5)
    requires off + SizeAll(items) < |data| && data[off + SizeAll(items)] == BREAK
    requires major == 4 ==> i + Count(items) <= lim.maxArrayElements
    requires major == 5 ==> i + Count(items) <= 2 * lim.maxMapPairs && (i + Count(items)) % 2 == 0
    ensures ScanUntilBreak(data, off, depth, deepest, major, i, lim) == Within(off + SizeAll(items) + 1, Deepest(deepest, depth, items), lim)
    decreases items, 0
  {
    hide Spells, WellFormed, Fits, Nest, Size, Scan;
    if items.Cons? {
      NotBreak(data, off, items.head);
      ScanOfItem(data, off, depth, lim, items.head);
      if depth + Nest(items.head) <= lim.maxNestedLevels {
        ScanOfUntilBreak(data, off + Size(items.head), depth, Max(deepest, depth + Nest(items.head)), major, i + 1, lim, items.tail);
      }
    }
  }

  lemma {:induction false} ScanOfTags(data: seq<byte>, off: nat, depth: nat, lim: Limits, it: Item)
    requires Reads(data, off, it, lim) && lim.tags && depth <= lim.maxNestedLevels && off <= |data|
    ensures ScanTags(data, off, depth, lim) == Within(off + Size(it), depth + Nest(it) + Extra(it), lim)
    decreases it, 1
  {
    hide Scan, WellFormed, Fits, Spells, NestAll, SizeAll;
    SpellsEnd(data, off, it);
    NotBreak(data, off, it);
    if IsTag(it) {
      TagParts(data, off, it.h, it.items, lim);
      var content := it.items.head;
      if depth + 1 <= lim.maxNestedLevels {
        SpellsEnd(data, off + HeadSize(it.h.ai), content);
        ScanOfTags(data, off + HeadSize(it.h.ai), depth + 1, lim, content);
      }
    } else {
      ScanOfItem(data, off, depth, lim, it);
    }
  }

  /**
   * The validator accepts exactly the well-formed items within the limits, stops at the item's end
   * and reports the nesting level reached, which never exceeds the maximum.
   */
  lemma AcceptsExactlyItems(data: seq<byte>, off: nat, depth: nat, lim: Limits)
    requires off <= |data| && depth <= lim.maxNestedLevels
    ensures Scan(data, off, depth, lim).Done? <==>
      exists it :: Reads(data, off, it, lim) && depth + Nest(it) <= lim.maxNestedLevels
    ensures forall it :: Reads(data, off, it, lim) ==>
      Scan(data, off, depth, lim) == Within(off + Size(it), depth + Nest(it), lim)
  {
    hide Scan, Spells, WellFormed, Fits, Nest, Size;
    forall it | Reads(data, off, it, lim) ensures Scan(data, off, depth, lim) == Within(off + Size(it), depth + Nest(it), lim) {
      ScanOfItem(data, off, depth, lim, it);
    }
    var r := Scan(data, off, depth, lim);
    if r.Done? { var it := ScanFindsItem(data, off, depth, lim, r); }
  }

  /** A proper prefix of an accepted item is always reported as an unexpected end of input. */
  lemma TruncatedItem(data: seq<byte>, off: nat, n: nat, depth: nat, lim: Limits)
    requires off <= n <= |data| && Scan(data, off, depth, lim).Done? && n < Scan(data, off, depth, lim).off
    ensures Scan(data[..n], off, depth, lim) == Fail(UnexpectedEof)
  {
    assert data == data[..n] + data[n..];
    if Scan(data[..n], off, depth, lim) != Fail(UnexpectedEof) { ScanLonger(data[..n], data[n..], off, depth, lim); }
  }

  /** The bytes are one item and nothing else. */
  predicate IsOneItem(s: seq<byte>, lim: Limits) {
    Scan(s, 0, 0, lim).Done? && Scan(s, 0, 0, lim).off == |s|
  }

  /** No accepted item is a proper prefix of another. */
  lemma PrefixFree(p: seq<byte>, q: seq<byte>, lim: Limits)
    requires p < q && IsOneItem(p, lim)
    ensures !IsOneItem(q, lim)
  {
    assert q == p + q[|p|..];
    ScanLonger(p, q[|p|..], 0, 0, lim);
  }
}
