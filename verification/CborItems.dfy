/** Concrete syntax of CBOR (section 3 of RFC 8949): which bytes spell which tree. */
module CborItems {
  import opened MachineInts

  /** Major type, additional information and argument. */
  datatype Head = Head(major: nat, ai: nat, val: nat)

  /**
   * A data item together with how it was spelled: the width of every head, and definite or
   * indefinite length (additional information 31). A `Node` is an array, a map (keys and values in
   * turn), a tag (one content item) or a string cut into chunks.
   */
  datatype Item = Atom(h: Head) | Str(h: Head, body: seq<byte>) | Node(h: Head, items: Items)
  datatype Items = Nil | Cons(head: Item, tail: Items)

  const BREAK: byte := 0xff

  function BigEndian(s: seq<byte>): nat {
    if s == [] then 0 else 0x100 * BigEndian(s[..|s| - 1]) + s[|s| - 1]
  }

  function HeadSize(ai: nat): (n: nat)
    ensures 1 <= n <= 9
  {
    if ai == 24 then 2 else if ai == 25 then 3 else if ai == 26 then 5 else if ai == 27 then 9 else 1
  }

  /** The argument: the additional information itself, or the big-endian number after it. */
  function Argument(data: seq<byte>, off: nat, ai: nat): nat
    requires off + HeadSize(ai) <= |data|
  {
    if HeadSize(ai) == 1 then ai else BigEndian(data[off + 1..off + HeadSize(ai)])
  }

  predicate HeadAt(data: seq<byte>, off: nat, h: Head) {
    off + HeadSize(h.ai) <= |data| && data[off] == h.major * 32 + h.ai && h.val == Argument(data, off, h.ai)
  }

  /** Heads of the grammar: no reserved widths, indefinite length for strings, arrays and maps only. */
  predicate IsHead(h: Head) {
    && h.major <= 7
    && (h.ai <= 27 || (h.ai == 31 && 2 <= h.major <= 5))
    && (h.major == 7 && h.ai == 24 ==> h.val >= 32)
  }

  function Size(it: Item): (n: nat)
    ensures n >= 1
  {
    match it
    case Atom(h) => HeadSize(h.ai)
    case Str(h, body) => HeadSize(h.ai) + |body|
    case Node(h, items) => HeadSize(h.ai) + SizeAll(items) + if h.ai == 31 then 1 else 0
  }

  function SizeAll(items: Items): nat {
    match items
    case Nil => 0
    case Cons(it, rest) => Size(it) + SizeAll(rest)
  }

  function Count(items: Items): nat {
    match items
    case Nil => 0
    case Cons(_, rest) => 1 + Count(rest)
  }

  /** The bytes of `data` from `off` on begin with this spelling. */
  predicate Spells(data: seq<byte>, off: nat, it: Item)
    decreases it
  {
    HeadAt(data, off, it.h) &&
    match it
    case Atom(h) => true
    case Str(h, body) =>
      var o := off + HeadSize(h.ai);
      o + |body| <= |data| && data[o..o + |body|] == body
    case Node(h, items) =>
      var o := off + HeadSize(h.ai);
      SpellsAll(data, o, items) &&
      (h.ai == 31 ==> o + SizeAll(items) < |data| && data[o + SizeAll(items)] == BREAK)
  }

  predicate SpellsAll(data: seq<byte>, off: nat, items: Items)
    decreases items
  {
    match items
    case Nil => off <= |data|
    case Cons(it, rest) => Spells(data, off, it) && SpellsAll(data, off + Size(it), rest)
  }

  /** Well-formedness of the tree. */
  predicate WellFormed(it: Item) {
    IsHead(it.h) &&
    match it
    case Atom(h) => h.major in {0, 1, 7}
    case Str(h, body) => h.major in {2, 3} && h.ai != 31 && |body| == h.val
    case Node(h, items) =>
      WellFormedAll(items) &&
      match h.major
      case 2 => h.ai == 31 && AllChunks(items, 2)
      case 3 => h.ai == 31 && AllChunks(items, 3)
      case 4 => h.ai == 31 || Count(items) == h.val
      case 5 => if h.ai == 31 then Count(items) % 2 == 0 else Count(items) == 2 * h.val
      case 6 => Count(items) == 1
      case _ => false
  }

  predicate WellFormedAll(items: Items) {
    match items
    case Nil => true
    case Cons(it, rest) => WellFormed(it) && WellFormedAll(rest)
  }

  predicate AllChunks(items: Items, major: nat) {
    match items
    case Nil => true
    case Cons(it, rest) => it.Str? && it.h.major == major && AllChunks(rest, major)
  }

  predicate IsTag(it: Item) {
    it.Node? && it.h.major == 6
  }

  function Max(a: int, b: int): int {
    if a < b then b else a
  }

  /**
   * Nesting as the decoder counts it: one level per array or map; in a run of tags directly inside
   * one another every tag but the first.
   */
  function Nest(it: Item): (n: nat) {
    match it
    case Atom(_) => 0
    case Str(_, _) => 0
    case Node(h, items) =>
      if h.major == 4 || h.major == 5 then 1 + NestAll(items)
      else if h.major == 6 && items.Cons? then Nest(items.head) + (if IsTag(items.head) then 1 else 0)
      else 0
  }

  function NestAll(items: Items): nat {
    match items
    case Nil => 0
    case Cons(it, rest) => Max(Nest(it), NestAll(rest))
  }

  /** What a decoding mode allows. */
  datatype Limits = Limits(maxNestedLevels: nat, maxArrayElements: nat, maxMapPairs: nat, indefinite: bool, tags: bool)

  const MAX_INT := 0x7fff_ffff_ffff_ffff

  predicate Fits(it: Item, lim: Limits) {
    match it
    case Atom(_) => true
    case Str(h, _) => h.val <= MAX_INT
    case Node(h, items) =>
      && FitsAll(items, lim)
      && (if h.ai == 31 then lim.indefinite else h.major == 6 || h.val <= MAX_INT)
      && (h.major == 4 ==> Count(items) <= lim.maxArrayElements)
      && (h.major == 5 ==> Count(items) <= 2 * lim.maxMapPairs)
      && (h.major == 6 ==> lim.tags)
  }

  predicate FitsAll(items: Items, lim: Limits) {
    match items
    case Nil => true
    case Cons(it, rest) => Fits(it, lim) && FitsAll(rest, lim)
  }

  lemma {:induction false} SpellsEnd(data: seq<byte>, off: nat, it: Item)
    requires Spells(data, off, it)
    ensures off + Size(it) <= |data|
    decreases it
  {
    if it.Node? { SpellsAllEnd(data, off + HeadSize(it.h.ai), it.items); }
  }

  lemma {:induction false} SpellsAllEnd(data: seq<byte>, off: nat, items: Items)
    requires SpellsAll(data, off, items)
    ensures off + SizeAll(items) <= |data|
    decreases items
  {
    if items.Cons? {
      SpellsEnd(data, off, items.head);
      SpellsAllEnd(data, off + Size(items.head), items.tail);
    }
  }

  /** No item starts with the break code. */
  lemma NotBreak(data: seq<byte>, off: nat, it: Item)
    requires Spells(data, off, it) && WellFormed(it)
    ensures off < |data| && data[off] != BREAK && data[off] / 32 == it.h.major && data[off] % 32 == it.h.ai
    ensures it.h.major == 6 <==> IsTag(it)
  {
  }

  /** A well-formed item spelled at `off`. */
  ghost predicate Holds(data: seq<byte>, off: nat, it: Item) {
    Spells(data, off, it) && WellFormed(it) && off + Size(it) <= |data|
  }

  ghost predicate HoldsAll(data: seq<byte>, off: nat, items: Items) {
    SpellsAll(data, off, items) && WellFormedAll(items) && off + SizeAll(items) <= |data|
  }

  lemma HeadOf(data: seq<byte>, off: nat, it: Item)
    requires Holds(data, off, it)
    ensures HeadAt(data, off, it.h) && IsHead(it.h) && HeadSize(it.h.ai) <= Size(it)
    ensures it.Str? <==> (2 <= it.h.major <= 3 && it.h.ai != 31)
    ensures it.Node? <==> (4 <= it.h.major <= 6 || (2 <= it.h.major <= 3 && it.h.ai == 31))
    ensures !it.Node? && !it.Str? ==> Size(it) == HeadSize(it.h.ai)
  {
  }

  lemma StringParts(data: seq<byte>, off: nat, it: Item)
    requires Holds(data, off, it) && it.Str?
    ensures |it.body| == it.h.val && Size(it) == HeadSize(it.h.ai) + it.h.val && off + Size(it) <= |data|
    ensures data[off + HeadSize(it.h.ai)..off + Size(it)] == it.body
  {
  }

  lemma NodeParts(data: seq<byte>, off: nat, it: Item)
    requires Holds(data, off, it) && it.Node?
    ensures HoldsAll(data, off + HeadSize(it.h.ai), it.items)
    ensures Size(it) == HeadSize(it.h.ai) + SizeAll(it.items) + if it.h.ai == 31 then 1 else 0
    ensures off + Size(it) <= |data|
    ensures it.h.ai == 31 ==> it.h.major != 6 && data[off + HeadSize(it.h.ai) + SizeAll(it.items)] == BREAK
    ensures it.h.major < 4 ==> it.h.ai == 31 && AllChunks(it.items, it.h.major)
    ensures it.h.major == 4 && it.h.ai != 31 ==> Count(it.items) == it.h.val
    ensures it.h.major == 5 ==> if it.h.ai == 31 then Count(it.items) % 2 == 0 else Count(it.items) == 2 * it.h.val
    ensures it.h.major == 6 ==> it.items.Cons? && it.items.tail == Nil && SizeAll(it.items) == Size(it.items.head)
  {
    hide SpellsAll, WellFormedAll, AllChunks, HeadAt;
    var items := it.items;
    if it.h.major == 6 {
      assert items.Cons?;
      assert Count(items.tail) == 0;
      assert SizeAll(Nil) == 0;
    }
  }

  lemma ConsParts(data: seq<byte>, off: nat, items: Items)
    requires HoldsAll(data, off, items) && items.Cons?
    ensures Holds(data, off, items.head) && HoldsAll(data, off + Size(items.head), items.tail)
    ensures SizeAll(items) == Size(items.head) + SizeAll(items.tail) && Count(items) == 1 + Count(items.tail)
    ensures off + SizeAll(items) <= |data| && data[off] != BREAK && data[off] / 32 == items.head.h.major && data[off] % 32 == items.head.h.ai
  {
    hide Spells, WellFormed, Size;
    NotBreak(data, off, items.head);
  }

  /** Items lie ahead, and the break code after them if the length is indefinite. */
  ghost predicate Ahead(data: seq<byte>, off: nat, items: Items, indefinite: bool) {
    HoldsAll(data, off, items) && (indefinite ==> off + SizeAll(items) < |data| && data[off + SizeAll(items)] == BREAK)
  }

  lemma AheadParts(data: seq<byte>, off: nat, items: Items, indefinite: bool)
    requires Ahead(data, off, items, indefinite)
    ensures items.Cons? ==>
      && Holds(data, off, items.head) && Ahead(data, off + Size(items.head), items.tail, indefinite)
      && SizeAll(items) == Size(items.head) + SizeAll(items.tail) && Count(items) == 1 + Count(items.tail)
    ensures items.Nil? ==> SizeAll(items) == 0 && Count(items) == 0
    ensures off + SizeAll(items) + (if indefinite then 1 else 0) <= |data|
    ensures indefinite ==> off < |data| && (data[off] == BREAK <==> items.Nil?)
  {
    hide Spells, WellFormed, Size;
    if items.Cons? { ConsParts(data, off, items); }
  }

  lemma ChunkParts(items: Items, major: nat)
    requires AllChunks(items, major) && items.Cons?
    ensures items.head.Str? && items.head.h.major == major && AllChunks(items.tail, major)
  {
  }

  lemma {:induction false} CountBound(items: Items)
    ensures Count(items) <= SizeAll(items)
  {
    hide Size;
    if items.Cons? { CountBound(items.tail); }
  }
}
