/**
 * Nesting as documented, one level for every array, map and tag, against nesting as the validator
 * counts it.
 */
module CborNesting {
  import opened MachineInts
  import opened CborItems
  import opened CborScan
  import opened CborBytes

  /** The levels of arrays, maps and tags, in any combination. */
  function Levels(it: Item): (n: nat) {
    match it
    case Atom(_) => 0
    case Str(_, _) => 0
    case Node(h, items) =>
      if h.major == 4 || h.major == 5 then 1 + LevelsAll(items)
      else if h.major == 6 then 1 + (if items.Cons? then Levels(items.head) else 0)
      else 0
  }

  function LevelsAll(items: Items): nat {
    match items
    case Nil => 0
    case Cons(it, rest) => Max(Levels(it), LevelsAll(rest))
  }

  /** One of the deepest paths through the tree meets no tag. */
  predicate DeepestUntagged(it: Item) {
    match it
    case Atom(_) => true
    case Str(_, _) => true
    case Node(h, items) =>
      if h.major == 4 || h.major == 5 then SomeUntagged(items, LevelsAll(items)) else h.major != 6
  }

  /** One of the items has `n` levels and a deepest path without a tag, or there are no levels at all. */
  predicate SomeUntagged(items: Items, n: nat) {
    match items
    case Nil => n == 0
    case Cons(it, rest) => (Levels(it) == n && DeepestUntagged(it)) || SomeUntagged(rest, n)
  }

  /** The validator counts no more levels than there are, and at least half of them. */
  lemma {:induction false} NestAndLevels(it: Item)
    ensures Nest(it) <= Levels(it) <= 2 * Nest(it) + if IsTag(it) then 1 else 0
  {
    if it.Node? && (it.h.major == 4 || it.h.major == 5) { NestAndLevelsAll(it.items); }
    if IsTag(it) && it.items.Cons? { NestAndLevels(it.items.head); }
  }

  lemma {:induction false} NestAndLevelsAll(items: Items)
    ensures NestAll(items) <= LevelsAll(items) <= 2 * NestAll(items) + 1
  {
    if items.Cons? {
      NestAndLevels(items.head);
      NestAndLevelsAll(items.tail);
    }
  }

  /** The validator counts the levels exactly if one of the deepest paths meets no tag. */
  lemma {:induction false} NestIsLevels(it: Item)
    ensures Nest(it) == Levels(it) <==> DeepestUntagged(it)
  {
    if it.Node? && (it.h.major == 4 || it.h.major == 5) {
      NestIsLevelsAll(it.items, LevelsAll(it.items));
      NestAndLevelsAll(it.items);
    }
    if IsTag(it) && it.items.Cons? {
      NestAndLevels(it.items.head);
      NestIsLevels(it.items.head);
    }
  }

  lemma {:induction false} NestIsLevelsAll(items: Items, n: nat)
    requires n >= LevelsAll(items)
    ensures NestAll(items) >= n <==> SomeUntagged(items, n)
  {
    if items.Cons? {
      NestAndLevels(items.head);
      NestIsLevels(items.head);
      NestIsLevelsAll(items.tail, n);
    }
  }

  // Acceptance.

  /** The tree is accepted exactly as documented: if its levels are within the limit. */
  ghost predicate LimitedAsDocumented(data: seq<byte>, off: nat, it: Item, lim: Limits)
    requires off <= |data|
  {
    Scan(data, off, 0, lim).Done? <==> Levels(it) <= lim.maxNestedLevels
  }

  /**
   * Whatever the limit, levels within it are accepted, and what is accepted has at most twice the
   * limit and one more; the limit works as documented, whatever it is, exactly for the trees with a
   * deepest path that meets no tag.
   */
  lemma NestingLimit(data: seq<byte>, off: nat, it: Item, lim: Limits)
    requires off <= |data| && Reads(data, off, it, lim)
    ensures Levels(it) <= lim.maxNestedLevels ==> Scan(data, off, 0, lim).Done?
    ensures Scan(data, off, 0, lim).Done? ==> Levels(it) <= 2 * lim.maxNestedLevels + 1
    ensures (forall n: nat :: LimitedAsDocumented(data, off, it, lim.(maxNestedLevels := n))) <==> DeepestUntagged(it)
  {
    hide Scan, Spells, WellFormed, Fits, Nest, Levels, DeepestUntagged;
    NestAndLevels(it);
    NestIsLevels(it);
    forall n: nat ensures Scan(data, off, 0, lim.(maxNestedLevels := n)).Done? <==> Nest(it) <= n {
      AcceptedNest(data, off, it, lim, n);
    }
    assert lim.(maxNestedLevels := lim.maxNestedLevels) == lim;
    var least := lim.(maxNestedLevels := Nest(it));
    assert LimitedAsDocumented(data, off, it, least) ==> Levels(it) <= Nest(it);
  }

  lemma AcceptedNest(data: seq<byte>, off: nat, it: Item, lim: Limits, n: nat)
    requires off <= |data| && Reads(data, off, it, lim)
    ensures Scan(data, off, 0, lim.(maxNestedLevels := n)).Done? <==> Nest(it) <= n
  {
    hide Scan, Spells, WellFormed, Fits, Nest, Size;
    FitsDespite(it, lim, n);
    ScanOfItem(data, off, 0, lim.(maxNestedLevels := n), it);
  }

  /** The size limits do not look at the nesting limit. */
  lemma {:induction false} FitsDespite(it: Item, lim: Limits, n: nat)
    ensures Fits(it, lim) == Fits(it, lim.(maxNestedLevels := n))
  {
    if it.Node? { FitsAllDespite(it.items, lim, n); }
  }

  lemma {:induction false} FitsAllDespite(items: Items, lim: Limits, n: nat)
    ensures FitsAll(items, lim) == FitsAll(items, lim.(maxNestedLevels := n))
  {
    if items.Cons? {
      FitsDespite(items.head, lim, n);
      FitsAllDespite(items.tail, lim, n);
    }
  }

  // Inputs deeper than documented.

  function TagOn(it: Item): Item {
    Node(Head(6, 6, 6), Cons(it, Nil))
  }

  function ArrayOf(it: Item): Item {
    Node(Head(4, 1, 1), Cons(it, Nil))
  }

  /** A tag around an array around a tag around an array ... around a tag: `2 * n + 1` levels. */
  function Tower(n: nat): Item {
    if n == 0 then TagOn(Atom(Head(0, 0, 0))) else TagOn(ArrayOf(Tower(n - 1)))
  }

  predicate Usable(it: Item, lim: Limits) {
    WellFormed(it) && AllWritable(it) && Fits(it, lim)
  }

  lemma TagOnShape(it: Item, lim: Limits)
    requires Usable(it, lim) && lim.tags
    ensures Usable(TagOn(it), lim) && IsTag(TagOn(it)) && Levels(TagOn(it)) == Levels(it) + 1
    ensures Nest(TagOn(it)) == Nest(it) + if IsTag(it) then 1 else 0
  {
    hide WellFormedAll, AllItemsWritable, FitsAll, Count;
    OneItem(it, lim);
  }

  lemma OneItem(it: Item, lim: Limits)
    requires Usable(it, lim)
    ensures var items := Cons(it, Nil);
      WellFormedAll(items) && AllItemsWritable(items) && FitsAll(items, lim) && Count(items) == 1
      && LevelsAll(items) == Levels(it) && NestAll(items) == Nest(it)
  {
    hide WellFormed, AllWritable, Fits, Nest, Levels;
    assert WellFormedAll(Nil) && AllItemsWritable(Nil) && FitsAll(Nil, lim) && Count(Nil) == 0 && LevelsAll(Nil) == 0 && NestAll(Nil) == 0;
  }

  lemma ArrayOfShape(it: Item, lim: Limits)
    requires Usable(it, lim) && lim.maxArrayElements >= 1
    ensures Usable(ArrayOf(it), lim) && !IsTag(ArrayOf(it)) && Levels(ArrayOf(it)) == Levels(it) + 1 && Nest(ArrayOf(it)) == Nest(it) + 1
  {
    hide WellFormedAll, AllItemsWritable, FitsAll, Count, NestAll, LevelsAll;
    OneItem(it, lim);
  }

  lemma {:induction false} TowerShape(n: nat, lim: Limits)
    requires lim.tags && lim.maxArrayElements >= 1
    ensures Usable(Tower(n), lim) && Nest(Tower(n)) == n && Levels(Tower(n)) == 2 * n + 1
  {
    hide Usable, Nest, Levels, TagOn, ArrayOf;
    if n == 0 {
      ZeroShape(lim);
      TagOnShape(Atom(Head(0, 0, 0)), lim);
    } else {
      TowerShape(n - 1, lim);
      ArrayOfShape(Tower(n - 1), lim);
      TagOnShape(ArrayOf(Tower(n - 1)), lim);
    }
  }

  lemma ZeroShape(lim: Limits)
    ensures var it := Atom(Head(0, 0, 0)); Usable(it, lim) && Nest(it) == 0 && Levels(it) == 0
  {
  }

  /** A mode that allows tags, and arrays of one element, accepts twice the documented levels and one more. */
  lemma TowerIsAccepted(lim: Limits)
    requires lim.tags && lim.maxArrayElements >= 1
    ensures var it := Tower(lim.maxNestedLevels);
      AllWritable(it) && Levels(it) == 2 * lim.maxNestedLevels + 1
      && Scan(ItemBytes(it), 0, 0, lim) == Done(|ItemBytes(it)|, lim.maxNestedLevels)
  {
    hide Scan, Spells, WellFormed, Fits, Nest, Size, AllWritable, ItemBytes, Levels, Tower;
    var it := Tower(lim.maxNestedLevels);
    TowerShape(lim.maxNestedLevels, lim);
    SpellsItself(it);
    ScanOfItem(ItemBytes(it), 0, 0, lim, it);
  }

  lemma SpellsItself(it: Item)
    requires AllWritable(it)
    ensures Spells(ItemBytes(it), 0, it)
  {
    hide Spells, AllWritable, ItemBytes, Size;
    assert ItemBytes(it)[0..0 + Size(it)] == ItemBytes(it);
    BytesSpell(ItemBytes(it), 0, it);
  }

  /** Tags directly inside one another, `n` and one more. */
  function TagRun(n: nat): Item {
    TagOn(if n == 0 then Atom(Head(0, 0, 0)) else TagRun(n - 1))
  }

  lemma {:induction false} TagRunShape(n: nat, lim: Limits)
    requires lim.tags
    ensures Usable(TagRun(n), lim) && IsTag(TagRun(n)) && Nest(TagRun(n)) == n && Levels(TagRun(n)) == n + 1
  {
    hide Usable, Nest, Levels, TagOn;
    if n == 0 {
      ZeroShape(lim);
      TagOnShape(Atom(Head(0, 0, 0)), lim);
    } else {
      TagRunShape(n - 1, lim);
      TagOnShape(TagRun(n - 1), lim);
    }
  }

  lemma {:induction false} NoTags(it: Item, lim: Limits)
    requires Fits(it, lim) && !lim.tags
    ensures Levels(it) == Nest(it)
  {
    if it.Node? { NoTagsAll(it.items, lim); }
  }

  lemma {:induction false} NoTagsAll(items: Items, lim: Limits)
    requires FitsAll(items, lim) && !lim.tags
    ensures LevelsAll(items) == NestAll(items)
  {
    if items.Cons? {
      NoTags(items.head, lim);
      NoTagsAll(items.tail, lim);
    }
  }

  /** A mode keeps everything it accepts within the documented levels exactly if it forbids tags. */
  lemma ModeLimitsLevels(lim: Limits)
    ensures (forall data, it :: Reads(data, 0, it, lim) && Scan(data, 0, 0, lim).Done? ==> Levels(it) <= lim.maxNestedLevels) <==> !lim.tags
  {
    hide Scan, Spells, WellFormed, Fits, Nest, Size, AllWritable, ItemBytes, Levels, TagRun;
    if lim.tags {
      var it := TagRun(lim.maxNestedLevels);
      TagRunShape(lim.maxNestedLevels, lim);
      SpellsItself(it);
      assert Reads(ItemBytes(it), 0, it, lim);
      ScanOfItem(ItemBytes(it), 0, 0, lim, it);
    } else {
      forall data, it | Reads(data, 0, it, lim) && Scan(data, 0, 0, lim).Done? ensures Levels(it) <= lim.maxNestedLevels {
        NoTags(it, lim);
        ScanOfItem(data, 0, 0, lim, it);
      }
    }
  }
}
