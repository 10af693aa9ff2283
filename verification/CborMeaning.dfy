/** What an item means, in terms that do not follow the way it is read. */
module CborMeaning {
  import opened MachineInts
  import opened CborItems
  import opened CborBytes
  import opened CborValues
  import opened CborEncode
  import opened Wrappers

  // Arrays: every element in its place, and the first error.

  function Elements(items: Items): seq<Item> {
    match items
    case Nil => []
    case Cons(it, rest) => [it] + Elements(rest)
  }

  /** What stands for an element in an array: itself, or null if it is an error. */
  function ElementValue(it: Item, m: Mode): Value {
    var p := Interp(it, true, m);
    if p.err.Some? then Null else p.v
  }

  function FirstError(items: Items, m: Mode): Option<Error> {
    match items
    case Nil => None
    case Cons(it, rest) => if Interp(it, true, m).err.Some? then Interp(it, true, m).err else FirstError(rest, m)
  }

  lemma {:induction false} ArrayMeaning(items: Items, vs: seq<Value>, err: Option<Error>, m: Mode)
    ensures var es, r := Elements(items), InterpArray(items, vs, err, m);
      && r.v.Array? && |r.v.vs| == |vs| + |es| && r.v.vs[..|vs|] == vs
      && (forall i {:trigger es[i]} :: 0 <= i < |es| ==> r.v.vs[|vs| + i] == ElementValue(es[i], m))
      && r.err == if err.Some? then err else FirstError(items, m)
  {
    hide Interp;
    if items.Cons? {
      var it, rest := items.head, items.tail;
      var p := Interp(it, true, m);
      var next := vs + [if p.err.Some? then Null else p.v];
      ArrayMeaning(rest, next, First(err, p.err), m);
      var es, r := Elements(items), InterpArray(items, vs, err, m);
      assert r.v.vs[..|vs|] == next[..|vs|];
      forall i {:trigger es[i]} | 0 <= i < |es| ensures r.v.vs[|vs| + i] == ElementValue(es[i], m) {
        if i > 0 { assert es[i] == Elements(rest)[i - 1]; } else { assert r.v.vs[|vs|] == r.v.vs[..|next|][|vs|]; }
      }
    }
  }

  /** No error: no element has one. */
  lemma {:induction false} NoError(items: Items, i: nat, m: Mode)
    requires i < |Elements(items)| && FirstError(items, m).None?
    ensures Interp(Elements(items)[i], true, m).err.None?
  {
    hide Interp;
    if i > 0 { NoError(items.tail, i - 1, m); }
  }

  /** The first error is the error of an element before which there is none. */
  lemma {:induction false} FirstErrorIsFirst(items: Items, m: Mode) returns (i: nat)
    requires FirstError(items, m).Some?
    ensures i < |Elements(items)| && Interp(Elements(items)[i], true, m).err == FirstError(items, m)
    ensures forall j {:trigger Elements(items)[j]} :: 0 <= j < i ==> Interp(Elements(items)[j], true, m).err.None?
  {
    hide Interp;
    i := 0;
    if Interp(items.head, true, m).err.None? {
      i := FirstErrorIsFirst(items.tail, m);
      forall j {:trigger Elements(items)[j]} | 0 <= j < i + 1 ensures Interp(Elements(items)[j], true, m).err.None? {
        if j > 0 { assert Elements(items)[j] == Elements(items.tail)[j - 1]; }
      }
      i := i + 1;
    }
  }

  /** The chunks of a string follow one another. */
  lemma {:induction false} JoinedInOrder(items: Items, i: nat, j: nat)
    requires i < |Elements(items)| && (forall e :: e in Elements(items) ==> e.Str?) && j < |Elements(items)[i].body|
    ensures |Joined(FirstItems(items, i))| + j < |Joined(items)|
    ensures Joined(items)[|Joined(FirstItems(items, i))| + j] == Elements(items)[i].body[j]
  {
    assert items.head in Elements(items);
    if i > 0 {
      assert forall e :: e in Elements(items.tail) ==> e in Elements(items);
      JoinedInOrder(items.tail, i - 1, j);
    }
  }

  /** The first `i` items. */
  function FirstItems(items: Items, i: nat): Items {
    if i == 0 || items.Nil? then Nil else Cons(items.head, FirstItems(items.tail, i - 1))
  }

  // Maps: the last value of a key wins.

  /** Values without floats and times in them, which are the same key only if they are equal. */
  predicate Exact(k: Value) {
    match k
    case Float(_, _) => false
    case Time(_) => false
    case Tag(_, content) => Exact(content)
    case _ => true
  }

  lemma {:induction false} ExactKeys(a: Value, b: Value, m: Mode)
    requires Exact(a) || Exact(b)
    ensures SameKey(a, b, m) <==> a == b
  {
    if a.Tag? && b.Tag? { ExactKeys(a.content, b.content, m); }
  }

  function Lookup(entries: seq<(Value, Value)>, k: Value): Option<Value> {
    if entries == [] then None else if entries[0].0 == k then Some(entries[0].1) else Lookup(entries[1..], k)
  }

  /** Assignment: the key has the new value, and other keys keep theirs. */
  lemma {:induction false} PutThenLookup(entries: seq<(Value, Value)>, k: Value, v: Value, other: Value, m: Mode)
    requires Exact(other)
    ensures Lookup(Put(entries, k, v, m), other) == if other == k then Some(v) else Lookup(entries, other)
  {
    hide SameKey, Exact;
    if entries == [] {
      assert [(k, v)][1..] == [];
    } else {
      var e, rest := entries[0], entries[1..];
      ExactKeys(e.0, other, m);
      if other == k { ExactKeys(e.0, k, m); }
      if SameKey(e.0, k, m) {
        if other == e.0 { ExactKeys(e.0, k, m); }
        assert ([(e.0, v)] + rest)[1..] == rest;
      } else {
        PutThenLookup(rest, k, v, other, m);
        assert ([e] + Put(rest, k, v, m))[1..] == Put(rest, k, v, m);
      }
    }
  }

  /** The key and value of the first pair, and the error if they cannot be an entry. */
  function PairKey(items: Items, m: Mode): Value
    requires items.Cons?
  {
    Wrapped(Interp(items.head, true, m).v, m)
  }

  function PairError(items: Items, m: Mode): Option<Error>
    requires items.Cons? && items.tail.Cons?
  {
    var p, e := Interp(items.head, true, m), Interp(items.tail.head, true, m);
    if p.err.Some? then p.err else if !Hashable(Wrapped(p.v, m)) then Some(UnhashableKey) else e.err
  }

  /** The value of the last pair with the key that can be an entry. */
  function LastValue(items: Items, k: Value, m: Mode): Option<Value> {
    if items.Nil? || items.tail.Nil? then None else
    var later := LastValue(items.tail.tail, k, m);
    if later.Some? then later
    else if PairError(items, m).None? && PairKey(items, m) == k then Some(Interp(items.tail.head, true, m).v)
    else None
  }

  function FirstPairError(items: Items, m: Mode): Option<Error> {
    if items.Nil? || items.tail.Nil? then None
    else if PairError(items, m).Some? then PairError(items, m)
    else FirstPairError(items.tail.tail, m)
  }

  lemma MapOneMore(items: Items, i: nat, entries: seq<(Value, Value)>, err: Option<Error>, m: Mode)
    requires items.Cons? && items.tail.Cons?
    ensures var k, v, e := PairKey(items, m), Interp(items.tail.head, true, m).v, PairError(items, m);
      var now := Put(entries, k, v, m);
      InterpMap(items, i, entries, err, m) ==
        if e.Some? then InterpMap(items.tail.tail, i + 1, entries, First(err, e), m)
        else if m.rejectDuplicates && |now| == |entries| then Parsed(Map(Put(now, k, Null, m)), Some(DuplicateKey(k, i)))
        else InterpMap(items.tail.tail, i + 1, now, err, m)
  {
    hide Interp, Put;
  }

  /** Where duplicates are allowed, a key has the value of the last pair with it, and the error is the first one. */
  lemma {:induction false} MapMeaning(items: Items, i: nat, entries: seq<(Value, Value)>, err: Option<Error>, k: Value, m: Mode)
    requires !m.rejectDuplicates && Exact(k)
    ensures var r := InterpMap(items, i, entries, err, m);
      && r.v.Map?
      && Lookup(r.v.entries, k) == (if LastValue(items, k, m).Some? then LastValue(items, k, m) else Lookup(entries, k))
      && r.err == if err.Some? then err else FirstPairError(items, m)
    decreases items
  {
    hide Interp, Put, PairError, PairKey;
    if items.Cons? && items.tail.Cons? {
      MapOneMore(items, i, entries, err, m);
      hide InterpMap;
      var e, now := PairError(items, m), Put(entries, PairKey(items, m), Interp(items.tail.head, true, m).v, m);
      if e.Some? {
        MapMeaning(items.tail.tail, i + 1, entries, First(err, e), k, m);
      } else {
        MapMeaning(items.tail.tail, i + 1, now, err, k, m);
        PutThenLookup(entries, PairKey(items, m), Interp(items.tail.head, true, m).v, k, m);
      }
    }
  }

  /** The first pair whose key came before, where duplicates are not allowed; `i` counts all pairs. */
  ghost function FirstRepeat(items: Items, seen: set<Value>, i: nat, m: Mode): Option<Error> {
    if items.Nil? || items.tail.Nil? then None
    else if PairError(items, m).Some? then FirstRepeat(items.tail.tail, seen, i + 1, m)
    else if PairKey(items, m) in seen then Some(DuplicateKey(PairKey(items, m), i))
    else FirstRepeat(items.tail.tail, seen + {PairKey(items, m)}, i + 1, m)
  }

  ghost predicate ExactPairs(items: Items, m: Mode) {
    items.Nil? || items.tail.Nil? || (Exact(PairKey(items, m)) && ExactPairs(items.tail.tail, m))
  }

  ghost function KeySet(entries: seq<(Value, Value)>): set<Value> {
    set e | e in entries :: e.0
  }

  lemma {:induction false} PutLength(entries: seq<(Value, Value)>, k: Value, v: Value, m: Mode)
    requires Exact(k)
    ensures |Put(entries, k, v, m)| == |entries| <==> k in KeySet(entries)
    ensures k !in KeySet(entries) ==> KeySet(Put(entries, k, v, m)) == KeySet(entries) + {k}
  {
    hide SameKey, Exact;
    if entries != [] {
      var e, rest := entries[0], entries[1..];
      assert entries == [e] + rest;
      assert KeySet(entries) == {e.0} + KeySet(rest);
      ExactKeys(e.0, k, m);
      if e.0 != k {
        PutLength(rest, k, v, m);
        assert Put(entries, k, v, m) == [e] + Put(rest, k, v, m);
        assert KeySet([e] + Put(rest, k, v, m)) == {e.0} + KeySet(Put(rest, k, v, m));
      }
    } else {
      assert KeySet([(k, v)]) == {k};
    }
  }

  /** Where duplicates are not allowed the first repeated key ends the map with an error, and has the value null. */
  lemma {:induction false} DuplicateMeaning(items: Items, i: nat, entries: seq<(Value, Value)>, err: Option<Error>, m: Mode)
    requires m.rejectDuplicates && ExactPairs(items, m)
    ensures var r, repeat := InterpMap(items, i, entries, err, m), FirstRepeat(items, KeySet(entries), i, m);
      && r.err == (if repeat.Some? then repeat else if err.Some? then err else FirstPairError(items, m))
      && (repeat.Some? ==> repeat.value.DuplicateKey? && r.v.Map? && Lookup(r.v.entries, repeat.value.key) == Some(Null))
    decreases items
  {
    hide Interp, Put, PairError, PairKey, Exact, KeySet, Lookup;
    if items.Cons? && items.tail.Cons? {
      MapOneMore(items, i, entries, err, m);
      hide InterpMap;
      var k, e := PairKey(items, m), PairError(items, m);
      var now := Put(entries, k, Interp(items.tail.head, true, m).v, m);
      PutLength(entries, k, Interp(items.tail.head, true, m).v, m);
      if e.Some? {
        DuplicateMeaning(items.tail.tail, i + 1, entries, First(err, e), m);
      } else if k !in KeySet(entries) {
        DuplicateMeaning(items.tail.tail, i + 1, now, err, m);
      } else {
        PutThenLookup(now, k, Null, k, m);
      }
    }
  }

  // Tags.

  /** The bytes of a number, without leading zeros. */
  function NumberBytes(n: nat): (s: seq<byte>)
  {
    if n == 0 then [] else NumberBytes(n / 0x100) + [n % 0x100]
  }

  lemma {:induction false} NumberOfBytes(n: nat, zeros: nat)
    ensures BigEndian(ZeroBytes(zeros) + NumberBytes(n)) == n
  {
    var s := ZeroBytes(zeros) + NumberBytes(n);
    if n > 0 {
      NumberOfBytes(n / 0x100, zeros);
      assert s[..|s| - 1] == ZeroBytes(zeros) + NumberBytes(n / 0x100);
    } else {
      assert s == ZeroBytes(zeros);
      NumberOfZeros(zeros);
    }
  }

  function ZeroBytes(n: nat): (s: seq<byte>)
    ensures |s| == n
  {
    seq(n, _ => 0)
  }

  lemma {:induction false} NumberOfZeros(n: nat)
    ensures BigEndian(ZeroBytes(n)) == 0
  {
    if n > 0 {
      assert ZeroBytes(n)[..n - 1] == ZeroBytes(n - 1);
      NumberOfZeros(n - 1);
    }
  }

  /** A big integer: tag 2 around the bytes of a number that is not negative, tag 3 around those of -1 - n (section 3.4.3 of RFC 8949). */
  function Bignum(n: int, zeros: nat): Item {
    var body := ZeroBytes(zeros) + NumberBytes(if n >= 0 then n else -1 - n);
    Node(Shortest(6, if n >= 0 then 2 else 3), Cons(Str(Shortest(2, |body|), body), Nil))
  }

  /** It means that integer, whatever its size and however many zeros its bytes start with. */
  lemma BignumMeaning(n: int, zeros: nat, m: Mode)
    ensures Interp(Bignum(n, zeros), true, m) == Parsed(BigInt(n), None)
  {
    hide BigEndian, NumberBytes;
    NumberOfBytes(if n >= 0 then n else -1 - n, zeros);
    var it := Bignum(n, zeros);
    assert InterpTag(it.h.val, it.items.head, m) == Parsed(BigInt(n), None);
  }

  /** Unsigned integers in both integer modes. */
  lemma UnsignedMeaning(n: nat, m: Mode)
    ensures Interp(Atom(Shortest(0, n)), true, m) ==
      if !m.signedInts then Parsed(Uint(n), None)
      else if n < 0x8000_0000_0000_0000 then Parsed(Int(n), None)
      else Parsed(Null, Some(IntOverflow))
  {
  }

  /** The integers of major type 1 that an int64 cannot hold mean the same as the bignums. */
  lemma NegativeMeaning(n: nat, m: Mode)
    requires MAX_INT < n < 0x1_0000_0000_0000_0000
    ensures Interp(Atom(Shortest(1, n)), true, m) == Interp(Bignum(-1 - n, 0), true, m) == Parsed(BigInt(-1 - n), None)
  {
    BignumMeaning(-1 - n, 0, m);
  }

  /** Content that suits a built-in tag: text for tag 0, an integer or a float for tag 1, bytes for tags 2 and 3. */
  predicate Suits(num: nat, h: Head) {
    if num == 0 then h.major == 3
    else if num == 1 then h.major == 0 || h.major == 1 || (h.major == 7 && (h.ai == 25 || h.ai == 26 || h.ai == 27))
    else h.major == 2
  }

  /** Content that does not suit is an error; other content is handed to the conversion, or is a number. */
  lemma BuiltinContents(num: nat, content: Item, m: Mode)
    requires WellFormed(content) && num <= 3
    ensures var r, p := InterpTag(num, content, m), Interp(content, false, m);
      if !Suits(num, content.h) then r == Parsed(Null, Some(WrongTagContent(num)))
      else if num >= 2 then r.err.None? && r.v.BigInt?
      else r == if p.err.Some? then Parsed(Time(0), p.err) else m.toTime(p.v)
  {
    hide BigEndian, Content, IsText, Interp;
  }

  /**
   * A key that a map cannot hold: a byte string that is not wrapped, an array, a map, an integer
   * beyond an int64 on the negative side, or a bignum.
   */
  lemma UnhashableKeys(key: Item, value: Item, rest: Items, m: Mode)
    requires WellFormed(key) && Interp(key, true, m).err.None? && !IsTag(key)
    ensures PairError(Cons(key, Cons(value, rest)), m) == Some(UnhashableKey) ||
      PairError(Cons(key, Cons(value, rest)), m) == Interp(value, true, m).err
    ensures var h := key.h;
      h.major == 4 || h.major == 5 || (h.major == 2 && !m.wrapKeys) || (h.major == 1 && h.val > 0x7fff_ffff_ffff_ffff) ==>
        PairError(Cons(key, Cons(value, rest)), m) == Some(UnhashableKey)
    ensures var h := key.h;
      h.major == 0 || h.major == 3 || h.major == 7 || (h.major == 2 && m.wrapKeys) || (h.major == 1 && h.val <= 0x7fff_ffff_ffff_ffff) ==>
        PairError(Cons(key, Cons(value, rest)), m) == Interp(value, true, m).err
  {
    hide BigEndian, Content, IsText, InterpArray, InterpMap;
    if key.Node? && key.h.major == 4 { ArrayMeaning(key.items, [], None, m); }
    if key.Node? && key.h.major == 5 { MapIsMap(key.items, 0, [], None, m); }
    assert Interp(key, true, m) == Interpret(key, m);
    hide Interp;
  }

  lemma BignumKey(n: int, zeros: nat, value: Item, rest: Items, m: Mode)
    ensures PairError(Cons(Bignum(n, zeros), Cons(value, rest)), m) == Some(UnhashableKey)
  {
    BignumMeaning(n, zeros, m);
    hide Interp, Bignum;
  }

  lemma {:induction false} MapIsMap(items: Items, i: nat, entries: seq<(Value, Value)>, err: Option<Error>, m: Mode)
    ensures InterpMap(items, i, entries, err, m).v.Map?
    decreases items
  {
    hide Interp, Put;
    if items.Cons? && items.tail.Cons? {
      var rest := items.tail.tail;
      var p, e := Interp(items.head, true, m), Interp(items.tail.head, true, m);
      var k := Wrapped(p.v, m);
      MapIsMap(rest, i + 1, entries, First(err, p.err), m);
      MapIsMap(rest, i + 1, entries, First(err, Some(UnhashableKey)), m);
      MapIsMap(rest, i + 1, entries, First(err, e.err), m);
      MapIsMap(rest, i + 1, Put(entries, k, e.v, m), err, m);
    }
  }

  /** A self-described item, which starts with d9 d9 f7, means what it describes (section 3.4.6 of RFC 8949). */
  lemma SelfDescribedMeaning(it: Item, m: Mode)
    requires AllWritable(it)
    ensures var tagged := Node(Shortest(6, SELF_DESCRIBED), Cons(it, Nil));
      && AllWritable(tagged) && ItemBytes(tagged) == [0xd9, 0xd9, 0xf7] + ItemBytes(it)
      && Interp(tagged, true, m) == Interp(it, true, m)
  {
    hide AllWritable, ItemBytes, Interpret;
    SelfDescribedHead();
    OneItem(Shortest(6, SELF_DESCRIBED), it);
  }

  lemma SelfDescribedHead()
    ensures IsWritable(Shortest(6, SELF_DESCRIBED)) && HeadBytes(Shortest(6, SELF_DESCRIBED)) == [0xd9, 0xd9, 0xf7]
  {
    assert ToBigEndian(0xd9, 1) == [0xd9];
  }

  lemma OneItem(h: Head, it: Item)
    requires IsWritable(h) && h.ai != 31 && AllWritable(it)
    ensures AllWritable(Node(h, Cons(it, Nil))) && ItemBytes(Node(h, Cons(it, Nil))) == HeadBytes(h) + ItemBytes(it)
  {
    hide IsWritable, HeadBytes;
    assert AllItemsWritable(Nil) && AllBytes(Nil) == [];
    assert AllItemsWritable(Cons(it, Nil)) && AllBytes(Cons(it, Nil)) == ItemBytes(it);
  }
}
