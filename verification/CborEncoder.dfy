/** The encoder's code: it appends to a buffer, and sorts the pairs of a map in place. */
module CborEncoder {
  import opened MachineInts
  import opened CborItems
  import opened CborBytes
  import opened CborOrder
  import opened CborValues
  import opened CborEncode

  /** Encoding options. */
  datatype EncMode = EncMode(order: Order, tagsForbidden: bool)

  /** Go's int64 arithmetic wraps around. */
  function Wrap64(x: int): int64 {
    (x + 0x8000_0000_0000_0000) % 0x1_0000_0000_0000_0000 - 0x8000_0000_0000_0000
  }

  /** The two's complement of a negative integer less one, also for the least one, whose negation wraps. */
  lemma NegatedLessOne(i: int64)
    requires i < 0
    ensures Wrap64(Wrap64(i as int * -1) as int - 1) == -1 - i
  {
  }

  predicate HasTag(v: Value) {
    match v
    case Array(vs) => AnyHasTag(vs)
    case Map(entries) => AnyEntryHasTag(entries)
    case Tag(num, content) => true
    case _ => false
  }

  predicate AnyHasTag(vs: seq<Value>) {
    vs != [] && (HasTag(vs[0]) || AnyHasTag(vs[1..]))
  }

  predicate AnyEntryHasTag(entries: seq<(Value, Value)>) {
    entries != [] && (EntryHasTag(entries[0]) || AnyEntryHasTag(entries[1..]))
  }

  predicate EntryHasTag(e: (Value, Value)) {
    HasTag(e.0) || HasTag(e.1)
  }

  /** A serialized key, and the key together with its value, as the canonical encoder keeps them for sorting. */
  datatype KeyValue = KeyValue(key: seq<byte>, keyValue: seq<byte>)

  function KeyOf(kv: KeyValue): seq<byte> {
    kv.key
  }

  /** The sorters: the library's sort works by comparing and swapping elements. */
  class Sorter {
    const kvs: array<KeyValue>
    const order: Order

    constructor (kvs: array<KeyValue>, order: Order)
      ensures this.kvs == kvs && this.order == order
    {
      this.kvs := kvs;
      this.order := order;
    }

    method Swap(i: nat, j: nat)
      requires i < kvs.Length && j < kvs.Length
      modifies kvs
      ensures kvs[..] == old(kvs[..])[i := old(kvs[j])][j := old(kvs[i])]
    {
      kvs[i], kvs[j] := kvs[j], kvs[i];
    }

    function Less(i: nat, j: nat): (r: bool)
      requires i < kvs.Length && j < kvs.Length
      reads kvs
    {
      if order == LengthFirst && |kvs[i].key| != |kvs[j].key| then |kvs[i].key| < |kvs[j].key|
      else BytesLeq(kvs[i].key, kvs[j].key)
    }

    /** An in-place sort by `Less` and `Swap`. */
    method Sort()
      modifies kvs
      ensures multiset(kvs[..]) == multiset(old(kvs[..])) && Ascending(kvs[..], KeyOf, order)
    {
      hide BytesLeq;
      var i := 0;
      while i < kvs.Length
        invariant 0 <= i <= kvs.Length && multiset(kvs[..]) == multiset(old(kvs[..]))
        invariant Ascending(kvs[..i], KeyOf, order)
      {
        SiftDown(i);
        i := i + 1;
      }
      assert kvs[..i] == kvs[..];
    }

    /** Moves the element at `i` down to its place. */
    method SiftDown(i: nat)
      requires i < kvs.Length && Ascending(kvs[..i], KeyOf, order)
      modifies kvs
      ensures multiset(kvs[..]) == multiset(old(kvs[..])) && Ascending(kvs[..i + 1], KeyOf, order)
    {
      hide BytesLeq, KeyLeq, Ascending, AscendingBut, Less;
      var j := i;
      assert AscendingBut(kvs[..], i, i, order) by { StartSifting(kvs[..], i, order); }
      while j > 0 && Less(j, j - 1)
        invariant 0 <= j <= i && multiset(kvs[..]) == multiset(old(kvs[..]))
        invariant AscendingBut(kvs[..], i, j, order)
      {
        LessIsLeq(j, j - 1);
        SiftStep(kvs[..], i, j, order);
        Swap(j, j - 1);
        j := j - 1;
      }
      if j > 0 { LessIsLeq(j, j - 1); }
      EndSifting(kvs[..], i, j, order);
    }

    lemma LessIsLeq(i: nat, j: nat)
      requires i < kvs.Length && j < kvs.Length
      ensures Less(i, j) == KeyLeq(kvs[i].key, kvs[j].key, order)
    {
    }
  }

  /** Up to `i` the keys ascend except that the one at `j` is only known not to exceed those after it. */
  ghost predicate AscendingBut(s: seq<KeyValue>, i: nat, j: nat, order: Order) {
    j <= i < |s| && forall a, b {:trigger s[a], s[b]} :: 0 <= a < b <= i && b != j ==> KeyLeq(s[a].key, s[b].key, order)
  }

  lemma StartSifting(s: seq<KeyValue>, i: nat, order: Order)
    requires i < |s| && Ascending(s[..i], KeyOf, order)
    ensures AscendingBut(s, i, i, order)
  {
    hide KeyLeq;
    var t := s[..i];
    forall a, b | 0 <= a < b < i ensures KeyLeq(s[a].key, s[b].key, order) {
      assert KeyLeq(KeyOf(t[a]), KeyOf(t[b]), order);
    }
  }

  lemma SiftStep(s: seq<KeyValue>, i: nat, j: nat, order: Order)
    requires AscendingBut(s, i, j, order) && 0 < j && KeyLeq(s[j].key, s[j - 1].key, order)
    ensures AscendingBut(s[j := s[j - 1]][j - 1 := s[j]], i, j - 1, order)
  {
    hide KeyLeq;
  }

  lemma EndSifting(s: seq<KeyValue>, i: nat, j: nat, order: Order)
    requires AscendingBut(s, i, j, order) && (j > 0 ==> !KeyLeq(s[j].key, s[j - 1].key, order))
    ensures Ascending(s[..i + 1], KeyOf, order)
  {
    hide KeyLeq;
    var t := s[..i + 1];
    forall a, b | 0 <= a < b < |t| ensures KeyLeq(KeyOf(t[a]), KeyOf(t[b]), order) {
      assert t[a] == s[a] && t[b] == s[b];
      if b == j {
        KeyOrder(s[j].key, s[j - 1].key, order);
        if a < j - 1 { KeyTransitive(s[a].key, s[j - 1].key, s[j].key, order); }
      }
    }
  }

  // Pairs as bytes.

  function KV(p: (Image, Image)): KeyValue
    requires PairShaped(p)
  {
    KeyValue(ItemBytes(p.0.it), ItemBytes(p.0.it) + ItemBytes(p.1.it))
  }

  ghost predicate AllPairsShaped(pairs: seq<(Image, Image)>) {
    forall i {:trigger pairs[i]} :: 0 <= i < |pairs| ==> PairShaped(pairs[i])
  }

  ghost function KVs(pairs: seq<(Image, Image)>): (r: seq<KeyValue>)
    requires AllPairsShaped(pairs)
    ensures |r| == |pairs|
  {
    if pairs == [] then [] else [KV(pairs[0])] + KVs(pairs[1..])
  }

  function JoinedPairs(kvs: seq<KeyValue>): seq<byte> {
    if kvs == [] then [] else kvs[0].keyValue + JoinedPairs(kvs[1..])
  }

  lemma {:induction false} KVsAt(pairs: seq<(Image, Image)>, i: nat)
    requires AllPairsShaped(pairs) && i < |pairs|
    ensures KVs(pairs)[i] == KV(pairs[i])
  {
    hide KV, PairShaped;
    if i > 0 {
      KVsAt(pairs[1..], i - 1);
      assert pairs[1..][i - 1] == pairs[i];
    }
  }

  /** The pairs one after the other are the items of the map. */
  lemma {:induction false} PairChainBytes(pairs: seq<(Image, Image)>)
    requires AllPairsShaped(pairs)
    ensures AllItemsWritable(PairChain(pairs)) && AllBytes(PairChain(pairs)) == JoinedPairs(KVs(pairs))
  {
    hide PairShaped, KV, AllItemsWritable, AllBytes;
    if pairs != [] {
      var p, rest := pairs[0], pairs[1..];
      PairChainBytes(rest);
      OnePairBytes(p, PairChain(rest));
      assert KVs(pairs)[0] == KV(p) && KVs(pairs)[1..] == KVs(rest);
    } else {
      NoBytes();
    }
  }

  lemma NoBytes()
    ensures AllItemsWritable(Nil) && AllBytes(Nil) == []
  {
  }

  lemma OnePairBytes(p: (Image, Image), rest: Items)
    requires PairShaped(p) && AllItemsWritable(rest)
    ensures AllItemsWritable(Cons(p.0.it, Cons(p.1.it, rest)))
    ensures AllBytes(Cons(p.0.it, Cons(p.1.it, rest))) == KV(p).keyValue + AllBytes(rest)
  {
    hide WellFormed, AllWritable, AllShortest, ItemBytes;
    var items := Cons(p.1.it, rest);
    assert AllItemsWritable(items) && AllBytes(items) == ItemBytes(p.1.it) + AllBytes(rest);
    assert AllBytes(Cons(p.0.it, items)) == ItemBytes(p.0.it) + AllBytes(items);
  }

  /** Sorting pairs by the key they are written with is sorting what is written. */
  lemma {:induction false} SortedKVs(pairs: seq<(Image, Image)>, order: Order)
    requires AllPairsShaped(pairs)
    ensures AllPairsShaped(Sorted(pairs, KeyBytes, order)) && KVs(Sorted(pairs, KeyBytes, order)) == Sorted(KVs(pairs), KeyOf, order)
  {
    hide KV, PairShaped, KeyBytes, KeyLeq, Inserted;
    if pairs != [] {
      assert PairShaped(pairs[0]);
      SortedKVs(pairs[1..], order);
      InsertedKVs(pairs[0], Sorted(pairs[1..], KeyBytes, order), order);
      assert KVs(pairs)[0] == KV(pairs[0]) && KVs(pairs)[1..] == KVs(pairs[1..]);
    }
  }

  lemma {:induction false} InsertedKVs(p: (Image, Image), pairs: seq<(Image, Image)>, order: Order)
    requires PairShaped(p) && AllPairsShaped(pairs)
    ensures AllPairsShaped(Inserted(p, pairs, KeyBytes, order))
    ensures KVs(Inserted(p, pairs, KeyBytes, order)) == Inserted(KV(p), KVs(pairs), KeyOf, order)
  {
    hide KV, PairShaped, KeyBytes, KeyLeq;
    var r := Inserted(p, pairs, KeyBytes, order);
    KeyOfKV(p);
    if pairs == [] {
      assert r[1..] == [];
    } else {
      KeyOfKV(pairs[0]);
      assert KVs(pairs)[1..] == KVs(pairs[1..]) && KVs(pairs)[0] == KV(pairs[0]);
      if KeyLeq(KeyBytes(p), KeyBytes(pairs[0]), order) {
        assert r[1..] == pairs;
      } else {
        InsertedKVs(p, pairs[1..], order);
        assert r[1..] == Inserted(p, pairs[1..], KeyBytes, order);
      }
    }
  }

  lemma KeyOfKV(p: (Image, Image))
    requires PairShaped(p)
    ensures KeyBytes(p) == KeyOf(KV(p))
  {
    hide WellFormed, AllWritable, AllShortest, ItemBytes;
  }

  /** Whatever the sort did, the array now holds the pairs of the canonical order. */
  lemma SortingIsCanonical(pairs: seq<(Image, Image)>, order: Order, kvs: seq<KeyValue>)
    requires AllPairsShaped(pairs) && DistinctKeys(pairs, KeyBytes) && order != AsIterated
    requires multiset(kvs) == multiset(KVs(pairs)) && Ascending(kvs, KeyOf, order)
    ensures AllPairsShaped(Arranged(pairs, order)) && kvs == KVs(Arranged(pairs, order))
  {
    hide KV, PairShaped, KeyBytes, KeyLeq, Sorted, KVs;
    SortedKVs(pairs, order);
    SortedIsSorted(KVs(pairs), KeyOf, order);
    forall i, j | 0 <= i < j < |pairs| ensures KeyOf(KVs(pairs)[i]) != KeyOf(KVs(pairs)[j]) {
      KVsAt(pairs, i);
      KVsAt(pairs, j);
      assert PairShaped(pairs[i]) && PairShaped(pairs[j]);
      KeyOfKV(pairs[i]);
      KeyOfKV(pairs[j]);
    }
    DistinctPermuted(KVs(pairs), Sorted(KVs(pairs), KeyOf, order), KeyOf);
    OneOrder(kvs, Sorted(KVs(pairs), KeyOf, order), KeyOf, order);
  }

  /** The bytes of the image of a value. */
  ghost function Written(v: Value, o: Options): seq<byte>
    requires Encodable(v, o)
  {
    ImageShaped(v, o);
    ItemBytes(ImageOf(v, o).it)
  }

  ghost function WrittenEntry(e: (Value, Value), o: Options): KeyValue
    requires EncodableEntry(e, o)
  {
    EntryShaped(e, o);
    KV(PairImage(e, o))
  }

  lemma WrittenTag(num: nat, content: Value, o: Options)
    requires Encodable(Tag(num, content), o) && !(num == 0 && content == Null)
    ensures num < 0x1_0000_0000_0000_0000 && Encodable(content, o)
    ensures Written(Tag(num, content), o) == HeadBytes(Shortest(6, num)) + Written(content, o)
  {
    hide ImageOf, WellFormed, AllWritable, AllShortest, ItemBytes;
    ImageShaped(Tag(num, content), o);
    ImageShaped(content, o);
    TagBytes(num, content, o);
  }

  lemma WrittenEmptyTag(o: Options)
    ensures Encodable(Tag(0, Null), o) && Written(Tag(0, Null), o) == [0xf6]
  {
  }

  lemma TagBytes(num: nat, content: Value, o: Options)
    requires !(num == 0 && content == Null)
    requires AllWritable(ImageOf(Tag(num, content), o).it) && AllWritable(ImageOf(content, o).it)
    ensures ItemBytes(ImageOf(Tag(num, content), o).it) == HeadBytes(Shortest(6, num)) + ItemBytes(ImageOf(content, o).it)
  {
    hide AllWritable, IsWritable, HeadBytes;
    assert AllBytes(Nil) == [];
  }

  ghost function WrittenAll(vs: seq<Value>, o: Options): seq<byte>
    requires AllEncodable(vs, o)
  {
    if vs == [] then [] else Written(vs[0], o) + WrittenAll(vs[1..], o)
  }

  lemma {:induction false} ChainBytes(vs: seq<Value>, o: Options)
    requires AllEncodable(vs, o)
    ensures AllItemsWritable(Chain(ImagesOf(vs, o))) && AllBytes(Chain(ImagesOf(vs, o))) == WrittenAll(vs, o)
  {
    hide ImageOf, WellFormed, AllWritable, AllShortest, ItemBytes, Encodable;
    if vs != [] {
      ImageShaped(vs[0], o);
      ChainBytes(vs[1..], o);
      assert ImagesOf(vs, o)[1..] == ImagesOf(vs[1..], o);
    }
  }

  lemma WrittenArray(vs: seq<Value>, o: Options)
    requires Encodable(Array(vs), o)
    ensures AllEncodable(vs, o) && |vs| <= MAX_INT && Written(Array(vs), o) == HeadBytes(Shortest(4, |vs|)) + WrittenAll(vs, o)
  {
    hide ImagesOf, WrittenAll, AllItemsWritable, AllBytes, Chain;
    ImageShaped(Array(vs), o);
    ChainBytes(vs, o);
  }

  lemma WrittenMap(entries: seq<(Value, Value)>, o: Options)
    requires Encodable(Map(entries), o)
    ensures AllPairsShaped(PairImages(entries, o)) && AllPairsShaped(Arranged(PairImages(entries, o), o.order))
    ensures Written(Map(entries), o) == HeadBytes(Shortest(5, |entries|)) + JoinedPairs(KVs(Arranged(PairImages(entries, o), o.order)))
  {
    hide PairImages, Arranged, AllItemsWritable, AllBytes, PairChain, KVs, JoinedPairs, PairShaped, KeyBytes;
    ImageShaped(Map(entries), o);
    PairImagesShaped(entries, o);
    ArrangedShaped(PairImages(entries, o), o.order);
    PairChainBytes(Arranged(PairImages(entries, o), o.order));
  }

  ghost function WrittenPairs(entries: seq<(Value, Value)>, o: Options): seq<byte>
    requires AllEncodableEntries(entries, o)
  {
    if entries == [] then [] else WrittenEntry(entries[0], o).keyValue + WrittenPairs(entries[1..], o)
  }

  lemma {:induction false} EntriesAt(entries: seq<(Value, Value)>, o: Options, i: nat)
    requires AllEncodableEntries(entries, o) && i < |entries|
    ensures EncodableEntry(entries[i], o) && PairImages(entries, o)[i] == PairImage(entries[i], o)
  {
    hide EncodableEntry, PairImage;
    if i > 0 {
      EntriesAt(entries[1..], o, i - 1);
      assert entries[1..][i - 1] == entries[i];
    }
  }

  lemma {:induction false} JoinedIsWritten(entries: seq<(Value, Value)>, o: Options)
    requires AllEncodableEntries(entries, o)
    ensures AllPairsShaped(PairImages(entries, o)) && JoinedPairs(KVs(PairImages(entries, o))) == WrittenPairs(entries, o)
  {
    hide PairImage, PairShaped, KV, EncodableEntry;
    PairImagesShaped(entries, o);
    if entries != [] {
      JoinedIsWritten(entries[1..], o);
      EntryShaped(entries[0], o);
      assert PairImages(entries, o)[1..] == PairImages(entries[1..], o);
      var r := KVs(PairImages(entries, o));
      assert r[0] == KV(PairImage(entries[0], o)) == WrittenEntry(entries[0], o);
      assert r[1..] == KVs(PairImages(entries[1..], o));
    }
  }

  ghost predicate IsPairOf(kv: KeyValue, e: (Value, Value), o: Options) {
    EncodableEntry(e, o) && kv == WrittenEntry(e, o)
  }

  /** The lengths of a serialized key, and of the key with its value. */
  ghost predicate IsPairLength(n: (nat, nat), e: (Value, Value), o: Options) {
    EncodableEntry(e, o) && n == (|WrittenEntry(e, o).key|, |WrittenEntry(e, o).keyValue|)
  }

  /** The pairs cut out of the buffer they were written to. */
  method CutPairs(b: seq<byte>, lens: seq<(nat, nat)>, ghost entries: seq<(Value, Value)>, ghost o: Options) returns (kvs: array<KeyValue>)
    requires AllEncodableEntries(entries, o) && |lens| == |entries| && b == WrittenPairs(entries, o)
    requires forall k {:trigger lens[k]} :: 0 <= k < |entries| ==> IsPairLength(lens[k], entries[k], o)
    ensures fresh(kvs) && kvs.Length == |entries|
    ensures AllPairsShaped(PairImages(entries, o)) && kvs[..] == KVs(PairImages(entries, o))
  {
    hide EncodableEntry, WrittenEntry, PairImage, PairShaped, KVs;
    kvs := new KeyValue[|lens|](_ => KeyValue([], []));
    var i: nat, off: nat := 0, 0;
    assert entries[0..] == entries;
    while i < |lens|
      invariant 0 <= i <= |lens| && off <= |b| && AllEncodableEntries(entries[i..], o) && b[off..] == WrittenPairs(entries[i..], o)
      invariant forall k {:trigger kvs[k]} :: 0 <= k < i ==> IsPairOf(kvs[k], entries[k], o)
    {
      assert IsPairLength(lens[i], entries[i], o);
      CutOne(b, off, entries[i..], o);
      assert entries[i..][0] == entries[i] && entries[i..][1..] == entries[i + 1..];
      assert lens[i].0 <= lens[i].1;
      ghost var kv := WrittenEntry(entries[i], o);
      assert lens[i] == (|kv.key|, |kv.keyValue|);
      kvs[i] := KeyValue(b[off..off + lens[i].0], b[off..off + lens[i].1]);
      assert IsPairOf(kvs[i], entries[i], o);
      off := off + lens[i].1;
      i := i + 1;
    }
    ghost var all := kvs[..];
    assert forall k {:trigger all[k]} :: 0 <= k < |entries| ==> all[k] == kvs[k];
    AllCut(all, entries, o);
  }

  /** The first pair ahead in the buffer. */
  lemma CutOne(b: seq<byte>, off: nat, entries: seq<(Value, Value)>, o: Options)
    requires off <= |b| && AllEncodableEntries(entries, o) && entries != [] && b[off..] == WrittenPairs(entries, o)
    ensures EncodableEntry(entries[0], o)
    ensures var kv := WrittenEntry(entries[0], o);
      && |kv.key| <= |kv.keyValue| && off + |kv.keyValue| <= |b|
      && kv == KeyValue(b[off..off + |kv.key|], b[off..off + |kv.keyValue|])
      && b[off + |kv.keyValue|..] == WrittenPairs(entries[1..], o)
  {
    hide Encodable, ImageOf, WellFormed, AllWritable, AllShortest, ItemBytes;
    var kv, rest := WrittenEntry(entries[0], o), b[off..];
    assert rest == kv.keyValue + WrittenPairs(entries[1..], o);
    assert b[off..off + |kv.keyValue|] == rest[..|kv.keyValue|] == kv.keyValue;
    assert b[off..off + |kv.key|] == kv.keyValue[..|kv.key|] == kv.key;
    assert b[off + |kv.keyValue|..] == rest[|kv.keyValue|..];
  }

  lemma AllCut(kvs: seq<KeyValue>, entries: seq<(Value, Value)>, o: Options)
    requires AllEncodableEntries(entries, o) && |kvs| == |entries|
    requires forall k {:trigger kvs[k]} :: 0 <= k < |entries| ==> IsPairOf(kvs[k], entries[k], o)
    ensures AllPairsShaped(PairImages(entries, o)) && kvs == KVs(PairImages(entries, o))
  {
    hide EncodableEntry, PairImage, PairShaped, KVs, KV, PairImages;
    PairImagesShaped(entries, o);
    forall k | 0 <= k < |kvs| ensures kvs[k] == KVs(PairImages(entries, o))[k] {
      EntriesAt(entries, o, k);
      KVsAt(PairImages(entries, o), k);
    }
  }

  lemma Associate(a: seq<byte>, b: seq<byte>, c: seq<byte>)
    ensures (a + b) + c == a + (b + c)
  {
  }

  /** The encoder's buffer. */
  class Encoder {
    var out: seq<byte>

    constructor ()
      ensures out == []
    {
      out := [];
    }

    method WriteByte(b: byte)
      modifies this
      ensures out == old(out) + [b]
    {
      out := out + [b];
    }

    method Write(s: seq<byte>)
      modifies this
      ensures out == old(out) + s
    {
      out := out + s;
    }

    method EncodeHead(t: nat, n: uint64)
      requires t <= 7
      modifies this
      ensures out == old(out) + HeadBytes(Shortest(t, n))
    {
      if n <= 23 {
        WriteByte(t * 32 + n);
        assert HeadBytes(Shortest(t, n)) == [t * 32 + n];
        return;
      }
      if n <= 0xff {
        Write([t * 32 + 24] + ToBigEndian(n, 1));
        return;
      }
      if n <= 0xffff {
        Write([t * 32 + 25] + ToBigEndian(n, 2));
        return;
      }
      if n <= 0xffff_ffff {
        Write([t * 32 + 26] + ToBigEndian(n, 4));
        return;
      }
      Write([t * 32 + 27] + ToBigEndian(n, 8));
    }

    method EncodeInt(i0: int64)
      modifies this
      ensures out == old(out) + HeadBytes(if i0 >= 0 then Shortest(0, i0) else Shortest(1, -1 - i0))
    {
      var i := i0;
      if i >= 0 {
        EncodeHead(0, i);
        return;
      }
      NegatedLessOne(i);
      i := Wrap64(Wrap64(i as int * -1) as int - 1);
      EncodeHead(1, i);
    }

    /** A byte string; a nil slice is written as null. */
    method EncodeByteString(s: seq<byte>, isNil: bool)
      requires |s| <= MAX_INT && (isNil ==> s == [])
      modifies this
      ensures out == old(out) + if isNil then [0xf6] else HeadBytes(Shortest(2, |s|)) + s
    {
      if isNil {
        WriteByte(0xf6);
        return;
      }
      if |s| == 0 {
        WriteByte(2 * 32);
        assert HeadBytes(Shortest(2, 0)) == [2 * 32];
        return;
      }
      EncodeHead(2, |s|);
      Write(s);
    }

    method EncodeString(s: seq<byte>)
      requires |s| <= MAX_INT
      modifies this
      ensures out == old(out) + HeadBytes(Shortest(3, |s|)) + s
    {
      EncodeHead(3, |s|);
      Write(s);
    }

    /** Appends the serialization of a value; it fails only on a tag where tags are forbidden. */
    method Encode(v: Value, em: EncMode, ghost o: Options) returns (ok: bool)
      requires Encodable(v, o) && o.order == em.order
      modifies this
      ensures ok <==> !(em.tagsForbidden && HasTag(v))
      ensures ok ==> out == old(out) + Written(v, o)
      decreases v, 1
    {
      hide Written, Encodable;
      if v.Array? {
        ok := EncodeArray(v.vs, em, o);
      } else if v.Map? {
        ok := EncodeMap(v.entries, em, o);
      } else if v.Tag? {
        ok := EncodeTag(v.num, v.content, em, o);
      } else {
        EncodeLeaf(v, o);
        ok := true;
      }
    }

    method EncodeLeaf(v: Value, ghost o: Options)
      requires Encodable(v, o) && !v.Array? && !v.Map? && !v.Tag?
      modifies this
      ensures out == old(out) + Written(v, o)
    {
      match v
      case Null => WriteByte(0xf6);
      case Bool(b) => WriteByte(if b then 0xf5 else 0xf4);
      case Uint(n) => EncodeHead(0, n);
      case Int(i) => EncodeInt(i);
      case Bytes(s) => EncodeByteString(s, false);
      case ByteString(s) => EncodeByteString(s, false);
      case Text(s) => EncodeString(s);
    }

    /** A tag; one without number and content is written as null. */
    method EncodeTag(num: nat, content: Value, em: EncMode, ghost o: Options) returns (ok: bool)
      requires Encodable(Tag(num, content), o) && o.order == em.order
      modifies this
      ensures ok <==> !(em.tagsForbidden && HasTag(Tag(num, content)))
      ensures ok ==> out == old(out) + Written(Tag(num, content), o)
      decreases content, 4
    {
      hide Written, Encodable, HeadBytes, Shortest;
      if em.tagsForbidden { return false; }
      if num == 0 && content == Null {
        WriteByte(0xf6);
        WrittenEmptyTag(o);
        return true;
      }
      WrittenTag(num, content, o);
      EncodeHead(6, num);
      ShortestIsWritable(6, num);
      Associate(old(out), HeadBytes(Shortest(6, num)), Written(content, o));
      ok := Encode(content, em, o);
    }

    method EncodeArray(vs: seq<Value>, em: EncMode, ghost o: Options) returns (ok: bool)
      requires Encodable(Array(vs), o) && o.order == em.order
      modifies this
      ensures ok <==> !(em.tagsForbidden && AnyHasTag(vs))
      ensures ok ==> out == old(out) + Written(Array(vs), o)
      decreases vs, 1
    {
      hide Written, HasTag, Encodable;
      WrittenArray(vs, o);
      if |vs| == 0 {
        WriteByte(4 * 32);
        assert HeadBytes(Shortest(4, 0)) == [4 * 32];
        return true;
      }
      EncodeHead(4, |vs|);
      Associate(old(out), HeadBytes(Shortest(4, |vs|)), WrittenAll(vs, o));
      ok := EncodeElements(vs, em, o);
    }

    method EncodeElements(vs: seq<Value>, em: EncMode, ghost o: Options) returns (ok: bool)
      requires AllEncodable(vs, o) && o.order == em.order
      modifies this
      ensures ok <==> !(em.tagsForbidden && AnyHasTag(vs))
      ensures ok ==> out == old(out) + WrittenAll(vs, o)
      decreases vs, 0
    {
      hide Written, HasTag, Encodable;
      ghost var start := out;
      var i := 0;
      assert vs[0..] == vs;
      while i < |vs|
        invariant 0 <= i <= |vs| && AllEncodable(vs[i..], o)
        invariant out + WrittenAll(vs[i..], o) == start + WrittenAll(vs, o)
        invariant em.tagsForbidden ==> AnyHasTag(vs[i..]) == AnyHasTag(vs)
      {
        assert vs[i..][0] == vs[i] && vs[i..][1..] == vs[i + 1..];
        Associate(out, Written(vs[i], o), WrittenAll(vs[i + 1..], o));
        ok := Encode(vs[i], em, o);
        if !ok { return; }
        i := i + 1;
      }
      assert vs[i..] == [] && out + [] == out;
      return true;
    }

    method EncodeMap(entries: seq<(Value, Value)>, em: EncMode, ghost o: Options) returns (ok: bool)
      requires Encodable(Map(entries), o) && o.order == em.order
      modifies this
      ensures ok <==> !(em.tagsForbidden && AnyEntryHasTag(entries))
      ensures ok ==> out == old(out) + Written(Map(entries), o)
      decreases entries, 3
    {
      hide HasTag, Encodable, EncodableEntry, Written, KVs, PairImages, WrittenEntry;
      EntriesOf(entries, o);
      WrittenMap(entries, o);
      if |entries| == 0 {
        WriteByte(5 * 32);
        assert HeadBytes(Shortest(5, 0)) == [5 * 32];
        NoPairs(o);
        return true;
      }
      if em.order != AsIterated {
        ok := EncodeCanonical(entries, em, o);
        return;
      }
      JoinedIsWritten(entries, o);
      EncodeHead(5, |entries|);
      ok := EncodePairs(entries, em, o);
    }

    lemma NoPairs(o: Options)
      ensures AllPairsShaped(Arranged(PairImages([], o), o.order)) && JoinedPairs(KVs(Arranged(PairImages([], o), o.order))) == []
    {
    }

    lemma EntriesOf(entries: seq<(Value, Value)>, o: Options)
      requires Encodable(Map(entries), o)
      ensures AllEncodableEntries(entries, o) && |entries| <= MAX_INT
      ensures o.order != AsIterated ==> DistinctKeys(PairImages(entries, o), KeyBytes)
    {
    }

    /** Appends the pairs in the order of iteration. */
    method EncodePairs(entries: seq<(Value, Value)>, em: EncMode, ghost o: Options) returns (ok: bool)
      requires AllEncodableEntries(entries, o) && o.order == em.order
      modifies this
      ensures ok <==> !(em.tagsForbidden && AnyEntryHasTag(entries))
      ensures ok ==> out == old(out) + WrittenPairs(entries, o)
      decreases entries, 1
    {
      hide EntryHasTag, EncodableEntry, WrittenEntry;
      ghost var start := out;
      var i := 0;
      assert entries[0..] == entries;
      while i < |entries|
        invariant 0 <= i <= |entries| && AllEncodableEntries(entries[i..], o)
        invariant out + WrittenPairs(entries[i..], o) == start + WrittenPairs(entries, o)
        invariant em.tagsForbidden ==> AnyEntryHasTag(entries[i..]) == AnyEntryHasTag(entries)
      {
        assert entries[i..][0] == entries[i] && entries[i..][1..] == entries[i + 1..];
        Associate(out, WrittenEntry(entries[i], o).keyValue, WrittenPairs(entries[i + 1..], o));
        var written, _ := EncodePair(entries[i], em, o);
        if !written { return false; }
        i := i + 1;
      }
      return true;
    }

    /** Serializes the pairs into a buffer of their own, with the lengths of each. */
    static method CollectPairs(entries: seq<(Value, Value)>, em: EncMode, ghost o: Options) returns (ok: bool, b: seq<byte>, lens: seq<(nat, nat)>)
      requires AllEncodableEntries(entries, o) && o.order == em.order
      ensures ok <==> !(em.tagsForbidden && AnyEntryHasTag(entries))
      ensures ok ==> b == WrittenPairs(entries, o) && |lens| == |entries|
      ensures ok ==> forall k {:trigger lens[k]} :: 0 <= k < |entries| ==> IsPairLength(lens[k], entries[k], o)
      decreases entries, 1
    {
      hide EntryHasTag, EncodableEntry, WrittenEntry;
      var kve := new Encoder();
      b, lens := [], [];
      var i := 0;
      assert entries[0..] == entries;
      while i < |entries|
        invariant 0 <= i <= |entries| && AllEncodableEntries(entries[i..], o) && |lens| == i
        invariant kve.out + WrittenPairs(entries[i..], o) == WrittenPairs(entries, o)
        invariant em.tagsForbidden ==> AnyEntryHasTag(entries[i..]) == AnyEntryHasTag(entries)
        invariant forall k {:trigger lens[k]} :: 0 <= k < i ==> IsPairLength(lens[k], entries[k], o)
      {
        assert entries[i..][0] == entries[i] && entries[i..][1..] == entries[i + 1..];
        var off := |kve.out|;
        Associate(kve.out, WrittenEntry(entries[i], o).keyValue, WrittenPairs(entries[i + 1..], o));
        var n1;
        ok, n1 := kve.EncodePair(entries[i], em, o);
        if !ok { return; }
        var n2 := |kve.out| - off;
        lens := lens + [(n1, n2)];
        i := i + 1;
      }
      return true, kve.out, lens;
    }

    /** Writes the pairs in canonical order, whatever the order of iteration. */
    method EncodeCanonical(entries: seq<(Value, Value)>, em: EncMode, ghost o: Options) returns (ok: bool)
      requires Encodable(Map(entries), o) && o.order == em.order && em.order != AsIterated
      modifies this
      ensures ok <==> !(em.tagsForbidden && AnyEntryHasTag(entries))
      ensures ok ==> out == old(out) + Written(Map(entries), o)
      decreases entries, 2
    {
      hide HasTag, Encodable, EncodableEntry, Written, KVs, PairImages, WrittenEntry, Arranged, PairShaped, KeyLeq;
      EntriesOf(entries, o);
      WrittenMap(entries, o);
      var b, lens;
      ok, b, lens := CollectPairs(entries, em, o);
      if !ok { return; }
      var kvs := CutPairs(b, lens, entries, o);
      ghost var unsorted := kvs[..];
      var sorter := new Sorter(kvs, em.order);
      sorter.Sort();
      ghost var sorted := kvs[..];
      SortingIsCanonical(PairImages(entries, o), em.order, sorted);
      EncodeHead(5, kvs.Length);
      ghost var start := out;
      var i := 0;
      assert sorted[0..] == sorted;
      while i < kvs.Length
        invariant 0 <= i <= kvs.Length && kvs[..] == sorted && out + JoinedPairs(sorted[i..]) == start + JoinedPairs(sorted)
      {
        assert sorted[i..][0] == kvs[i] && sorted[i..][1..] == sorted[i + 1..];
        Associate(out, kvs[i].keyValue, JoinedPairs(sorted[i + 1..]));
        Write(kvs[i].keyValue);
        i := i + 1;
      }
      assert sorted[i..] == [] && out + [] == out;
      Associate(old(out), HeadBytes(Shortest(5, |entries|)), JoinedPairs(sorted));
    }

    /** Appends a key and a value; `n1` is the length of the key. */
    method EncodePair(e: (Value, Value), em: EncMode, ghost o: Options) returns (ok: bool, n1: nat)
      requires EncodableEntry(e, o) && o.order == em.order
      modifies this
      ensures ok <==> !(em.tagsForbidden && EntryHasTag(e))
      ensures ok ==> out == old(out) + WrittenEntry(e, o).keyValue && n1 == |WrittenEntry(e, o).key|
      decreases e, 0
    {
      hide ImageOf, HasTag, Encodable, WellFormed, AllWritable, AllShortest, ItemBytes;
      var start := |out|;
      n1 := 0;
      ok := Encode(e.0, em, o);
      if !ok { return; }
      n1 := |out| - start;
      ok := Encode(e.1, em, o);
    }
  }
}
