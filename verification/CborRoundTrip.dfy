/** What the encoder writes is accepted by the decoder and read back as the value it came from. */
module CborRoundTrip {
  import opened CborItems
  import opened CborScan
  import opened CborValues
  import opened CborBytes
  import opened CborOrder
  import opened CborEncode
  import opened CborSameValue
  import opened CborCanonical
  import opened CborKeyOrder
  import opened CborDecoder
  import opened CborEncoder
  import opened Wrappers

  predicate IsByteValue(v: Value) {
    v.Bytes? || v.ByteString?
  }

  /** Keys that a Go map can hold when they are read back; byte strings must be wrapped, which they are not inside a tag. */
  predicate IsKey(k: Value, o: Options) {
    match k
    case Null => true
    case Bool(_) => true
    case Uint(_) => true
    case Int(_) => true
    case Text(_) => true
    case Bytes(_) => o.wrapKeys
    case ByteString(_) => o.wrapKeys
    case Tag(_, content) => !IsByteValue(content) && IsKey(content, o)
    case _ => false
  }

  /**
   * Values that the decoder reads back: valid text, small enough integers, keys that a map can hold
   * and that stay distinct, and no tags that it treats specially, but for those written as null.
   */
  ghost predicate Plain(v: Value, o: Options, m: Mode) {
    match v
    case Uint(n) => o.signedInts ==> n <= MAX_INT
    case Text(s) => m.validUtf8(s)
    case Array(vs) => AllPlain(vs, o, m)
    case Map(entries) => AllPlainEntries(entries, o, m) && DistinctKeys(PairImages(entries, o), KeyBytes)
    case Tag(num, content) => (num == 0 && content == Null) || (num > 3 && num != SELF_DESCRIBED && Plain(content, o, m))
    case _ => true
  }

  ghost predicate AllPlain(vs: seq<Value>, o: Options, m: Mode) {
    vs == [] || (Plain(vs[0], o, m) && AllPlain(vs[1..], o, m))
  }

  ghost predicate AllPlainEntries(entries: seq<(Value, Value)>, o: Options, m: Mode) {
    entries == [] || (PlainEntry(entries[0], o, m) && AllPlainEntries(entries[1..], o, m))
  }

  ghost predicate PlainEntry(e: (Value, Value), o: Options, m: Mode) {
    IsKey(e.0, o) && Plain(e.0, o, m) && Plain(e.1, o, m)
  }

  /** The tree means the value. */
  ghost predicate IsRead(image: Image, m: Mode) {
    && (IsTag(image.it) ==> image.it.h.val != SELF_DESCRIBED)
    && Interpret(image.it, m) == Parsed(image.back, None)
  }

  /** The tree of a key that is read back. */
  function KeyTree(k: Value, o: Options): Item {
    ImageOf(k, o).it
  }

  ghost predicate IsKeyImage(image: Image, o: Options) {
    var k := KeyBack(image.back, o);
    IsKey(k, o) && !k.Bytes? && image.it == KeyTree(k, o)
  }

  ghost predicate IsPairRead(p: (Image, Image), o: Options, m: Mode) {
    IsRead(p.0, m) && IsRead(p.1, m) && IsKeyImage(p.0, o)
  }

  lemma KeyIsImage(k: Value, o: Options, m: Mode)
    requires Encodable(k, o) && Plain(k, o, m) && IsKey(k, o)
    ensures IsKeyImage(ImageOf(k, o), o)
  {
    PlainSettles(k, o, m);
    ReadBackIsSettled(k, o);
    KeyBackImage(ImageOf(k, o).back, o);
    BackIsKey(k, o);
  }

  lemma {:induction false} BackIsKey(k: Value, o: Options)
    requires Encodable(k, o) && IsKey(k, o)
    ensures IsKey(ImageOf(k, o).back, o)
    ensures IsByteValue(ImageOf(k, o).back) ==> IsByteValue(k) && ImageOf(k, o).back.Bytes?
  {
    if k.Tag? { BackIsKey(k.content, o); }
  }

  /** Keys are the same if they are equal. */
  lemma {:induction false} SameKeyIsEqual(a: Value, b: Value, o: Options, m: Mode)
    requires IsKey(a, o) && IsKey(b, o)
    ensures SameKey(a, b, m) <==> a == b
  {
    if a.Tag? && b.Tag? { SameKeyIsEqual(a.content, b.content, o, m); }
  }

  lemma {:induction false} KeyIsHashable(k: Value, o: Options)
    requires IsKey(k, o) && !k.Bytes?
    ensures Hashable(k)
  {
    if k.Tag? { KeyIsHashable(k.content, o); }
  }

  lemma InterpOfRead(image: Image, strip: bool, m: Mode)
    requires IsRead(image, m)
    ensures Interp(image.it, strip, m) == Parsed(image.back, None)
  {
    hide Interpret;
  }

  lemma {:induction false} LeafRead(v: Value, o: Options, m: Mode)
    requires Encodable(v, o) && Plain(v, o, m) && !v.Array? && !v.Map? && !v.Tag? && o.signedInts == m.signedInts
    ensures IsRead(ImageOf(v, o), m)
  {
  }

  /** Encoding and decoding give the value back, in the decoder's default types. */
  lemma {:induction false} RoundTrip(v: Value, o: Options, m: Mode)
    requires Encodable(v, o) && Plain(v, o, m) && o.signedInts == m.signedInts && o.wrapKeys == m.wrapKeys
    ensures IsRead(ImageOf(v, o), m)
    decreases v, 1
  {
    hide IsRead, IsPairRead, Sorted, DistinctKeys, IsKeyImage;
    match v
    case Array(vs) =>
      RoundTripAll(vs, o, m);
      ArrayRead(ImagesOf(vs, o), m);
    case Map(entries) =>
      var pairs := PairImages(entries, o);
      RoundTripEntries(entries, o, m);
      ArrangedRead(pairs, o, m);
      MapRead(Arranged(pairs, o.order), o, m);
    case Tag(num, content) =>
      if num == 0 {
        LeafRead(Null, o, m);
      } else {
        RoundTrip(content, o, m);
        TagRead(num, ImageOf(content, o), m);
      }
    case _ => LeafRead(v, o, m);
  }

  lemma ArrayRead(images: seq<Image>, m: Mode)
    requires forall i {:trigger images[i]} :: 0 <= i < |images| ==> IsRead(images[i], m)
    ensures IsRead(Image(Node(Shortest(4, |images|), Chain(images)), Array(Backs(images))), m)
  {
    hide IsRead, Interp, Interpret, InterpArray;
    ChainRead(images, [], m);
    assert [] + Backs(images) == Backs(images);
    NodeRead(4, |images|, Chain(images), Array(Backs(images)), m);
  }

  lemma NodeRead(major: nat, n: nat, items: Items, back: Value, m: Mode)
    requires (major == 4 && InterpArray(items, [], None, m) == Parsed(back, None))
      || (major == 5 && InterpMap(items, 0, [], None, m) == Parsed(back, None))
    ensures IsRead(Image(Node(Shortest(major, n), items), back), m)
  {
    hide InterpArray, InterpMap;
  }

  lemma MapRead(pairs: seq<(Image, Image)>, o: Options, m: Mode)
    requires o.wrapKeys == m.wrapKeys && DistinctKeys(pairs, KeyBytes)
    requires forall i {:trigger pairs[i]} :: 0 <= i < |pairs| ==> IsPairRead(pairs[i], o, m)
    ensures IsRead(Image(Node(Shortest(5, |pairs|), PairChain(pairs)), Map(PairBacks(pairs, o))), m)
  {
    hide IsPairRead, IsRead, Interp, Interpret, InterpMap, KeyBytes;
    PairChainRead(pairs, 0, [], o, m);
    assert [] + PairBacks(pairs, o) == PairBacks(pairs, o);
    NodeRead(5, |pairs|, PairChain(pairs), Map(PairBacks(pairs, o)), m);
  }

  lemma TagRead(num: nat, content: Image, m: Mode)
    requires IsRead(content, m) && 3 < num && num != SELF_DESCRIBED
    ensures IsRead(Image(Node(Shortest(6, num), Cons(content.it, Nil)), Tag(num, content.back)), m)
  {
    InterpOfRead(content, false, m);
    assert InterpTag(num, content.it, m) == Parsed(Tag(num, content.back), None);
  }

  lemma {:induction false} RoundTripAll(vs: seq<Value>, o: Options, m: Mode)
    requires AllEncodable(vs, o) && AllPlain(vs, o, m) && o.signedInts == m.signedInts && o.wrapKeys == m.wrapKeys
    ensures forall i {:trigger ImagesOf(vs, o)[i]} :: 0 <= i < |vs| ==> IsRead(ImagesOf(vs, o)[i], m)
    decreases vs, 0
  {
    hide IsRead, Plain, Encodable, ImageOf;
    if vs != [] {
      RoundTrip(vs[0], o, m);
      RoundTripAll(vs[1..], o, m);
    }
  }

  lemma {:induction false} RoundTripEntries(entries: seq<(Value, Value)>, o: Options, m: Mode)
    requires AllEncodableEntries(entries, o) && AllPlainEntries(entries, o, m) && o.signedInts == m.signedInts && o.wrapKeys == m.wrapKeys
    ensures forall i {:trigger PairImages(entries, o)[i]} :: 0 <= i < |entries| ==> IsPairRead(PairImages(entries, o)[i], o, m)
    decreases entries, 0
  {
    hide IsRead, Plain, Encodable, ImageOf, IsKeyImage;
    if entries != [] {
      RoundTripEntry(entries[0], o, m);
      RoundTripEntries(entries[1..], o, m);
    }
  }

  lemma {:induction false} RoundTripEntry(e: (Value, Value), o: Options, m: Mode)
    requires EncodableEntry(e, o) && PlainEntry(e, o, m) && o.signedInts == m.signedInts && o.wrapKeys == m.wrapKeys
    ensures IsPairRead(PairImage(e, o), o, m)
    decreases e, 0
  {
    hide IsRead, Plain, Encodable, ImageOf, IsKeyImage;
    RoundTrip(e.0, o, m);
    RoundTrip(e.1, o, m);
    KeyIsImage(e.0, o, m);
  }

  lemma {:induction false} ChainRead(images: seq<Image>, vs: seq<Value>, m: Mode)
    requires forall i {:trigger images[i]} :: 0 <= i < |images| ==> IsRead(images[i], m)
    ensures InterpArray(Chain(images), vs, None, m) == Parsed(Array(vs + Backs(images)), None)
  {
    hide Interp, Interpret;
    if images == [] {
      assert vs + Backs(images) == vs;
    } else {
      InterpOfRead(images[0], true, m);
      ChainRead(images[1..], vs + [images[0].back], m);
      assert vs + Backs(images) == (vs + [images[0].back]) + Backs(images[1..]);
    }
  }

  /** Sorting keeps what holds of all pairs. */
  lemma ArrangedRead(pairs: seq<(Image, Image)>, o: Options, m: Mode)
    requires forall i {:trigger pairs[i]} :: 0 <= i < |pairs| ==> IsPairRead(pairs[i], o, m)
    requires DistinctKeys(pairs, KeyBytes)
    ensures |Arranged(pairs, o.order)| == |pairs| && DistinctKeys(Arranged(pairs, o.order), KeyBytes)
    ensures forall i {:trigger Arranged(pairs, o.order)[i]} :: 0 <= i < |pairs| ==> IsPairRead(Arranged(pairs, o.order)[i], o, m)
  {
    hide IsPairRead, KeyLeq, KeyBytes, Sorted;
    if o.order != AsIterated {
      SortedIsSorted(pairs, KeyBytes, o.order);
      var r := Sorted(pairs, KeyBytes, o.order);
      forall i | 0 <= i < |r| ensures IsPairRead(r[i], o, m) {
        assert r[i] in multiset(r);
        assert r[i] in pairs;
      }
      DistinctPermuted(pairs, r, KeyBytes);
    }
  }

  lemma {:induction false} PutNew(entries: seq<(Value, Value)>, k: Value, v: Value, m: Mode)
    requires forall e :: e in entries ==> !SameKey(e.0, k, m)
    ensures Put(entries, k, v, m) == entries + [(k, v)]
  {
    hide SameKey;
    if entries != [] {
      assert entries[0] in entries;
      PutNew(entries[1..], k, v, m);
      assert entries == [entries[0]] + entries[1..];
    }
  }

  /** The entries read so far have other keys than the pairs to come. */
  ghost predicate NewKeys(done: seq<(Value, Value)>, pairs: seq<(Image, Image)>, o: Options) {
    forall e, i {:trigger e in done, pairs[i]} :: e in done && 0 <= i < |pairs| ==> IsKey(e.0, o) && KeyTree(e.0, o) != pairs[i].0.it
  }

  lemma {:induction false} PairChainRead(pairs: seq<(Image, Image)>, i: nat, done: seq<(Value, Value)>, o: Options, m: Mode)
    requires o.wrapKeys == m.wrapKeys
    requires forall i {:trigger pairs[i]} :: 0 <= i < |pairs| ==> IsPairRead(pairs[i], o, m)
    requires DistinctKeys(pairs, KeyBytes) && NewKeys(done, pairs, o)
    ensures InterpMap(PairChain(pairs), i, done, None, m) == Parsed(Map(done + PairBacks(pairs, o)), None)
    decreases |pairs|
  {
    hide Interp, Interpret, KeyTree, KeyBytes, Put, SameKey, IsKey, DistinctKeys, NewKeys, InterpMap;
    if pairs == [] {
      assert done + PairBacks(pairs, o) == done;
      EmptyMap(i, done, m);
    } else {
      var p, rest := pairs[0], pairs[1..];
      var next := done + [(KeyBack(p.0.back, o), p.1.back)];
      InterpOfRead(p.0, true, m);
      InterpOfRead(p.1, true, m);
      NewKeysStep(pairs, done, o, m);
      MapStep(PairChain(pairs), p, i, done, o, m);
      PairChainRead(rest, i + 1, next, o, m);
      assert done + PairBacks(pairs, o) == next + PairBacks(rest, o);
    }
  }

  lemma EmptyMap(i: nat, done: seq<(Value, Value)>, m: Mode)
    ensures InterpMap(Nil, i, done, None, m) == Parsed(Map(done), None)
  {
  }

  lemma MapStep(items: Items, p: (Image, Image), i: nat, done: seq<(Value, Value)>, o: Options, m: Mode)
    requires o.wrapKeys == m.wrapKeys && items.Cons? && items.tail.Cons? && items.head == p.0.it && items.tail.head == p.1.it
    requires Interp(p.0.it, true, m) == Parsed(p.0.back, None) && Interp(p.1.it, true, m) == Parsed(p.1.back, None)
    requires IsKey(KeyBack(p.0.back, o), o) && !KeyBack(p.0.back, o).Bytes?
    requires Put(done, KeyBack(p.0.back, o), p.1.back, m) == done + [(KeyBack(p.0.back, o), p.1.back)]
    ensures InterpMap(items, i, done, None, m)
         == InterpMap(items.tail.tail, i + 1, done + [(KeyBack(p.0.back, o), p.1.back)], None, m)
  {
    hide Interp, Put;
    KeyIsHashable(KeyBack(p.0.back, o), o);
  }

  lemma NewKeysStep(pairs: seq<(Image, Image)>, done: seq<(Value, Value)>, o: Options, m: Mode)
    requires pairs != [] && IsPairRead(pairs[0], o, m) && DistinctKeys(pairs, KeyBytes) && NewKeys(done, pairs, o)
    ensures var next := (KeyBack(pairs[0].0.back, o), pairs[0].1.back);
      && Put(done, next.0, next.1, m) == done + [next] && IsKey(next.0, o) && !next.0.Bytes?
      && NewKeys(done + [next], pairs[1..], o) && DistinctKeys(pairs[1..], KeyBytes)
  {
    hide Interpret, KeyTree;
    var next := (KeyBack(pairs[0].0.back, o), pairs[0].1.back);
    forall e | e in done ensures !SameKey(e.0, next.0, m) {
      assert KeyTree(e.0, o) != pairs[0].0.it;
      SameKeyIsEqual(e.0, next.0, o, m);
    }
    PutNew(done, next.0, next.1, m);
    var later := pairs[1..];
    forall e, i {:trigger e in done + [next], later[i]} | e in done + [next] && 0 <= i < |later|
      ensures IsKey(e.0, o) && KeyTree(e.0, o) != later[i].0.it
    {
      assert later[i] == pairs[i + 1];
      assert KeyBytes(pairs[0]) != KeyBytes(pairs[i + 1]);
    }
    forall i, j | 0 <= i < j < |later| ensures KeyBytes(later[i]) != KeyBytes(later[j]) {
      assert later[i] == pairs[i + 1] && later[j] == pairs[j + 1];
    }
  }

  lemma {:induction false} PlainSettles(v: Value, o: Options, m: Mode)
    requires Plain(v, o, m)
    ensures Settles(v)
    decreases v, 1
  {
    hide DistinctKeys, PairImages;
    match v
    case Array(vs) => AllPlainSettle(vs, o, m);
    case Map(entries) => PlainEntriesSettle(entries, o, m);
    case Tag(num, content) => if num != 0 { PlainSettles(content, o, m); }
    case _ =>
  }

  lemma {:induction false} AllPlainSettle(vs: seq<Value>, o: Options, m: Mode)
    requires AllPlain(vs, o, m)
    ensures AllSettle(vs)
    decreases vs, 0
  {
    if vs != [] {
      PlainSettles(vs[0], o, m);
      AllPlainSettle(vs[1..], o, m);
    }
  }

  lemma {:induction false} PlainEntriesSettle(entries: seq<(Value, Value)>, o: Options, m: Mode)
    requires AllPlainEntries(entries, o, m)
    ensures AllEntriesSettle(entries)
    decreases entries, 1
  {
    hide Plain, Settles;
    if entries != [] {
      PlainEntrySettles(entries[0], o, m);
      PlainEntriesSettle(entries[1..], o, m);
    }
  }

  lemma {:induction false} PlainEntrySettles(e: (Value, Value), o: Options, m: Mode)
    requires PlainEntry(e, o, m)
    ensures EntrySettles(e)
    decreases e, 0
  {
    hide Plain, Settles;
    PlainSettles(e.0, o, m);
    PlainSettles(e.1, o, m);
  }

  // What is read back can be written again.

  lemma {:induction false} BackEncodable(v: Value, o: Options, m: Mode)
    requires Encodable(v, o) && Plain(v, o, m)
    ensures Encodable(ImageOf(v, o).back, o)
    decreases v, 1
  {
    hide Arranged, DistinctKeys, AllEncodable, AllEncodableEntries;
    match v
    case Array(vs) => BacksEncodable(vs, o, m);
    case Map(entries) => MapBackEncodable(entries, o, m);
    case Tag(num, content) => if num != 0 { BackEncodable(content, o, m); }
    case _ =>
  }

  lemma {:induction false} BacksEncodable(vs: seq<Value>, o: Options, m: Mode)
    requires AllEncodable(vs, o) && AllPlain(vs, o, m)
    ensures AllEncodable(Backs(ImagesOf(vs, o)), o)
    decreases vs, 0
  {
    hide ImageOf, Encodable, Plain;
    if vs != [] {
      BackEncodable(vs[0], o, m);
      BacksEncodable(vs[1..], o, m);
      assert ImagesOf(vs, o)[1..] == ImagesOf(vs[1..], o);
      assert Backs(ImagesOf(vs, o))[1..] == Backs(ImagesOf(vs[1..], o));
    }
  }

  ghost predicate BackPairEncodable(p: (Image, Image), o: Options) {
    EncodableEntry(PairBack(p, o), o)
  }

  lemma {:induction false} MapBackEncodable(entries: seq<(Value, Value)>, o: Options, m: Mode)
    requires AllEncodableEntries(entries, o) && AllPlainEntries(entries, o, m) && DistinctKeys(PairImages(entries, o), KeyBytes)
    ensures var backs := PairBacks(Arranged(PairImages(entries, o), o.order), o);
      |backs| == |entries| && AllEncodableEntries(backs, o) && DistinctKeys(PairImages(backs, o), KeyBytes)
    decreases entries, 2
  {
    hide DistinctKeys, AllEncodableEntries, AllPlainEntries, BackPairEncodable, SettledPair, PairImages, PairBacks, Arranged, KeyBytes, AllEntriesSettle;
    var pairs := PairImages(entries, o);
    var arranged := Arranged(pairs, o.order);
    PlainEntriesSettle(entries, o, m);
    AllPairsAreSettled(entries, o);
    ArrangedIsSettled(pairs, o);
    ArrangedIsPermutation(pairs, o.order);
    DistinctPermuted(pairs, arranged, KeyBytes);
    PairBacksEncodable(entries, o, m);
    forall p | p in arranged ensures BackPairEncodable(p, o) {
      assert p in multiset(arranged);
      assert p in pairs;
    }
    AllBackPairsEncodable(arranged, o);
  }

  lemma {:induction false} PairBacksEncodable(entries: seq<(Value, Value)>, o: Options, m: Mode)
    requires AllEncodableEntries(entries, o) && AllPlainEntries(entries, o, m)
    ensures forall p :: p in PairImages(entries, o) ==> BackPairEncodable(p, o)
    decreases entries, 1
  {
    hide EncodableEntry, PlainEntry, PairImage, BackPairEncodable;
    if entries != [] {
      PairBackEncodable(entries[0], o, m);
      PairBacksEncodable(entries[1..], o, m);
    }
  }

  lemma {:induction false} PairBackEncodable(e: (Value, Value), o: Options, m: Mode)
    requires EncodableEntry(e, o) && PlainEntry(e, o, m)
    ensures BackPairEncodable(PairImage(e, o), o)
    decreases e, 0
  {
    hide ImageOf, Plain;
    BackEncodable(e.0, o, m);
    BackEncodable(e.1, o, m);
    KeyBackEncodable(ImageOf(e.0, o).back, o);
  }

  lemma KeyBackEncodable(w: Value, o: Options)
    requires Encodable(w, o)
    ensures Encodable(KeyBack(w, o), o)
  {
  }

  lemma {:induction false} AllBackPairsEncodable(pairs: seq<(Image, Image)>, o: Options)
    requires forall p :: p in pairs ==> BackPairEncodable(p, o)
    ensures AllEncodableEntries(PairBacks(pairs, o), o)
  {
    hide EncodableEntry, PairBack;
    if pairs != [] {
      assert pairs == [pairs[0]] + pairs[1..];
      assert BackPairEncodable(pairs[0], o);
      AllBackPairsEncodable(pairs[1..], o);
      assert PairBacks(pairs, o)[1..] == PairBacks(pairs[1..], o);
    }
  }

  // The decoder on what the encoder writes.

  /** A plain value, with matching options on both sides, whose tree is within the decoder's limits. */
  ghost predicate Accepted(v: Value, o: Options, m: Mode) {
    && Encodable(v, o) && Plain(v, o, m) && o.signedInts == m.signedInts && o.wrapKeys == m.wrapKeys
    && Fits(ImageOf(v, o).it, m.lim) && Nest(ImageOf(v, o).it) <= m.lim.maxNestedLevels
  }

  lemma {:induction false} MeaningOfWritten(v: Value, o: Options, m: Mode)
    requires Accepted(v, o, m)
    ensures var s := Written(v, o);
      && Scan(s, 0, 0, m.lim) == Done(|s|, Nest(ImageOf(v, o).it)) && HasItem(s, 0)
      && Meaning(s, 0, m) == Parsed(ImageOf(v, o).back, None)
  {
    hide ImageOf, Scan, Spells, WellFormed, AllWritable, AllShortest, ItemBytes, Fits, Nest, Size, Interpret, Encodable, Plain;
    var image, s := ImageOf(v, o), Written(v, o);
    ImageShaped(v, o);
    RoundTrip(v, o, m);
    assert s[0..0 + Size(image.it)] == s;
    BytesSpell(s, 0, image.it);
    ScanOfItem(s, 0, 0, m.lim, image.it);
    TheItemAt(s, 0, image.it);
    InterpOfRead(image, true, m);
  }

  /**
   * The bytes of a value are accepted as one item that uses all of them, and decode without an error
   * to the same value exactly if none of its tags lacks both number and content.
   */
  lemma DecodeOfEncode(v: Value, o: Options, m: Mode)
    requires Accepted(v, o, m)
    ensures var s := Written(v, o);
      && Scan(s, 0, 0, m.lim) == Done(|s|, Nest(ImageOf(v, o).it)) && HasItem(s, 0)
      && Meaning(s, 0, m).err == None
      && (SameValue(v, Meaning(s, 0, m).v) <==> Initialized(v))
  {
    hide ImageOf, Scan, Spells, WellFormed, ItemBytes, Fits, Nest, Size, Interpret, Encodable, Plain, Meaning, HasItem, SameValue, Initialized;
    MeaningOfWritten(v, o, m);
    ReadsBackSameValue(v, o);
  }

  /** What was decoded is written again as the same bytes. */
  lemma EncodeOfDecode(v: Value, o: Options, m: Mode)
    requires Accepted(v, o, m)
    ensures HasItem(Written(v, o), 0)
    ensures var w := Meaning(Written(v, o), 0, m).v; Encodable(w, o) && Written(w, o) == Written(v, o)
  {
    hide ImageOf, Scan, Spells, WellFormed, ItemBytes, Fits, Nest, Size, Interpret, Encodable, Plain, Meaning, HasItem;
    MeaningOfWritten(v, o, m);
    PlainSettles(v, o, m);
    ReadBackIsSettled(v, o);
    BackEncodable(v, o, m);
  }

  /** What was decoded is equal to the value, Go types and order of entries included, exactly if that has the default types and order. */
  lemma DecodedIsEqual(v: Value, o: Options, m: Mode)
    requires Accepted(v, o, m)
    ensures HasItem(Written(v, o), 0)
    ensures Meaning(Written(v, o), 0, m).v == v <==> InDefaultTypes(v, o)
  {
    hide ImageOf, Scan, Spells, WellFormed, ItemBytes, Fits, Nest, Size, Interpret, Encodable, Plain, Meaning, HasItem, InDefaultTypes;
    MeaningOfWritten(v, o, m);
    PlainSettles(v, o, m);
    BackIsSame(v, o);
  }

  lemma NullFits(lim: Limits)
    ensures Fits(NULL_IMAGE.it, lim) && Nest(NULL_IMAGE.it) == 0
  {
  }

  /** A tag without number and content is decoded as null, which is another value. */
  lemma TagIsLost(o: Options, m: Mode)
    requires o.signedInts == m.signedInts && o.wrapKeys == m.wrapKeys
    ensures var v := Tag(0, Null);
      && Accepted(v, o, m) && Written(v, o) == [0xf6] && HasItem([0xf6], 0)
      && Meaning([0xf6], 0, m) == Parsed(Null, None) && !SameValue(v, Null)
  {
    var v := Tag(0, Null);
    NullFits(m.lim);
    assert ImageOf(v, o).it == NULL_IMAGE.it;
    WrittenEmptyTag(o);
    MeaningOfWritten(v, o, m);
  }

  // Canonical maps.

  /** In a canonical mode the same value is written as the same bytes, however its maps are iterated, at any depth. */
  lemma IterationOrderIsIrrelevant(v: Value, w: Value, o: Options)
    requires SameValue(v, w) && o.order != AsIterated && Encodable(v, o) && Encodable(w, o)
    ensures Written(v, o) == Written(w, o)
  {
    hide SameValue, Encodable, ImageOf, ItemBytes;
    SameImage(v, w, o);
  }

  /** In particular the bytes of a map do not depend on the order of its entries. */
  lemma PermutedMap(a: seq<(Value, Value)>, b: seq<(Value, Value)>, o: Options)
    requires multiset(a) == multiset(b) && o.order != AsIterated && Encodable(Map(a), o) && Encodable(Map(b), o)
    ensures Written(Map(a), o) == Written(Map(b), o)
  {
    hide PairImages, Arranged, AllEncodableEntries, Shaped, ItemBytes;
    assert |a| == |multiset(a)| == |multiset(b)| == |b|;
    PairImagesPermuted(a, b, o);
    ArrangedPermuted(PairImages(a, o), PairImages(b, o), o.order);
  }

  /** And different values are written as different bytes: canonical bytes are equal exactly if the values are the same. */
  lemma CanonicalBytesDecide(v: Value, w: Value, o: Options, m: Mode)
    requires Encodable(v, o) && Plain(v, o, m) && Initialized(v) && Encodable(w, o) && Plain(w, o, m) && Initialized(w)
    requires o.order != AsIterated && o.signedInts == m.signedInts && o.wrapKeys == m.wrapKeys
    ensures Written(v, o) == Written(w, o) <==> SameValue(v, w)
  {
    hide SameValue, Encodable, ImageOf, ItemBytes, Plain, Initialized, Interpret, WellFormed, AllWritable, AllShortest, Spells, Size;
    if SameValue(v, w) { SameImage(v, w, o); }
    if Written(v, o) == Written(w, o) {
      var a, b := ImageOf(v, o), ImageOf(w, o);
      ImageShaped(v, o);
      ImageShaped(w, o);
      SpelledByItself(a.it);
      SpelledByItself(b.it);
      UniqueItem(ItemBytes(a.it), 0, a.it, b.it);
      RoundTrip(v, o, m);
      RoundTrip(w, o, m);
      ImageDecides(v, w, o);
    }
  }

  lemma SpelledByItself(it: Item)
    requires Shaped(it)
    ensures Holds(ItemBytes(it), 0, it)
  {
    hide ItemBytes, WellFormed, AllWritable, AllShortest, Spells, Size;
    assert ItemBytes(it)[0..0 + Size(it)] == ItemBytes(it);
    BytesSpell(ItemBytes(it), 0, it);
  }

  /**
   * A canonical map holds every entry once, all heads are the shortest, and its keys strictly ascend:
   * shorter ones first and those of one length by number, or by the first byte that differs.
   */
  lemma CanonicalMap(entries: seq<(Value, Value)>, o: Options)
    requires Encodable(Map(entries), o) && o.order != AsIterated
    ensures var pairs := Arranged(PairImages(entries, o), o.order);
      && multiset(pairs) == multiset(PairImages(entries, o))
      && (forall i, j {:trigger pairs[i], pairs[j]} :: 0 <= i < j < |pairs| ==> InOrder(KeyBytes(pairs[i]), KeyBytes(pairs[j]), o.order))
      && AllPairsShaped(pairs)
      && Written(Map(entries), o) == HeadBytes(Shortest(5, |entries|)) + JoinedPairs(KVs(pairs))
  {
    WrittenMap(entries, o);
    hide PairImages, KeyBytes, KeyLeq, Sorted, AllEncodableEntries, Shaped, ItemBytes, KVs, InOrder;
    var pairs := Arranged(PairImages(entries, o), o.order);
    SortedIsSorted(PairImages(entries, o), KeyBytes, o.order);
    DistinctPermuted(PairImages(entries, o), pairs, KeyBytes);
    forall i, j {:trigger pairs[i], pairs[j]} | 0 <= i < j < |pairs|
      ensures InOrder(KeyBytes(pairs[i]), KeyBytes(pairs[j]), o.order)
    {
      KeysInOrder(KeyBytes(pairs[i]), KeyBytes(pairs[j]), o.order);
    }
  }

  /** The pair has an unsigned integer as its key. */
  ghost predicate HasUnsignedKey(p: (Image, Image)) {
    p.0.it.Atom? && p.0.it.h.val < 0x1_0000_0000_0000_0000 && p.0.it.h == Shortest(0, p.0.it.h.val)
  }

  lemma UnsignedImage(v: Value, o: Options)
    requires Encodable(v, o) && v.Uint?
    ensures ImageOf(v, o).it == Atom(Shortest(0, v.n)) && v.n < 0x1_0000_0000_0000_0000
  {
  }

  lemma {:induction false} UnsignedImages(entries: seq<(Value, Value)>, o: Options)
    requires AllEncodableEntries(entries, o) && forall e :: e in entries ==> e.0.Uint?
    ensures forall p :: p in PairImages(entries, o) ==> HasUnsignedKey(p)
  {
    if entries != [] {
      assert entries[0] in entries;
      UnsignedImage(entries[0].0, o);
      UnsignedImages(entries[1..], o);
    }
  }

  /** In both canonical orders unsigned integer keys stand in increasing order of their numbers. */
  lemma UnsignedKeysAscend(entries: seq<(Value, Value)>, o: Options)
    requires Encodable(Map(entries), o) && o.order != AsIterated && forall e :: e in entries ==> e.0.Uint?
    ensures var pairs := Arranged(PairImages(entries, o), o.order);
      && (forall p :: p in pairs ==> HasUnsignedKey(p))
      && forall i, j {:trigger pairs[i], pairs[j]} :: 0 <= i < j < |pairs| ==> pairs[i].0.it.h.val < pairs[j].0.it.h.val
  {
    UnsignedImages(entries, o);
    hide PairImages, KeyLeq, Sorted, AllEncodableEntries, HasUnsignedKey;
    var pairs := Arranged(PairImages(entries, o), o.order);
    SortedIsSorted(PairImages(entries, o), KeyBytes, o.order);
    DistinctPermuted(PairImages(entries, o), pairs, KeyBytes);
    forall p | p in pairs ensures HasUnsignedKey(p) {
      assert p in multiset(pairs);
      assert p in PairImages(entries, o);
    }
    forall i, j {:trigger pairs[i], pairs[j]} | 0 <= i < j < |pairs| ensures pairs[i].0.it.h.val < pairs[j].0.it.h.val {
      assert pairs[i] in pairs && pairs[j] in pairs;
      UnsignedPairs(pairs[i], pairs[j], o.order);
    }
  }

  lemma UnsignedPairs(p: (Image, Image), q: (Image, Image), order: Order)
    requires HasUnsignedKey(p) && HasUnsignedKey(q) && KeyLeq(KeyBytes(p), KeyBytes(q), order) && KeyBytes(p) != KeyBytes(q)
    ensures p.0.it.h.val < q.0.it.h.val
  {
    hide KeyLeq;
    var n, m := p.0.it.h.val, q.0.it.h.val;
    ShortestIsWritable(0, n);
    ShortestIsWritable(0, m);
    assert KeyBytes(p) == HeadBytes(Shortest(0, n)) && KeyBytes(q) == HeadBytes(Shortest(0, m));
    if m <= n {
      HeadsInOrder(m, n, order);
      KeyOrder(KeyBytes(p), KeyBytes(q), order);
    }
  }
}
