/** The encoder: shortest heads, and maps in canonical key order. */
module CborEncode {
  import opened MachineInts
  import opened CborItems
  import opened CborBytes
  import opened CborOrder
  import opened CborValues

  /** The shortest head for an argument. */
  function Shortest(major: nat, n: nat): Head {
    Head(major, if n <= 23 then n else if n <= 0xff then 24 else if n <= 0xffff then 25 else if n <= 0xffff_ffff then 26 else 27, n)
  }

  lemma ShortestIsWritable(major: nat, n: nat)
    requires major <= 7 && n < 0x1_0000_0000_0000_0000
    ensures IsWritable(Shortest(major, n))
  {
  }

  /** No head for the same argument is shorter. */
  lemma NoShorterHead(h: Head, major: nat, n: nat)
    requires IsWritable(h) && h.val == n && h.ai <= 27
    ensures HeadSize(Shortest(major, n).ai) <= HeadSize(h.ai)
  {
  }

  // What is written for a value, and what it is read back as.

  /** The tree that is written, and the value a decoder hands out for it. */
  datatype Image = Image(it: Item, back: Value)

  /** Encoding order, and the decoding options that choose among Go types. */
  datatype Options = Options(order: Order, signedInts: bool, wrapKeys: bool)

  function UintImage(n: nat, o: Options): Image {
    Image(Atom(Shortest(0, n)), if o.signedInts then Int(n) else Uint(n))
  }

  function ImageOf(v: Value, o: Options): Image {
    match v
    case Bool(b) => Image(Atom(Head(7, if b then 21 else 20, if b then 21 else 20)), v)
    case Uint(n) => UintImage(n, o)
    case Int(i) => if i >= 0 then UintImage(i, o) else Image(Atom(Shortest(1, -1 - i)), v)
    case Bytes(s) => Image(Str(Shortest(2, |s|), s), v)
    case ByteString(s) => Image(Str(Shortest(2, |s|), s), Bytes(s))
    case Text(s) => Image(Str(Shortest(3, |s|), s), v)
    case Array(vs) =>
      var images := ImagesOf(vs, o);
      Image(Node(Shortest(4, |vs|), Chain(images)), Array(Backs(images)))
    case Map(entries) =>
      var pairs := Arranged(PairImages(entries, o), o.order);
      Image(Node(Shortest(5, |entries|), PairChain(pairs)), Map(PairBacks(pairs, o)))
    case Tag(num, content) =>
      if num == 0 && content == Null then NULL_IMAGE else
      var image := ImageOf(content, o);
      Image(Node(Shortest(6, num), Cons(image.it, Nil)), Tag(num, image.back))
    case _ => NULL_IMAGE
  }

  const NULL_IMAGE := Image(Atom(Head(7, 22, 22)), Null)

  function ImagesOf(vs: seq<Value>, o: Options): (r: seq<Image>)
    ensures |r| == |vs|
  {
    if vs == [] then [] else [ImageOf(vs[0], o)] + ImagesOf(vs[1..], o)
  }

  function PairImages(entries: seq<(Value, Value)>, o: Options): (r: seq<(Image, Image)>)
    ensures |r| == |entries|
  {
    if entries == [] then [] else [PairImage(entries[0], o)] + PairImages(entries[1..], o)
  }

  function PairImage(entry: (Value, Value), o: Options): (Image, Image) {
    (ImageOf(entry.0, o), ImageOf(entry.1, o))
  }

  function Chain(images: seq<Image>): Items {
    if images == [] then Nil else Cons(images[0].it, Chain(images[1..]))
  }

  function PairChain(pairs: seq<(Image, Image)>): Items {
    if pairs == [] then Nil else Cons(pairs[0].0.it, Cons(pairs[0].1.it, PairChain(pairs[1..])))
  }

  function Backs(images: seq<Image>): (r: seq<Value>)
    ensures |r| == |images|
  {
    if images == [] then [] else [images[0].back] + Backs(images[1..])
  }

  function KeyBack(k: Value, o: Options): Value {
    if k.Bytes? && o.wrapKeys then ByteString(k.s) else k
  }

  function PairBack(pair: (Image, Image), o: Options): (Value, Value) {
    (KeyBack(pair.0.back, o), pair.1.back)
  }

  function PairBacks(pairs: seq<(Image, Image)>, o: Options): (r: seq<(Value, Value)>)
    ensures |r| == |pairs|
  {
    if pairs == [] then [] else [PairBack(pairs[0], o)] + PairBacks(pairs[1..], o)
  }

  /** The serialized key of a pair. */
  function KeyBytes(pair: (Image, Image)): seq<byte> {
    if AllWritable(pair.0.it) then ItemBytes(pair.0.it) else []
  }

  function Arranged(pairs: seq<(Image, Image)>, order: Order): seq<(Image, Image)> {
    if order == AsIterated then pairs else Sorted(pairs, KeyBytes, order)
  }

  /**
   * What the encoder takes: Go's integers, strings and collections, and tags. Floats, big integers
   * and times are not modelled. In a canonical mode the keys of a map must have distinct
   * serializations: the order of two equal ones is up to the sorting library.
   */
  ghost predicate Encodable(v: Value, o: Options) {
    match v
    case Null => true
    case Bool(_) => true
    case Uint(n) => n < 0x1_0000_0000_0000_0000
    case Int(i) => -MAX_INT - 1 <= i <= MAX_INT
    case Bytes(s) => |s| <= MAX_INT
    case ByteString(s) => |s| <= MAX_INT
    case Text(s) => |s| <= MAX_INT
    case Array(vs) => |vs| <= MAX_INT && AllEncodable(vs, o)
    case Map(entries) =>
      && |entries| <= MAX_INT && AllEncodableEntries(entries, o)
      && (o.order != AsIterated ==> DistinctKeys(PairImages(entries, o), KeyBytes))
    case Tag(num, content) => num < 0x1_0000_0000_0000_0000 && Encodable(content, o)
    case _ => false
  }

  ghost predicate AllEncodable(vs: seq<Value>, o: Options) {
    vs == [] || (Encodable(vs[0], o) && AllEncodable(vs[1..], o))
  }

  ghost predicate AllEncodableEntries(entries: seq<(Value, Value)>, o: Options) {
    entries == [] || (EncodableEntry(entries[0], o) && AllEncodableEntries(entries[1..], o))
  }

  ghost predicate EncodableEntry(e: (Value, Value), o: Options) {
    Encodable(e.0, o) && Encodable(e.1, o)
  }

  /** Every head but those of simple values is as short as it can be. */
  predicate AllShortest(it: Item) {
    (it.h.major == 7 || it.h == Shortest(it.h.major, it.h.val)) && (it.Node? ==> AllItemsShortest(it.items))
  }

  predicate AllItemsShortest(items: Items) {
    match items
    case Nil => true
    case Cons(it, rest) => AllShortest(it) && AllItemsShortest(rest)
  }

  predicate Shaped(it: Item) {
    WellFormed(it) && AllWritable(it) && AllShortest(it)
  }

  predicate AllShaped(items: Items) {
    WellFormedAll(items) && AllItemsWritable(items) && AllItemsShortest(items)
  }

  /** What is written is well-formed and has shortest heads. */
  lemma {:induction false} ImageShaped(v: Value, o: Options)
    requires Encodable(v, o)
    ensures Shaped(ImageOf(v, o).it)
    decreases v, 1
  {
    hide Shaped;
    match v
    case Array(vs) =>
      ImagesShaped(vs, o);
      ChainShaped(ImagesOf(vs, o));
      NodeShaped(4, |vs|, Chain(ImagesOf(vs, o)));
    case Map(entries) =>
      PairImagesShaped(entries, o);
      ArrangedShaped(PairImages(entries, o), o.order);
      PairChainShaped(Arranged(PairImages(entries, o), o.order));
      NodeShaped(5, |entries|, PairChain(Arranged(PairImages(entries, o), o.order)));
    case Tag(num, content) =>
      ImageShaped(content, o);
      ItemShaped(ImageOf(content, o).it);
      NodeShaped(6, num, Cons(ImageOf(content, o).it, Nil));
      LeafShaped(Null, o);
    case _ => LeafShaped(v, o);
  }

  lemma LeafShaped(v: Value, o: Options)
    requires Encodable(v, o) && !v.Array? && !v.Map? && !v.Tag?
    ensures Shaped(ImageOf(v, o).it)
  {
  }

  lemma ItemShaped(it: Item)
    requires Shaped(it)
    ensures AllShaped(Cons(it, Nil)) && Count(Cons(it, Nil)) == 1
  {
    hide WellFormed, AllWritable, AllShortest;
    assert WellFormedAll(Nil) && AllItemsWritable(Nil) && AllItemsShortest(Nil) && Count(Nil) == 0;
  }

  lemma NodeShaped(major: nat, n: nat, items: Items)
    requires AllShaped(items) && 4 <= major <= 6 && n < 0x1_0000_0000_0000_0000
    requires Count(items) == if major == 4 then n else if major == 5 then 2 * n else 1
    ensures Shaped(Node(Shortest(major, n), items))
  {
    hide WellFormedAll, AllItemsWritable, AllItemsShortest;
    ShortestIsWritable(major, n);
  }

  lemma {:induction false} ImagesShaped(vs: seq<Value>, o: Options)
    requires AllEncodable(vs, o)
    ensures forall i {:trigger ImagesOf(vs, o)[i]} :: 0 <= i < |vs| ==> Shaped(ImagesOf(vs, o)[i].it)
    decreases vs, 0
  {
    hide Shaped, Encodable, ImageOf;
    if vs != [] {
      ImageShaped(vs[0], o);
      ImagesShaped(vs[1..], o);
    }
  }

  predicate PairShaped(p: (Image, Image)) {
    Shaped(p.0.it) && Shaped(p.1.it)
  }

  /** Sorting keeps well-formed pairs. */
  lemma {:induction false} ArrangedShaped(pairs: seq<(Image, Image)>, order: Order)
    requires forall i {:trigger pairs[i]} :: 0 <= i < |pairs| ==> PairShaped(pairs[i])
    ensures |Arranged(pairs, order)| == |pairs|
    ensures forall i {:trigger Arranged(pairs, order)[i]} :: 0 <= i < |pairs| ==> PairShaped(Arranged(pairs, order)[i])
  {
    hide PairShaped, Sorted, KeyBytes, KeyLeq;
    if order != AsIterated {
      var r := Arranged(pairs, order);
      SortedIsSorted(pairs, KeyBytes, order);
      forall i | 0 <= i < |r| ensures PairShaped(r[i]) {
        assert r[i] in multiset(r);
        assert r[i] in pairs;
      }
    }
  }

  lemma {:induction false} PairImagesShaped(entries: seq<(Value, Value)>, o: Options)
    requires AllEncodableEntries(entries, o)
    ensures forall i {:trigger PairImages(entries, o)[i]} :: 0 <= i < |entries| ==> PairShaped(PairImages(entries, o)[i])
    decreases entries, 0
  {
    hide PairShaped, Encodable, ImageOf;
    if entries != [] {
      EntryShaped(entries[0], o);
      PairImagesShaped(entries[1..], o);
    }
  }

  lemma {:induction false} EntryShaped(e: (Value, Value), o: Options)
    requires EncodableEntry(e, o)
    ensures PairShaped(PairImage(e, o))
    decreases e, 0
  {
    hide Shaped, Encodable, ImageOf;
    ImageShaped(e.0, o);
    ImageShaped(e.1, o);
  }

  lemma {:induction false} ChainShaped(images: seq<Image>)
    requires forall i {:trigger images[i]} :: 0 <= i < |images| ==> Shaped(images[i].it)
    ensures AllShaped(Chain(images)) && Count(Chain(images)) == |images|
  {
    hide WellFormed, AllWritable, AllShortest;
    if images != [] { ChainShaped(images[1..]); }
  }

  lemma {:induction false} PairChainShaped(pairs: seq<(Image, Image)>)
    requires forall i {:trigger pairs[i]} :: 0 <= i < |pairs| ==> PairShaped(pairs[i])
    ensures AllShaped(PairChain(pairs)) && Count(PairChain(pairs)) == 2 * |pairs|
  {
    hide WellFormed, AllWritable, AllShortest;
    if pairs != [] {
      PairChainShaped(pairs[1..]);
      assert PairShaped(pairs[0]);
      assert AllShaped(Cons(pairs[0].1.it, PairChain(pairs[1..])));
    }
  }
}
