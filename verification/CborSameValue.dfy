/** The value that is read back for a value: when it is the same value, and when it is equal to it. */
module CborSameValue {
  import opened MachineInts
  import opened CborOrder
  import opened CborValues
  import opened CborEncode

  /** The number that a Go integer of either type stands for. */
  predicate IsNumber(v: Value, n: int) {
    (v.Uint? && v.n == n) || (v.Int? && v.i == n)
  }

  predicate IsBytes(v: Value, s: seq<byte>) {
    (v.Bytes? || v.ByteString?) && v.s == s
  }

  /**
   * One value, whatever Go type holds it: integers by number, byte strings by their bytes, arrays
   * element by element and maps entry by entry in any order.
   */
  ghost predicate SameValue(v: Value, w: Value)
    decreases v
  {
    match v
    case Uint(n) => IsNumber(w, n)
    case Int(i) => IsNumber(w, i)
    case Bytes(s) => IsBytes(w, s)
    case ByteString(s) => IsBytes(w, s)
    case Array(vs) => w.Array? && SameValues(vs, w.vs)
    case Map(entries) => w.Map? && SameEntries(entries, w.entries)
    case Tag(num, content) => w.Tag? && w.num == num && SameValue(content, w.content)
    case _ => w == v
  }

  ghost predicate SameValues(vs: seq<Value>, ws: seq<Value>)
    decreases vs
  {
    |vs| == |ws| && (vs != [] ==> SameValue(vs[0], ws[0]) && SameValues(vs[1..], ws[1..]))
  }

  function Without<T>(s: seq<T>, j: nat): seq<T>
    requires j < |s|
  {
    s[..j] + s[j + 1..]
  }

  /** Each entry has a partner of its own among the others. */
  ghost predicate SameEntries(entries: seq<(Value, Value)>, others: seq<(Value, Value)>)
    decreases entries
  {
    if entries == [] then others == []
    else exists j {:trigger others[j]} :: 0 <= j < |others| && SameEntry(entries[0], others[j]) && SameEntries(entries[1..], Without(others, j))
  }

  ghost predicate SameEntry(e: (Value, Value), f: (Value, Value))
    decreases e
  {
    SameValue(e.0, f.0) && SameValue(e.1, f.1)
  }

  /** No tag with number 0 and without content, which is written as null. */
  predicate Initialized(v: Value) {
    match v
    case Array(vs) => AllInitialized(vs)
    case Map(entries) => AllEntriesInitialized(entries)
    case Tag(num, content) => !(num == 0 && content == Null) && Initialized(content)
    case _ => true
  }

  predicate AllInitialized(vs: seq<Value>) {
    vs == [] || (Initialized(vs[0]) && AllInitialized(vs[1..]))
  }

  predicate AllEntriesInitialized(entries: seq<(Value, Value)>) {
    entries == [] || (EntryInitialized(entries[0]) && AllEntriesInitialized(entries[1..]))
  }

  predicate EntryInitialized(e: (Value, Value)) {
    Initialized(e.0) && Initialized(e.1)
  }

  /** One half of `ReadsBackSameValue`. */
  lemma {:induction false} BackIsSameValue(v: Value, o: Options)
    requires Encodable(v, o) && Initialized(v)
    ensures SameValue(v, ImageOf(v, o).back)
    decreases v, 1
  {
    hide SameValues, SameEntries, AllEncodableEntries, AllEncodable;
    match v
    case Array(vs) => BacksAreSameValues(vs, o);
    case Map(entries) =>
      PairBacksAreSameEntries(entries, o);
      ArrangedIsPermutation(PairImages(entries, o), o.order);
      PermutedEntries(entries, Arranged(PairImages(entries, o), o.order), o);
    case Tag(_, content) => BackIsSameValue(content, o);
    case _ =>
  }

  lemma {:induction false} BacksAreSameValues(vs: seq<Value>, o: Options)
    requires AllEncodable(vs, o) && AllInitialized(vs)
    ensures SameValues(vs, Backs(ImagesOf(vs, o)))
    decreases vs, 0
  {
    hide ImageOf, Encodable, Initialized, SameValue;
    if vs != [] {
      BackIsSameValue(vs[0], o);
      BacksAreSameValues(vs[1..], o);
      assert ImagesOf(vs, o)[1..] == ImagesOf(vs[1..], o);
    }
  }

  ghost predicate ComesBack(e: (Value, Value), o: Options) {
    SameEntry(e, PairBack(PairImage(e, o), o))
  }

  lemma {:induction false} PairBacksAreSameEntries(entries: seq<(Value, Value)>, o: Options)
    requires AllEncodableEntries(entries, o) && AllEntriesInitialized(entries)
    ensures forall e :: e in entries ==> ComesBack(e, o)
    decreases entries, 1
  {
    hide EncodableEntry, EntryInitialized, PairImage, ComesBack;
    if entries != [] {
      PairBackIsSameEntry(entries[0], o);
      PairBacksAreSameEntries(entries[1..], o);
      assert entries == [entries[0]] + entries[1..];
    }
  }

  lemma {:induction false} PairBackIsSameEntry(e: (Value, Value), o: Options)
    requires EncodableEntry(e, o) && EntryInitialized(e)
    ensures ComesBack(e, o)
    decreases e, 0
  {
    hide ImageOf, Encodable, Initialized;
    BackIsSameValue(e.0, o);
    BackIsSameValue(e.1, o);
    SameKeyBack(e.0, ImageOf(e.0, o).back, o);
  }

  lemma SameKeyBack(v: Value, w: Value, o: Options)
    requires SameValue(v, w)
    ensures SameValue(v, KeyBack(w, o))
  {
  }

  lemma ArrangedIsPermutation(pairs: seq<(Image, Image)>, order: Order)
    ensures multiset(Arranged(pairs, order)) == multiset(pairs)
  {
    hide KeyBytes, KeyLeq, Sorted;
    if order != AsIterated { SortedIsSorted(pairs, KeyBytes, order); }
  }

  lemma WithoutOne<T>(s: seq<T>, j: nat)
    requires j < |s|
    ensures |Without(s, j)| == |s| - 1 && multiset(Without(s, j)) == multiset(s) - multiset{s[j]}
  {
    assert s == s[..j] + [s[j]] + s[j + 1..];
  }

  lemma MapImages(entries: seq<(Value, Value)>, o: Options)
    ensures entries != [] ==> PairImages(entries, o) == [PairImage(entries[0], o)] + PairImages(entries[1..], o)
    ensures PairBacks([], o) == []
  {
  }

  lemma WithoutFirst<T>(s: seq<T>)
    requires s != []
    ensures Without(s, 0) == s[1..]
  {
  }

  lemma {:induction false} WithoutBacks(pairs: seq<(Image, Image)>, j: nat, o: Options)
    requires j < |pairs|
    ensures PairBacks(pairs, o)[j] == PairBack(pairs[j], o)
    ensures PairBacks(Without(pairs, j), o) == Without(PairBacks(pairs, o), j)
  {
    hide PairBack, KeyBack;
    var backs := PairBacks(pairs, o);
    assert backs[1..] == PairBacks(pairs[1..], o);
    if j == 0 {
      assert Without(pairs, 0) == pairs[1..] && Without(backs, 0) == backs[1..];
    } else {
      WithoutBacks(pairs[1..], j - 1, o);
      assert Without(pairs, j)[1..] == Without(pairs[1..], j - 1);
      assert Without(backs, j) == [backs[0]] + Without(backs[1..], j - 1);
    }
  }

  lemma NoEntries()
    ensures SameEntries([], [])
  {
  }

  lemma SameEntriesStep(entries: seq<(Value, Value)>, others: seq<(Value, Value)>, j: nat)
    requires entries != [] && j < |others| && SameEntry(entries[0], others[j]) && SameEntries(entries[1..], Without(others, j))
    ensures SameEntries(entries, others)
  {
    hide SameEntry, Without;
  }

  lemma EntryOf(e: (Value, Value), o: Options)
    requires ComesBack(e, o)
    ensures SameEntry(e, PairBack(PairImage(e, o), o))
  {
  }

  /** However the pairs were put in order, every entry finds its own among those read back. */
  lemma {:induction false} PermutedEntries(entries: seq<(Value, Value)>, pairs: seq<(Image, Image)>, o: Options)
    requires multiset(pairs) == multiset(PairImages(entries, o)) && forall e :: e in entries ==> ComesBack(e, o)
    ensures SameEntries(entries, PairBacks(pairs, o))
  {
    hide PairImage, ComesBack, PairBack, PairBacks, PairImages, SameEntries, Without;
    var images := PairImages(entries, o);
    MapImages(entries, o);
    assert |pairs| == |multiset(pairs)| == |images|;
    if entries == [] {
      assert pairs == [];
      NoEntries();
    } else {
      assert images[0] in multiset(pairs);
      var j :| 0 <= j < |pairs| && pairs[j] == images[0];
      WithoutFirst(images);
      WithoutOne(pairs, j);
      WithoutOne(images, 0);
      PermutedEntries(entries[1..], Without(pairs, j), o);
      WithoutBacks(pairs, j, o);
      EntryOf(entries[0], o);
      SameEntriesStep(entries, PairBacks(pairs, o), j);
    }
  }

  // A tag that is not initialized is lost.

  function Tags(v: Value): nat {
    match v
    case Array(vs) => AllTags(vs)
    case Map(entries) => EntriesTags(entries)
    case Tag(_, content) => 1 + Tags(content)
    case _ => 0
  }

  function AllTags(vs: seq<Value>): nat {
    if vs == [] then 0 else Tags(vs[0]) + AllTags(vs[1..])
  }

  function EntriesTags(entries: seq<(Value, Value)>): nat {
    if entries == [] then 0 else EntryTags(entries[0]) + EntriesTags(entries[1..])
  }

  function EntryTags(e: (Value, Value)): nat {
    Tags(e.0) + Tags(e.1)
  }

  lemma {:induction false} TagsWithout(entries: seq<(Value, Value)>, j: nat)
    requires j < |entries|
    ensures EntriesTags(entries) == EntryTags(entries[j]) + EntriesTags(Without(entries, j))
  {
    hide EntryTags;
    if j == 0 {
      assert Without(entries, 0) == entries[1..];
    } else {
      TagsWithout(entries[1..], j - 1);
      assert Without(entries, j)[1..] == Without(entries[1..], j - 1);
    }
  }

  /** The same value has as many tags. */
  lemma {:induction false} SameTags(v: Value, w: Value)
    requires SameValue(v, w)
    ensures Tags(v) == Tags(w)
    decreases v, 1
  {
    match v
    case Array(vs) => SameTagsAll(vs, w.vs);
    case Map(entries) => SameTagsEntries(entries, w.entries);
    case Tag(_, content) => SameTags(content, w.content);
    case _ =>
  }

  lemma {:induction false} SameTagsAll(vs: seq<Value>, ws: seq<Value>)
    requires SameValues(vs, ws)
    ensures AllTags(vs) == AllTags(ws)
    decreases vs, 0
  {
    hide SameValue, Tags;
    if vs != [] {
      SameTags(vs[0], ws[0]);
      SameTagsAll(vs[1..], ws[1..]);
    }
  }

  lemma {:induction false} SameTagsEntries(entries: seq<(Value, Value)>, others: seq<(Value, Value)>)
    requires SameEntries(entries, others)
    ensures EntriesTags(entries) == EntriesTags(others)
    decreases entries, 1
  {
    hide SameEntry, EntryTags, Without;
    if entries != [] {
      var j :| 0 <= j < |others| && SameEntry(entries[0], others[j]) && SameEntries(entries[1..], Without(others, j));
      SameTagsEntry(entries[0], others[j]);
      SameTagsEntries(entries[1..], Without(others, j));
      TagsWithout(others, j);
    }
  }

  lemma {:induction false} SameTagsEntry(e: (Value, Value), f: (Value, Value))
    requires SameEntry(e, f)
    ensures EntryTags(e) == EntryTags(f)
    decreases e, 0
  {
    hide SameValue, Tags;
    SameTags(e.0, f.0);
    SameTags(e.1, f.1);
  }

  /** Every order of the pairs has as many tags. */
  lemma {:induction false} PermutedTags(p: seq<(Image, Image)>, q: seq<(Image, Image)>, o: Options)
    requires multiset(p) == multiset(q)
    ensures EntriesTags(PairBacks(p, o)) == EntriesTags(PairBacks(q, o))
    decreases |p|
  {
    hide PairBack, PairBacks, EntryTags, EntriesTags, Without;
    assert |p| == |multiset(p)| == |multiset(q)| == |q|;
    if p == [] {
      assert q == [];
    } else {
      assert p[0] in multiset(q);
      var j :| 0 <= j < |q| && q[j] == p[0];
      WithoutOne(p, 0);
      WithoutOne(q, j);
      PermutedTags(Without(p, 0), Without(q, j), o);
      WithoutBacks(p, 0, o);
      WithoutBacks(q, j, o);
      TagsWithout(PairBacks(p, o), 0);
      TagsWithout(PairBacks(q, o), j);
    }
  }

  /** What is read back has no more tags, and fewer if one was not initialized. */
  lemma {:induction false} BackTags(v: Value, o: Options)
    ensures Tags(ImageOf(v, o).back) <= Tags(v)
    ensures Tags(ImageOf(v, o).back) == Tags(v) ==> Initialized(v)
    decreases v, 1
  {
    hide Arranged, Initialized, PairImages, ImagesOf, Backs, PairBacks, AllTags, EntriesTags, AllInitialized, AllEntriesInitialized;
    InitializedParts(v);
    match v
    case Array(vs) => BackTagsAll(vs, o);
    case Map(entries) =>
      BackTagsEntries(entries, o);
      ArrangedIsPermutation(PairImages(entries, o), o.order);
      PermutedTags(Arranged(PairImages(entries, o), o.order), PairImages(entries, o), o);
    case Tag(_, content) => BackTags(content, o);
    case _ =>
  }

  lemma InitializedParts(v: Value)
    ensures v.Array? ==> (Initialized(v) <==> AllInitialized(v.vs))
    ensures v.Map? ==> (Initialized(v) <==> AllEntriesInitialized(v.entries))
    ensures v.Tag? ==> (Initialized(v) <==> Initialized(v.content) && !(v.num == 0 && v.content == Null))
    ensures !v.Array? && !v.Map? && !v.Tag? ==> Initialized(v)
  {
  }

  lemma {:induction false} BackTagsAll(vs: seq<Value>, o: Options)
    ensures AllTags(Backs(ImagesOf(vs, o))) <= AllTags(vs)
    ensures AllTags(Backs(ImagesOf(vs, o))) == AllTags(vs) ==> AllInitialized(vs)
    decreases vs, 0
  {
    hide ImageOf, Tags, Initialized;
    if vs != [] {
      BackTags(vs[0], o);
      BackTagsAll(vs[1..], o);
      assert ImagesOf(vs, o)[1..] == ImagesOf(vs[1..], o);
      assert Backs(ImagesOf(vs, o))[1..] == Backs(ImagesOf(vs[1..], o));
    }
  }

  lemma {:induction false} BackTagsEntries(entries: seq<(Value, Value)>, o: Options)
    ensures EntriesTags(PairBacks(PairImages(entries, o), o)) <= EntriesTags(entries)
    ensures EntriesTags(PairBacks(PairImages(entries, o), o)) == EntriesTags(entries) ==> AllEntriesInitialized(entries)
    decreases entries, 1
  {
    hide PairImage, PairBack, EntryTags, EntryInitialized, KeyBack;
    if entries != [] {
      BackTagsEntry(entries[0], o);
      BackTagsEntries(entries[1..], o);
      var backs := PairBacks(PairImages(entries, o), o);
      assert PairImages(entries, o)[1..] == PairImages(entries[1..], o);
      assert backs[1..] == PairBacks(PairImages(entries[1..], o), o) && backs[0] == PairBack(PairImage(entries[0], o), o);
    }
  }

  lemma {:induction false} BackTagsEntry(e: (Value, Value), o: Options)
    ensures EntryTags(PairBack(PairImage(e, o), o)) <= EntryTags(e)
    ensures EntryTags(PairBack(PairImage(e, o), o)) == EntryTags(e) ==> EntryInitialized(e)
    decreases e, 0
  {
    hide ImageOf, Initialized;
    BackTags(e.0, o);
    BackTags(e.1, o);
  }

  /**
   * What is read back is the value that was written, in every order and whatever types the decoder
   * chooses, exactly if all its tags are initialized.
   */
  lemma ReadsBackSameValue(v: Value, o: Options)
    requires Encodable(v, o)
    ensures SameValue(v, ImageOf(v, o).back) <==> Initialized(v)
  {
    hide SameValue, ImageOf, Initialized, Encodable, Tags;
    BackTags(v, o);
    if Initialized(v) { BackIsSameValue(v, o); }
    if SameValue(v, ImageOf(v, o).back) { SameTags(v, ImageOf(v, o).back); }
  }

  // A value that is read back is settled: it is written and read back like the one it came from.

  /** No tag with number 0 around another one without content: that would become a tag without content itself. */
  predicate Settles(v: Value) {
    match v
    case Array(vs) => AllSettle(vs)
    case Map(entries) => AllEntriesSettle(entries)
    case Tag(num, content) => !(num == 0 && content == Tag(0, Null)) && Settles(content)
    case _ => true
  }

  predicate AllSettle(vs: seq<Value>) {
    vs == [] || (Settles(vs[0]) && AllSettle(vs[1..]))
  }

  predicate AllEntriesSettle(entries: seq<(Value, Value)>) {
    entries == [] || (EntrySettles(entries[0]) && AllEntriesSettle(entries[1..]))
  }

  predicate EntrySettles(e: (Value, Value)) {
    Settles(e.0) && Settles(e.1)
  }

  lemma {:induction false} SortedOfAscending<T(!new)>(s: seq<T>, key: T -> seq<byte>, order: Order)
    requires Ascending(s, key, order)
    ensures Sorted(s, key, order) == s
  {
    hide KeyLeq;
    if s != [] {
      SortedOfAscending(s[1..], key, order);
      assert s == [s[0]] + s[1..];
    }
  }

  lemma ArrangedAgain(pairs: seq<(Image, Image)>, order: Order)
    ensures Arranged(Arranged(pairs, order), order) == Arranged(pairs, order)
  {
    hide KeyBytes, KeyLeq, Sorted;
    if order != AsIterated {
      SortedIsSorted(pairs, KeyBytes, order);
      SortedOfAscending(Arranged(pairs, order), KeyBytes, order);
    }
  }

  ghost predicate Settled(image: Image, o: Options) {
    ImageOf(image.back, o) == image
  }

  ghost predicate SettledPair(p: (Image, Image), o: Options) {
    PairImage(PairBack(p, o), o) == p
  }

  /** Writing the value read back gives the same tree, which is read back as the same value again. */
  lemma {:induction false} ReadBackIsSettled(v: Value, o: Options)
    requires Encodable(v, o) && Settles(v)
    ensures Settled(ImageOf(v, o), o) && (ImageOf(v, o).back == Null ==> v == Null || v == Tag(0, Null))
    decreases v, 1
  {
    hide Arranged;
    match v
    case Array(vs) =>
      AllAreSettled(vs, o);
      SettledBacks(ImagesOf(vs, o), o);
    case Map(entries) =>
      AllPairsAreSettled(entries, o);
      ArrangedIsSettled(PairImages(entries, o), o);
    case Tag(num, content) => ReadBackIsSettled(content, o);
    case _ =>
  }

  lemma {:induction false} AllAreSettled(vs: seq<Value>, o: Options)
    requires AllEncodable(vs, o) && AllSettle(vs)
    ensures forall image :: image in ImagesOf(vs, o) ==> Settled(image, o)
    decreases vs, 0
  {
    hide ImageOf, Encodable, Settles, Settled;
    if vs != [] {
      ReadBackIsSettled(vs[0], o);
      AllAreSettled(vs[1..], o);
    }
  }

  lemma {:induction false} AllPairsAreSettled(entries: seq<(Value, Value)>, o: Options)
    requires AllEncodableEntries(entries, o) && AllEntriesSettle(entries)
    ensures forall p :: p in PairImages(entries, o) ==> SettledPair(p, o)
    decreases entries, 1
  {
    hide SettledPair, EncodableEntry, EntrySettles, PairImage;
    if entries != [] {
      PairIsSettled(entries[0], o);
      AllPairsAreSettled(entries[1..], o);
    }
  }

  lemma {:induction false} PairIsSettled(e: (Value, Value), o: Options)
    requires EncodableEntry(e, o) && EntrySettles(e)
    ensures SettledPair(PairImage(e, o), o)
    decreases e, 0
  {
    hide ImageOf, Encodable, Settles;
    ReadBackIsSettled(e.0, o);
    ReadBackIsSettled(e.1, o);
    KeyBackImage(ImageOf(e.0, o).back, o);
  }

  lemma KeyBackImage(w: Value, o: Options)
    ensures ImageOf(KeyBack(w, o), o) == ImageOf(w, o)
  {
  }

  lemma {:induction false} SettledBacks(images: seq<Image>, o: Options)
    requires forall image :: image in images ==> Settled(image, o)
    ensures ImagesOf(Backs(images), o) == images
  {
    hide ImageOf;
    if images != [] {
      assert images == [images[0]] + images[1..];
      assert Settled(images[0], o);
      SettledBacks(images[1..], o);
      assert Backs(images)[1..] == Backs(images[1..]);
    }
  }

  lemma {:induction false} SettledPairBacks(pairs: seq<(Image, Image)>, o: Options)
    requires forall p :: p in pairs ==> SettledPair(p, o)
    ensures PairImages(PairBacks(pairs, o), o) == pairs
  {
    hide PairImage, KeyBack;
    if pairs != [] {
      assert pairs == [pairs[0]] + pairs[1..];
      assert SettledPair(pairs[0], o);
      SettledPairBacks(pairs[1..], o);
      assert PairBacks(pairs, o)[1..] == PairBacks(pairs[1..], o);
    }
  }

  /** Sorting the pairs that are read back changes nothing. */
  lemma ArrangedIsSettled(pairs: seq<(Image, Image)>, o: Options)
    requires forall p :: p in pairs ==> SettledPair(p, o)
    ensures var arranged := Arranged(pairs, o.order);
      && |arranged| == |pairs|
      && PairImages(PairBacks(arranged, o), o) == arranged == Arranged(arranged, o.order)
  {
    hide SettledPair, PairBacks, PairImages, Arranged;
    var arranged := Arranged(pairs, o.order);
    ArrangedIsPermutation(pairs, o.order);
    ArrangedAgain(pairs, o.order);
    assert |arranged| == |multiset(arranged)| == |multiset(pairs)| == |pairs|;
    forall p | p in arranged ensures SettledPair(p, o) {
      assert p in multiset(arranged);
      assert p in pairs;
    }
    SettledPairBacks(arranged, o);
  }

  // Equality.

  /** Values in the types the decoder chooses by default, with the entries of maps in the order they are written in. */
  ghost predicate InDefaultTypes(v: Value, o: Options) {
    match v
    case Uint(_) => !o.signedInts
    case Int(i) => i < 0 || o.signedInts
    case ByteString(_) => false
    case Array(vs) => AllInDefaultTypes(vs, o)
    case Map(entries) =>
      AllEntriesInDefaultTypes(entries, o) && (o.order != AsIterated ==> Ascending(PairImages(entries, o), KeyBytes, o.order))
    case Tag(num, content) => !(num == 0 && content == Null) && InDefaultTypes(content, o)
    case _ => true
  }

  ghost predicate AllInDefaultTypes(vs: seq<Value>, o: Options) {
    vs == [] || (InDefaultTypes(vs[0], o) && AllInDefaultTypes(vs[1..], o))
  }

  ghost predicate AllEntriesInDefaultTypes(entries: seq<(Value, Value)>, o: Options) {
    entries == [] || (EntryInDefaultTypes(entries[0], o) && AllEntriesInDefaultTypes(entries[1..], o))
  }

  /** Byte string keys come back wrapped if the mode says so. */
  ghost predicate EntryInDefaultTypes(e: (Value, Value), o: Options) {
    (if e.0.ByteString? then o.wrapKeys else InDefaultTypes(e.0, o) && (e.0.Bytes? ==> !o.wrapKeys)) && InDefaultTypes(e.1, o)
  }

  /** A value comes back equal exactly if it has the default types and its maps are in order. */
  lemma {:induction false} BackIsSame(v: Value, o: Options)
    requires Encodable(v, o) && Settles(v)
    ensures ImageOf(v, o).back == v <==> InDefaultTypes(v, o)
    decreases v, 1
  {
    hide Arranged, Ascending, AllEntriesInDefaultTypes, AllInDefaultTypes, AllEncodableEntries, AllEncodable;
    match v
    case Array(vs) => BacksAreSame(vs, o);
    case Map(entries) => MapIsSame(entries, o);
    case Tag(_, content) => BackIsSame(content, o);
    case _ =>
  }

  lemma {:induction false} BacksAreSame(vs: seq<Value>, o: Options)
    requires AllEncodable(vs, o) && AllSettle(vs)
    ensures Backs(ImagesOf(vs, o)) == vs <==> AllInDefaultTypes(vs, o)
    decreases vs, 0
  {
    hide ImageOf, Encodable, InDefaultTypes, Settles;
    if vs != [] {
      BackIsSame(vs[0], o);
      BacksAreSame(vs[1..], o);
      var backs := Backs(ImagesOf(vs, o));
      assert ImagesOf(vs, o)[1..] == ImagesOf(vs[1..], o);
      assert vs == [vs[0]] + vs[1..];
      assert backs[1..] == Backs(ImagesOf(vs[1..], o));
    }
  }

  lemma {:induction false} MapIsSame(entries: seq<(Value, Value)>, o: Options)
    requires AllEncodableEntries(entries, o) && AllEntriesSettle(entries)
    ensures PairBacks(Arranged(PairImages(entries, o), o.order), o) == entries <==>
      AllEntriesInDefaultTypes(entries, o) && (o.order != AsIterated ==> Ascending(PairImages(entries, o), KeyBytes, o.order))
    decreases entries, 2
  {
    hide PairImage, KeyBytes, KeyLeq, Ascending, Sorted, AllEntriesInDefaultTypes, AllEncodableEntries;
    var pairs := PairImages(entries, o);
    var arranged := Arranged(pairs, o.order);
    PairBacksAreSame(entries, o);
    if o.order != AsIterated {
      SortedIsSorted(pairs, KeyBytes, o.order);
      if Ascending(pairs, KeyBytes, o.order) { SortedOfAscending(pairs, KeyBytes, o.order); }
      if PairBacks(arranged, o) == entries {
        AllPairsAreSettled(entries, o);
        ArrangedIsSettled(pairs, o);
      }
    }
  }

  lemma {:induction false} PairBacksAreSame(entries: seq<(Value, Value)>, o: Options)
    requires AllEncodableEntries(entries, o) && AllEntriesSettle(entries)
    ensures PairBacks(PairImages(entries, o), o) == entries <==> AllEntriesInDefaultTypes(entries, o)
    decreases entries, 1
  {
    hide EncodableEntry, EntryInDefaultTypes, PairImage, EntrySettles;
    if entries != [] {
      PairBackIsSame(entries[0], o);
      PairBacksAreSame(entries[1..], o);
      var backs := PairBacks(PairImages(entries, o), o);
      assert PairImages(entries, o)[1..] == PairImages(entries[1..], o);
      assert entries == [entries[0]] + entries[1..];
      assert backs[1..] == PairBacks(PairImages(entries[1..], o), o);
    }
  }

  lemma {:induction false} PairBackIsSame(e: (Value, Value), o: Options)
    requires EncodableEntry(e, o) && EntrySettles(e)
    ensures PairBack(PairImage(e, o), o) == e <==> EntryInDefaultTypes(e, o)
    decreases e, 0
  {
    BackIsSame(e.0, o);
    BackIsSame(e.1, o);
  }
}
