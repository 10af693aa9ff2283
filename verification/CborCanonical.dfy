/** Canonical encoding: one tree for one value, and the same value for one tree. */
module CborCanonical {
  import opened CborOrder
  import opened CborValues
  import opened CborEncode
  import opened CborSameValue

  // In a canonical mode the same value is written as the same tree.

  lemma {:induction false} PairImagesAppend(a: seq<(Value, Value)>, b: seq<(Value, Value)>, o: Options)
    ensures PairImages(a + b, o) == PairImages(a, o) + PairImages(b, o)
  {
    hide PairImage;
    if a == [] {
      assert a + b == b;
    } else {
      PairImagesAppend(a[1..], b, o);
      assert (a + b)[1..] == a[1..] + b;
    }
  }

  /** The pairs without the one at `j`. */
  lemma PairImagesWithout(b: seq<(Value, Value)>, j: nat, o: Options)
    requires j < |b|
    ensures multiset(b) == multiset(b[..j] + b[j + 1..]) + multiset{b[j]}
    ensures multiset(PairImages(b, o)) == multiset(PairImages(b[..j] + b[j + 1..], o)) + multiset{PairImage(b[j], o)}
  {
    hide PairImage;
    var tail := [b[j]] + b[j + 1..];
    assert b == b[..j] + tail;
    assert tail[1..] == b[j + 1..];
    PairImagesAppend(b[..j], tail, o);
    PairImagesAppend(b[..j], b[j + 1..], o);
  }

  lemma {:induction false} PairImagesPermuted(a: seq<(Value, Value)>, b: seq<(Value, Value)>, o: Options)
    requires multiset(a) == multiset(b)
    ensures multiset(PairImages(a, o)) == multiset(PairImages(b, o))
    decreases |a|
  {
    hide PairImage, PairImages;
    if a == [] {
      assert |multiset(b)| == 0;
    } else {
      assert a[0] in multiset(b);
      var j :| 0 <= j < |b| && b[j] == a[0];
      assert a[..0] + a[0 + 1..] == a[1..];
      PairImagesWithout(a, 0, o);
      PairImagesWithout(b, j, o);
      assert multiset(a[1..]) == multiset(a) - multiset{a[0]};
      assert multiset(b[..j] + b[j + 1..]) == multiset(b) - multiset{b[j]};
      PairImagesPermuted(a[1..], b[..j] + b[j + 1..], o);
    }
  }

  lemma {:induction false} EntryAt(entries: seq<(Value, Value)>, j: nat, o: Options)
    requires j < |entries|
    ensures PairImages(entries, o)[j] == PairImage(entries[j], o)
    ensures AllEncodableEntries(entries, o) ==> EncodableEntry(entries[j], o) && AllEncodableEntries(Without(entries, j), o)
    ensures AllEntriesInitialized(entries) ==> EntryInitialized(entries[j]) && AllEntriesInitialized(Without(entries, j))
  {
    hide EncodableEntry, EntryInitialized, PairImage;
    if j == 0 {
      assert Without(entries, 0) == entries[1..];
    } else {
      EntryAt(entries[1..], j - 1, o);
      assert Without(entries, j)[1..] == Without(entries[1..], j - 1);
    }
  }

  lemma {:induction false} SameImage(v: Value, w: Value, o: Options)
    requires SameValue(v, w) && Encodable(v, o) && Encodable(w, o) && o.order != AsIterated
    ensures ImageOf(v, o) == ImageOf(w, o)
    decreases v, 1
  {
    hide SameValues, SameEntries, AllEncodable, AllEncodableEntries, DistinctKeys, Arranged;
    match v
    case Array(vs) => SameImages(vs, w.vs, o);
    case Map(entries) =>
      SamePairImages(entries, w.entries, o);
      assert |entries| == |multiset(PairImages(entries, o))| == |multiset(PairImages(w.entries, o))| == |w.entries|;
      ArrangedPermuted(PairImages(entries, o), PairImages(w.entries, o), o.order);
    case Tag(_, content) => SameImage(content, w.content, o);
    case _ =>
  }

  lemma {:induction false} SameImages(vs: seq<Value>, ws: seq<Value>, o: Options)
    requires SameValues(vs, ws) && AllEncodable(vs, o) && AllEncodable(ws, o) && o.order != AsIterated
    ensures |vs| == |ws| && ImagesOf(vs, o) == ImagesOf(ws, o)
    decreases vs, 0
  {
    hide SameValue, Encodable, ImageOf;
    if vs != [] {
      SameImage(vs[0], ws[0], o);
      SameImages(vs[1..], ws[1..], o);
    }
  }

  lemma {:induction false} SamePairImages(entries: seq<(Value, Value)>, others: seq<(Value, Value)>, o: Options)
    requires SameEntries(entries, others) && AllEncodableEntries(entries, o) && AllEncodableEntries(others, o) && o.order != AsIterated
    ensures multiset(PairImages(entries, o)) == multiset(PairImages(others, o))
    decreases entries, 1
  {
    hide SameEntry, EncodableEntry, PairImage, AllEntriesInitialized, EntryInitialized;
    if entries != [] {
      var j :| 0 <= j < |others| && SameEntry(entries[0], others[j]) && SameEntries(entries[1..], Without(others, j));
      EntryAt(others, j, o);
      SameEntryImage(entries[0], others[j], o);
      SamePairImages(entries[1..], Without(others, j), o);
      PairImagesWithout(others, j, o);
    }
  }

  lemma {:induction false} SameEntryImage(e: (Value, Value), f: (Value, Value), o: Options)
    requires SameEntry(e, f) && EncodableEntry(e, o) && EncodableEntry(f, o) && o.order != AsIterated
    ensures PairImage(e, o) == PairImage(f, o)
    decreases e, 0
  {
    hide SameValue, Encodable, ImageOf;
    SameImage(e.0, f.0, o);
    SameImage(e.1, f.1, o);
  }

  lemma ArrangedPermuted(p: seq<(Image, Image)>, q: seq<(Image, Image)>, order: Order)
    requires multiset(p) == multiset(q) && DistinctKeys(q, KeyBytes) && order != AsIterated
    ensures Arranged(p, order) == Arranged(q, order)
  {
    hide KeyBytes, KeyLeq, Sorted, DistinctKeys, Ascending;
    SortedIsSorted(p, KeyBytes, order);
    SortedIsSorted(q, KeyBytes, order);
    DistinctPermuted(q, Sorted(q, KeyBytes, order), KeyBytes);
    OneOrder(Sorted(p, KeyBytes, order), Sorted(q, KeyBytes, order), KeyBytes, order);
  }

  // And values with the same tree that is read back alike are the same.

  lemma BackIsBare(v: Value, o: Options)
    ensures !ImageOf(v, o).back.ByteString?
  {
  }

  ghost predicate BareKeys(pairs: seq<(Image, Image)>) {
    forall p :: p in pairs ==> !p.0.back.ByteString?
  }

  lemma {:induction false} PairImagesBare(entries: seq<(Value, Value)>, o: Options)
    ensures BareKeys(PairImages(entries, o))
  {
    hide ImageOf;
    if entries != [] {
      BackIsBare(entries[0].0, o);
      PairImagesBare(entries[1..], o);
    }
  }

  lemma {:induction false} ChainDecides(p: seq<Image>, q: seq<Image>)
    requires |p| == |q| && Chain(p) == Chain(q) && Backs(p) == Backs(q)
    ensures p == q
  {
    if p != [] {
      assert Backs(p)[1..] == Backs(p[1..]) && Backs(q)[1..] == Backs(q[1..]) && Backs(p)[0] == p[0].back && Backs(q)[0] == q[0].back;
      ChainDecides(p[1..], q[1..]);
      assert p == [p[0]] + p[1..] && q == [q[0]] + q[1..];
    }
  }

  lemma {:induction false} PairChainDecides(p: seq<(Image, Image)>, q: seq<(Image, Image)>, o: Options)
    requires |p| == |q| && PairChain(p) == PairChain(q) && PairBacks(p, o) == PairBacks(q, o) && BareKeys(p) && BareKeys(q)
    ensures p == q
  {
    if p != [] {
      var a, b := PairBacks(p, o), PairBacks(q, o);
      assert a[1..] == PairBacks(p[1..], o) && b[1..] == PairBacks(q[1..], o) && a[0] == PairBack(p[0], o) && b[0] == PairBack(q[0], o);
      PairChainDecides(p[1..], q[1..], o);
      assert p[0] in p && q[0] in q;
      assert p == [p[0]] + p[1..] && q == [q[0]] + q[1..];
    }
  }

  lemma {:induction false} ImageDecides(v: Value, w: Value, o: Options)
    requires ImageOf(v, o) == ImageOf(w, o) && Encodable(v, o) && Encodable(w, o) && Initialized(v) && Initialized(w)
    ensures SameValue(v, w)
    decreases v, 1
  {
    hide SameValues, SameEntries, AllEncodable, AllEncodableEntries, DistinctKeys, Arranged;
    match v
    case Array(vs) =>
      ChainDecides(ImagesOf(vs, o), ImagesOf(w.vs, o));
      ImagesDecide(vs, w.vs, o);
    case Map(entries) =>
      MapImageDecides(entries, w.entries, o);
      PairImagesDecide(entries, w.entries, o);
    case Tag(_, content) => ImageDecides(content, w.content, o);
    case _ =>
  }

  lemma MapImageDecides(entries: seq<(Value, Value)>, others: seq<(Value, Value)>, o: Options)
    requires ImageOf(Map(entries), o) == ImageOf(Map(others), o)
    ensures multiset(PairImages(entries, o)) == multiset(PairImages(others, o))
  {
    hide Arranged, PairImages, BareKeys, PairChain, PairBacks;
    var p, q := PairImages(entries, o), PairImages(others, o);
    PairImagesBare(entries, o);
    PairImagesBare(others, o);
    ArrangedBare(p, o.order);
    ArrangedBare(q, o.order);
    ArrangedIsPermutation(p, o.order);
    ArrangedIsPermutation(q, o.order);
    PairChainDecides(Arranged(p, o.order), Arranged(q, o.order), o);
  }

  lemma ArrangedBare(pairs: seq<(Image, Image)>, order: Order)
    requires BareKeys(pairs)
    ensures |Arranged(pairs, order)| == |pairs| && BareKeys(Arranged(pairs, order))
  {
    hide Arranged;
    ArrangedIsPermutation(pairs, order);
    var arranged := Arranged(pairs, order);
    assert |arranged| == |multiset(arranged)| == |multiset(pairs)| == |pairs|;
    forall p | p in arranged ensures !p.0.back.ByteString? {
      assert p in multiset(arranged);
      assert p in pairs;
    }
  }

  lemma {:induction false} ImagesDecide(vs: seq<Value>, ws: seq<Value>, o: Options)
    requires |vs| == |ws| && ImagesOf(vs, o) == ImagesOf(ws, o)
    requires AllEncodable(vs, o) && AllEncodable(ws, o) && AllInitialized(vs) && AllInitialized(ws)
    ensures SameValues(vs, ws)
    decreases vs, 0
  {
    hide SameValue, Encodable, ImageOf, Initialized;
    if vs != [] {
      assert ImagesOf(vs, o)[0] == ImageOf(vs[0], o) && ImagesOf(ws, o)[0] == ImageOf(ws[0], o);
      assert ImagesOf(vs, o)[1..] == ImagesOf(vs[1..], o) && ImagesOf(ws, o)[1..] == ImagesOf(ws[1..], o);
      ImageDecides(vs[0], ws[0], o);
      ImagesDecide(vs[1..], ws[1..], o);
    }
  }

  lemma {:induction false} PairImagesDecide(entries: seq<(Value, Value)>, others: seq<(Value, Value)>, o: Options)
    requires multiset(PairImages(entries, o)) == multiset(PairImages(others, o))
    requires AllEncodableEntries(entries, o) && AllEncodableEntries(others, o) && AllEntriesInitialized(entries) && AllEntriesInitialized(others)
    ensures SameEntries(entries, others)
    decreases entries, 1
  {
    hide SameEntry, EncodableEntry, PairImage, EntryInitialized, PairImages, SameEntries;
    var p, q := PairImages(entries, o), PairImages(others, o);
    assert |entries| == |multiset(p)| == |multiset(q)| == |others|;
    if entries == [] {
      assert others == [];
      NoEntries();
    } else {
      MapImages(entries, o);
      assert p[0] in multiset(q);
      var j :| 0 <= j < |q| && q[j] == p[0];
      EntryAt(others, j, o);
      EntryImageDecides(entries[0], others[j], o);
      PairImagesWithout(others, j, o);
      WithoutOne(p, 0);
      WithoutFirst(p);
      assert multiset(PairImages(entries[1..], o)) == multiset(p) - multiset{p[0]};
      PairImagesDecide(entries[1..], Without(others, j), o);
      SameEntriesStep(entries, others, j);
    }
  }

  lemma {:induction false} EntryImageDecides(e: (Value, Value), f: (Value, Value), o: Options)
    requires PairImage(e, o) == PairImage(f, o) && EncodableEntry(e, o) && EncodableEntry(f, o) && EntryInitialized(e) && EntryInitialized(f)
    ensures SameEntry(e, f)
    decreases e, 0
  {
    hide SameValue, Encodable, ImageOf, Initialized;
    ImageDecides(e.0, f.0, o);
    ImageDecides(e.1, f.1, o);
  }
}
