/** Marshaling and unmarshaling of native scripts, through the encoder and the decoder. */
module NativeScriptCodec {
  import opened MachineInts
  import opened CborItems
  import opened CborScan
  import opened CborValues
  import opened CborBytes
  import opened CborEncode
  import opened CborEncoder
  import opened CborDecoder
  import opened NativeScripts
  import opened Wrappers

  lemma WrittenTwo(a: Value, b: Value, o: Options)
    requires Encodable(Array([a, b]), o)
    ensures Encodable(a, o) && Encodable(b, o)
    ensures Written(Array([a, b]), o) == HeadBytes(Shortest(4, 2)) + Written(a, o) + Written(b, o)
  {
    hide Written, Encodable;
    WrittenArray([a, b], o);
    assert [a, b][1..] == [b] && [b][1..] == [];
    assert WrittenAll([b], o) == Written(b, o) + [] == Written(b, o);
    assert WrittenAll([a, b], o) == Written(a, o) + WrittenAll([b], o);
    Associate(HeadBytes(Shortest(4, 2)), Written(a, o), Written(b, o));
  }

  lemma WrittenThree(a: Value, b: Value, c: Value, o: Options)
    requires Encodable(Array([a, b, c]), o)
    ensures Encodable(a, o) && Encodable(b, o) && Encodable(c, o)
    ensures Written(Array([a, b, c]), o) == HeadBytes(Shortest(4, 3)) + Written(a, o) + Written(b, o) + Written(c, o)
  {
    hide Written, Encodable;
    WrittenArray([a, b, c], o);
    assert [a, b, c][1..] == [b, c] && [b, c][1..] == [c] && [c][1..] == [];
    assert AllEncodable([b, c], o) && AllEncodable([c], o);
    assert WrittenAll([c], o) == Written(c, o) + [] == Written(c, o);
    assert WrittenAll([b, c], o) == Written(b, o) + Written(c, o);
    assert WrittenAll([a, b, c], o) == Written(a, o) + WrittenAll([b, c], o);
    Associate(HeadBytes(Shortest(4, 3)) + Written(a, o), Written(b, o), Written(c, o));
    Associate(HeadBytes(Shortest(4, 3)), Written(a, o), Written(b, o) + Written(c, o));
  }

  lemma WrittenUint(n: nat, o: Options)
    requires n <= MAX_UINT64
    ensures Encodable(Uint(n), o) && Written(Uint(n), o) == HeadBytes(Shortest(0, n))
  {
  }

  lemma WrittenNull(o: Options)
    ensures Encodable(Null, o) && Written(Null, o) == [0xf6]
  {
  }

  lemma WrittenBytes(s: seq<byte>, o: Options)
    requires |s| <= MAX_INT
    ensures Encodable(Bytes(s), o) && Written(Bytes(s), o) == HeadBytes(Shortest(2, |s|)) + s
  {
  }

  /** The serialization of a script. */
  method MarshalCBOR(s: Script, ghost o: Options) returns (b: seq<byte>)
    requires Sized(s) && !o.signedInts
    ensures Encodable(ToValue(s), o) && b == Written(ToValue(s), o)
    decreases s, 1
  {
    hide Written, Encodable, ListValue, HeadBytes, SizedSlice;
    ScriptIsEncodable(s, o);
    var e := new Encoder();
    if s.typ > 5 {
      e.WriteByte(0xf6);
      WrittenNull(o);
      return e.out;
    }
    WrittenUint(s.typ, o);
    e.EncodeHead(4, if s.typ == 3 then 3 else 2);
    assert e.out == HeadBytes(Shortest(4, if s.typ == 3 then 3 else 2));
    e.EncodeHead(0, s.typ);
    if s.typ == 0 {
      WrittenTwo(Uint(0), if s.keyHash.None? then Null else Bytes(s.keyHash.value), o);
      if s.keyHash.None? {
        WrittenNull(o);
        e.EncodeByteString([], true);
      } else {
        WrittenBytes(s.keyHash.value, o);
        ghost var before := e.out;
        e.EncodeByteString(s.keyHash.value, false);
        Associate(before, HeadBytes(Shortest(2, |s.keyHash.value|)), s.keyHash.value);
      }
    } else if s.typ < 3 {
      WrittenTwo(Uint(s.typ), ListValue(s.scripts), o);
      var list := MarshalSlice(s.scripts, o);
      e.Write(list);
    } else if s.typ == 3 {
      WrittenThree(Uint(3), Uint(s.n), ListValue(s.scripts), o);
      WrittenUint(s.n, o);
      e.EncodeHead(0, s.n);
      var list := MarshalSlice(s.scripts, o);
      e.Write(list);
    } else {
      WrittenTwo(Uint(s.typ), Uint(s.interval), o);
      WrittenUint(s.interval, o);
      e.EncodeHead(0, s.interval);
    }
    b := e.out;
  }

  lemma ScriptIsEncodable(s: Script, o: Options)
    requires Sized(s) && !o.signedInts
    ensures Encodable(ToValue(s), o)
  {
    var m := Mode(Limits(0, 0, 0, true, true), false, o.wrapKeys, false, true, _ => true, v => Parsed(v, None), (a, b) => true);
    ScriptIsPlain(s, o, m);
  }

  /** The serialization of a slice of scripts: each is marshaled on its own. */
  method MarshalSlice(scripts: ScriptSlice, ghost o: Options) returns (b: seq<byte>)
    requires SizedSlice(scripts) && !o.signedInts && Encodable(ListValue(scripts), o)
    ensures b == Written(ListValue(scripts), o)
    decreases scripts, 0
  {
    hide Written, Encodable;
    var e := new Encoder();
    if scripts.NilSlice? {
      e.WriteByte(0xf6);
      WrittenNull(o);
      return e.out;
    }
    var list := scripts.list;
    WrittenArray(ToValues(list), o);
    if |list| == 0 {
      e.WriteByte(4 * 32);
      assert HeadBytes(Shortest(4, 0)) == [4 * 32];
      return e.out;
    }
    e.EncodeHead(4, |list|);
    b := MarshalAll(e.out, list, o);
  }

  method MarshalAll(head: seq<byte>, list: seq<Script>, ghost o: Options) returns (b: seq<byte>)
    requires AllSized(list) && !o.signedInts && AllEncodable(ToValues(list), o)
    ensures b == head + WrittenAll(ToValues(list), o)
    decreases list, 0
  {
    hide Written, Encodable, Sized, ToValue;
    b := head;
    var i := 0;
    assert list[0..] == list;
    while i < |list|
      invariant 0 <= i <= |list| && AllSized(list[i..]) && AllEncodable(ToValues(list[i..]), o)
      invariant b + WrittenAll(ToValues(list[i..]), o) == head + WrittenAll(ToValues(list), o)
    {
      ghost var rest := list[i..];
      assert rest[0] == list[i] && rest[1..] == list[i + 1..] && ToValues(rest)[1..] == ToValues(list[i + 1..]);
      var data := MarshalCBOR(list[i], o);
      Associate(b, data, WrittenAll(ToValues(list[i + 1..]), o));
      b := b + data;
      i := i + 1;
    }
    assert list[i..] == [] && b + [] == b;
  }

  // Reading.

  /** An item within the limits of the decoder, as the validator leaves it. */
  ghost predicate Inside(it: Item, lim: Limits) {
    Fits(it, lim) && Nest(it) <= lim.maxNestedLevels
  }

  ghost predicate AllInside(items: Items, lim: Limits) {
    FitsAll(items, lim) && NestAll(items) <= lim.maxNestedLevels
  }

  lemma InsideParts(it: Item, lim: Limits)
    requires Inside(it, lim)
    ensures it.Node? && it.h.major == 4 ==> AllInside(it.items, lim)
    ensures IsTag(it) && it.items.Cons? ==> Inside(it.items.head, lim)
  {
    if it.Node? { assert FitsAll(it.items, lim); }
  }

  lemma AllInsideParts(items: Items, lim: Limits)
    requires AllInside(items, lim) && items.Cons?
    ensures Inside(items.head, lim) && AllInside(items.tail, lim)
  {
    hide Fits, Nest;
  }

  lemma {:induction false} PeelOfStripped(it: Item)
    ensures Peel(Stripped(it)) == Peel(it) && Size(Stripped(it)) <= Size(it)
    ensures !(IsTag(Stripped(it)) && Stripped(it).items.Cons? && Stripped(it).h.val == SELF_DESCRIBED)
  {
    if IsTag(it) && it.items.Cons? && it.h.val == SELF_DESCRIBED {
      assert SizeAll(it.items) >= Size(it.items.head);
      PeelOfStripped(it.items.head);
    }
  }

  lemma {:induction false} StrippedInside(it: Item, lim: Limits)
    requires Inside(it, lim)
    ensures Inside(Stripped(it), lim)
  {
    hide Inside;
    if IsTag(it) && it.items.Cons? && it.h.val == SELF_DESCRIBED {
      InsideParts(it, lim);
      StrippedInside(it.items.head, lim);
    }
  }

  lemma {:induction false} PeeledInside(it: Item, lim: Limits)
    requires Inside(it, lim) && Peel(it).Core?
    ensures Inside(Peel(it).it, lim)
  {
    hide Inside;
    if IsTag(it) && it.items.Cons? {
      InsideParts(it, lim);
      PeeledInside(it.items.head, lim);
    }
  }

  datatype Status = BadTag | BigTag(num: nat) | AtCore

  /** Takes off the tags in front of an item that is read into a Go type; an item with a wrong tag is skipped. */
  method PeelTags(d: Decoder, ghost it: Item) returns (status: Status, ghost end: nat)
    requires d.Valid() && Holds(d.data, d.off, it)
    modifies d`off
    ensures d.Valid() && end == old(d.off) + Size(it)
    ensures match Peel(it)
      case Bad => status == BadTag && d.off == end
      case Big(num, content) => status == BigTag(num) && Holds(d.data, d.off, content) && content.h.major == 2 && d.off + Size(content) == end
      case Core(a) => status == AtCore && Holds(d.data, d.off, a) && !IsTag(a) && d.off + Size(a) == end && Size(a) <= Size(it)
  {
    hide Spells, SpellsAll, WellFormed, WellFormedAll, Size, SizeAll, Count, HeadAt, Holds, HoldsAll, Ahead, AllChunks, Interpret, Interp, Stripped;
    ghost var cur := it;
    end := d.off + Size(it);
    while true
      invariant d.Valid() && Holds(d.data, d.off, cur) && Peel(cur) == Peel(it) && d.off + Size(cur) == end && Size(cur) <= Size(it)
      decreases Size(cur)
    {
      PeelOfStripped(cur);
      cur := d.StripSelfDescribed(cur);
      d.StartOf(cur);
      if IsTag(cur) { d.TagContent(cur); }
      var err := d.CheckBuiltinTag(cur);
      if err.Some? { return BadTag, end; }
      var t := d.NextType();
      if t != 6 { return AtCore, end; }
      HeadOf(d.data, d.off, cur);
      var _, _, tagNum := d.GetHead(cur.h);
      d.StartOf(cur.items.head);
      if tagNum == 2 || tagNum == 3 { return BigTag(tagNum), end; }
      cur := cur.items.head;
    }
  }

  /** Decodes into an unsigned integer no greater than `max`. */
  method DecodeUint(d: Decoder, max: uint64, ghost it: Item) returns (ok: bool, n: uint64)
    requires d.Valid() && Holds(d.data, d.off, it)
    modifies d`off
    ensures d.Valid() && d.off == old(d.off) + Size(it)
    ensures ok == ReadUint(it, max).Some? && (ok ==> n == ReadUint(it, max).value)
  {
    hide Spells, SpellsAll, WellFormed, WellFormedAll, Size, SizeAll, Count, HeadAt, Holds, HoldsAll, Ahead, AllChunks, Interpret, Interp, Peel;
    ok, n := false, 0;
    var status, _ := PeelTags(d, it);
    match status
    case BadTag =>
    case BigTag(num) =>
      var b := d.ParseByteString(Peel(it).content);
      var big := BigEndian(b);
      if num == 2 && big <= 0xffff_ffff_ffff_ffff && big <= max { ok, n := true, big; }
    case AtCore =>
      ghost var a := Peel(it).it;
      d.StartOf(a);
      HeadOf(d.data, d.off, a);
      var t := d.NextType();
      if t == 0 || t == 7 {
        var _, ai, val := d.GetHead(a.h);
        if t == 0 || ai < 20 || ai == 24 {
          if val <= max { ok, n := true, val; }
        } else if ai == 22 || ai == 23 {
          ok := true;
        }
      } else {
        d.Skip(a);
      }
  }

  /** Decodes into a byte slice. */
  method DecodeBytes(d: Decoder, ghost it: Item) returns (ok: bool, b: Option<seq<byte>>)
    requires d.Valid() && Holds(d.data, d.off, it)
    modifies d`off
    ensures d.Valid() && d.off == old(d.off) + Size(it)
    ensures ok == ReadBytes(it).Some? && (ok ==> b == ReadBytes(it).value)
  {
    hide Spells, SpellsAll, WellFormed, WellFormedAll, Size, SizeAll, Count, HeadAt, Holds, HoldsAll, Ahead, AllChunks, Interpret, Interp, Peel, ReadByteList;
    ok, b := false, None;
    var status, _ := PeelTags(d, it);
    match status
    case BadTag =>
    case BigTag(_) =>
      var s := d.ParseByteString(Peel(it).content);
      ok, b := true, Some(s);
    case AtCore =>
      ghost var a := Peel(it).it;
      d.StartOf(a);
      HeadOf(d.data, d.off, a);
      var t := d.NextType();
      if t == 2 {
        var s := d.ParseByteString(a);
        ok, b := true, Some(s);
      } else if t == 4 {
        var s;
        ok, s := DecodeByteList(d, a);
        if ok { b := Some(s); }
      } else if t == 7 {
        var _, ai, _ := d.GetHead(a.h);
        ok := ai == 22 || ai == 23;
      } else {
        d.Skip(a);
      }
  }

  /** Decodes an array of small integers into a byte slice. */
  method DecodeByteList(d: Decoder, ghost a: Item) returns (ok: bool, s: seq<byte>)
    requires d.Valid() && Holds(d.data, d.off, a) && a.h.major == 4
    modifies d`off
    ensures d.Valid() && d.off == old(d.off) + Size(a) && a.Node?
    ensures ok == ReadByteList(a.items, []).Some? && (ok ==> s == ReadByteList(a.items, []).value)
  {
    hide Spells, SpellsAll, WellFormed, WellFormedAll, Size, SizeAll, Count, HeadAt, Holds, HoldsAll, Ahead, AllChunks, Interpret, Interp, ReadByteList, ReadUint;
    HeadOf(d.data, d.off, a);
    d.Body(a);
    ghost var items, end := a.items, d.off + Size(a);
    var _, ai, val := d.GetHead(a.h);
    var hasSize := ai != 31;
    var count := ToInt(val);
    if !hasSize { count := d.NumOfItemsUntilBreak(items); }
    ok, s := true, [];
    var i := 0;
    ghost var rest := items;
    var more := d.MoreItems(hasSize, i < count, rest);
    while more
      invariant d.Valid() && more == rest.Cons? && (more ==> Ahead(d.data, d.off, rest, !hasSize)) && i + Count(rest) == count
      invariant d.off + SizeAll(rest) + (if more && !hasSize then 1 else 0) == end
      invariant ok ==> ReadByteList(rest, s) == ReadByteList(items, [])
      invariant !ok ==> ReadByteList(items, []) == None
      decreases SizeAll(rest), more
    {
      AheadParts(d.data, d.off, rest, !hasSize);
      ByteListStep(rest, s);
      var good, n := DecodeUint(d, 0xff, rest.head);
      if good {
        UintBound(rest.head, 0xff);
        s := s + [n];
      } else { ok := false; }
      i := i + 1;
      rest := rest.tail;
      more := d.MoreItems(hasSize, i < count, rest);
    }
    d.NilParts();
    ByteListEnd(s);
  }

  lemma UintBound(it: Item, max: nat)
    requires ReadUint(it, max).Some?
    ensures ReadUint(it, max).value <= max
  {
    hide Peel;
  }

  lemma ByteListStep(rest: Items, acc: seq<byte>)
    requires rest.Cons?
    ensures ReadUint(rest.head, 0xff) == None ==> ReadByteList(rest, acc) == None
    ensures var n := ReadUint(rest.head, 0xff); n.Some? && n.value <= 0xff ==> ReadByteList(rest, acc) == ReadByteList(rest.tail, acc + [n.value])
  {
    hide ReadUint;
  }

  lemma ByteListEnd(acc: seq<byte>)
    ensures ReadByteList(Nil, acc) == Some(acc)
  {
  }

  /** Decodes into a slice of scripts. */
  method DecodeScripts(d: Decoder, ghost it: Item) returns (ok: bool, s: ScriptSlice)
    requires d.Valid() && Holds(d.data, d.off, it) && Inside(it, d.dm.lim) && !d.dm.signedInts
    modifies d`off
    ensures d.Valid() && d.off == old(d.off) + Size(it)
    ensures ok == ReadScripts(it, d.dm).Some? && (ok ==> s == ReadScripts(it, d.dm).value)
    decreases Size(it), 8
  {
    hide Spells, SpellsAll, WellFormed, WellFormedAll, Size, SizeAll, Count, HeadAt, Holds, HoldsAll, Ahead, AllChunks, Interpret, Interp, Peel, ReadScriptList, Inside;
    ok, s := false, NilSlice;
    var status, _ := PeelTags(d, it);
    match status
    case BadTag =>
    case BigTag(_) => d.Skip(Peel(it).content);
    case AtCore =>
      ghost var a := Peel(it).it;
      PeeledInside(it, d.dm.lim);
      d.StartOf(a);
      HeadOf(d.data, d.off, a);
      var t := d.NextType();
      if t == 4 {
        var list;
        ok, list := DecodeScriptList(d, a);
        if ok { s := Slice(list); }
      } else if t == 7 {
        var _, ai, _ := d.GetHead(a.h);
        ok := ai == 22 || ai == 23;
      } else {
        d.Skip(a);
      }
  }

  method DecodeScriptList(d: Decoder, ghost a: Item) returns (ok: bool, s: seq<Script>)
    requires d.Valid() && Holds(d.data, d.off, a) && a.h.major == 4 && Inside(a, d.dm.lim) && !d.dm.signedInts
    modifies d`off
    ensures d.Valid() && d.off == old(d.off) + Size(a) && a.Node?
    ensures ok == ReadScriptList(a.items, [], d.dm).Some? && (ok ==> s == ReadScriptList(a.items, [], d.dm).value)
    decreases Size(a), 7
  {
    hide Spells, SpellsAll, WellFormed, WellFormedAll, Size, SizeAll, Count, HeadAt, Holds, HoldsAll, Ahead, AllChunks, Interpret, Interp, ReadScriptList, ReadElement, Inside, AllInside;
    HeadOf(d.data, d.off, a);
    d.Body(a);
    InsideParts(a, d.dm.lim);
    ghost var items, end := a.items, d.off + Size(a);
    var _, ai, val := d.GetHead(a.h);
    var hasSize := ai != 31;
    var count := ToInt(val);
    if !hasSize { count := d.NumOfItemsUntilBreak(items); }
    ok, s := true, [];
    var i := 0;
    ghost var rest := items;
    var more := d.MoreItems(hasSize, i < count, rest);
    while more
      invariant d.Valid() && more == rest.Cons? && (more ==> Ahead(d.data, d.off, rest, !hasSize)) && i + Count(rest) == count
      invariant d.off + SizeAll(rest) + (if more && !hasSize then 1 else 0) == end && SizeAll(rest) <= SizeAll(items)
      invariant AllInside(rest, d.dm.lim)
      invariant ok ==> ReadScriptList(rest, s, d.dm) == ReadScriptList(items, [], d.dm)
      invariant !ok ==> ReadScriptList(items, [], d.dm) == None
      decreases SizeAll(rest), more
    {
      AheadParts(d.data, d.off, rest, !hasSize);
      AllInsideParts(rest, d.dm.lim);
      ScriptListStep(rest, s, d.dm);
      var good, e := DecodeElement(d, rest.head);
      if good { s := s + [e]; } else { ok := false; }
      i := i + 1;
      rest := rest.tail;
      more := d.MoreItems(hasSize, i < count, rest);
    }
    d.NilParts();
    ScriptListEnd(s, d.dm);
  }

  lemma ScriptListStep(rest: Items, acc: seq<Script>, m: Mode)
    requires rest.Cons?
    ensures ReadElement(rest.head, m) == None ==> ReadScriptList(rest, acc, m) == None
    ensures ReadElement(rest.head, m).Some? ==> ReadScriptList(rest, acc, m) == ReadScriptList(rest.tail, acc + [ReadElement(rest.head, m).value], m)
  {
    hide ReadElement;
  }

  lemma ScriptListEnd(acc: seq<Script>, m: Mode)
    ensures ReadScriptList(Nil, acc, m) == Some(acc)
  {
  }

  /** Finds the end of an element by skipping it, and hands its bytes to the script's own decoding. */
  method DecodeElement(d: Decoder, ghost it: Item) returns (ok: bool, s: Script)
    requires d.Valid() && Holds(d.data, d.off, it) && Inside(it, d.dm.lim) && !d.dm.signedInts
    modifies d`off
    ensures d.Valid() && d.off == old(d.off) + Size(it)
    ensures ok == ReadElement(it, d.dm).Some? && (ok ==> s == ReadElement(it, d.dm).value)
    decreases Size(it), 6
  {
    hide Spells, SpellsAll, WellFormed, WellFormedAll, Size, SizeAll, Count, HeadAt, Holds, HoldsAll, Ahead, AllChunks, Interpret, Interp, Inside, ReadScript, Scan;
    s := ZERO;
    ghost var inner := d.StripSelfDescribed(it);
    ElementOfStripped(it, d.dm);
    StrippedInside(it, d.dm.lim);
    var err := d.CheckBuiltinTag(inner);
    if err.Some? { return false, s; }
    var start := d.off;
    d.Skip(inner);
    var sub := d.data[start..d.off];
    SubSlice(d.data, start, inner, d.dm.lim);
    s, ok := UnmarshalCBOR(ZERO, sub, d.dm);
  }

  lemma {:induction false} ElementOfStripped(it: Item, m: Mode)
    ensures ReadElement(it, m) == if WrongTag(Stripped(it)) then None else ReadScript(Stripped(it), ZERO, m)
  {
    hide ReadScript;
    if IsTag(it) && it.items.Cons? && it.h.val == SELF_DESCRIBED { ElementOfStripped(it.items.head, m); }
  }

  /** The bytes of an item within the limits are accepted on their own, as that item. */
  lemma SubSlice(data: seq<byte>, start: nat, it: Item, lim: Limits)
    requires Holds(data, start, it) && Inside(it, lim)
    ensures start + Size(it) <= |data| && var sub := data[start..start + Size(it)];
      sub != [] && Scan(sub, 0, 0, lim) == Done(|sub|, Nest(it)) && HasItem(sub, 0) && ItemAt(sub, 0) == it
  {
    hide Spells, WellFormed, Fits, Size, Nest, Scan;
    SpellsEnd(data, start, it);
    var sub := data[start..start + Size(it)];
    var back: int := -(start as int);
    SpellsMoved(data, start, sub, back, it);
    ScanOfItem(sub, 0, 0, lim, it);
    TheItemAt(sub, 0, it);
  }

  /** A decoder for the data, if it is valid. */
  method Open(data: seq<byte>, dm: Mode) returns (d: Decoder, fault: Option<Fault>, ghost it: Item)
    requires |data| <= MAX_INT
    ensures fresh(d) && d.data == data && d.dm == dm && d.off == 0 && d.Valid()
    ensures fault == None <==> data != [] && Scan(data, 0, 0, dm.lim).Done?
    ensures fault == None ==> Holds(data, 0, it) && HasItem(data, 0) && ItemAt(data, 0) == it && Inside(it, dm.lim) && Size(it) <= |data|
  {
    hide Scan, Spells, WellFormed, Fits, Size, Nest;
    d := new Decoder(data, dm);
    fault := d.CheckValid();
    d.off := 0;
    if fault == None {
      it := ScanFindsItem(data, 0, 0, dm.lim, Scan(data, 0, 0, dm.lim));
      ScanOfItem(data, 0, 0, dm.lim, it);
      TheItemAt(data, 0, it);
    } else {
      it := Atom(Head(0, 0, 0));
    }
  }

  /** The type of a script: the first element of the array that the data holds. */
  method GetTypeFromCBORArray(data: seq<byte>, dm: Mode) returns (t: Option<nat>)
    requires |data| <= MAX_INT
    ensures data == [] || Scan(data, 0, 0, dm.lim).Fail? ==> t == None
    ensures data != [] && Scan(data, 0, 0, dm.lim).Done? ==> HasItem(data, 0) && t == ReadType(ItemAt(data, 0), dm)
  {
    hide Spells, SpellsAll, WellFormed, WellFormedAll, Size, SizeAll, Count, HeadAt, Holds, HoldsAll, Ahead, AllChunks, Interpret, Interp, Peel, Scan, Inside, InterpArray;
    var d, fault, it := Open(data, dm);
    if fault.Some? { return None; }
    var status, _ := PeelTags(d, it);
    if status != AtCore { return None; }
    ghost var a := Peel(it).it;
    d.StartOf(a);
    HeadOf(data, d.off, a);
    var kind := d.NextType();
    if kind != 4 { return None; }
    var raw, err := d.ParseArray(a);
    if err.Some? || !raw.Array? || raw.vs == [] || !raw.vs[0].Uint? { return None; }
    return Some(raw.vs[0].n);
  }

  /** The array of a script whose type is known. */
  lemma TypedScript(it: Item, m: Mode)
    requires ReadType(it, m).Some?
    ensures Peel(it).Core? && Peel(it).it.Node? && Peel(it).it.h.major == 4 && FieldsOf(it) == Peel(it).it.items
  {
    hide Peel, InterpArray;
  }

  /** The fields of an array read into the struct for type `t`. */
  method UnmarshalFields(d: Decoder, ns: Script, t: nat, ghost it: Item) returns (r: Script, ok: bool)
    requires d.Valid() && Holds(d.data, d.off, it) && Inside(it, d.dm.lim) && !d.dm.signedInts
    requires ReadType(it, d.dm) == Some(t) && t <= 5
    modifies d`off
    ensures var read := ReadScript(it, ns, d.dm); ok == read.Some? && r == if ok then read.value else ns
    decreases Size(it), 4
  {
    hide Spells, SpellsAll, WellFormed, WellFormedAll, Size, SizeAll, Count, HeadAt, Holds, HoldsAll, Ahead, AllChunks, Interpret, Interp, Peel, Inside, AllInside, ReadType, ReadScript, ReadScripts, FieldsOf;
    TypedScript(it, d.dm);
    PeeledInside(it, d.dm.lim);
    ghost var a := Peel(it).it;
    var _, _ := PeelTags(d, it);
    HeadOf(d.data, d.off, a);
    d.Body(a);
    InsideParts(a, d.dm.lim);
    var start := d.off;
    var _, ai, val := d.GetHead(a.h);
    var hasSize := ai != 31;
    var count := ToInt(val);
    if !hasSize { count := d.NumOfItemsUntilBreak(a.items); }
    if count != (if t == 3 then 3 else 2) {
      d.off := start;
      d.Skip(a);
      WrongCount(it, ns, t, d.dm);
      return ns, false;
    }
    r, ok := ReadFields(d, ns, t, it, a.items, !hasSize);
  }

  lemma WrongCount(it: Item, ns: Script, t: nat, m: Mode)
    requires ReadType(it, m) == Some(t) && t <= 5 && Count(FieldsOf(it)) != (if t == 3 then 3 else 2)
    ensures ReadScript(it, ns, m) == None
  {
    hide ReadType, FieldsOf, Count;
  }

  /** The fields one after the other. */
  method ReadFields(d: Decoder, ns: Script, t: nat, ghost it: Item, ghost items: Items, ghost indefinite: bool) returns (r: Script, ok: bool)
    requires d.Valid() && Ahead(d.data, d.off, items, indefinite) && AllInside(items, d.dm.lim) && !d.dm.signedInts
    requires ReadType(it, d.dm) == Some(t) && t <= 5 && items == FieldsOf(it) && Count(items) == if t == 3 then 3 else 2
    modifies d`off
    ensures var read := ReadScript(it, ns, d.dm); ok == read.Some? && r == if ok then read.value else ns
    decreases SizeAll(items), 9
  {
    hide Spells, SpellsAll, WellFormed, WellFormedAll, Size, SizeAll, Count, HeadAt, Holds, HoldsAll, Ahead, AllChunks, Interpret, Interp, Peel, AllInside, ReadType, ReadScript, ReadScripts, ReadUint, ReadBytes, FieldsOf, Inside;
    d.CountNonNil(items);
    ghost var second := items.tail;
    AheadParts(d.data, d.off, items, indefinite);
    AllInsideParts(items, d.dm.lim);
    d.CountNonNil(second);
    AheadParts(d.data, d.off + Size(items.head), second, indefinite);
    AllInsideParts(second, d.dm.lim);
    d.CountNonNil(second.tail);
    FieldsRead(it, ns, t, items, d.dm);
    r := ns;
    var typ;
    ok, typ := DecodeUint(d, 0xffff_ffff_ffff_ffff, items.head);
    var good;
    if t == 0 {
      var b;
      good, b := DecodeBytes(d, second.head);
      if ok && good { r := ns.(typ := typ, keyHash := b); }
    } else if t == 3 {
      AheadParts(d.data, d.off + Size(second.head), second.tail, indefinite);
      AllInsideParts(second.tail, d.dm.lim);
      var n, more, ss;
      good, n := DecodeUint(d, 0xffff_ffff_ffff_ffff, second.head);
      more, ss := DecodeScripts(d, second.tail.head);
      good := good && more;
      if ok && good { r := ns.(typ := typ, n := n, scripts := ss); }
    } else if t > 3 {
      var n;
      good, n := DecodeUint(d, 0xffff_ffff_ffff_ffff, second.head);
      if ok && good { r := ns.(typ := typ, interval := n); }
    } else {
      var ss;
      good, ss := DecodeScripts(d, second.head);
      if ok && good { r := ns.(typ := typ, scripts := ss); }
    }
    ok := ok && good;
  }

  /** The script in terms of its fields. */
  lemma FieldsRead(it: Item, ns: Script, t: nat, items: Items, m: Mode)
    requires ReadType(it, m) == Some(t) && t <= 5 && items == FieldsOf(it) && Count(items) == if t == 3 then 3 else 2
    requires items.Cons? && items.tail.Cons? && (t == 3 ==> items.tail.tail.Cons?)
    ensures var typ, second := ReadUint(items.head, MAX_UINT64), items.tail.head;
      var n, b, ss := ReadUint(second, MAX_UINT64), ReadBytes(second), ReadScripts(if t == 3 then items.tail.tail.head else second, m);
      ReadScript(it, ns, m) ==
        if typ == None then None
        else if t == 0 then if b == None then None else Some(ns.(typ := typ.value, keyHash := b.value))
        else if t == 3 then if n == None || ss == None then None else Some(ns.(typ := typ.value, n := n.value, scripts := ss.value))
        else if t > 3 then if n == None then None else Some(ns.(typ := typ.value, interval := n.value))
        else if ss == None then None else Some(ns.(typ := typ.value, scripts := ss.value))
  {
    hide ReadType, FieldsOf, Count, ReadUint, ReadBytes, ReadScripts;
  }

  /**
   * Decodes a script into `ns`. Data that is not valid, or of another shape, is an error and
   * leaves `ns` as it was; trailing bytes are ignored.
   */
  method UnmarshalCBOR(ns: Script, data: seq<byte>, dm: Mode) returns (r: Script, ok: bool)
    requires |data| <= MAX_INT && !dm.signedInts
    ensures data == [] || Scan(data, 0, 0, dm.lim).Fail? ==> !ok && r == ns
    ensures data != [] && Scan(data, 0, 0, dm.lim).Done? ==>
      (HasItem(data, 0) && var read := ReadScript(ItemAt(data, 0), ns, dm); ok == read.Some? && r == if ok then read.value else ns)
    decreases |data|, 5
  {
    hide Spells, SpellsAll, WellFormed, WellFormedAll, Size, SizeAll, Count, HeadAt, Holds, HoldsAll, Ahead, AllChunks, Interpret, Interp, Scan, Inside, ReadType, ReadScript;
    var t := GetTypeFromCBORArray(data, dm);
    if t == None {
      if data != [] && Scan(data, 0, 0, dm.lim).Done? { NoType(ItemAt(data, 0), ns, dm); }
      return ns, false;
    }
    if t.value > 5 {
      OtherType(ItemAt(data, 0), ns, dm);
      return ns, true;
    }
    // The same bytes are validated again for the second decoding, and pass again.
    var d, _, it := Open(data, dm);
    r, ok := UnmarshalFields(d, ns, t.value, it);
  }

  lemma NoType(it: Item, ns: Script, m: Mode)
    requires ReadType(it, m) == None
    ensures ReadScript(it, ns, m) == None
  {
    hide ReadType;
  }

  lemma OtherType(it: Item, ns: Script, m: Mode)
    requires ReadType(it, m).Some? && ReadType(it, m).value > 5
    ensures ReadScript(it, ns, m) == Some(ns)
  {
    hide ReadType;
  }

  /** A script of one of the six types, within the nesting limit, comes back from its serialization as it was. */
  method MarshalUnmarshal(s: Script, ghost o: Options, dm: Mode) returns (r: Script, ok: bool)
    requires Sized(s) && IsScript(s) && !o.signedInts && !dm.signedInts && o.wrapKeys == dm.wrapKeys
    requires Fits(ImageOf(ToValue(s), o).it, dm.lim) && Nest(ImageOf(ToValue(s), o).it) <= dm.lim.maxNestedLevels
    requires Size(ImageOf(ToValue(s), o).it) <= MAX_INT
    ensures ok && r == s
  {
    hide ImageOf, Fits, Nest, Size, ReadScript, Scan, Written, ToValue, Encodable;
    var data := MarshalCBOR(s, o);
    ScriptIsPlain(s, o, dm);
    WrittenTree(ToValue(s), o, dm);
    ScriptRoundTrip(s, o, dm);
    r, ok := UnmarshalCBOR(ZERO, data, dm);
  }

  lemma WrittenTree(v: Value, o: Options, m: Mode)
    requires Encodable(v, o) && Fits(ImageOf(v, o).it, m.lim) && Nest(ImageOf(v, o).it) <= m.lim.maxNestedLevels
    ensures var data := Written(v, o);
      data != [] && |data| == Size(ImageOf(v, o).it) && Scan(data, 0, 0, m.lim).Done? && HasItem(data, 0) && ItemAt(data, 0) == ImageOf(v, o).it
  {
    hide ImageOf, Scan, Spells, WellFormed, AllWritable, AllShortest, ItemBytes, Fits, Nest, Size;
    var it, s := ImageOf(v, o).it, Written(v, o);
    ImageShaped(v, o);
    assert s[0..0 + Size(it)] == s;
    BytesSpell(s, 0, it);
    ScanOfItem(s, 0, 0, m.lim, it);
    TheItemAt(s, 0, it);
  }
}
