/** The bytes of every native script, written out, and what its fields may be read from. */
module NativeScriptKnown {
  import opened MachineInts
  import opened CborItems
  import opened CborBytes
  import opened CborValues
  import opened CborEncode
  import opened CborEncoder
  import opened CborKnown
  import opened CborMeaning
  import opened NativeScripts
  import opened NativeScriptCodec
  import opened Wrappers

  /** The serialization of a script: an array that starts with its type. */
  function ScriptBytes(s: Script): seq<byte>
    requires Sized(s)
    decreases s
  {
    if s.typ == 0 then [0x82, 0x00] + (if s.keyHash.None? then [0xf6] else Initial(0x40, |s.keyHash.value|) + s.keyHash.value)
    else if s.typ == 1 || s.typ == 2 then [0x82, s.typ] + ListBytes(s.scripts)
    else if s.typ == 3 then [0x83, 0x03] + Initial(0x00, s.n) + ListBytes(s.scripts)
    else if s.typ == 4 || s.typ == 5 then [0x82, s.typ] + Initial(0x00, s.interval)
    else [0xf6]
  }

  function ListBytes(scripts: ScriptSlice): seq<byte>
    requires SizedSlice(scripts)
    decreases scripts
  {
    match scripts
    case NilSlice => [0xf6]
    case Slice(list) => Initial(0x80, |list|) + AllScriptBytes(list)
  }

  function AllScriptBytes(ss: seq<Script>): seq<byte>
    requires AllSized(ss)
    decreases ss
  {
    if ss == [] then [] else ScriptBytes(ss[0]) + AllScriptBytes(ss[1..])
  }

  lemma {:induction false} WrittenScript(s: Script, o: Options)
    requires Sized(s) && !o.signedInts
    ensures Encodable(ToValue(s), o) && Written(ToValue(s), o) == ScriptBytes(s)
    decreases s, 1
  {
    hide Written, Encodable, ListValue, ListBytes, HeadBytes, SizedSlice, Initial;
    ScriptIsEncodable(s, o);
    ShortestBytes(4, 2);
    ShortestBytes(4, 3);
    SmallHeads();
    if s.typ == 0 {
      var second := if s.keyHash.None? then Null else Bytes(s.keyHash.value);
      WrittenTwo(Uint(0), second, o);
      WrittenLeaf(Uint(0), o);
      WrittenLeaf(second, o);
    } else if s.typ == 1 || s.typ == 2 {
      WrittenTwo(Uint(s.typ), ListValue(s.scripts), o);
      WrittenLeaf(Uint(s.typ), o);
      WrittenList(s.scripts, o);
    } else if s.typ == 3 {
      WrittenThree(Uint(3), Uint(s.n), ListValue(s.scripts), o);
      WrittenLeaf(Uint(3), o);
      WrittenLeaf(Uint(s.n), o);
      WrittenList(s.scripts, o);
    } else if s.typ <= 5 {
      WrittenTwo(Uint(s.typ), Uint(s.interval), o);
      WrittenLeaf(Uint(s.typ), o);
      WrittenLeaf(Uint(s.interval), o);
    } else {
      WrittenNull(o);
    }
  }

  lemma SmallHeads()
    ensures Initial(0x80, 2) == [0x82] && Initial(0x80, 3) == [0x83] && forall n {:trigger Initial(0, n)} :: 0 <= n < 24 ==> Initial(0, n) == [n]
  {
  }

  lemma {:induction false} WrittenList(scripts: ScriptSlice, o: Options)
    requires SizedSlice(scripts) && !o.signedInts && Encodable(ListValue(scripts), o)
    ensures Written(ListValue(scripts), o) == ListBytes(scripts)
    decreases scripts, 0
  {
    hide Written, Encodable, HeadBytes, AllScriptBytes, WrittenAll;
    match scripts
    case NilSlice => WrittenNull(o);
    case Slice(list) =>
      WrittenArray(ToValues(list), o);
      ShortestBytes(4, |list|);
      WrittenScripts(list, o);
  }

  lemma {:induction false} WrittenScripts(ss: seq<Script>, o: Options)
    requires AllSized(ss) && !o.signedInts && AllEncodable(ToValues(ss), o)
    ensures WrittenAll(ToValues(ss), o) == AllScriptBytes(ss)
    decreases ss, 0
  {
    hide Written, Encodable, Sized, ToValue, ScriptBytes;
    if ss != [] {
      assert ToValues(ss)[1..] == ToValues(ss[1..]);
      WrittenScript(ss[0], o);
      WrittenScripts(ss[1..], o);
    }
  }

  /** A script of a known type is read from an array of two elements only, or three for type 3; another type leaves the script as it is. */
  lemma FieldCounts(it: Item, ns: Script, m: Mode)
    requires ReadScript(it, ns, m).Some?
    ensures ReadType(it, m).Some?
    ensures ReadType(it, m).value <= 5 ==> Count(FieldsOf(it)) == if ReadType(it, m).value == 3 then 3 else 2
    ensures ReadType(it, m).value > 5 ==> ReadScript(it, ns, m) == Some(ns)
  {
    hide ReadType, FieldsOf, ReadUint, ReadBytes, ReadScripts;
  }

  // Fields and the generic meaning of the item that they are read from.

  /** An item without a tag that is an integer, a simple value or null is read as the number it means. */
  lemma ReadUintAgrees(it: Item, max: nat, m: Mode)
    requires WellFormed(it) && !IsTag(it) && !m.signedInts
    ensures var p, r := Interp(it, true, m), ReadUint(it, max);
      && (p.err.None? && p.v.Uint? ==> r == if p.v.n <= max then Some(p.v.n) else None)
      && (p.err.None? && p.v.Null? ==> r == Some(0))
      && (p.err.Some? || !(p.v.Uint? || p.v.Null?) ==> r == None)
  {
    hide BigEndian, Content, IsText, InterpArray, InterpMap;
    if it.Node? && it.h.major == 4 { ArrayMeaning(it.items, [], None, m); }
    if it.Node? && it.h.major == 5 { MapIsMap(it.items, 0, [], None, m); }
  }

  /** A tag that is not built in does not matter to a field. */
  lemma TagDoesNotMatter(num: nat, it: Item, max: nat, m: Mode)
    requires num > 3
    ensures var tagged := Node(Shortest(6, num), Cons(it, Nil));
      ReadUint(tagged, max) == ReadUint(it, max) && ReadBytes(tagged) == ReadBytes(it) && ReadScripts(tagged, m) == ReadScripts(it, m)
  {
    hide BigEndian, Content, ReadByteList, ReadScriptList;
  }

  /** A big integer is read if it fits. */
  lemma ReadUintOfBignum(n: int, zeros: nat, max: nat)
    ensures ReadUint(Bignum(n, zeros), max) == if 0 <= n <= max && n <= 0xffff_ffff_ffff_ffff then Some(n) else None
  {
    hide BigEndian, NumberBytes;
    NumberOfBytes(if n >= 0 then n else -1 - n, zeros);
  }

  /** Bytes are read from a byte string, from null, and from an array of numbers below 256. */
  lemma ReadBytesAgrees(it: Item, m: Mode)
    requires WellFormed(it) && !IsTag(it) && it.h.major != 4
    ensures var p, r := Interp(it, true, m), ReadBytes(it);
      && (p.err.None? && p.v.Bytes? ==> r == Some(Some(p.v.s)))
      && (p.err.None? && p.v.Null? ==> r == Some(None))
      && (p.err.Some? || !(p.v.Bytes? || p.v.Null?) ==> r == None)
  {
    hide BigEndian, Content, IsText, InterpMap;
    if it.Node? && it.h.major == 5 { MapIsMap(it.items, 0, [], None, m); }
  }

  /** If a list of bytes is read, every element is one of them, in its place. */
  lemma {:induction false} ByteListRead(items: Items, acc: seq<byte>, i: nat)
    requires ReadByteList(items, acc).Some?
    ensures var s := ReadByteList(items, acc).value;
      && |s| == |acc| + |Elements(items)| && acc <= s
      && (i < |Elements(items)| ==> ReadUint(Elements(items)[i], 0xff) == Some(s[|acc| + i]))
  {
    hide ReadUint;
    if items.Cons? {
      var n := ReadUint(items.head, 0xff);
      UintBound(items.head, 0xff);
      ByteListStep(items, acc);
      ByteListRead(items.tail, acc + [n.value], if i > 0 then i - 1 else 0);
    }
  }

  /** If none is read, an element is no byte. */
  lemma {:induction false} ByteListNotRead(items: Items, acc: seq<byte>) returns (i: nat)
    requires ReadByteList(items, acc).None?
    ensures i < |Elements(items)| && ReadUint(Elements(items)[i], 0xff).None?
  {
    hide ReadUint;
    i := 0;
    var n := ReadUint(items.head, 0xff);
    if n.Some? {
      UintBound(items.head, 0xff);
      ByteListStep(items, acc);
      i := ByteListNotRead(items.tail, acc + [n.value]);
      i := i + 1;
    }
  }

  /** If a slice of scripts is read, every element is one of them, in its place. */
  lemma {:induction false} ScriptListRead(items: Items, acc: seq<Script>, i: nat, m: Mode)
    requires ReadScriptList(items, acc, m).Some?
    ensures var s := ReadScriptList(items, acc, m).value;
      && |s| == |acc| + |Elements(items)| && acc <= s
      && (i < |Elements(items)| ==> ReadElement(Elements(items)[i], m) == Some(s[|acc| + i]))
    decreases items
  {
    hide ReadElement;
    if items.Cons? {
      ScriptListStep(items, acc, m);
      ScriptListRead(items.tail, acc + [ReadElement(items.head, m).value], if i > 0 then i - 1 else 0, m);
    }
  }

  /** If none is read, an element is no script. */
  lemma {:induction false} ScriptListNotRead(items: Items, acc: seq<Script>, m: Mode) returns (i: nat)
    requires ReadScriptList(items, acc, m).None?
    ensures i < |Elements(items)| && ReadElement(Elements(items)[i], m).None?
    decreases items
  {
    hide ReadElement;
    i := 0;
    var e := ReadElement(items.head, m);
    if e.Some? {
      ScriptListStep(items, acc, m);
      i := ScriptListNotRead(items.tail, acc + [e.value], m);
      i := i + 1;
    }
  }
}
