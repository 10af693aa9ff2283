/** Native scripts: the tree they are written as, and the script a tree is read as. */
module NativeScripts {
  import opened MachineInts
  import opened CborItems
  import opened CborValues
  import opened CborEncode
  import opened CborRoundTrip
  import opened Wrappers

  /** A key hash that is nil is `None`. */
  datatype Script = Script(typ: nat, keyHash: Option<seq<byte>>, n: nat, scripts: ScriptSlice, interval: nat)
  datatype ScriptSlice = NilSlice | Slice(list: seq<Script>)

  const ZERO := Script(0, None, 0, NilSlice, 0)

  const MAX_UINT64 := 0xffff_ffff_ffff_ffff

  /** The value that is marshaled for a script. */
  function ToValue(s: Script): Value
    decreases s
  {
    match s.typ
    case 0 => Array([Uint(0), if s.keyHash.None? then Null else Bytes(s.keyHash.value)])
    case 1 => Array([Uint(1), ListValue(s.scripts)])
    case 2 => Array([Uint(2), ListValue(s.scripts)])
    case 3 => Array([Uint(3), Uint(s.n), ListValue(s.scripts)])
    case 4 => Array([Uint(4), Uint(s.interval)])
    case 5 => Array([Uint(5), Uint(s.interval)])
    case _ => Null
  }

  function ListValue(scripts: ScriptSlice): Value
    decreases scripts
  {
    match scripts
    case NilSlice => Null
    case Slice(list) => Array(ToValues(list))
  }

  function ToValues(ss: seq<Script>): (r: seq<Value>)
    ensures |r| == |ss|
    decreases ss
  {
    if ss == [] then [] else [ToValue(ss[0])] + ToValues(ss[1..])
  }

  // Reading into Go's types.

  /** An item without the tags in front of it; a bignum keeps its number. */
  datatype Peeled = Bad | Big(num: nat, content: Item) | Core(it: Item)

  predicate WrongTag(it: Item) {
    IsTag(it) && it.items.Cons? && !ValidBuiltinTag(it.h.val, it.items.head.h.major * 32 + it.items.head.h.ai)
  }

  function Peel(it: Item): (p: Peeled)
    ensures p.Core? ==> Size(p.it) <= Size(it)
  {
    if IsTag(it) && it.items.Cons? then
      if it.h.val != SELF_DESCRIBED && WrongTag(it) then Bad
      else if it.h.val == 2 || it.h.val == 3 then Big(it.h.val, it.items.head)
      else Peel(it.items.head)
    else Core(it)
  }

  /** An unsigned integer no greater than `max`. */
  function ReadUint(it: Item, max: nat): Option<nat> {
    match Peel(it)
    case Bad => None
    case Big(num, content) =>
      var n := BigEndian(Content(content));
      if num == 2 && n <= MAX_UINT64 && n <= max then Some(n) else None
    case Core(a) =>
      if a.h.major == 0 || (a.h.major == 7 && (a.h.ai < 20 || a.h.ai == 24)) then if a.h.val <= max then Some(a.h.val) else None
      else if a.h.major == 7 && (a.h.ai == 22 || a.h.ai == 23) then Some(0)
      else None
  }

  /** A byte slice: a byte string, a bignum's bytes, an array of small integers, or nil. */
  function ReadBytes(it: Item): Option<Option<seq<byte>>> {
    match Peel(it)
    case Bad => None
    case Big(_, content) => Some(Some(Content(content)))
    case Core(a) =>
      if a.h.major == 2 then Some(Some(Content(a)))
      else if a.h.major == 4 && a.Node? then
        var s := ReadByteList(a.items, []);
        if s.None? then None else Some(s)
      else if a.h.major == 7 && (a.h.ai == 22 || a.h.ai == 23) then Some(None)
      else None
  }

  function ReadByteList(items: Items, acc: seq<byte>): Option<seq<byte>> {
    match items
    case Nil => Some(acc)
    case Cons(it, rest) =>
      var n := ReadUint(it, 0xff);
      var r := ReadByteList(rest, acc + [if n.Some? && n.value <= 0xff then n.value else 0]);
      if n.None? then None else r
  }

  /** A slice of scripts. */
  function ReadScripts(it: Item, m: Mode): Option<ScriptSlice>
    decreases Size(it), 1
  {
    match Peel(it)
    case Core(a) =>
      if a.h.major == 4 && a.Node? then
        var s := ReadScriptList(a.items, [], m);
        if s.None? then None else Some(Slice(s.value))
      else if a.h.major == 7 && (a.h.ai == 22 || a.h.ai == 23) then Some(NilSlice)
      else None
    case _ => None
  }

  function ReadScriptList(items: Items, acc: seq<Script>, m: Mode): Option<seq<Script>>
    decreases SizeAll(items), 2
  {
    match items
    case Nil => Some(acc)
    case Cons(it, rest) =>
      var s := ReadElement(it, m);
      var r := ReadScriptList(rest, acc + [if s.Some? then s.value else ZERO], m);
      if s.None? then None else r
  }

  /** One element of a slice of scripts: self-described tags come off before the bytes are handed on. */
  function ReadElement(it: Item, m: Mode): Option<Script>
    decreases Size(it), 1
  {
    if IsTag(it) && it.items.Cons? && it.h.val == SELF_DESCRIBED then
      assert SizeAll(it.items) >= Size(it.items.head);
      ReadElement(it.items.head, m)
    else if WrongTag(it) then None
    else ReadScript(it, ZERO, m)
  }

  /** The type of a script: the first element of the array. */
  function ReadType(it: Item, m: Mode): Option<nat> {
    match Peel(it)
    case Core(a) =>
      if a.h.major == 4 && a.Node? then
        var p := InterpArray(a.items, [], None, m);
        if p.err.None? && p.v.Array? && p.v.vs != [] && p.v.vs[0].Uint? then Some(p.v.vs[0].n) else None
      else None
    case _ => None
  }

  /** The array that a script is read from. */
  function FieldsOf(it: Item): Items {
    match Peel(it)
    case Core(a) => if a.Node? then a.items else Nil
    case _ => Nil
  }

  lemma FieldsAreSmaller(it: Item)
    ensures SizeAll(FieldsOf(it)) < Size(it)
  {
  }

  /** The script read from an item into `ns`, whose other fields stay; `None` is an error. */
  function ReadScript(it: Item, ns: Script, m: Mode): Option<Script>
    decreases Size(it), 0
  {
    FieldsAreSmaller(it);
    var t := ReadType(it, m);
    var fields := FieldsOf(it);
    if t.None? then None
    else if t.value > 5 then Some(ns)
    else if Count(fields) != (if t.value == 3 then 3 else 2) then None
    else
      assert Count(fields.tail) >= 1;
      var typ := ReadUint(fields.head, MAX_UINT64);
      var second := fields.tail.head;
      if typ.None? then None
      else match t.value
        case 0 =>
          var b := ReadBytes(second);
          if b.None? then None else Some(ns.(typ := typ.value, keyHash := b.value))
        case 3 =>
          assert Count(fields.tail.tail) == 1 && SizeAll(fields.tail) >= Size(fields.tail.tail.head);
          var n := ReadUint(second, MAX_UINT64);
          var ss := ReadScripts(fields.tail.tail.head, m);
          if n.None? || ss.None? then None else Some(ns.(typ := typ.value, n := n.value, scripts := ss.value))
        case 4 =>
          var n := ReadUint(second, MAX_UINT64);
          if n.None? then None else Some(ns.(typ := typ.value, interval := n.value))
        case 5 =>
          var n := ReadUint(second, MAX_UINT64);
          if n.None? then None else Some(ns.(typ := typ.value, interval := n.value))
        case _ =>
          var ss := ReadScripts(second, m);
          if ss.None? then None else Some(ns.(typ := typ.value, scripts := ss.value))
  }

  // Round trip.

  /** Fields within Go's types. */
  predicate Sized(s: Script)
    decreases s
  {
    && s.typ <= MAX_UINT64 && s.n <= MAX_UINT64 && s.interval <= MAX_UINT64
    && (s.keyHash.Some? ==> |s.keyHash.value| <= MAX_INT) && SizedSlice(s.scripts)
  }

  predicate SizedSlice(scripts: ScriptSlice)
    decreases scripts
  {
    match scripts
    case NilSlice => true
    case Slice(list) => |list| <= MAX_INT && AllSized(list)
  }

  predicate AllSized(ss: seq<Script>)
    decreases ss
  {
    ss == [] || (Sized(ss[0]) && AllSized(ss[1..]))
  }

  /** A script of one of the six types whose other fields are zero. */
  predicate IsScript(s: Script)
    decreases s
  {
    && s.typ <= 5
    && (s.typ != 0 ==> s.keyHash == None) && (s.typ != 3 ==> s.n == 0) && (s.typ < 4 ==> s.interval == 0)
    && (if 1 <= s.typ <= 3 then IsScriptSlice(s.scripts) else s.scripts == NilSlice)
  }

  predicate IsScriptSlice(scripts: ScriptSlice)
    decreases scripts
  {
    match scripts
    case NilSlice => true
    case Slice(list) => AreScripts(list)
  }

  predicate AreScripts(ss: seq<Script>)
    decreases ss
  {
    ss == [] || (IsScript(ss[0]) && AreScripts(ss[1..]))
  }

  lemma ChainOfTwo(a: Value, b: Value, o: Options)
    ensures ImagesOf([a, b], o) == [ImageOf(a, o), ImageOf(b, o)]
    ensures Chain(ImagesOf([a, b], o)) == Cons(ImageOf(a, o).it, Cons(ImageOf(b, o).it, Nil))
    ensures Backs(ImagesOf([a, b], o)) == [ImageOf(a, o).back, ImageOf(b, o).back]
  {
    hide ImageOf, ImagesOf, Chain, Backs;
    var x, y := ImageOf(a, o), ImageOf(b, o);
    assert [a, b] == [a] + [b] && [b] == [b] + [] && [x, y] == [x] + [y] && [y] == [y] + [];
    OneImage(a, [b], x, [y], o);
    OneImage(b, [], y, [], o);
    NoImages(o);
  }

  lemma NoImages(o: Options)
    ensures ImagesOf([], o) == [] && Chain([]) == Nil && Backs([]) == []
  {
  }

  /** The first of several elements. */
  lemma OneImage(v: Value, vs: seq<Value>, image: Image, images: seq<Image>, o: Options)
    requires image == ImageOf(v, o)
    ensures ImagesOf([v] + vs, o) == [image] + ImagesOf(vs, o)
    ensures Chain([image] + images) == Cons(image.it, Chain(images)) && Backs([image] + images) == [image.back] + Backs(images)
  {
    hide ImageOf;
    assert ([v] + vs)[1..] == vs && ([image] + images)[1..] == images;
  }

  lemma ChainOfThree(a: Value, b: Value, c: Value, o: Options)
    ensures ImagesOf([a, b, c], o) == [ImageOf(a, o), ImageOf(b, o), ImageOf(c, o)]
    ensures Chain(ImagesOf([a, b, c], o)) == Cons(ImageOf(a, o).it, Cons(ImageOf(b, o).it, Cons(ImageOf(c, o).it, Nil)))
    ensures |Backs(ImagesOf([a, b, c], o))| == 3 && Backs(ImagesOf([a, b, c], o))[0] == ImageOf(a, o).back
  {
    hide ImageOf, ImagesOf, Chain, Backs;
    ChainOfTwo(b, c, o);
    var x, y, z := ImageOf(a, o), ImageOf(b, o), ImageOf(c, o);
    assert [a, b, c] == [a] + [b, c] && [x, y, z] == [x] + [y, z];
    OneImage(a, [b, c], x, [y, z], o);
  }

  /** A script's value can be encoded and read back, whatever the options. */
  lemma {:induction false} ScriptIsPlain(s: Script, o: Options, m: Mode)
    requires Sized(s) && !o.signedInts
    ensures Encodable(ToValue(s), o) && Plain(ToValue(s), o, m)
    decreases s, 1
  {
    match s.typ
    case 0 =>
      PlainTwo(Uint(0), if s.keyHash.None? then Null else Bytes(s.keyHash.value), o, m);
    case 3 =>
      SliceIsPlain(s.scripts, o, m);
      PlainThree(Uint(3), Uint(s.n), ListValue(s.scripts), o, m);
    case 4 => PlainTwo(Uint(4), Uint(s.interval), o, m);
    case 5 => PlainTwo(Uint(5), Uint(s.interval), o, m);
    case t =>
      if t < 3 {
        SliceIsPlain(s.scripts, o, m);
        PlainTwo(Uint(t), ListValue(s.scripts), o, m);
      }
  }

  lemma PlainTwo(a: Value, b: Value, o: Options, m: Mode)
    requires Encodable(a, o) && Plain(a, o, m) && Encodable(b, o) && Plain(b, o, m)
    ensures Encodable(Array([a, b]), o) && Plain(Array([a, b]), o, m)
  {
    assert [a, b][1..] == [b] && [b][1..] == [];
    assert AllEncodable([b], o) && AllPlain([b], o, m);
  }

  lemma PlainThree(a: Value, b: Value, c: Value, o: Options, m: Mode)
    requires Encodable(a, o) && Plain(a, o, m) && Encodable(b, o) && Plain(b, o, m) && Encodable(c, o) && Plain(c, o, m)
    ensures Encodable(Array([a, b, c]), o) && Plain(Array([a, b, c]), o, m)
  {
    assert [a, b, c][1..] == [b, c];
    PlainTwo(b, c, o, m);
  }

  lemma {:induction false} SliceIsPlain(scripts: ScriptSlice, o: Options, m: Mode)
    requires SizedSlice(scripts) && !o.signedInts
    ensures Encodable(ListValue(scripts), o) && Plain(ListValue(scripts), o, m)
    decreases scripts
  {
    if scripts.Slice? { ScriptsArePlain(scripts.list, o, m); }
  }

  lemma {:induction false} ScriptsArePlain(ss: seq<Script>, o: Options, m: Mode)
    requires AllSized(ss) && !o.signedInts
    ensures AllEncodable(ToValues(ss), o) && AllPlain(ToValues(ss), o, m)
    decreases ss
  {
    hide Encodable, Plain, Sized, ToValue;
    if ss != [] {
      ScriptIsPlain(ss[0], o, m);
      ScriptsArePlain(ss[1..], o, m);
      assert ToValues(ss)[1..] == ToValues(ss[1..]);
    }
  }

  lemma ReadTwoFields(it: Item, a: Item, b: Item, t: nat, m: Mode)
    requires it.Node? && it.h.major == 4 && it.items == Cons(a, Cons(b, Nil))
    requires ReadType(it, m) == Some(t) && t <= 5 && t != 3 && ReadUint(a, MAX_UINT64) == Some(t)
    ensures t == 0 && ReadBytes(b).Some? ==> ReadScript(it, ZERO, m) == Some(Script(0, ReadBytes(b).value, 0, NilSlice, 0))
    ensures 1 <= t <= 2 && ReadScripts(b, m).Some? ==> ReadScript(it, ZERO, m) == Some(Script(t, None, 0, ReadScripts(b, m).value, 0))
    ensures t >= 4 && ReadUint(b, MAX_UINT64).Some? ==> ReadScript(it, ZERO, m) == Some(Script(t, None, 0, NilSlice, ReadUint(b, MAX_UINT64).value))
  {
    hide ReadType, ReadUint, ReadBytes, ReadScripts;
    assert Count(Nil) == 0 && Count(Cons(b, Nil)) == 1;
    assert FieldsOf(it) == it.items;
  }

  lemma ReadThreeFields(it: Item, a: Item, b: Item, c: Item, m: Mode)
    requires it.Node? && it.h.major == 4 && it.items == Cons(a, Cons(b, Cons(c, Nil)))
    requires ReadType(it, m) == Some(3) && ReadUint(a, MAX_UINT64) == Some(3)
    ensures ReadUint(b, MAX_UINT64).Some? && ReadScripts(c, m).Some? ==>
      ReadScript(it, ZERO, m) == Some(Script(3, None, ReadUint(b, MAX_UINT64).value, ReadScripts(c, m).value, 0))
  {
    hide ReadType, ReadUint, ReadBytes, ReadScripts;
    assert Count(Nil) == 0 && Count(Cons(c, Nil)) == 1 && Count(Cons(b, Cons(c, Nil))) == 2;
    assert FieldsOf(it) == it.items;
  }

  lemma UintRoundTrip(n: nat, o: Options)
    requires n <= MAX_UINT64
    ensures ReadUint(ImageOf(Uint(n), o).it, MAX_UINT64) == Some(n)
  {
  }

  lemma KeyHashRoundTrip(b: Option<seq<byte>>, o: Options)
    ensures ReadBytes(ImageOf(if b.None? then Null else Bytes(b.value), o).it) == Some(b)
  {
  }

  /** The script that is read from the tree of a script is that script. */
  lemma {:induction false} ScriptRoundTrip(s: Script, o: Options, m: Mode)
    requires Sized(s) && IsScript(s) && !o.signedInts && !m.signedInts && o.wrapKeys == m.wrapKeys
    ensures ReadScript(ImageOf(ToValue(s), o).it, ZERO, m) == Some(s)
    ensures !IsTag(ImageOf(ToValue(s), o).it)
    decreases s
  {
    hide AreScripts, AllSized, ReadScripts, ReadScript, ReadUint, ReadBytes, ReadType, ImagesOf, Chain;
    TypeRoundTrip(s, o, m);
    if 1 <= s.typ <= 3 { SliceRoundTrip(s.scripts, o, m); }
    UintRoundTrip(s.typ, o);
    UintRoundTrip(s.n, o);
    UintRoundTrip(s.interval, o);
    KeyHashRoundTrip(s.keyHash, o);
    var it := ImageOf(ToValue(s), o).it;
    var first := ImageOf(Uint(s.typ), o).it;
    if s.typ == 3 {
      var second, third := Uint(s.n), ListValue(s.scripts);
      ChainOfThree(Uint(3), second, third, o);
      ReadThreeFields(it, first, ImageOf(second, o).it, ImageOf(third, o).it, m);
    } else {
      var second := if s.typ == 0 then (if s.keyHash.None? then Null else Bytes(s.keyHash.value))
        else if s.typ < 4 then ListValue(s.scripts) else Uint(s.interval);
      ChainOfTwo(Uint(s.typ), second, o);
      ReadTwoFields(it, first, ImageOf(second, o).it, s.typ, m);
    }
  }

  lemma TypeRoundTrip(s: Script, o: Options, m: Mode)
    requires Sized(s) && IsScript(s) && !o.signedInts && !m.signedInts && o.wrapKeys == m.wrapKeys
    ensures ReadType(ImageOf(ToValue(s), o).it, m) == Some(s.typ)
  {
    var it := ImageOf(ToValue(s), o).it;
    ScriptIsPlain(s, o, m);
    RoundTrip(ToValue(s), o, m);
    FirstBack(s, o);
    hide IsScript, InterpArray, Chain, Backs, ImagesOf;
  }

  lemma FirstBack(s: Script, o: Options)
    requires s.typ <= 5 && !o.signedInts
    ensures ToValue(s).Array? && var bs := Backs(ImagesOf(ToValue(s).vs, o)); bs != [] && bs[0] == Uint(s.typ)
  {
  }

  lemma {:induction false} SliceRoundTrip(scripts: ScriptSlice, o: Options, m: Mode)
    requires SizedSlice(scripts) && IsScriptSlice(scripts) && !o.signedInts && !m.signedInts && o.wrapKeys == m.wrapKeys
    ensures ReadScripts(ImageOf(ListValue(scripts), o).it, m) == Some(scripts)
    decreases scripts
  {
    hide ReadScriptList, IsScript, Sized, ToValue;
    if scripts.Slice? {
      ListRoundTrip(scripts.list, [], o, m);
      assert [] + scripts.list == scripts.list;
    }
  }

  lemma {:induction false} ListRoundTrip(ss: seq<Script>, acc: seq<Script>, o: Options, m: Mode)
    requires AllSized(ss) && AreScripts(ss) && !o.signedInts && !m.signedInts && o.wrapKeys == m.wrapKeys
    ensures ReadScriptList(Chain(ImagesOf(ToValues(ss), o)), acc, m) == Some(acc + ss)
    decreases ss
  {
    hide IsScript, Sized, ToValue, ImageOf, ReadScript;
    if ss == [] {
      assert acc + ss == acc;
    } else {
      ScriptRoundTrip(ss[0], o, m);
      ListRoundTrip(ss[1..], acc + [ss[0]], o, m);
      var images := ImagesOf(ToValues(ss), o);
      assert ToValues(ss)[1..] == ToValues(ss[1..]) && images[1..] == ImagesOf(ToValues(ss[1..]), o);
      assert acc + ss == (acc + [ss[0]]) + ss[1..];
    }
  }
}
