/** What a decoded item means: the value the decoder hands out, and the first error on the way. */
module CborValues {
  import opened MachineInts
  import opened CborItems
  import opened Wrappers

  /**
   * The decoder's default values. A map is the list of its entries in the order they were first
   * put; a float is its width and its bits; points in time are left abstract.
   */
  datatype Value =
    | Null | Bool(b: bool) | Uint(n: nat) | Int(i: int) | BigInt(i: int) | Float(ai: nat, bits: nat)
    | Bytes(s: seq<byte>) | ByteString(s: seq<byte>) | Text(s: seq<byte>)
    | Array(vs: seq<Value>) | Map(entries: seq<(Value, Value)>) | Tag(num: nat, content: Value) | Time(t: int)

  datatype Error = IntOverflow | InvalidUtf8 | WrongTagContent(num: nat) | BadTime | UnhashableKey | DuplicateKey(key: Value, index: nat)

  datatype Parsed = Parsed(v: Value, err: Option<Error>)

  /** Decoding options; text validity, conversion to time and equality of floats and times are parameters. */
  datatype Mode = Mode(
    lim: Limits, signedInts: bool, wrapKeys: bool, rejectDuplicates: bool, ignoreTimeTag: bool,
    validUtf8: seq<byte> -> bool, toTime: Value -> Parsed, sameAtom: (Value, Value) -> bool)

  const SELF_DESCRIBED := 55799

  function First(err: Option<Error>, next: Option<Error>): Option<Error> {
    if err.None? then next else err
  }

  /** Whether the content of a built-in tag starts with a head of the expected kind. */
  predicate ValidBuiltinTag(num: nat, head: int) {
    match num
    case 0 => head / 32 == 3
    case 1 => head / 32 == 0 || head / 32 == 1 || 0xf9 <= head <= 0xfb
    case 2 => head / 32 == 2
    case 3 => head / 32 == 2
    case _ => true
  }

  /** The chunks of a string put together. */
  function Joined(items: Items): seq<byte> {
    match items
    case Nil => []
    case Cons(it, rest) => (if it.Str? then it.body else []) + Joined(rest)
  }

  function Content(it: Item): seq<byte> {
    match it
    case Atom(_) => []
    case Str(_, body) => body
    case Node(_, items) => Joined(items)
  }

  predicate AllValidUtf8(items: Items, m: Mode) {
    match items
    case Nil => true
    case Cons(it, rest) => (it.Str? ==> m.validUtf8(it.body)) && AllValidUtf8(rest, m)
  }

  predicate IsText(it: Item, m: Mode) {
    match it
    case Atom(_) => false
    case Str(_, body) => m.validUtf8(body)
    case Node(_, items) => AllValidUtf8(items, m)
  }

  /** Values that can be keys of a Go map. */
  predicate Hashable(v: Value) {
    match v
    case Bytes(_) => false
    case BigInt(_) => false
    case Array(_) => false
    case Map(_) => false
    case Tag(_, content) => Hashable(content)
    case _ => true
  }

  /** Equality of two keys of a Go map. */
  predicate SameKey(a: Value, b: Value, m: Mode) {
    if a.Tag? && b.Tag? then a.num == b.num && SameKey(a.content, b.content, m)
    else if (a.Float? && b.Float?) || (a.Time? && b.Time?) then m.sameAtom(a, b)
    else a == b
  }

  /** Assignment to a key of a Go map. */
  function Put(entries: seq<(Value, Value)>, k: Value, v: Value, m: Mode): (r: seq<(Value, Value)>)
    ensures |entries| <= |r| <= |entries| + 1
  {
    if entries == [] then [(k, v)]
    else if SameKey(entries[0].0, k, m) then [(entries[0].0, v)] + entries[1..]
    else [entries[0]] + Put(entries[1..], k, v, m)
  }

  function Wrapped(k: Value, m: Mode): Value {
    if k.Bytes? && m.wrapKeys then ByteString(k.s) else k
  }

  /** The item behind the self-described tags. */
  function Stripped(it: Item): Item {
    if IsTag(it) && it.items.Cons? && it.h.val == SELF_DESCRIBED then Stripped(it.items.head) else it
  }

  /** Meaning of an item, after taking off self-described tags if `strip` says so. */
  function Interp(it: Item, strip: bool, m: Mode): Parsed
    decreases it, 1
  {
    if strip && IsTag(it) && it.items.Cons? && it.h.val == SELF_DESCRIBED then Interp(it.items.head, true, m)
    else Interpret(it, m)
  }

  function Interpret(it: Item, m: Mode): Parsed
    decreases it, 0
  {
    match it.h.major
    case 0 =>
      if !m.signedInts then Parsed(Uint(it.h.val), None)
      else if it.h.val > MAX_INT then Parsed(Null, Some(IntOverflow))
      else Parsed(Int(it.h.val), None)
    case 1 => if it.h.val > MAX_INT then Parsed(BigInt(-1 - it.h.val), None) else Parsed(Int(-1 - it.h.val), None)
    case 2 => Parsed(Bytes(Content(it)), None)
    case 3 => if IsText(it, m) then Parsed(Text(Content(it)), None) else Parsed(Null, Some(InvalidUtf8))
    case 4 => if it.Node? then InterpArray(it.items, [], None, m) else Parsed(Null, None)
    case 5 => if it.Node? then InterpMap(it.items, 0, [], None, m) else Parsed(Null, None)
    case 6 => if IsTag(it) && it.items.Cons? then InterpTag(it.h.val, it.items.head, m) else Parsed(Null, None)
    case _ =>
      if it.h.ai < 20 || it.h.ai == 24 then Parsed(Uint(it.h.val), None)
      else if it.h.ai < 22 then Parsed(Bool(it.h.ai == 21), None)
      else if it.h.ai < 24 then Parsed(Null, None)
      else Parsed(Float(it.h.ai, it.h.val), None)
  }

  function InterpTag(num: nat, content: Item, m: Mode): Parsed
    decreases content, 2
  {
    if !ValidBuiltinTag(num, content.h.major * 32 + content.h.ai) then Parsed(Null, Some(WrongTagContent(num)))
    else if num == 2 then Parsed(BigInt(BigEndian(Content(content))), None)
    else if num == 3 then Parsed(BigInt(-1 - BigEndian(Content(content))), None)
    else
      var p := Interp(content, false, m);
      if num <= 1 then if p.err.Some? then Parsed(Time(0), p.err) else m.toTime(p.v)
      else if p.err.Some? then Parsed(Null, p.err)
      else Parsed(Tag(num, p.v), None)
  }

  /** The elements so far and the first error; an element that fails stays null. */
  function InterpArray(items: Items, vs: seq<Value>, err: Option<Error>, m: Mode): Parsed
    decreases items, 0
  {
    match items
    case Nil => Parsed(Array(vs), err)
    case Cons(it, rest) =>
      var p := Interp(it, true, m);
      InterpArray(rest, vs + [if p.err.Some? then Null else p.v], First(err, p.err), m)
  }

  /** The entries so far, with `i` pairs read; a pair that fails is dropped. */
  function InterpMap(items: Items, i: nat, entries: seq<(Value, Value)>, err: Option<Error>, m: Mode): Parsed
    decreases items, 0
  {
    if items.Nil? || items.tail.Nil? then Parsed(Map(entries), err) else
    var rest := items.tail.tail;
    var p := Interp(items.head, true, m);
    var k := Wrapped(p.v, m);
    if p.err.Some? then InterpMap(rest, i + 1, entries, First(err, p.err), m)
    else if !Hashable(k) then InterpMap(rest, i + 1, entries, First(err, Some(UnhashableKey)), m)
    else
      var e := Interp(items.tail.head, true, m);
      if e.err.Some? then InterpMap(rest, i + 1, entries, First(err, e.err), m)
      else
        var now := Put(entries, k, e.v, m);
        if m.rejectDuplicates && |now| == |entries| then Parsed(Map(Put(now, k, Null, m)), Some(DuplicateKey(k, i)))
        else InterpMap(rest, i + 1, now, err, m)
  }
}
