/** The bytes of every kind of value, written out (section 3 of RFC 8949), and that other spellings mean the same. */
module CborKnown {
  import opened MachineInts
  import opened CborItems
  import opened CborBytes
  import opened CborValues
  import opened CborEncode
  import opened CborEncoder
  import opened Wrappers

  // What is written.

  /** The shortest head: the argument itself, or its width and its bytes, most significant first. */
  function Initial(first: byte, n: nat): seq<byte>
    requires first <= 0xe0 && n < 0x1_0000_0000_0000_0000
  {
    if n < 24 then [first + n]
    else if n < 0x100 then [first + 0x18, n]
    else if n < 0x1_0000 then [first + 0x19, n / 0x100, n % 0x100]
    else if n < 0x1_0000_0000 then [first + 0x1a] + Four(n)
    else [first + 0x1b] + Four(n / 0x1_0000_0000) + Four(n % 0x1_0000_0000)
  }

  function Four(n: nat): seq<byte>
    requires n < 0x1_0000_0000
  {
    [n / 0x100_0000, n / 0x1_0000 % 0x100, n / 0x100 % 0x100, n % 0x100]
  }

  lemma ShortestBytes(major: nat, n: nat)
    requires major <= 7 && n < 0x1_0000_0000_0000_0000
    ensures IsWritable(Shortest(major, n)) && HeadBytes(Shortest(major, n)) == Initial(32 * major, n)
  {
    if 24 <= n < 0x100 {
      OneByte(n);
    } else if 0x100 <= n < 0x1_0000 {
      TwoBytes(n);
    } else if 0x1_0000 <= n < 0x1_0000_0000 {
      FourBytes(n);
    } else if n >= 0x1_0000_0000 {
      EightBytes(n);
    }
  }

  lemma OneByte(n: nat)
    requires n < 0x100
    ensures ToBigEndian(n, 1) == [n]
  {
    assert ToBigEndian(n / 0x100, 0) == [];
  }

  lemma TwoBytes(n: nat)
    requires n < 0x1_0000
    ensures ToBigEndian(n, 2) == [n / 0x100, n % 0x100]
  {
    OneByte(n / 0x100);
  }

  lemma FourBytes(n: nat)
    requires n < 0x1_0000_0000
    ensures ToBigEndian(n, 4) == Four(n)
  {
    TwoBytes(n / 0x1_0000);
    assert n / 0x100 / 0x100 == n / 0x1_0000 && n / 0x1_0000 / 0x100 == n / 0x100_0000;
    assert ToBigEndian(n / 0x100, 3) == ToBigEndian(n / 0x1_0000, 2) + [n / 0x100 % 0x100];
  }

  lemma EightBytes(n: nat)
    requires n < 0x1_0000_0000_0000_0000
    ensures ToBigEndian(n, 8) == Four(n / 0x1_0000_0000) + Four(n % 0x1_0000_0000)
  {
    AppendedBytes(n, 4, 4, 0x1_0000_0000);
    FourBytes(n / 0x1_0000_0000);
    FourBytes(n % 0x1_0000_0000);
  }

  /** The last `k` bytes are those of the remainder. */
  lemma {:induction false} AppendedBytes(n: nat, w: nat, k: nat, p: nat)
    requires k <= 4 && p == (match k case 0 => 1 case 1 => 0x100 case 2 => 0x1_0000 case 3 => 0x100_0000 case 4 => 0x1_0000_0000)
    ensures ToBigEndian(n, w + k) == ToBigEndian(n / p, w) + ToBigEndian(n % p, k)
  {
    if k > 0 {
      AppendedBytes(n / 0x100, w, k - 1, p / 0x100);
      Digits(n, p / 0x100);
    }
  }

  lemma Digits(n: nat, q: nat)
    requires q == 1 || q == 0x100 || q == 0x1_0000 || q == 0x100_0000
    ensures n / 0x100 / q == n / (0x100 * q) && n / 0x100 % q == n % (0x100 * q) / 0x100 && n % (0x100 * q) % 0x100 == n % 0x100
  {
  }

  /** Integers, strings, booleans and null. */
  lemma WrittenLeaf(v: Value, o: Options)
    requires Encodable(v, o)
    ensures v.Uint? ==> Written(v, o) == Initial(0x00, v.n)
    ensures v.Int? && v.i >= 0 ==> Written(v, o) == Initial(0x00, v.i)
    ensures v.Int? && v.i < 0 ==> Written(v, o) == Initial(0x20, -1 - v.i)
    ensures v.Bytes? || v.ByteString? ==> Written(v, o) == Initial(0x40, |v.s|) + v.s
    ensures v.Text? ==> Written(v, o) == Initial(0x60, |v.s|) + v.s
    ensures v.Bool? ==> Written(v, o) == [if v.b then 0xf5 else 0xf4]
    ensures v.Null? ==> Written(v, o) == [0xf6]
  {
    hide HeadBytes, Initial;
    match v
    case Uint(n) => ShortestBytes(0, n);
    case Int(i) => if i >= 0 { ShortestBytes(0, i); } else { ShortestBytes(1, -1 - i); }
    case Bytes(s) => ShortestBytes(2, |s|);
    case ByteString(s) => ShortestBytes(2, |s|);
    case Text(s) => ShortestBytes(3, |s|);
    case Bool(b) => SimpleBytes();
    case Null => SimpleBytes();
    case _ =>
  }

  lemma SimpleBytes()
    ensures HeadBytes(Head(7, 20, 20)) == [0xf4] && HeadBytes(Head(7, 21, 21)) == [0xf5] && HeadBytes(Head(7, 22, 22)) == [0xf6]
  {
  }

  /** Arrays, maps with their pairs in the mode's order, and tags. */
  lemma WrittenNode(v: Value, o: Options)
    requires Encodable(v, o)
    ensures v.Array? ==> AllEncodable(v.vs, o) && Written(v, o) == Initial(0x80, |v.vs|) + WrittenAll(v.vs, o)
    ensures v.Map? ==> var pairs := Arranged(PairImages(v.entries, o), o.order);
      AllPairsShaped(pairs) && Written(v, o) == Initial(0xa0, |v.entries|) + JoinedPairs(KVs(pairs))
    ensures v.Tag? && !(v.num == 0 && v.content == Null) ==>
      Encodable(v.content, o) && Written(v, o) == Initial(0xc0, v.num) + Written(v.content, o)
  {
    hide HeadBytes, Initial;
    match v
    case Array(vs) => ShortestBytes(4, |vs|); WrittenArray(vs, o);
    case Map(entries) => ShortestBytes(5, |entries|); WrittenMap(entries, o);
    case Tag(num, content) => ShortestBytes(6, num); if !(num == 0 && content == Null) { WrittenTag(num, content, o); }
    case _ =>
  }

  // What is read.

  /** The width of a head does not matter. */
  lemma WidthDoesNotMatter(h: Head, other: Head, body: seq<byte>, items: Items, m: Mode)
    requires h.major == other.major < 7 && h.val == other.val
    ensures h.major < 2 ==> Interp(Atom(h), true, m) == Interp(Atom(other), true, m)
    ensures 2 <= h.major <= 3 ==> Interp(Str(h, body), true, m) == Interp(Str(other, body), true, m)
    ensures 4 <= h.major ==> Interp(Node(h, items), true, m) == Interp(Node(other, items), true, m)
  {
  }

  /** A string in chunks means what the chunks put together mean. */
  lemma ChunksDoNotMatter(chunks: Items, m: Mode)
    ensures var s := Joined(chunks);
      && Interp(Node(Head(2, 31, 31), chunks), true, m) == Interp(Str(Shortest(2, |s|), s), true, m) == Parsed(Bytes(s), None)
      && (AllValidUtf8(chunks, m) && m.validUtf8(s) ==>
            Interp(Node(Head(3, 31, 31), chunks), true, m) == Interp(Str(Shortest(3, |s|), s), true, m) == Parsed(Text(s), None))
  {
  }

  /** Nor does it matter whether the length of an array or a map is announced or ended by the break code. */
  lemma LengthDoesNotMatter(items: Items, n: nat, m: Mode)
    ensures Interp(Node(Head(4, 31, 31), items), true, m) == Interp(Node(Shortest(4, n), items), true, m)
    ensures Interp(Node(Head(5, 31, 31), items), true, m) == Interp(Node(Shortest(5, n), items), true, m)
  {
  }

  /** Simple values and floats: e0 to f3 and f8 followed by a number, false, true, null, undefined, and f9, fa and fb. */
  lemma SimpleMeaning(h: Head, m: Mode)
    requires h.major == 7
    ensures var p := Interp(Atom(h), true, m);
      && (h.ai < 20 || h.ai == 24 ==> p == Parsed(Uint(h.val), None))
      && (h == Head(7, 20, 20) ==> p == Parsed(Bool(false), None))
      && (h == Head(7, 21, 21) ==> p == Parsed(Bool(true), None))
      && (h.ai == 22 || h.ai == 23 ==> p == Parsed(Null, None))
      && (25 <= h.ai <= 27 ==> p == Parsed(Float(h.ai, h.val), None))
  {
  }
}
