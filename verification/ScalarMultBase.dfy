/** Multiples of the base point from a table, with signed digits in base 16. */
module ScalarMultBase {
  import opened Arith
  import opened Group
  import opened MachineInts

  // The branch-free selection of the source, on 32-bit two's-complement words.

  /** 1 if the non-negative words are equal, else 0. */
  function Equal(b: bv32, c: bv32): bv32 {
    Borrow(Difference(b, c))
  }

  function Difference(b: bv32, c: bv32): bv32 {
    b ^ c
  }

  function Borrow(x: bv32): bv32 {
    (x - 1) >> 31
  }

  lemma DifferenceIsZero(b: bv32, c: bv32)
    ensures Difference(b, c) == 0 <==> b == c
  {
    DifferenceTwice(b, c);
    DifferenceOfNone(b);
    hide Difference;
  }

  lemma DifferenceTwice(b: bv32, c: bv32)
    ensures Difference(b, Difference(b, c)) == c
  {
  }

  lemma DifferenceOfNone(b: bv32)
    ensures Difference(b, 0) == b && Difference(b, b) == 0
  {
  }

  lemma DifferenceIsSmall(b: bv32, c: bv32)
    requires b < 0x8000_0000 && c < 0x8000_0000
    ensures Difference(b, c) < 0x8000_0000
  {
  }

  lemma BorrowOfZero(x: bv32)
    requires x < 0x8000_0000
    ensures Borrow(x) == if x == 0 then 1 else 0
  {
  }

  function Negative(b: bv32): bv32 {
    (b >> 31) & 1
  }

  /** `u` if the flag is 1, `t` if it is 0, by masking. */
  function MaskedWord(t: bv32, u: bv32, flag: bv32): bv32 {
    t ^ ((0 - flag) & (t ^ u))
  }

  function AbsWord(b: bv32): bv32 {
    b - (((0 - Negative(b)) & b) << 1)
  }

  function Word(d: int): bv32
    requires -8 <= d <= 8
  {
    if d >= 0 then d as bv32 else 0 - ((-d) as bv32)
  }

  lemma MaskSelects(t: bv32, u: bv32)
    ensures MaskedWord(t, u, 0) == t && MaskedWord(t, u, 1) == u
  {
  }

  /** Replaces `f` by `g` if the flag is 1 and leaves it if it is 0, without branching: all words are rewritten. */
  method FeCMove(f: array<bv32>, g: array<bv32>, flag: bv32)
    requires f.Length == g.Length == 10 && flag <= 1
    modifies f
    ensures f[..] == old(if flag == 1 then g[..] else f[..])
  {
    hide MaskedWord;
    ghost var from, to := f[..], g[..];
    for i := 0 to 10
      invariant forall k {:trigger f[k]} :: 0 <= k < i ==> f[k] == if flag == 1 then to[k] else from[k]
      invariant forall k {:trigger f[k]} :: i <= k < 10 ==> f[k] == from[k]
      invariant f == g || g[..] == to
    {
      MaskSelects(f[i], g[i]);
      f[i] := MaskedWord(f[i], g[i], flag);
    }
    assert forall k {:trigger f[..][k]} :: 0 <= k < 10 ==> f[..][k] == f[k];
  }

  lemma EqualIsEquality(b: bv32, c: bv32)
    requires b < 0x8000_0000 && c < 0x8000_0000
    ensures Equal(b, c) == if b == c then 1 else 0
  {
    hide Difference, Borrow;
    DifferenceIsZero(b, c);
    DifferenceIsSmall(b, c);
    BorrowOfZero(Difference(b, c));
  }

  lemma SignOfWord(w: bv32)
    requires 0 < w <= 8
    ensures Negative(w) == 0 && AbsWord(w) == w
    ensures Negative(0 - w) == 1 && AbsWord(0 - w) == w
  {
  }

  lemma SmallWord(x: int)
    requires 0 <= x <= 8
    ensures x as bv32 <= 8 && (x as bv32 == 0 <==> x == 0)
  {
  }

  lemma SignAndSize(d: int)
    requires -8 <= d <= 8
    ensures Negative(Word(d)) == (if d < 0 then 1 else 0)
    ensures AbsWord(Word(d)) == (if d < 0 then -d else d) as bv32 <= 8
  {
    var n := if d < 0 then -d else d;
    SmallWord(n);
    if d != 0 { SignOfWord(n as bv32); }
  }

  lemma WordsDiffer(x: int, y: int)
    requires 0 <= x <= 8 && 0 <= y <= 8
    ensures x as bv32 == y as bv32 <==> x == y
  {
  }

  // Table entries: the three field elements of a precomputed point, by their words.

  datatype Entry = Entry(yPlusX: seq<bv32>, yMinusX: seq<bv32>, xy2d: seq<bv32>)

  predicate IsEntry(e: Entry) {
    |e.yPlusX| == |e.yMinusX| == |e.xy2d| == 10
  }

  function NegatedWords(s: seq<bv32>): (r: seq<bv32>)
    ensures |r| == |s|
  {
    seq(|s|, i requires 0 <= i < |s| => 0 - s[i])
  }

  /** The entry of the negated point. */
  function Negated(e: Entry): Entry {
    Entry(e.yMinusX, e.yPlusX, NegatedWords(e.xy2d))
  }

  const ZERO: seq<bv32> := [0, 0, 0, 0, 0, 0, 0, 0, 0, 0]
  const ONE: seq<bv32> := [1, 0, 0, 0, 0, 0, 0, 0, 0, 0]
  const ZERO_ENTRY := Entry(ONE, ONE, ZERO)

  method FeCopy(dst: array<bv32>, src: array<bv32>)
    requires dst.Length == src.Length == 10
    modifies dst
    ensures dst[..] == old(src[..])
  {
    forall i | 0 <= i < 10 { dst[i] := src[i]; }
  }

  method FeNeg(h: array<bv32>, f: array<bv32>)
    requires h.Length == f.Length == 10
    modifies h
    ensures h[..] == NegatedWords(old(f[..]))
  {
    forall i | 0 <= i < 10 { h[i] := 0 - f[i]; }
  }

  class PreComputed {
    const yPlusX: array<bv32>
    const yMinusX: array<bv32>
    const xy2d: array<bv32>

    constructor (e: Entry)
      requires IsEntry(e)
      ensures Valid() && fresh(yPlusX) && fresh(yMinusX) && fresh(xy2d) && Contents() == e
    {
      yPlusX := new bv32[10](i requires 0 <= i < 10 => e.yPlusX[i]);
      yMinusX := new bv32[10](i requires 0 <= i < 10 => e.yMinusX[i]);
      xy2d := new bv32[10](i requires 0 <= i < 10 => e.xy2d[i]);
    }

    ghost predicate Valid() {
      yPlusX.Length == yMinusX.Length == xy2d.Length == 10 && yPlusX != yMinusX && yPlusX != xy2d && yMinusX != xy2d
    }

    function Contents(): Entry
      reads yPlusX, yMinusX, xy2d
    {
      Entry(yPlusX[..], yMinusX[..], xy2d[..])
    }

    ghost predicate Apart(u: PreComputed) {
      {yPlusX, yMinusX, xy2d} !! {u.yPlusX, u.yMinusX, u.xy2d}
    }

    method Zero()
      requires Valid()
      modifies yPlusX, yMinusX, xy2d
      ensures Contents() == ZERO_ENTRY
    {
      forall i | 0 <= i < 10 { yPlusX[i] := if i == 0 then 1 else 0; }
      forall i | 0 <= i < 10 { yMinusX[i] := if i == 0 then 1 else 0; }
      forall i | 0 <= i < 10 { xy2d[i] := 0; }
    }

    /** Replaces the entry by `u` if the flag is 1 and leaves it if it is 0, rewriting all words. */
    method CMove(u: PreComputed, flag: bv32)
      requires Valid() && u.Valid() && Apart(u) && flag <= 1
      modifies yPlusX, yMinusX, xy2d
      ensures Contents() == old(if flag == 1 then u.Contents() else Contents())
    {
      FeCMove(yPlusX, u.yPlusX, flag);
      FeCMove(yMinusX, u.yMinusX, flag);
      FeCMove(xy2d, u.xy2d, flag);
    }
  }

  /** The entries of the source's table, and the point that an entry stands for. */
  datatype Table<!T> = Table(base: seq<seq<Entry>>, point: Entry -> T)

  ghost predicate StandsFor<T>(g: Group<T>, table: Table<T>, e: Entry, p: T) {
    IsEntry(e) && table.point(e) == p && table.point(Negated(e)) == g.neg(p)
  }

  /** The table of the source: (j + 1) * 256^i * B. */
  ghost predicate IsBaseTable<T>(g: Group<T>, table: Table<T>, f: int -> T) {
    table.point(ZERO_ENTRY) == g.zero && |table.base| == 32 && forall i {:trigger table.base[i]} :: 0 <= i < 32 ==>
      |table.base[i]| == 8 && forall j {:trigger table.base[i][j]} :: 0 <= j < 8 ==>
        StandsFor(g, table, table.base[i][j], f((j + 1) * Two(8 * i)))
  }

  /** `f` counts multiples of one point: it turns sums into sums. */
  ghost predicate AddsAt<T>(g: Group<T>, f: int -> T, x: int, y: int) {
    g.add(f(x), f(y)) == f(x + y)
  }

  ghost predicate IsMultiples<T>(g: Group<T>, f: int -> T) {
    && f(0) == g.zero
    && (forall x, y {:trigger AddsAt(g, f, x, y)} :: AddsAt(g, f, x, y))
    && (forall x {:trigger f(-x)} :: g.neg(f(x)) == f(-x))
  }

  lemma EqualCount(size: int, i: int)
    requires 0 <= size <= 8 && 1 <= i <= 8
    ensures Equal(size as bv32, i as bv32) == if size == i then 1 else 0
  {
    SmallWord(size);
    SmallWord(i);
    EqualIsEquality(size as bv32, i as bv32);
    WordsDiffer(size, i);
  }

  /** What the digit `b` selects from a row. */
  function Selected(row: seq<Entry>, b: int): Entry
    requires |row| == 8 && -8 <= b <= 8
  {
    if b == 0 then ZERO_ENTRY else if b > 0 then row[b - 1] else Negated(row[-b - 1])
  }

  /** Moves every entry of the row over `t` in turn, under a mask that is set for entry number `size` only. */
  method ScanRow(t: PreComputed, row: seq<Entry>, size: bv32, ghost n: nat)
    requires t.Valid() && |row| == 8 && (forall e {:trigger IsEntry(e)} :: e in row ==> IsEntry(e)) && n <= 8 && size == n as bv32
    modifies t.yPlusX, t.yMinusX, t.xy2d
    ensures t.Contents() == Selected(row, n)
  {
    t.Zero();
    for i := 0 to 8
      invariant t.Contents() == if n <= i then Selected(row, n) else ZERO_ENTRY
    {
      EqualCount(n, i + 1);
      assert row[i] in row && IsEntry(row[i]);
      var u := new PreComputed(row[i]); // stands for the table's own entry, which is only read
      t.CMove(u, Equal(size, (i + 1) as bv32));
    }
  }

  /** The entry for a signed digit, without branching on it: the sign moves the negated entry over the selected one. */
  method SelectEntry(t: PreComputed, row: seq<Entry>, b: int8)
    requires t.Valid() && |row| == 8 && (forall e {:trigger IsEntry(e)} :: e in row ==> IsEntry(e)) && -8 <= b <= 8
    modifies t.yPlusX, t.yMinusX, t.xy2d
    ensures t.Contents() == Selected(row, b)
  {
    hide Word, AbsWord, Negative, NegatedWords;
    SignAndSize(b);
    ghost var size := if b < 0 then -b else b;
    var bNegative := Negative(Word(b));
    var bAbs := AbsWord(Word(b));
    ScanRow(t, row, bAbs, size);
    var minusT := new PreComputed(ZERO_ENTRY);
    FeCopy(minusT.yPlusX, t.yMinusX);
    FeCopy(minusT.yMinusX, t.yPlusX);
    FeNeg(minusT.xy2d, t.xy2d);
    assert minusT.Contents() == Negated(t.Contents());
    t.CMove(minusT, bNegative);
  }

  /** t = b * 256^pos * B. */
  method SelectPoint<T(!new)>(t: PreComputed, g: Group<T>, table: Table<T>, pos: nat, b: int8, ghost f: int -> T)
    requires t.Valid() && IsMultiples(g, f) && IsBaseTable(g, table, f) && pos < 32 && -8 <= b <= 8
    modifies t.yPlusX, t.yMinusX, t.xy2d
    ensures t.Contents() == Selected(table.base[pos], b) && table.point(t.Contents()) == f(b * Two(8 * pos))
  {
    SelectedPoint(g, table, pos, b, f);
    RowEntries(g, table, pos, f);
    SelectEntry(t, table.base[pos], b);
  }

  lemma RowEntries<T(!new)>(g: Group<T>, table: Table<T>, pos: nat, f: int -> T)
    requires IsBaseTable(g, table, f) && pos < 32
    ensures |table.base[pos]| == 8 && forall e {:trigger IsEntry(e)} :: e in table.base[pos] ==> IsEntry(e)
  {
    hide Two;
    var row := table.base[pos];
    forall e {:trigger IsEntry(e)} | e in row ensures IsEntry(e) {
      var j :| 0 <= j < |row| && row[j] == e;
      assert StandsFor(g, table, table.base[pos][j], f((j + 1) * Two(8 * pos)));
    }
  }

  /** The entry selected from row `pos` stands for b * 256^pos * B. */
  lemma SelectedPoint<T(!new)>(g: Group<T>, table: Table<T>, pos: nat, b: int, f: int -> T)
    requires IsMultiples(g, f) && IsBaseTable(g, table, f) && pos < 32 && -8 <= b <= 8
    ensures |table.base[pos]| == 8 && table.point(Selected(table.base[pos], b)) == f(b * Two(8 * pos))
  {
    hide Two, Negated;
    if b != 0 {
      var size := if b < 0 then -b else b;
      var n := size * Two(8 * pos);
      assert StandsFor(g, table, table.base[pos][size - 1], f((size - 1 + 1) * Two(8 * pos)));
      assert g.neg(f(n)) == f(-n);
      assert b < 0 ==> -n == b * Two(8 * pos);
    }
  }

  /** The number that base-16 digits stand for, least significant first. */
  ghost function Hex(e: seq<int>): int {
    if e == [] then 0 else e[0] + 16 * Hex(e[1..])
  }

  lemma {:induction false} HexUpdate(e: seq<int>, i: nat, x: int)
    requires i < |e|
    ensures Hex(e[i := x]) == Hex(e) + (x - e[i]) * Two(4 * i)
  {
    if i == 0 {
      assert e[0 := x][1..] == e[1..];
    } else {
      HexUpdate(e[1..], i - 1, x);
      assert e[i := x][1..] == e[1..][i - 1 := x];
      TwoAdd(4, 4 * (i - 1));
      assert Two(4) == 16;
      MulAssoc(16, Two(4 * (i - 1)), Two(4 * i), x - e[i]);
    }
  }

  lemma {:induction false} HexOfNibbles(e: seq<int>, a: seq<byte>)
    requires |e| == 2 * |a|
    requires forall i {:trigger a[i]} :: 0 <= i < |a| ==> e[2 * i] + 16 * e[2 * i + 1] == a[i]
    ensures Hex(e) == LittleEndian(a)
  {
    if a != [] {
      var d, b := e[2..], a[1..];
      forall i {:trigger b[i]} | 0 <= i < |b| ensures d[2 * i] + 16 * d[2 * i + 1] == b[i] {
        assert b[i] == a[i + 1] && d[2 * i] == e[2 * (i + 1)] && d[2 * i + 1] == e[2 * (i + 1) + 1];
      }
      HexOfNibbles(d, b);
      assert e[1..][1..] == d;
      assert a[0] == e[0] + 16 * e[1];
    }
  }

  /** Unsigned base-16 digits. */
  method Nibbles(a: array<byte>) returns (e: array<int8>)
    requires a.Length == 32 && a[31] <= 127
    ensures fresh(e) && e.Length == 64 && Hex(e[..]) == LittleEndian(a[..])
    ensures (forall k {:trigger e[k]} :: 0 <= k < 64 ==> 0 <= e[k] <= 15) && e[63] <= 7
  {
    e := new int8[64];
    for i := 0 to 32
      invariant forall k {:trigger a[k]} :: 0 <= k < i ==> e[2 * k] as int + 16 * e[2 * k + 1] as int == a[k]
      invariant forall k {:trigger e[k]} :: 0 <= k < 2 * i ==> 0 <= e[k] <= 15
      invariant i == 32 ==> e[63] == a[31] / 16
    {
      e[2 * i] := a[i] % 16;
      e[2 * i + 1] := a[i] / 16 % 16;
    }
    HexOfNibbles(e[..], a[..]);
  }

  /** Signed base-16 digits: each carries into the next when it exceeds 7. */
  method Recode(a: array<byte>) returns (e: array<int8>)
    requires a.Length == 32 && a[31] <= 127
    ensures fresh(e) && e.Length == 64 && Hex(e[..]) == LittleEndian(a[..])
    ensures forall k {:trigger e[k]} :: 0 <= k < 64 ==> -8 <= e[k] <= 8
  {
    hide Hex, LittleEndian, Two;
    e := Nibbles(a);
    NextHex(0);
    var carry: int8 := 0;
    for i := 0 to 63
      invariant 0 <= carry <= 1 && Hex(e[..]) + carry * Two(4 * i) == LittleEndian(a[..])
      invariant forall k {:trigger e[k]} :: 0 <= k < i ==> -8 <= e[k] <= 7
      invariant forall k {:trigger e[k]} :: i <= k < 64 ==> 0 <= e[k] <= 15
      invariant e[63] <= 7
    {
      ghost var before := e[..];
      e[i] := e[i] + carry;
      var next: int8 := (e[i] + 8) / 16;
      e[i] := e[i] - next * 16;
      assert e[..] == before[i := e[i]];
      HexUpdate(before, i, e[i]);
      NextHex(i);
      CarriedDigit(before[i], carry, next, Two(4 * i), Two(4 * (i + 1)));
      carry := next;
    }
    ghost var before := e[..];
    e[63] := e[63] + carry;
    assert e[..] == before[63 := e[63]];
    HexUpdate(before, 63, e[63]);
  }

  lemma NextHex(i: nat)
    ensures Two(4 * (i + 1)) == 16 * Two(4 * i) && Two(0) == 1
  {
    TwoAdd(4 * i, 4);
    assert Two(4) == 16 && 4 * (i + 1) == 4 * i + 4;
  }

  lemma CarriedDigit(x: int, carry: int, next: int, p: int, q: int)
    requires q == 16 * p
    ensures (x + carry - next * 16 - x) * p + next * q == carry * p
  {
    MulAssoc(next, 16, next * 16, p);
  }

  /** Every second digit from position `i` on, in base 256. */
  ghost function Every2nd(e: seq<int>, i: nat): int
    decreases |e| - i
  {
    if i >= |e| then 0 else e[i] + 0x100 * Every2nd(e, i + 2)
  }

  lemma {:induction false} EvenAndOdd(e: seq<int>, i: nat)
    requires i <= |e|
    ensures Hex(e[i..]) == Every2nd(e, i) + 16 * Every2nd(e, i + 1)
    decreases |e| - i
  {
    if i < |e| {
      EvenAndOdd(e, i + 1);
      assert e[i..][1..] == e[i + 1..];
    }
  }

  /** One step of a pass: the point moved by a digit of weight w, the rest of the digits weighing 256 w. */
  lemma PassStep(y: int, d: int, w: int, k: nat, rest: int)
    requires w == Two(8 * k)
    ensures y + w * (d + 0x100 * rest) == y + d * w + Two(8 * (k + 1)) * rest
  {
    TwoAdd(8 * k, 8);
    TwoValues();
    assert 8 * (k + 1) == 8 * k + 8;
    MulAssoc(w, 0x100, Two(8 * (k + 1)), rest);
  }

  /** Adds the table entries for every second digit from position `s` on. */
  method Pass<T(!new)>(t: PreComputed, g: Group<T>, p: T, table: Table<T>, e: seq<int8>, s: nat, ghost f: int -> T, ghost x: int) returns (h: T)
    requires t.Valid() && IsMultiples(g, f) && IsBaseTable(g, table, f) && p == f(x) && s <= 1
    requires |e| == 64 && forall k {:trigger e[k]} :: 0 <= k < 64 ==> -8 <= e[k] <= 8
    modifies t.yPlusX, t.yMinusX, t.xy2d
    ensures h == f(x + Every2nd(e, s))
  {
    hide Two, IsMultiples, IsBaseTable;
    TwoValues();
    h := p;
    ghost var y: int := 0;
    for k := 0 to 32
      invariant h == f(x + y)
      invariant Every2nd(e, s) == y + Two(8 * k) * Every2nd(e, 2 * k + s)
    {
      ghost var w := Two(8 * k);
      ghost var d: int := e[2 * k + s];
      PassStep(y, d, w, k, Every2nd(e, 2 * k + s + 2));
      h := AddEntry(t, g, table, k, e[2 * k + s], f, h, x + y);
      y := y + d * w;
    }
  }

  method AddEntry<T(!new)>(t: PreComputed, g: Group<T>, table: Table<T>, pos: nat, b: int8, ghost f: int -> T, p: T, ghost x: int) returns (h: T)
    requires t.Valid() && IsMultiples(g, f) && IsBaseTable(g, table, f) && pos < 32 && -8 <= b <= 8 && p == f(x)
    modifies t.yPlusX, t.yMinusX, t.xy2d
    ensures h == f(x + b * Two(8 * pos))
  {
    hide IsBaseTable, Selected;
    SelectPoint(t, g, table, pos, b, f);
    assert AddsAt(g, f, x, b * Two(8 * pos));
    h := g.add(p, table.point(t.Contents()));
  }

  /** Four doublings. */
  method MulBy16<T(!new)>(g: Group<T>, p: T, ghost f: int -> T, ghost x: int) returns (h: T)
    requires IsMultiples(g, f) && p == f(x)
    ensures h == f(16 * x)
  {
    assert AddsAt(g, f, x, x) && AddsAt(g, f, 2 * x, 2 * x) && AddsAt(g, f, 4 * x, 4 * x) && AddsAt(g, f, 8 * x, 8 * x);
    h := g.Double(p);
    assert h == f(2 * x);
    h := g.Double(h);
    assert h == f(4 * x);
    h := g.Double(h);
    assert h == f(8 * x);
    h := g.Double(h);
  }

  /** h = a * B, from the table of small multiples of 256^i * B. */
  method GeScalarMultBase<T(!new)>(g: Group<T>, table: Table<T>, a: array<byte>, ghost pointB: T) returns (h: T)
    requires IsAbelian(g) && IsBaseTable(g, table, n => Times(g, n, pointB)) && a.Length == 32 && a[31] <= 127
    ensures h == Times(g, LittleEndian(a[..]), pointB)
  {
    ghost var f := n => Times(g, n, pointB);
    TimesIsMultiples(g, pointB, f);
    var e := Recode(a);
    var t := new PreComputed(ZERO_ENTRY);
    h := BothPasses(t, g, table, e[..], f);
  }

  method BothPasses<T(!new)>(t: PreComputed, g: Group<T>, table: Table<T>, e: seq<int8>, ghost f: int -> T) returns (h: T)
    requires t.Valid() && IsMultiples(g, f) && IsBaseTable(g, table, f)
    requires |e| == 64 && forall k {:trigger e[k]} :: 0 <= k < 64 ==> -8 <= e[k] <= 8
    modifies t.yPlusX, t.yMinusX, t.xy2d
    ensures h == f(Hex(e))
  {
    hide IsBaseTable;
    h := Pass(t, g, g.zero, table, e, 1, f, 0);
    h := MulBy16(g, h, f, Every2nd(e, 1));
    h := Pass(t, g, h, table, e, 0, f, 16 * Every2nd(e, 1));
    EvenAndOdd(e, 0);
    assert e[0..] == e;
  }

  lemma TimesIsMultiples<T(!new)>(g: Group<T>, b: T, f: int -> T)
    requires IsAbelian(g) && forall n {:trigger f(n)} :: f(n) == Times(g, n, b)
    ensures IsMultiples(g, f)
  {
    forall x, y {:trigger AddsAt(g, f, x, y)} ensures AddsAt(g, f, x, y) {
      TimesAdd(g, x, y, b);
    }
    forall x {:trigger f(-x)} ensures g.neg(f(x)) == f(-x) {
      TimesNegate(g, x, b);
    }
  }
}
