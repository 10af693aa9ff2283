/** Bech32 strings: a prefix, the separator 1, and symbols with a checksum, all as ASCII bytes. */
module Bech32 {
  import opened MachineInts
  import opened Bech32Bits
  import opened Bech32Checksum
  import opened Wrappers

  type ascii = c: int | 0 <= c < 0x80

  const SEPARATOR: ascii := 49

  /** The character set "qpzry9x8gf2tvdw0s3jn54khce6mua7l" by position. */
  function Letter(p: nat): ascii
    requires p < 32
  {
    match p
    case 0 => 113 case 1 => 112 case 2 => 122 case 3 => 114
    case 4 => 121 case 5 => 57 case 6 => 120 case 7 => 56
    case 8 => 103 case 9 => 102 case 10 => 50 case 11 => 116
    case 12 => 118 case 13 => 100 case 14 => 119 case 15 => 48
    case 16 => 115 case 17 => 51 case 18 => 106 case 19 => 110
    case 20 => 53 case 21 => 52 case 22 => 107 case 23 => 104
    case 24 => 99 case 25 => 101 case 26 => 54 case 27 => 109
    case 28 => 117 case 29 => 97 case 30 => 55 case _ => 108
  }

  /** The position of a character in the set. */
  function PositionOf(c: ascii): Option<nat> {
    match c
    case 113 => Some(0) case 112 => Some(1) case 122 => Some(2) case 114 => Some(3)
    case 121 => Some(4) case 57 => Some(5) case 120 => Some(6) case 56 => Some(7)
    case 103 => Some(8) case 102 => Some(9) case 50 => Some(10) case 116 => Some(11)
    case 118 => Some(12) case 100 => Some(13) case 119 => Some(14) case 48 => Some(15)
    case 115 => Some(16) case 51 => Some(17) case 106 => Some(18) case 110 => Some(19)
    case 53 => Some(20) case 52 => Some(21) case 107 => Some(22) case 104 => Some(23)
    case 99 => Some(24) case 101 => Some(25) case 54 => Some(26) case 109 => Some(27)
    case 117 => Some(28) case 97 => Some(29) case 55 => Some(30) case 108 => Some(31)
    case _ => None
  }

  lemma LetterPosition(p: nat)
    requires p < 32
    ensures PositionOf(Letter(p)) == Some(p) && Letter(p) != SEPARATOR && 33 <= Letter(p) <= 126
    ensures ToLower(Letter(p)) == Letter(p) && ToLower(ToUpper(Letter(p))) == Letter(p) && ToUpper(Letter(p)) != SEPARATOR
  {
  }

  lemma PositionLetter(c: ascii)
    requires PositionOf(c).Some?
    ensures PositionOf(c).value < 32 && Letter(PositionOf(c).value) == c
  {
  }

  function ToLower(c: ascii): ascii {
    if 65 <= c <= 90 then c + 32 else c
  }

  function ToUpper(c: ascii): ascii {
    if 97 <= c <= 122 then c - 32 else c
  }

  function Lower(s: seq<ascii>): (r: seq<ascii>)
    ensures |r| == |s|
  {
    seq(|s|, i requires 0 <= i < |s| => ToLower(s[i]))
  }

  function Upper(s: seq<ascii>): (r: seq<ascii>)
    ensures |r| == |s|
  {
    seq(|s|, i requires 0 <= i < |s| => ToUpper(s[i]))
  }

  /** The last place of a character, or -1. */
  function LastIndex(s: seq<ascii>, c: ascii): (p: int)
    ensures -1 <= p < |s|
  {
    if s == [] then -1 else if s[|s| - 1] == c then |s| - 1 else LastIndex(s[..|s| - 1], c)
  }

  // Symbols as words.

  function Sym(x: byte): bv32 {
    (x as bv8) as bv32
  }

  function Unsym(w: bv32): byte
    requires w < 32
  {
    WordFits(w);
    (w as bv8) as int
  }

  lemma WordFits(w: bv32)
    requires w < 32
    ensures w <= 0xff && 0 <= (w as bv8) as int < 0x100
  {
  }

  lemma SymInverse(x: byte)
    requires x < 32
    ensures Sym(x) < 32 && Unsym(Sym(x)) == x
  {
  }

  lemma UnsymInverse(w: bv32)
    requires w < 32
    ensures Unsym(w) < 32 && Sym(Unsym(w)) == w
  {
  }

  function Syms(s: seq<byte>): (r: seq<bv32>)
    ensures |r| == |s|
  {
    seq(|s|, i requires 0 <= i < |s| => Sym(s[i]))
  }

  /** The prefix as symbols: the high bits of its lower-case characters, zero, and the low bits. */
  function Expand(hrp: seq<ascii>): (r: seq<byte>)
    ensures |r| == 2 * |hrp| + 1
  {
    var low := Lower(hrp);
    seq(|hrp|, i requires 0 <= i < |hrp| => low[i] / 32) + [0] + seq(|hrp|, i requires 0 <= i < |hrp| => low[i] % 32)
  }

  predicate Verify(hrp: seq<ascii>, data: seq<byte>) {
    Run(1, Syms(Expand(hrp) + data)) == 1
  }

  lemma ModBound(values: seq<byte>)
    requires Below(values, 32)
    ensures Run(1, Syms(values)) < 0x4000_0000 && Symbols(Syms(values))
  {
    hide Step, Sym;
    forall i | 0 <= i < |values| ensures Syms(values)[i] < 32 { SymInverse(values[i]); }
    RunBound(1, Syms(values));
  }

  lemma ExpandBelow(hrp: seq<ascii>, data: seq<byte>)
    requires Below(data, 32)
    ensures Below(Expand(hrp) + data, 32)
  {
  }

  const ZEROS: seq<byte> := [0, 0, 0, 0, 0, 0]

  function Unsyms(s: seq<bv32>): (r: seq<byte>)
    requires Symbols(s)
    ensures |r| == |s|
  {
    seq(|s|, i requires 0 <= i < |s| => Unsym(s[i]))
  }

  /** The six symbols that complete the data. */
  function Checksum(hrp: seq<ascii>, data: seq<byte>): (r: seq<byte>)
    requires Below(data, 32)
    ensures |r| == 6
  {
    var c := Unpacked(X(Run(1, Syms(Expand(hrp) + data + ZEROS)), 1), 6);
    ChecksumSymbols(hrp, data);
    Unsyms(c)
  }

  lemma ChecksumSymbols(hrp: seq<ascii>, data: seq<byte>)
    requires Below(data, 32)
    ensures Symbols(Unpacked(X(Run(1, Syms(Expand(hrp) + data + ZEROS)), 1), 6))
  {
    hide Step, X, Unpacked, FitsIn, Expand;
    ExpandBelow(hrp, data);
    ModBound(Expand(hrp) + data + ZEROS);
    OneFlipped(Run(1, Syms(Expand(hrp) + data + ZEROS)));
    PackUnpacked(X(Run(1, Syms(Expand(hrp) + data + ZEROS)), 1), 6);
  }

  lemma SymsAppend(a: seq<byte>, b: seq<byte>)
    ensures Syms(a + b) == Syms(a) + Syms(b)
  {
    hide Sym;
  }

  /** The checksum makes the data verify. */
  lemma ChecksumVerifies(hrp: seq<ascii>, data: seq<byte>)
    requires Below(data, 32)
    ensures Below(Checksum(hrp, data), 32) && Verify(hrp, data + Checksum(hrp, data))
  {
    hide Step, X, Unpacked, FitsIn, Expand, Sym, Unsym, Run;
    ChecksumSymbols(hrp, data);
    ExpandBelow(hrp, data);
    var values := Expand(hrp) + data;
    var w := Unpacked(X(Run(1, Syms(values + ZEROS)), 1), 6);
    var c := Checksum(hrp, data);
    forall i | 0 <= i < 6 ensures c[i] < 32 && Syms(c)[i] == w[i] { UnsymInverse(w[i]); }
    assert Syms(c) == w;
    ModBound(values);
    SymsAppend(values, ZEROS);
    ZeroSyms();
    ChecksumWorks(Syms(values), Syms(ZEROS), w);
    SymsAppend(values, c);
    assert Expand(hrp) + (data + c) == values + c;
  }

  lemma ZeroSyms()
    ensures Syms(ZEROS) == [0, 0, 0, 0, 0, 0]
  {
    assert Sym(0) == 0;
  }

  /**
   * Two data parts of the same length under one prefix that differ only inside a window of six
   * consecutive symbols cannot both verify, whatever the length.
   */
  lemma DetectsSixSymbols(hrp: seq<ascii>, a: seq<byte>, b: seq<byte>, k: nat)
    requires |a| == |b| && Below(a, 32) && Below(b, 32) && k + 6 <= |a|
    requires a[..k] == b[..k] && a[k + 6..] == b[k + 6..]
    requires Verify(hrp, a) && Verify(hrp, b)
    ensures a == b
  {
    hide Step, Expand, Sym, Run, X;
    var e := Expand(hrp);
    ExpandBelow(hrp, a);
    ExpandBelow(hrp, b);
    ModBound(e + a);
    ModBound(e + b);
    var x, y := Syms(e + a), Syms(e + b);
    SymsAppend(e, a);
    SymsAppend(e, b);
    assert x[..|e| + k] == Syms(e) + Syms(a)[..k] && Syms(a)[..k] == Syms(a[..k]);
    assert y[..|e| + k] == Syms(e) + Syms(b)[..k] && Syms(b)[..k] == Syms(b[..k]);
    assert x[|e| + k + 6..] == Syms(a)[k + 6..] == Syms(a[k + 6..]);
    assert y[|e| + k + 6..] == Syms(b)[k + 6..] == Syms(b[k + 6..]);
    SixSymbolsDetected(1, x, y, |e| + k);
    forall i | 0 <= i < |a| ensures a[i] == b[i] {
      assert Syms(a)[i] == x[|e| + i] == y[|e| + i] == Syms(b)[i];
      SymInverse(a[i]);
      SymInverse(b[i]);
    }
  }

  /** There is only one checksum. */
  lemma ChecksumUnique(hrp: seq<ascii>, data: seq<byte>, c: seq<byte>)
    requires Below(data, 32) && Below(c, 32) && |c| == 6 && Verify(hrp, data + c)
    ensures c == Checksum(hrp, data)
  {
    hide Step, Expand, Verify, Checksum;
    var d := Checksum(hrp, data);
    ChecksumVerifies(hrp, data);
    var a, b := data + c, data + d;
    assert a[..|data|] == b[..|data|] && a[|data| + 6..] == b[|data| + 6..];
    DetectsSixSymbols(hrp, a, b, |data|);
    assert c == a[|data|..] && d == b[|data|..];
  }
}
