/** Encoding and decoding of Bech32 strings. */
module Bech32Codec {
  import opened MachineInts
  import opened Bech32Bits
  import opened Bech32Checksum
  import opened Bech32
  import opened Wrappers

  // What the functions return.

  predicate IsPrefix(hrp: seq<ascii>) {
    |hrp| >= 1 && forall i :: 0 <= i < |hrp| ==> 33 <= hrp[i] <= 126
  }

  predicate SingleCase(s: seq<ascii>) {
    Lower(s) == s || Upper(s) == s
  }

  function Letters(s: seq<byte>): (r: seq<ascii>)
    requires Below(s, 32)
    ensures |r| == |s|
  {
    seq(|s|, i requires 0 <= i < |s| => Letter(s[i]))
  }

  predicate AllLetters(s: seq<ascii>) {
    forall i {:trigger s[i]} :: 0 <= i < |s| ==> PositionOf(s[i]).Some?
  }

  function Positions(s: seq<ascii>): (r: seq<byte>)
    requires AllLetters(s)
    ensures |r| == |s| && Below(r, 32)
  {
    PositionsBelow(s);
    seq(|s|, i requires 0 <= i < |s| => PositionOf(s[i]).value)
  }

  lemma PositionsBelow(s: seq<ascii>)
    requires AllLetters(s)
    ensures forall i {:trigger s[i]} :: 0 <= i < |s| ==> 0 <= PositionOf(s[i]).value < 32
  {
    hide Letter, PositionOf;
    forall i {:trigger s[i]} | 0 <= i < |s| ensures 0 <= PositionOf(s[i]).value < 32 { PositionLetter(s[i]); }
  }

  /** The lower-case string of a prefix and symbols. */
  function Body(hrp: seq<ascii>, values: seq<byte>): seq<ascii>
    requires Below(values, 32)
  {
    ChecksumVerifies(hrp, values);
    Lower(hrp) + [SEPARATOR] + Letters(values + Checksum(hrp, values))
  }

  function Symbols8(data: seq<byte>): (r: seq<byte>)
    ensures Below(r, 32) && Regroup(data, 8, 5, true) == Some(r) && Regroup(r, 5, 8, false) == Some(data)
  {
    BytesSymbolsBytes(data);
    Regroup(data, 8, 5, true).value
  }

  function Encoded(hrp: seq<ascii>, data: seq<byte>): Option<seq<ascii>> {
    if !IsPrefix(hrp) || !SingleCase(hrp) then None
    else
      var body := Body(hrp, Symbols8(data));
      Some(if Lower(hrp) == hrp then body else Upper(body))
  }

  function Decoded(s: seq<ascii>): Option<(seq<ascii>, seq<int>)> {
    var pos := LastIndex(s, SEPARATOR);
    if !SingleCase(s) || pos < 1 || pos + 7 > |s| || !IsPrefix(s[..pos]) || !AllLetters(Lower(s)[pos + 1..]) then None
    else
      var values := Positions(Lower(s)[pos + 1..]);
      if !Verify(s[..pos], values) then None
      else match Regroup(values[..|values| - 6], 5, 8, false)
        case None => None
        case Some(data) => Some((s[..pos], data))
  }

  // Both are inverses.

  lemma CharCases(c: ascii)
    ensures ToLower(ToLower(c)) == ToLower(c) && ToUpper(ToUpper(c)) == ToUpper(c) && ToLower(ToUpper(c)) == ToLower(c)
    ensures ToUpper(c) == c ==> ToUpper(ToLower(c)) == c
  {
  }

  lemma Cases(s: seq<ascii>)
    ensures Lower(Lower(s)) == Lower(s) && Upper(Upper(s)) == Upper(s) && Lower(Upper(s)) == Lower(s)
    ensures Upper(s) == s ==> Upper(Lower(s)) == s
  {
    forall i | 0 <= i < |s|
      ensures Lower(Lower(s))[i] == Lower(s)[i] && Upper(Upper(s))[i] == Upper(s)[i] && Lower(Upper(s))[i] == Lower(s)[i]
      ensures Upper(s)[i] == s[i] ==> Upper(Lower(s))[i] == s[i]
    {
      CharCases(s[i]);
    }
  }

  lemma CasesAppend(a: seq<ascii>, b: seq<ascii>)
    ensures Lower(a + b) == Lower(a) + Lower(b) && Upper(a + b) == Upper(a) + Upper(b)
  {
    hide ToLower, ToUpper;
  }

  lemma LettersCase(s: seq<byte>)
    requires Below(s, 32)
    ensures Lower(Letters(s)) == Letters(s)
    ensures AllLetters(Letters(s)) && Positions(Letters(s)) == s
    ensures LastIndex(Letters(s), SEPARATOR) == -1 && LastIndex(Upper(Letters(s)), SEPARATOR) == -1
  {
    hide Letter, PositionOf, ToLower, ToUpper;
    var t := Letters(s);
    forall i | 0 <= i < |s|
      ensures PositionOf(t[i]) == Some(s[i]) && ToLower(t[i]) == t[i] && t[i] != SEPARATOR && ToUpper(t[i]) != SEPARATOR
    {
      LetterPosition(s[i]);
    }
    NotFound(t);
    NotFound(Upper(t));
  }

  lemma {:induction false} NotFound(s: seq<ascii>)
    requires forall i :: 0 <= i < |s| ==> s[i] != SEPARATOR
    ensures LastIndex(s, SEPARATOR) == -1
  {
    if s != [] { NotFound(s[..|s| - 1]); }
  }

  lemma {:induction false} LastIndexAfter(a: seq<ascii>, b: seq<ascii>)
    requires LastIndex(b, SEPARATOR) == -1
    ensures LastIndex(a + [SEPARATOR] + b, SEPARATOR) == |a|
    decreases |b|
  {
    var s := a + [SEPARATOR] + b;
    if b == [] {
      assert s[|s| - 1] == SEPARATOR;
    } else {
      LastIndexAfter(a, b[..|b| - 1]);
      assert s[..|s| - 1] == a + [SEPARATOR] + b[..|b| - 1];
    }
  }

  lemma {:induction false} LastIndexFound(s: seq<ascii>)
    requires LastIndex(s, SEPARATOR) >= 0
    ensures var p := LastIndex(s, SEPARATOR); p < |s| && s[p] == SEPARATOR
  {
    if s[|s| - 1] != SEPARATOR { LastIndexFound(s[..|s| - 1]); }
  }

  lemma SeparatorCase()
    ensures Upper([SEPARATOR]) == [SEPARATOR] && Lower([SEPARATOR]) == [SEPARATOR]
  {
  }

  /** The string of a prefix and bytes decodes to them, in either case that the prefix is in. */
  lemma DecodesInCase(hrp: seq<ascii>, data: seq<byte>, upper: bool)
    requires IsPrefix(hrp) && (if upper then Upper(hrp) else Lower(hrp)) == hrp
    ensures var body := Body(hrp, Symbols8(data)); Decoded(if upper then Upper(body) else body) == Some((hrp, data))
  {
    hide ToLower, ToUpper, Letter, PositionOf, Regroup, Checksum, Verify, Symbols8, Positions, Letters, LastIndex, Lower, Upper;
    var v := Symbols8(data);
    var all := v + Checksum(hrp, v);
    ChecksumVerifies(hrp, v);
    var t := Letters(all);
    LettersCase(all);
    Cases(hrp);
    Cases(t);
    SeparatorCase();
    var body := Lower(hrp) + [SEPARATOR] + t;
    CasesAppend(Lower(hrp) + [SEPARATOR], t);
    CasesAppend(Lower(hrp), [SEPARATOR]);
    assert Lower(body) == body;
    var tail := if upper then Upper(t) else t;
    var s := if upper then Upper(body) else body;
    Cases(body);
    assert s == hrp + [SEPARATOR] + tail;
    LastIndexAfter(hrp, tail);
    assert s[..|hrp|] == hrp && Lower(s) == body && body[|hrp| + 1..] == t;
    assert all[..|all| - 6] == v;
  }

  /** Decoding what was encoded gives the prefix and the bytes back. */
  lemma DecodeEncode(hrp: seq<ascii>, data: seq<byte>)
    requires Encoded(hrp, data).Some?
    ensures Decoded(Encoded(hrp, data).value) == Some((hrp, data))
  {
    hide ToLower, ToUpper, Body, Symbols8, Lower, Upper, LastIndex, Regroup, Verify, Positions;
    DecodesInCase(hrp, data, Lower(hrp) != hrp);
  }

  /** The prefix "2" and a zero byte, in upper case: decoded, and encoded again in lower case. */
  lemma UpperCaseIsLost()
    ensures var s := Upper(Encoded([50], [0]).value);
      Decoded(s) == Some(([50], [0])) && Lower(Encoded([50], [0]).value) == Encoded([50], [0]).value != s
  {
    hide LastIndex, Verify, Checksum, Regroup, PositionOf, Symbols8, Positions, Letter;
    var hrp, v := [50], Symbols8([0]);
    assert Lower(hrp) == hrp && Upper(hrp) == hrp;
    DecodesInCase(hrp, [0], true);
    var all := v + Checksum(hrp, v);
    ChecksumVerifies(hrp, v);
    LettersCase(all);
    SeparatorCase();
    CasesAppend(hrp + [SEPARATOR], Letters(all));
    CasesAppend(hrp, [SEPARATOR]);
    FirstSymbolOfZero();
    assert Letters(all)[0] == 113;
    assert Upper(Letters(all))[0] == 81;
  }

  lemma FirstSymbolOfZero()
    ensures Symbols8([0]) == [0, 0] && Letter(0) == 113
  {
    var n := Number([0], 8);
    assert n == 0 by { assert [0][..0] == []; }
    assert Digits(0, 5, 2) == [0, 0] by { assert Digits(0, 5, 1) == [0]; }
  }

  lemma LettersOfPositions(s: seq<ascii>)
    requires AllLetters(s)
    ensures Letters(Positions(s)) == s
  {
    hide Letter, PositionOf;
    forall i | 0 <= i < |s| ensures Letters(Positions(s))[i] == s[i] { PositionLetter(s[i]); }
  }

  /**
   * Encoding what was decoded gives the string back up to letter case, and exactly if and only if the
   * string is in lower case or its prefix has an upper-case letter.
   */
  lemma EncodeDecode(s: seq<ascii>)
    requires Decoded(s).Some?
    ensures var (hrp, data) := Decoded(s).value;
      Below(data, 0x100) && Encoded(hrp, data).Some? && Lower(Encoded(hrp, data).value) == Lower(s)
      && (Encoded(hrp, data).value == s <==> Lower(s) == s || Lower(hrp) != hrp)
  {
    hide ToLower, ToUpper, Letter, PositionOf, Regroup, Checksum, Verify, Positions, Letters, Lower, Upper, LastIndex;
    var pos := LastIndex(s, SEPARATOR);
    var (hrp, data) := Decoded(s).value;
    var low := Lower(s);
    var t := low[pos + 1..];
    var values := Positions(t);
    var v, c := values[..|values| - 6], values[|values| - 6..];
    assert v + c == values;
    SymbolsBytesSymbols(v);
    assert Symbols8(data) == v;
    ChecksumUnique(hrp, v, c);
    LettersOfPositions(t);
    LastIndexFound(s);
    assert s == s[..pos] + [SEPARATOR] + s[pos + 1..];
    CasesAppend(s[..pos] + [SEPARATOR], s[pos + 1..]);
    CasesAppend(s[..pos], [SEPARATOR]);
    SeparatorCase();
    assert low == Lower(hrp) + [SEPARATOR] + t;
    assert Body(hrp, v) == low;
    Cases(s);
    Cases(hrp);
    assert Upper(s) == s ==> Upper(hrp) == hrp by { if Upper(s) == s { assert Upper(s)[..pos] == hrp; } }
    assert Lower(s) == s ==> Lower(hrp) == hrp by { if Lower(s) == s { assert Lower(s)[..pos] == hrp; } }
  }

  // The code.

  /** A step up to the feedback of bit `i`. */
  function Mixed(chk: bv32, v: bv32, i: nat): bv32
    requires i <= 5
  {
    if i == 0 then X(Shifted(chk), v) else X(Mixed(chk, v, i - 1), Feedback(Top(chk), i - 1))
  }

  lemma MixedIsStep(chk: bv32, v: bv32)
    ensures Mixed(chk, v, 5) == Step(chk, v)
  {
    hide X, Shifted, Feedback, Top;
    assert Mixed(chk, v, 1) == X(Mixed(chk, v, 0), Feedback(Top(chk), 0));
    assert Mixed(chk, v, 2) == X(Mixed(chk, v, 1), Feedback(Top(chk), 1));
    assert Mixed(chk, v, 3) == X(Mixed(chk, v, 2), Feedback(Top(chk), 2));
    assert Mixed(chk, v, 4) == X(Mixed(chk, v, 3), Feedback(Top(chk), 3));
  }

  lemma MixBit(x: bv32, top: bv32, i: nat)
    requires i < 5
    ensures X(x, Feedback(top, i)) == if Bit(top, i) == 1 then X(x, Generator(i)) else x
  {
    hide Bit, Generator, X;
    XorSame(x);
  }

  method Polymod(values: seq<byte>) returns (chk: bv32)
    ensures chk == Run(1, Syms(values))
  {
    hide X, Shifted, Feedback, Top, Bit, Generator, Sym, Step, Run, Mixed;
    chk := 1;
    assert values[..0] == [] && Syms([]) == [];
    RunNone(1);
    for k := 0 to |values|
      invariant chk == Run(1, Syms(values[..k]))
    {
      ghost var before := chk;
      var v := Sym(values[k]);
      var top := Top(chk);
      chk := Shifted(chk);
      chk := X(chk, v);
      MixedStart(before, v);
      for i := 0 to 5
        invariant chk == Mixed(before, v, i)
      {
        MixBit(chk, top, i);
        MixedNext(before, v, i);
        var bit := Bit(top, i);
        if bit == 1 { chk := X(chk, Generator(i)); }
      }
      MixedIsStep(before, v);
      assert values[..k + 1] == values[..k] + [values[k]];
      SymsAppend(values[..k], [values[k]]);
      assert Syms([values[k]]) == [v];
      RunAppend(1, Syms(values[..k]), [v]);
      RunOne(before, v);
    }
    assert values[..|values|] == values;
  }

  lemma RunNone(chk: bv32)
    ensures Run(chk, []) == chk
  {
  }

  lemma RunOne(chk: bv32, v: bv32)
    ensures Run(chk, [v]) == Step(chk, v)
  {
    hide Step;
    assert [v][1..] == [];
    RunNone(Step(chk, v));
  }

  lemma MixedStart(chk: bv32, v: bv32)
    ensures Mixed(chk, v, 0) == X(Shifted(chk), v)
  {
  }

  lemma MixedNext(chk: bv32, v: bv32, i: nat)
    requires i < 5
    ensures Mixed(chk, v, i + 1) == X(Mixed(chk, v, i), Feedback(Top(chk), i))
  {
    hide X, Shifted, Feedback, Top;
  }

  method HrpExpand(hrp: seq<ascii>) returns (ret: seq<byte>)
    ensures ret == Expand(hrp)
  {
    hide ToLower;
    var h := Lower(hrp);
    ret := [];
    for i := 0 to |h|
      invariant |ret| == i && forall k {:trigger ret[k]} :: 0 <= k < i ==> ret[k] == h[k] / 32
    {
      ret := ret + [h[i] / 32];
    }
    ret := ret + [0];
    for i := 0 to |h|
      invariant |ret| == |h| + 1 + i && ret[|h|] == 0
      invariant forall k {:trigger ret[k]} :: 0 <= k < |h| ==> ret[k] == h[k] / 32
      invariant forall k {:trigger h[k]} :: 0 <= k < i ==> ret[|h| + 1 + k] == h[k] % 32
    {
      ret := ret + [h[i] % 32];
    }
    forall k | 0 <= k < |ret| ensures ret[k] == Expand(hrp)[k] {
      if k > |h| { assert ret[k] == h[k - |h| - 1] % 32; }
    }
  }

  method VerifyChecksum(hrp: seq<ascii>, data: seq<byte>) returns (ok: bool)
    ensures ok == Verify(hrp, data)
  {
    hide Run;
    var values := HrpExpand(hrp);
    var chk := Polymod(values + data);
    ok := chk == 1;
  }

  /** A word shifted right by `j` symbols. */
  function ShiftedBy(m: bv32, j: nat): bv32
    decreases j
  {
    if j == 0 then m else ShiftedBy(Rest(m), j - 1)
  }

  lemma {:induction false} UnpackedAt(m: bv32, n: nat, p: nat)
    requires p < n
    ensures Unpacked(m, n)[p] == Last(ShiftedBy(m, n - 1 - p))
    decreases n
  {
    hide Last, Rest;
    if p < n - 1 { UnpackedAt(Rest(m), n - 1, p); }
  }

  method CreateChecksum(hrp: seq<ascii>, data: seq<byte>) returns (r: seq<byte>)
    requires Below(data, 32)
    ensures r == Checksum(hrp, data)
  {
    hide Run, X, Unpacked, Step, Last, Rest, Expand, Unsym;
    ChecksumSymbols(hrp, data);
    var values := HrpExpand(hrp);
    values := values + data;
    values := values + ZEROS;
    var chk := Polymod(values);
    var mod := X(chk, 1);
    ghost var c := Unpacked(mod, 6);
    var ret := new byte[6];
    for p := 0 to 6
      invariant forall k {:trigger ret[k]} :: 0 <= k < p ==> ret[k] == Unsym(c[k])
    {
      UnpackedAt(mod, 6, p);
      ret[p] := Unsym(Last(ShiftedBy(mod, 5 - p)));
    }
    r := ret[..];
    assert forall k {:trigger r[k]} :: 0 <= k < 6 ==> r[k] == ret[k];
  }

  method IsPrefixCode(hrp: seq<ascii>) returns (ok: bool)
    ensures ok == IsPrefix(hrp)
  {
    if |hrp| < 1 { return false; }
    for p := 0 to |hrp|
      invariant forall i :: 0 <= i < p ==> 33 <= hrp[i] <= 126
    {
      if hrp[p] < 33 || hrp[p] > 126 { return false; }
    }
    return true;
  }

  /** Looks a character up in the character set; -1 if it is not there. */
  method IndexRune(c: ascii) returns (d: int)
    ensures if PositionOf(c).None? then d == -1 else d == PositionOf(c).value
  {
    hide Letter, PositionOf;
    d := 0;
    while d < 32
      invariant 0 <= d <= 32 && forall p {:trigger Letter(p)} :: 0 <= p < d ==> Letter(p) != c
    {
      if Letter(d) == c {
        LetterPosition(d);
        return;
      }
      d := d + 1;
    }
    if PositionOf(c).Some? { PositionLetter(c); }
    d := -1;
  }

  method Encode(hrp: seq<ascii>, data: seq<byte>) returns (s: Option<seq<ascii>>)
    ensures s == Encoded(hrp, data)
  {
    hide Letter, ToLower, ToUpper, Checksum, Regroup;
    var converted := ConvertBits(data, 8, 5, true);
    BytesSymbolsBytes(data);
    var values := converted.value;
    var valid := IsPrefixCode(hrp);
    if !valid { return None; }
    if Upper(hrp) != hrp && Lower(hrp) != hrp { return None; }
    var lower := Lower(hrp) == hrp;
    var low := Lower(hrp);
    Cases(hrp);
    var ret: seq<ascii> := low + [SEPARATOR];
    for i := 0 to |values|
      invariant ret == low + [SEPARATOR] + Letters(values)[..i]
    {
      ret := ret + [Letter(values[i])];
    }
    var checksum := CreateChecksum(low, values);
    SameChecksum(low, hrp, values);
    ChecksumVerifies(hrp, values);
    ghost var all := Letters(values + checksum);
    assert ret == low + [SEPARATOR] + all[..|values|];
    for i := 0 to 6
      invariant ret == low + [SEPARATOR] + all[..|values| + i]
    {
      ret := ret + [Letter(checksum[i])];
    }
    assert ret == low + [SEPARATOR] + all;
    return Some(if lower then ret else Upper(ret));
  }

  lemma SameChecksum(hrp: seq<ascii>, other: seq<ascii>, data: seq<byte>)
    requires Lower(hrp) == Lower(other) && Below(data, 32)
    ensures Checksum(hrp, data) == Checksum(other, data)
  {
    hide Run, Lower, Unpacked, X, Step;
    assert |hrp| == |Lower(hrp)| == |Lower(other)| == |other|;
    assert Expand(hrp) == Expand(other);
    ChecksumSymbols(hrp, data);
  }

  method Decode(s: seq<ascii>) returns (r: Option<(seq<ascii>, seq<byte>)>)
    ensures r == Decoded(s)
  {
    hide Letter, PositionOf, ToLower, ToUpper, Regroup, Verify;
    if Lower(s) != s && Upper(s) != s { return None; }
    var pos := LastIndex(s, SEPARATOR);
    if pos < 1 || pos + 7 > |s| { return None; }
    var hrp := s[..pos];
    var valid := IsPrefixCode(hrp);
    if !valid { return None; }
    var low := Lower(s);
    var t := low[pos + 1..];
    var data: seq<byte> := [];
    for p := 0 to |t|
      invariant |data| == p && forall i {:trigger data[i]} :: 0 <= i < p ==> PositionOf(t[i]) == Some(data[i])
    {
      var d := IndexRune(t[p]);
      if d == -1 { return None; }
      PositionLetter(t[p]);
      data := data + [d];
    }
    Collected(t, data);
    var ok := VerifyChecksum(hrp, data);
    if !ok { return None; }
    var converted := ConvertBits(data[..|data| - 6], 5, 8, false);
    if converted.None? { return None; }
    return Some((hrp, converted.value));
  }

  lemma Collected(t: seq<ascii>, data: seq<byte>)
    requires |data| == |t| && forall i {:trigger data[i]} :: 0 <= i < |t| ==> PositionOf(t[i]) == Some(data[i])
    ensures AllLetters(t) && Positions(t) == data
  {
    hide PositionOf;
    forall i {:trigger t[i]} | 0 <= i < |t| ensures PositionOf(t[i]).Some? { assert PositionOf(t[i]) == Some(data[i]); }
    forall i | 0 <= i < |t| ensures Positions(t)[i] == data[i] { assert PositionOf(t[i]) == Some(data[i]); }
  }
}
